/**
 * Isotope-to-quantity maps (`CompMap` in the source) and the arithmetic the
 * IsoVector operators perform on them.
 *
 * The maps here hold absolute quantities (a fraction times its normaliser);
 * an isotope missing from a map has quantity zero.  Quantities are exact
 * reals.
 */
module CompMaps {

  import opened Wrappers
  import opened Collections
  import opened Nuclides
  import opened CycErrors

  /** Map of isotope integer to a value (mass or atom). */
  type CompMap = map<Iso, real>

  /** Smallest kilogram value (EPS_KG). */
  const EpsKg: real := 0.000001

  /** The quantity of `tope` in `m`; zero when the isotope is absent. */
  function Amount(m: CompMap, tope: Iso): real
  {
    if tope in m then m[tope] else 0.0
  }

  predicate NonNegative(m: CompMap)
  {
    forall t | t in m :: m[t] >= 0.0
  }

  // ---------------------------------------------------------------------
  // The total of a map
  // ---------------------------------------------------------------------

  /** Removing a present key shrinks a map by one. */
  lemma RemoveSize(m: CompMap, tope: Iso)
    requires tope in m
    ensures |m - {tope}| == |m| - 1
  {
    assert forall t :: t in (m - {tope}).Keys <==> t in m.Keys - {tope};
    assert (m - {tope}).Keys == m.Keys - {tope};
  }

  /** No isotope occurs twice in `ks`. */
  predicate Distinct(ks: seq<Iso>)
  {
    forall i, j | 0 <= i < j < |ks| :: ks[i] != ks[j]
  }

  /** The quantities of `m` summed along the isotope list `ks`. */
  function SumOver(m: CompMap, ks: seq<Iso>): real
  {
    if |ks| == 0 then 0.0 else Amount(m, ks[0]) + SumOver(m, ks[1..])
  }

  /** `ks` lists the set `s`, each element once. */
  ghost predicate Lists(ks: seq<Iso>, s: set<Iso>)
  {
    Distinct(ks) && forall t :: t in ks <==> t in s
  }

  /** Every finite set of isotopes has a listing. */
  lemma {:induction false} ListingExists(s: set<Iso>)
    ensures exists ks :: Lists(ks, s)
    decreases |s|
  {
    if s == {} {
      assert Lists([], s);
    } else {
      EmptyOrInhabited(s);
      var t :| t in s;
      ListingExists(s - {t});
      var rest :| Lists(rest, s - {t});
      var ks := [t] + rest;
      assert forall i | 1 <= i < |ks| :: ks[i] == rest[i - 1];
      assert Lists(ks, s);
    }
  }

  /** Some listing of the set `s`, each element once. */
  ghost function Enumerate(s: set<Iso>): (ks: seq<Iso>)
    ensures Lists(ks, s)
  {
    ListingExists(s);
    var ks :| Lists(ks, s); ks
  }

  /** The sum of all quantities in `m`: its quantities summed along a listing of its isotopes. */
  ghost function Total(m: CompMap): real
  {
    SumOver(m, Enumerate(m.Keys))
  }

  /** Dropping the head of a duplicate-free list leaves a duplicate-free list without it. */
  lemma DistinctTail(ks: seq<Iso>)
    requires Distinct(ks) && |ks| > 0
    ensures Distinct(ks[1..]) && ks[0] !in ks[1..]
  {
    assert forall i | 0 <= i < |ks[1..]| :: ks[1..][i] == ks[i + 1];
  }

  /** Maps that agree along `ks` have the same sum along it. */
  lemma {:induction false} SumOverSame(m: CompMap, m': CompMap, ks: seq<Iso>)
    requires forall t | t in ks :: Amount(m, t) == Amount(m', t)
    ensures SumOver(m, ks) == SumOver(m', ks)
    decreases |ks|
  {
    if |ks| != 0 {
      SumOverSame(m, m', ks[1..]);
    }
  }

  /** A list along which every quantity is zero sums to zero. */
  lemma {:induction false} SumOverZero(m: CompMap, ks: seq<Iso>)
    requires forall t | t in ks :: Amount(m, t) == 0.0
    ensures SumOver(m, ks) == 0.0
    decreases |ks|
  {
    if |ks| != 0 {
      SumOverZero(m, ks[1..]);
    }
  }

  /** Taking one listed isotope out of the map takes its quantity out of the sum. */
  lemma {:induction false} SumOverRemove(m: CompMap, ks: seq<Iso>, tope: Iso)
    requires Distinct(ks) && tope in ks
    ensures SumOver(m, ks) == Amount(m, tope) + SumOver(m - {tope}, ks)
    decreases |ks|
  {
    DistinctTail(ks);
    if ks[0] == tope {
      SumOverSame(m, m - {tope}, ks[1..]);
    } else {
      SumOverRemove(m, ks[1..], tope);
    }
  }

  /** Any two duplicate-free listings that cover the isotopes of `m` give the same sum. */
  lemma {:induction false} SumOverPermutation(m: CompMap, ks: seq<Iso>, ks': seq<Iso>)
    requires Distinct(ks) && Distinct(ks')
    requires forall t | t in m :: t in ks && t in ks'
    ensures SumOver(m, ks) == SumOver(m, ks')
    decreases |ks|
  {
    if |ks| == 0 {
      SumOverZero(m, ks');
    } else {
      var k := ks[0];
      DistinctTail(ks);
      if k in ks' {
        SumOverRemove(m, ks', k);
        SumOverSame(m, m - {k}, ks[1..]);
        SumOverPermutation(m - {k}, ks[1..], ks');
      } else {
        SumOverPermutation(m, ks[1..], ks');
      }
    }
  }

  /** Summing along any duplicate-free list that covers the isotopes of `m` gives its total. */
  lemma SumOverTotal(m: CompMap, ks: seq<Iso>)
    requires Distinct(ks)
    requires forall t | t in m :: t in ks
    ensures SumOver(m, ks) == Total(m)
  {
    SumOverPermutation(m, ks, Enumerate(m.Keys));
  }

  /** A map without isotopes has total zero. */
  lemma TotalEmpty(m: CompMap)
    requires |m| == 0
    ensures Total(m) == 0.0
  {
    assert |m.Keys| == 0;
    SumOverZero(m, Enumerate(m.Keys));
  }

  /** The total may be computed by taking out any isotope first. */
  lemma TotalRemove(m: CompMap, tope: Iso)
    requires tope in m
    ensures Total(m) == m[tope] + Total(m - {tope})
  {
    var ks := Enumerate(m.Keys);
    SumOverRemove(m, ks, tope);
    SumOverTotal(m - {tope}, ks);
  }

  /** Summing along a list is additive. */
  lemma {:induction false} SumOverAdditive(a: CompMap, b: CompMap, r: CompMap, ks: seq<Iso>)
    requires forall t | t in ks :: Amount(r, t) == Amount(a, t) + Amount(b, t)
    ensures SumOver(r, ks) == SumOver(a, ks) + SumOver(b, ks)
    decreases |ks|
  {
    if |ks| != 0 {
      SumOverAdditive(a, b, r, ks[1..]);
    }
  }

  /** Summing along a list commutes with multiplying every quantity by `c`. */
  lemma {:induction false} SumOverScaled(m: CompMap, r: CompMap, c: real, ks: seq<Iso>)
    requires forall t | t in ks :: Amount(r, t) == c * Amount(m, t)
    ensures SumOver(r, ks) == c * SumOver(m, ks)
    decreases |ks|
  {
    if |ks| != 0 {
      SumOverScaled(m, r, c, ks[1..]);
    }
  }

  /** A map whose every quantity is `a`'s plus `b`'s has the total of `a` plus the total of `b`. */
  lemma TotalAdditive(a: CompMap, b: CompMap, r: CompMap)
    requires forall t :: Amount(r, t) == Amount(a, t) + Amount(b, t)
    ensures Total(r) == Total(a) + Total(b)
  {
    var ks := Enumerate(r.Keys + a.Keys + b.Keys);
    SumOverTotal(r, ks);
    SumOverTotal(a, ks);
    SumOverTotal(b, ks);
    SumOverAdditive(a, b, r, ks);
  }

  /** With no negative quantity the total is non-negative and bounds every quantity. */
  lemma {:induction false} TotalBounds(m: CompMap)
    requires NonNegative(m)
    ensures Total(m) >= 0.0
    ensures forall t | t in m :: m[t] <= Total(m)
    decreases |m|
  {
    if |m| == 0 {
      TotalEmpty(m);
    } else {
      EmptyOrInhabited(m.Keys);
      var s :| s in m;
      RemoveSize(m, s);
      TotalRemove(m, s);
      TotalBounds(m - {s});
      forall t | t in m
        ensures m[t] <= Total(m)
      {
        if t != s {
          assert t in m - {s};
        }
      }
    }
  }

  /** Sums the quantities of a map one isotope at a time. */
  method SumOf(m: CompMap) returns (sum: real)
    ensures sum == Total(m)
  {
    sum := 0.0;
    var rest := m;
    while |rest| != 0
      invariant sum + Total(rest) == Total(m)
      decreases |rest|
    {
      EmptyOrInhabited(rest.Keys);
      var t :| t in rest;
      TotalRemove(rest, t);
      RemoveSize(rest, t);
      sum := sum + rest[t];
      rest := rest - {t};
    }
    TotalEmpty(rest);
  }

  // ---------------------------------------------------------------------
  // Arithmetic
  // ---------------------------------------------------------------------

  /** `operator+`: adds like isotopes. */
  function Add(a: CompMap, b: CompMap): (r: CompMap)
    ensures forall t :: t in r <==> t in a || t in b
    ensures forall t :: Amount(r, t) == Amount(a, t) + Amount(b, t)
  {
    map t | t in a.Keys + b.Keys :: Amount(a, t) + Amount(b, t)
  }

  /**
   * `operator-`: subtracts like isotopes, refusing any result that leaves an
   * isotope with a negative quantity.
   */
  function Subtract(a: CompMap, b: CompMap): (r: Result<CompMap, CycError>)
    ensures r.Failure? <==> exists t :: Amount(a, t) < Amount(b, t)
    ensures r.Failure? ==> r.error == NegativeQuantity
    ensures r.Success? ==> NonNegative(r.value)
    ensures r.Success? ==> forall t :: t in r.value <==> t in a || t in b
    ensures r.Success? ==> forall t :: Amount(r.value, t) == Amount(a, t) - Amount(b, t)
  {
    if exists t | t in a.Keys + b.Keys :: Amount(a, t) < Amount(b, t) then Failure(NegativeQuantity)
    else Success(map t | t in a.Keys + b.Keys :: Amount(a, t) - Amount(b, t))
  }

  /** `operator==`: every isotope has the same quantity on both sides. */
  function Equal(a: CompMap, b: CompMap): (r: bool)
    ensures r <==> forall t :: Amount(a, t) == Amount(b, t)
  {
    forall t | t in a.Keys + b.Keys :: Amount(a, t) == Amount(b, t)
  }

  /** Every quantity multiplied by `factor`. */
  function Scale(m: CompMap, factor: real): (r: CompMap)
    ensures forall t :: t in r <==> t in m
    ensures forall t :: Amount(r, t) == factor * Amount(m, t)
  {
    map t | t in m :: factor * m[t]
  }

  /** Adding `b` and then subtracting it gives back the quantities of `a`. */
  lemma AddSubtractInverse(a: CompMap, b: CompMap)
    requires NonNegative(a)
    ensures Subtract(Add(a, b), b).Success?
    ensures Equal(Subtract(Add(a, b), b).value, a)
  {
    var sum := Add(a, b);
    forall t
      ensures Amount(b, t) <= Amount(sum, t)
    {
      assert Amount(a, t) >= 0.0;
    }
  }

  /** `operator+` conserves mass: the total of a sum is the sum of the totals. */
  lemma AddConservesMass(a: CompMap, b: CompMap)
    ensures Total(Add(a, b)) == Total(a) + Total(b)
  {
    TotalAdditive(a, b, Add(a, b));
  }

  /** `operator-` conserves mass when it succeeds. */
  lemma SubtractConservesMass(a: CompMap, b: CompMap)
    requires Subtract(a, b).Success?
    ensures Total(Subtract(a, b).value) == Total(a) - Total(b)
  {
    TotalAdditive(Subtract(a, b).value, b, a);
  }

  /** Scaling multiplies the total by the factor. */
  lemma ScaleTotal(m: CompMap, factor: real)
    ensures Total(Scale(m, factor)) == factor * Total(m)
  {
    var scaled, ks := Scale(m, factor), Enumerate(m.Keys);
    ScaleKeys(m, factor);
    SumOverScaled(m, scaled, factor, ks);
    calc {
      Total(scaled);
      SumOver(scaled, ks);
      factor * SumOver(m, ks);
      factor * Total(m);
    }
  }

  /** Scaling keeps the isotopes. */
  lemma ScaleKeys(m: CompMap, factor: real)
    ensures Scale(m, factor).Keys == m.Keys
  {
    var scaled := Scale(m, factor);
    assert forall t :: t in scaled.Keys <==> t in m.Keys;
  }

  /** Scaling twice is scaling once by the product of the factors. */
  lemma ScaleScale(m: CompMap, x: real, y: real)
    ensures Scale(Scale(m, x), y) == Scale(m, x * y)
  {
    var twice, once := Scale(Scale(m, x), y), Scale(m, x * y);
    forall t | t in twice
      ensures twice[t] == once[t]
    {
      Associate(y, x, m[t]);
    }
    MapExt(twice, once);
  }

  /** Multiplication is associative. */
  lemma Associate(x: real, y: real, z: real)
    ensures x * (y * z) == (x * y) * z
  {
  }

  /** 1 kg minus 2 kg of U-235 is refused. */
  lemma SubtractRefusesNegative()
    ensures Subtract(map[92235 := 1.0], map[92235 := 2.0]) == Failure(NegativeQuantity)
  {
    assert Amount(map[92235 := 1.0], 92235) < Amount(map[92235 := 2.0], 92235);
  }

  // ---------------------------------------------------------------------
  // Normalisation and fractions
  // ---------------------------------------------------------------------

  /** Scaling by one changes nothing. */
  lemma ScaleOne(m: CompMap)
    ensures Scale(m, 1.0) == m
  {
    MapExt(Scale(m, 1.0), m);
  }

  /** Multiplying by the inverse of a non-zero factor and then by the factor changes nothing. */
  lemma InverseScales(x: real, y: real)
    requires x != 0.0
    ensures x * ((1.0 / x) * y) == y
  {
  }

  /** Scaling by the inverse of a non-zero factor and then by the factor changes nothing. */
  lemma ScaleInverse(m: CompMap, x: real)
    requires x != 0.0
    ensures Scale(Scale(m, 1.0 / x), x) == m
  {
    ghost var back := Scale(Scale(m, 1.0 / x), x);
    forall t | t in back
      ensures back[t] == m[t]
    {
      InverseScales(x, m[t]);
    }
    MapExt(back, m);
  }

  /**
   * Dividing every quantity by a non-zero total gives fractions that sum to
   * one, and multiplying back by the total gives the quantities back.
   */
  lemma NormalizeRoundTrip(m: CompMap)
    requires Total(m) != 0.0
    ensures Total(Scale(m, 1.0 / Total(m))) == 1.0
    ensures Scale(Scale(m, 1.0 / Total(m)), Total(m)) == m
  {
    ghost var total := Total(m);
    ScaleToUnit(m, total);
    ScaleInverse(m, total);
  }

  /** Scaling by the inverse of the total makes the total one. */
  lemma ScaleToUnit(m: CompMap, total: real)
    requires total != 0.0 && Total(m) == total
    ensures Total(Scale(m, 1.0 / total)) == 1.0
  {
    ghost var inverse := 1.0 / total;
    ghost var scaledTotal := Total(Scale(m, inverse));
    assert scaledTotal == inverse * total by {
      ScaleTotal(m, inverse);
    }
    ProductWithInverse(scaledTotal, total, inverse);
  }

  /** A product of a non-zero number with its inverse is one. */
  lemma ProductWithInverse(product: real, x: real, inverse: real)
    requires x != 0.0 && inverse == 1.0 / x && product == inverse * x
    ensures product == 1.0
  {
  }

  /** The share `part` is of `whole`; zero when the whole is zero. */
  function Fraction(part: real, whole: real): real
  {
    if whole == 0.0 then 0.0 else part / whole
  }

  /** The mass fraction of `tope` among the quantities `m`; zero when the total is zero. */
  ghost function MassFraction(m: CompMap, tope: Iso): real
  {
    Fraction(Amount(m, tope), Total(m))
  }

  /** Dividing by `d` is multiplying by its inverse. */
  lemma DivideIsScale(x: real, d: real)
    requires d != 0.0
    ensures x / d == (1.0 / d) * x
  {
  }

  /** Dividing every quantity by `d` is scaling by the inverse of `d`. */
  lemma DivideAllIsScale(m: CompMap, d: real)
    requires d != 0.0
    ensures (map t | t in m :: m[t] / d) == Scale(m, 1.0 / d)
  {
    ghost var divided := map t | t in m :: m[t] / d;
    ghost var scaled := Scale(m, 1.0 / d);
    forall t | t in divided
      ensures divided[t] == scaled[t]
    {
      DivideIsScale(m[t], d);
    }
    MapExt(divided, scaled);
  }

  /** With a non-zero total, the mass fractions are the quantities divided by the total. */
  lemma MassFractionsNormalize(m: CompMap)
    requires Total(m) != 0.0
    ensures (map t | t in m :: MassFraction(m, t)) == Scale(m, 1.0 / Total(m))
  {
    ghost var total := Total(m);
    MapExt(map t | t in m :: MassFraction(m, t), map t | t in m :: m[t] / total);
    DivideAllIsScale(m, total);
  }

  /** The mass fractions of the isotopes present sum to one. */
  lemma MassFractionsSumToOne(m: CompMap)
    requires Total(m) != 0.0
    ensures Total(map t | t in m :: MassFraction(m, t)) == 1.0
  {
    MassFractionsNormalize(m);
    NormalizeRoundTrip(m);
  }

  /** A part no larger than a positive whole is a fraction in [0, 1] of it. */
  lemma FractionInUnit(part: real, whole: real)
    requires 0.0 <= part <= whole && whole != 0.0
    ensures 0.0 <= part / whole <= 1.0
  {
  }

  /** A mass fraction of a composition without negative quantities lies in [0, 1]. */
  lemma MassFractionBounds(m: CompMap, tope: Iso)
    requires NonNegative(m)
    ensures 0.0 <= MassFraction(m, tope) <= 1.0
  {
    TotalBounds(m);
    if Total(m) != 0.0 {
      FractionInUnit(Amount(m, tope), Total(m));
    }
  }

  /** A share is unchanged when part and whole are multiplied by the same non-zero factor. */
  lemma FractionScaleInvariant(f: real, part: real, whole: real, scaledPart: real, scaledWhole: real)
    requires f != 0.0 && scaledPart == f * part && scaledWhole == f * whole
    ensures Fraction(scaledPart, scaledWhole) == Fraction(part, whole)
  {
    if whole != 0.0 {
      assert scaledPart / scaledWhole == part / whole;
    }
  }

  /** Mass fractions do not depend on the scale: scaling by a non-zero factor keeps every one. */
  lemma MassFractionScaleInvariant(m: CompMap, factor: real, tope: Iso)
    requires factor != 0.0
    ensures MassFraction(Scale(m, factor), tope) == MassFraction(m, tope)
  {
    ScaleTotal(m, factor);
    MassFractionOfScaled(m, factor, tope);
  }

  /** The step of MassFractionScaleInvariant once the scaled quantity and total are known. */
  lemma MassFractionOfScaled(m: CompMap, factor: real, tope: Iso)
    requires factor != 0.0
    requires Total(Scale(m, factor)) == factor * Total(m)
    requires Amount(Scale(m, factor), tope) == factor * Amount(m, tope)
    ensures MassFraction(Scale(m, factor), tope) == MassFraction(m, tope)
  {
    FractionScaleInvariant(factor, Amount(m, tope), Total(m), Amount(Scale(m, factor), tope), Total(Scale(m, factor)));
  }

  /** `isZero`: the quantity of `tope` is below the mass tolerance. */
  function Negligible(m: CompMap, tope: Iso): bool
  {
    Amount(m, tope) < EpsKg
  }

  /** An absent isotope is negligible, and one negligible in a sum of non-negative quantities is negligible in each part. */
  lemma NegligibleParts(a: CompMap, b: CompMap, tope: Iso)
    requires NonNegative(a) && NonNegative(b)
    ensures tope !in a ==> Negligible(a, tope)
    ensures Negligible(Add(a, b), tope) ==> Negligible(a, tope) && Negligible(b, tope)
  {
    assert Amount(a, tope) >= 0.0 && Amount(b, tope) >= 0.0;
  }

  /**
   * Taking non-negative quantities away from an isotope that is zero leaves
   * it zero, and what was taken of it was zero too.
   */
  lemma NegligibleSubtract(a: CompMap, b: CompMap, tope: Iso)
    requires NonNegative(b) && Subtract(a, b).Success?
    ensures Negligible(a, tope) ==> Negligible(Subtract(a, b).value, tope) && Negligible(b, tope)
  {
    assert Amount(b, tope) >= 0.0;
  }

  /** Scaling by a factor in [0, 1] keeps a zero isotope zero. */
  lemma NegligibleScale(m: CompMap, factor: real, tope: Iso)
    requires NonNegative(m) && 0.0 <= factor <= 1.0
    ensures Negligible(m, tope) ==> Negligible(Scale(m, factor), tope)
  {
    var x := Amount(m, tope);
    assert x >= 0.0;
    ShrinkBy(factor, x);
  }

  /** A factor in [0, 1] does not enlarge a non-negative amount. */
  lemma ShrinkBy(factor: real, x: real)
    requires 0.0 <= factor <= 1.0 && x >= 0.0
    ensures factor * x <= x
  {
    assert x - factor * x == (1.0 - factor) * x;
  }

  /** Atomic masses usable as divisors for the isotopes of `m`. */
  predicate PositiveMasses(m: CompMap, atomicMass: Iso -> real)
  {
    forall t | t in m :: atomicMass(t) > 0.0
  }

  /** `atomify`: mass-based quantities to atom-based ones. */
  function Atomify(m: CompMap, atomicMass: Iso -> real): (r: CompMap)
    requires PositiveMasses(m, atomicMass)
    ensures forall t :: t in r <==> t in m
  {
    map t | t in m :: m[t] / atomicMass(t)
  }

  /** `massify`: atom-based quantities to mass-based ones. */
  function Massify(m: CompMap, atomicMass: Iso -> real): (r: CompMap)
    ensures forall t :: t in r <==> t in m
  {
    map t | t in m :: m[t] * atomicMass(t)
  }

  /** Converting between the two bases and back gives the original quantities. */
  lemma BasisRoundTrip(m: CompMap, atomicMass: Iso -> real)
    requires PositiveMasses(m, atomicMass)
    ensures Massify(Atomify(m, atomicMass), atomicMass) == m
    ensures Atomify(Massify(m, atomicMass), atomicMass) == m
  {
    MapExt(Massify(Atomify(m, atomicMass), atomicMass), m);
    MapExt(Atomify(Massify(m, atomicMass), atomicMass), m);
  }

  /** The atom fraction of `tope`: its share of the atoms of the composition. */
  ghost function AtomFraction(m: CompMap, tope: Iso, atomicMass: Iso -> real): real
    requires PositiveMasses(m, atomicMass)
  {
    MassFraction(Atomify(m, atomicMass), tope)
  }

  /** The atom fractions of the isotopes present sum to one. */
  lemma AtomFractionsSumToOne(m: CompMap, atomicMass: Iso -> real)
    requires PositiveMasses(m, atomicMass)
    requires Total(Atomify(m, atomicMass)) != 0.0
    ensures Total(map t | t in m :: AtomFraction(m, t, atomicMass)) == 1.0
  {
    var atoms := Atomify(m, atomicMass);
    MassFractionsSumToOne(atoms);
    MapExt(map t | t in m :: AtomFraction(m, t, atomicMass), map t | t in atoms :: MassFraction(atoms, t));
  }
}
