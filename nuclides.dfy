/**
 * Isotope identifiers and the validation of isotope/fraction pairs.
 *
 * An isotope is written as one integer ZZZAAA: the atomic number times 1000
 * plus the mass number.  The split uses C++ integer division and remainder,
 * which truncate toward zero, so it is written out for negative inputs.
 */
module Nuclides {

  import opened Wrappers
  import opened Collections

  /** Isotope integer, ZZZAAA. */
  type Iso = int

  /** The heaviest element an identifier may name. */
  const MaxAtomicNum: int := 118

  /** C++ `/` on ints: the quotient truncated toward zero. */
  function Quot(n: int, d: int): int
    requires d > 0
  {
    if n >= 0 then n / d else -((-n) / d)
  }

  /** C++ `%` on ints: the remainder takes the sign of the dividend. */
  function Rem(n: int, d: int): int
    requires d > 0
  {
    n - d * Quot(n, d)
  }

  /**
   * The ZZZ part of an isotope identifier: the thousands it holds, counted
   * toward zero.
   */
  function AtomicNum(tope: Iso): (z: int)
    ensures tope >= 0 ==> z * 1000 <= tope < z * 1000 + 1000
    ensures tope < 0 ==> z * 1000 - 1000 < tope <= z * 1000
  {
    Quot(tope, 1000)
  }

  /**
   * The AAA part of an isotope identifier: what is left after the
   * thousands, with the sign of the identifier.
   */
  function MassNum(tope: Iso): (a: int)
    ensures a == tope - AtomicNum(tope) * 1000
    ensures tope >= 0 ==> 0 <= a < 1000
    ensures tope < 0 ==> -1000 < a <= 0
  {
    Rem(tope, 1000)
  }

  /** The identifier of the isotope with atomic number z and mass number a. */
  function IsoOf(z: nat, a: nat): (tope: Iso)
    requires a < 1000
    ensures tope >= 0
  {
    z * 1000 + a
  }

  /** Splitting an identifier and putting the parts back together gives it back. */
  lemma SplitRecombines(tope: Iso)
    ensures tope == AtomicNum(tope) * 1000 + MassNum(tope)
    ensures tope >= 0 ==> AtomicNum(tope) >= 0 && 0 <= MassNum(tope) < 1000
    ensures tope < 0 ==> AtomicNum(tope) <= 0 && -1000 < MassNum(tope) <= 0
  {
  }

  /** Building an identifier from its parts and splitting it gives the parts back. */
  lemma SplitOfIsoOf(z: nat, a: nat)
    requires a < 1000
    ensures AtomicNum(IsoOf(z, a)) == z && MassNum(IsoOf(z, a)) == a
  {
    var tope := IsoOf(z, a);
    assert tope / 1000 == z by {
      assert tope == z * 1000 + a && 0 <= a < 1000;
    }
  }

  /** A valid identifier names an element 1..118 with a mass number no smaller than it. */
  predicate ValidIsotope(tope: Iso)
  {
    1 <= AtomicNum(tope) <= MaxAtomicNum && MassNum(tope) >= AtomicNum(tope)
  }

  /** What validation found wrong with one entry of a composition. */
  datatype Violation =
    | BadIsotope(tope: Iso)
    | NegativeFraction(tope: Iso, fraction: real)

  /** `validateIsotopeNumber`: refuses an identifier that names no isotope. */
  function ValidateIsotopeNumber(tope: Iso): (r: Outcome<Violation>)
    ensures r.Pass? <==> ValidIsotope(tope)
    ensures r.Pass? ==> IsoOf(1, 1) <= tope <= IsoOf(MaxAtomicNum, 999)
    ensures r.Fail? ==> r.error == BadIsotope(tope)
  {
    if ValidIsotope(tope) then Pass else Fail(BadIsotope(tope))
  }

  /** `validateFraction`: refuses a negative fraction. */
  function ValidateFraction(tope: Iso, fraction: real): (r: Outcome<Violation>)
    ensures r.Fail? <==> fraction < 0.0
    ensures r.Fail? ==> r.error == NegativeFraction(tope, fraction)
  {
    if fraction < 0.0 then Fail(NegativeFraction(tope, fraction)) else Pass
  }

  /** The identifiers of the valid isotopes are exactly the integers ZZZAAA with 1 <= ZZZ <= 118 and AAA >= ZZZ. */
  lemma ValidIsotopeIff(tope: Iso)
    ensures ValidIsotope(tope) <==>
      exists z: nat, a: nat {:trigger IsoOf(z, a)} ::
        1 <= z <= MaxAtomicNum && z <= a < 1000 && tope == IsoOf(z, a)
    ensures ValidIsotope(tope) ==> IsoOf(1, 1) <= tope <= IsoOf(MaxAtomicNum, 999)
  {
    SplitRecombines(tope);
    if ValidIsotope(tope) {
      var z: nat, a: nat := AtomicNum(tope), MassNum(tope);
      assert tope == IsoOf(z, a);
    }
    if exists z: nat, a: nat {:trigger IsoOf(z, a)} :: 1 <= z <= MaxAtomicNum && z <= a < 1000 && tope == IsoOf(z, a) {
      var z: nat, a: nat :| 1 <= z <= MaxAtomicNum && z <= a < 1000 && tope == IsoOf(z, a);
      SplitOfIsoOf(z, a);
    }
  }

  /** The failures of the two validators on one (isotope, fraction) pair. */
  function EntryViolations(tope: Iso, fraction: real): set<Violation>
  {
    (if ValidateIsotopeNumber(tope).Fail? then {ValidateIsotopeNumber(tope).error} else {})
    + (if ValidateFraction(tope, fraction).Fail? then {ValidateFraction(tope, fraction).error} else {})
  }

  /** Every failure of the two validators over the pairs of the composition `m`. */
  function Violations(m: map<Iso, real>): set<Violation>
  {
    set t, v | t in m && v in EntryViolations(t, m[t]) :: v
  }

  /** Adding one entry to a composition adds exactly that entry's failures. */
  lemma ViolationsInsert(m: map<Iso, real>, tope: Iso, fraction: real)
    requires tope !in m
    ensures Violations(m[tope := fraction]) == Violations(m) + EntryViolations(tope, fraction)
  {
    var m' := m[tope := fraction];
    forall v | v in Violations(m')
      ensures v in Violations(m) + EntryViolations(tope, fraction)
    {
      var t :| t in m' && v in EntryViolations(t, m'[t]);
      if t != tope {
        assert t in m && m'[t] == m[t];
      }
    }
    forall v | v in Violations(m)
      ensures v in Violations(m')
    {
      var t :| t in m && v in EntryViolations(t, m[t]);
      assert t in m' && m'[t] == m[t];
    }
    forall v | v in EntryViolations(tope, fraction)
      ensures v in Violations(m')
    {
      assert tope in m' && m'[tope] == fraction;
    }
  }

  /**
   * `validateComposition`: runs both validators on every (isotope, fraction)
   * pair and gathers every failure.
   */
  method ValidateComposition(m: map<Iso, real>) returns (bad: set<Violation>)
    ensures bad == Violations(m)
    ensures bad == {} <==> forall t | t in m :: ValidateIsotopeNumber(t).Pass? && ValidateFraction(t, m[t]).Pass?
    ensures forall t | t in m && !ValidIsotope(t) :: BadIsotope(t) in bad
    ensures forall t | t in m && m[t] < 0.0 :: NegativeFraction(t, m[t]) in bad
  {
    bad := {};
    var todo := m.Keys;
    ghost var done: map<Iso, real> := map[];
    while todo != {}
      invariant todo <= m.Keys
      invariant done.Keys == m.Keys - todo
      invariant forall t | t in done :: done[t] == m[t]
      invariant bad == Violations(done)
      decreases todo
    {
      EmptyOrInhabited(todo);
      var tope :| tope in todo;
      ViolationsInsert(done, tope, m[tope]);
      var isotopeCheck := ValidateIsotopeNumber(tope);
      if isotopeCheck.Fail? {
        bad := bad + {isotopeCheck.error};
      }
      var fractionCheck := ValidateFraction(tope, m[tope]);
      if fractionCheck.Fail? {
        bad := bad + {fractionCheck.error};
      }
      done := done[tope := m[tope]];
      todo := todo - {tope};
    }
    MapExt(done, m);
    forall t | t in m
      ensures EntryViolations(t, m[t]) <= bad
    {
    }
  }

  /**
   * Validation reports every failure, not only the first: an entry whose
   * identifier names no element and whose fraction is negative yields both.
   */
  lemma ValidationReportsAll()
    ensures Violations(map[999999 := -0.1]) == {BadIsotope(999999), NegativeFraction(999999, -0.1)}
  {
    assert AtomicNum(999999) == 999;
    ViolationsInsert(map[], 999999, -0.1);
    assert Violations(map[]) == {};
  }
}
