/**
 * The IsoVector: a handle on a composition.  Arithmetic builds new handles
 * on new, unlogged compositions; the operations that change a handle in
 * place copy a logged composition first, so a logged composition is shared
 * and never changed.  Decay consults and fills the registry's decay-chain
 * cache for logged compositions only.
 */
module IsoVectors {

  import opened Wrappers
  import opened Nuclides
  import opened CycErrors
  import opened CompMaps
  import opened Compositions
  import opened Registry

  /** Every isotope has a positive atomic mass. */
  ghost predicate MassTable(atomicMass: Iso -> real)
  {
    forall t :: atomicMass(t) > 0.0
  }

  class IsoVector {
    /** `composition_`: the composition this handle points to. */
    var comp: Composition

    /** The absolute quantities this IsoVector holds. */
    function Masses(): CompMap
      reads this, comp
    {
      comp.Masses()
    }

    /** `IsoVector()`: an empty vector on a fresh composition. */
    constructor ()
      ensures fresh(comp) && !comp.Logged()
      ensures Masses() == map[]
    {
      var none: CompMap := map[];
      ScaleOne(none);
      comp := new Composition(none, 1.0, 0.0);
    }

    /** `IsoVector(composition*)`: a handle sharing an existing composition. */
    constructor FromComposition(c: Composition)
      ensures comp == c
    {
      comp := c;
    }

    /**
     * `IsoVector(CompMap*, bool)`: a vector holding the quantities `m`,
     * which are atom-based when `atom` holds and are then massified first.
     */
    constructor FromQuantities(m: CompMap, atom: bool, atomicMass: Iso -> real)
      requires MassTable(atomicMass)
      ensures fresh(comp) && !comp.Logged() && comp.parent == null
      ensures Masses() == if atom then Massify(m, atomicMass) else m
      ensures atom ==> Atomify(Masses(), atomicMass) == m
    {
      var masses := if atom then Massify(m, atomicMass) else m;
      if atom {
        BasisRoundTrip(m, atomicMass);
      }
      var c := NormalizedComposition(masses, atomicMass);
      comp := c;
    }

    /** `operator+`: a new vector holding the sum of the quantities. */
    method Plus(other: IsoVector, atomicMass: Iso -> real) returns (r: IsoVector)
      requires MassTable(atomicMass)
      ensures fresh(r) && fresh(r.comp) && !r.comp.Logged()
      ensures r.Masses() == Add(Masses(), other.Masses())
    {
      r := new IsoVector.FromQuantities(Add(Masses(), other.Masses()), false, atomicMass);
    }

    /**
     * `operator-`: a new vector holding the difference of the quantities,
     * refused when some isotope would become negative.
     */
    method Minus(other: IsoVector, atomicMass: Iso -> real) returns (r: Result<IsoVector, CycError>)
      requires MassTable(atomicMass)
      ensures r.Failure? <==> exists t :: Amount(Masses(), t) < Amount(other.Masses(), t)
      ensures r.Failure? ==> r.error == NegativeQuantity
      ensures r.Success? ==> fresh(r.value) && fresh(r.value.comp) && !r.value.comp.Logged()
      ensures r.Success? ==> r.value.Masses() == Subtract(Masses(), other.Masses()).value
    {
      var difference := Subtract(Masses(), other.Masses());
      if difference.Failure? {
        return Failure(difference.error);
      }
      var v := new IsoVector.FromQuantities(difference.value, false, atomicMass);
      r := Success(v);
    }

    /** `operator==`: every isotope has the same quantity in both vectors. */
    function Equals(other: IsoVector): (r: bool)
      reads this, comp, other, other.comp
      ensures r <==> forall t :: Amount(Masses(), t) == Amount(other.Masses(), t)
    {
      Equal(Masses(), other.Masses())
    }

    /**
     * `operator*`: a new vector on a copy of the composition with the mass
     * normaliser multiplied by `factor`; the fractions are shared values.
     */
    method Times(factor: real) returns (r: IsoVector)
      ensures fresh(r) && fresh(r.comp) && !r.comp.Logged()
      ensures r.comp.fractions == comp.fractions && r.comp.massNorm == comp.massNorm * factor
      ensures r.comp.parent == comp.parent && r.comp.decayTime == comp.decayTime
      ensures r.Masses() == Scale(Masses(), factor)
    {
      var copy := Copy(comp);
      r := new IsoVector.FromComposition(copy);
      r.MultMassNormBy(factor);
    }

    /** `operator/`: multiplication by the inverse of a non-zero factor. */
    method DividedBy(factor: real) returns (r: IsoVector)
      requires factor != 0.0
      ensures fresh(r) && fresh(r.comp) && !r.comp.Logged()
      ensures r.comp.fractions == comp.fractions && r.comp.massNorm == comp.massNorm * (1.0 / factor)
      ensures r.comp.parent == comp.parent && r.comp.decayTime == comp.decayTime
      ensures r.Masses() == Scale(Masses(), 1.0 / factor)
    {
      r := Times(1.0 / factor);
    }

    /**
     * `multMassNormBy`: multiplies the mass normaliser by `factor`, leaving
     * the fractions alone.  A logged composition is copied first.
     */
    method MultMassNormBy(factor: real)
      modifies this, if comp.Logged() then {} else {comp}
      ensures !comp.Logged()
      ensures old(comp.Logged()) ==> fresh(comp)
      ensures !old(comp.Logged()) ==> comp == old(comp) && comp.id == old(comp.id)
      ensures comp.fractions == old(comp.fractions) && comp.atomNorm == old(comp.atomNorm)
      ensures comp.parent == old(comp.parent) && comp.decayTime == old(comp.decayTime)
      ensures comp.massNorm == old(comp.massNorm) * factor
      ensures Masses() == Scale(old(Masses()), factor)
    {
      if comp.Logged() {
        comp := Copy(comp);
      }
      var norm := comp.massNorm;
      ScaleScale(comp.fractions, norm, factor);
      comp.massNorm := norm * factor;
    }

    /**
     * `minimizeComposition`: folds the mass normaliser into the fractions so
     * that it becomes one, keeping every absolute quantity.  A logged
     * composition is copied first.
     */
    method MinimizeComposition()
      modifies this, if comp.Logged() then {} else {comp}
      ensures !comp.Logged()
      ensures old(comp.Logged()) ==> fresh(comp)
      ensures !old(comp.Logged()) ==> comp == old(comp) && comp.id == old(comp.id)
      ensures comp.atomNorm == old(comp.atomNorm)
      ensures comp.parent == old(comp.parent) && comp.decayTime == old(comp.decayTime)
      ensures comp.massNorm == 1.0
      ensures Masses() == old(Masses())
    {
      if comp.Logged() {
        comp := Copy(comp);
      }
      var masses := comp.Masses();
      comp.fractions := masses;
      comp.massNorm := 1.0;
      ScaleOne(masses);
    }

    /** `massFraction`: the share of `tope` in the mass of the vector. */
    method MassFraction(tope: Iso) returns (r: real)
      ensures r == CompMaps.MassFraction(Masses(), tope)
    {
      var masses := comp.Masses();
      var total := SumOf(masses);
      r := Fraction(Amount(masses, tope), total);
    }

    /** `atomFraction`: the share of `tope` in the atoms of the vector. */
    method AtomFraction(tope: Iso, atomicMass: Iso -> real) returns (r: real)
      requires MassTable(atomicMass)
      ensures r == CompMaps.AtomFraction(Masses(), tope, atomicMass)
    {
      var atoms := Atomify(comp.Masses(), atomicMass);
      var total := SumOf(atoms);
      r := Fraction(Amount(atoms, tope), total);
    }

    /** `isZero`: the quantity of `tope` is below the mass tolerance. */
    function IsZero(tope: Iso): (r: bool)
      reads this, comp
      ensures r <==> Amount(Masses(), tope) < EpsKg
    {
      Negligible(Masses(), tope)
    }

    /**
     * `executeDecay`: moves the vector `dt` months forward.  No time leaves
     * it alone.  A logged composition takes its daughter from the cache, or
     * computes it with the decay law and caches it; an unlogged one gets a
     * fresh, uncached daughter.  Either way the vector then holds what the
     * registry's decay law makes of its quantities.  The old composition is
     * never changed.
     */
    method ExecuteDecay(dt: int, reg: RecipeRegistry, atomicMass: Iso -> real)
      requires reg.Valid() && MassTable(atomicMass)
      requires comp.Logged() ==> comp in reg.Repr
      modifies this, reg
      ensures reg.Valid()
      ensures comp.Logged() ==> comp in reg.Repr
      ensures dt == 0 ==> comp == old(comp) && unchanged(reg)
      ensures dt != 0 ==>
        comp.Masses() == reg.decayLaw(old(comp.Masses()), dt)
      ensures dt != 0 ==> comp.parent == old(comp) && comp.decayTime == dt
      ensures dt != 0 && old(comp.Logged()) && old(reg.Daughter(comp, dt)).Some? ==>
        comp == old(reg.Daughter(comp, dt)).value && unchanged(reg)
      ensures dt != 0 && !(old(comp.Logged()) && old(reg.Daughter(comp, dt)).Some?) ==>
        fresh(comp)
      ensures dt != 0 && old(comp.Logged()) ==> comp.Logged() && reg.Daughter(old(comp), dt) == Some(comp)
      ensures dt != 0 && old(comp.Logged()) && old(reg.Daughter(comp, dt)).None? ==>
        && reg.recipes == old(reg.recipes) && reg.recorded == old(reg.recorded) + {comp.id}
        && reg.nextStateID == old(reg.nextStateID) + 1 && reg.Repr == old(reg.Repr) + {comp}
        && reg.decayChains == old(reg.decayChains)[old(comp) := old(reg.Daughters(comp))[dt := comp]]
        && reg.decayTimes == old(reg.decayTimes)[old(comp) := old(reg.DecayTimes(comp)) + {dt}]
      ensures dt != 0 && !old(comp.Logged()) ==> !comp.Logged() && unchanged(reg)
    {
      if dt == 0 {
        return;
      }
      if comp.Logged() {
        comp := DecayLogged(comp, dt, reg, atomicMass);
      } else {
        comp := DecayUnlogged(comp, dt, reg, atomicMass);
      }
    }

    /**
     * `recordState`: logs the composition if needed and writes its state
     * unless that state id is already written; reports whether it wrote.
     */
    method RecordState(reg: RecipeRegistry) returns (isNew: bool)
      requires reg.Valid()
      requires comp.Logged() ==> comp in reg.Repr
      modifies reg, comp`id
      ensures reg.Valid()
      ensures comp.Logged() && comp in reg.Repr
      ensures isNew <==> !old(comp.Logged()) || old(comp.id) !in old(reg.recorded)
      ensures reg.recorded == old(reg.recorded) + {comp.id}
      ensures reg.Repr == old(reg.Repr) + {comp}
      ensures old(comp.Logged()) ==> comp.id == old(comp.id) && reg.nextStateID == old(reg.nextStateID)
      ensures !old(comp.Logged()) ==> comp.id == old(reg.nextStateID) && reg.nextStateID == old(reg.nextStateID) + 1
      ensures reg.recipes == old(reg.recipes) && reg.decayChains == old(reg.decayChains)
      ensures reg.decayTimes == old(reg.decayTimes)
    {
      isNew := reg.RecordState(comp);
    }
  }

  /**
   * `executeDecay(time_change, composition*)`: a new, unlogged composition
   * holding what the decay law makes of the quantities of `c` after `dt`
   * months, with `c` as its parent; `c` itself is left alone.
   */
  method DecayComposition(c: Composition, dt: int, decayLaw: DecayLaw,
                          atomicMass: Iso -> real) returns (child: Composition)
    requires MassTable(atomicMass)
    ensures fresh(child) && !child.Logged() && child.parent == c && child.decayTime == dt
    ensures child.Masses() == decayLaw(c.Masses(), dt)
  {
    var decayed := decayLaw(c.Masses(), dt);
    child := NormalizedComposition(decayed, atomicMass);
    child.parent := c;
    child.decayTime := dt;
  }

  /**
   * `executeDecay` on a logged composition: the daughter cached for `dt`
   * months if there is one; otherwise a new daughter computed with the
   * registry's decay law, logged and cached.
   */
  method DecayLogged(c: Composition, dt: int, reg: RecipeRegistry, atomicMass: Iso -> real) returns (d: Composition)
    requires reg.Valid() && MassTable(atomicMass)
    requires c.Logged() && c in reg.Repr
    modifies reg
    ensures reg.Valid()
    ensures d.Logged() && d in reg.Repr
    ensures reg.Daughter(c, dt) == Some(d)
    ensures d.Masses() == reg.decayLaw(c.Masses(), dt)
    ensures d.parent == c && d.decayTime == dt
    ensures old(reg.Daughter(c, dt)).Some? ==> d == old(reg.Daughter(c, dt)).value && unchanged(reg)
    ensures old(reg.Daughter(c, dt)).None? ==>
      && fresh(d)
      && reg.recipes == old(reg.recipes) && reg.recorded == old(reg.recorded) + {d.id}
      && reg.nextStateID == old(reg.nextStateID) + 1 && reg.Repr == old(reg.Repr) + {d}
      && reg.decayChains == old(reg.decayChains)[c := old(reg.Daughters(c))[dt := d]]
      && reg.decayTimes == old(reg.decayTimes)[c := old(reg.DecayTimes(c)) + {dt}]
  {
    var cached := reg.Daughter(c, dt);
    if cached.Some? {
      reg.CachedDecay(c, dt);
      return cached.value;
    }
    d := DecayComposition(c, dt, reg.decayLaw, atomicMass);
    reg.LogRecipeDecay(c, d, 0, dt);
  }

  /**
   * `executeDecay` on an unlogged composition: a fresh daughter computed
   * with the registry's decay law, neither logged nor cached.
   */
  method DecayUnlogged(c: Composition, dt: int, reg: RecipeRegistry, atomicMass: Iso -> real) returns (d: Composition)
    requires reg.Valid() && MassTable(atomicMass)
    ensures reg.Valid()
    ensures fresh(d) && !d.Logged()
    ensures d.Masses() == reg.decayLaw(c.Masses(), dt)
    ensures d.parent == c && d.decayTime == dt
  {
    d := DecayComposition(c, dt, reg.decayLaw, atomicMass);
  }

  /**
   * Two vectors on the same logged composition decay by the same time to the
   * same daughter: the second decay is served from the cache.
   */
  method DecayReusesCache(reg: RecipeRegistry, a: IsoVector, b: IsoVector, dt: int, atomicMass: Iso -> real)
    requires reg.Valid() && MassTable(atomicMass)
    requires a != b && a.comp == b.comp && a.comp.Logged() && a.comp in reg.Repr
    modifies a, b, reg
    ensures a.comp == b.comp
    ensures dt != 0 ==> reg.Daughter(old(a.comp), dt) == Some(a.comp)
    ensures dt != 0 ==> a.Masses() == reg.decayLaw(old(a.Masses()), dt)
  {
    a.ExecuteDecay(dt, reg, atomicMass);
    b.ExecuteDecay(dt, reg, atomicMass);
  }

  /**
   * An isotope that is zero in a vector is still zero after a non-negative
   * vector is taken away, and it was zero in what was taken away.
   */
  lemma ZeroAfterMinus(v: IsoVector, other: IsoVector, diff: IsoVector, tope: Iso)
    requires NonNegative(other.Masses())
    requires Subtract(v.Masses(), other.Masses()).Success?
    requires diff.Masses() == Subtract(v.Masses(), other.Masses()).value
    ensures v.IsZero(tope) ==> diff.IsZero(tope) && other.IsZero(tope)
  {
    NegligibleSubtract(v.Masses(), other.Masses(), tope);
  }

  /** Recording the state of a new vector twice writes it once: true, then false. */
  method RecordTwice(reg: RecipeRegistry, v: IsoVector) returns (first: bool, second: bool)
    requires reg.Valid() && !v.comp.Logged()
    modifies reg, v.comp`id
    ensures first && !second
  {
    first := v.RecordState(reg);
    second := v.RecordState(reg);
  }
}
