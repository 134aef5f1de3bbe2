/**
 * The `composition` record: normalised mass fractions, the normalisers that
 * scale them back to absolute quantities, the state id that marks it as
 * logged, and its decay provenance.  A composition is shared by reference;
 * once logged it is never changed again.
 */
module Compositions {

  import opened Nuclides
  import opened CompMaps

  class Composition {
    /** State id; 0 until the composition is logged. */
    var id: int
    /** Isotope to mass fraction. */
    var fractions: CompMap
    /** Multiplies a fraction into an absolute mass. */
    var massNorm: real
    /** The total of the atom-based quantities. */
    var atomNorm: real
    /** The composition this one decayed from, if any. */
    var parent: Composition?
    /** Months of decay from `parent` to this composition. */
    var decayTime: int

    /** A new composition is not logged, has no parent and has not decayed. */
    constructor (fracs: CompMap, massNormalizer: real, atomNormalizer: real)
      ensures fractions == fracs && massNorm == massNormalizer && atomNorm == atomNormalizer
      ensures id == 0 && parent == null && decayTime == 0
      ensures !Logged()
    {
      id := 0;
      fractions := fracs;
      massNorm := massNormalizer;
      atomNorm := atomNormalizer;
      parent := null;
      decayTime := 0;
    }

    /** `logged()`: the composition has been given a state id. */
    predicate Logged()
      reads this`id
      ensures Logged() ==> id >= 1
      ensures id == 0 ==> !Logged()
    {
      id > 0
    }

    /** The absolute quantities: every fraction times the mass normaliser. */
    function Masses(): CompMap
      reads this`fractions, this`massNorm
    {
      Scale(fractions, massNorm)
    }
  }

  /** `getNormalizers`: the total mass and the total atom quantity of `m`. */
  method GetNormalizers(m: CompMap, atomicMass: Iso -> real) returns (massNorm: real, atomNorm: real)
    requires PositiveMasses(m, atomicMass)
    ensures massNorm == Total(m)
    ensures atomNorm == Total(Atomify(m, atomicMass))
  {
    massNorm := SumOf(m);
    atomNorm := SumOf(Atomify(m, atomicMass));
  }

  /**
   * `setComposition(CompMap*)`: builds an unlogged composition holding the
   * absolute quantities `m`, with fractions normalised to sum to one.
   */
  method NormalizedComposition(m: CompMap, atomicMass: Iso -> real) returns (c: Composition)
    requires PositiveMasses(m, atomicMass)
    ensures fresh(c)
    ensures c.id == 0 && c.parent == null && c.decayTime == 0
    ensures c.Masses() == m
    ensures c.atomNorm == Total(Atomify(m, atomicMass))
    ensures Total(m) != 0.0 ==> c.massNorm == Total(m) && Total(c.fractions) == 1.0
  {
    var massNorm, atomNorm := GetNormalizers(m, atomicMass);
    if massNorm != 0.0 {
      NormalizeRoundTrip(m);
      c := new Composition(Scale(m, 1.0 / massNorm), massNorm, atomNorm);
    } else {
      ScaleOne(m);
      c := new Composition(m, 1.0, atomNorm);
    }
  }

  /**
   * A copy of `c` for copy-on-write: the same fractions, normalisers and
   * decay provenance, but not logged.
   */
  method Copy(c: Composition) returns (d: Composition)
    ensures fresh(d)
    ensures d.fractions == c.fractions && d.massNorm == c.massNorm && d.atomNorm == c.atomNorm
    ensures d.parent == c.parent && d.decayTime == c.decayTime
    ensures !d.Logged() && d.id == 0
  {
    d := new Composition(c.fractions, c.massNorm, c.atomNorm);
    d.parent := c.parent;
    d.decayTime := c.decayTime;
  }
}
