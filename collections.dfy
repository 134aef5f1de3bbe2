/**
 * Extensionality facts about the finite sets of isotope numbers and the maps
 * from isotope numbers to reals that the model works with, stated once so
 * that the rest of the model can pick elements and compare maps key by key.
 */
module Collections {

  /** A set with no element is the empty set. */
  lemma EmptyWithoutElements(s: set<int>)
    requires forall x :: x !in s
    ensures s == {}
  {
    var none: set<int> := {};
    assert forall x :: x in s <==> x in none;
  }

  /** A set is empty or has an element to pick. */
  lemma EmptyOrInhabited(s: set<int>)
    ensures s == {} || exists x :: x in s
  {
    if !exists x :: x in s {
      EmptyWithoutElements(s);
    }
  }

  /** Two maps with the same keys and the same value at every key are equal. */
  lemma MapExt(a: map<int, real>, b: map<int, real>)
    requires forall k :: k in a <==> k in b
    requires forall k | k in a :: a[k] == b[k]
    ensures a == b
  {
    assert forall k :: k in a.Keys <==> k in b.Keys;
    assert forall k | k in a.Keys :: a[k] == b[k];
  }
}
