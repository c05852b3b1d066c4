/**
 * Enumerating a Java `Set` in unspecified order (pick any member, then remove it), and the
 * small facts about appending to a list that the writer and the queue rely on.
 */
module Sets {

  /** A non-empty set has a member to pick. */
  lemma HasMember(s: set<int>)
    requires s != {}
    ensures exists x :: x in s
  {
    if forall x :: x !in s {
      assert false;
    }
  }

  /** A set that is not included in another has something outside it. */
  lemma NotIncluded(a: set<int>, b: set<int>)
    requires !(a <= b)
    ensures a - b != {}
  {
    assert a == (a - b) + (a * b);
  }

  /** Moving one element `x` from the pending part `rest` of `all` to the done part. */
  lemma Shift(all: set<int>, rest: set<int>, x: int)
    requires x in rest && rest <= all
    ensures all - (rest - {x}) == (all - rest) + {x}
  {
  }

  /** Appending to a list of lines regroups. */
  lemma SnocAssoc<T>(a: seq<T>, b: seq<T>, x: T)
    ensures a + (b + [x]) == (a + b) + [x]
  {
  }

  /** Appending at the back of a list keeps the suffix from `k` on and extends it. */
  lemma AppendDrop(s: seq<int>, k: nat, x: int)
    requires k <= |s|
    ensures (s + [x])[k..] == s[k..] + [x]
  {
  }
}
