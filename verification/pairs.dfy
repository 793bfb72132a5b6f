/** Sequences of pairs, as the mapping decoder and the propagation loop
    both walk them: the set of first components and its snoc law. */
module Pairs {

  /** The first components of a sequence of pairs. */
  function Firsts<A, B>(s: seq<(A, B)>): set<A> {
    set i | 0 <= i < |s| :: s[i].0
  }

  /** Appending a pair adds exactly its first component. */
  lemma FirstsOfSnoc<A, B>(s: seq<(A, B)>)
    requires s != []
    ensures Firsts(s) == Firsts(s[..|s| - 1]) + {s[|s| - 1].0}
  {
    var n := |s| - 1;
    var prefix := s[..n];
    forall a | a in Firsts(s) ensures a in Firsts(prefix) + {s[n].0} {
      var i :| 0 <= i < |s| && s[i].0 == a;
      if i < n {
        assert prefix[i].0 == a;
      }
    }
    forall a | a in Firsts(prefix) ensures a in Firsts(s) {
      var i :| 0 <= i < n && prefix[i].0 == a;
      assert s[i].0 == a;
    }
  }
}
