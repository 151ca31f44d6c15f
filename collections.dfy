/** Small facts about sequences used throughout the model. */
module Collections {

  /** No element occurs twice. */
  ghost predicate Distinct<T>(s: seq<T>) {
    forall p, q :: 0 <= p < q < |s| ==> s[p] != s[q]
  }

  /** The elements of a sequence, as a set. */
  function Elements<T>(s: seq<T>): set<T> {
    set x | x in s
  }

  lemma ElementsSnoc<T>(s: seq<T>, x: T)
    ensures Elements(s + [x]) == Elements(s) + {x}
  {
  }

  lemma ElementsLast<T>(s: seq<T>)
    requires s != []
    ensures Elements(s) == Elements(s[..|s| - 1]) + {s[|s| - 1]}
  {
    assert s == s[..|s| - 1] + [s[|s| - 1]];
    ElementsSnoc(s[..|s| - 1], s[|s| - 1]);
  }

  lemma DistinctConcat<T>(a: seq<T>, b: seq<T>)
    requires Distinct(a) && Distinct(b)
    requires forall x :: x in a ==> x !in b
    ensures Distinct(a + b)
  {
    forall p, q | 0 <= p < q < |a + b|
      ensures (a + b)[p] != (a + b)[q]
    {
      if q >= |a| && p < |a| {
        assert (a + b)[p] in a && (a + b)[q] == b[q - |a|];
      }
    }
  }

  /** A sequence has at least as many entries as it has distinct elements. */
  lemma {:induction false} ElementsCardinality<T>(s: seq<T>)
    ensures |Elements(s)| <= |s|
    ensures Distinct(s) ==> |Elements(s)| == |s|
  {
    if s != [] {
      var init := s[..|s| - 1];
      ElementsCardinality(init);
      assert Elements(s) == Elements(init) + {s[|s| - 1]};
      if Distinct(s) {
        assert Distinct(init);
        assert s[|s| - 1] !in Elements(init);
      }
    }
  }

  /** A subset is no larger than the set containing it. */
  lemma SubsetCardinality<T>(a: set<T>, b: set<T>)
    requires a <= b
    ensures |a| <= |b|
  {
    assert b == a + (b - a);
  }

  /** The lists of `ss` one after the other. */
  function Flatten<T>(ss: seq<seq<T>>): (r: seq<T>)
    decreases |ss|
  {
    if ss == [] then [] else ss[0] + Flatten(ss[1..])
  }

  /** An element of the flattened list is an element of one of the lists, and conversely. */
  lemma {:induction false} FlattenMember<T>(ss: seq<seq<T>>, x: T)
    ensures x in Flatten(ss) <==> exists t :: 0 <= t < |ss| && x in ss[t]
    decreases |ss|
  {
    if ss != [] {
      FlattenMember(ss[1..], x);
      if exists t :: 0 <= t < |ss| && x in ss[t] {
        var t :| 0 <= t < |ss| && x in ss[t];
        if t > 0 {
          assert ss[1..][t - 1] == ss[t];
        }
      }
      if exists t :: 0 <= t < |ss[1..]| && x in ss[1..][t] {
        var t :| 0 <= t < |ss[1..]| && x in ss[1..][t];
        assert ss[t + 1] == ss[1..][t];
      }
    }
  }

  /** Flattening lists that are each without repetition and pairwise disjoint repeats nothing. */
  lemma {:induction false} FlattenDistinct<T>(ss: seq<seq<T>>)
    requires forall t :: 0 <= t < |ss| ==> Distinct(ss[t])
    requires forall t, u, x :: 0 <= t < u < |ss| && x in ss[t] ==> x !in ss[u]
    ensures Distinct(Flatten(ss))
    decreases |ss|
  {
    if ss != [] {
      FlattenDistinct(ss[1..]);
      forall x | x in ss[0]
        ensures x !in Flatten(ss[1..])
      {
        FlattenMember(ss[1..], x);
      }
      DistinctConcat(ss[0], Flatten(ss[1..]));
    }
  }
}
