/** Small facts about sequences shared by the master and the worker models. */
module Seqs {

  /** No element occurs twice. */
  predicate Distinct<T(==)>(s: seq<T>) {
    forall i, j :: 0 <= i < j < |s| ==> s[i] != s[j]
  }

  /** The set of elements of a sequence. */
  function Elems<T>(s: seq<T>): set<T> {
    set x | x in s
  }

  /** A sequence without repetitions has as many elements as its set of elements. */
  lemma {:induction false} DistinctCard<T>(s: seq<T>)
    requires Distinct(s)
    ensures |Elems(s)| == |s|
  {
    if |s| > 0 {
      var t := s[..|s| - 1];
      assert Distinct(t);
      DistinctCard(t);
      assert s == t + [s[|s| - 1]];
      assert s[|s| - 1] !in t;
      assert Elems(s) == Elems(t) + {s[|s| - 1]};
    }
  }

  /** A sequence has at least as many positions as distinct elements. */
  lemma {:induction false} ElemsBound<T>(s: seq<T>)
    ensures |Elems(s)| <= |s|
  {
    if |s| > 0 {
      var t := s[..|s| - 1];
      ElemsBound(t);
      assert s == t + [s[|s| - 1]];
      assert Elems(s) == Elems(t) + {s[|s| - 1]};
    }
  }

  /** A sequence with a repetition has strictly fewer distinct elements than positions. */
  lemma {:induction false} NotDistinctCard<T>(s: seq<T>)
    requires !Distinct(s)
    ensures |Elems(s)| < |s|
  {
    var t := s[..|s| - 1];
    var x := s[|s| - 1];
    assert s == t + [x];
    assert Elems(s) == Elems(t) + {x};
    if Distinct(t) {
      var i, j :| 0 <= i < j < |s| && s[i] == s[j];
      assert j == |s| - 1;
      assert x in Elems(t) by { assert t[i] == x; }
      DistinctCard(t);
    } else {
      NotDistinctCard(t);
    }
  }

  /** The elements of a repetition-free sequence drawn from `pool` are at most `|pool|` many. */
  lemma DistinctBound<T>(s: seq<T>, pool: set<T>)
    requires Distinct(s)
    requires forall i :: 0 <= i < |s| ==> s[i] in pool
    ensures |s| <= |pool|
  {
    DistinctCard(s);
    assert Elems(s) <= pool;
    SubsetCard(Elems(s), pool);
  }

  lemma SubsetCard<T>(a: set<T>, b: set<T>)
    requires a <= b
    ensures |a| <= |b|
  {
    assert b == a + (b - a);
  }

  /** Concatenation of a sequence of sequences, in order. */
  function Concat<T>(ss: seq<seq<T>>): (r: seq<T>)
  {
    if |ss| == 0 then [] else Concat(ss[..|ss| - 1]) + ss[|ss| - 1]
  }
}
