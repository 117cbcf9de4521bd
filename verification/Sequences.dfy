/** Facts about finite collections that several components need. */
module Sequences {
  import opened PolicyRows

  /** The elements to keep, in order: what erasing the others leaves. */
  function Filter<T(!new)>(s: seq<T>, keep: T -> bool): (r: seq<T>)
    ensures forall x :: x in r <==> x in s && keep(x)
  {
    if s == [] then []
    else
      var n := |s| - 1;
      assert s == s[..n] + [s[n]];
      Filter(s[..n], keep) + if keep(s[n]) then [s[n]] else []
  }

  function FirstWhere<T(!new)>(s: seq<T>, wanted: T -> bool): (r: Option<T>)
    ensures r.Some? ==> r.value in s && wanted(r.value)
    ensures r.None? ==> forall x :: x in s ==> !wanted(x)
  {
    if s == [] then None
    else
      var n := |s| - 1;
      assert s == s[..n] + [s[n]];
      var before := FirstWhere(s[..n], wanted);
      if before.Some? then before else if wanted(s[n]) then Some(s[n]) else None
  }

  /** No two elements have the same identity. */
  ghost predicate DistinctBy<T, U>(s: seq<T>, id: T -> U) {
    forall i, j :: 0 <= i < j < |s| ==> id(s[i]) != id(s[j])
  }

  lemma {:induction false} FilterKeepsDistinct<T(!new), U>(s: seq<T>, keep: T -> bool, id: T -> U)
    requires DistinctBy(s, id)
    ensures DistinctBy(Filter(s, keep), id)
  {
    if s != [] {
      var n := |s| - 1;
      FilterKeepsDistinct(s[..n], keep, id);
      var before := Filter(s[..n], keep);
      forall i | 0 <= i < |before| ensures id(before[i]) != id(s[n]) {
        assert before[i] in before;
        assert before[i] in s[..n];
        var j :| 0 <= j < n && s[..n][j] == before[i];
        assert s[j] == before[i];
      }
    }
  }

  lemma {:induction false} FilterAll<T(!new)>(s: seq<T>, keep: T -> bool)
    requires forall i :: 0 <= i < |s| ==> keep(s[i])
    ensures Filter(s, keep) == s
  {
    if s != [] {
      var n := |s| - 1;
      FilterAll(s[..n], keep);
      assert keep(s[n]);
      assert s == s[..n] + [s[n]];
    }
  }

  lemma {:induction false} FilterNone<T(!new)>(s: seq<T>, keep: T -> bool)
    requires forall i :: 0 <= i < |s| ==> !keep(s[i])
    ensures Filter(s, keep) == []
  {
    if s != [] {
      var n := |s| - 1;
      FilterNone(s[..n], keep);
      assert !keep(s[n]);
    }
  }

  /** Where identities are distinct, only one element has a given one. */
  lemma TheOne<T, U>(s: seq<T>, id: T -> U, x: T, y: T)
    requires DistinctBy(s, id) && x in s && y in s && id(x) == id(y)
    ensures x == y
  {
    var i :| 0 <= i < |s| && s[i] == x;
    var j :| 0 <= j < |s| && s[j] == y;
  }

  lemma SubsetOfSameSize<T>(a: set<T>, b: set<T>)
    requires a <= b && |a| == |b|
    ensures a == b
  {
    if x :| x in b && x !in a {
      assert a <= b - {x};
      SubsetIsSmaller(a, b - {x});
    }
  }

  lemma {:induction false} SubsetIsSmaller<T>(a: set<T>, b: set<T>)
    requires a <= b
    ensures |a| <= |b|
  {
    if a != {} {
      var x :| x in a;
      SubsetIsSmaller(a - {x}, b - {x});
    }
  }
}
