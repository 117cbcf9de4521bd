/** The limit on recorded denials: per source and second, at most so many are recorded. */
module DenialLimit {
  import opened Sequences

  const MOST_SOURCES := 4096

  /** The second a source was last refused in, and how often in it. */
  type Buckets = map<string, (int, nat)>

  datatype Refusal = Refusal(source: string, second: int)

  // The sources kept: a flood of them is forgotten at once.
  function Remembered(b: Buckets): Buckets {
    if |b| > MOST_SOURCES then map[] else b
  }

  function CountIn(b: Buckets, r: Refusal): nat {
    if r.source in b && b[r.source].0 == r.second then b[r.source].1 else 0
  }

  function Bumped(b: Buckets, r: Refusal): Buckets {
    Remembered(b)[r.source := (r.second, CountIn(Remembered(b), r) + 1)]
  }

  predicate Admits(b: Buckets, r: Refusal, perSecond: int) {
    perSecond <= 0 || CountIn(Remembered(b), r) < perSecond
  }

  class Limiter {
    var buckets: Buckets

    constructor ()
      ensures buckets == map[]
    {
      buckets := map[];
    }

    method AdmitDenial(r: Refusal, perSecond: int) returns (admitted: bool)
      modifies this
      ensures admitted <==> Admits(old(buckets), r, perSecond)
      ensures buckets == if perSecond <= 0 then old(buckets) else Bumped(old(buckets), r)
    {
      if perSecond <= 0 {
        return true;
      }
      if |buckets| > 4096 {
        buckets := map[];
      }
      var bucket := if r.source in buckets then buckets[r.source] else (0, 0);
      if bucket.0 != r.second {
        bucket := (r.second, 0);
      }
      bucket := (bucket.0, bucket.1 + 1);
      buckets := buckets[r.source := bucket];
      admitted := bucket.1 <= perSecond;
    }
  }

  function After(rs: seq<Refusal>): Buckets {
    if rs == [] then map[] else Bumped(After(rs[..|rs| - 1]), rs[|rs| - 1])
  }

  /** How many refusals a source had in a second, and how many of them were recorded. */
  function Refused(rs: seq<Refusal>, r: Refusal): nat {
    if rs == [] then 0 else Refused(rs[..|rs| - 1], r) + if rs[|rs| - 1] == r then 1 else 0
  }

  function RecordedOf(rs: seq<Refusal>, r: Refusal, perSecond: int): nat {
    if rs == [] then 0 else
    var before := rs[..|rs| - 1];
    RecordedOf(before, r, perSecond) + if rs[|rs| - 1] == r && Admits(After(before), r, perSecond) then 1 else 0
  }

  function Min(a: int, b: int): int {
    if a < b then a else b
  }

  /** A source's clock never goes back. */
  predicate ClockAdvances(rs: seq<Refusal>) {
    forall i, j :: 0 <= i < j < |rs| && rs[i].source == rs[j].source ==> rs[i].second <= rs[j].second
  }

  function Sources(rs: seq<Refusal>): set<string> {
    set r | r in rs :: r.source
  }

  // A bucket never counts more than happened.
  lemma {:induction false} CountedHappened(rs: seq<Refusal>, r: Refusal)
    ensures CountIn(After(rs), r) <= Refused(rs, r)
  {
    if rs != [] {
      CountedHappened(rs[..|rs| - 1], r);
    }
  }

  /** Whatever the clock and however many sources: the first `perSecond` refusals of a source in a second
      are all recorded. */
  lemma {:induction false} NeverTooFew(rs: seq<Refusal>, r: Refusal, perSecond: int)
    ensures perSecond <= 0 ==> RecordedOf(rs, r, perSecond) == Refused(rs, r)
    ensures RecordedOf(rs, r, perSecond) >= Min(perSecond, Refused(rs, r))
  {
    if rs != [] {
      NeverTooFew(rs[..|rs| - 1], r, perSecond);
      CountedHappened(rs[..|rs| - 1], r);
    }
  }

  lemma {:induction false} OnlySeenSources(rs: seq<Refusal>)
    ensures After(rs).Keys <= Sources(rs)
  {
    if rs != [] {
      var n := |rs| - 1;
      OnlySeenSources(rs[..n]);
      assert rs == rs[..n] + [rs[n]];
      assert Sources(rs) == Sources(rs[..n]) + {rs[n].source};
    }
  }

  lemma NothingForgotten(rs: seq<Refusal>)
    requires |Sources(rs)| <= MOST_SOURCES
    ensures Remembered(After(rs)) == After(rs)
  {
    OnlySeenSources(rs);
    if |After(rs)| > |Sources(rs)| {
      SubsetIsSmaller(After(rs).Keys, Sources(rs));
    }
  }

  /** While few sources are refused, a bucket holds its source's last second and every refusal in it. */
  ghost predicate Exact(b: Buckets, rs: seq<Refusal>) {
    && (forall s :: s in b ==> b[s].1 == Refused(rs, Refusal(s, b[s].0)))
    && (forall i :: 0 <= i < |rs| ==> rs[i].source in b && rs[i].second <= b[rs[i].source].0)
    && (forall s :: s in b ==> exists i :: 0 <= i < |rs| && rs[i] == Refusal(s, b[s].0))
  }

  lemma {:induction false} NotRefused(rs: seq<Refusal>, r: Refusal)
    requires forall i :: 0 <= i < |rs| ==> rs[i] != r
    ensures Refused(rs, r) == 0
  {
    if rs != [] {
      NotRefused(rs[..|rs| - 1], r);
    }
  }

  lemma FewerSources(rs: seq<Refusal>, n: nat)
    requires n <= |rs|
    ensures |Sources(rs[..n])| <= |Sources(rs)|
  {
    SubsetIsSmaller(Sources(rs[..n]), Sources(rs));
  }

  lemma CountIsExact(b: Buckets, rs: seq<Refusal>, r: Refusal)
    requires Exact(b, rs) && ClockAdvances(rs + [r])
    ensures CountIn(b, r) == Refused(rs, r)
  {
    forall j | 0 <= j < |rs| && rs[j].source == r.source ensures rs[j].second <= r.second {
      assert (rs + [r])[j] == rs[j] && (rs + [r])[|rs|] == r;
    }
    if !(r.source in b && b[r.source].0 == r.second) {
      NotRefused(rs, r);
    }
  }

  lemma RefusedOneMore(rs: seq<Refusal>, r: Refusal, other: Refusal)
    ensures Refused(rs + [r], other) == Refused(rs, other) + if r == other then 1 else 0
  {
    assert (rs + [r])[..|rs|] == rs;
  }

  lemma StaysExact(b: Buckets, rs: seq<Refusal>, r: Refusal)
    requires Exact(b, rs) && ClockAdvances(rs + [r]) && Remembered(b) == b
    ensures Exact(Bumped(b, r), rs + [r])
  {
    var b', rs' := Bumped(b, r), rs + [r];
    CountIsExact(b, rs, r);
    forall s | s in b' ensures b'[s].1 == Refused(rs', Refusal(s, b'[s].0))
                       ensures exists i :: 0 <= i < |rs'| && rs'[i] == Refusal(s, b'[s].0) {
      RefusedOneMore(rs, r, Refusal(s, b'[s].0));
      if s == r.source {
        assert rs'[|rs|] == Refusal(s, b'[s].0);
      } else {
        var i :| 0 <= i < |rs| && rs[i] == Refusal(s, b[s].0);
        assert rs'[i] == Refusal(s, b'[s].0);
      }
    }
    forall i | 0 <= i < |rs'| ensures rs'[i].source in b' && rs'[i].second <= b'[rs'[i].source].0 {
      if i < |rs| {
        assert rs'[i] == rs[i] && rs'[|rs|] == r;
      }
    }
  }

  lemma OneMoreStaysExact(rs: seq<Refusal>, r: Refusal)
    requires |Sources(rs)| <= MOST_SOURCES && ClockAdvances(rs + [r]) && Exact(After(rs), rs)
    ensures Exact(After(rs + [r]), rs + [r])
  {
    NothingForgotten(rs);
    StaysExact(After(rs), rs, r);
    assert (rs + [r])[..|rs|] == rs;
  }

  lemma ClockAdvancedBefore(rs: seq<Refusal>, n: nat)
    requires n <= |rs| && ClockAdvances(rs)
    ensures ClockAdvances(rs[..n])
  {
  }

  lemma {:induction false} BucketsAreExact(rs: seq<Refusal>)
    requires |Sources(rs)| <= MOST_SOURCES && ClockAdvances(rs)
    ensures Exact(After(rs), rs)
  {
    if rs != [] {
      var before, r := rs[..|rs| - 1], rs[|rs| - 1];
      assert rs == before + [r];
      FewerSources(rs, |rs| - 1);
      ClockAdvancedBefore(rs, |rs| - 1);
      BucketsAreExact(before);
      OneMoreStaysExact(before, r);
    }
  }

  lemma AdmitsExactly(rs: seq<Refusal>, r: Refusal, perSecond: int)
    requires |Sources(rs)| <= MOST_SOURCES && ClockAdvances(rs + [r]) && ClockAdvances(rs) && perSecond > 0
    ensures Admits(After(rs), r, perSecond) <==> Refused(rs, r) < perSecond
  {
    BucketsAreExact(rs);
    NothingForgotten(rs);
    CountIsExact(After(rs), rs, r);
  }

  /** With a clock that never goes back and no flood of sources, a source's denials recorded in a second
      are exactly its first `perSecond`. */
  lemma {:induction false} RecordedExactly(rs: seq<Refusal>, r: Refusal, perSecond: int)
    requires |Sources(rs)| <= MOST_SOURCES && ClockAdvances(rs) && perSecond > 0
    ensures RecordedOf(rs, r, perSecond) == Min(perSecond, Refused(rs, r))
  {
    if rs != [] {
      var n := |rs| - 1;
      FewerSources(rs, n);
      RecordedExactly(rs[..n], r, perSecond);
      assert rs[..n] + [rs[n]] == rs;
      AdmitsExactly(rs[..n], rs[n], perSecond);
    }
  }
}
