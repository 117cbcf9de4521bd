/** The LIKE of a claim condition: `%` stands for any text, `_` for one character. */
module Like {

  /** The meaning of a pattern, from position `i` of the value and `j` of the pattern. */
  predicate Meets(value: string, i: nat, pattern: string, j: nat)
    requires i <= |value| && j <= |pattern|
    decreases |pattern| - j, |value| - i
  {
    if j == |pattern| then i == |value|
    else if pattern[j] == '%' then Meets(value, i, pattern, j + 1) || (i < |value| && Meets(value, i + 1, pattern, j))
    else i < |value| && (pattern[j] == '_' || pattern[j] == value[i]) && Meets(value, i + 1, pattern, j + 1)
  }

  /** Some position after `from` meets the pattern from `j` on. */
  ghost predicate MeetsAfter(value: string, from: nat, pattern: string, j: nat)
    requires j <= |pattern|
  {
    exists k :: from < k <= |value| && Meets(value, k, pattern, j)
  }

  lemma {:induction false} StarMeaning(value: string, i: nat, pattern: string, j: nat)
    requires i <= |value| && j < |pattern| && pattern[j] == '%'
    ensures Meets(value, i, pattern, j) <==> Meets(value, i, pattern, j + 1) || MeetsAfter(value, i, pattern, j + 1)
    decreases |value| - i
  {
    if i < |value| {
      StarMeaning(value, i + 1, pattern, j);
      if MeetsAfter(value, i, pattern, j + 1) && !Meets(value, i + 1, pattern, j + 1) {
        var k :| i < k <= |value| && Meets(value, k, pattern, j + 1);
        assert i + 1 < k;
      }
    }
  }

  /** A pattern without `%` and `_` is met by itself alone. */
  lemma {:induction false} PlainPattern(value: string, i: nat, pattern: string, j: nat)
    requires i <= |value| && j <= |pattern| && forall q :: j <= q < |pattern| ==> pattern[q] != '%' && pattern[q] != '_'
    ensures Meets(value, i, pattern, j) <==> value[i..] == pattern[j..]
    decreases |pattern| - j
  {
    if j < |pattern| && i < |value| {
      PlainPattern(value, i + 1, pattern, j + 1);
      assert value[i..] == [value[i]] + value[i + 1..] && pattern[j..] == [pattern[j]] + pattern[j + 1..];
    }
  }

  // A stretch of the pattern without `%` takes exactly its own length.
  lemma {:induction false} StretchTakesItsLength(value: string, i: nat, pattern: string, j: nat, length: nat)
    requires i <= |value| && j + length <= |pattern|
    requires forall q :: j <= q < j + length ==> pattern[q] != '%'
    requires Meets(value, i, pattern, j)
    ensures i + length <= |value| && Meets(value, i + length, pattern, j + length)
    decreases length
  {
    if length > 0 {
      StretchTakesItsLength(value, i + 1, pattern, j + 1, length - 1);
    }
  }

  // A star reached later could as well have been reached sooner.
  lemma {:induction false} StarTakesMore(value: string, i: nat, later: nat, pattern: string, j: nat)
    requires i <= later <= |value| && j < |pattern| && pattern[j] == '%'
    requires Meets(value, later, pattern, j)
    ensures Meets(value, i, pattern, j)
    decreases later - i
  {
    if i < later {
      StarTakesMore(value, i + 1, later, pattern, j);
    }
  }

  /** A second star makes every retry of the first one pointless. */
  lemma LastStarDecides(value: string, pattern: string, starP: nat, starV: nat, v: nat, p: nat)
    requires starP < p < |pattern| && starV <= v <= |value| && v - starV == p - (starP + 1)
    requires forall q :: starP < q < p ==> pattern[q] != '%'
    requires pattern[p] == '%'
    ensures MeetsAfter(value, starV, pattern, starP + 1) ==> Meets(value, v, pattern, p)
  {
    if MeetsAfter(value, starV, pattern, starP + 1) {
      var k :| starV < k <= |value| && Meets(value, k, pattern, starP + 1);
      StretchTakesItsLength(value, k, pattern, starP + 1, p - (starP + 1));
      StarTakesMore(value, v, k + (p - (starP + 1)), pattern, p);
    }
  }

  /** At the end of the value no retry is left: the stretch since the star would not fit. */
  lemma NoRetryAtTheEnd(value: string, pattern: string, starP: nat, starV: nat, p: nat)
    requires starP < p <= |pattern| && starV <= |value| && |value| - starV == p - (starP + 1)
    requires forall q :: starP < q < p ==> pattern[q] != '%'
    ensures !MeetsAfter(value, starV, pattern, starP + 1)
  {
    if MeetsAfter(value, starV, pattern, starP + 1) {
      var k :| starV < k <= |value| && Meets(value, k, pattern, starP + 1);
      StretchTakesItsLength(value, k, pattern, starP + 1, p - (starP + 1));
      assert false;
    }
  }

  lemma RetryNext(value: string, from: nat, pattern: string, j: nat)
    requires from < |value| && j <= |pattern|
    ensures MeetsAfter(value, from, pattern, j) <==> Meets(value, from + 1, pattern, j) || MeetsAfter(value, from + 1, pattern, j)
  {
    if MeetsAfter(value, from, pattern, j) && !Meets(value, from + 1, pattern, j) {
      var k :| from < k <= |value| && Meets(value, k, pattern, j);
      assert from + 1 < k;
    }
  }

  /** `n` times `w`, added up. */
  function Times(n: nat, w: nat): nat {
    if n == 0 then 0 else Times(n - 1, w) + w
  }

  lemma {:induction false} TimesGrows(a: nat, b: nat, w: nat)
    requires a <= b
    ensures Times(a, w) <= Times(b, w)
    ensures a < b ==> Times(a, w) + w <= Times(b, w)
  {
    if a < b {
      TimesGrows(a, b - 1, w);
    }
  }

  lemma {:induction false} TimesMultiplies(n: nat, w: nat)
    ensures Times(n, w) == n * w
  {
    if n > 0 {
      TimesMultiplies(n - 1, w);
      assert n * w == (n - 1) * w + w;
    }
  }

  lemma WithinBound(starV: nat, value: nat, p: nat, pattern: nat, rounds: nat)
    requires starV <= value && p <= pattern && rounds <= Times(starV, pattern + 1) + p + 1
    ensures rounds <= (value + 1) * (pattern + 1)
  {
    TimesGrows(starV, value, pattern + 1);
    TimesMultiplies(value + 1, pattern + 1);
  }

  /** The matcher with one backtrack point: it answers what the pattern means, in at most
      (|value| + 1) * (|pattern| + 1) rounds of its main loop. */
  method LikeMatches(value: string, pattern: string) returns (matches: bool, ghost rounds: nat)
    ensures matches <==> Meets(value, 0, pattern, 0)
    ensures rounds <= (|value| + 1) * (|pattern| + 1)
  {
    var v, p := 0, 0;
    var starred, starP, starV := false, 0, 0;
    ghost var w := |pattern| + 1;
    rounds := 0;
    while v < |value|
      invariant starV <= v <= |value| && p <= |pattern| && w == |pattern| + 1
      invariant !starred ==> starV == 0 && (Meets(value, 0, pattern, 0) <==> Meets(value, v, pattern, p))
      invariant starred ==> starP < p && v - starV == p - (starP + 1) && pattern[starP] == '%'
      invariant starred ==> forall q :: starP < q < p ==> pattern[q] != '%'
      invariant starred ==> (Meets(value, 0, pattern, 0) <==>
                             Meets(value, v, pattern, p) || MeetsAfter(value, starV, pattern, starP + 1))
      invariant rounds <= Times(starV, w) + p
      decreases |value| - starV, |pattern| - p
    {
      rounds := rounds + 1;
      TimesGrows(starV, v, w);
      if p < |pattern| && pattern[p] == '%' {
        StarMeaning(value, v, pattern, p);
        if starred {
          LastStarDecides(value, pattern, starP, starV, v, p);
        }
        starred, starP, starV := true, p, v;
        p := p + 1;
      } else if p < |pattern| && (pattern[p] == '_' || pattern[p] == value[v]) {
        v := v + 1;
        p := p + 1;
      } else if starred {
        RetryNext(value, starV, pattern, starP + 1);
        TimesGrows(starV, starV + 1, w);
        starV := starV + 1;
        v := starV;
        p := starP + 1;
      } else {
        WithinBound(starV, |value|, p, |pattern|, rounds);
        return false, rounds;
      }
    }
    WithinBound(starV, |value|, p, |pattern|, rounds);
    if starred {
      NoRetryAtTheEnd(value, pattern, starP, starV, p);
    }
    while p < |pattern| && pattern[p] == '%'
      invariant p <= |pattern|
      invariant Meets(value, 0, pattern, 0) <==> Meets(value, v, pattern, p)
    {
      p := p + 1;
    }
    matches := p == |pattern|;
  }
}
