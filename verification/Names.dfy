/** Catalog names: paths of identifier parts that compare case-insensitively, and the discipline that
    the policy spells every name one way. */
module Names {

  /** The parts of a name, outermost first. */
  type Path = seq<string>

  /** The outcome of looking a name up among the stored spellings. */
  datatype Spelling =
    | Spelled(path: Path)
    | SeveralSpellings(at: nat)
    | DiffersOnlyByCase(existing: Path)

  // Names fold ASCII letters only.
  function FoldChar(c: char): char {
    if 'A' <= c <= 'Z' then (c as int + 32) as char else c
  }

  function Fold(s: string): string {
    seq(|s|, i requires 0 <= i < |s| => FoldChar(s[i]))
  }

  predicate SameName(a: string, b: string) {
    Fold(a) == Fold(b)
  }

  predicate IsUpper(c: char) {
    'A' <= c <= 'Z'
  }

  /** Two characters are one letter in two cases. */
  predicate CasesOfALetter(upper: char, lower: char) {
    IsUpper(upper) && lower as int - 'a' as int == upper as int - 'A' as int
  }

  /** Two texts are the same name exactly when they agree character by character but for the case of ASCII
      letters; folding leaves no upper-case letter and changes nothing else. */
  lemma SameNameMeaning(a: string, b: string)
    ensures SameName(a, b) <==>
              |a| == |b| && forall i :: 0 <= i < |a| ==> a[i] == b[i] || CasesOfALetter(a[i], b[i]) || CasesOfALetter(b[i], a[i])
    ensures forall i :: 0 <= i < |Fold(a)| ==> !IsUpper(Fold(a)[i])
    ensures (forall i :: 0 <= i < |a| ==> !IsUpper(a[i])) <==> Fold(a) == a
  {
    if SameName(a, b) {
      assert |Fold(a)| == |a| && |Fold(b)| == |b|;
      forall i | 0 <= i < |a| ensures a[i] == b[i] || CasesOfALetter(a[i], b[i]) || CasesOfALetter(b[i], a[i]) {
        assert FoldChar(a[i]) == Fold(a)[i] == Fold(b)[i] == FoldChar(b[i]);
      }
    }
    if Fold(a) == a {
      forall i | 0 <= i < |a| ensures !IsUpper(a[i]) {
        assert a[i] == Fold(a)[i] == FoldChar(a[i]);
      }
    }
  }

  /** The first `k` parts of two paths name the same things. */
  predicate SamePrefix(a: Path, b: Path, k: nat) {
    && k <= |a|
    && k <= |b|
    && forall j :: 0 <= j < k ==> SameName(a[j], b[j])
  }

  /** No two stored paths have prefixes that differ only by case. */
  ghost predicate OneSpelling(names: set<Path>) {
    forall a, b, k: nat :: a in names && b in names && k < |a| && SamePrefix(a, b, k + 1) ==> a[k] == b[k]
  }

  /** The spellings the stored names give part `i` of `parts`. */
  function SpellingsOf(names: set<Path>, parts: Path, i: nat): set<string>
    requires i < |parts|
  {
    set n | n in names && SamePrefix(n, parts, i + 1) :: n[i]
  }

  function Stored(names: seq<Path>): set<Path> {
    set n | n in names
  }

  /** The stored spelling of `parts` from part `i` on: each part takes the spelling a stored name gives
      it, until no stored name goes on. `creating` refuses a last part that differs only by case. */
  ghost function SpellFrom(names: set<Path>, parts: Path, i: nat, creating: bool): Spelling
    requires i <= |parts|
    decreases |parts| - i
  {
    if i == |parts| then Spelled(parts) else
    var found := SpellingsOf(names, parts, i);
    if found == {} then Spelled(parts)
    else if exists a, b :: a in found && b in found && a != b then SeveralSpellings(i)
    else
      var spelled :| spelled in found;
      if creating && i + 1 == |parts| && spelled != parts[i] then DiffersOnlyByCase(parts[i := spelled])
      else SpellFrom(names, parts[i := spelled], i + 1, creating)
  }

  ghost function Spell(names: set<Path>, key: Path, creating: bool): Spelling {
    SpellFrom(names, key, 0, creating)
  }

  lemma SpellingsOfOneMore(names: set<Path>, name: Path, parts: Path, i: nat)
    requires i < |parts|
    ensures SpellingsOf(names + {name}, parts, i)
         == SpellingsOf(names, parts, i) + (if SamePrefix(name, parts, i + 1) then {name[i]} else {})
  {
    var more := SpellingsOf(names + {name}, parts, i);
    forall x | x in SpellingsOf(names, parts, i) ensures x in more {
      var n :| n in names && SamePrefix(n, parts, i + 1) && n[i] == x;
      assert n in names + {name};
    }
    if SamePrefix(name, parts, i + 1) {
      assert name in names + {name};
    }
  }

  method Agrees(name: Path, parts: Path, k: nat) returns (same: bool)
    requires k <= |name| && k <= |parts|
    ensures same <==> SamePrefix(name, parts, k)
  {
    same := true;
    var j := 0;
    while j < k && same
      invariant j <= k
      invariant same <==> SamePrefix(name, parts, j)
    {
      same := SameName(name[j], parts[j]);
      j := j + 1;
    }
  }

  /** The distinct spellings the stored names give one part. */
  method SpellingsAt(stored: seq<Path>, parts: Path, i: nat) returns (spellings: seq<string>)
    requires i < |parts|
    ensures (set x | x in spellings) == SpellingsOf(Stored(stored), parts, i)
    ensures forall a, b :: 0 <= a < b < |spellings| ==> spellings[a] != spellings[b]
  {
    spellings := [];
    for s := 0 to |stored|
      invariant (set x | x in spellings) == SpellingsOf(Stored(stored[..s]), parts, i)
      invariant forall a, b :: 0 <= a < b < |spellings| ==> spellings[a] != spellings[b]
    {
      var name := stored[s];
      assert Stored(stored[..s + 1]) == Stored(stored[..s]) + {name};
      SpellingsOfOneMore(Stored(stored[..s]), name, parts, i);
      var same := false;
      if i < |name| {
        same := Agrees(name, parts, i + 1);
      }
      if same && name[i] !in spellings {
        spellings := spellings + [name[i]];
      }
    }
    assert stored[..|stored|] == stored;
  }

  /** The writer's loop over the parts of a name. */
  method FindSpelling(key: Path, stored: seq<Path>, creating: bool) returns (r: Spelling)
    ensures r == Spell(Stored(stored), key, creating)
  {
    ghost var names := Stored(stored);
    var parts := key;
    var i := 0;
    while i < |parts|
      invariant i <= |parts|
      invariant Spell(names, key, creating) == SpellFrom(names, parts, i, creating)
    {
      var spellings := SpellingsAt(stored, parts, i);
      SpellingCases(names, parts, i, creating, spellings);
      if |spellings| > 1 {
        return SeveralSpellings(i);
      }
      if |spellings| == 0 {
        break;
      }
      var spelled := spellings[0];
      if creating && i + 1 == |parts| && spelled != parts[i] {
        return DiffersOnlyByCase(parts[i := spelled]);
      }
      parts := parts[i := spelled];
      i := i + 1;
    }
    r := Spelled(parts);
  }

  lemma StoredOneMore(stored: seq<Path>, name: Path)
    ensures Stored(stored + [name]) == Stored(stored) + {name}
  {
  }

  /** The stored names, listed in some order. */
  method ListNames(names: set<Path>) returns (listed: seq<Path>)
    ensures Stored(listed) == names
  {
    listed := [];
    var left := names;
    while left != {}
      invariant left <= names && Stored(listed) == names - left
    {
      var p :| p in left;
      left := left - {p};
      StoredOneMore(listed, p);
      listed := listed + [p];
    }
  }

  /** Every stored name that agrees with `q` up to case on a prefix agrees exactly at its end. */
  ghost predicate Fits(names: set<Path>, q: Path) {
    forall n, k: nat :: n in names && k < |q| && SamePrefix(n, q, k + 1) ==> n[k] == q[k]
  }

  /** A stored name has the whole of `key`, its last part in another case. */
  ghost predicate CaseSibling(names: set<Path>, key: Path) {
    exists n :: n in names && 0 < |key| <= |n| && SamePrefix(n, key, |key|) && n[|key| - 1] != key[|key| - 1]
  }

  // The first `i` parts of `parts` are a stored prefix.
  ghost predicate StoredUpTo(names: set<Path>, parts: Path, i: nat) {
    i > 0 ==> exists n :: n in names && i <= |n| && i <= |parts| && n[..i] == parts[..i]
  }

  lemma StoredPrefixFits(names: set<Path>, parts: Path, i: nat)
    requires OneSpelling(names) && i <= |parts| && StoredUpTo(names, parts, i)
    ensures forall n, k: nat :: n in names && k < i && SamePrefix(n, parts, k + 1) ==> n[k] == parts[k]
  {
    if i > 0 {
      var m :| m in names && i <= |m| && m[..i] == parts[..i];
      assert forall j :: 0 <= j < i ==> m[j] == m[..i][j] == parts[..i][j] == parts[j];
      forall n, k: nat | n in names && k < i && SamePrefix(n, parts, k + 1) ensures n[k] == parts[k] {
        assert SamePrefix(n, m, k + 1);
      }
    }
  }

  lemma SpellingsFound(names: set<Path>, parts: Path, i: nat)
    requires i < |parts|
    ensures forall n :: n in names && SamePrefix(n, parts, i + 1) ==> n[i] in SpellingsOf(names, parts, i)
  {
  }

  // How a lookup goes on from the distinct spellings found of a part.
  lemma SpellingCases(names: set<Path>, parts: Path, i: nat, creating: bool, spellings: seq<string>)
    requires i < |parts| && (set x | x in spellings) == SpellingsOf(names, parts, i)
    requires forall a, b :: 0 <= a < b < |spellings| ==> spellings[a] != spellings[b]
    ensures |spellings| > 1 ==> SpellFrom(names, parts, i, creating) == SeveralSpellings(i)
    ensures |spellings| == 0 ==> SpellFrom(names, parts, i, creating) == Spelled(parts)
    ensures |spellings| == 1 ==>
              SpellFrom(names, parts, i, creating)
              == if creating && i + 1 == |parts| && spellings[0] != parts[i] then DiffersOnlyByCase(parts[i := spellings[0]])
                 else SpellFrom(names, parts[i := spellings[0]], i + 1, creating)
  {
    var found := SpellingsOf(names, parts, i);
    if |spellings| > 1 {
      assert spellings[0] in found && spellings[1] in found && spellings[0] != spellings[1];
    } else if |spellings| == 1 {
      assert found == {spellings[0]};
      SpellStep(names, parts, i, creating, spellings[0]);
    } else {
      assert found == {};
    }
  }

  lemma SpellStep(names: set<Path>, parts: Path, i: nat, creating: bool, spelled: string)
    requires i < |parts| && SpellingsOf(names, parts, i) == {spelled}
    ensures SpellFrom(names, parts, i, creating)
         == if creating && i + 1 == |parts| && spelled != parts[i] then DiffersOnlyByCase(parts[i := spelled])
            else SpellFrom(names, parts[i := spelled], i + 1, creating)
  {
  }

  lemma NothingBelow(names: set<Path>, parts: Path, i: nat)
    requires OneSpelling(names) && i <= |parts| && StoredUpTo(names, parts, i)
    requires i < |parts| ==> forall n :: n in names ==> !SamePrefix(n, parts, i + 1)
    ensures Fits(names, parts) && !CaseSibling(names, parts)
  {
    StoredPrefixFits(names, parts, i);
    assert forall n, k: nat {:trigger SamePrefix(n, parts, k + 1)} :: n in names && i <= k < |parts| ==> !SamePrefix(n, parts, k + 1) by {
      assert forall n, k: nat {:trigger SamePrefix(n, parts, k + 1)} :: i <= k < |parts| && SamePrefix(n, parts, k + 1) ==> SamePrefix(n, parts, i + 1);
    }
    if 0 < |parts| {
      var k := |parts| - 1;
      assert forall n :: n in names && SamePrefix(n, parts, k + 1) ==> n[k] == parts[k];
    }
  }

  lemma OneStoredSpelling(names: set<Path>, parts: Path, i: nat, n: Path)
    requires OneSpelling(names) && i < |parts| && StoredUpTo(names, parts, i)
    requires n in names && SamePrefix(n, parts, i + 1)
    ensures SpellingsOf(names, parts, i) == {n[i]}
    ensures StoredUpTo(names, parts[i := n[i]], i + 1)
  {
    forall a | a in SpellingsOf(names, parts, i) ensures a == n[i] {
      var m :| m in names && SamePrefix(m, parts, i + 1) && m[i] == a;
      assert SamePrefix(n, m, i + 1);
    }
    assert n[i] in SpellingsOf(names, parts, i);
    StoredPrefix(names, parts, i, n);
    assert parts[i := n[i]][..i + 1] == parts[..i] + [n[i]] == n[..i + 1];
  }

  // Respelling a part up to case leaves alone who is a sibling of the whole name.
  lemma SiblingAfterRespelling(names: set<Path>, parts: Path, i: nat, spelled: string)
    requires i < |parts| && SameName(spelled, parts[i])
    requires i + 1 == |parts| ==> SpellingsOf(names, parts, i) == {spelled}
    ensures i + 1 < |parts| ==> (CaseSibling(names, parts) <==> CaseSibling(names, parts[i := spelled]))
    ensures i + 1 == |parts| ==> (CaseSibling(names, parts) <==> spelled != parts[i])
  {
    var parts' := parts[i := spelled];
    assert forall m :: SamePrefix(m, parts, |parts|) <==> SamePrefix(m, parts', |parts|);
    if i + 1 == |parts| {
      var m :| m in names && SamePrefix(m, parts, i + 1) && m[i] in SpellingsOf(names, parts, i);
      if CaseSibling(names, parts) {
        var m' :| m' in names && 0 < |parts| <= |m'| && SamePrefix(m', parts, |parts|) && m'[|parts| - 1] != parts[|parts| - 1];
        assert m'[i] in SpellingsOf(names, parts, i);
      }
    }
  }

  ghost predicate AnswersSoundly(names: set<Path>, parts: Path, creating: bool, a: Spelling) {
    && !a.SeveralSpellings?
    && (a.DiffersOnlyByCase? <==> creating && CaseSibling(names, parts))
    && (a.Spelled? ==> |a.path| == |parts| && SamePrefix(a.path, parts, |parts|) && Fits(names, a.path))
  }

  lemma AnswerOfRespelling(names: set<Path>, parts: Path, i: nat, creating: bool, spelled: string, a: Spelling)
    requires i < |parts| && SameName(spelled, parts[i])
    requires i + 1 == |parts| ==> SpellingsOf(names, parts, i) == {spelled}
    requires creating && i + 1 == |parts| ==> spelled == parts[i]
    requires AnswersSoundly(names, parts[i := spelled], creating, a)
    ensures AnswersSoundly(names, parts, creating, a)
  {
    SiblingAfterRespelling(names, parts, i, spelled);
    if creating && i + 1 == |parts| {
      assert parts[i := spelled] == parts;
    }
    assert forall q :: SamePrefix(q, parts[i := spelled], |parts|) ==> SamePrefix(q, parts, |parts|);
  }

  /** What a lookup answers when the policy spells every name one way, from a part on whose prefix is
      already a stored one. */
  lemma {:induction false} SpellFromSound(names: set<Path>, parts: Path, i: nat, creating: bool)
    requires OneSpelling(names)
    requires i <= |parts| && StoredUpTo(names, parts, i)
    ensures AnswersSoundly(names, parts, creating, SpellFrom(names, parts, i, creating))
    decreases |parts| - i
  {
    if i == |parts| {
      NothingBelow(names, parts, i);
    } else if SpellingsOf(names, parts, i) == {} {
      SpellingsFound(names, parts, i);
      NothingBelow(names, parts, i);
    } else {
      var spelled :| spelled in SpellingsOf(names, parts, i);
      var n :| n in names && SamePrefix(n, parts, i + 1) && n[i] == spelled;
      OneStoredSpelling(names, parts, i, n);
      SpellStep(names, parts, i, creating, spelled);
      if creating && i + 1 == |parts| && spelled != parts[i] {
        SiblingAfterRespelling(names, parts, i, spelled);
      } else {
        SpellFromSound(names, parts[i := spelled], i + 1, creating);
        AnswerOfRespelling(names, parts, i, creating, spelled, SpellFrom(names, parts[i := spelled], i + 1, creating));
      }
    }
  }

  // A stored name that agrees with `parts` up to case agrees exactly where `parts` is already spelled.
  lemma StoredPrefix(names: set<Path>, parts: Path, i: nat, n: Path)
    requires OneSpelling(names) && n in names
    requires i <= |parts| && SamePrefix(n, parts, i)
    requires StoredUpTo(names, parts, i)
    ensures n[..i] == parts[..i]
  {
    if i > 0 {
      var m :| m in names && i <= |m| && m[..i] == parts[..i];
      assert forall j :: 0 <= j < i ==> m[j] == m[..i][j] == parts[..i][j] == parts[j];
      forall k | 0 <= k < i ensures n[k] == parts[k] {
        assert SamePrefix(n, m, k + 1);
      }
    }
  }

  /** While the policy spells every name one way: a lookup never finds several spellings, answers the
      name up to case, and recording its answer keeps one spelling - looking it up again changes nothing.
      Creating is refused exactly when a stored name has the whole name in another case. */
  lemma SpellingKeepsOneSpelling(names: set<Path>, key: Path, creating: bool)
    requires OneSpelling(names)
    ensures !Spell(names, key, creating).SeveralSpellings?
    ensures Spell(names, key, creating).DiffersOnlyByCase? <==>
            creating && CaseSibling(names, key)
    ensures Spell(names, key, creating).Spelled? ==>
              var q := Spell(names, key, creating).path;
              && |q| == |key| && SamePrefix(q, key, |key|)
              && OneSpelling(names + {q})
              && forall again :: Spell(names + {q}, q, again) == Spelled(q) == Spell(names, q, again)
  {
    SpellFromSound(names, key, 0, creating);
    if Spell(names, key, creating).Spelled? {
      var q := Spell(names, key, creating).path;
      forall a, b, k: nat | a in names + {q} && b in names + {q} && k < |a| && SamePrefix(a, b, k + 1) ensures a[k] == b[k] {
        if a == q && b in names {
          assert SamePrefix(b, a, k + 1);
        }
      }
      forall again ensures Spell(names + {q}, q, again) == Spelled(q) == Spell(names, q, again) {
        SpelledStays(names + {q}, names + {q}, q, again);
        SpelledStays(names + {q}, names, q, again);
      }
    }
  }

  /** A name that is stored where every name has one spelling is its own spelling, also among any
      subset of the stored names - so none of them differs from it only by case. */
  lemma SpelledStays(names: set<Path>, some: set<Path>, key: Path, creating: bool)
    requires OneSpelling(names) && key in names && some <= names
    ensures Spell(some, key, creating) == Spelled(key)
  {
    SpellFromStays(names, some, key, 0, creating);
  }

  lemma {:induction false} SpellFromStays(names: set<Path>, some: set<Path>, key: Path, i: nat, creating: bool)
    requires OneSpelling(names) && key in names && some <= names && i <= |key|
    ensures SpellFrom(some, key, i, creating) == Spelled(key)
    decreases |key| - i
  {
    if i < |key| {
      forall s | s in SpellingsOf(some, key, i) ensures s == key[i] {
        var n :| n in some && SamePrefix(n, key, i + 1) && n[i] == s;
      }
      assert key[i := key[i]] == key;
      SpellFromStays(names, some, key, i + 1, creating);
    }
  }
}
