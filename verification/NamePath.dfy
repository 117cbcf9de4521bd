/** The canonical key of a name: its parts joined by dots, a part quoted only when it holds a dot or a
    quote. */
module NamePath {
  import opened Names
  import opened SchemaCaps

  datatype KeyError = EmptyName | UnterminatedQuote | AfterQuoted | QuoteInside | EmptyPart

  datatype Parsed = Parts(parts: Path) | Malformed(error: KeyError)

  /** One part read off the front of a text, and what follows it. */
  datatype Front = Front(part: string, rest: string) | NoPart(error: KeyError)

  function Escaped(part: string): string {
    if part == "" then "" else (if part[0] == '"' then "\"\"" else [part[0]]) + Escaped(part[1..])
  }

  predicate NeedsQuotes(part: string) {
    '.' in part || '"' in part
  }

  function QuotePart(part: string): string {
    if NeedsQuotes(part) then "\"" + Escaped(part) + "\"" else part
  }

  function ToKey(parts: Path): string {
    if parts == [] then ""
    else if |parts| == 1 then QuotePart(parts[0])
    else QuotePart(parts[0]) + "." + ToKey(parts[1..])
  }

  // The inside of a quoted part, up to its closing quote.
  function QuotedFront(text: string): Front {
    if text == "" then NoPart(UnterminatedQuote)
    else if text[0] != '"' then Before(text[0], QuotedFront(text[1..]))
    else if |text| > 1 && text[1] == '"' then Before('"', QuotedFront(text[2..]))
    else Front("", text[1..])
  }

  function PlainFront(text: string): Front {
    if text == "" || text[0] == '.' then Front("", text)
    else if text[0] == '"' then NoPart(QuoteInside)
    else Before(text[0], PlainFront(text[1..]))
  }

  function Before(c: char, f: Front): Front {
    if f.Front? then Front([c] + f.part, f.rest) else f
  }

  function FirstPart(text: string): Front {
    if text != "" && text[0] == '"' then
      var f := QuotedFront(text[1..]);
      if f.Front? && f.rest != "" && f.rest[0] != '.' then NoPart(AfterQuoted) else f
    else PlainFront(text)
  }

  lemma {:induction false} QuotedShorter(text: string)
    ensures QuotedFront(text).Front? ==> |QuotedFront(text).rest| < |text|
  {
    if text != "" {
      if text[0] != '"' {
        QuotedShorter(text[1..]);
      } else if |text| > 1 && text[1] == '"' {
        QuotedShorter(text[2..]);
      }
    }
  }

  lemma {:induction false} PlainShorter(text: string)
    ensures PlainFront(text).Front? ==> |PlainFront(text).rest| <= |text|
    ensures PlainFront(text).Front? && PlainFront(text).rest != "" ==> PlainFront(text).rest[0] == '.'
  {
    if text != "" && text[0] != '.' && text[0] != '"' {
      PlainShorter(text[1..]);
    }
  }

  lemma FrontShorter(text: string)
    ensures FirstPart(text).Front? ==> |FirstPart(text).rest| <= |text|
    ensures FirstPart(text).Front? && FirstPart(text).rest != "" ==> FirstPart(text).rest[0] == '.'
  {
    PlainShorter(text);
    if text != "" {
      QuotedShorter(text[1..]);
    }
  }

  function PartsOf(text: string): Parsed
    decreases |text|
  {
    FrontShorter(text);
    match FirstPart(text)
    case NoPart(error) => Malformed(error)
    case Front(part, rest) =>
      if part == "" then Malformed(EmptyPart)
      else if rest == "" then Parts([part])
      else if |rest| == 1 then Malformed(EmptyPart)
      else match PartsOf(rest[1..])
        case Malformed(error) => Malformed(error)
        case Parts(more) => Parts([part] + more)
  }

  function Parse(key: string): Parsed {
    if key == "" then Malformed(EmptyName) else PartsOf(key)
  }

  // ---------------------------------------------------------------------------------------------
  // The source's loops.

  // What is still to be read makes up the whole with what was.
  function After(read: string, f: Front): Front {
    if f.Front? then Front(read + f.part, f.rest) else f
  }

  lemma AfterOneMore(read: string, c: char, f: Front)
    ensures After(read, Before(c, f)) == After(read + [c], f)
  {
    if f.Front? {
      assert read + ([c] + f.part) == read + [c] + f.part;
    }
  }

  // What the inside of a quoted part reads as at one of its characters.
  lemma QuotedAt(key: string, i: nat)
    requires i < |key|
    ensures QuotedFront(key[i..]) ==
            if key[i] != '"' then Before(key[i], QuotedFront(key[i + 1..]))
            else if i + 1 < |key| && key[i + 1] == '"' then Before('"', QuotedFront(key[i + 2..]))
            else Front("", key[i + 1..])
  {
    assert key[i..][1..] == key[i + 1..];
    assert i + 1 < |key| ==> key[i..][2..] == key[i + 2..];
  }

  lemma NothingRead(f: Front)
    ensures After("", f) == f
  {
    if f.Front? {
      assert "" + f.part == f.part;
    }
  }

  // One turn of the reader inside a quoted part.
  lemma QuotedStep(key: string, i: nat, part: string)
    requires i < |key|
    ensures After(part, QuotedFront(key[i..])) ==
            if key[i] != '"' then After(part + [key[i]], QuotedFront(key[i + 1..]))
            else if i + 1 < |key| && key[i + 1] == '"' then After(part + ['"'], QuotedFront(key[i + 2..]))
            else Front(part, key[i + 1..])
  {
    QuotedAt(key, i);
    if key[i] != '"' {
      AfterOneMore(part, key[i], QuotedFront(key[i + 1..]));
    } else if i + 1 < |key| && key[i + 1] == '"' {
      AfterOneMore(part, '"', QuotedFront(key[i + 2..]));
    } else {
      assert part + "" == part;
    }
  }

  // Reads on from the opening quote at `open`.
  method ReadQuoted(key: string, open: nat) returns (f: Front, next: nat)
    requires open < |key|
    ensures f == QuotedFront(key[open + 1..])
    ensures f.Front? ==> open < next <= |key| && f.rest == key[next..]
  {
    ghost var all := QuotedFront(key[open + 1..]);
    var part := "";
    var i := open + 1;
    NothingRead(all);
    while i < |key|
      invariant open < i <= |key|
      invariant After(part, QuotedFront(key[i..])) == all
      decreases |key| - i
    {
      QuotedStep(key, i, part);
      if key[i] != '"' {
        part := part + [key[i]];
      } else if i + 1 < |key| && key[i + 1] == '"' {
        part := part + ['"'];
        i := i + 1;
      } else {
        return Front(part, key[i + 1..]), i + 1;
      }
      i := i + 1;
    }
    assert key[|key|..] == "";
    f, next := NoPart(UnterminatedQuote), i;
  }

  method ReadPlain(key: string, start: nat) returns (f: Front, next: nat)
    requires start <= |key|
    ensures f == PlainFront(key[start..])
    ensures f.Front? ==> start <= next <= |key| && f.rest == key[next..]
  {
    var part := "";
    next := start;
    while next < |key| && key[next] != '.'
      invariant start <= next <= |key|
      invariant After(part, PlainFront(key[next..])) == PlainFront(key[start..])
    {
      if key[next] == '"' {
        return NoPart(QuoteInside), next;
      }
      AfterOneMore(part, key[next], PlainFront(key[next + 1..]));
      assert key[next..][1..] == key[next + 1..];
      part := part + [key[next]];
      next := next + 1;
    }
    f := Front(part, key[next..]);
  }

  method ReadPart(key: string, start: nat) returns (f: Front, next: nat)
    requires start <= |key|
    ensures f == FirstPart(key[start..])
    ensures f.Front? ==> start <= next <= |key| && f.rest == key[next..]
  {
    if start < |key| && key[start] == '"' {
      assert key[start..][1..] == key[start + 1..];
      f, next := ReadQuoted(key, start);
      if f.Front? && next < |key| && key[next] != '.' {
        f := NoPart(AfterQuoted);
      }
    } else {
      f, next := ReadPlain(key, start);
    }
  }

  // The parts read so far, and the parse of the rest.
  function Followed(parts: Path, p: Parsed): Parsed {
    if p.Parts? then Parts(parts + p.parts) else p
  }

  /** Reads a key, part after part. */
  method TryFromKey(key: string) returns (p: Parsed)
    ensures p == Parse(key)
  {
    if key == "" {
      return Malformed(EmptyName);
    }
    var parts: Path := [];
    var pos := 0;
    assert key[0..] == key;
    assert Followed([], PartsOf(key)) == PartsOf(key);
    while true
      invariant pos <= |key| && PartsOf(key) == Followed(parts, PartsOf(key[pos..]))
      decreases |key| - pos
    {
      var f, next := ReadPart(key, pos);
      FrontShorter(key[pos..]);
      if f.NoPart? {
        return Malformed(f.error);
      }
      if f.part == "" {
        return Malformed(EmptyPart);
      }
      if next >= |key| {
        return Parts(parts + [f.part]);
      }
      if next + 1 >= |key| {
        return Malformed(EmptyPart);
      }
      assert key[next..][1..] == key[next + 1..];
      FollowedOneMore(parts, f.part, PartsOf(key[next + 1..]));
      parts := parts + [f.part];
      pos := next + 1;
    }
  }

  lemma FollowedOneMore(parts: Path, part: string, p: Parsed)
    ensures Followed(parts + [part], p) == Followed(parts, Followed([part], p))
  {
    if p.Parts? {
      assert parts + [part] + p.parts == parts + ([part] + p.parts);
    }
  }

  // ---------------------------------------------------------------------------------------------
  // A key reads back as its parts.

  // What may follow a part in a key.
  predicate Ends(rest: string) {
    rest == "" || rest[0] == '.'
  }

  lemma EscapedStep(part: string, rest: string)
    requires part != ""
    ensures Escaped(part) + "\"" + rest
         == (if part[0] == '"' then "\"\"" else [part[0]]) + (Escaped(part[1..]) + "\"" + rest)
  {
  }

  lemma QuotedFrontSteps(c: char, tail: string)
    ensures QuotedFront("\"\"" + tail) == Before('"', QuotedFront(tail))
    ensures c != '"' ==> QuotedFront([c] + tail) == Before(c, QuotedFront(tail))
  {
    assert ("\"\"" + tail)[2..] == tail;
    assert ([c] + tail)[1..] == tail;
  }

  lemma {:induction false} QuotedReadsBack(part: string, rest: string)
    requires Ends(rest)
    ensures QuotedFront(Escaped(part) + "\"" + rest) == Front(part, rest)
  {
    if part == "" {
      assert Escaped(part) + "\"" + rest == "\"" + rest;
      assert ("\"" + rest)[1..] == rest;
    } else {
      assert part == [part[0]] + part[1..];
      EscapedStep(part, rest);
      QuotedFrontSteps(part[0], Escaped(part[1..]) + "\"" + rest);
      QuotedReadsBack(part[1..], rest);
    }
  }

  lemma PlainFrontStep(c: char, tail: string)
    requires c != '.' && c != '"'
    ensures PlainFront([c] + tail) == Before(c, PlainFront(tail))
  {
    assert ([c] + tail)[1..] == tail;
  }

  lemma {:induction false} PlainReadsBack(part: string, rest: string)
    requires Ends(rest) && !NeedsQuotes(part)
    ensures PlainFront(part + rest) == Front(part, rest)
  {
    if part == "" {
      assert part + rest == rest;
    } else {
      assert part == [part[0]] + part[1..] && part + rest == [part[0]] + (part[1..] + rest);
      assert part[0] in part && !NeedsQuotes(part[1..]);
      PlainFrontStep(part[0], part[1..] + rest);
      PlainReadsBack(part[1..], rest);
    }
  }

  lemma FirstQuoted(inside: string)
    ensures QuotedFront(inside).Front? && Ends(QuotedFront(inside).rest) ==> FirstPart("\"" + inside) == QuotedFront(inside)
  {
    assert ("\"" + inside)[1..] == inside;
  }

  lemma QuotedPartReadsBack(part: string, rest: string)
    requires Ends(rest)
    ensures FirstPart("\"" + Escaped(part) + "\"" + rest) == Front(part, rest)
  {
    assert "\"" + Escaped(part) + "\"" + rest == "\"" + (Escaped(part) + "\"" + rest);
    QuotedReadsBack(part, rest);
    FirstQuoted(Escaped(part) + "\"" + rest);
  }

  lemma PlainPartReadsBack(part: string, rest: string)
    requires Ends(rest) && !NeedsQuotes(part)
    ensures FirstPart(part + rest) == Front(part, rest)
  {
    PlainReadsBack(part, rest);
    if part != "" {
      assert part[0] in part && (part + rest)[0] == part[0];
    } else {
      assert part + rest == rest;
    }
  }

  lemma PartReadsBack(part: string, rest: string)
    requires Ends(rest)
    ensures FirstPart(QuotePart(part) + rest) == Front(part, rest)
  {
    if NeedsQuotes(part) {
      QuotedPartReadsBack(part, rest);
    } else {
      PlainPartReadsBack(part, rest);
    }
  }

  /** A name: at least one part, none of them empty. */
  predicate IsName(parts: Path) {
    parts != [] && forall i :: 0 <= i < |parts| ==> parts[i] != ""
  }

  lemma PartThenMore(part: string, more: string)
    requires part != "" && more != ""
    ensures PartsOf(QuotePart(part) + ("." + more)) == Followed([part], PartsOf(more))
  {
    PartReadsBack(part, "." + more);
    assert ("." + more)[1..] == more;
  }

  lemma JoinedAlike(a: string, b: string, c: string)
    ensures (a + b) + c == a + (b + c)
  {
  }

  lemma KeyStep(parts: Path, more: string)
    requires |parts| > 1
    ensures ToKey(parts) + more == QuotePart(parts[0]) + ("." + (ToKey(parts[1..]) + more))
  {
    var first, rest := QuotePart(parts[0]), ToKey(parts[1..]);
    assert ToKey(parts) == (first + ".") + rest;
    JoinedAlike(first + ".", rest, more);
    JoinedAlike(first, ".", rest + more);
  }

  lemma KeyOfOne(part: string, more: string)
    ensures ToKey([part]) + "." + more == QuotePart(part) + ("." + more)
  {
    JoinedAlike(QuotePart(part), ".", more);
  }

  /** A name's key, a dot and more text read as the name's parts followed by what the text reads as. */
  lemma {:induction false} KeyThenMore(parts: Path, more: string)
    requires IsName(parts) && more != ""
    ensures PartsOf(ToKey(parts) + "." + more) == Followed(parts, PartsOf(more))
  {
    if |parts| == 1 {
      assert parts == [parts[0]];
      KeyOfOne(parts[0], more);
      PartThenMore(parts[0], more);
    } else {
      var tail := ToKey(parts[1..]) + "." + more;
      KeyStep(parts, "." + more);
      assert parts == [parts[0]] + parts[1..];
      JoinedAlike(ToKey(parts), ".", more);
      JoinedAlike(ToKey(parts[1..]), ".", more);
      PartThenMore(parts[0], tail);
      KeyThenMore(parts[1..], more);
      FollowedTwice([parts[0]], parts[1..], PartsOf(more));
    }
  }

  lemma FollowedTwice(a: Path, b: Path, p: Parsed)
    ensures Followed(a, Followed(b, p)) == Followed(a + b, p)
  {
    if p.Parts? {
      assert a + (b + p.parts) == a + b + p.parts;
    }
  }

  /** The key of a name reads back as exactly its parts, whatever characters they hold. */
  lemma {:induction false} KeyReadsBack(parts: Path)
    requires IsName(parts)
    ensures ToKey(parts) != "" && Parse(ToKey(parts)) == Parts(parts)
  {
    if |parts| == 1 {
      PartReadsBack(parts[0], "");
      assert QuotePart(parts[0]) + "" == QuotePart(parts[0]);
      assert parts == [parts[0]];
    } else {
      KeyReadsBack(parts[1..]);
      assert IsName([parts[0]]);
      KeyThenMore([parts[0]], ToKey(parts[1..]));
      assert ToKey([parts[0]]) == QuotePart(parts[0]);
      assert parts == [parts[0]] + parts[1..];
    }
  }

  /** Two names have one key only when they are one name. */
  lemma KeysTellNamesApart(a: Path, b: Path)
    requires IsName(a) && IsName(b)
    ensures ToKey(a) == ToKey(b) <==> a == b
  {
    KeyReadsBack(a);
    KeyReadsBack(b);
  }

  /** A key followed by a dot is malformed. */
  lemma {:induction false} DotAtEnd(parts: Path)
    requires IsName(parts)
    ensures PartsOf(ToKey(parts) + ".") == Malformed(EmptyPart)
  {
    if |parts| == 1 {
      PartReadsBack(parts[0], ".");
    } else {
      var tail := ToKey(parts[1..]) + ".";
      KeyStep(parts, ".");
      PartReadsBack(parts[0], "." + tail);
      assert ("." + tail)[1..] == tail;
      DotAtEnd(parts[1..]);
    }
  }

  /** A key that reads is of a name; written again it is canonical, and reads as the same name. */
  lemma {:induction false} ReadThenWritten(key: string)
    requires Parse(key).Parts?
    ensures IsName(Parse(key).parts)
    ensures Parse(ToKey(Parse(key).parts)) == Parse(key)
  {
    ReadsNames(key);
    KeyReadsBack(Parse(key).parts);
  }

  lemma {:induction false} ReadsNames(text: string)
    requires PartsOf(text).Parts?
    ensures IsName(PartsOf(text).parts)
    decreases |text|
  {
    FrontShorter(text);
    var f := FirstPart(text);
    if f.rest != "" {
      ReadsNames(f.rest[1..]);
    }
  }

  // ---------------------------------------------------------------------------------------------
  // Keys as text.

  /** `key` lies strictly under `path`, as text. */
  predicate KeyUnder(key: string, path: string) {
    |key| > |path| + 1 && key[|path|] == '.' && Fold(key[..|path|]) == Fold(path)
  }

  function FoldParts(parts: Path): Path {
    seq(|parts|, i requires 0 <= i < |parts| => Fold(parts[i]))
  }

  lemma FoldConcat(a: string, b: string)
    ensures Fold(a + b) == Fold(a) + Fold(b)
  {
  }

  lemma {:induction false} FoldEscaped(part: string)
    ensures Fold(Escaped(part)) == Escaped(Fold(part))
  {
    if part != "" {
      FoldEscaped(part[1..]);
      assert Fold(part)[1..] == Fold(part[1..]);
      FoldConcat(if part[0] == '"' then "\"\"" else [part[0]], Escaped(part[1..]));
      assert Fold("\"\"") == "\"\"" && Fold([part[0]]) == [FoldChar(part[0])];
    }
  }

  lemma FoldQuoted(part: string)
    ensures Fold(QuotePart(part)) == QuotePart(Fold(part))
  {
    FoldEscaped(part);
    forall c | c == '.' || c == '"' ensures c in Fold(part) <==> c in part {
      if c in part {
        var i :| 0 <= i < |part| && part[i] == c;
        assert Fold(part)[i] == c;
      }
      if c in Fold(part) {
        var i :| 0 <= i < |part| && Fold(part)[i] == c;
        assert part[i] == c;
      }
    }
    if NeedsQuotes(part) {
      FoldConcat("\"" + Escaped(part), "\"");
      FoldConcat("\"", Escaped(part));
      assert Fold("\"") == "\"";
    }
  }

  /** Folding a key folds its parts. */
  lemma {:induction false} FoldKey(parts: Path)
    ensures Fold(ToKey(parts)) == ToKey(FoldParts(parts))
  {
    if parts == [] {
    } else if |parts| == 1 {
      FoldQuoted(parts[0]);
    } else {
      FoldKey(parts[1..]);
      FoldQuoted(parts[0]);
      assert FoldParts(parts)[1..] == FoldParts(parts[1..]);
      FoldConcat(QuotePart(parts[0]) + ".", ToKey(parts[1..]));
      FoldConcat(QuotePart(parts[0]), ".");
      assert Fold(".") == ".";
    }
  }

  lemma {:induction false} KeyOfJoined(a: Path, b: Path)
    requires a != [] && b != []
    ensures ToKey(a + b) == ToKey(a) + "." + ToKey(b)
  {
    if |a| == 1 {
      assert (a + b)[0] == a[0] && (a + b)[1..] == b;
    } else {
      assert (a + b)[0] == a[0] && (a + b)[1..] == a[1..] + b;
      KeyOfJoined(a[1..], b);
      Regrouped(QuotePart(a[0]), ToKey(a[1..]), ToKey(b));
    }
  }

  lemma Regrouped(first: string, middle: string, last: string)
    ensures first + "." + (middle + "." + last) == first + "." + middle + "." + last
  {
  }

  // A key that goes on after another's and a dot is of a longer name.
  lemma TextPrefixFound(path: Path, name: Path, more: string)
    requires IsName(path) && IsName(name) && ToKey(name) == ToKey(path) + "." + more
    ensures |path| < |name| && name[..|path|] == path && more != ""
  {
    KeyReadsBack(name);
    if more == "" {
      assert ToKey(path) + "." + more == ToKey(path) + ".";
      DotAtEnd(path);
    } else {
      KeyThenMore(path, more);
      ReadsNames(more);
    }
  }

  lemma PartPrefixFound(path: Path, name: Path)
    requires IsName(path) && IsName(name) && |path| < |name| && name[..|path|] == path
    ensures ToKey(name) == ToKey(path) + "." + ToKey(name[|path|..]) && ToKey(name[|path|..]) != ""
  {
    var rest := name[|path|..];
    assert name == path + rest;
    KeyOfJoined(path, rest);
    assert IsName(rest);
    KeyReadsBack(rest);
  }

  // `a` and a dot begin `q`.
  predicate GoesOn(a: string, q: string) {
    |q| > |a| && q[..|a|] == a && q[|a|] == '.'
  }

  lemma GoesOnMeaning(a: string, q: string)
    ensures GoesOn(a, q) <==> |q| > |a| && q == a + "." + q[|a| + 1..]
    ensures IsAncestor(a, q) <==> GoesOn(a, q) && |q| > |a| + 1
  {
    if |q| > |a| {
      assert q[..|a| + 1] == q[..|a|] + [q[|a|]];
    }
  }

  lemma KeysGoOn(path: Path, name: Path)
    requires IsName(path) && IsName(name)
    ensures GoesOn(ToKey(path), ToKey(name)) <==> |path| < |name| && name[..|path|] == path
    ensures GoesOn(ToKey(path), ToKey(name)) ==> |ToKey(name)| > |ToKey(path)| + 1
  {
    var a, q := ToKey(path), ToKey(name);
    GoesOnMeaning(a, q);
    if GoesOn(a, q) {
      TextPrefixFound(path, name, q[|a| + 1..]);
    }
    if |path| < |name| && name[..|path|] == path {
      PartPrefixFound(path, name);
    }
  }

  /** Writes a key, part after part. */
  method WriteKey(parts: Path) returns (key: string)
    ensures key == ToKey(parts)
  {
    key := "";
    for i := 0 to |parts|
      invariant key == ToKey(parts[..i])
    {
      assert parts[..i + 1] == parts[..i] + [parts[i]];
      if i > 0 {
        KeyOfJoined(parts[..i], [parts[i]]);
        key := key + ".";
      }
      key := key + QuotePart(parts[i]);
    }
    assert parts[..|parts|] == parts;
  }

  /** One name's key and a dot begin another's exactly when its parts properly begin the other's. */
  lemma TextPrefixIsPartPrefix(path: Path, name: Path)
    requires IsName(path) && IsName(name)
    ensures IsAncestor(ToKey(path), ToKey(name)) <==> |path| < |name| && name[..|path|] == path
  {
    GoesOnMeaning(ToKey(path), ToKey(name));
    KeysGoOn(path, name);
  }

  lemma GoesOnInAnyCase(a: string, q: string)
    ensures GoesOn(Fold(a), Fold(q)) <==> |q| > |a| && Fold(q[..|a|]) == Fold(a) && q[|a|] == '.'
  {
    if |q| > |a| {
      assert Fold(q)[..|a|] == Fold(q[..|a|]);
    }
  }

  lemma KeysGoOnInAnyCase(path: Path, name: Path)
    requires IsName(path) && IsName(name)
    ensures GoesOn(Fold(ToKey(path)), Fold(ToKey(name))) <==> |path| < |name| && SamePrefix(path, name, |path|)
    ensures GoesOn(Fold(ToKey(path)), Fold(ToKey(name))) ==> |ToKey(name)| > |ToKey(path)| + 1
  {
    FoldKey(path);
    FoldKey(name);
    FoldedIsName(path);
    FoldedIsName(name);
    KeysGoOn(FoldParts(path), FoldParts(name));
    if |path| < |name| {
      PrefixFolded(path, name);
    }
    assert |ToKey(path)| == |ToKey(FoldParts(path))| && |ToKey(name)| == |ToKey(FoldParts(name))|;
  }

  /** Text below text, in any case, is a name below a name: what the writers and the resolver rely on. */
  lemma UnderIsProperPrefix(path: Path, name: Path)
    requires IsName(path) && IsName(name)
    ensures KeyUnder(ToKey(name), ToKey(path)) <==> |path| < |name| && SamePrefix(path, name, |path|)
  {
    GoesOnInAnyCase(ToKey(path), ToKey(name));
    KeysGoOnInAnyCase(path, name);
  }

  lemma PrefixFolded(path: Path, name: Path)
    requires |path| <= |name|
    ensures FoldParts(name)[..|path|] == FoldParts(path) <==> SamePrefix(path, name, |path|)
  {
    if FoldParts(name)[..|path|] == FoldParts(path) {
      forall j | 0 <= j < |path| ensures SameName(path[j], name[j]) {
        assert FoldParts(name)[..|path|][j] == FoldParts(path)[j];
      }
    }
  }

  lemma FoldedIsName(parts: Path)
    requires IsName(parts)
    ensures IsName(FoldParts(parts))
  {
    forall i | 0 <= i < |parts| ensures FoldParts(parts)[i] != "" {
      assert |FoldParts(parts)[i]| == |parts[i]|;
    }
  }

  lemma SameFolded(a: Path, b: Path)
    ensures FoldParts(a) == FoldParts(b) <==> |a| == |b| && SamePrefix(a, b, |a|)
  {
    if |a| == |b| {
      assert FoldParts(b)[..|a|] == FoldParts(b);
      PrefixFolded(a, b);
    } else {
      assert |FoldParts(a)| != |FoldParts(b)|;
    }
  }

  /** Two keys are equal in any case exactly when their names are, part by part. */
  lemma KeysEqualInAnyCase(a: Path, b: Path)
    requires IsName(a) && IsName(b)
    ensures Fold(ToKey(a)) == Fold(ToKey(b)) <==> |a| == |b| && SamePrefix(a, b, |a|)
  {
    FoldKey(a);
    FoldKey(b);
    FoldedIsName(a);
    FoldedIsName(b);
    KeysTellNamesApart(FoldParts(a), FoldParts(b));
    SameFolded(a, b);
  }

  lemma SubtreeGoesOn(a: string, q: string)
    requires a != ""
    ensures InSubtree(a, q) <==> q == a || GoesOn(Fold(a), Fold(q))
  {
    GoesOnInAnyCase(a, q);
    if |q| > |a| {
      assert q[..|a| + 1] == q[..|a|] + [q[|a|]];
      FoldConcat(q[..|a|], [q[|a|]]);
      FoldConcat(a, ".");
      FoldLast(Fold(q[..|a|]), q[|a|], Fold(a));
    }
  }

  lemma FoldLast(s: string, c: char, t: string)
    requires |s| == |t|
    ensures s + Fold([c]) == t + Fold(".") <==> s == t && c == '.'
  {
    assert Fold([c]) == [FoldChar(c)] && Fold(".") == ".";
    if s + [FoldChar(c)] == t + "." {
      assert (s + [FoldChar(c)])[..|s|] == (t + ".")[..|s|];
      assert (s + [FoldChar(c)])[|s|] == (t + ".")[|s|];
    }
  }

  /** The subtree a rebuild of schema capabilities covers is the schema and everything below it. */
  lemma SubtreeIsBelow(path: Path, name: Path)
    requires IsName(path) && IsName(name)
    ensures InSubtree(ToKey(path), ToKey(name)) <==> name == path || (|path| < |name| && SamePrefix(path, name, |path|))
  {
    KeyReadsBack(path);
    KeysTellNamesApart(path, name);
    SubtreeGoesOn(ToKey(path), ToKey(name));
    KeysGoOnInAnyCase(path, name);
  }

  // --- when a key is plain text --------------------------------------------------------------------

  function PlainJoined(parts: Path): string {
    if parts == [] then "" else if |parts| == 1 then parts[0] else parts[0] + "." + PlainJoined(parts[1..])
  }

  lemma NoQuoteInside(part: string)
    ensures '"' in QuotePart(part) <==> '.' in part || '"' in part
  {
    if NeedsQuotes(part) {
      assert QuotePart(part)[0] == '"';
    }
  }

  /** A key quotes only what must be: it is the parts joined by dots exactly when none of them holds a dot
      or a quote. */
  lemma {:induction false} PlainKeys(parts: Path)
    ensures (forall i :: 0 <= i < |parts| ==> '.' !in parts[i] && '"' !in parts[i]) ==> ToKey(parts) == PlainJoined(parts)
    ensures '"' in ToKey(parts) <==> exists i :: 0 <= i < |parts| && ('.' in parts[i] || '"' in parts[i])
  {
    if |parts| == 1 {
      NoQuoteInside(parts[0]);
    } else if |parts| > 1 {
      NoQuoteInside(parts[0]);
      PlainKeys(parts[1..]);
      assert forall i :: 0 <= i < |parts| - 1 ==> parts[1..][i] == parts[i + 1];
      assert forall i :: 0 < i < |parts| ==> parts[i] == parts[1..][i - 1];
    }
  }

  // --- the nearest ancestor ------------------------------------------------------------------------

  lemma ShorterPrefix(a: Path, b: Path, name: Path)
    requires |a| <= |b| <= |name| && name[..|a|] == a && name[..|b|] == b
    ensures b[..|a|] == a
  {
  }

  lemma LongerKey(a: Path, b: Path)
    requires IsName(a) && IsName(b) && |a| < |b| && b[..|a|] == a
    ensures |ToKey(a)| < |ToKey(b)|
  {
    TextPrefixIsPartPrefix(a, b);
  }

  /** Among the names above a name, the one with the longest key is the one with the most parts - so the
      nearest ancestor by its key's length is the nearest by name. */
  lemma LongerKeyIsNearer(a: Path, b: Path, name: Path)
    requires IsName(a) && IsName(b) && IsName(name)
    requires IsAncestor(ToKey(a), ToKey(name)) && IsAncestor(ToKey(b), ToKey(name))
    ensures |ToKey(a)| < |ToKey(b)| <==> |a| < |b|
  {
    TextPrefixIsPartPrefix(a, name);
    TextPrefixIsPartPrefix(b, name);
    if |a| < |b| {
      ShorterPrefix(a, b, name);
      LongerKey(a, b);
    } else if |b| < |a| {
      ShorterPrefix(b, a, name);
      LongerKey(b, a);
    } else {
      ShorterPrefix(a, b, name);
      assert a == b;
    }
  }
}
