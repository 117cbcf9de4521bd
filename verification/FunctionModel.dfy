/** The functions of a policy as an object: edited in place, and asked about every call. */
module FunctionModel {
  import opened Names
  import opened PolicyRows
  import opened Sequences
  import opened FunctionCategories

  /** Erases every spelling of a category's name from a list. */
  method EraseCategory(cats: seq<string>, name: string) returns (kept: seq<string>)
    ensures kept == WithoutCategory(cats, name)
  {
    kept := [];
    for i := 0 to |cats|
      invariant kept == WithoutCategory(cats[..i], name)
    {
      assert cats[..i + 1][..i] == cats[..i];
      if !SameName(cats[i], name) {
        kept := kept + [cats[i]];
      }
    }
    assert cats[..|cats|] == cats;
  }

  /** The decision of one role's rules over a candidate, by name before category. */
  method DecideFor(rules: Rules, role: string, c: Candidate, allow: bool) returns (d: Option<Decider>)
    ensures d == RoleDecides(rules, role, c, allow)
  {
    if Fold(role) !in rules {
      return None;
    }
    var r := rules[Fold(role)];
    if Serialize(c.key) in KeysOf(r, allow) {
      return Some(ByName(role));
    }
    var wanted := (x: string) => Fold(x) in CategoriesOf(rules[Fold(role)], allow);
    for i := 0 to |c.categories|
      invariant FirstWhere(c.categories[..i], wanted) == None
    {
      assert c.categories[..i + 1][..i] == c.categories[..i];
      if Fold(c.categories[i]) in CategoriesOf(r, allow) {
        FirstStays(c.categories, i + 1, wanted);
        return Some(ByCategory(c.categories[i], role));
      }
    }
    assert c.categories[..|c.categories|] == c.categories;
    d := None;
  }

  // What is found first in a prefix is found first in the whole.
  lemma {:induction false} FirstStays<T(!new)>(s: seq<T>, i: nat, wanted: T -> bool)
    requires i <= |s| && FirstWhere(s[..i], wanted).Some?
    ensures FirstWhere(s, wanted) == FirstWhere(s[..i], wanted)
    decreases |s|
  {
    if i == |s| {
      assert s[..i] == s;
    } else {
      var n := |s| - 1;
      assert s[..n][..i] == s[..i];
      FirstStays(s[..n], i, wanted);
    }
  }

  lemma {:induction false} FirstRoleStays(rules: Rules, roles: seq<string>, i: nat, c: Candidate, allow: bool)
    requires i <= |roles| && FirstRole(rules, roles[..i], c, allow).Some?
    ensures FirstRole(rules, roles, c, allow) == FirstRole(rules, roles[..i], c, allow)
    decreases |roles|
  {
    if i == |roles| {
      assert roles[..i] == roles;
    } else {
      var n := |roles| - 1;
      assert roles[..n][..i] == roles[..i];
      FirstRoleStays(rules, roles[..n], i, c, allow);
    }
  }

  method FirstToDecide(rules: Rules, everyone: seq<string>, c: Candidate, allow: bool) returns (d: Option<Decider>)
    ensures d == FirstRole(rules, everyone, c, allow)
  {
    for i := 0 to |everyone|
      invariant FirstRole(rules, everyone[..i], c, allow) == None
    {
      assert everyone[..i + 1][..i] == everyone[..i];
      d := DecideFor(rules, everyone[i], c, allow);
      if d.Some? {
        FirstRoleStays(rules, everyone, i + 1, c, allow);
        return;
      }
    }
    assert everyone[..|everyone|] == everyone;
    d := None;
  }

  /** The verdict for one candidate: every role's denies first, then the allows. */
  method Judge(rules: Rules, roles: seq<string>, c: Candidate) returns (out: Decision)
    ensures out == Judged(rules, roles, c)
  {
    var everyone := roles + [""];
    var denied := FirstToDecide(rules, everyone, c, false);
    if denied.Some? {
      return Decision(Denied, c.key, NamedCategory(denied.value), denied.value);
    }
    var allowed := FirstToDecide(rules, everyone, c, true);
    if allowed.Some? {
      return Decision(Admitted, c.key, NamedCategory(allowed.value), allowed.value);
    }
    out := Decision(NotGranted, c.key, "", NoOne);
  }

  // What the scan of a qualified name without a catalog has found so far.
  ghost function FoundSoFar(cs: seq<Candidate>, schema: string): Option<Candidate> {
    var inSystem := FirstWhere(cs, (c: Candidate) => SameName(c.key.schema, schema) && InSystem(c.key));
    if inSystem.Some? then inSystem else FirstWhere(cs, (c: Candidate) => SameName(c.key.schema, schema))
  }

  // The next candidate replaces what the scan has found when it is the system catalog's, which no
  // earlier one was.
  lemma FoundNext(cs: seq<Candidate>, i: nat, schema: string)
    requires i < |cs| && DistinctBy(cs, IdOf)
    requires forall c, d :: c in cs && d in cs ==> c.key.name == d.key.name && c.key.kind == d.key.kind
    ensures FoundSoFar(cs[..i + 1], schema) ==
            if SameName(cs[i].key.schema, schema) && (InSystem(cs[i].key) || FoundSoFar(cs[..i], schema).None?)
            then Some(cs[i]) else FoundSoFar(cs[..i], schema)
  {
    assert cs[..i + 1][..i] == cs[..i] && cs[..i + 1][i] == cs[i];
  }

  // The scan of a qualified name without a catalog, and of one with a catalog.
  method FirstInSchema(cs: seq<Candidate>, schema: string) returns (found: Option<Candidate>)
    requires DistinctBy(cs, IdOf)
    requires forall c, d :: c in cs && d in cs ==> c.key.name == d.key.name && c.key.kind == d.key.kind
    ensures found == FoundSoFar(cs, schema)
  {
    found := None;
    for i := 0 to |cs|
      invariant found == FoundSoFar(cs[..i], schema)
    {
      FoundNext(cs, i, schema);
      if SameName(cs[i].key.schema, schema) && (found.None? || InSystem(cs[i].key)) {
        found := Some(cs[i]);
      }
    }
    assert cs[..|cs|] == cs;
  }

  method FirstIn(cs: seq<Candidate>, database: string, schema: string) returns (found: Option<Candidate>)
    ensures found == FirstWhere(cs, (c: Candidate) => SameName(c.key.schema, schema) && SameName(c.key.database, database))
  {
    ghost var here := (c: Candidate) => SameName(c.key.schema, schema) && SameName(c.key.database, database);
    for i := 0 to |cs|
      invariant FirstWhere(cs[..i], here) == None
    {
      assert cs[..i + 1][..i] == cs[..i];
      if SameName(cs[i].key.schema, schema) && SameName(cs[i].key.database, database) {
        FirstStays(cs, i + 1, here);
        return Some(cs[i]);
      }
    }
    assert cs[..|cs|] == cs;
    found := None;
  }

  /** The scan for a qualified name. */
  method ReachQualified(cs: seq<Candidate>, catalog: string, schema: string) returns (found: Option<Candidate>)
    requires DistinctBy(cs, IdOf)
    requires forall c, d :: c in cs && d in cs ==> c.key.name == d.key.name && c.key.kind == d.key.kind
    ensures found == QualifiedReach(cs, catalog, schema)
  {
    if catalog != "" {
      found := FirstIn(cs, catalog, schema);
    } else {
      found := FirstInSchema(cs, schema);
      if found.None? {
        found := FirstIn(cs, schema, "main");
      }
    }
  }

  lemma BucketKeys(m: Model, b: Bucket)
    requires Sound(m)
    ensures var cs := CandidatesOf(m.index, b);
            DistinctBy(cs, IdOf) && forall c, d :: c in cs && d in cs ==> c.key.name == d.key.name && c.key.kind == d.key.kind
  {
    if b in m.index {
      assert forall c :: c in m.index[b] ==> CandidateSound(m.categories, b, c);
    }
  }

  lemma BestOneMore(cs: seq<Candidate>, i: nat)
    requires 0 < i < |cs|
    ensures var best := BestOf(cs[..i]);
            BestOf(cs[..i + 1]) == if SchemaRank(cs[i].key) < SchemaRank(best.key) then cs[i] else best
  {
    assert cs[..i + 1][..i] == cs[..i];
  }

  /** The scan for a bare name: the best-ranked candidate, and whether another ties with it. */
  method ReachBare(cs: seq<Candidate>) returns (best: Candidate, tie: bool)
    requires cs != []
    ensures best == BestOf(cs) && tie == Tied(cs)
  {
    best, tie := cs[0], false;
    assert cs[..|cs|] == cs;
    var bestRank := SchemaRank(cs[0].key);
    assert cs[..1] == [cs[0]];
    for i := 1 to |cs|
      invariant best == BestOf(cs[..i]) && bestRank == SchemaRank(best.key)
      invariant tie == (i > 1 && bestRank == 3)
    {
      BestOneMore(cs, i);
      var rank := SchemaRank(cs[i].key);
      if rank < bestRank {
        best, bestRank, tie := cs[i], rank, false;
      } else if rank == bestRank && rank == 3 {
        tie := true;
      }
    }
    TiedMeaning(cs);
  }

  // The index while the buckets `left` are still to be stripped.
  ghost function PartlyStripped(rules: Rules, index: Index, name: string, left: set<Bucket>): Index {
    map b | b in index && (b in left || Stripped(rules, index[b], name) != []) ::
      if b in left then index[b] else Stripped(rules, index[b], name)
  }

  lemma PartlyStrippedNext(rules: Rules, index: Index, name: string, left: set<Bucket>, b: Bucket)
    requires b in left && left <= index.Keys
    ensures b in PartlyStripped(rules, index, name, left) && PartlyStripped(rules, index, name, left)[b] == index[b]
    ensures WithBucket(PartlyStripped(rules, index, name, left), b, Stripped(rules, index[b], name))
         == PartlyStripped(rules, index, name, left - {b})
  {
  }

  class FunctionCategoryModel {
    var index: Index
    var categories: map<string, CategoryRow>
    var rules: Rules

    function View(): Model
      reads this
    {
      Model(index, categories, rules)
    }

    constructor ()
      ensures View() == EMPTY && Sound(View()) && NoOrphan(View())
    {
      index, categories, rules := map[], map[], map[];
    }

    method AddCategory(name: string, comment: string, builtin: bool)
      modifies this`categories
      ensures View() == CategoryAdded(old(View()), name, comment, builtin)
    {
      categories := categories[Fold(name) := CategoryRow(name, comment, builtin)];
    }

    method IsNameGranted(key: FunctionKey) returns (granted: bool)
      ensures granted <==> NameGranted(rules, key)
    {
      var left := rules.Keys;
      while left != {}
        invariant left <= rules.Keys
        invariant forall r :: r in rules.Keys - left ==> Serialize(key) !in rules[r].keysAllowed && Serialize(key) !in rules[r].keysDenied
      {
        var r :| r in left;
        if Serialize(key) in rules[r].keysAllowed || Serialize(key) in rules[r].keysDenied {
          return true;
        }
        left := left - {r};
      }
      granted := false;
    }

    method StripBucket(b: Bucket, name: string)
      requires b in index
      modifies this`index
      ensures index == WithBucket(old(index), b, Stripped(rules, old(index)[b], name))
    {
      var cs := index[b];
      ghost var bare := StripAll(cs, name);
      for i := 0 to |cs|
        invariant |cs| == |bare| && cs[..i] == bare[..i] && cs[i..] == old(index)[b][i..]
        invariant index == old(index)
      {
        var cats := EraseCategory(cs[i].categories, name);
        assert cs[i] == cs[i..][0] == old(index)[b][i];
        cs := cs[i := cs[i].(categories := cats)];
      }
      assert cs == bare;
      var kept := [];
      ghost var held := rules;
      for i := 0 to |cs|
        invariant kept == Filter(cs[..i], (c: Candidate) => Held(held, c))
        invariant index == old(index)
      {
        assert cs[..i + 1][..i] == cs[..i];
        var granted := IsNameGranted(cs[i].key);
        if cs[i].categories != [] || granted {
          kept := kept + [cs[i]];
        }
      }
      assert cs[..|cs|] == cs;
      index := if kept == [] then index - {b} else index[b := kept];
    }

    method StripBuckets(name: string)
      modifies this`index
      ensures index == StrippedIndex(rules, old(index), name)
    {
      var left := index.Keys;
      while left != {}
        invariant left <= old(index).Keys && index == PartlyStripped(rules, old(index), name, left)
      {
        var b :| b in left;
        PartlyStrippedNext(rules, old(index), name, left, b);
        StripBucket(b, name);
        left := left - {b};
      }
    }

    method StripRules(name: string)
      modifies this`rules
      ensures rules == map r | r in old(rules) :: StrippedRules(old(rules)[r], name)
    {
      var todo := rules.Keys;
      while todo != {}
        invariant todo <= old(rules).Keys == rules.Keys
        invariant forall r :: r in todo ==> rules[r] == old(rules)[r]
        invariant forall r :: r in rules.Keys - todo ==> rules[r] == StrippedRules(old(rules)[r], name)
      {
        var r :| r in todo;
        rules := rules[r := rules[r].(categoriesAllowed := rules[r].categoriesAllowed - {Fold(name)},
                                      categoriesDenied := rules[r].categoriesDenied - {Fold(name)})];
        todo := todo - {r};
      }
    }

    /** Removes a category, its members and its grants; then every candidate is held by something. */
    method RemoveCategory(name: string) returns (found: bool)
      modifies this
      ensures found <==> Fold(name) in old(categories)
      ensures View() == CategoryRemoved(old(View()), name)
    {
      if Fold(name) !in categories {
        return false;
      }
      categories := categories - {Fold(name)};
      StripBuckets(name);
      StripRules(name);
      found := true;
    }

    /** The place of the key's candidate in its bucket, found in any case. */
    method FindCandidate(key: FunctionKey) returns (at: Option<nat>)
      requires Sound(View())
      ensures at == var cs := CandidatesOf(index, BucketOf(key));
                    if At(cs, key) < |cs| then Some(At(cs, key)) else None
    {
      var b := BucketOf(key);
      if b !in index {
        return None;
      }
      var cs := index[b];
      for i := 0 to |cs|
        invariant forall j :: 0 <= j < i ==> IdOf(cs[j]) != Serialize(key)
      {
        assert CandidateSound(categories, b, cs[i]);
        FoldIdempotent(key.name);
        if SameName(cs[i].key.database, key.database) && SameName(cs[i].key.schema, key.schema) {
          AtIs(cs, key, i);
          return Some(i);
        }
      }
      at := None;
    }

    method AddMember(category: string, key: FunctionKey) returns (added: bool)
      requires Sound(View())
      modifies this
      ensures View() == MemberAdded(old(View()), category, key)
      ensures Sound(View())
      ensures added <==> (var cs := CandidatesOf(old(index), BucketOf(key));
                          At(cs, key) < |cs| ==> !InCategory(cs[At(cs, key)], category))
    {
      MemberAddedSound(View(), category, key);
      CategoryAddedSound(View(), category, "", false);
      if Fold(category) !in categories {
        AddCategory(category, "", false);
      }
      var b := BucketOf(key);
      var at := FindCandidate(key);
      if at.Some? {
        var c := index[b][at.value];
        for i := 0 to |c.categories|
          invariant forall j :: 0 <= j < i ==> !SameName(c.categories[j], category)
          invariant index == old(index) && rules == old(rules)
          invariant categories == if Fold(category) in old(categories) then old(categories)
                                  else old(categories)[Fold(category) := CategoryRow(category, "", false)]
        {
          if SameName(c.categories[i], category) {
            return false;
          }
        }
        index := index[b := index[b][at.value := c.(categories := c.categories + [category])]];
        return true;
      }
      var cs := if b in index then index[b] else [];
      index := index[b := cs + [Candidate(Lowered(key), [category])]];
      added := true;
    }

    method PruneCandidate(key: FunctionKey)
      modifies this`index
      ensures index == PrunedIndex(rules, old(index), key)
    {
      var b := BucketOf(key);
      if b !in index {
        return;
      }
      var cs, lowered := index[b], Lowered(key);
      var kept := [];
      for i := 0 to |cs|
        invariant kept == Pruned(rules, cs[..i], lowered)
        invariant index == old(index)
      {
        assert cs[..i + 1][..i] == cs[..i];
        var granted := IsNameGranted(cs[i].key);
        if !(cs[i].categories == [] && cs[i].key == lowered && !granted) {
          kept := kept + [cs[i]];
        }
      }
      assert cs[..|cs|] == cs;
      index := if kept == [] then index - {b} else index[b := kept];
    }

    /** Removes a member; when that was the last thing holding its candidate, the candidate goes too -
        unless the key is given in another case than it was stored in. */
    method RemoveMember(category: string, key: FunctionKey) returns (removed: bool)
      requires Sound(View())
      modifies this`index
      ensures View() == MemberRemoved(old(View()), category, key)
      ensures Sound(View())
    {
      MemberRemovedSound(View(), category, key);
      var b := BucketOf(key);
      var at := FindCandidate(key);
      if at.None? {
        return false;
      }
      var c := index[b][at.value];
      var cats := EraseCategory(c.categories, category);
      if |cats| == |c.categories| {
        ErasedNothing(c.categories, category);
        return false;
      }
      ErasedSomething(c, category);
      RemovedAt(View(), category, key, index[b], at.value, cats);
      OnlyIndexChanges(View(), category, key);
      index := index[b := index[b][at.value := c.(categories := cats)]];
      if cats == [] {
        PruneCandidate(key);
      }
      removed := true;
    }

    method AddCategoryGrant(role: string, category: string, allowed: bool)
      modifies this`rules
      ensures View() == CategoryGranted(old(View()), role, category, allowed)
    {
      var r := RulesOf(rules, role);
      r := r.(categoriesAllowed := r.categoriesAllowed - {Fold(category)}, categoriesDenied := r.categoriesDenied - {Fold(category)});
      if allowed {
        r := r.(categoriesAllowed := r.categoriesAllowed + {Fold(category)});
      } else {
        r := r.(categoriesDenied := r.categoriesDenied + {Fold(category)});
      }
      rules := rules[Fold(role) := r];
    }

    method AddNameGrant(role: string, key: FunctionKey, allowed: bool)
      requires Sound(View())
      modifies this
      ensures View() == NameGrantAdded(old(View()), role, key, allowed)
      ensures Sound(View())
    {
      NameGrantAddedSound(View(), role, key, allowed);
      var at := FindCandidate(key);
      if at.None? {
        var b := BucketOf(key);
        var cs := if b in index then index[b] else [];
        index := index[b := cs + [Candidate(Lowered(key), [])]];
      }
      var r := RulesOf(rules, role);
      r := r.(keysAllowed := r.keysAllowed - {Serialize(key)}, keysDenied := r.keysDenied - {Serialize(key)});
      if allowed {
        r := r.(keysAllowed := r.keysAllowed + {Serialize(key)});
      } else {
        r := r.(keysDenied := r.keysDenied + {Serialize(key)});
      }
      rules := rules[Fold(role) := r];
    }

    method RemoveCategoryGrant(role: string, category: string) returns (removed: bool)
      modifies this`rules
      ensures View() == CategoryGrantRemoved(old(View()), role, category)
      ensures removed <==> Fold(category) in RulesOf(old(rules), role).categoriesAllowed + RulesOf(old(rules), role).categoriesDenied
    {
      if Fold(role) !in rules {
        return false;
      }
      var r := rules[Fold(role)];
      removed := Fold(category) in r.categoriesAllowed || Fold(category) in r.categoriesDenied;
      rules := rules[Fold(role) := StrippedRules(r, category)];
    }

    method RemoveNameGrant(role: string, key: FunctionKey) returns (removed: bool)
      requires Sound(View())
      modifies this
      ensures View() == NameGrantRemoved(old(View()), role, key)
      ensures Sound(View())
      ensures removed <==> Serialize(key) in RulesOf(old(rules), role).keysAllowed + RulesOf(old(rules), role).keysDenied
    {
      NameGrantRemovedSound(View(), role, key);
      if Fold(role) !in rules {
        return false;
      }
      var r := rules[Fold(role)];
      removed := Serialize(key) in r.keysAllowed || Serialize(key) in r.keysDenied;
      rules := rules[Fold(role) := UnnamedRules(r, key)];
      PruneCandidate(key);
    }

    /** Resolves one call for a principal. */
    method Resolve(roles: seq<string>, written: Written, kind: FunctionKind) returns (out: Decision)
      requires Sound(View())
      ensures out == Resolved(View(), roles, written, kind)
      ensures out.verdict == Admitted ==> !NeverCallable(out.key.name, out.key.database)
    {
      NeverStaysClosed(View(), roles, written, kind);
      var name := Fold(written.name);
      var key := FunctionKey("system", "main", name, kind);
      if NeverInAnyCatalog(name) {
        return Decision(NeverCalled, key, "", TheNeverSet);
      }
      var b := Bucket(kind, name);
      var cs := if b in index then index[b] else [];
      BucketKeys(View(), b);
      if written.Qualified? {
        var found := ReachQualified(cs, written.catalog, written.schema);
        if found.None? {
          return Decision(UnknownQualified, FunctionKey(written.catalog, written.schema, name, kind), "", NoOne);
        }
        out := Judge(rules, roles, found.value);
      } else if cs == [] {
        out := Decision(Uncategorized, key, "", NoOne);
      } else {
        var best, tie := ReachBare(cs);
        if tie {
          return Decision(Ambiguous, key, "", NoOne);
        }
        out := Judge(rules, roles, best);
      }
      if NeverCallable(out.key.name, out.key.database) {
        out := out.(verdict := NeverCalled, decidedBy := TheNeverSet);
      }
    }

    method IsShown(roles: seq<string>, c: Candidate) returns (shown: bool)
      requires Sound(View())
      ensures shown <==> Shown(View(), roles, c)
    {
      if NeverInAnyCatalog(c.key.name) || NeverCallable(c.key.name, c.key.database) {
        return false;
      }
      var decision := Judge(rules, roles, c);
      if decision.verdict != Admitted {
        return false;
      }
      if !InSystem(c.key) {
        var bare := Resolve(roles, Bare(c.key.name), c.key.kind);
        return bare.verdict == Admitted && bare.key == c.key;
      }
      shown := true;
    }

    // The keys of one bucket that a listing shows.
    method ShownIn(roles: seq<string>, b: Bucket) returns (keys: seq<FunctionKey>)
      requires Sound(View()) && b in index
      ensures forall key :: key in keys <==> exists c :: c in index[b] && c.key == key && Shown(View(), roles, c)
      ensures forall i, j :: 0 <= i < j < |keys| ==> keys[i] != keys[j]
    {
      keys := [];
      var cs := index[b];
      for i := 0 to |cs|
        invariant forall key :: key in keys ==> exists j :: 0 <= j < i && cs[j].key == key && Shown(View(), roles, cs[j])
        invariant forall j :: 0 <= j < i && Shown(View(), roles, cs[j]) ==> cs[j].key in keys
        invariant forall k, j :: 0 <= k < j < |keys| ==> keys[k] != keys[j]
      {
        var shown := IsShown(roles, cs[i]);
        if shown {
          assert forall j :: 0 <= j < i ==> IdOf(cs[j]) != IdOf(cs[i]) && cs[j].key != cs[i].key;
          assert cs[i].key !in keys;
          keys := keys + [cs[i].key];
        }
      }
    }

    /** Every key the principal may call by the name a listing shows, each once. */
    method AdmittedKeys(roles: seq<string>) returns (out: seq<FunctionKey>)
      requires Sound(View())
      ensures forall key :: key in out <==> Listed(View(), roles, key)
      ensures forall i, j :: 0 <= i < j < |out| ==> out[i] != out[j]
    {
      out := [];
      var left := index.Keys;
      while left != {}
        invariant left <= index.Keys
        invariant forall key :: key in out ==> Listed(View(), roles, key) && Bucket(key.kind, key.name) !in left
        invariant forall b, c :: b in index.Keys - left && c in index[b] && Shown(View(), roles, c) ==> c.key in out
        invariant forall i, j :: 0 <= i < j < |out| ==> out[i] != out[j]
      {
        var b :| b in left;
        var keys := ShownIn(roles, b);
        forall key | key in keys ensures Bucket(key.kind, key.name) == b {
          var c :| c in index[b] && c.key == key;
          assert CandidateSound(categories, b, c);
        }
        left := left - {b};
        out := out + keys;
      }
    }
  }

  lemma ErasedNothing(cats: seq<string>, name: string)
    requires |WithoutCategory(cats, name)| == |cats|
    ensures forall i :: 0 <= i < |cats| ==> !SameName(cats[i], name)
  {
    FilterShorter(cats, (x: string) => !SameName(x, name));
  }

  lemma ErasedSomething(c: Candidate, name: string)
    requires |WithoutCategory(c.categories, name)| != |c.categories|
    ensures InCategory(c, name)
  {
    if !InCategory(c, name) {
      FilterAll(c.categories, (x: string) => !SameName(x, name));
    }
  }

  lemma {:induction false} FilterShorter<T(!new)>(s: seq<T>, keep: T -> bool)
    ensures |Filter(s, keep)| <= |s|
    ensures |Filter(s, keep)| == |s| ==> forall i :: 0 <= i < |s| ==> keep(s[i])
  {
    if s != [] {
      var n := |s| - 1;
      var before := s[..n];
      FilterShorter(before, keep);
      assert forall i :: 0 <= i < n ==> before[i] == s[i];
    }
  }
}
