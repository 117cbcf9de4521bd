/** What the function model holds, read as two relations - which keys are in which categories, what each
    role says of which categories and keys - and what every edit, run and call is in their terms. */
module FunctionGrants {
  import opened Names
  import opened PolicyRows
  import opened Sequences
  import opened FunctionCategories

  ghost predicate HasMember(cs: seq<Candidate>, id: FunctionKey, category: string) {
    exists c :: c in cs && IdOf(c) == id && InCategory(c, category)
  }

  /** The key is in the category. */
  ghost predicate Member(m: Model, key: FunctionKey, category: string) {
    HasMember(CandidatesOf(m.index, BucketOf(key)), Serialize(key), category)
  }

  /** The role's rule on the category is an allow - or a deny. */
  ghost predicate CategoryRuled(m: Model, role: string, category: string, allow: bool) {
    Fold(role) in m.rules && Fold(category) in (if allow then m.rules[Fold(role)].categoriesAllowed else m.rules[Fold(role)].categoriesDenied)
  }

  /** The role's rule on the key is an allow - or a deny. */
  ghost predicate NameRuled(m: Model, role: string, key: FunctionKey, allow: bool) {
    Fold(role) in m.rules && Serialize(key) in (if allow then m.rules[Fold(role)].keysAllowed else m.rules[Fold(role)].keysDenied)
  }

  predicate SameKey(a: FunctionKey, b: FunctionKey) {
    SameName(a.database, b.database) && SameName(a.schema, b.schema) && SameName(a.name, b.name) && a.kind == b.kind
  }

  // --- the members of a bucket ---------------------------------------------------------------------

  lemma MembersWithOneMore(cs: seq<Candidate>, c: Candidate, id: FunctionKey, x: string)
    ensures HasMember(cs + [c], id, x) <==> HasMember(cs, id, x) || (IdOf(c) == id && InCategory(c, x))
  {
    assert forall d :: d in cs + [c] <==> d in cs || d == c;
  }

  lemma MembersOfOne(cs: seq<Candidate>, i: nat, x: string)
    requires DistinctBy(cs, IdOf) && i < |cs|
    ensures HasMember(cs, IdOf(cs[i]), x) <==> InCategory(cs[i], x)
  {
    if c :| c in cs && IdOf(c) == IdOf(cs[i]) && InCategory(c, x) {
      TheOne(cs, IdOf, c, cs[i]);
    }
    assert cs[i] in cs;
  }

  lemma MembersReplaced(cs: seq<Candidate>, i: nat, c: Candidate, id: FunctionKey, x: string)
    requires DistinctBy(cs, IdOf) && i < |cs| && IdOf(c) == IdOf(cs[i])
    ensures HasMember(cs[i := c], id, x) <==> if id == IdOf(c) then InCategory(c, x) else HasMember(cs, id, x)
  {
    var done := cs[i := c];
    SameIds(cs, i, c);
    MembersOfOne(done, i, x);
    if id != IdOf(c) {
      forall d | IdOf(d) == id ensures d in done <==> d in cs {
        if j :| 0 <= j < |cs| && cs[j] == d {
          assert done[j] == d;
        }
      }
    }
  }

  lemma MembersKept(cs: seq<Candidate>, keep: Candidate -> bool, id: FunctionKey, x: string)
    requires forall c :: c in cs && c.categories != [] ==> keep(c)
    ensures HasMember(Filter(cs, keep), id, x) <==> HasMember(cs, id, x)
  {
  }

  lemma InCategoryOf(c: Candidate, x: string)
    ensures InCategory(c, x) <==> exists y :: y in c.categories && SameName(y, x)
  {
  }

  lemma WithoutOne(c: Candidate, name: string, x: string)
    ensures InCategory(c.(categories := WithoutCategory(c.categories, name)), x) <==> InCategory(c, x) && !SameName(x, name)
  {
    InCategoryOf(c, x);
    InCategoryOf(c.(categories := WithoutCategory(c.categories, name)), x);
  }

  lemma MembersStripped(cs: seq<Candidate>, name: string, id: FunctionKey, x: string)
    ensures HasMember(StripAll(cs, name), id, x) <==> HasMember(cs, id, x) && !SameName(x, name)
  {
    HasMemberAt(cs, id, x);
    HasMemberAt(StripAll(cs, name), id, x);
    forall i | 0 <= i < |cs| ensures MemberAt(StripAll(cs, name), i, id, x) <==> MemberAt(cs, i, id, x) && !SameName(x, name) {
      WithoutOne(cs[i], name, x);
    }
  }

  ghost predicate MemberAt(cs: seq<Candidate>, i: nat, id: FunctionKey, x: string) {
    i < |cs| && IdOf(cs[i]) == id && InCategory(cs[i], x)
  }

  lemma HasMemberAt(cs: seq<Candidate>, id: FunctionKey, x: string)
    ensures HasMember(cs, id, x) <==> exists i: nat :: MemberAt(cs, i, id, x)
  {
    if c :| c in cs && IdOf(c) == id && InCategory(c, x) {
      var i :| 0 <= i < |cs| && cs[i] == c;
      assert MemberAt(cs, i, id, x);
    }
  }

  // --- each edit, in those terms -------------------------------------------------------------------

  lemma KeysAlike(a: FunctionKey, b: FunctionKey)
    ensures SameKey(a, b) <==> Serialize(a) == Serialize(b)
    ensures SameKey(a, b) ==> BucketOf(a) == BucketOf(b)
  {
  }

  lemma SoundBucket(m: Model, key: FunctionKey)
    requires Sound(m)
    ensures DistinctBy(CandidatesOf(m.index, BucketOf(key)), IdOf)
  {
    assert BucketOf(key) in m.index ==> BucketSound(m.categories, BucketOf(key), m.index[BucketOf(key)]);
  }

  lemma NotAmong(cs: seq<Candidate>, key: FunctionKey, x: string)
    requires At(cs, key) == |cs|
    ensures !HasMember(cs, Serialize(key), x)
  {
    forall c | c in cs ensures IdOf(c) != Serialize(key) {
      var j :| 0 <= j < |cs| && cs[j] == c;
    }
  }

  lemma MemberAfterAdding(m: Model, category: string, added: FunctionKey, key: FunctionKey, x: string)
    requires Sound(m)
    ensures Member(MemberAdded(m, category, added), key, x) <==> Member(m, key, x) || (SameKey(key, added) && SameName(x, category))
  {
    KeysAlike(key, added);
    SoundBucket(m, added);
    var cs := CandidatesOf(m.index, BucketOf(added));
    var i := At(cs, added);
    if BucketOf(key) == BucketOf(added) {
      if i == |cs| {
        var c := Candidate(Lowered(added), [category]);
        FoldIdempotent(added.name);
        assert IdOf(c) == Serialize(added);
        assert InCategory(c, x) <==> SameName(c.categories[0], x);
        MembersWithOneMore(cs, c, Serialize(key), x);
      } else {
        MembersOfOne(cs, i, x);
        MembersOfOne(cs, i, category);
        var c := cs[i].(categories := cs[i].categories + [category]);
        InCategoryOf(cs[i], x);
        InCategoryOf(cs[i], category);
        InCategoryOf(c, x);
        assert forall y :: y in c.categories <==> y in cs[i].categories || y == category;
        assert SameName(category, x) <==> SameName(x, category);
        MembersReplaced(cs, i, c, Serialize(key), x);
      }
    }
  }

  lemma PruneKeepsMembers(rules: Rules, index: Index, pruned: FunctionKey, key: FunctionKey, x: string)
    ensures HasMember(CandidatesOf(PrunedIndex(rules, index, pruned), BucketOf(key)), Serialize(key), x)
            <==> HasMember(CandidatesOf(index, BucketOf(key)), Serialize(key), x)
  {
    if BucketOf(key) == BucketOf(pruned) && BucketOf(key) in index {
      var keep := (c: Candidate) => !(c.categories == [] && c.key == Lowered(pruned) && !NameGranted(rules, c.key));
      MembersKept(index[BucketOf(key)], keep, Serialize(key), x);
    }
  }

  lemma MemberAfterRemoving(m: Model, category: string, removed: FunctionKey, key: FunctionKey, x: string)
    requires Sound(m)
    ensures Member(MemberRemoved(m, category, removed), key, x) <==> Member(m, key, x) && !(SameKey(key, removed) && SameName(x, category))
  {
    KeysAlike(key, removed);
    SoundBucket(m, removed);
    var b := BucketOf(removed);
    var cs := CandidatesOf(m.index, b);
    var i := At(cs, removed);
    if i == |cs| {
      NotAmong(cs, removed, x);
    } else {
      MembersOfOne(cs, i, x);
      InCategoryOf(cs[i], x);
      InCategoryOf(cs[i], category);
      if InCategory(cs[i], category) {
        var c := cs[i].(categories := WithoutCategory(cs[i].categories, category));
        WithoutOne(cs[i], category, x);
        MembersReplaced(cs, i, c, Serialize(key), x);
        PruneKeepsMembers(m.rules, m.index[b := cs[i := c]], removed, key, x);
      }
    }
  }

  lemma MemberOfKnownCategory(m: Model, key: FunctionKey, x: string)
    requires Sound(m) && Member(m, key, x)
    ensures Fold(x) in m.categories
  {
    var b := BucketOf(key);
    var c :| c in CandidatesOf(m.index, b) && IdOf(c) == Serialize(key) && InCategory(c, x);
    assert BucketSound(m.categories, b, m.index[b]) && CandidateSound(m.categories, b, c);
  }

  lemma MemberAfterCategoryGone(m: Model, name: string, key: FunctionKey, x: string)
    requires Sound(m)
    ensures Member(CategoryRemoved(m, name), key, x) <==> Member(m, key, x) && !SameName(x, name)
  {
    var b := BucketOf(key);
    if Fold(name) !in m.categories {
      if Member(m, key, x) {
        MemberOfKnownCategory(m, key, x);
      }
    } else if b in m.index {
      MembersStripped(m.index[b], name, Serialize(key), x);
      MembersKept(StripAll(m.index[b], name), (c: Candidate) => Held(m.rules, c), Serialize(key), x);
    }
  }

  lemma MemberAfterNaming(m: Model, role: string, named: FunctionKey, allowed: bool, key: FunctionKey, x: string)
    ensures Member(NameGrantAdded(m, role, named, allowed), key, x) <==> Member(m, key, x)
  {
    MembersWithOneMore(CandidatesOf(m.index, BucketOf(named)), Candidate(Lowered(named), []), Serialize(key), x);
  }

  lemma MemberAfterUnnaming(m: Model, role: string, named: FunctionKey, key: FunctionKey, x: string)
    ensures Member(NameGrantRemoved(m, role, named), key, x) <==> Member(m, key, x)
  {
    if Fold(role) in m.rules {
      PruneKeepsMembers(m.rules[Fold(role) := UnnamedRules(m.rules[Fold(role)], named)], m.index, named, key, x);
    }
  }

  /** The edit puts the key into the category - or takes it out, with the category or alone. */
  predicate Joins(op: Op, key: FunctionKey, x: string) {
    op.AddMember? && SameKey(op.key, key) && SameName(op.category, x)
  }

  predicate Leaves(op: Op, key: FunctionKey, x: string) {
    || (op.RemoveMember? && SameKey(op.key, key) && SameName(op.category, x))
    || (op.RemoveCategory? && SameName(op.name, x))
  }

  lemma MemberEdited(m: Model, op: Op, key: FunctionKey, x: string)
    requires Sound(m) && (op.AddMember? || op.RemoveMember?)
    ensures Member(Apply(m, op), key, x) <==> Joins(op, key, x) || (Member(m, key, x) && !Leaves(op, key, x))
  {
    if op.AddMember? {
      MemberAfterAdding(m, op.category, op.key, key, x);
    } else {
      MemberAfterRemoving(m, op.category, op.key, key, x);
    }
  }

  lemma CategoryEdited(m: Model, op: Op, key: FunctionKey, x: string)
    requires Sound(m) && op.RemoveCategory?
    ensures Member(Apply(m, op), key, x) <==> Member(m, key, x) && !Leaves(op, key, x)
  {
    MemberAfterCategoryGone(m, op.name, key, x);
  }

  lemma OthersKeepMembers(m: Model, op: Op, key: FunctionKey, x: string)
    requires !op.AddMember? && !op.RemoveMember? && !op.RemoveCategory?
    ensures Member(Apply(m, op), key, x) <==> Member(m, key, x)
  {
    match op
    case AddNameGrant(role, named, allowed) => MemberAfterNaming(m, role, named, allowed, key, x);
    case RemoveNameGrant(role, named) => MemberAfterUnnaming(m, role, named, key, x);
    case _ =>
  }

  /** Which keys are in which categories after each edit: adding and removing a member change that one
      pair, removing a category all of its own, nothing else any. */
  lemma MembersAfter(m: Model, op: Op, key: FunctionKey, x: string)
    requires Sound(m)
    ensures Member(Apply(m, op), key, x) <==> Joins(op, key, x) || (Member(m, key, x) && !Leaves(op, key, x))
  {
    match op
    case AddMember(_, _) => MemberEdited(m, op, key, x);
    case RemoveMember(_, _) => MemberEdited(m, op, key, x);
    case RemoveCategory(_) => CategoryEdited(m, op, key, x);
    case _ => OthersKeepMembers(m, op, key, x);
  }

  /** The edit says something of the role and the key, or takes what was said away. */
  predicate AboutName(op: Op, role: string, key: FunctionKey) {
    (op.AddNameGrant? || op.RemoveNameGrant?) && SameName(op.role, role) && SameKey(op.key, key)
  }

  /** The edit says something of the role and the category, or takes what was said away: a removed
      category's rules go only if it was known. */
  predicate AboutCategory(op: Op, role: string, x: string, known: bool) {
    || ((op.AddCategoryGrant? || op.RemoveCategoryGrant?) && SameName(op.role, role) && SameName(op.category, x))
    || (op.RemoveCategory? && SameName(op.name, x) && known)
  }

  /** What the roles say of categories after each edit: a grant is the role's only word on its category,
      removing it or a known category leaves none, nothing else changes any. */
  lemma CategoryRulesAfter(m: Model, op: Op, role: string, x: string, allow: bool)
    ensures CategoryRuled(Apply(m, op), role, x, allow) <==>
            if AboutCategory(op, role, x, Fold(x) in m.categories) then op.AddCategoryGrant? && op.allowed == allow
            else CategoryRuled(m, role, x, allow)
  {
  }

  /** The same for keys. */
  lemma NameRulesAfter(m: Model, op: Op, role: string, key: FunctionKey, allow: bool)
    ensures NameRuled(Apply(m, op), role, key, allow) <==>
            if AboutName(op, role, key) then op.AddNameGrant? && op.allowed == allow else NameRuled(m, role, key, allow)
  {
    if op.AddNameGrant? || op.RemoveNameGrant? {
      KeysAlike(op.key, key);
    }
  }

  // --- the verdict ---------------------------------------------------------------------------------

  /** The role's rules allow - or deny - the key, by itself or by a category it is in. */
  ghost predicate SaysOf(m: Model, role: string, key: FunctionKey, allow: bool) {
    NameRuled(m, role, key, allow) || exists x :: Member(m, key, x) && CategoryRuled(m, role, x, allow)
  }

  /** Some role of the list - or what is said of every role - does. */
  ghost predicate AnySaysOf(m: Model, roles: seq<string>, key: FunctionKey, allow: bool) {
    exists role :: role in roles + [""] && SaysOf(m, role, key, allow)
  }

  lemma SaysMeaning(m: Model, role: string, c: Candidate, allow: bool)
    requires Sound(m) && c in CandidatesOf(m.index, BucketOf(c.key))
    ensures Says(m.rules, role, c, allow) <==> SaysOf(m, role, c.key, allow)
  {
    if y :| y in c.categories && Fold(y) in CategoriesOf(RulesOf(m.rules, role), allow) {
      MemberByCandidate(m, c, y);
      assert SameName(y, y);
    }
    if x :| Member(m, c.key, x) && CategoryRuled(m, role, x, allow) {
      MemberByCandidate(m, c, x);
    }
  }

  lemma MemberByCandidate(m: Model, c: Candidate, x: string)
    requires Sound(m) && c in CandidatesOf(m.index, BucketOf(c.key))
    ensures Member(m, c.key, x) <==> exists y :: y in c.categories && SameName(y, x)
  {
    var cs := CandidatesOf(m.index, BucketOf(c.key));
    SoundBucket(m, c.key);
    var i :| 0 <= i < |cs| && cs[i] == c;
    MembersOfOne(cs, i, x);
    InCategoryOf(c, x);
  }

  /** A deny of the key or of any category it is in wins, otherwise one allow admits. */
  lemma JudgedByRelations(m: Model, roles: seq<string>, c: Candidate)
    requires Sound(m) && c in CandidatesOf(m.index, BucketOf(c.key))
    ensures Judged(m.rules, roles, c).verdict
            == if AnySaysOf(m, roles, c.key, false) then Denied else if AnySaysOf(m, roles, c.key, true) then Admitted else NotGranted
  {
    VerdictMeaning(m.rules, roles, c);
    forall role, allow ensures Says(m.rules, role, c, allow) <==> SaysOf(m, role, c.key, allow) {
      SaysMeaning(m, role, c, allow);
    }
    assert "" in roles + [""];
    assert forall role :: role in roles + [""] <==> role in roles || role == "";
  }

  predicate WasJudged(d: Decision) {
    d.verdict == Admitted || d.verdict == Denied || d.verdict == NotGranted
  }

  lemma JudgedCandidate(m: Model, roles: seq<string>, written: Written, kind: FunctionKind) returns (c: Candidate)
    requires Sound(m) && WasJudged(Resolved(m, roles, written, kind))
    ensures c in CandidatesOf(m.index, BucketOf(c.key)) && BucketOf(c.key) == Bucket(kind, Fold(written.name))
    ensures Resolved(m, roles, written, kind) == Judged(m.rules, roles, c)
    ensures forall m': Model, roles': seq<string> :: m'.index == m.index ==> Resolved(m', roles', written, kind) == Judged(m'.rules, roles', c)
  {
    var b := Bucket(kind, Fold(written.name));
    var cs := CandidatesOf(m.index, b);
    c := if written.Qualified? then QualifiedReach(cs, written.catalog, written.schema).value else BestOf(cs);
    assert c in cs && BucketSound(m.categories, b, m.index[b]) && CandidateSound(m.categories, b, c);
    JudgedKey(m.rules, roles, c);
    forall m': Model, roles': seq<string> ensures Judged(m'.rules, roles', c).key == c.key {
      JudgedKey(m'.rules, roles', c);
    }
  }

  lemma JudgedKey(rules: Rules, roles: seq<string>, c: Candidate)
    ensures Judged(rules, roles, c).key == c.key
  {
  }

  /** A call that reaches a candidate is decided by what the roles say of its key and its categories. */
  lemma CallDecided(m: Model, roles: seq<string>, written: Written, kind: FunctionKind)
    requires Sound(m) && WasJudged(Resolved(m, roles, written, kind))
    ensures var d := Resolved(m, roles, written, kind);
            d.verdict == if AnySaysOf(m, roles, d.key, false) then Denied else if AnySaysOf(m, roles, d.key, true) then Admitted else NotGranted
  {
    var c := JudgedCandidate(m, roles, written, kind);
    JudgedKey(m.rules, roles, c);
    JudgedByRelations(m, roles, c);
  }

  /** After a grant on a category to one of the caller's roles, a call of a key in it is denied by a deny,
      and by an allow admitted unless some role still denies. */
  lemma CategoryGrantDecides(m: Model, roles: seq<string>, role: string, category: string, allowed: bool, written: Written, kind: FunctionKind)
    requires Sound(m) && WasJudged(Resolved(m, roles, written, kind)) && role in roles
    requires Member(m, Resolved(m, roles, written, kind).key, category)
    ensures var m' := Apply(m, AddCategoryGrant(role, category, allowed));
            var d, d' := Resolved(m, roles, written, kind), Resolved(m', roles, written, kind);
            && d'.key == d.key
            && d'.verdict == (if !allowed || AnySaysOf(m', roles, d.key, false) then Denied else Admitted)
  {
    var m' := Apply(m, AddCategoryGrant(role, category, allowed));
    var c := JudgedCandidate(m, roles, written, kind);
    JudgedKey(m.rules, roles, c);
    JudgedKey(m'.rules, roles, c);
    StepSound(m, AddCategoryGrant(role, category, allowed));
    MembersAfter(m, AddCategoryGrant(role, category, allowed), c.key, category);
    CategoryRulesAfter(m, AddCategoryGrant(role, category, allowed), role, category, allowed);
    JudgedByRelations(m', roles, c);
    assert role in roles + [""] && SaysOf(m', role, c.key, allowed);
  }

  /** The same for a grant on the key itself. */
  lemma NameGrantDecides(m: Model, roles: seq<string>, role: string, allowed: bool, written: Written, kind: FunctionKind)
    requires Sound(m) && WasJudged(Resolved(m, roles, written, kind)) && role in roles
    ensures var key := Resolved(m, roles, written, kind).key;
            var m' := Apply(m, AddNameGrant(role, key, allowed));
            var d' := Resolved(m', roles, written, kind);
            && d'.key == key
            && d'.verdict == (if !allowed || AnySaysOf(m', roles, key, false) then Denied else Admitted)
  {
    var c := JudgedCandidate(m, roles, written, kind);
    JudgedKey(m.rules, roles, c);
    var m' := Apply(m, AddNameGrant(role, c.key, allowed));
    NamingCandidate(m, role, c, allowed);
    JudgedKey(m'.rules, roles, c);
    NameGrantJudged(m, roles, role, allowed, c);
  }

  lemma NameGrantJudged(m: Model, roles: seq<string>, role: string, allowed: bool, c: Candidate)
    requires Sound(m) && role in roles && c in CandidatesOf(m.index, BucketOf(c.key))
    requires Apply(m, AddNameGrant(role, c.key, allowed)).index == m.index
    ensures var m' := Apply(m, AddNameGrant(role, c.key, allowed));
            Judged(m'.rules, roles, c).verdict == if !allowed || AnySaysOf(m', roles, c.key, false) then Denied else Admitted
  {
    var op := AddNameGrant(role, c.key, allowed);
    var m' := Apply(m, op);
    StepSound(m, op);
    NameRulesAfter(m, op, role, c.key, allowed);
    JudgedByRelations(m', roles, c);
    assert SameName(role, role) && SameKey(c.key, c.key);
    assert role in roles + [""] && SaysOf(m', role, c.key, allowed);
  }

  lemma NamingCandidate(m: Model, role: string, c: Candidate, allowed: bool)
    requires c in CandidatesOf(m.index, BucketOf(c.key))
    ensures Apply(m, AddNameGrant(role, c.key, allowed)).index == m.index
  {
    CandidateFound(CandidatesOf(m.index, BucketOf(c.key)), c);
  }

  lemma CandidateFound(cs: seq<Candidate>, c: Candidate)
    requires c in cs
    ensures At(cs, c.key) < |cs|
  {
    var i :| 0 <= i < |cs| && cs[i] == c;
  }

  // --- what decided, and what was not judged -------------------------------------------------------

  /** The role is the first of the list whose rules say so. */
  ghost predicate FirstToSay(rules: Rules, roles: seq<string>, c: Candidate, allow: bool, role: string) {
    exists i :: 0 <= i < |roles| && roles[i] == role && Says(rules, role, c, allow)
                && forall j :: 0 <= j < i ==> !Says(rules, roles[j], c, allow)
  }

  /** What decided for the role: its rule on the key if it has one, else on some category of the key's. */
  ghost predicate DecidesFor(rules: Rules, c: Candidate, allow: bool, d: Decider) {
    match d
    case ByName(role) => Fold(role) in rules && Serialize(c.key) in KeysOf(rules[Fold(role)], allow)
    case ByCategory(category, role) =>
      && Fold(role) in rules && Serialize(c.key) !in KeysOf(rules[Fold(role)], allow)
      && category in c.categories && Fold(category) in CategoriesOf(rules[Fold(role)], allow)
    case _ => false
  }

  function RoleOf(d: Decider): string
    requires d.ByName? || d.ByCategory?
  {
    d.role
  }

  lemma {:induction false} FirstRoleIsFirst(rules: Rules, roles: seq<string>, c: Candidate, allow: bool)
    ensures var d := FirstRole(rules, roles, c, allow);
            d.Some? ==> DecidesFor(rules, c, allow, d.value) && FirstToSay(rules, roles, c, allow, RoleOf(d.value))
  {
    if roles != [] {
      var n := |roles| - 1;
      var before := roles[..n];
      FirstRoleIsFirst(rules, before, c, allow);
      FirstRoleMeaning(rules, before, c, allow);
      assert roles == before + [roles[n]];
      if FirstRole(rules, before, c, allow).Some? {
        var role := RoleOf(FirstRole(rules, before, c, allow).value);
        var i :| 0 <= i < n && before[i] == role && Says(rules, role, c, allow) && forall j :: 0 <= j < i ==> !Says(rules, before[j], c, allow);
        assert roles[i] == role && forall j :: 0 <= j < i ==> roles[j] == before[j];
      } else {
        assert forall j :: 0 <= j < n ==> roles[j] == before[j] && before[j] in before;
      }
    }
  }

  /** What the answer says decided the call: the first role of the caller's - or what is said of every role,
      last - whose rules deny, or when none does, allow; and the category named is the one decided by. */
  lemma DeciderMeaning(rules: Rules, roles: seq<string>, c: Candidate)
    ensures var d := Judged(rules, roles, c);
            && (d.verdict == NotGranted ==> d.decidedBy == NoOne)
            && (d.verdict != NotGranted ==>
                  && DecidesFor(rules, c, d.verdict == Admitted, d.decidedBy)
                  && FirstToSay(rules, roles + [""], c, d.verdict == Admitted, RoleOf(d.decidedBy))
                  && d.category == (if d.decidedBy.ByCategory? then d.decidedBy.category else ""))
  {
    FirstRoleIsFirst(rules, roles + [""], c, false);
    FirstRoleIsFirst(rules, roles + [""], c, true);
  }

  /** The key is where a qualified name may mean. */
  predicate WrittenTo(key: FunctionKey, catalog: string, schema: string) {
    if catalog != "" then SameName(key.schema, schema) && SameName(key.database, catalog)
    else SameName(key.schema, schema) || (SameName(key.schema, "main") && SameName(key.database, schema))
  }

  /** The call reaches the candidate: its verdict is the candidate's, unless its key is never callable. */
  ghost predicate Reaches(m: Model, roles: seq<string>, d: Decision, c: Candidate) {
    && d.key == c.key
    && d.verdict == if NeverCallable(c.key.name, c.key.database) then NeverCalled else Judged(m.rules, roles, c).verdict
  }

  /** A bare name is ambiguous exactly when it has several candidates and none in the system catalog, is
      uncategorized only without any, and otherwise reaches one. */
  lemma BareCall(m: Model, roles: seq<string>, name: string, kind: FunctionKind)
    requires Sound(m) && !NeverInAnyCatalog(Fold(name))
    ensures var d := Resolved(m, roles, Bare(name), kind);
            var cs := CandidatesOf(m.index, Bucket(kind, Fold(name)));
            && (d.verdict == Ambiguous <==> |cs| > 1 && forall c :: c in cs ==> !SameName(c.key.database, "system"))
            && (d.verdict == Uncategorized ==> cs == [])
            && (cs == [] ==> d.verdict == if NeverCallable(Fold(name), "system") then NeverCalled else Uncategorized)
            && (cs != [] && d.verdict != Ambiguous ==> exists c :: c in cs && Reaches(m, roles, d, c))
  {
    var b := Bucket(kind, Fold(name));
    var cs := CandidatesOf(m.index, b);
    if cs != [] {
      BareOrder(m, b);
      JudgedKey(m.rules, roles, BestOf(cs));
      JudgedIsJudged(m.rules, roles, BestOf(cs));
      assert !Tied(cs) ==> Reaches(m, roles, Resolved(m, roles, Bare(name), kind), BestOf(cs));
    }
  }

  lemma JudgedIsJudged(rules: Rules, roles: seq<string>, c: Candidate)
    ensures WasJudged(Judged(rules, roles, c))
  {
  }

  /** A qualified name is unknown exactly when no candidate is where it may mean, and otherwise reaches
      one that is. */
  lemma QualifiedCall(m: Model, roles: seq<string>, catalog: string, schema: string, name: string, kind: FunctionKind)
    requires Sound(m) && !NeverInAnyCatalog(Fold(name))
    ensures var d := Resolved(m, roles, Qualified(catalog, schema, name), kind);
            var cs := CandidatesOf(m.index, Bucket(kind, Fold(name)));
            && (d.verdict == UnknownQualified <==> forall c :: c in cs ==> !WrittenTo(c.key, catalog, schema))
            && (d.verdict == UnknownQualified ==> d.key == FunctionKey(catalog, schema, Fold(name), kind))
            && (d.verdict != UnknownQualified ==> exists c :: c in cs && WrittenTo(c.key, catalog, schema) && Reaches(m, roles, d, c))
  {
    var cs := CandidatesOf(m.index, Bucket(kind, Fold(name)));
    ReachWritten(cs, catalog, schema);
    var reached := QualifiedReach(cs, catalog, schema);
    if reached.Some? {
      JudgedKey(m.rules, roles, reached.value);
      JudgedIsJudged(m.rules, roles, reached.value);
      assert Reaches(m, roles, Resolved(m, roles, Qualified(catalog, schema, name), kind), reached.value);
    }
  }

  lemma ReachWritten(cs: seq<Candidate>, catalog: string, schema: string)
    ensures var reached := QualifiedReach(cs, catalog, schema);
            && (reached.Some? ==> reached.value in cs && WrittenTo(reached.value.key, catalog, schema))
            && (reached.None? ==> forall c :: c in cs ==> !WrittenTo(c.key, catalog, schema))
  {
  }

  // --- over a whole run ----------------------------------------------------------------------------

  predicate LastNameWord(ops: seq<Op>, i: nat, role: string, key: FunctionKey, allow: bool) {
    && i < |ops| && AboutName(ops[i], role, key) && ops[i].AddNameGrant? && ops[i].allowed == allow
    && forall j :: i < j < |ops| ==> !AboutName(ops[j], role, key)
  }

  /** Over every run of edits: a role's word on a key is that of the last edit about the two. */
  lemma {:induction false} NameRuleIsTheLast(ops: seq<Op>, role: string, key: FunctionKey, allow: bool)
    ensures NameRuled(ApplyAll(EMPTY, ops), role, key, allow) <==> exists i: nat :: LastNameWord(ops, i, role, key, allow)
  {
    if ops != [] {
      var n := |ops| - 1;
      var before := ops[..n];
      NameRuleIsTheLast(before, role, key, allow);
      NameRulesAfter(ApplyAll(EMPTY, before), ops[n], role, key, allow);
      if AboutName(ops[n], role, key) {
        assert ops[n].AddNameGrant? && ops[n].allowed == allow ==> LastNameWord(ops, n, role, key, allow);
      } else {
        forall i: nat ensures LastNameWord(ops, i, role, key, allow) <==> LastNameWord(before, i, role, key, allow) {
          assert forall j :: 0 <= j < n ==> before[j] == ops[j];
        }
      }
    }
  }

  /** The edit makes the category known. */
  predicate MakesCategory(op: Op, x: string) {
    (op.AddCategory? && SameName(op.name, x)) || (op.AddMember? && SameName(op.category, x))
  }

  predicate EndsCategory(op: Op, x: string) {
    op.RemoveCategory? && SameName(op.name, x)
  }

  ghost predicate Known(ops: seq<Op>, n: nat, x: string)
    requires n <= |ops|
  {
    exists i :: 0 <= i < n && MakesCategory(ops[i], x) && forall j :: i < j < n ==> !EndsCategory(ops[j], x)
  }

  lemma {:induction false} KnownByRun(ops: seq<Op>, n: nat, x: string)
    requires n <= |ops|
    ensures Fold(x) in ApplyAll(EMPTY, ops[..n]).categories <==> Known(ops, n, x)
  {
    if n > 0 {
      KnownByRun(ops, n - 1, x);
      assert ops[..n][..n - 1] == ops[..n - 1];
      CategoriesAfter(ApplyAll(EMPTY, ops[..n - 1]), ops[n - 1], x);
      KnownOneMore(ops, n, x);
    }
  }

  lemma KnownOneMore(ops: seq<Op>, n: nat, x: string)
    requires 0 < n <= |ops|
    ensures Known(ops, n, x) <==> MakesCategory(ops[n - 1], x) || (Known(ops, n - 1, x) && !EndsCategory(ops[n - 1], x))
  {
    var before := n - 1;
    if Known(ops, before, x) && !EndsCategory(ops[before], x) {
      var i :| 0 <= i < before && MakesCategory(ops[i], x) && forall j :: i < j < before ==> !EndsCategory(ops[j], x);
      assert forall j :: i < j < n ==> !EndsCategory(ops[j], x);
    }
  }

  lemma CategoriesAfter(m: Model, op: Op, x: string)
    ensures Fold(x) in Apply(m, op).categories <==> MakesCategory(op, x) || (Fold(x) in m.categories && !EndsCategory(op, x))
  {
  }

  ghost predicate OfCategoryRule(ops: seq<Op>, j: nat, role: string, x: string)
    requires j < |ops|
  {
    AboutCategory(ops[j], role, x, Known(ops, j, x))
  }

  ghost predicate LastCategoryWord(ops: seq<Op>, n: nat, i: nat, role: string, x: string, allow: bool)
    requires n <= |ops|
  {
    && i < n && OfCategoryRule(ops, i, role, x) && ops[i].AddCategoryGrant? && ops[i].allowed == allow
    && forall j :: i < j < n ==> !OfCategoryRule(ops, j, role, x)
  }

  /** What is kept of a category: what it was added with last; joining a known one leaves that alone. */
  lemma CategoryRows(m: Model, op: Op, x: string)
    requires Fold(x) in Apply(m, op).categories
    ensures var row := Apply(m, op).categories[Fold(x)];
            row == if op.AddCategory? && SameName(op.name, x) then CategoryRow(op.name, op.comment, op.builtin)
                   else if Fold(x) in m.categories then m.categories[Fold(x)]
                   else if op.AddMember? then CategoryRow(op.category, "", false) else row
  {
  }

  /** Over every run of edits: a role's word on a category is that of the last edit about the two. */
  lemma {:induction false} CategoryRuleIsTheLast(ops: seq<Op>, n: nat, role: string, x: string, allow: bool)
    requires n <= |ops|
    ensures CategoryRuled(ApplyAll(EMPTY, ops[..n]), role, x, allow) <==> LastSaid(ops, n, role, x, allow)
  {
    if n > 0 {
      CategoryRuleIsTheLast(ops, n - 1, role, x, allow);
      KnownByRun(ops, n - 1, x);
      assert ops[..n][..n - 1] == ops[..n - 1];
      CategoryRulesAfter(ApplyAll(EMPTY, ops[..n - 1]), ops[n - 1], role, x, allow);
      CategoryWordOneMore(ops, n, role, x, allow);
    }
  }

  /** The last edit about the role and the category among the first `n` says so. */
  ghost predicate LastSaid(ops: seq<Op>, n: nat, role: string, x: string, allow: bool)
    requires n <= |ops|
  {
    exists i: nat :: LastCategoryWord(ops, n, i, role, x, allow)
  }

  lemma CategoryWordOneMore(ops: seq<Op>, n: nat, role: string, x: string, allow: bool)
    requires 0 < n <= |ops|
    ensures LastSaid(ops, n, role, x, allow)
            <==> if OfCategoryRule(ops, n - 1, role, x) then ops[n - 1].AddCategoryGrant? && ops[n - 1].allowed == allow
                 else LastSaid(ops, n - 1, role, x, allow)
  {
    if OfCategoryRule(ops, n - 1, role, x) && ops[n - 1].AddCategoryGrant? && ops[n - 1].allowed == allow {
      assert LastCategoryWord(ops, n, n - 1, role, x, allow);
    }
    var before := n - 1;
    if i: nat :| LastCategoryWord(ops, before, i, role, x, allow) && !OfCategoryRule(ops, before, role, x) {
      assert LastCategoryWord(ops, n, i, role, x, allow);
    }
    if i: nat :| i < n - 1 && LastCategoryWord(ops, n, i, role, x, allow) {
      assert LastCategoryWord(ops, n - 1, i, role, x, allow);
    }
  }

  predicate JoinedLast(ops: seq<Op>, i: nat, key: FunctionKey, x: string) {
    i < |ops| && Joins(ops[i], key, x) && forall j :: i < j < |ops| ==> !Leaves(ops[j], key, x)
  }

  lemma JoinedOneMore(ops: seq<Op>, key: FunctionKey, x: string)
    requires ops != []
    ensures var n := |ops| - 1;
            (exists i: nat :: JoinedLast(ops, i, key, x))
            <==> Joins(ops[n], key, x) || ((exists i: nat :: JoinedLast(ops[..n], i, key, x)) && !Leaves(ops[n], key, x))
  {
    var n := |ops| - 1;
    var before := ops[..n];
    if Joins(ops[n], key, x) {
      assert JoinedLast(ops, n, key, x);
    }
    if i: nat :| JoinedLast(before, i, key, x) && !Leaves(ops[n], key, x) {
      assert JoinedLast(ops, i, key, x);
    }
    if i: nat :| i < n && JoinedLast(ops, i, key, x) {
      assert forall j :: 0 <= j < n ==> before[j] == ops[j];
      assert JoinedLast(before, i, key, x);
    }
  }

  /** Over every run of edits: a key is in the categories it joined and has not left since. */
  lemma {:induction false} MembersAreTheJoined(ops: seq<Op>, key: FunctionKey, x: string)
    ensures Member(ApplyAll(EMPTY, ops), key, x) <==> exists i: nat :: JoinedLast(ops, i, key, x)
  {
    if ops != [] {
      var n := |ops| - 1;
      var before := ops[..n];
      MembersAreTheJoined(before, key, x);
      EveryRunIsSound(before);
      MembersAfter(ApplyAll(EMPTY, before), ops[n], key, x);
      JoinedOneMore(ops, key, x);
    }
  }
}
