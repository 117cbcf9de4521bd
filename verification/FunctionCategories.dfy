/** What a principal may call: the candidates of every function name with the categories they sit in,
    and each role's rules over categories and keys. */
module FunctionCategories {
  import opened Names
  import opened PolicyRows
  import opened Sequences

  datatype FunctionKind = ScalarKind | TableKind

  /** A function's key; its name is stored in lower case. */
  datatype FunctionKey = FunctionKey(database: string, schema: string, name: string, kind: FunctionKind)

  /** What tells keys apart: the parts in lower case. */
  function Serialize(key: FunctionKey): FunctionKey {
    FunctionKey(Fold(key.database), Fold(key.schema), Fold(key.name), key.kind)
  }

  function Lowered(key: FunctionKey): FunctionKey {
    key.(name := Fold(key.name))
  }

  datatype Candidate = Candidate(key: FunctionKey, categories: seq<string>)

  function IdOf(c: Candidate): FunctionKey {
    Serialize(c.key)
  }

  /** Where the candidates of a bare name are kept. */
  datatype Bucket = Bucket(kind: FunctionKind, name: string)

  function BucketOf(key: FunctionKey): Bucket {
    Bucket(key.kind, Fold(key.name))
  }

  datatype CategoryRow = CategoryRow(name: string, comment: string, builtin: bool)

  /** A role's rules; categories by their name in lower case, keys serialized. */
  datatype RoleRules = RoleRules(
    categoriesAllowed: set<string>, categoriesDenied: set<string>,
    keysAllowed: set<FunctionKey>, keysDenied: set<FunctionKey>)

  const NO_RULES := RoleRules({}, {}, {}, {})

  type Index = map<Bucket, seq<Candidate>>
  type Rules = map<string, RoleRules>

  /** The policy's functions; categories and roles are found by their name in lower case. */
  datatype Model = Model(index: Index, categories: map<string, CategoryRow>, rules: Rules)

  const EMPTY := Model(map[], map[], map[])

  function CandidatesOf(index: Index, b: Bucket): seq<Candidate> {
    if b in index then index[b] else []
  }

  // An emptied bucket goes.
  function WithBucket(index: Index, b: Bucket, cs: seq<Candidate>): Index {
    if cs == [] then index - {b} else index[b := cs]
  }

  /** The place of a key among its name's candidates, or their number. */
  function At(cs: seq<Candidate>, key: FunctionKey): (i: nat)
    ensures i <= |cs|
    ensures i < |cs| ==> IdOf(cs[i]) == Serialize(key)
    ensures forall j :: 0 <= j < i ==> IdOf(cs[j]) != Serialize(key)
  {
    if cs == [] then 0
    else
      var n := |cs| - 1;
      var before := At(cs[..n], key);
      if before < n then before else if IdOf(cs[n]) == Serialize(key) then n else n + 1
  }

  ghost predicate NameGranted(rules: Rules, key: FunctionKey) {
    exists r :: r in rules && (Serialize(key) in rules[r].keysAllowed || Serialize(key) in rules[r].keysDenied)
  }

  /** A candidate is there for a reason: a category or a grant by name. */
  ghost predicate Held(rules: Rules, c: Candidate) {
    c.categories != [] || NameGranted(rules, c.key)
  }

  function RulesOf(rules: Rules, role: string): RoleRules {
    if Fold(role) in rules then rules[Fold(role)] else NO_RULES
  }

  function WithoutCategory(cats: seq<string>, name: string): seq<string> {
    Filter(cats, (c: string) => !SameName(c, name))
  }

  function CategoryAdded(m: Model, name: string, comment: string, builtin: bool): Model {
    m.(categories := m.categories[Fold(name) := CategoryRow(name, comment, builtin)])
  }

  function StripAll(cs: seq<Candidate>, name: string): seq<Candidate> {
    seq(|cs|, i requires 0 <= i < |cs| => cs[i].(categories := WithoutCategory(cs[i].categories, name)))
  }

  ghost function Stripped(rules: Rules, cs: seq<Candidate>, name: string): seq<Candidate> {
    Filter(StripAll(cs, name), (c: Candidate) => Held(rules, c))
  }

  function StrippedRules(r: RoleRules, name: string): RoleRules {
    r.(categoriesAllowed := r.categoriesAllowed - {Fold(name)}, categoriesDenied := r.categoriesDenied - {Fold(name)})
  }

  ghost function StrippedIndex(rules: Rules, index: Index, name: string): Index {
    map b | b in index && Stripped(rules, index[b], name) != [] :: Stripped(rules, index[b], name)
  }

  ghost function CategoryRemoved(m: Model, name: string): Model {
    if Fold(name) !in m.categories then m else
    Model(
      StrippedIndex(m.rules, m.index, name),
      m.categories - {Fold(name)},
      map r | r in m.rules :: StrippedRules(m.rules[r], name))
  }

  predicate InCategory(c: Candidate, category: string) {
    exists i :: 0 <= i < |c.categories| && SameName(c.categories[i], category)
  }

  function MemberAdded(m: Model, category: string, key: FunctionKey): Model {
    var known := if Fold(category) in m.categories then m else CategoryAdded(m, category, "", false);
    var b := BucketOf(key);
    var cs := CandidatesOf(m.index, b);
    var i := At(cs, key);
    if i == |cs| then known.(index := m.index[b := cs + [Candidate(Lowered(key), [category])]])
    else if InCategory(cs[i], category) then known
    else known.(index := m.index[b := cs[i := cs[i].(categories := cs[i].categories + [category])]])
  }

  // Pruning compares the stored key and the given one letter for letter.
  ghost function Pruned(rules: Rules, cs: seq<Candidate>, key: FunctionKey): seq<Candidate> {
    Filter(cs, (c: Candidate) => !(c.categories == [] && c.key == key && !NameGranted(rules, c.key)))
  }

  ghost function PrunedIndex(rules: Rules, index: Index, key: FunctionKey): Index {
    var b := BucketOf(key);
    if b !in index then index else WithBucket(index, b, Pruned(rules, index[b], Lowered(key)))
  }

  ghost function MemberRemoved(m: Model, category: string, key: FunctionKey): Model {
    var b := BucketOf(key);
    var cs := CandidatesOf(m.index, b);
    var i := At(cs, key);
    if i == |cs| || !InCategory(cs[i], category) then m else
    var left := WithoutCategory(cs[i].categories, category);
    var index := m.index[b := cs[i := cs[i].(categories := left)]];
    m.(index := if left == [] then PrunedIndex(m.rules, index, key) else index)
  }

  function CategoryRule(r: RoleRules, category: string, allowed: bool): RoleRules {
    var bare := StrippedRules(r, category);
    if allowed then bare.(categoriesAllowed := bare.categoriesAllowed + {Fold(category)})
    else bare.(categoriesDenied := bare.categoriesDenied + {Fold(category)})
  }

  function UnnamedRules(r: RoleRules, key: FunctionKey): RoleRules {
    r.(keysAllowed := r.keysAllowed - {Serialize(key)}, keysDenied := r.keysDenied - {Serialize(key)})
  }

  function NameRule(r: RoleRules, key: FunctionKey, allowed: bool): RoleRules {
    var bare := UnnamedRules(r, key);
    if allowed then bare.(keysAllowed := bare.keysAllowed + {Serialize(key)})
    else bare.(keysDenied := bare.keysDenied + {Serialize(key)})
  }

  function CategoryGranted(m: Model, role: string, category: string, allowed: bool): Model {
    m.(rules := m.rules[Fold(role) := CategoryRule(RulesOf(m.rules, role), category, allowed)])
  }

  function NameGrantAdded(m: Model, role: string, key: FunctionKey, allowed: bool): Model {
    var b := BucketOf(key);
    var cs := CandidatesOf(m.index, b);
    var index := if At(cs, key) < |cs| then m.index else m.index[b := cs + [Candidate(Lowered(key), [])]];
    Model(index, m.categories, m.rules[Fold(role) := NameRule(RulesOf(m.rules, role), key, allowed)])
  }

  function CategoryGrantRemoved(m: Model, role: string, category: string): Model {
    if Fold(role) !in m.rules then m
    else m.(rules := m.rules[Fold(role) := StrippedRules(m.rules[Fold(role)], category)])
  }

  ghost function NameGrantRemoved(m: Model, role: string, key: FunctionKey): Model {
    if Fold(role) !in m.rules then m else
    var rules := m.rules[Fold(role) := UnnamedRules(m.rules[Fold(role)], key)];
    Model(PrunedIndex(rules, m.index, key), m.categories, rules)
  }

  datatype Op =
    | AddCategory(name: string, comment: string, builtin: bool)
    | RemoveCategory(name: string)
    | AddMember(category: string, key: FunctionKey)
    | RemoveMember(category: string, key: FunctionKey)
    | AddCategoryGrant(role: string, category: string, allowed: bool)
    | AddNameGrant(role: string, key: FunctionKey, allowed: bool)
    | RemoveCategoryGrant(role: string, category: string)
    | RemoveNameGrant(role: string, key: FunctionKey)

  ghost function Apply(m: Model, op: Op): Model {
    match op
    case AddCategory(name, comment, builtin) => CategoryAdded(m, name, comment, builtin)
    case RemoveCategory(name) => CategoryRemoved(m, name)
    case AddMember(category, key) => MemberAdded(m, category, key)
    case RemoveMember(category, key) => MemberRemoved(m, category, key)
    case AddCategoryGrant(role, category, allowed) => CategoryGranted(m, role, category, allowed)
    case AddNameGrant(role, key, allowed) => NameGrantAdded(m, role, key, allowed)
    case RemoveCategoryGrant(role, category) => CategoryGrantRemoved(m, role, category)
    case RemoveNameGrant(role, key) => NameGrantRemoved(m, role, key)
  }

  ghost function ApplyAll(m: Model, ops: seq<Op>): Model {
    if ops == [] then m else Apply(ApplyAll(m, ops[..|ops| - 1]), ops[|ops| - 1])
  }

  // ---------------------------------------------------------------------------------------------
  // What every model keeps.

  ghost predicate CandidateSound(categories: map<string, CategoryRow>, b: Bucket, c: Candidate) {
    && c.key.kind == b.kind && c.key.name == b.name
    && DistinctBy(c.categories, Fold)
    && forall x :: x in c.categories ==> Fold(x) in categories
  }

  /** A bucket is never empty, holds each key once, and each of its candidates sits in existing
      categories, each once. */
  ghost predicate BucketSound(categories: map<string, CategoryRow>, b: Bucket, cs: seq<Candidate>) {
    && cs != [] && Fold(b.name) == b.name
    && DistinctBy(cs, IdOf)
    && forall c :: c in cs ==> CandidateSound(categories, b, c)
  }

  ghost predicate IndexSound(index: Index, categories: map<string, CategoryRow>) {
    forall b :: b in index ==> BucketSound(categories, b, index[b])
  }

  ghost predicate HasId(cs: seq<Candidate>, id: FunctionKey) {
    exists c :: c in cs && IdOf(c) == id
  }

  ghost predicate HasCandidate(index: Index, id: FunctionKey) {
    HasId(CandidatesOf(index, Bucket(id.kind, id.name)), id)
  }

  /** No role both allows and denies a category or a key, and every key a grant names is a candidate. */
  ghost predicate RulesSound(index: Index, rules: Rules) {
    forall r :: r in rules ==> RoleSound(index, rules[r])
  }

  ghost predicate RoleSound(index: Index, r: RoleRules) {
    && r.categoriesAllowed !! r.categoriesDenied
    && r.keysAllowed !! r.keysDenied
    && forall id :: id in r.keysAllowed || id in r.keysDenied ==> HasCandidate(index, id)
  }

  ghost predicate Sound(m: Model) {
    IndexSound(m.index, m.categories) && RulesSound(m.index, m.rules)
  }

  /** Every candidate is in some category or named by some grant. */
  ghost predicate NoOrphan(m: Model) {
    forall b, c :: b in m.index && c in m.index[b] ==> Held(m.rules, c)
  }

  ghost predicate KeepsGranted(rules: Rules, cs: seq<Candidate>, cs': seq<Candidate>) {
    forall c :: c in cs && NameGranted(rules, c.key) ==> HasId(cs', IdOf(c))
  }

  // Rules stay sound under a new index that keeps the candidates their grants name.
  lemma RulesFollowIndex(m: Model, index: Index)
    requires Sound(m)
    requires forall b :: b in m.index ==> KeepsGranted(m.rules, m.index[b], CandidatesOf(index, b))
    ensures RulesSound(index, m.rules)
  {
    forall r, id | r in m.rules && (id in m.rules[r].keysAllowed || id in m.rules[r].keysDenied) ensures HasCandidate(index, id) {
      var b := Bucket(id.kind, id.name);
      assert RoleSound(m.index, m.rules[r]) && HasCandidate(m.index, id);
      assert b in m.index;
      var c :| c in m.index[b] && IdOf(c) == id;
      assert NameGranted(m.rules, c.key);
      assert KeepsGranted(m.rules, m.index[b], CandidatesOf(index, b));
    }
  }

  // Replacing one bucket.
  lemma BucketReplaced(m: Model, b: Bucket, cs: seq<Candidate>)
    requires Sound(m)
    requires cs != [] ==> BucketSound(m.categories, b, cs)
    requires KeepsGranted(m.rules, CandidatesOf(m.index, b), cs)
    ensures Sound(m.(index := WithBucket(m.index, b, cs)))
  {
    RulesFollowIndex(m, WithBucket(m.index, b, cs));
  }

  lemma CategoryAddedSound(m: Model, name: string, comment: string, builtin: bool)
    requires Sound(m)
    ensures Sound(CategoryAdded(m, name, comment, builtin))
  {
    var m' := CategoryAdded(m, name, comment, builtin);
    forall b | b in m'.index ensures BucketSound(m'.categories, b, m'.index[b]) {
      assert BucketSound(m.categories, b, m.index[b]);
    }
  }

  lemma WithOneMore(cs: seq<Candidate>, key: FunctionKey, c: Candidate)
    requires DistinctBy(cs, IdOf) && At(cs, key) == |cs| && IdOf(c) == Serialize(key)
    ensures DistinctBy(cs + [c], IdOf)
    ensures forall x :: x in cs ==> x in cs + [c]
  {
  }

  lemma FoldIdempotent(s: string)
    ensures Fold(Fold(s)) == Fold(s)
  {
  }

  lemma SameIds(cs: seq<Candidate>, i: nat, c: Candidate)
    requires i < |cs| && IdOf(c) == IdOf(cs[i])
    ensures DistinctBy(cs, IdOf) ==> DistinctBy(cs[i := c], IdOf)
    ensures forall x :: x in cs ==> HasId(cs[i := c], IdOf(x))
  {
    forall x | x in cs ensures HasId(cs[i := c], IdOf(x)) {
      var j :| 0 <= j < |cs| && cs[j] == x;
      assert cs[i := c][j] in cs[i := c];
    }
  }

  lemma NewBucketSound(m: Model, key: FunctionKey, cats: seq<string>)
    requires Sound(m) && At(CandidatesOf(m.index, BucketOf(key)), key) == |CandidatesOf(m.index, BucketOf(key))|
    requires |cats| <= 1 && forall x :: x in cats ==> Fold(x) in m.categories
    ensures Sound(m.(index := m.index[BucketOf(key) := CandidatesOf(m.index, BucketOf(key)) + [Candidate(Lowered(key), cats)]]))
  {
    var b := BucketOf(key);
    var cs := CandidatesOf(m.index, b);
    var c := Candidate(Lowered(key), cats);
    FoldIdempotent(key.name);
    WithOneMore(cs, key, c);
    BucketReplaced(m, b, cs + [c]);
  }

  lemma MemberAddedSound(m: Model, category: string, key: FunctionKey)
    requires Sound(m)
    ensures Sound(MemberAdded(m, category, key))
  {
    var known := if Fold(category) in m.categories then m else CategoryAdded(m, category, "", false);
    CategoryAddedSound(m, category, "", false);
    var b := BucketOf(key);
    var cs := CandidatesOf(m.index, b);
    var i := At(cs, key);
    if i == |cs| {
      NewBucketSound(known, key, [category]);
    } else if !InCategory(cs[i], category) {
      var c := cs[i].(categories := cs[i].categories + [category]);
      assert CandidateSound(known.categories, b, cs[i]);
      assert CandidateSound(known.categories, b, c);
      SameIds(cs, i, c);
      BucketReplaced(known, b, cs[i := c]);
    }
  }

  // Dropping candidates that no grant names.
  lemma PrunedSound(m: Model, key: FunctionKey)
    requires Sound(m)
    ensures Sound(m.(index := PrunedIndex(m.rules, m.index, key)))
  {
    var b := BucketOf(key);
    if b in m.index {
      var keep := (c: Candidate) => !(c.categories == [] && c.key == Lowered(key) && !NameGranted(m.rules, c.key));
      FilterKeepsDistinct(m.index[b], keep, IdOf);
      BucketReplaced(m, b, Pruned(m.rules, m.index[b], Lowered(key)));
    }
  }

  lemma WithoutCategorySound(categories: map<string, CategoryRow>, b: Bucket, c: Candidate, name: string)
    requires CandidateSound(categories, b, c)
    ensures CandidateSound(categories, b, c.(categories := WithoutCategory(c.categories, name)))
    ensures CandidateSound(categories - {Fold(name)}, b, c.(categories := WithoutCategory(c.categories, name)))
  {
    FilterKeepsDistinct(c.categories, (x: string) => !SameName(x, name), Fold);
  }

  lemma StrippedSound(m: Model, b: Bucket, name: string)
    requires Sound(m) && b in m.index
    ensures forall c :: c in Stripped(m.rules, m.index[b], name) ==> Held(m.rules, c)
    ensures KeepsGranted(m.rules, m.index[b], Stripped(m.rules, m.index[b], name))
    ensures Stripped(m.rules, m.index[b], name) != [] ==>
              BucketSound(m.categories - {Fold(name)}, b, Stripped(m.rules, m.index[b], name))
  {
    var cs := m.index[b];
    var bare := StripAll(cs, name);
    FilterKeepsDistinct(bare, (c: Candidate) => Held(m.rules, c), IdOf);
    forall c | c in bare ensures CandidateSound(m.categories - {Fold(name)}, b, c) {
      var i :| 0 <= i < |bare| && bare[i] == c;
      assert CandidateSound(m.categories, b, cs[i]);
      WithoutCategorySound(m.categories, b, cs[i], name);
    }
    forall c | c in cs && NameGranted(m.rules, c.key) ensures HasId(Stripped(m.rules, cs, name), IdOf(c)) {
      var i :| 0 <= i < |cs| && cs[i] == c;
      assert bare[i] in bare && bare[i].key == c.key;
    }
  }

  lemma CategoryRemovedSound(m: Model, name: string)
    requires Sound(m)
    ensures Sound(CategoryRemoved(m, name))
    ensures Fold(name) in m.categories ==> NoOrphan(CategoryRemoved(m, name))
  {
    if Fold(name) in m.categories {
      var m' := CategoryRemoved(m, name);
      forall b | b in m.index ensures KeepsGranted(m.rules, m.index[b], CandidatesOf(m'.index, b)) {
        StrippedSound(m, b, name);
      }
      RulesFollowIndex(m, m'.index);
      forall r | r in m'.rules ensures RoleSound(m'.index, m'.rules[r]) {
        assert RoleSound(m'.index, m.rules[r]);
      }
      forall b | b in m'.index ensures BucketSound(m'.categories, b, m'.index[b])
                               ensures forall c :: c in m'.index[b] ==> Held(m'.rules, c) {
        StrippedSound(m, b, name);
        forall c | c in m'.index[b] ensures Held(m'.rules, c) {
          assert Held(m.rules, c);
          SameGrants(m.rules, m'.rules, c.key);
        }
      }
    }
  }

  // Who is named by a grant depends on the keys the rules hold.
  lemma SameGrants(rules: Rules, rules': Rules, key: FunctionKey)
    requires rules.Keys == rules'.Keys
    requires forall r :: r in rules ==> (Serialize(key) in rules[r].keysAllowed || Serialize(key) in rules[r].keysDenied <==>
                                         Serialize(key) in rules'[r].keysAllowed || Serialize(key) in rules'[r].keysDenied)
    ensures NameGranted(rules, key) <==> NameGranted(rules', key)
  {
  }

  lemma CategoryGrantsSound(m: Model, role: string, category: string, allowed: bool)
    requires Sound(m)
    ensures Sound(CategoryGranted(m, role, category, allowed))
    ensures Sound(CategoryGrantRemoved(m, role, category))
  {
    assert RoleSound(m.index, RulesOf(m.rules, role));
  }

  lemma NameGrantAddedSound(m: Model, role: string, key: FunctionKey, allowed: bool)
    requires Sound(m)
    ensures Sound(NameGrantAdded(m, role, key, allowed))
  {
    var b := BucketOf(key);
    var cs := CandidatesOf(m.index, b);
    var m' := NameGrantAdded(m, role, key, allowed);
    var made := m.(index := m'.index);
    if At(cs, key) == |cs| {
      NewBucketSound(m, key, []);
      FoldIdempotent(key.name);
      assert IdOf(m'.index[b][|cs|]) == Serialize(Lowered(key)) == Serialize(key);
      assert m'.index[b][|cs|] in m'.index[b];
    } else {
      assert cs[At(cs, key)] in cs;
    }
    assert Sound(made) && HasCandidate(made.index, Serialize(key));
    assert RoleSound(made.index, RulesOf(m.rules, role));
    assert RoleSound(m'.index, NameRule(RulesOf(m.rules, role), key, allowed));
  }

  lemma NameGrantRemovedSound(m: Model, role: string, key: FunctionKey)
    requires Sound(m)
    ensures Sound(NameGrantRemoved(m, role, key))
  {
    if Fold(role) in m.rules {
      var rules := m.rules[Fold(role) := UnnamedRules(m.rules[Fold(role)], key)];
      assert RoleSound(m.index, m.rules[Fold(role)]);
      PrunedSound(m.(rules := rules), key);
    }
  }

  lemma BareCandidateSound(m: Model, key: FunctionKey, category: string)
    requires Sound(m)
    requires var cs := CandidatesOf(m.index, BucketOf(key)); At(cs, key) < |cs|
    ensures var b := BucketOf(key); var cs := m.index[b]; var i := At(cs, key);
            var c := cs[i].(categories := WithoutCategory(cs[i].categories, category));
            Sound(m.(index := m.index[b := cs[i := c]])) && DistinctBy(cs[i := c], IdOf)
  {
    var b := BucketOf(key);
    var cs := m.index[b];
    var i := At(cs, key);
    var c := cs[i].(categories := WithoutCategory(cs[i].categories, category));
    assert CandidateSound(m.categories, b, cs[i]);
    WithoutCategorySound(m.categories, b, cs[i], category);
    SameIds(cs, i, c);
    BucketReplaced(m, b, cs[i := c]);
  }

  lemma MemberRemovedSound(m: Model, category: string, key: FunctionKey)
    requires Sound(m)
    ensures Sound(MemberRemoved(m, category, key))
  {
    var b := BucketOf(key);
    var cs := CandidatesOf(m.index, b);
    var i := At(cs, key);
    if i < |cs| && InCategory(cs[i], category) {
      BareCandidateSound(m, key, category);
      var c := cs[i].(categories := WithoutCategory(cs[i].categories, category));
      PrunedSound(m.(index := m.index[b := cs[i := c]]), key);
    }
  }

  /** Every operation keeps the model sound. */
  lemma StepSound(m: Model, op: Op)
    requires Sound(m)
    ensures Sound(Apply(m, op))
  {
    match op
    case AddCategory(name, comment, builtin) => CategoryAddedSound(m, name, comment, builtin);
    case RemoveCategory(name) => CategoryRemovedSound(m, name);
    case AddMember(category, key) => MemberAddedSound(m, category, key);
    case RemoveMember(category, key) => MemberRemovedSound(m, category, key);
    case AddCategoryGrant(role, category, allowed) => CategoryGrantsSound(m, role, category, allowed);
    case AddNameGrant(role, key, allowed) => NameGrantAddedSound(m, role, key, allowed);
    case RemoveCategoryGrant(role, category) => CategoryGrantsSound(m, role, category, true);
    case RemoveNameGrant(role, key) => NameGrantRemovedSound(m, role, key);
  }

  /** So does every run from the empty model. */
  lemma {:induction false} EveryRunIsSound(ops: seq<Op>)
    ensures Sound(ApplyAll(EMPTY, ops))
  {
    if ops != [] {
      EveryRunIsSound(ops[..|ops| - 1]);
      StepSound(ApplyAll(EMPTY, ops[..|ops| - 1]), ops[|ops| - 1]);
    }
  }

  // ---------------------------------------------------------------------------------------------
  // When a removal leaves a candidate nothing holds.

  /** The removal takes away the last thing that holds a candidate, but names its database or schema in
      another case than it was stored in: the letter-for-letter prune passes it by. */
  ghost predicate LeavesOrphan(m: Model, op: Op) {
    match op
    case RemoveMember(category, key) => (
      var cs := CandidatesOf(m.index, BucketOf(key));
      var i := At(cs, key);
      && i < |cs| && InCategory(cs[i], category) && cs[i].key != Lowered(key)
      && WithoutCategory(cs[i].categories, category) == [] && !NameGranted(m.rules, key))
    case RemoveNameGrant(role, key) => (
      var cs := CandidatesOf(m.index, BucketOf(key));
      var i := At(cs, key);
      && Fold(role) in m.rules && i < |cs| && cs[i].key != Lowered(key) && cs[i].categories == []
      && !NameGranted(m.rules[Fold(role) := UnnamedRules(m.rules[Fold(role)], key)], key))
    case _ => false
  }

  // Pruning a key leaves an orphan exactly when the key's candidate is one, stored in another case.
  lemma PrunedOrphans(m: Model, key: FunctionKey)
    requires Sound(m)
    requires forall b, c :: b in m.index && c in m.index[b] ==> Held(m.rules, c) || IdOf(c) == Serialize(key)
    ensures var cs := CandidatesOf(m.index, BucketOf(key));
            var i := At(cs, key);
            NoOrphan(m.(index := PrunedIndex(m.rules, m.index, key))) <==> i == |cs| || Held(m.rules, cs[i]) || cs[i].key == Lowered(key)
  {
    var b := BucketOf(key);
    var cs := CandidatesOf(m.index, b);
    var i := At(cs, key);
    var m' := m.(index := PrunedIndex(m.rules, m.index, key));
    if b in m.index {
      var kept := Pruned(m.rules, cs, Lowered(key));
      if i < |cs| && !Held(m.rules, cs[i]) && cs[i].key != Lowered(key) {
        assert cs[i] in kept && kept == m'.index[b];
      } else {
        forall b', c | b' in m'.index && c in m'.index[b'] ensures Held(m.rules, c) {
          assert b' in m.index && c in m.index[b'];
          if IdOf(c) == Serialize(key) {
            assert CandidateSound(m.categories, b', c);
            TheOne(cs, IdOf, c, cs[i]);
          }
        }
      }
    } else {
      forall b', c | b' in m.index && c in m.index[b'] ensures Held(m.rules, c) {
        assert CandidateSound(m.categories, b', c);
      }
    }
  }

  // A candidate left with fewer categories is the only one that may no longer be held.
  lemma OnlyItMayGo(m: Model, key: FunctionKey, left: seq<string>)
    requires Sound(m) && NoOrphan(m)
    requires var cs := CandidatesOf(m.index, BucketOf(key)); At(cs, key) < |cs|
    ensures var b := BucketOf(key); var cs := m.index[b]; var i := At(cs, key);
            var m' := m.(index := m.index[b := cs[i := cs[i].(categories := left)]]);
            && (forall b', c :: b' in m'.index && c in m'.index[b'] ==> Held(m.rules, c) || c == cs[i].(categories := left))
            && (left != [] ==> NoOrphan(m'))
  {
    var b := BucketOf(key);
    var cs := m.index[b];
    var i := At(cs, key);
    var c := cs[i].(categories := left);
    forall x | x in cs[i := c] ensures x == c || x in cs {
    }
  }

  lemma BarePrunedOrphans(m: Model, key: FunctionKey, i: nat)
    requires Sound(m) && BucketOf(key) in m.index
    requires var cs := m.index[BucketOf(key)];
             DistinctBy(cs, IdOf) && i < |cs| && IdOf(cs[i]) == Serialize(key) && cs[i].categories == []
    requires var c := m.index[BucketOf(key)][i]; forall b, d :: b in m.index && d in m.index[b] ==> Held(m.rules, d) || d == c
    ensures NoOrphan(m.(index := PrunedIndex(m.rules, m.index, key)))
            <==> NameGranted(m.rules, key) || m.index[BucketOf(key)][i].key == Lowered(key)
  {
    var cs := m.index[BucketOf(key)];
    AtIs(cs, key, i);
    PrunedOrphans(m, key);
    assert Held(m.rules, cs[i]) <==> NameGranted(m.rules, key);
  }

  // The candidate loses its last category.
  lemma LastMemberOrphans(m: Model, category: string, key: FunctionKey)
    requires Sound(m) && NoOrphan(m)
    requires var cs := CandidatesOf(m.index, BucketOf(key)); var i := At(cs, key);
             i < |cs| && WithoutCategory(cs[i].categories, category) == []
    ensures var b := BucketOf(key); var cs := m.index[b]; var i := At(cs, key);
            var index := m.index[b := cs[i := cs[i].(categories := [])]];
            NoOrphan(m.(index := PrunedIndex(m.rules, index, key))) <==> NameGranted(m.rules, key) || cs[i].key == Lowered(key)
  {
    var b := BucketOf(key);
    var cs := m.index[b];
    var i := At(cs, key);
    var c := cs[i].(categories := []);
    var bare := m.(index := m.index[b := cs[i := c]]);
    OnlyItMayGo(m, key, []);
    BareCandidateSound(m, key, category);
    assert bare.index[b] == cs[i := c] && bare.index[b][i] == c;
    BarePrunedOrphans(bare, key, i);
  }

  lemma RemoveMemberOrphans(m: Model, category: string, key: FunctionKey)
    requires Sound(m) && NoOrphan(m)
    ensures NoOrphan(MemberRemoved(m, category, key)) <==> !LeavesOrphan(m, RemoveMember(category, key))
  {
    var b := BucketOf(key);
    var cs := CandidatesOf(m.index, b);
    var i := At(cs, key);
    if i < |cs| && InCategory(cs[i], category) {
      var left := WithoutCategory(cs[i].categories, category);
      if left == [] {
        LastMemberOrphans(m, category, key);
      } else {
        OnlyItMayGo(m, key, left);
      }
    }
  }

  lemma AtIs(cs: seq<Candidate>, key: FunctionKey, i: nat)
    requires DistinctBy(cs, IdOf) && i < |cs| && IdOf(cs[i]) == Serialize(key)
    ensures At(cs, key) == i
  {
  }

  lemma GrantChangesOthersNot(rules: Rules, role: string, r: RoleRules, key: FunctionKey, other: FunctionKey)
    requires Serialize(other) != Serialize(key)
    requires r.keysAllowed - {Serialize(key)} == RulesOf(rules, role).keysAllowed - {Serialize(key)}
    requires r.keysDenied - {Serialize(key)} == RulesOf(rules, role).keysDenied - {Serialize(key)}
    ensures NameGranted(rules[Fold(role) := r], other) <==> NameGranted(rules, other)
  {
    var s := Serialize(other);
    assert s in r.keysAllowed <==> s in r.keysAllowed - {Serialize(key)};
    assert s in r.keysDenied <==> s in r.keysDenied - {Serialize(key)};
    assert s in RulesOf(rules, role).keysAllowed <==> s in RulesOf(rules, role).keysAllowed - {Serialize(key)};
    assert s in RulesOf(rules, role).keysDenied <==> s in RulesOf(rules, role).keysDenied - {Serialize(key)};
    var rules' := rules[Fold(role) := r];
    if NameGranted(rules, other) {
      var q :| q in rules && (s in rules[q].keysAllowed || s in rules[q].keysDenied);
      assert q in rules' && (s in rules'[q].keysAllowed || s in rules'[q].keysDenied);
    }
  }

  lemma RemoveNameGrantOrphans(m: Model, role: string, key: FunctionKey)
    requires Sound(m) && NoOrphan(m)
    ensures NoOrphan(NameGrantRemoved(m, role, key)) <==> !LeavesOrphan(m, RemoveNameGrant(role, key))
  {
    if Fold(role) in m.rules {
      var r := UnnamedRules(m.rules[Fold(role)], key);
      var m' := m.(rules := m.rules[Fold(role) := r]);
      assert RoleSound(m.index, m.rules[Fold(role)]);
      forall b, c | b in m'.index && c in m'.index[b] ensures Held(m'.rules, c) || IdOf(c) == Serialize(key) {
        assert Held(m.rules, c);
        if IdOf(c) != Serialize(key) {
          GrantChangesOthersNot(m.rules, role, r, key, c.key);
        }
      }
      PrunedOrphans(m', key);
    }
  }

  lemma GrantedIsHeld(m: Model, role: string, key: FunctionKey, allowed: bool)
    requires Sound(m) && NoOrphan(m)
    ensures NoOrphan(NameGrantAdded(m, role, key, allowed))
  {
    var m' := NameGrantAdded(m, role, key, allowed);
    var r := NameRule(RulesOf(m.rules, role), key, allowed);
    FoldIdempotent(key.name);
    forall b, c | b in m'.index && c in m'.index[b] ensures Held(m'.rules, c) {
      if IdOf(c) == Serialize(key) {
        assert Fold(role) in m'.rules && m'.rules[Fold(role)] == r;
        assert Serialize(key) in r.keysAllowed || Serialize(key) in r.keysDenied;
      } else {
        assert b in m.index && c in m.index[b];
        assert Held(m.rules, c);
        GrantChangesOthersNot(m.rules, role, r, key, c.key);
      }
    }
  }

  lemma GrantsKept(rules: Rules, role: string, r: RoleRules, key: FunctionKey)
    requires r.keysAllowed == RulesOf(rules, role).keysAllowed && r.keysDenied == RulesOf(rules, role).keysDenied
    ensures NameGranted(rules, key) ==> NameGranted(rules[Fold(role) := r], key)
  {
    if NameGranted(rules, key) {
      var q :| q in rules && (Serialize(key) in rules[q].keysAllowed || Serialize(key) in rules[q].keysDenied);
      var rules' := rules[Fold(role) := r];
      assert q in rules' && (Serialize(key) in rules'[q].keysAllowed || Serialize(key) in rules'[q].keysDenied);
    }
  }

  lemma CategoryRulesOrphanNone(m: Model, role: string, category: string, allowed: bool)
    requires NoOrphan(m)
    ensures NoOrphan(CategoryGranted(m, role, category, allowed))
    ensures NoOrphan(CategoryGrantRemoved(m, role, category))
  {
    forall b, c | b in m.index && c in m.index[b]
      ensures Held(CategoryGranted(m, role, category, allowed).rules, c)
      ensures Held(CategoryGrantRemoved(m, role, category).rules, c)
    {
      assert Held(m.rules, c);
      GrantsKept(m.rules, role, CategoryRule(RulesOf(m.rules, role), category, allowed), c.key);
      GrantsKept(m.rules, role, StrippedRules(RulesOf(m.rules, role), category), c.key);
    }
  }

  /** The candidates are exactly the keys in some category or named by some grant - after every operation
      but a removal that names its key in another case than it is stored in. */
  lemma OrphansExactly(m: Model, op: Op)
    requires Sound(m) && NoOrphan(m)
    ensures NoOrphan(Apply(m, op)) <==> !LeavesOrphan(m, op)
  {
    match op
    case AddCategory(_, _, _) =>
    case RemoveCategory(name) => CategoryRemovedSound(m, name);
    case AddMember(_, _) =>
    case RemoveMember(category, key) => RemoveMemberOrphans(m, category, key);
    case AddCategoryGrant(role, category, allowed) => CategoryRulesOrphanNone(m, role, category, allowed);
    case AddNameGrant(role, key, allowed) => GrantedIsHeld(m, role, key, allowed);
    case RemoveCategoryGrant(role, category) => CategoryRulesOrphanNone(m, role, category, true);
    case RemoveNameGrant(role, key) => RemoveNameGrantOrphans(m, role, key);
  }

  /** The operation gives its key in lower case, as the management functions parse it. */
  predicate InLowerCase(op: Op) {
    match op
    case AddMember(_, key) => Serialize(key) == key
    case RemoveMember(_, key) => Serialize(key) == key
    case AddNameGrant(_, key, _) => Serialize(key) == key
    case RemoveNameGrant(_, key) => Serialize(key) == key
    case _ => true
  }

  ghost predicate AllLower(m: Model) {
    forall b, c :: b in m.index && c in m.index[b] ==> IdOf(c) == c.key
  }

  lemma BucketKeepsLower(m: Model, b: Bucket, cs: seq<Candidate>)
    requires AllLower(m) && forall c :: c in cs ==> IdOf(c) == c.key
    ensures AllLower(m.(index := m.index[b := cs])) && AllLower(m.(index := WithBucket(m.index, b, cs)))
  {
  }

  lemma FoundKeepsLower(m: Model, key: FunctionKey, cats: seq<string>)
    requires AllLower(m) && Serialize(key) == key
    ensures var cs := CandidatesOf(m.index, BucketOf(key)); var i := At(cs, key);
            && (i < |cs| ==> cs[i].key == key && AllLower(m.(index := m.index[BucketOf(key) := cs[i := cs[i].(categories := cats)]])))
            && (i == |cs| ==> AllLower(m.(index := m.index[BucketOf(key) := cs + [Candidate(key, cats)]])))
            && Lowered(key) == key
  {
    var cs := CandidatesOf(m.index, BucketOf(key));
    var i := At(cs, key);
    if i < |cs| {
      assert cs[i] in cs;
      BucketKeepsLower(m, BucketOf(key), cs[i := cs[i].(categories := cats)]);
    } else {
      BucketKeepsLower(m, BucketOf(key), cs + [Candidate(key, cats)]);
    }
  }

  lemma PrunedKeepsLower(m: Model, rules: Rules, key: FunctionKey)
    requires AllLower(m)
    ensures AllLower(m.(index := PrunedIndex(rules, m.index, key)))
  {
  }

  lemma StrippedKeepsLower(m: Model, name: string)
    requires AllLower(m)
    ensures AllLower(CategoryRemoved(m, name))
  {
    var m' := CategoryRemoved(m, name);
    if Fold(name) in m.categories {
      forall b, c | b in m'.index && c in m'.index[b] ensures IdOf(c) == c.key {
        assert c in StripAll(m.index[b], name);
        var i :| 0 <= i < |m.index[b]| && StripAll(m.index[b], name)[i] == c;
        assert m.index[b][i] in m.index[b];
      }
    }
  }

  lemma StepKeepsLower(m: Model, op: Op)
    requires AllLower(m) && InLowerCase(op)
    ensures AllLower(Apply(m, op))
    ensures !LeavesOrphan(m, op)
  {
    match op
    case RemoveCategory(name) => StrippedKeepsLower(m, name);
    case AddMember(category, key) =>
      var cs := CandidatesOf(m.index, BucketOf(key));
      var i := At(cs, key);
      FoundKeepsLower(m, key, if i < |cs| then cs[i].categories + [category] else [category]);
    case AddNameGrant(_, key, _) => FoundKeepsLower(m, key, []);
    case RemoveMember(category, key) =>
      var cs := CandidatesOf(m.index, BucketOf(key));
      var i := At(cs, key);
      if i < |cs| {
        var left := WithoutCategory(cs[i].categories, category);
        FoundKeepsLower(m, key, left);
        PrunedKeepsLower(m.(index := m.index[BucketOf(key) := cs[i := cs[i].(categories := left)]]), m.rules, key);
      }
    case RemoveNameGrant(role, key) =>
      FoundKeepsLower(m, key, []);
      if Fold(role) in m.rules {
        PrunedKeepsLower(m, m.rules[Fold(role) := UnnamedRules(m.rules[Fold(role)], key)], key);
      }
    case _ =>
  }

  /** A run whose keys are all given in lower case leaves exactly the candidates something holds. */
  lemma {:induction false} LowerCaseRunsAreExact(ops: seq<Op>)
    requires forall i :: 0 <= i < |ops| ==> InLowerCase(ops[i])
    ensures Sound(ApplyAll(EMPTY, ops)) && NoOrphan(ApplyAll(EMPTY, ops)) && AllLower(ApplyAll(EMPTY, ops))
  {
    if ops != [] {
      var before := ops[..|ops| - 1];
      LowerCaseRunsAreExact(before);
      StepSound(ApplyAll(EMPTY, before), ops[|ops| - 1]);
      StepKeepsLower(ApplyAll(EMPTY, before), ops[|ops| - 1]);
      OrphansExactly(ApplyAll(EMPTY, before), ops[|ops| - 1]);
    }
  }

  lemma LastCategoryOff(cats: seq<string>, category: string)
    requires forall i :: 0 <= i < |cats| ==> !SameName(cats[i], category)
    ensures WithoutCategory(cats + [category], category) == cats
  {
    assert (cats + [category])[..|cats|] == cats;
    FilterAll(cats, (c: string) => !SameName(c, category));
  }

  lemma RemovedAt(m: Model, category: string, key: FunctionKey, cs: seq<Candidate>, i: nat, left: seq<string>)
    requires BucketOf(key) in m.index && cs == m.index[BucketOf(key)] && i == At(cs, key) < |cs|
    requires InCategory(cs[i], category) && WithoutCategory(cs[i].categories, category) == left
    ensures var b := BucketOf(key);
            var cs' := cs[i := cs[i].(categories := left)];
            MemberRemoved(m, category, key).index ==
            if left == [] then WithBucket(m.index[b := cs'], b, Pruned(m.rules, cs', Lowered(key))) else m.index[b := cs']
  {
  }

  lemma PutBackAt(cs: seq<Candidate>, i: nat, c: Candidate)
    requires i < |cs|
    ensures cs[i := c][i := cs[i]] == cs
  {
  }

  lemma LastReplaced(cs: seq<Candidate>, c: Candidate, d: Candidate)
    ensures (cs + [c])[|cs| := d] == cs + [d]
  {
  }

  lemma PutBackIn(index: Index, b: Bucket, cs: seq<Candidate>, other: seq<Candidate>, more: seq<Candidate>)
    requires cs == CandidatesOf(index, b) && (b in index ==> cs != [])
    ensures cs != [] ==> index[b := other][b := cs] == index
    ensures WithBucket(index[b := other][b := more], b, cs) == index
  {
  }

  lemma OnlyIndexChanges(m: Model, category: string, key: FunctionKey)
    ensures MemberRemoved(m, category, key) == m.(index := MemberRemoved(m, category, key).index)
  {
  }

  // The round trip below, for a key that was a candidate.
  lemma AddedToCandidateAndRemoved(m: Model, category: string, key: FunctionKey, cs: seq<Candidate>, i: nat)
    requires Sound(m) && NoOrphan(m)
    requires BucketOf(key) in m.index && cs == m.index[BucketOf(key)] && i == At(cs, key) < |cs|
    requires !InCategory(cs[i], category)
    ensures MemberRemoved(MemberAdded(m, category, key), category, key).index == m.index
  {
    var cats := cs[i].categories;
    var added := cs[i].(categories := cats + [category]);
    LastCategoryOff(cats, category);
    assert InCategory(added, category) by {
      assert SameName(added.categories[|cats|], category);
    }
    assert At(cs[i := added], key) == i by {
      SameIds(cs, i, added);
      AtIs(cs[i := added], key, i);
    }
    RemovedAt(MemberAdded(m, category, key), category, key, cs[i := added], i, cats);
    assert added.(categories := cats) == cs[i];
    PutBackAt(cs, i, added);
    NothingPruned(m, cs, key);
    PutBackIn(m.index, BucketOf(key), cs, cs[i := added], cs);
  }

  lemma NewPruned(m: Model, key: FunctionKey, cs: seq<Candidate>)
    requires Sound(m) && NoOrphan(m)
    requires cs == CandidatesOf(m.index, BucketOf(key)) && At(cs, key) == |cs|
    ensures Pruned(m.rules, cs + [Candidate(Lowered(key), [])], Lowered(key)) == cs
  {
    NothingPruned(m, cs, key);
    KeyNotGranted(m, key);
    assert (cs + [Candidate(Lowered(key), [])])[..|cs|] == cs;
  }

  lemma NewMemberFound(cs: seq<Candidate>, key: FunctionKey, category: string)
    requires DistinctBy(cs, IdOf) && At(cs, key) == |cs|
    ensures At(cs + [Candidate(Lowered(key), [category])], key) == |cs|
    ensures InCategory(Candidate(Lowered(key), [category]), category)
    ensures WithoutCategory([category], category) == []
  {
    var added := Candidate(Lowered(key), [category]);
    FoldIdempotent(key.name);
    WithOneMore(cs, key, added);
    AtIs(cs + [added], key, |cs|);
    assert SameName(added.categories[0], category);
    FilterNone([category], (x: string) => !SameName(x, category));
  }

  // The round trip below, for a new key: `m'` is the model with it.
  lemma NewMemberRemoved(m: Model, m': Model, category: string, key: FunctionKey, cs: seq<Candidate>)
    requires Sound(m) && NoOrphan(m)
    requires cs == CandidatesOf(m.index, BucketOf(key)) && At(cs, key) == |cs|
    requires m'.rules == m.rules && m'.index == m.index[BucketOf(key) := cs + [Candidate(Lowered(key), [category])]]
    ensures MemberRemoved(m', category, key).index == m.index
  {
    var added := Candidate(Lowered(key), [category]);
    var bare := Candidate(Lowered(key), []);
    NewMemberFound(cs, key, category);
    RemovedAt(m', category, key, cs + [added], |cs|, []);
    LastReplaced(cs, added, bare);
    NewPruned(m, key, cs);
    PutBackIn(m.index, BucketOf(key), cs, cs + [added], cs + [bare]);
  }

  /** Taking back a member just added leaves the candidates and the rules as they were. */
  lemma MemberAddedAndRemoved(m: Model, category: string, key: FunctionKey)
    requires Sound(m) && NoOrphan(m)
    requires var cs := CandidatesOf(m.index, BucketOf(key));
             At(cs, key) < |cs| ==> !InCategory(cs[At(cs, key)], category)
    ensures MemberRemoved(MemberAdded(m, category, key), category, key).index == m.index
    ensures MemberRemoved(MemberAdded(m, category, key), category, key).rules == m.rules
  {
    var cs := CandidatesOf(m.index, BucketOf(key));
    if At(cs, key) < |cs| {
      AddedToCandidateAndRemoved(m, category, key, cs, At(cs, key));
    } else {
      NewMemberRemoved(m, MemberAdded(m, category, key), category, key, cs);
    }
  }

  lemma NothingPruned(m: Model, cs: seq<Candidate>, key: FunctionKey)
    requires NoOrphan(m) && cs == CandidatesOf(m.index, BucketOf(key))
    ensures Pruned(m.rules, cs, Lowered(key)) == cs
  {
    var keep := (c: Candidate) => !(c.categories == [] && c.key == Lowered(key) && !NameGranted(m.rules, c.key));
    forall i | 0 <= i < |cs| ensures keep(cs[i]) {
      assert cs[i] in cs;
      assert Held(m.rules, cs[i]);
    }
    FilterAll(cs, keep);
  }

  // A key that is no candidate is named by no grant.
  lemma KeyNotGranted(m: Model, key: FunctionKey)
    requires Sound(m) && At(CandidatesOf(m.index, BucketOf(key)), key) == |CandidatesOf(m.index, BucketOf(key))|
    ensures !NameGranted(m.rules, key) && !NameGranted(m.rules, Lowered(key))
  {
    FoldIdempotent(key.name);
    forall r | r in m.rules ensures Serialize(key) !in m.rules[r].keysAllowed && Serialize(key) !in m.rules[r].keysDenied {
      assert RoleSound(m.index, m.rules[r]);
      var cs := CandidatesOf(m.index, BucketOf(key));
      assert !HasId(cs, Serialize(key)) by {
        forall c | c in cs ensures IdOf(c) != Serialize(key) {
          var j :| 0 <= j < |cs| && cs[j] == c;
        }
      }
    }
  }

  // ---------------------------------------------------------------------------------------------
  // The verdict for one candidate.

  datatype Verdict = Admitted | NeverCalled | Denied | NotGranted | Uncategorized | Ambiguous | UnknownQualified

  datatype Decider = NoOne | TheNeverSet | ByName(role: string) | ByCategory(category: string, role: string)

  datatype Decision = Decision(verdict: Verdict, key: FunctionKey, category: string, decidedBy: Decider)

  function KeysOf(r: RoleRules, allow: bool): set<FunctionKey> {
    if allow then r.keysAllowed else r.keysDenied
  }

  function CategoriesOf(r: RoleRules, allow: bool): set<string> {
    if allow then r.categoriesAllowed else r.categoriesDenied
  }

  /** A role's rules allow - or deny - the candidate: its key, or some category it sits in. */
  ghost predicate Says(rules: Rules, role: string, c: Candidate, allow: bool) {
    && Fold(role) in rules
    && (IdOf(c) in KeysOf(rules[Fold(role)], allow)
        || exists x :: x in c.categories && Fold(x) in CategoriesOf(rules[Fold(role)], allow))
  }

  // What decides for one role: the name first, then the candidate's first such category.
  function RoleDecides(rules: Rules, role: string, c: Candidate, allow: bool): Option<Decider> {
    if Fold(role) !in rules then None
    else if IdOf(c) in KeysOf(rules[Fold(role)], allow) then Some(ByName(role))
    else match FirstWhere(c.categories, (x: string) => Fold(x) in CategoriesOf(rules[Fold(role)], allow))
      case Some(x) => Some(ByCategory(x, role))
      case None => None
  }

  function FirstRole(rules: Rules, roles: seq<string>, c: Candidate, allow: bool): Option<Decider> {
    if roles == [] then None else
    var n := |roles| - 1;
    match FirstRole(rules, roles[..n], c, allow)
    case Some(d) => Some(d)
    case None => RoleDecides(rules, roles[n], c, allow)
  }

  function NamedCategory(d: Decider): string {
    if d.ByCategory? then d.category else ""
  }

  function Judged(rules: Rules, roles: seq<string>, c: Candidate): Decision {
    match FirstRole(rules, roles + [""], c, false)
    case Some(d) => Decision(Denied, c.key, NamedCategory(d), d)
    case None =>
      match FirstRole(rules, roles + [""], c, true)
      case Some(d) => Decision(Admitted, c.key, NamedCategory(d), d)
      case None => Decision(NotGranted, c.key, "", NoOne)
  }

  lemma {:induction false} FirstRoleMeaning(rules: Rules, roles: seq<string>, c: Candidate, allow: bool)
    ensures FirstRole(rules, roles, c, allow).Some? <==> exists role :: role in roles && Says(rules, role, c, allow)
  {
    if roles != [] {
      var n := |roles| - 1;
      FirstRoleMeaning(rules, roles[..n], c, allow);
      assert roles == roles[..n] + [roles[n]];
      assert RoleDecides(rules, roles[n], c, allow).Some? <==> Says(rules, roles[n], c, allow);
    }
  }

  /** Some role of the list - or every role's rules - says so. */
  ghost predicate AnyRoleSays(rules: Rules, roles: seq<string>, c: Candidate, allow: bool) {
    Says(rules, "", c, allow) || exists role :: role in roles && Says(rules, role, c, allow)
  }

  /** A deny anywhere wins; otherwise one allow admits. */
  lemma VerdictMeaning(rules: Rules, roles: seq<string>, c: Candidate)
    ensures Judged(rules, roles, c).verdict ==
            if AnyRoleSays(rules, roles, c, false) then Denied
            else if AnyRoleSays(rules, roles, c, true) then Admitted else NotGranted
  {
    FirstRoleMeaning(rules, roles + [""], c, false);
    FirstRoleMeaning(rules, roles + [""], c, true);
    assert forall role :: role in roles + [""] <==> role in roles || role == "";
  }

  function FoldedRoles(roles: seq<string>): set<string> {
    set r | r in roles + [""] :: Fold(r)
  }

  /** The order, repetition and case of the roles, and naming every role's rules or not, change nothing. */
  lemma VerdictIgnoresOrder(rules: Rules, roles: seq<string>, others: seq<string>, c: Candidate)
    requires FoldedRoles(roles) == FoldedRoles(others)
    ensures Judged(rules, roles, c).verdict == Judged(rules, others, c).verdict
  {
    SameRolesSay(rules, roles, others, c);
    SameRolesSay(rules, others, roles, c);
    VerdictMeaning(rules, roles, c);
    VerdictMeaning(rules, others, c);
  }

  lemma SameRolesSay(rules: Rules, roles: seq<string>, others: seq<string>, c: Candidate)
    requires FoldedRoles(roles) <= FoldedRoles(others)
    ensures forall allow :: AnyRoleSays(rules, roles, c, allow) ==> AnyRoleSays(rules, others, c, allow)
  {
    forall allow | AnyRoleSays(rules, roles, c, allow) ensures AnyRoleSays(rules, others, c, allow) {
      if !Says(rules, "", c, allow) {
        var role :| role in roles && Says(rules, role, c, allow);
        assert role in roles + [""];
        assert Fold(role) in FoldedRoles(roles);
        assert Fold(role) in FoldedRoles(others);
        var other :| other in others + [""] && Fold(other) == Fold(role);
        assert Says(rules, other, c, allow);
      }
    }
  }

  // ---------------------------------------------------------------------------------------------
  // The functions no grant opens.

  const NEVER_PREFIXES: seq<string> := ["acl_", "ducklake_", "quack_", "uc_", "__internal_"]

  const NEVER_NAMES: set<string> := {
    "arrow_scan", "arrow_scan_dumb", "seq_scan", "query", "query_table", "json_execute_serialized_sql", "tpch",
    "tpcds", "sqlsmith", "fuzzyduck", "reduce_sql_statement", "fuzz_all_functions", "scan_data_from_quack_client",
    "act_for_sessions", "error", "constant_or_null", "create_sort_key", "invoke", "combine", "finalize",
    "to_aggregate_state"}

  const SCANNERS: seq<string> := ["postgres_", "pg_", "mysql_", "mssql_", "sqlite_", "odbc_"]

  const VERBS: seq<string> := [
    "query", "execute", "attach", "clear_cache", "configure_pool", "pin_connection", "close_pinned_connection",
    "bind_params", "create_params"]

  predicate NeverOnlyInSystem(name: string) {
    name == "whoami"
  }

  /** Never callable under a principal; no database means the system catalog. */
  predicate NeverCallable(name: string, database: string) {
    || (exists i :: 0 <= i < |NEVER_PREFIXES| && NEVER_PREFIXES[i] <= name)
    || Fold(name) in NEVER_NAMES
    || (NeverOnlyInSystem(name) && (database == "" || SameName(database, "system")))
    || (exists i, j :: 0 <= i < |SCANNERS| && 0 <= j < |VERBS| && name == SCANNERS[i] + VERBS[j])
  }

  predicate NeverInAnyCatalog(name: string) {
    NeverCallable(name, "") && !NeverOnlyInSystem(name)
  }

  /** The database a key is in matters to one name alone: any other name of the set is closed wherever the
      function is, and so by the bare name too. */
  lemma ClosedWhereverItIs(name: string, database: string)
    ensures NeverInAnyCatalog(name) <==> NeverCallable(name, "") && name != "whoami"
    ensures name != "whoami" ==> (NeverCallable(name, database) <==> NeverCallable(name, ""))
    ensures database == "" || SameName(database, "system") ==> NeverCallable("whoami", database)
  {
  }

  // ---------------------------------------------------------------------------------------------
  // Resolving a call.

  /** A call's name as written: alone, or under a schema and perhaps a catalog ("" when not written). */
  datatype Written = Bare(name: string) | Qualified(catalog: string, schema: string, name: string)

  predicate InSystem(key: FunctionKey) {
    SameName(key.database, "system")
  }

  function SchemaRank(key: FunctionKey): (rank: nat)
    ensures rank <= 3
  {
    if !InSystem(key) then 3
    else if SameName(key.schema, "main") then 0
    else if SameName(key.schema, "pg_catalog") then 1
    else 2
  }

  /** A qualified name: in the catalog written; else the schema in the system catalog, then in any, then
      the main schema of a database of that name. */
  function QualifiedReach(cs: seq<Candidate>, catalog: string, schema: string): Option<Candidate> {
    if catalog != "" then
      FirstWhere(cs, (c: Candidate) => SameName(c.key.schema, schema) && SameName(c.key.database, catalog))
    else
      var inSystem := FirstWhere(cs, (c: Candidate) => SameName(c.key.schema, schema) && InSystem(c.key));
      if inSystem.Some? then inSystem else
      var anywhere := FirstWhere(cs, (c: Candidate) => SameName(c.key.schema, schema));
      if anywhere.Some? then anywhere else
      FirstWhere(cs, (c: Candidate) => SameName(c.key.schema, "main") && SameName(c.key.database, schema))
  }

  /** The first candidate of the best rank. */
  function BestOf(cs: seq<Candidate>): (c: Candidate)
    requires cs != []
    ensures c in cs && forall d :: d in cs ==> SchemaRank(c.key) <= SchemaRank(d.key)
  {
    var n := |cs| - 1;
    assert cs == cs[..n] + [cs[n]];
    if n == 0 then cs[0] else
    var before := BestOf(cs[..n]);
    if SchemaRank(cs[n].key) < SchemaRank(before.key) then cs[n] else before
  }

  /** Several candidates, all outside the system catalog. */
  predicate Tied(cs: seq<Candidate>) {
    |cs| > 1 && forall i :: 0 <= i < |cs| ==> SchemaRank(cs[i].key) == 3
  }

  // Whatever the rules say of it, a key of the never set stays closed.
  function NeverByKey(d: Decision): Decision {
    if NeverCallable(d.key.name, d.key.database) then d.(verdict := NeverCalled, decidedBy := TheNeverSet) else d
  }

  function Resolved(m: Model, roles: seq<string>, written: Written, kind: FunctionKind): Decision {
    var name := Fold(written.name);
    var asWritten := FunctionKey("system", "main", name, kind);
    if NeverInAnyCatalog(name) then Decision(NeverCalled, asWritten, "", TheNeverSet) else
    var cs := CandidatesOf(m.index, Bucket(kind, name));
    match written
    case Qualified(catalog, schema, _) => (
      match QualifiedReach(cs, catalog, schema)
      case None => Decision(UnknownQualified, FunctionKey(catalog, schema, name, kind), "", NoOne)
      case Some(c) => NeverByKey(Judged(m.rules, roles, c)))
    case Bare(_) =>
      if cs == [] then NeverByKey(Decision(Uncategorized, asWritten, "", NoOne))
      else if Tied(cs) then Decision(Ambiguous, asWritten, "", NoOne)
      else NeverByKey(Judged(m.rules, roles, BestOf(cs)))
  }

  // An admitted call is of a candidate of the name's bucket.
  lemma AdmittedIsCandidate(m: Model, roles: seq<string>, written: Written, kind: FunctionKind)
    requires Resolved(m, roles, written, kind).verdict == Admitted
    ensures exists c :: c in CandidatesOf(m.index, Bucket(kind, Fold(written.name))) && c.key == Resolved(m, roles, written, kind).key
  {
    var cs := CandidatesOf(m.index, Bucket(kind, Fold(written.name)));
    if written.Qualified? {
      var reached := QualifiedReach(cs, written.catalog, written.schema);
      assert reached.Some? && reached.value in cs;
    } else {
      assert cs != [] && BestOf(cs) in cs;
    }
  }

  /** No rules make a call of a never-callable function admitted, however its name is written - in any
      model, sound or not. */
  lemma NeverStaysClosed(m: Model, roles: seq<string>, written: Written, kind: FunctionKind)
    ensures Resolved(m, roles, written, kind).verdict == Admitted ==>
              var key := Resolved(m, roles, written, kind).key;
              && !NeverCallable(key.name, key.database)
              && !NeverInAnyCatalog(Fold(written.name))
    ensures Sound(m) && Resolved(m, roles, written, kind).verdict == Admitted ==>
              Resolved(m, roles, written, kind).key.name == Fold(written.name)
  {
    var b := Bucket(kind, Fold(written.name));
    if Sound(m) && Resolved(m, roles, written, kind).verdict == Admitted {
      AdmittedIsCandidate(m, roles, written, kind);
      var c :| c in CandidatesOf(m.index, b) && c.key == Resolved(m, roles, written, kind).key;
      assert BucketSound(m.categories, b, m.index[b]) && CandidateSound(m.categories, b, c);
    }
  }

  /** What a qualified name reaches among one name's candidates: the only key in the catalog and schema
      written; without a catalog, a system key of that schema before any other. */
  lemma QualifiedMeaning(m: Model, b: Bucket, catalog: string, schema: string, c: Candidate)
    requires Sound(m) && b in m.index && c in m.index[b]
    ensures catalog != "" ==>
              (QualifiedReach(m.index[b], catalog, schema) == Some(c) <==>
               SameName(c.key.schema, schema) && SameName(c.key.database, catalog))
    ensures catalog == "" && SameName(c.key.schema, schema) && InSystem(c.key) ==>
              QualifiedReach(m.index[b], catalog, schema) == Some(c)
    ensures QualifiedReach(m.index[b], "", schema) == Some(c) && !SameName(c.key.schema, schema) ==>
              && SameName(c.key.database, schema) && SameName(c.key.schema, "main")
              && forall d :: d in m.index[b] ==> !SameName(d.key.schema, schema)
    ensures QualifiedReach(m.index[b], "", schema) == None ==>
              !SameName(c.key.schema, schema) && !(SameName(c.key.database, schema) && SameName(c.key.schema, "main"))
  {
    var cs := m.index[b];
    var r := QualifiedReach(cs, catalog, schema);
    assert CandidateSound(m.categories, b, c);
    if r.Some? {
      assert r.value in cs && CandidateSound(m.categories, b, r.value);
      if IdOf(r.value) == IdOf(c) {
        TheOne(cs, IdOf, r.value, c);
      }
    }
  }

  lemma TiedMeaning(cs: seq<Candidate>)
    requires cs != []
    ensures Tied(cs) <==> |cs| > 1 && SchemaRank(BestOf(cs).key) == 3
  {
    var best := BestOf(cs);
    assert forall i :: 0 <= i < |cs| ==> cs[i] in cs;
    assert forall d :: d in cs ==> SchemaRank(best.key) <= SchemaRank(d.key) <= 3;
  }

  /** The order of a bare name's candidates: one in the system catalog's main schema, else one in its
      pg_catalog, else any other of the system catalog; outside it, only a single one. */
  lemma BareOrder(m: Model, b: Bucket)
    requires Sound(m) && b in m.index
    ensures Tied(m.index[b]) <==> |m.index[b]| > 1 && forall d :: d in m.index[b] ==> !SameName(d.key.database, "system")
    ensures var best := BestOf(m.index[b]).key;
            && ((exists d :: d in m.index[b] && SameName(d.key.database, "system")) ==> SameName(best.database, "system"))
            && ((exists d :: d in m.index[b] && SameName(d.key.database, "system") && SameName(d.key.schema, "pg_catalog")) ==>
                  SameName(best.schema, "pg_catalog") || SameName(best.schema, "main"))
            && ((exists d :: d in m.index[b] && SameName(d.key.database, "system") && SameName(d.key.schema, "main")) ==> SameName(best.schema, "main"))
  {
    var cs := m.index[b];
    var best := BestOf(cs);
    forall d | d in cs ensures BeforeInOrder(best.key, d.key) {
      RankOrder(best.key, d.key);
    }
    assert forall i :: 0 <= i < |cs| ==> cs[i] in cs;
    assert forall d :: d in cs ==> (SchemaRank(d.key) == 3 <==> !SameName(d.key.database, "system"));
  }

  predicate BeforeInOrder(a: FunctionKey, b: FunctionKey) {
    SameName(b.database, "system") ==>
      && SameName(a.database, "system")
      && (SameName(b.schema, "pg_catalog") ==> SameName(a.schema, "pg_catalog") || SameName(a.schema, "main"))
      && (SameName(b.schema, "main") ==> SameName(a.schema, "main"))
  }

  lemma RankOrder(a: FunctionKey, b: FunctionKey)
    requires SchemaRank(a) <= SchemaRank(b)
    ensures BeforeInOrder(a, b)
  {
  }

  /** What a bare name reaches: two candidates outside the system catalog tie only when nothing ranks
      before them, and the one taken ranks before every other - or comes first among the extensions'
      system schemas. */
  lemma BareMeaning(m: Model, b: Bucket)
    requires Sound(m) && b in m.index
    ensures !Tied(m.index[b]) ==> forall d :: d in m.index[b] && d != BestOf(m.index[b]) ==>
              SchemaRank(d.key) > SchemaRank(BestOf(m.index[b]).key) || SchemaRank(d.key) == 2
    ensures Tied(m.index[b]) <==> |m.index[b]| > 1 && SchemaRank(BestOf(m.index[b]).key) == 3
  {
    var cs := m.index[b];
    var best := BestOf(cs);
    TiedMeaning(cs);
    forall d | d in cs && d != best && SchemaRank(d.key) == SchemaRank(best.key) && !Tied(cs) ensures SchemaRank(d.key) == 2 {
      assert CandidateSound(m.categories, b, d) && CandidateSound(m.categories, b, best);
      if SchemaRank(d.key) < 2 {
        TheOne(cs, IdOf, d, best);
      }
    }
  }

  /** What a listing of the admitted functions shows. */
  predicate Shown(m: Model, roles: seq<string>, c: Candidate) {
    && !NeverInAnyCatalog(c.key.name)
    && !NeverCallable(c.key.name, c.key.database)
    && Judged(m.rules, roles, c).verdict == Admitted
    && (InSystem(c.key) ||
        var bare := Resolved(m, roles, Bare(c.key.name), c.key.kind);
        bare.verdict == Admitted && bare.key == c.key)
  }

  ghost predicate Listed(m: Model, roles: seq<string>, key: FunctionKey) {
    exists b, c :: b in m.index && c in m.index[b] && c.key == key && Shown(m, roles, c)
  }

  function Full(key: FunctionKey): Written {
    Qualified(key.database, key.schema, key.name)
  }

  ghost predicate AdmittedAs(m: Model, roles: seq<string>, written: Written, key: FunctionKey) {
    var d := Resolved(m, roles, written, key.kind);
    d.verdict == Admitted && d.key == key
  }

  lemma FullReaches(m: Model, roles: seq<string>, b: Bucket, c: Candidate)
    requires Sound(m) && b in m.index && c in m.index[b] && c.key.database != ""
    ensures Bucket(c.key.kind, Fold(c.key.name)) == b
    ensures Resolved(m, roles, Full(c.key), c.key.kind) ==
            if NeverInAnyCatalog(c.key.name) then Decision(NeverCalled, FunctionKey("system", "main", c.key.name, c.key.kind), "", TheNeverSet)
            else NeverByKey(Judged(m.rules, roles, c))
  {
    assert CandidateSound(m.categories, b, c);
    QualifiedMeaning(m, b, c.key.database, c.key.schema, c);
  }

  lemma BareIsListed(m: Model, roles: seq<string>, name: string, kind: FunctionKind)
    requires Sound(m) && Resolved(m, roles, Bare(name), kind).verdict == Admitted
    ensures Listed(m, roles, Resolved(m, roles, Bare(name), kind).key)
  {
    var b := Bucket(kind, Fold(name));
    assert b in m.index;
    var c := BestOf(m.index[b]);
    assert CandidateSound(m.categories, b, c);
    assert Fold(c.key.name) == c.key.name;
    assert Resolved(m, roles, Bare(name), kind) == NeverByKey(Judged(m.rules, roles, c));
    assert Resolved(m, roles, Bare(c.key.name), kind) == Resolved(m, roles, Bare(name), kind);
    assert Shown(m, roles, c);
  }

  lemma OneCandidateOfKey(m: Model, b: Bucket, c: Candidate)
    requires Sound(m) && b in m.index && c in m.index[b]
    ensures forall b', c' :: b' in m.index && c' in m.index[b'] && c'.key == c.key ==> c' == c
  {
    assert CandidateSound(m.categories, b, c);
    forall b', c' | b' in m.index && c' in m.index[b'] && c'.key == c.key ensures c' == c {
      assert CandidateSound(m.categories, b', c');
      TheOne(m.index[b], IdOf, c, c');
    }
  }

  lemma FullIsAdmitted(m: Model, roles: seq<string>, b: Bucket, c: Candidate)
    requires Sound(m) && b in m.index && c in m.index[b] && c.key.database != ""
    ensures AdmittedAs(m, roles, Full(c.key), c.key) <==>
              && !NeverInAnyCatalog(c.key.name)
              && !NeverCallable(c.key.name, c.key.database)
              && Judged(m.rules, roles, c).verdict == Admitted
  {
    FullReaches(m, roles, b, c);
  }

  ghost predicate IsCandidateKey(m: Model, key: FunctionKey) {
    exists b, c :: b in m.index && c in m.index[b] && c.key == key
  }

  lemma ListedIsShown(m: Model, roles: seq<string>, b: Bucket, c: Candidate)
    requires Sound(m) && b in m.index && c in m.index[b]
    ensures Listed(m, roles, c.key) <==> Shown(m, roles, c)
  {
    OneCandidateOfKey(m, b, c);
  }

  /** The listing and the gate agree: every listed key is admitted as its listing names it - a system one
      in full, another by its bare name - and whatever the gate admits either way is listed. */
  lemma ListingAgrees(m: Model, roles: seq<string>, key: FunctionKey)
    requires Sound(m)
    ensures InSystem(key) && IsCandidateKey(m, key) ==> (Listed(m, roles, key) <==> AdmittedAs(m, roles, Full(key), key))
    ensures !InSystem(key) ==> (Listed(m, roles, key) <==> AdmittedAs(m, roles, Bare(key.name), key))
    ensures AdmittedAs(m, roles, Bare(key.name), key) ==> Listed(m, roles, key)
    ensures Listed(m, roles, key) && key.database != "" ==> AdmittedAs(m, roles, Full(key), key)
  {
    if b, c :| b in m.index && c in m.index[b] && c.key == key {
      ListedIsShown(m, roles, b, c);
      if key.database != "" {
        FullIsAdmitted(m, roles, b, c);
      }
    } else {
      assert !Listed(m, roles, key);
    }
    if AdmittedAs(m, roles, Bare(key.name), key) {
      BareIsListed(m, roles, key.name, key.kind);
    }
  }

  // A member stored in one case and removed in another, whatever its names.
  ghost predicate TwoCases(stored: FunctionKey, typed: FunctionKey) {
    Serialize(stored) == Serialize(typed) && Lowered(stored) == stored && Lowered(typed) == typed && stored != typed
  }

  lemma PrunedInEachCase(stored: FunctionKey, typed: FunctionKey)
    requires TwoCases(stored, typed)
    ensures Pruned(map[], [Candidate(stored, [])], stored) == []
    ensures Pruned(map[], [Candidate(stored, [])], typed) == [Candidate(stored, [])]
  {
    var bare := [Candidate(stored, [])];
    FilterNone(bare, (x: Candidate) => !(x.categories == [] && x.key == stored && !NameGranted(map[], x.key)));
    FilterAll(bare, (x: Candidate) => !(x.categories == [] && x.key == typed && !NameGranted(map[], x.key)));
  }

  lemma RemovedInEachCase(category: string, stored: FunctionKey, typed: FunctionKey)
    requires TwoCases(stored, typed)
    ensures var m := MemberAdded(EMPTY, category, stored);
            && MemberRemoved(m, category, typed) == m.(index := map[BucketOf(stored) := [Candidate(stored, [])]])
            && MemberRemoved(m, category, stored) == m.(index := map[])
  {
    var m := MemberAdded(EMPTY, category, stored);
    var c := Candidate(stored, [category]);
    assert [] + [c] == [c];
    assert m.index == map[BucketOf(stored) := [c]];
    assert InCategory(c, category) by {
      assert SameName(c.categories[0], category);
    }
    assert WithoutCategory([category], category) == [] by {
      FilterNone([category], (x: string) => !SameName(x, category));
    }
    AtIs([c], stored, 0);
    AtIs([c], typed, 0);
    assert [c][0 := Candidate(stored, [])] == [Candidate(stored, [])];
    PrunedInEachCase(stored, typed);
    RemovedAt(m, category, stored, [c], 0, []);
    RemovedAt(m, category, typed, [c], 0, []);
  }

  lemma CorpIsTwoCases()
    ensures TwoCases(FunctionKey("Corp", "main", "f", ScalarKind), FunctionKey("corp", "main", "f", ScalarKind))
  {
    assert Fold("Corp") == "corp" == Fold("corp") && Fold("f") == "f";
  }

  lemma NoRulesNoVerdict(c: Candidate)
    ensures Judged(map[], [], c).verdict == NotGranted && Judged(map[], [], c).key == c.key
  {
    VerdictMeaning(map[], [], c);
  }

  lemma OneCandidate(m: Model, kind: FunctionKind, name: string, c: Candidate)
    requires m.index == map[Bucket(kind, name) := [c]] && Fold(name) == name && !NeverInAnyCatalog(name)
    ensures Resolved(m, [], Bare(name), kind) == NeverByKey(Judged(m.rules, [], c))
  {
    var cs := m.index[Bucket(kind, name)];
    assert BestOf(cs) == c && !Tied(cs);
  }

  // What a bare call of the name is told while its only candidate is an orphan.
  lemma ToldOfOrphan(m: Model, stored: FunctionKey)
    requires m.rules == map[] && Fold(stored.name) == stored.name
    requires forall database :: !NeverCallable(stored.name, database)
    requires m.index == map[BucketOf(stored) := [Candidate(stored, [])]]
    ensures !NoOrphan(m)
    ensures Resolved(m, [], Bare(stored.name), stored.kind).verdict == NotGranted
  {
    var c := Candidate(stored, []);
    assert c in m.index[BucketOf(stored)] && !Held(m.rules, c);
    OneCandidate(m, stored.kind, stored.name, c);
    NoRulesNoVerdict(c);
  }

  /** A removal that names its key in another case leaves a candidate nothing holds, and a call of the
      name is told it is not granted rather than that nobody categorized it. */
  lemma OrphanAnswersNotGranted(category: string)
    ensures var stored := FunctionKey("Corp", "main", "f", ScalarKind);
            var typed := FunctionKey("corp", "main", "f", ScalarKind);
            var m := MemberRemoved(MemberAdded(EMPTY, category, stored), category, typed);
            var exact := MemberRemoved(MemberAdded(EMPTY, category, stored), category, stored);
            && !NoOrphan(m) && NoOrphan(exact)
            && Resolved(m, [], Bare("f"), ScalarKind).verdict == NotGranted
            && Resolved(exact, [], Bare("f"), ScalarKind).verdict == Uncategorized
  {
    var stored := FunctionKey("Corp", "main", "f", ScalarKind);
    var typed := FunctionKey("corp", "main", "f", ScalarKind);
    CorpIsTwoCases();
    NotNever();
    RemovedInEachCase(category, stored, typed);
    assert Fold("f") == "f";
    ToldOfOrphan(MemberRemoved(MemberAdded(EMPTY, category, stored), category, typed), stored);
  }

  lemma NotANeverName()
    ensures "f" !in NEVER_NAMES
  {
    assert forall n :: n in NEVER_NAMES ==> |n| > 1;
  }

  lemma NotAScannersVerb()
    ensures forall i, j :: 0 <= i < |SCANNERS| && 0 <= j < |VERBS| ==> "f" != SCANNERS[i] + VERBS[j]
  {
    assert forall i :: 0 <= i < |SCANNERS| ==> |SCANNERS[i]| > 1;
  }

  lemma NotNever()
    ensures forall database :: !NeverCallable("f", database)
  {
    assert Fold("f") == "f";
    NotANeverName();
    NotAScannersVerb();
    assert forall i :: 0 <= i < |NEVER_PREFIXES| ==> |NEVER_PREFIXES[i]| > 1;
  }
}
