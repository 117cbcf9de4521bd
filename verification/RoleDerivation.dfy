/** The roles a client's token yields. */
module RoleDerivation {
  import opened Names
  import opened Sequences

  datatype Scope = ClientScope | IssuerScope

  /** A raw claim value mapped to a role, for one client or every client of an issuer. */
  datatype Mapping = Mapping(scope: Scope, scopeName: string, value: string, role: string)

  datatype RoleClient = RoleClient(name: string, issuer: string, rolesFrom: seq<string>, rolesConstant: seq<string>, unmappedAsRole: bool)

  datatype Roles = Roles(roles: seq<string>, dropped: seq<string>)

  /** One role asked for, and whether the client's own mapping asks. */
  datatype Ask = Ask(role: string, own: bool)

  predicate IsOwn(m: Mapping, c: RoleClient, raw: string) {
    m.scope.ClientScope? && SameName(m.scopeName, c.name) && m.value == raw
  }

  predicate IsIssuerWide(m: Mapping, c: RoleClient, raw: string) {
    m.scope.IssuerScope? && SameName(m.scopeName, c.issuer) && m.value == raw
  }

  /** Among the roles, in any case. */
  predicate Has(roles: seq<string>, role: string) {
    exists i :: 0 <= i < |roles| && SameName(roles[i], role)
  }

  function Added(out: Roles, ask: Ask, privileged: string -> bool): Roles {
    if Has(out.roles, ask.role) then out
    else if !ask.own && privileged(ask.role) then out.(dropped := out.dropped + [ask.role])
    else out.(roles := out.roles + [ask.role])
  }

  /** Roles added in the order asked. */
  function AddOnto(out: Roles, asks: seq<Ask>, privileged: string -> bool): Roles {
    if asks == [] then out else Added(AddOnto(out, asks[..|asks| - 1], privileged), asks[|asks| - 1], privileged)
  }

  function AddAll(asks: seq<Ask>, privileged: string -> bool): Roles {
    AddOnto(Roles([], []), asks, privileged)
  }

  lemma {:induction false} AddOntoConcat(out: Roles, a: seq<Ask>, b: seq<Ask>, privileged: string -> bool)
    ensures AddOnto(out, a + b, privileged) == AddOnto(AddOnto(out, a, privileged), b, privileged)
    decreases |b|
  {
    if b == [] {
      assert a + b == a;
    } else {
      var n := |b| - 1;
      assert (a + b)[..|a + b| - 1] == a + b[..n];
      AddOntoConcat(out, a, b[..n], privileged);
    }
  }

  function Mapped(mappings: seq<Mapping>, c: RoleClient, raw: string): seq<Ask> {
    if mappings == [] then [] else
    var n := |mappings| - 1;
    Mapped(mappings[..n], c, raw) +
    if IsOwn(mappings[n], c, raw) then [Ask(mappings[n].role, true)]
    else if IsIssuerWide(mappings[n], c, raw) then [Ask(mappings[n].role, false)]
    else []
  }

  function AskedBy(mappings: seq<Mapping>, c: RoleClient, raw: string, known: string -> bool): seq<Ask> {
    var mapped := Mapped(mappings, c, raw);
    if mapped == [] && c.unmappedAsRole && known(raw) then [Ask(raw, false)] else mapped
  }

  function AskedByAll(mappings: seq<Mapping>, c: RoleClient, raws: seq<string>, known: string -> bool): seq<Ask> {
    if raws == [] then [] else
    AskedByAll(mappings, c, raws[..|raws| - 1], known) + AskedBy(mappings, c, raws[|raws| - 1], known)
  }

  function Constants(roles: seq<string>): (asks: seq<Ask>)
    ensures |asks| == |roles|
  {
    seq(|roles|, i requires 0 <= i < |roles| => Ask(roles[i], false))
  }

  // The values of the client's claims, path by path.
  function Raws(claims: map<string, seq<string>>, paths: seq<string>): seq<string> {
    if paths == [] then [] else
    var n := |paths| - 1;
    Raws(claims, paths[..n]) + if paths[n] in claims then claims[paths[n]] else []
  }

  lemma AddOntoOne(out: Roles, asks: seq<Ask>, ask: Ask, privileged: string -> bool)
    ensures AddOnto(out, asks + [ask], privileged) == Added(AddOnto(out, asks, privileged), ask, privileged)
  {
    assert (asks + [ask])[..|asks|] == asks;
  }

  method CollectRaws(claims: map<string, seq<string>>, paths: seq<string>) returns (raws: seq<string>)
    ensures raws == Raws(claims, paths)
  {
    raws := [];
    for i := 0 to |paths|
      invariant raws == Raws(claims, paths[..i])
    {
      assert paths[..i + 1][..i] == paths[..i];
      if paths[i] in claims {
        raws := raws + claims[paths[i]];
      }
    }
    assert paths[..|paths|] == paths;
  }

  method AddFor(sofar: Roles, mappings: seq<Mapping>, c: RoleClient, raw: string,
                known: string -> bool, privileged: string -> bool) returns (out: Roles)
    ensures out == AddOnto(sofar, AskedBy(mappings, c, raw, known), privileged)
  {
    out := sofar;
    var matched := false;
    for k := 0 to |mappings|
      invariant matched <==> Mapped(mappings[..k], c, raw) != []
      invariant out == AddOnto(sofar, Mapped(mappings[..k], c, raw), privileged)
    {
      assert mappings[..k + 1][..k] == mappings[..k];
      var m := mappings[k];
      if IsOwn(m, c, raw) || IsIssuerWide(m, c, raw) {
        AddOntoOne(sofar, Mapped(mappings[..k], c, raw), Ask(m.role, IsOwn(m, c, raw)), privileged);
        out := Added(out, Ask(m.role, IsOwn(m, c, raw)), privileged);
        matched := true;
      } else {
        assert Mapped(mappings[..k + 1], c, raw) == Mapped(mappings[..k], c, raw);
      }
    }
    assert mappings[..|mappings|] == mappings;
    if !matched && c.unmappedAsRole && known(raw) {
      AddOntoOne(sofar, [], Ask(raw, false), privileged);
      assert [] + [Ask(raw, false)] == [Ask(raw, false)];
      out := Added(out, Ask(raw, false), privileged);
    }
  }

  method AddValues(mappings: seq<Mapping>, c: RoleClient, raws: seq<string>,
                   known: string -> bool, privileged: string -> bool) returns (out: Roles)
    ensures out == AddAll(AskedByAll(mappings, c, raws, known), privileged)
  {
    out := Roles([], []);
    for i := 0 to |raws|
      invariant out == AddAll(AskedByAll(mappings, c, raws[..i], known), privileged)
    {
      assert raws[..i + 1][..i] == raws[..i];
      AddOntoConcat(Roles([], []), AskedByAll(mappings, c, raws[..i], known), AskedBy(mappings, c, raws[i], known), privileged);
      out := AddFor(out, mappings, c, raws[i], known, privileged);
    }
    assert raws[..|raws|] == raws;
  }

  /** The derivation: value by value and mapping by mapping, then the constants. */
  method RolesFor(mappings: seq<Mapping>, c: RoleClient, claims: map<string, seq<string>>,
                  known: string -> bool, privileged: string -> bool) returns (out: Roles)
    ensures out == AddAll(AskedByAll(mappings, c, Raws(claims, c.rolesFrom), known) + Constants(c.rolesConstant), privileged)
  {
    var raws := CollectRaws(claims, c.rolesFrom);
    out := AddValues(mappings, c, raws, known, privileged);
    ghost var valued := out;
    ghost var asks := Constants(c.rolesConstant);
    for i := 0 to |c.rolesConstant|
      invariant out == AddOnto(valued, asks[..i], privileged)
    {
      AddOntoOne(valued, asks[..i], asks[i], privileged);
      assert asks[..i + 1] == asks[..i] + [asks[i]];
      out := Added(out, Ask(c.rolesConstant[i], false), privileged);
    }
    assert asks[..|asks|] == asks;
    AddOntoConcat(Roles([], []), AskedByAll(mappings, c, raws, known), asks, privileged);
  }

  // ---------------------------------------------------------------------------------------------
  // What the roles are.

  /** The values of the claims a client takes roles from. */
  function ClaimedValues(claims: map<string, seq<string>>, paths: seq<string>): set<string> {
    set p, raw | p in paths && p in claims && raw in claims[p] :: raw
  }

  /** Some mapping - the client's own, or one for its issuer - maps the value to the role. */
  ghost predicate Maps(mappings: seq<Mapping>, c: RoleClient, raw: string, ask: Ask) {
    exists m :: m in mappings && m.role == ask.role && if ask.own then IsOwn(m, c, raw) else IsIssuerWide(m, c, raw)
  }

  ghost predicate IsMapped(mappings: seq<Mapping>, c: RoleClient, raw: string) {
    exists m :: m in mappings && (IsOwn(m, c, raw) || IsIssuerWide(m, c, raw))
  }

  ghost predicate AsItself(mappings: seq<Mapping>, c: RoleClient, raw: string, known: string -> bool) {
    c.unmappedAsRole && known(raw) && !IsMapped(mappings, c, raw)
  }

  ghost predicate ByOwnMapping(mappings: seq<Mapping>, c: RoleClient, claimed: set<string>, role: string) {
    exists raw :: raw in claimed && Maps(mappings, c, raw, Ask(role, true))
  }

  ghost predicate ByIssuerMapping(mappings: seq<Mapping>, c: RoleClient, claimed: set<string>, role: string) {
    exists raw :: raw in claimed && Maps(mappings, c, raw, Ask(role, false))
  }

  /** How a role is reached from the values claimed: by the client's own mapping, or - unless it is
      privileged - by a mapping for the whole issuer, as an unmapped value that names a known role, or as a
      constant. */
  ghost predicate Reached(mappings: seq<Mapping>, c: RoleClient, claimed: set<string>,
                          known: string -> bool, privileged: string -> bool, role: string) {
    || ByOwnMapping(mappings, c, claimed, role)
    || (!privileged(role) && (ByIssuerMapping(mappings, c, claimed, role)
                              || (role in claimed && AsItself(mappings, c, role, known))
                              || role in c.rolesConstant))
  }

  lemma {:induction false} MappedHas(mappings: seq<Mapping>, c: RoleClient, raw: string, ask: Ask)
    ensures ask in Mapped(mappings, c, raw) <==> Maps(mappings, c, raw, ask)
  {
    if mappings != [] {
      var n := |mappings| - 1;
      MappedHas(mappings[..n], c, raw, ask);
      assert mappings == mappings[..n] + [mappings[n]];
      assert Maps(mappings, c, raw, ask) <==> Maps(mappings[..n], c, raw, ask) || Maps([mappings[n]], c, raw, ask) by {
        assert mappings[n] in [mappings[n]];
      }
    }
  }

  lemma {:induction false} MappedEmpty(mappings: seq<Mapping>, c: RoleClient, raw: string)
    ensures Mapped(mappings, c, raw) == [] <==> !IsMapped(mappings, c, raw)
  {
    if mappings != [] {
      var n := |mappings| - 1;
      MappedEmpty(mappings[..n], c, raw);
      assert mappings == mappings[..n] + [mappings[n]];
    }
  }

  // The value asks for the role: mapped to it, or - unmapped - as itself.
  ghost predicate AsksFor(mappings: seq<Mapping>, c: RoleClient, raw: string, known: string -> bool, ask: Ask) {
    Maps(mappings, c, raw, ask) || (ask == Ask(raw, false) && AsItself(mappings, c, raw, known))
  }

  lemma AskedByOne(mappings: seq<Mapping>, c: RoleClient, raw: string, known: string -> bool, ask: Ask)
    ensures ask in AskedBy(mappings, c, raw, known) <==> AsksFor(mappings, c, raw, known, ask)
  {
    MappedHas(mappings, c, raw, ask);
    MappedEmpty(mappings, c, raw);
  }

  ghost predicate SomeAsks(mappings: seq<Mapping>, c: RoleClient, raws: seq<string>, known: string -> bool, ask: Ask) {
    exists raw :: raw in raws && AsksFor(mappings, c, raw, known, ask)
  }

  lemma OneMoreAsks(mappings: seq<Mapping>, c: RoleClient, raws: seq<string>, last: string, known: string -> bool, ask: Ask)
    ensures SomeAsks(mappings, c, raws + [last], known, ask) <==>
              SomeAsks(mappings, c, raws, known, ask) || AsksFor(mappings, c, last, known, ask)
  {
    assert forall raw :: raw in raws + [last] <==> raw in raws || raw == last;
  }

  lemma {:induction false} AskedMeaning(mappings: seq<Mapping>, c: RoleClient, raws: seq<string>, known: string -> bool, ask: Ask)
    ensures ask in AskedByAll(mappings, c, raws, known) <==> SomeAsks(mappings, c, raws, known, ask)
  {
    if raws != [] {
      var rest, last := raws[..|raws| - 1], raws[|raws| - 1];
      assert raws == rest + [last];
      OneMoreAsks(mappings, c, rest, last, known, ask);
      AskedMeaning(mappings, c, rest, known, ask);
      AskedByOne(mappings, c, last, known, ask);
    }
  }

  lemma {:induction false} AddAllMeaning(asks: seq<Ask>, privileged: string -> bool)
    ensures DistinctBy(AddAll(asks, privileged).roles, Fold)
    ensures forall r :: r in AddAll(asks, privileged).roles ==> Ask(r, true) in asks || (Ask(r, false) in asks && !privileged(r))
    ensures forall r :: Ask(r, true) in asks || (Ask(r, false) in asks && !privileged(r)) ==> Has(AddAll(asks, privileged).roles, r)
    ensures forall r :: r in AddAll(asks, privileged).dropped ==> Ask(r, false) in asks && privileged(r)
  {
    if asks != [] {
      var n := |asks| - 1;
      AddAllMeaning(asks[..n], privileged);
      assert asks == asks[..n] + [asks[n]];
      var before := AddAll(asks[..n], privileged);
      forall r | Has(before.roles, r) ensures Has(AddAll(asks, privileged).roles, r) {
        var i :| 0 <= i < |before.roles| && SameName(before.roles[i], r);
        assert AddAll(asks, privileged).roles[i] == before.roles[i];
      }
      assert before.roles + [asks[n].role] == AddAll(asks, privileged).roles ==>
               SameName(AddAll(asks, privileged).roles[|before.roles|], asks[n].role);
    }
  }

  lemma {:induction false} RawsMeaning(claims: map<string, seq<string>>, paths: seq<string>)
    ensures forall raw :: raw in Raws(claims, paths) <==> raw in ClaimedValues(claims, paths)
  {
    if paths != [] {
      var n := |paths| - 1;
      RawsMeaning(claims, paths[..n]);
      assert paths == paths[..n] + [paths[n]];
      assert ClaimedValues(claims, paths)
          == ClaimedValues(claims, paths[..n]) + (if paths[n] in claims then set raw | raw in claims[paths[n]] else {});
    }
  }

  lemma ConstantsMeaning(roles: seq<string>, role: string)
    ensures Ask(role, false) in Constants(roles) <==> role in roles
    ensures Ask(role, true) !in Constants(roles)
  {
    if role in roles {
      var i :| 0 <= i < |roles| && roles[i] == role;
      assert Constants(roles)[i] == Ask(role, false);
    }
  }

  // Who asks for a role, over the claims.
  lemma AsksMeaning(mappings: seq<Mapping>, c: RoleClient, claims: map<string, seq<string>>, known: string -> bool, role: string)
    ensures var asks := AskedByAll(mappings, c, Raws(claims, c.rolesFrom), known) + Constants(c.rolesConstant);
            var claimed := ClaimedValues(claims, c.rolesFrom);
            && (Ask(role, true) in asks <==> ByOwnMapping(mappings, c, claimed, role))
            && (Ask(role, false) in asks <==>
                  || ByIssuerMapping(mappings, c, claimed, role)
                  || (role in claimed && AsItself(mappings, c, role, known))
                  || role in c.rolesConstant)
  {
    RawsMeaning(claims, c.rolesFrom);
    ConstantsMeaning(c.rolesConstant, role);
    AskedMeaning(mappings, c, Raws(claims, c.rolesFrom), known, Ask(role, true));
    AskedMeaning(mappings, c, Raws(claims, c.rolesFrom), known, Ask(role, false));
  }

  // The ask adds its role if nothing before did: it may ask for a privileged one only by own mapping.
  predicate Adds(ask: Ask, privileged: string -> bool) {
    ask.own || !privileged(ask.role)
  }

  /** Where a role comes from: the first ask that may add it, and is spelled as that ask spells it. */
  ghost predicate FirstAsk(asks: seq<Ask>, privileged: string -> bool, role: string, k: nat) {
    && k < |asks| && asks[k].role == role && Adds(asks[k], privileged)
    && forall j :: 0 <= j < k ==> !(Adds(asks[j], privileged) && SameName(asks[j].role, role))
  }

  ghost predicate InOrder(asks: seq<Ask>, privileged: string -> bool, roles: seq<string>, at: seq<nat>) {
    && |at| == |roles|
    && (forall i :: 0 <= i < |roles| ==> FirstAsk(asks, privileged, roles[i], at[i]))
    && (forall i, j :: 0 <= i < j < |at| ==> at[i] < at[j])
  }

  lemma FirstAskStays(asks: seq<Ask>, more: Ask, privileged: string -> bool, role: string, k: nat)
    requires FirstAsk(asks, privileged, role, k)
    ensures FirstAsk(asks + [more], privileged, role, k)
  {
  }

  /** The roles are in the order they were first asked for, each spelled as it was then. */
  lemma {:induction false} RolesInOrder(asks: seq<Ask>, privileged: string -> bool) returns (at: seq<nat>)
    ensures InOrder(asks, privileged, AddAll(asks, privileged).roles, at)
  {
    if asks == [] {
      at := [];
    } else {
      var n := |asks| - 1;
      var rest, last := asks[..n], asks[n];
      assert asks == rest + [last];
      at := RolesInOrder(rest, privileged);
      var before := AddAll(rest, privileged);
      forall i | 0 <= i < |before.roles| ensures FirstAsk(asks, privileged, before.roles[i], at[i]) {
        FirstAskStays(rest, last, privileged, before.roles[i], at[i]);
      }
      if !Has(before.roles, last.role) && Adds(last, privileged) {
        NotAskedBefore(rest, privileged, last.role);
        at := at + [n];
      }
    }
  }

  lemma HasInAnyCase(roles: seq<string>, a: string, b: string)
    ensures SameName(a, b) ==> (Has(roles, a) <==> Has(roles, b))
  {
  }

  lemma NotAskedBefore(asks: seq<Ask>, privileged: string -> bool, role: string)
    requires !Has(AddAll(asks, privileged).roles, role)
    ensures forall j :: 0 <= j < |asks| ==> !(Adds(asks[j], privileged) && SameName(asks[j].role, role))
  {
    AddAllMeaning(asks, privileged);
    forall j | 0 <= j < |asks| ensures !(Adds(asks[j], privileged) && SameName(asks[j].role, role)) {
      assert asks[j] in asks && asks[j] == Ask(asks[j].role, asks[j].own);
      HasInAnyCase(AddAll(asks, privileged).roles, asks[j].role, role);
    }
  }

  /** From the claims to the roles: they are duplicate-free in any case, each is reached, and every role
      reached is among them in some case. A privileged one is there only through the client's own mapping. */
  lemma RolesAreThoseReached(mappings: seq<Mapping>, c: RoleClient, claims: map<string, seq<string>>,
                             known: string -> bool, privileged: string -> bool)
    ensures var claimed := ClaimedValues(claims, c.rolesFrom);
            var out := AddAll(AskedByAll(mappings, c, Raws(claims, c.rolesFrom), known) + Constants(c.rolesConstant), privileged);
            && DistinctBy(out.roles, Fold)
            && (forall r :: r in out.roles ==> Reached(mappings, c, claimed, known, privileged, r))
            && (forall r :: Reached(mappings, c, claimed, known, privileged, r) ==> Has(out.roles, r))
            && (forall r :: r in out.roles && privileged(r) ==> ByOwnMapping(mappings, c, claimed, r))
            && (forall r :: r in out.dropped ==> privileged(r))
  {
    forall role {
      AsksMeaning(mappings, c, claims, known, role);
    }
    AddAllMeaning(AskedByAll(mappings, c, Raws(claims, c.rolesFrom), known) + Constants(c.rolesConstant), privileged);
  }
}
