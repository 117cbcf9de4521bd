/** Which client of an issuer a token is for: what a client accepts, how specific it is, and the check at
    write time that no two clients would accept the same tokens. */
module Routing {
  import opened Names
  import opened PolicyRows
  import opened Like

  datatype ConditionOp = Equals | OneOf | Contains | LikeOp

  datatype Condition = Condition(path: string, op: ConditionOp, values: seq<string>)

  /** A client; its audiences are on it or in its secret. */
  datatype Client = Client(
    name: string, issuer: string, audiences: seq<string>, secretAudiences: seq<string>, azp: seq<string>,
    conditions: seq<Condition>, tokenType: string, implicit: bool)

  /** A verified token: its audiences, authorized party, header type, and claims as texts by path. */
  datatype Token = Token(audiences: seq<string>, party: string, typ: string, claims: map<string, seq<string>>)

  datatype Refusal = Audience | Party | Unmet(path: string) | TokenType

  function AudiencesOf(c: Client): seq<string> {
    if c.secretAudiences != [] then c.secretAudiences else c.audiences
  }

  predicate Intersects(a: seq<string>, b: seq<string>) {
    exists i :: 0 <= i < |a| && a[i] in b
  }

  function Strings(token: Token, path: string): seq<string> {
    if path in token.claims then token.claims[path] else []
  }

  // A stored condition carries a value.
  predicate WellFormed(c: Client) {
    forall i :: 0 <= i < |c.conditions| ==> |c.conditions[i].values| > 0
  }

  predicate Holds(condition: Condition, values: seq<string>)
    requires |condition.values| > 0
  {
    match condition.op
    case Equals => |values| == 1 && values[0] == condition.values[0]
    case OneOf => |values| == 1 && values[0] in condition.values
    case Contains => condition.values[0] in values
    case LikeOp => |values| == 1 && Meets(values[0], 0, condition.values[0], 0)
  }

  /** The conditions beside one another: a claim equals a value when that is its only one; one of several
      holds when one of them is equalled; a pattern without wildcards is equalled; and a claim contains
      every value it equals, and only values it has. */
  lemma ConditionsCompared(path: string, values: seq<string>, v: string, others: seq<string>)
    requires others != []
    ensures Holds(Condition(path, Equals, [v]), values) <==> values == [v]
    ensures Holds(Condition(path, OneOf, others), values) <==> exists o :: o in others && Holds(Condition(path, Equals, [o]), values)
    ensures Holds(Condition(path, Contains, [v]), values) <==> exists i :: 0 <= i < |values| && values[i] == v
    ensures (forall q :: 0 <= q < |v| ==> v[q] != '%' && v[q] != '_') ==>
              (Holds(Condition(path, LikeOp, [v]), values) <==> Holds(Condition(path, Equals, [v]), values))
  {
    forall o ensures Holds(Condition(path, Equals, [o]), values) <==> values == [o] {
    }
    if |values| == 1 && forall q :: 0 <= q < |v| ==> v[q] != '%' && v[q] != '_' {
      PlainPattern(values[0], 0, v, 0);
      assert values[0][0..] == values[0] && v[0..] == v;
    }
  }

  const MEDIA_PREFIX := "application/"

  // A header may spell the type with the media type's prefix.
  function PlainType(typ: string): string {
    var t := Fold(typ);
    if MEDIA_PREFIX <= t then t[12..] else t
  }

  /** A type spelled with the media type's prefix, in any case, is the type without it. */
  lemma PrefixedTypeIsPlain(prefix: string, typ: string)
    requires SameName(prefix, MEDIA_PREFIX)
    ensures PlainType(prefix + typ) == Fold(typ)
    ensures !SameName(if |typ| >= |prefix| then typ[..|prefix|] else "", prefix) ==> PlainType(typ) == Fold(typ)
  {
    assert |MEDIA_PREFIX| == 12 && Fold(MEDIA_PREFIX) == MEDIA_PREFIX;
    assert |Fold(prefix)| == |prefix| && |Fold(MEDIA_PREFIX)| == |MEDIA_PREFIX|;
    assert Fold(prefix + typ) == Fold(prefix) + Fold(typ);
    if |typ| >= |prefix| {
      assert Fold(typ[..|prefix|]) == Fold(typ)[..|prefix|];
    }
  }

  predicate TypeFits(c: Client, token: Token) {
    c.tokenType == "" || PlainType(token.typ) == PlainType(c.tokenType)
  }

  /** The client accepts the token: an audience it takes, an authorized party it names - when it names
      any -, every condition, and its token type. */
  predicate Accepts(c: Client, token: Token)
    requires WellFormed(c)
  {
    && Intersects(token.audiences, AudiencesOf(c))
    && (c.azp != [] ==> token.party in c.azp)
    && (forall i :: 0 <= i < |c.conditions| ==> Holds(c.conditions[i], Strings(token, c.conditions[i].path)))
    && TypeFits(c, token)
  }

  method HoldsNow(condition: Condition, values: seq<string>) returns (holds: bool)
    requires |condition.values| > 0
    ensures holds <==> Holds(condition, values)
  {
    match condition.op
    case Equals => holds := |values| == 1 && values[0] == condition.values[0];
    case OneOf => holds := |values| == 1 && values[0] in condition.values;
    case Contains => holds := condition.values[0] in values;
    case LikeOp =>
      holds := false;
      if |values| == 1 {
        ghost var rounds;
        holds, rounds := LikeMatches(values[0], condition.values[0]);
      }
  }

  /** The acceptance test with the reason it gives: the first that fails. */
  method ClientAccepts(c: Client, token: Token) returns (why: Option<Refusal>)
    requires WellFormed(c)
    ensures why.None? <==> Accepts(c, token)
    ensures why == Some(Audience) <==> !Intersects(token.audiences, AudiencesOf(c))
    ensures why == Some(Party) <==> Intersects(token.audiences, AudiencesOf(c)) && c.azp != [] && token.party !in c.azp
    ensures why == Some(TokenType) ==> Accepts(c.(tokenType := ""), token)
    ensures why.Some? && why.value.Unmet? ==>
              exists i :: 0 <= i < |c.conditions| && c.conditions[i].path == why.value.path
                          && !Holds(c.conditions[i], Strings(token, c.conditions[i].path))
  {
    var accepted := AudiencesOf(c);
    if accepted == [] || !Intersects(token.audiences, accepted) {
      return Some(Audience);
    }
    if c.azp != [] && token.party !in c.azp {
      return Some(Party);
    }
    for i := 0 to |c.conditions|
      invariant forall j :: 0 <= j < i ==> Holds(c.conditions[j], Strings(token, c.conditions[j].path))
    {
      var holds := HoldsNow(c.conditions[i], Strings(token, c.conditions[i].path));
      if !holds {
        return Some(Unmet(c.conditions[i].path));
      }
    }
    if c.tokenType != "" && PlainType(token.typ) != PlainType(c.tokenType) {
      return Some(TokenType);
    }
    why := None;
  }

  function Specificity(c: Client): nat {
    if c.azp != [] || c.conditions != [] then 2 else if c.implicit then 0 else 1
  }

  /** The client names the parties or the conditions of its tokens. */
  predicate Demands(c: Client) {
    c.azp != [] || c.conditions != []
  }

  /** What takes a token before what: a client that makes demands before one that makes none, and among
      those one written down before one the issuer implies. */
  predicate ComesBefore(a: Client, b: Client) {
    (Demands(a) && !Demands(b)) || (!Demands(a) && !Demands(b) && !a.implicit && b.implicit)
  }

  lemma SpecificityOrder(a: Client, b: Client)
    ensures Specificity(a) > Specificity(b) <==> ComesBefore(a, b)
  {
  }

  ghost predicate Highest(specificities: seq<nat>, i: nat) {
    i < |specificities| && forall k :: 0 <= k < |specificities| ==> specificities[k] <= specificities[i]
  }

  /** Picks the highest; ambiguous when it occurs twice. */
  method PickClient(specificities: seq<nat>) returns (best: Option<nat>, ambiguous: bool)
    ensures best.Some? ==> Highest(specificities, best.value)
    ensures best.Some? ==> forall i :: 0 <= i < |specificities| && i != best.value ==> !Highest(specificities, i)
    ensures ambiguous <==> exists i, j :: 0 <= i < j < |specificities| && Highest(specificities, i) && Highest(specificities, j)
    ensures best.None? <==> ambiguous || specificities == []
  {
    ambiguous := false;
    var at := 0;
    ghost var other := 0;
    for i := 0 to |specificities|
      invariant i > 0 ==> at < i && forall k :: 0 <= k < i ==> specificities[k] <= specificities[at]
      invariant i == 0 ==> !ambiguous
      invariant ambiguous ==> at < other < i && specificities[other] == specificities[at]
      invariant !ambiguous ==> forall k :: 0 <= k < i && k != at ==> specificities[k] < specificities[at]
    {
      if i == 0 || specificities[i] > specificities[at] {
        at, ambiguous := i, false;
      } else if specificities[i] == specificities[at] {
        ambiguous, other := true, i;
      }
    }
    assert specificities != [] ==> Highest(specificities, at);
    assert ambiguous ==> Highest(specificities, other);
    best := if ambiguous || specificities == [] then None else Some(at);
  }

  datatype Route = NoClient(why: Option<Refusal>) | TooMany | To(client: Client)

  predicate Candidate(c: Client, issuer: string, token: Token)
    requires WellFormed(c)
  {
    SameName(c.issuer, issuer) && Accepts(c, token)
  }

  /** No client that accepts the token is more specific. */
  ghost predicate IsBest(clients: seq<Client>, issuer: string, token: Token, i: nat)
    requires forall k :: 0 <= k < |clients| ==> WellFormed(clients[k])
  {
    && i < |clients| && Candidate(clients[i], issuer, token)
    && forall j :: 0 <= j < |clients| && Candidate(clients[j], issuer, token) ==> Specificity(clients[j]) <= Specificity(clients[i])
  }

  ghost predicate IsOnlyBest(clients: seq<Client>, issuer: string, token: Token, i: nat)
    requires forall k :: 0 <= k < |clients| ==> WellFormed(clients[k])
  {
    IsBest(clients, issuer, token, i) && forall j :: j != i ==> !IsBest(clients, issuer, token, j)
  }

  /** The clients that accept the token, and where they are among all. */
  ghost predicate Gathered(clients: seq<Client>, n: nat, issuer: string, token: Token,
                           candidates: seq<Client>, specificities: seq<nat>, at: seq<nat>)
    requires n <= |clients| && forall k :: 0 <= k < |clients| ==> WellFormed(clients[k])
  {
    && |candidates| == |specificities| == |at|
    && (forall k :: 0 <= k < |at| ==> at[k] < n && clients[at[k]] == candidates[k] && Candidate(candidates[k], issuer, token)
                                      && specificities[k] == Specificity(candidates[k]))
    && (forall k, l :: 0 <= k < l < |at| ==> at[k] < at[l])
    && (forall j :: 0 <= j < n && Candidate(clients[j], issuer, token) ==> j in at)
  }

  predicate TurnsAway(c: Client, issuer: string, token: Token)
    requires WellFormed(c)
  {
    SameName(c.issuer, issuer) && !Accepts(c, token)
  }

  predicate MeantFor(c: Client, token: Token) {
    Intersects(token.audiences, AudiencesOf(c))
  }

  /** The reason kept among the refusals of the issuer's first `n` clients: that of a client the token was
      meant for, past its audience, when there is one. */
  ghost predicate WorthReading(clients: seq<Client>, n: nat, issuer: string, token: Token, refusal: Option<Refusal>)
    requires n <= |clients| && forall k :: 0 <= k < |clients| ==> WellFormed(clients[k])
  {
    && (refusal.None? <==> forall k :: 0 <= k < n ==> !TurnsAway(clients[k], issuer, token))
    && (refusal == Some(Audience) <==>
          && (exists k :: 0 <= k < n && TurnsAway(clients[k], issuer, token))
          && (forall k :: 0 <= k < n && TurnsAway(clients[k], issuer, token) ==> !MeantFor(clients[k], token)))
  }

  lemma WorthReadingNext(clients: seq<Client>, n: nat, issuer: string, token: Token, refusal: Option<Refusal>, why: Option<Refusal>)
    requires n < |clients| && forall k :: 0 <= k < |clients| ==> WellFormed(clients[k])
    requires WorthReading(clients, n, issuer, token, refusal)
    requires why.None? <==> !TurnsAway(clients[n], issuer, token)
    requires why.Some? ==> (why == Some(Audience) <==> !MeantFor(clients[n], token))
    ensures WorthReading(clients, n + 1, issuer, token,
                         if why.Some? && (refusal.None? || (refusal == Some(Audience) && why != refusal)) then why else refusal)
  {
    if why.Some? {
      assert TurnsAway(clients[n], issuer, token);
    }
  }

  lemma GatheredNext(clients: seq<Client>, n: nat, issuer: string, token: Token,
                     candidates: seq<Client>, specificities: seq<nat>, at: seq<nat>)
    requires n < |clients| && forall k :: 0 <= k < |clients| ==> WellFormed(clients[k])
    requires Gathered(clients, n, issuer, token, candidates, specificities, at)
    ensures Candidate(clients[n], issuer, token) ==>
              Gathered(clients, n + 1, issuer, token, candidates + [clients[n]], specificities + [Specificity(clients[n])], at + [n])
    ensures !Candidate(clients[n], issuer, token) ==> Gathered(clients, n + 1, issuer, token, candidates, specificities, at)
  {
  }

  method Consider(c: Client, issuer: string, token: Token) returns (taken: bool, why: Option<Refusal>)
    requires WellFormed(c)
    ensures taken <==> Candidate(c, issuer, token)
    ensures why.Some? <==> TurnsAway(c, issuer, token)
    ensures why.Some? ==> (why == Some(Audience) <==> !MeantFor(c, token))
  {
    taken, why := false, None;
    if SameName(c.issuer, issuer) {
      why := ClientAccepts(c, token);
      taken := why.None?;
    }
  }

  method Gather(clients: seq<Client>, issuer: string, token: Token)
    returns (candidates: seq<Client>, specificities: seq<nat>, refusal: Option<Refusal>, ghost at: seq<nat>)
    requires forall i :: 0 <= i < |clients| ==> WellFormed(clients[i])
    ensures Gathered(clients, |clients|, issuer, token, candidates, specificities, at)
    ensures WorthReading(clients, |clients|, issuer, token, refusal)
  {
    candidates, specificities, refusal, at := [], [], None, [];
    for i := 0 to |clients|
      invariant Gathered(clients, i, issuer, token, candidates, specificities, at)
      invariant WorthReading(clients, i, issuer, token, refusal)
    {
      var taken, why := Consider(clients[i], issuer, token);
      GatheredNext(clients, i, issuer, token, candidates, specificities, at);
      WorthReadingNext(clients, i, issuer, token, refusal, why);
      if taken {
        candidates := candidates + [clients[i]];
        specificities := specificities + [Specificity(clients[i])];
        at := at + [i];
      } else if why.Some? && (refusal.None? || (refusal == Some(Audience) && why != refusal)) {
        refusal := why;
      }
    }
  }

  // The highest of the gathered specificities is the best of the clients.
  lemma HighestIsBest(clients: seq<Client>, issuer: string, token: Token,
                      candidates: seq<Client>, specificities: seq<nat>, at: seq<nat>)
    requires forall i :: 0 <= i < |clients| ==> WellFormed(clients[i])
    requires Gathered(clients, |clients|, issuer, token, candidates, specificities, at)
    ensures forall k: nat :: Highest(specificities, k) ==> IsBest(clients, issuer, token, at[k])
    ensures forall j: nat :: IsBest(clients, issuer, token, j) ==> exists k: nat :: Highest(specificities, k) && at[k] == j
  {
    forall k: nat | Highest(specificities, k) ensures IsBest(clients, issuer, token, at[k]) {
      forall j | 0 <= j < |clients| && Candidate(clients[j], issuer, token) ensures Specificity(clients[j]) <= specificities[k] {
        var l :| 0 <= l < |at| && at[l] == j;
        assert specificities[l] <= specificities[k];
      }
    }
    forall j: nat | IsBest(clients, issuer, token, j) ensures exists k: nat :: Highest(specificities, k) && at[k] == j {
      var k :| 0 <= k < |at| && at[k] == j;
      assert Highest(specificities, k) by {
        forall l | 0 <= l < |specificities| ensures specificities[l] <= specificities[k] {
          assert Candidate(clients[at[l]], issuer, token);
        }
      }
    }
  }

  /** The client accepts the token and comes before every other that does. */
  ghost predicate BeforeAllOthers(clients: seq<Client>, issuer: string, token: Token, i: nat)
    requires forall k :: 0 <= k < |clients| ==> WellFormed(clients[k])
  {
    && i < |clients| && Candidate(clients[i], issuer, token)
    && forall j :: 0 <= j < |clients| && j != i && Candidate(clients[j], issuer, token) ==> ComesBefore(clients[i], clients[j])
  }

  // The only most specific client is the one before all others.
  lemma OnlyBestIsBefore(clients: seq<Client>, issuer: string, token: Token, i: nat)
    requires forall k :: 0 <= k < |clients| ==> WellFormed(clients[k])
    ensures IsOnlyBest(clients, issuer, token, i) <==> BeforeAllOthers(clients, issuer, token, i)
  {
    forall a, b ensures Specificity(a) > Specificity(b) <==> ComesBefore(a, b) {
      SpecificityOrder(a, b);
    }
    if IsOnlyBest(clients, issuer, token, i) {
      forall j | 0 <= j < |clients| && j != i && Candidate(clients[j], issuer, token) ensures ComesBefore(clients[i], clients[j]) {
        assert !IsBest(clients, issuer, token, j);
      }
    }
    if BeforeAllOthers(clients, issuer, token, i) {
      assert forall j: nat :: j != i && IsBest(clients, issuer, token, j) ==> !ComesBefore(clients[i], clients[j]);
    }
  }

  // What was decided, in the clients' own fields.
  lemma RoutedByFields(clients: seq<Client>, issuer: string, token: Token)
    requires forall k :: 0 <= k < |clients| ==> WellFormed(clients[k])
    ensures forall i: nat :: IsOnlyBest(clients, issuer, token, i) <==> BeforeAllOthers(clients, issuer, token, i)
  {
    forall i: nat ensures IsOnlyBest(clients, issuer, token, i) <==> BeforeAllOthers(clients, issuer, token, i) {
      OnlyBestIsBefore(clients, issuer, token, i);
    }
  }

  /** A token goes to the client of its issuer that accepts it and is more specific than any other that
      does - one that names parties or conditions before one that does not, one written down before an
      implied one; to none when nobody accepts it, or when the most specific are several. */
  method RouteToken(clients: seq<Client>, issuer: string, token: Token) returns (route: Route)
    requires forall i :: 0 <= i < |clients| ==> WellFormed(clients[i])
    ensures route.NoClient? <==> forall i :: 0 <= i < |clients| ==> !Candidate(clients[i], issuer, token)
    ensures route.NoClient? ==> WorthReading(clients, |clients|, issuer, token, route.why)
    ensures route.To? ==> exists i: nat :: IsOnlyBest(clients, issuer, token, i) && route.client == clients[i]
    ensures route.TooMany? ==> exists i: nat, j: nat :: i < j && IsBest(clients, issuer, token, i) && IsBest(clients, issuer, token, j)
    ensures route.To? ==> exists i: nat :: BeforeAllOthers(clients, issuer, token, i) && route.client == clients[i]
    ensures route.TooMany? ==> forall i: nat :: !BeforeAllOthers(clients, issuer, token, i)
  {
    var candidates, specificities, refusal, at := Gather(clients, issuer, token);
    if candidates == [] {
      return NoClient(refusal);
    }
    assert Candidate(clients[at[0]], issuer, token);
    HighestIsBest(clients, issuer, token, candidates, specificities, at);
    RoutedByFields(clients, issuer, token);
    var best, ambiguous := PickClient(specificities);
    if best.None? {
      ghost var k, l :| 0 <= k < l < |specificities| && Highest(specificities, k) && Highest(specificities, l);
      assert at[k] < at[l];
      return TooMany;
    }
    route := To(candidates[best.value]);
    assert IsOnlyBest(clients, issuer, token, at[best.value]);
  }

  // ---------------------------------------------------------------------------------------------
  // The overlap check.

  /** What a write judges: everything, or the clients it touched. */
  datatype Judging = Everything | Touched(names: set<string>)

  predicate Judges(j: Judging, c: Client) {
    j.Everything? || Fold(c.name) in j.names
  }

  // A client the write did not touch is compared by what is written on it.
  function ComparedAudiences(j: Judging, c: Client): seq<string> {
    if Judges(j, c) then AudiencesOf(c) else c.audiences
  }

  /** Nothing but their audiences, as far as that shows at write time, tells the pair's tokens apart. */
  predicate AlikeButAudiences(a: Client, b: Client) {
    && SameName(a.issuer, b.issuer) && Specificity(a) == Specificity(b)
    && a.conditions == [] && b.conditions == []
    && ((a.azp == [] && b.azp == []) || Intersects(a.azp, b.azp))
  }

  /** The pair would accept the same tokens. */
  predicate Overlap(a: Client, b: Client, audiencesA: seq<string>, audiencesB: seq<string>) {
    AlikeButAudiences(a, b) && Intersects(audiencesA, audiencesB)
  }

  /** What overlap means: some token of one audience both clients would accept, their token types aside. */
  lemma OverlapMeaning(a: Client, b: Client)
    requires SameName(a.issuer, b.issuer) && Specificity(a) == Specificity(b) && a.conditions == [] && b.conditions == []
    ensures Overlap(a, b, AudiencesOf(a), AudiencesOf(b)) <==>
              exists token: Token :: OneAudience(token.audiences) && Accepts(a.(tokenType := ""), token) && Accepts(b.(tokenType := ""), token)
  {
    var anyA, anyB := a.(tokenType := ""), b.(tokenType := "");
    if Overlap(a, b, AudiencesOf(a), AudiencesOf(b)) {
      var i :| 0 <= i < |AudiencesOf(a)| && AudiencesOf(a)[i] in AudiencesOf(b);
      var party := if a.azp == [] then "" else SharedParty(a.azp, b.azp);
      var token := Token([AudiencesOf(a)[i]], party, "", map[]);
      assert token.audiences[0] in AudiencesOf(anyA) && token.audiences[0] in AudiencesOf(anyB);
      assert Accepts(anyA, token) && Accepts(anyB, token);
    }
    if token: Token :| OneAudience(token.audiences) && Accepts(anyA, token) && Accepts(anyB, token) {
      AcceptedTwiceOverlaps(anyA, anyB, a.issuer, token);
    }
  }

  function SharedParty(a: seq<string>, b: seq<string>): (p: string)
    requires Intersects(a, b)
    ensures p in a && p in b
  {
    if a[0] in b then a[0] else SharedParty(a[1..], b)
  }

  predicate Refused(j: Judging, a: Client, b: Client) {
    && (Judges(j, a) || Judges(j, b))
    && Overlap(a, b, ComparedAudiences(j, a), ComparedAudiences(j, b))
  }

  method OverlapCheck(clients: seq<Client>, j: Judging) returns (clash: Option<(nat, nat)>)
    ensures clash.None? <==> forall x, y :: 0 <= x < y < |clients| ==> !Refused(j, clients[x], clients[y])
    ensures clash.Some? ==> clash.value.0 < clash.value.1 < |clients| && Refused(j, clients[clash.value.0], clients[clash.value.1])
  {
    for x := 0 to |clients|
      invariant forall u, v :: 0 <= u < x && u < v < |clients| ==> !Refused(j, clients[u], clients[v])
    {
      for y := x + 1 to |clients|
        invariant forall u, v :: 0 <= u < x && u < v < |clients| ==> !Refused(j, clients[u], clients[v])
        invariant forall v :: x < v < y ==> !Refused(j, clients[x], clients[v])
      {
        var a, b := clients[x], clients[y];
        if !SameName(a.issuer, b.issuer) || Specificity(a) != Specificity(b) {
          continue;
        }
        if !Judges(j, a) && !Judges(j, b) {
          continue;
        }
        if !Intersects(ComparedAudiences(j, a), ComparedAudiences(j, b)) {
          continue;
        }
        if a.conditions != [] || b.conditions != [] {
          continue;
        }
        if (a.azp == [] && b.azp == []) || Intersects(a.azp, b.azp) {
          return Some((x, y));
        }
      }
    }
    clash := None;
  }

  /** No two clients overlap. */
  ghost predicate Apart(clients: seq<Client>) {
    forall x, y :: 0 <= x < y < |clients| ==> !Overlap(clients[x], clients[y], AudiencesOf(clients[x]), AudiencesOf(clients[y]))
  }

  /** A model a full check admits. */
  ghost predicate Validated(clients: seq<Client>) {
    forall x, y :: 0 <= x < y < |clients| ==> !Refused(Everything, clients[x], clients[y])
  }

  ghost predicate OneAudience(audiences: seq<string>) {
    forall x, y :: x in audiences && y in audiences ==> x == y
  }

  ghost predicate NoConditions(clients: seq<Client>) {
    forall i :: 0 <= i < |clients| ==> clients[i].conditions == []
  }

  lemma AcceptedTwiceOverlaps(a: Client, b: Client, issuer: string, token: Token)
    requires WellFormed(a) && WellFormed(b) && a.conditions == [] && b.conditions == []
    requires Candidate(a, issuer, token) && Candidate(b, issuer, token) && Specificity(a) == Specificity(b)
    requires OneAudience(token.audiences)
    ensures Overlap(a, b, AudiencesOf(a), AudiencesOf(b))
  {
    var i :| 0 <= i < |token.audiences| && token.audiences[i] in AudiencesOf(a);
    var j :| 0 <= j < |token.audiences| && token.audiences[j] in AudiencesOf(b);
    assert token.audiences[i] in token.audiences && token.audiences[j] in token.audiences;
    var k :| 0 <= k < |AudiencesOf(a)| && AudiencesOf(a)[k] == token.audiences[i];
    assert Intersects(AudiencesOf(a), AudiencesOf(b));
    if a.azp != [] {
      var p :| 0 <= p < |a.azp| && a.azp[p] == token.party;
    }
  }

  /** In a fully validated model without conditions, a token with one audience is accepted by at most one
      client of its issuer at each specificity - so routing it is never ambiguous. */
  lemma OneAudienceOneClient(clients: seq<Client>, issuer: string, token: Token, x: nat, y: nat)
    requires Validated(clients) && NoConditions(clients) && OneAudience(token.audiences)
    requires x < y < |clients|
    ensures WellFormed(clients[x]) && WellFormed(clients[y])
    ensures Candidate(clients[x], issuer, token) && Candidate(clients[y], issuer, token) ==>
              Specificity(clients[x]) != Specificity(clients[y])
  {
    if Candidate(clients[x], issuer, token) && Candidate(clients[y], issuer, token) && Specificity(clients[x]) == Specificity(clients[y]) {
      AcceptedTwiceOverlaps(clients[x], clients[y], issuer, token);
    }
  }

  /** So such a token has at most one best client: routing it never answers that there are too many. */
  lemma RoutingIsDecided(clients: seq<Client>, issuer: string, token: Token, x: nat, y: nat)
    requires Validated(clients) && NoConditions(clients) && OneAudience(token.audiences)
    ensures (forall k :: 0 <= k < |clients| ==> WellFormed(clients[k]))
    ensures x < y && IsBest(clients, issuer, token, x) ==> !IsBest(clients, issuer, token, y)
  {
    if x < y < |clients| {
      OneAudienceOneClient(clients, issuer, token, x, y);
    }
  }

  /** Two clients of one specificity accept the token. */
  ghost predicate Equally(clients: seq<Client>, issuer: string, token: Token, x: nat, y: nat)
    requires NoConditions(clients)
  {
    && x < y < |clients| && Candidate(clients[x], issuer, token) && Candidate(clients[y], issuer, token)
    && Specificity(clients[x]) == Specificity(clients[y])
  }

  /** The check at write time is enough for a token exactly when it has one audience: tokens may have
      several, and then two clients told apart by audience can both accept one. */
  lemma EnoughExactly(audiences: seq<string>)
    ensures OneAudience(audiences) <==>
            forall clients, issuer, token: Token, x: nat, y: nat ::
              Validated(clients) && NoConditions(clients) && token.audiences == audiences ==> !Equally(clients, issuer, token, x, y)
  {
    if OneAudience(audiences) {
      forall clients, issuer, token: Token, x: nat, y: nat | Validated(clients) && NoConditions(clients) && token.audiences == audiences
        ensures !Equally(clients, issuer, token, x, y)
      {
        if x < y < |clients| {
          OneAudienceOneClient(clients, issuer, token, x, y);
        }
      }
    } else {
      var one, two :| one in audiences && two in audiences && one != two;
      TwoAudiencesTwoClients(audiences, one, two);
    }
  }

  lemma TwoAudiencesTwoClients(audiences: seq<string>, one: string, two: string)
    requires one in audiences && two in audiences && one != two
    ensures exists clients, issuer, token: Token, x: nat, y: nat ::
              Validated(clients) && NoConditions(clients) && token.audiences == audiences && Equally(clients, issuer, token, x, y)
  {
    var a := Client("a", "idp", [one], [], [], [], "", false);
    var b := Client("b", "idp", [two], [], [], [], "", false);
    var token := Token(audiences, "", "", map[]);
    var i :| 0 <= i < |audiences| && audiences[i] == one;
    var j :| 0 <= j < |audiences| && audiences[j] == two;
    assert token.audiences[i] in AudiencesOf(a) && token.audiences[j] in AudiencesOf(b);
    assert Accepts(a, token) && Accepts(b, token);
    assert !Intersects([one], [two]);
    var clients := [a, b];
    assert Validated(clients) && NoConditions(clients);
    assert Equally(clients, "idp", token, 0, 1);
  }

  // ---------------------------------------------------------------------------------------------
  // Writes that judge only what they touch.

  /** What a write leaves as it was. */
  ghost predicate LeavesUntouched(before: seq<Client>, after: seq<Client>, names: set<string>) {
    forall x, y :: 0 <= x < y < |after| && Fold(after[x].name) !in names && Fold(after[y].name) !in names ==>
      exists u, v :: 0 <= u < v < |before| && before[u] == after[x] && before[v] == after[y]
  }

  /** A touched client takes an audience that an untouched one keeps in its secret. */
  predicate MeetsASecret(names: set<string>, touched: Client, untouched: Client) {
    && Judges(Touched(names), touched) && !Judges(Touched(names), untouched)
    && AlikeButAudiences(touched, untouched)
    && Intersects(AudiencesOf(touched), untouched.secretAudiences)
  }

  lemma IntersectsBothWays(a: seq<string>, b: seq<string>)
    ensures Intersects(a, b) <==> Intersects(b, a)
  {
    if i :| 0 <= i < |a| && a[i] in b {
      var j :| 0 <= j < |b| && b[j] == a[i];
      assert b[j] in a;
    }
    if j :| 0 <= j < |b| && b[j] in a {
      var i :| 0 <= i < |a| && a[i] == b[j];
      assert a[i] in b;
    }
  }

  lemma OverlapBothWays(a: Client, b: Client)
    ensures Overlap(a, b, AudiencesOf(a), AudiencesOf(b)) <==> Overlap(b, a, AudiencesOf(b), AudiencesOf(a))
    ensures Overlap(a, b, AudiencesOf(a), AudiencesOf(b)) <==> AlikeButAudiences(a, b) && Intersects(AudiencesOf(a), AudiencesOf(b))
    ensures AlikeButAudiences(a, b) <==> AlikeButAudiences(b, a)
  {
    IntersectsBothWays(AudiencesOf(a), AudiencesOf(b));
    IntersectsBothWays(a.azp, b.azp);
  }

  // A pair that overlaps and was not refused is of a touched client and another's secret.
  lemma UnseenOverlap(names: set<string>, a: Client, b: Client)
    requires Overlap(a, b, AudiencesOf(a), AudiencesOf(b)) && !Refused(Touched(names), a, b)
    requires Judges(Touched(names), a) || Judges(Touched(names), b)
    ensures MeetsASecret(names, a, b) || MeetsASecret(names, b, a)
  {
    OverlapBothWays(a, b);
    IntersectsBothWays(AudiencesOf(a), AudiencesOf(b));
  }

  /** A write that passes keeps the clients apart - judging only its own - exactly when none of its clients
      takes an audience that an untouched one, otherwise alike, keeps in its secret. */
  lemma PartialCheckIsEnoughExactly(before: seq<Client>, after: seq<Client>, names: set<string>)
    requires Apart(before) && LeavesUntouched(before, after, names)
    requires forall x, y :: 0 <= x < y < |after| ==> !Refused(Touched(names), after[x], after[y])
    ensures Apart(after) <==> forall t, u :: t in after && u in after ==> !MeetsASecret(names, t, u)
  {
    forall x, y | 0 <= x < y < |after| && Overlap(after[x], after[y], AudiencesOf(after[x]), AudiencesOf(after[y]))
      ensures MeetsASecret(names, after[x], after[y]) || MeetsASecret(names, after[y], after[x])
    {
      UnseenOverlap(names, after[x], after[y]);
    }
    forall t, u | t in after && u in after && MeetsASecret(names, t, u) ensures !Apart(after) {
      var x :| 0 <= x < |after| && after[x] == t;
      var y :| 0 <= y < |after| && after[y] == u;
      OverlapBothWays(t, u);
      assert x != y;
      assert !Apart(after) by {
        var (i, j) := if x < y then (x, y) else (y, x);
        assert Overlap(after[i], after[j], AudiencesOf(after[i]), AudiencesOf(after[j]));
      }
    }
  }

  /** Such a write: the new client takes the audience another keeps in its secret, and passes. */
  lemma SecretAudiencesUnseen()
    ensures var kept := Client("kept", "idp", [], ["api"], [], [], "", false);
            var added := Client("added", "idp", ["api"], [], [], [], "", false);
            && Apart([kept]) && LeavesUntouched([kept], [kept, added], {"added"})
            && (forall x, y :: 0 <= x < y < 2 ==> !Refused(Touched({"added"}), [kept, added][x], [kept, added][y]))
            && !Apart([kept, added])
  {
    var kept := Client("kept", "idp", [], ["api"], [], [], "", false);
    var added := Client("added", "idp", ["api"], [], [], [], "", false);
    assert Fold("added") == "added" && Fold("kept") == "kept";
    assert !Intersects(ComparedAudiences(Touched({"added"}), kept), ["api"]);
    assert ["api"][0] in ["api"] && Intersects(["api"], ["api"]);
    var clients := [kept, added];
    assert Overlap(clients[0], clients[1], AudiencesOf(clients[0]), AudiencesOf(clients[1]));
  }
}
