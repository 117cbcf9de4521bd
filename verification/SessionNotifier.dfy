/** Delivering the opens and closes of sessions: openers, closers and any number of flushers, step by
    step. */
module SessionNotifier {

  datatype Close = Close(session: string, reason: string)

  datatype Told = OpenOf(session: string) | CloseOf(close: Close)

  /** The notifier's fields, each flusher's batch, and what happened: the sessions begun, those whose open
      every observer has had, the closes asked for, those another close of the session replaced, and
      what the observers were told, in order. */
  datatype State = State(
    opening: set<string>, deferred: map<string, string>, closes: seq<Close>, batches: seq<seq<Close>>,
    begun: set<string>, announced: set<string>, queued: seq<Close>, replaced: seq<Close>, told: seq<Told>)

  datatype Step =
    | BeginOpen(session: string)
    | DeliverOpen(session: string)
    | FinishOpen(session: string)
    | QueueClose(close: Close)
    | TakeBatch(flusher: nat)
    | DeliverClose(flusher: nat)

  function Initial(flushers: nat): State {
    State({}, map[], [], seq(flushers, _ => []), {}, {}, [], [], [])
  }

  /** The order the store keeps: a session is begun once, before its open is delivered and before it can
      be closed. */
  predicate Legal(s: State, step: Step) {
    match step
    case BeginOpen(session) => session !in s.begun
    case DeliverOpen(session) => session in s.opening && session !in s.announced
    case FinishOpen(session) => session in s.opening && session in s.announced
    case QueueClose(close) => close.session in s.begun
    case TakeBatch(flusher) => flusher < |s.batches| && s.batches[flusher] == []
    case DeliverClose(flusher) => flusher < |s.batches| && s.batches[flusher] != []
  }

  function Next(s: State, step: Step): State
    requires Legal(s, step)
  {
    match step
    case BeginOpen(session) => s.(opening := s.opening + {session}, begun := s.begun + {session})
    case DeliverOpen(session) => s.(announced := s.announced + {session}, told := s.told + [OpenOf(session)])
    case FinishOpen(session) =>
      s.(opening := s.opening - {session}, deferred := s.deferred - {session},
         closes := if session in s.deferred then s.closes + [Close(session, s.deferred[session])] else s.closes)
    case QueueClose(close) =>
      if close.session in s.opening then
        s.(deferred := s.deferred[close.session := close.reason], queued := s.queued + [close],
           replaced := if close.session in s.deferred then s.replaced + [Close(close.session, s.deferred[close.session])] else s.replaced)
      else s.(closes := s.closes + [close], queued := s.queued + [close])
    case TakeBatch(flusher) => s.(batches := s.batches[flusher := s.closes], closes := [])
    case DeliverClose(flusher) =>
      s.(batches := s.batches[flusher := s.batches[flusher][1..]], told := s.told + [CloseOf(s.batches[flusher][0])])
  }

  /** States in which every step was legal when taken. */
  ghost predicate IsRun(states: seq<State>, steps: seq<Step>, flushers: nat) {
    && |states| == |steps| + 1 && states[0] == Initial(flushers)
    && forall i :: 0 <= i < |steps| ==> Legal(states[i], steps[i]) && states[i + 1] == Next(states[i], steps[i])
  }

  function Flat(batches: seq<seq<Close>>): seq<Close> {
    if batches == [] then [] else Flat(batches[..|batches| - 1]) + batches[|batches| - 1]
  }

  function Delivered(told: seq<Told>): seq<Close> {
    if told == [] then [] else
    var n := |told| - 1;
    Delivered(told[..n]) + if told[n].CloseOf? then [told[n].close] else []
  }

  function IsDeferred(s: State, c: Close): nat {
    if c.session in s.deferred && s.deferred[c.session] == c.reason then 1 else 0
  }

  /** How often a close is in each place it can be. */
  function Places(s: State, c: Close): nat {
    IsDeferred(s, c) + multiset(s.closes)[c] + multiset(Flat(s.batches))[c] + multiset(Delivered(s.told))[c]
    + multiset(s.replaced)[c]
  }

  /** Every close asked for is in exactly one place, as often as it was asked for. */
  ghost predicate EachInOnePlace(s: State) {
    forall c :: Places(s, c) == multiset(s.queued)[c]
  }

  // A close on its way is of a session whose open every observer has had.
  ghost predicate AfterItsOpen(s: State) {
    && (forall i :: 0 <= i < |s.closes| ==> s.closes[i].session in s.announced)
    && (forall f, i :: 0 <= f < |s.batches| && 0 <= i < |s.batches[f]| ==> s.batches[f][i].session in s.announced)
    && s.deferred.Keys <= s.opening
    && s.begun <= s.opening + s.announced
    && (forall session :: session in s.announced ==> OpenOf(session) in s.told)
  }

  /** Before every close told, the session's open was told. */
  ghost predicate OpensFirst(told: seq<Told>) {
    forall i :: 0 <= i < |told| && told[i].CloseOf? ==> OpenOf(told[i].close.session) in told[..i]
  }

  ghost predicate Sound(s: State) {
    EachInOnePlace(s) && AfterItsOpen(s) && OpensFirst(s.told)
  }

  lemma {:induction false} FlatReplaced(batches: seq<seq<Close>>, f: nat, batch: seq<Close>)
    requires f < |batches|
    ensures multiset(Flat(batches[f := batch])) + multiset(batches[f]) == multiset(Flat(batches)) + multiset(batch)
  {
    var n := |batches| - 1;
    if f == n {
      assert batches[f := batch][..n] == batches[..n];
    } else {
      FlatReplaced(batches[..n], f, batch);
      assert batches[f := batch][..n] == batches[..n][f := batch];
      SameBehind(Flat(batches[..n][f := batch]), batches[f], Flat(batches[..n]), batch, batches[n]);
    }
  }

  lemma SameBehind(a: seq<Close>, b: seq<Close>, c: seq<Close>, d: seq<Close>, last: seq<Close>)
    requires multiset(a) + multiset(b) == multiset(c) + multiset(d)
    ensures multiset(a + last) + multiset(b) == multiset(c + last) + multiset(d)
  {
    forall x ensures (multiset(a + last) + multiset(b))[x] == (multiset(c + last) + multiset(d))[x] {
      assert (multiset(a) + multiset(b))[x] == (multiset(c) + multiset(d))[x];
    }
  }

  lemma {:induction false} NothingInIdle(flushers: nat)
    ensures Flat(seq(flushers, _ => [])) == []
  {
    if flushers > 0 {
      assert seq<seq<Close>>(flushers, _ => [])[..flushers - 1] == seq(flushers - 1, _ => []);
      NothingInIdle(flushers - 1);
    }
  }

  lemma DeliveredOneMore(told: seq<Told>, t: Told)
    ensures Delivered(told + [t]) == Delivered(told) + if t.CloseOf? then [t.close] else []
  {
    assert (told + [t])[..|told|] == told;
  }

  lemma ToldOneMore(told: seq<Told>, t: Told)
    requires OpensFirst(told) && (t.CloseOf? ==> OpenOf(t.close.session) in told)
    ensures OpensFirst(told + [t])
  {
    forall i | 0 <= i < |told + [t]| && (told + [t])[i].CloseOf? ensures OpenOf((told + [t])[i].close.session) in (told + [t])[..i] {
      assert (told + [t])[..i] == told[..i];
      assert told[..|told|] == told;
    }
  }

  lemma OpeningKeepsPlaces(s: State, step: Step)
    requires EachInOnePlace(s) && Legal(s, step) && (step.BeginOpen? || step.DeliverOpen? || step.FinishOpen?)
    ensures EachInOnePlace(Next(s, step))
  {
    var t := Next(s, step);
    if step.DeliverOpen? {
      DeliveredOneMore(s.told, OpenOf(step.session));
    }
    forall c ensures Places(t, c) == Places(s, c) {
      assert step.FinishOpen? && step.session in s.deferred ==>
               multiset(t.closes)[c] == multiset(s.closes)[c] + if c == Close(step.session, s.deferred[step.session]) then 1 else 0;
    }
  }

  lemma OneMoreOf(cs: seq<Close>, c: Close, d: Close)
    ensures multiset(cs + [c])[d] == multiset(cs)[d] + if d == c then 1 else 0
  {
  }

  lemma QueuePlaces(s: State, close: Close, c: Close)
    requires Legal(s, QueueClose(close))
    ensures Places(Next(s, QueueClose(close)), c) == Places(s, c) + if c == close then 1 else 0
  {
    if close.session in s.opening {
      if close.session in s.deferred {
        OneMoreOf(s.replaced, Close(close.session, s.deferred[close.session]), c);
      }
    } else {
      OneMoreOf(s.closes, close, c);
    }
  }

  lemma QueueKeepsPlaces(s: State, close: Close)
    requires EachInOnePlace(s) && Legal(s, QueueClose(close))
    ensures EachInOnePlace(Next(s, QueueClose(close)))
  {
    var t := Next(s, QueueClose(close));
    forall c ensures Places(t, c) == multiset(t.queued)[c] {
      QueuePlaces(s, close, c);
      OneMoreOf(s.queued, close, c);
      assert Places(s, c) == multiset(s.queued)[c];
    }
  }

  lemma TakePlaces(s: State, flusher: nat, c: Close)
    requires Legal(s, TakeBatch(flusher))
    ensures Places(Next(s, TakeBatch(flusher)), c) == Places(s, c)
  {
    FlatCount(s.batches, flusher, s.closes, c);
  }

  lemma FlatCount(batches: seq<seq<Close>>, f: nat, batch: seq<Close>, c: Close)
    requires f < |batches|
    ensures multiset(Flat(batches[f := batch]))[c] + multiset(batches[f])[c] == multiset(Flat(batches))[c] + multiset(batch)[c]
  {
    FlatReplaced(batches, f, batch);
    assert (multiset(Flat(batches[f := batch])) + multiset(batches[f]))[c] == (multiset(Flat(batches)) + multiset(batch))[c];
  }

  lemma HeadCount(batch: seq<Close>, c: Close)
    requires batch != []
    ensures multiset(batch)[c] == multiset(batch[1..])[c] + if c == batch[0] then 1 else 0
  {
    assert batch == [batch[0]] + batch[1..];
  }

  lemma DeliverPlaces(s: State, flusher: nat, c: Close)
    requires Legal(s, DeliverClose(flusher))
    ensures Places(Next(s, DeliverClose(flusher)), c) == Places(s, c)
  {
    var batch := s.batches[flusher];
    FlatCount(s.batches, flusher, batch[1..], c);
    HeadCount(batch, c);
    DeliveredOneMore(s.told, CloseOf(batch[0]));
    OneMoreOf(Delivered(s.told), batch[0], c);
  }

  lemma FlushKeepsPlaces(s: State, step: Step)
    requires EachInOnePlace(s) && Legal(s, step) && (step.TakeBatch? || step.DeliverClose?)
    ensures EachInOnePlace(Next(s, step))
  {
    forall c ensures Places(Next(s, step), c) == multiset(Next(s, step).queued)[c] {
      assert Places(s, c) == multiset(s.queued)[c];
      if step.TakeBatch? {
        TakePlaces(s, step.flusher, c);
      } else {
        DeliverPlaces(s, step.flusher, c);
      }
    }
  }

  lemma StepKeepsPlaces(s: State, step: Step)
    requires EachInOnePlace(s) && Legal(s, step)
    ensures EachInOnePlace(Next(s, step))
  {
    match step
    case QueueClose(close) => QueueKeepsPlaces(s, close);
    case TakeBatch(_) => FlushKeepsPlaces(s, step);
    case DeliverClose(_) => FlushKeepsPlaces(s, step);
    case _ => OpeningKeepsPlaces(s, step);
  }

  lemma StepKeepsOrder(s: State, step: Step)
    requires AfterItsOpen(s) && OpensFirst(s.told) && Legal(s, step)
    ensures AfterItsOpen(Next(s, step)) && OpensFirst(Next(s, step).told)
  {
    match step
    case DeliverOpen(session) =>
      ToldOneMore(s.told, OpenOf(session));
    case DeliverClose(flusher) =>
      assert s.batches[flusher][0].session in s.announced;
      ToldOneMore(s.told, CloseOf(s.batches[flusher][0]));
    case _ =>
  }

  /** In every interleaving: no close is told before its session's open was, and every close asked for is
      told, deferred, queued, in one flusher's batch, or was replaced by a later close of its session. */
  lemma {:induction false} EveryRunIsSound(states: seq<State>, steps: seq<Step>, flushers: nat, n: nat)
    requires IsRun(states, steps, flushers) && n < |states|
    ensures Sound(states[n])
  {
    if n == 0 {
      NothingInIdle(flushers);
    } else {
      EveryRunIsSound(states, steps, flushers, n - 1);
      StepKeepsPlaces(states[n - 1], steps[n - 1]);
      StepKeepsOrder(states[n - 1], steps[n - 1]);
    }
  }

  ghost predicate Finished(steps: seq<Step>, session: string, n: nat) {
    exists k :: 0 <= k < n && k < |steps| && steps[k] == FinishOpen(session)
  }

  predicate Closes(step: Step, session: string) {
    step.QueueClose? && step.close.session == session
  }

  ghost predicate Closed(steps: seq<Step>, session: string, n: nat) {
    exists k :: 0 <= k < n && k < |steps| && Closes(steps[k], session)
  }

  /** The step closes a session closed before whose open is not over. */
  ghost predicate ClosesAgain(steps: seq<Step>, j: nat) {
    && j < |steps| && steps[j].QueueClose?
    && Closed(steps, steps[j].close.session, j) && !Finished(steps, steps[j].close.session, j)
  }

  lemma OneMoreStep(steps: seq<Step>, session: string, n: nat)
    requires n < |steps|
    ensures Finished(steps, session, n + 1) <==> Finished(steps, session, n) || steps[n] == FinishOpen(session)
    ensures Closed(steps, session, n + 1) <==> Closed(steps, session, n) || Closes(steps[n], session)
  {
  }

  // What one step does to a session's opening and waiting close.
  lemma StepOfSession(s: State, step: Step, session: string)
    requires Legal(s, step)
    ensures var t := Next(s, step);
            && (session in t.opening <==> step == BeginOpen(session) || (session in s.opening && step != FinishOpen(session)))
            && (session in t.begun <==> step == BeginOpen(session) || session in s.begun)
            && (session in t.deferred <==> (Closes(step, session) && session in s.opening)
                                           || (session in s.deferred && step != FinishOpen(session)))
    ensures step == BeginOpen(session) ==> session !in s.begun
    ensures step == FinishOpen(session) ==> session in s.opening
    ensures Closes(step, session) ==> session in s.begun
  {
  }

  // A session is opening, or has a close waiting, by the steps alone.
  lemma {:induction false} OpeningAndWaiting(states: seq<State>, steps: seq<Step>, flushers: nat, n: nat, session: string)
    requires IsRun(states, steps, flushers) && n < |states|
    ensures session in states[n].opening <==> session in states[n].begun && !Finished(steps, session, n)
    ensures Closed(steps, session, n) || Finished(steps, session, n) ==> session in states[n].begun
    ensures session in states[n].deferred <==> Closed(steps, session, n) && !Finished(steps, session, n)
  {
    if n > 0 {
      OpeningAndWaiting(states, steps, flushers, n - 1, session);
      OneMoreStep(steps, session, n - 1);
      StepOfSession(states[n - 1], steps[n - 1], session);
    }
  }

  lemma ReplacedByStep(s: State, step: Step)
    requires Legal(s, step)
    ensures Next(s, step).replaced != [] <==>
              s.replaced != [] || (step.QueueClose? && step.close.session in s.opening && step.close.session in s.deferred)
  {
  }

  /** In every interleaving: some close is lost to another exactly when a session is closed twice before
      its open is over. */
  lemma {:induction false} ReplacedExactly(states: seq<State>, steps: seq<Step>, flushers: nat, n: nat)
    requires IsRun(states, steps, flushers) && n < |states|
    ensures states[n].replaced != [] <==> exists j :: 0 <= j < n && ClosesAgain(steps, j)
  {
    if n > 0 {
      ReplacedExactly(states, steps, flushers, n - 1);
      if steps[n - 1].QueueClose? {
        OpeningAndWaiting(states, steps, flushers, n - 1, steps[n - 1].close.session);
      }
      ReplacedByStep(states[n - 1], steps[n - 1]);
      assert states[n].replaced != [] <==> states[n - 1].replaced != [] || ClosesAgain(steps, n - 1);
    }
  }

  /** With one close per session nothing is replaced: each close asked for is in exactly one place, once. */
  lemma {:induction false} OneClosePerSession(states: seq<State>, steps: seq<Step>, flushers: nat, n: nat)
    requires IsRun(states, steps, flushers) && n < |states|
    requires forall i, j :: 0 <= i < j < |states[n].queued| ==> states[n].queued[i].session != states[n].queued[j].session
    ensures states[n].replaced == []
    ensures forall c :: c in states[n].queued ==>
              IsDeferred(states[n], c) + multiset(states[n].closes)[c] + multiset(Flat(states[n].batches))[c]
              + multiset(Delivered(states[n].told))[c] == 1
  {
    NothingReplaced(states, steps, flushers, n);
    EveryRunIsSound(states, steps, flushers, n);
    forall c | c in states[n].queued ensures multiset(states[n].queued)[c] == 1 {
      OnlyOnce(states[n].queued, c);
    }
  }

  lemma {:induction false} OnlyOnce(cs: seq<Close>, c: Close)
    requires forall i, j :: 0 <= i < j < |cs| ==> cs[i].session != cs[j].session
    ensures multiset(cs)[c] == if c in cs then 1 else 0
  {
    if cs != [] {
      var n := |cs| - 1;
      OnlyOnce(cs[..n], c);
      assert cs == cs[..n] + [cs[n]];
    }
  }

  lemma DeferredWasQueued(s: State)
    requires EachInOnePlace(s)
    ensures forall session :: session in s.deferred ==> exists k :: 0 <= k < |s.queued| && s.queued[k].session == session
  {
    forall session | session in s.deferred ensures exists k :: 0 <= k < |s.queued| && s.queued[k].session == session {
      var waiting := Close(session, s.deferred[session]);
      assert Places(s, waiting) >= 1;
      assert waiting in multiset(s.queued);
      var k :| 0 <= k < |s.queued| && s.queued[k] == waiting;
    }
  }

  lemma {:induction false} NothingReplaced(states: seq<State>, steps: seq<Step>, flushers: nat, n: nat)
    requires IsRun(states, steps, flushers) && n < |states|
    requires forall i, j :: 0 <= i < j < |states[n].queued| ==> states[n].queued[i].session != states[n].queued[j].session
    ensures states[n].replaced == []
  {
    if n > 0 {
      var s, step := states[n - 1], steps[n - 1];
      assert states[n] == Next(s, step);
      assert s.queued <= states[n].queued;
      assert forall i :: 0 <= i < |s.queued| ==> s.queued[i] == states[n].queued[i];
      NothingReplaced(states, steps, flushers, n - 1);
      EveryRunIsSound(states, steps, flushers, n - 1);
      DeferredWasQueued(s);
      if step.QueueClose? {
        assert states[n].queued[|s.queued|] == step.close;
      }
    }
  }

  /** Once no session is opening, nothing is queued and every flusher is idle, the closes told are exactly
      those asked for and not replaced. */
  lemma QuietMeansDelivered(states: seq<State>, steps: seq<Step>, flushers: nat, n: nat)
    requires IsRun(states, steps, flushers) && n < |states|
    requires states[n].opening == {} && states[n].closes == [] && Flat(states[n].batches) == []
    ensures multiset(states[n].queued) == multiset(Delivered(states[n].told)) + multiset(states[n].replaced)
  {
    EveryRunIsSound(states, steps, flushers, n);
    var s := states[n];
    forall c ensures multiset(s.queued)[c] == (multiset(Delivered(s.told)) + multiset(s.replaced))[c] {
      assert Places(s, c) == multiset(s.queued)[c];
    }
  }

  /** A second close of a session still opening replaces the first: its reason is never told. */
  lemma SecondCloseReplacesFirst()
    ensures var s := Initial(1).(opening := {"s"}, begun := {"s"});
            var t := Next(Next(s, QueueClose(Close("s", "killed"))), QueueClose(Close("s", "expired")));
            t.deferred == map["s" := "expired"] && t.replaced == [Close("s", "killed")]
  {
  }
}
