/** The audit pipeline as steps of its threads: emitters enqueue under the queue's lock, one worker takes
    events, hands them on and counts them, and a stop bounds the backlog. */
module AuditPipeline {
  import opened PolicyRows
  import opened Sequences

  datatype Event = Event(seqNo: nat, recorded: bool, lineage: bool, rest: string)

  /** How far the worker has come with the event in its hand; `cap` is the ring's, once loaded. */
  datatype Stage = ToRing | CapLoaded(cap: int) | ToFile | Handled

  datatype Worker = NotStarted | Waiting | Holding(event: Event, stage: Stage) | Exited

  /** Why `dropped` was counted, and what was refused without being counted. */
  datatype Losses = Losses(limited: nat, queueFull: nat, notStarted: nat, evicted: nat, unwritten: nat, refusedStopping: nat)

  /** What the threads did: the events emitted, those accepted in the queue's order, those handled, those
      given up by a stop, and those that entered each ring. */
  datatype History = History(emits: nat, accepted: seq<Event>, done: seq<Event>, abandoned: seq<Event>,
                             ringed: seq<Event>, lineageRinged: seq<Event>, losses: Losses)

  datatype State = State(
    queue: seq<Event>, lastSeq: nat, enqueued: int, handled: nat, dropped: nat, stopping: bool, abandon: bool,
    worker: Worker, ringCap: int, lineageCap: int, ring: seq<Event>, lineageRing: seq<Event>, past: History)

  const NO_LOSSES := Losses(0, 0, 0, 0, 0, 0)

  const INITIAL := State(
    [], 0, 0, 0, 0, false, false, NotStarted, 10000, 1000, [], [], History(0, [], [], [], [], [], NO_LOSSES))

  datatype Step =
    | ReadSettings(ringCap: int, lineageCap: int)
    | CountLimited
    | Enqueue(event: Event, cap: int, canStart: bool)
    | Take
    | LoadCap
    | PushRing
    | WriteFile(lost: bool)
    | Finish
    | BeginStop
    | GiveUp

  predicate Full(s: State, cap: int) {
    cap > 0 && |s.queue| >= cap
  }

  function Stamped(s: State, event: Event): Event {
    event.(seqNo := s.lastSeq + 1)
  }

  // The event joins the queue; a worker that will not start costs it, and its number.
  function Accepted(s: State, event: Event, canStart: bool): State {
    if s.worker == NotStarted && !canStart then
      s.(lastSeq := s.lastSeq + 1, dropped := s.dropped + 1,
         past := s.past.(losses := s.past.losses.(notStarted := s.past.losses.notStarted + 1)))
    else
      s.(lastSeq := s.lastSeq + 1, queue := s.queue + [Stamped(s, event)], enqueued := s.enqueued + 1,
         worker := if s.worker == NotStarted then Waiting else s.worker,
         past := s.past.(accepted := s.past.accepted + [Stamped(s, event)]))
  }

  /** The emitter's section under the lock. */
  function Enqueued(s: State, event: Event, cap: int, canStart: bool): State {
    var past := s.past.(emits := s.past.emits + 1);
    if s.stopping then s.(past := past.(losses := past.losses.(refusedStopping := past.losses.refusedStopping + 1)))
    else if Full(s, cap) then
      s.(dropped := s.dropped + 1, past := past.(losses := past.losses.(queueFull := past.losses.queueFull + 1)))
    else Accepted(s.(past := past), event, canStart)
  }

  /** The number the emitter is answered; 0 when the event was dropped. */
  function Answer(s: State, cap: int, canStart: bool): nat {
    if s.stopping || Full(s, cap) || (s.worker == NotStarted && !canStart) then 0 else s.lastSeq + 1
  }

  /** An emitter is answered the number its event was accepted under, or 0 and nothing was accepted. */
  lemma AnswerMeaning(s: State, event: Event, cap: int, canStart: bool)
    ensures var t := Enqueued(s, event, cap, canStart); var number := Answer(s, cap, canStart);
            && (number == 0 ==> t.past.accepted == s.past.accepted && t.queue == s.queue)
            && (number > 0 ==> t.past.accepted == s.past.accepted + [event.(seqNo := number)])
            && (number > 0 <==> !s.stopping && (cap <= 0 || |s.queue| < cap) && (s.worker != NotStarted || canStart))
  {
  }

  /** A ring that is switched off takes nothing, and loses nothing. */
  lemma RingOff(s: State)
    requires s.worker.Holding? && s.worker.stage.CapLoaded? && s.worker.stage.cap <= 0
    ensures var t := Next(s, PushRing);
            t.ring == s.ring && t.lineageRing == s.lineageRing && t.dropped == s.dropped && t.past == s.past
  {
  }

  /** The worker's section: it gives up the backlog when told to, and exits when nothing is left. */
  function Taken(s: State): State {
    if s.worker != Waiting || (s.queue == [] && !s.stopping) then s
    else if s.abandon || s.queue == [] then
      s.(queue := [], dropped := s.dropped + |s.queue|, worker := Exited,
         past := s.past.(abandoned := s.past.abandoned + s.queue))
    else
      s.(queue := s.queue[1..], worker := Holding(s.queue[0], if s.queue[0].recorded then ToRing else Handled))
  }

  /** The newest `cap` events. */
  function Newest(es: seq<Event>, cap: int): seq<Event> {
    if 0 <= cap < |es| then es[|es| - cap..] else es
  }

  function Ringed(s: State): State {
    if !(s.worker.Holding? && s.worker.stage.CapLoaded?) then s else
    var e, cap := s.worker.event, s.worker.stage.cap;
    if e.lineage then
      var s' := s.(worker := Holding(e, Handled));
      if cap <= 0 then s'
      else s'.(lineageRing := Newest(s.lineageRing + [e], cap), past := s.past.(lineageRinged := s.past.lineageRinged + [e]))
    else
      var s' := s.(worker := Holding(e, ToFile));
      if cap <= 0 then s' else
      var evicted := |s.ring| + 1 - |Newest(s.ring + [e], cap)|;
      s'.(ring := Newest(s.ring + [e], cap), dropped := s.dropped + evicted,
          past := s.past.(ringed := s.past.ringed + [e],
                          losses := s.past.losses.(evicted := s.past.losses.evicted + evicted)))
  }

  function Next(s: State, step: Step): State {
    match step
    case ReadSettings(ringCap, lineageCap) => s.(ringCap := ringCap, lineageCap := lineageCap)
    case CountLimited =>
      s.(dropped := s.dropped + 1, past := s.past.(losses := s.past.losses.(limited := s.past.losses.limited + 1)))
    case Enqueue(event, cap, canStart) => Enqueued(s, event, cap, canStart)
    case Take => Taken(s)
    case LoadCap =>
      if s.worker.Holding? && s.worker.stage == ToRing
      then s.(worker := s.worker.(stage := CapLoaded(if s.worker.event.lineage then s.lineageCap else s.ringCap)))
      else s
    case PushRing => Ringed(s)
    case WriteFile(lost) =>
      if !(s.worker.Holding? && s.worker.stage == ToFile) then s
      else if lost then
        s.(worker := s.worker.(stage := Handled), dropped := s.dropped + 1,
           past := s.past.(losses := s.past.losses.(unwritten := s.past.losses.unwritten + 1)))
      else s.(worker := s.worker.(stage := Handled))
    case Finish =>
      if s.worker.Holding? && s.worker.stage == Handled
      then s.(handled := s.handled + 1, worker := Waiting, past := s.past.(done := s.past.done + [s.worker.event]))
      else s
    case BeginStop => s.(stopping := true)
    case GiveUp => if s.stopping then s.(abandon := true) else s
  }

  /** The state after every thread's steps so far, however they interleave. */
  function Run(s: State, steps: seq<Step>): State {
    if steps == [] then s else Next(Run(s, steps[..|steps| - 1]), steps[|steps| - 1])
  }

  /** What an emitter does before the lock: the settings read, a denial past its rate counted. */
  function Prepared(s: State, admitted: bool, ringCap: int, lineageCap: int): State {
    var read := Next(s, ReadSettings(ringCap, lineageCap));
    if admitted then read else Next(read, CountLimited)
  }

  /** The queue, at the emitter's turn, takes no event though no stop refuses it. */
  predicate Lost(s: State, cap: int, canStart: bool) {
    !s.stopping && (Full(s, cap) || (s.worker == NotStarted && !canStart))
  }

  /** What one emit adds to `dropped`: a denial past its rate is counted, and so is an event the queue does
      not take - a denial that meets both is counted twice. */
  lemma DroppedTwiceExactly(s: State, event: Event, admitted: bool, ringCap: int, lineageCap: int, cap: int, canStart: bool)
    ensures var t := Enqueued(Prepared(s, admitted, ringCap, lineageCap), event, cap, canStart);
            && s.dropped <= t.dropped <= s.dropped + 2
            && (t.dropped == s.dropped + 2 <==> !admitted && Lost(s, cap, canStart))
            && (t.dropped == s.dropped <==> admitted && !Lost(s, cap, canStart))
  {
  }

  /** Such a run: one event fills the queue, and one denial refused by its rate is two drops. */
  lemma OneDenialTwoDrops(first: Event, denial: Event)
    ensures var s := Run(INITIAL, [Enqueue(first, 1, true)]);
            var t := Enqueued(Prepared(s, false, 10, 10), denial, 1, true);
            s.dropped == 0 && t.dropped == 2 && t.past.emits == 2 && |t.past.accepted| == 1
  {
    assert [Enqueue(first, 1, true)][..0] == [];
  }

  function InHand(s: State): seq<Event> {
    if s.worker.Holding? then [s.worker.event] else []
  }

  ghost predicate Ascending(es: seq<Event>, last: nat) {
    && (forall i, j :: 0 <= i < j < |es| ==> es[i].seqNo < es[j].seqNo)
    && forall i :: 0 <= i < |es| ==> 0 < es[i].seqNo <= last
  }

  /** Every accepted event is handled, in the worker's hand, queued or given up - in that order, which is
      the order of their numbers. */
  ghost predicate EachInOnePlace(s: State) {
    && s.past.accepted == s.past.done + InHand(s) + s.queue + s.past.abandoned
    && Ascending(s.past.accepted, s.lastSeq)
  }

  /** The counters say where every emitted event went, and why each drop was counted. */
  ghost predicate Counted(s: State) {
    && s.enqueued == |s.past.accepted|
    && s.handled == |s.past.done|
    && s.past.emits == |s.past.accepted| + s.past.losses.queueFull + s.past.losses.notStarted + s.past.losses.refusedStopping
    && s.dropped == s.past.losses.limited + s.past.losses.queueFull + s.past.losses.notStarted
                    + |s.past.abandoned| + s.past.losses.evicted + s.past.losses.unwritten
  }

  ghost predicate Stages(s: State) {
    && (s.worker.NotStarted? ==> s.queue == [] && s.past.accepted == [])
    && (s.worker.Exited? ==> s.queue == [] && s.stopping)
    && (s.past.abandoned != [] ==> s.worker.Exited? && s.abandon)
    && (s.abandon || s.past.losses.refusedStopping > 0 ==> s.stopping)
  }

  ghost predicate Sound(s: State) {
    EachInOnePlace(s) && Counted(s) && Stages(s)
  }

  lemma AcceptedOneMore(s: State, e: Event)
    requires EachInOnePlace(s) && s.past.abandoned == [] && e.seqNo == s.lastSeq + 1
    ensures Ascending(s.past.accepted + [e], s.lastSeq + 1)
    ensures s.past.accepted + [e] == s.past.done + InHand(s) + (s.queue + [e]) + s.past.abandoned
  {
    var es := s.past.accepted + [e];
    forall i, j | 0 <= i < j < |es| ensures es[i].seqNo < es[j].seqNo {
      assert es[i] == s.past.accepted[i];
      if j < |s.past.accepted| {
        assert es[j] == s.past.accepted[j];
      }
    }
  }

  lemma AcceptedPlaces(s: State, event: Event, canStart: bool)
    requires EachInOnePlace(s) && Stages(s) && !s.stopping
    ensures EachInOnePlace(Accepted(s, event, canStart)) && Stages(Accepted(s, event, canStart))
  {
    var t := Accepted(s, event, canStart);
    assert s.past.abandoned == [];
    AcceptedOneMore(s, Stamped(s, event));
    assert InHand(t) == InHand(s) && t.past.done == s.past.done && t.past.abandoned == s.past.abandoned;
  }

  lemma EnqueueCounted(s: State, event: Event, cap: int, canStart: bool)
    requires Counted(s)
    ensures Counted(Enqueued(s, event, cap, canStart))
  {
  }

  lemma RefusedPlaces(s: State, event: Event, cap: int, canStart: bool)
    requires EachInOnePlace(s) && Stages(s) && (s.stopping || Full(s, cap))
    ensures EachInOnePlace(Enqueued(s, event, cap, canStart)) && Stages(Enqueued(s, event, cap, canStart))
  {
  }

  lemma EnqueueSound(s: State, event: Event, cap: int, canStart: bool)
    requires Sound(s)
    ensures Sound(Enqueued(s, event, cap, canStart))
  {
    EnqueueCounted(s, event, cap, canStart);
    if s.stopping || Full(s, cap) {
      RefusedPlaces(s, event, cap, canStart);
    } else {
      AcceptedPlaces(s.(past := s.past.(emits := s.past.emits + 1)), event, canStart);
    }
  }

  lemma GivesUp(done: seq<Event>, queue: seq<Event>)
    ensures done + [] + queue + [] == done + [] + [] + ([] + queue)
    ensures queue != [] ==> done + [] + queue + [] == done + [queue[0]] + queue[1..] + []
  {
  }

  lemma TakeSound(s: State)
    requires Sound(s)
    ensures Sound(Taken(s))
  {
    if s.worker.Waiting? && (s.queue != [] || s.stopping) {
      assert s.past.abandoned == [];
      GivesUp(s.past.done, s.queue);
      var t := Taken(s);
      assert InHand(s) == [] && t.past.done == s.past.done && t.past.accepted == s.past.accepted;
      assert EachInOnePlace(t);
      assert Counted(t);
    }
  }

  lemma FinishSound(s: State)
    requires Sound(s)
    ensures Sound(Next(s, Finish))
  {
  }

  /** The worker's way with an event in its hand, and the stop's steps, move no event. */
  ghost predicate MovesNothing(s: State, t: State) {
    && t.queue == s.queue && InHand(t) == InHand(s) && t.worker.Holding? == s.worker.Holding?
    && (!s.worker.Holding? ==> t.worker == s.worker)
    && t.past.done == s.past.done && t.past.accepted == s.past.accepted && t.past.abandoned == s.past.abandoned
    && t.lastSeq == s.lastSeq && t.enqueued == s.enqueued && t.handled == s.handled && t.past.emits == s.past.emits
    && t.past.losses.queueFull == s.past.losses.queueFull && t.past.losses.notStarted == s.past.losses.notStarted
    && t.past.losses.refusedStopping == s.past.losses.refusedStopping
    && t.dropped - s.dropped == t.past.losses.limited + t.past.losses.evicted + t.past.losses.unwritten
                                - (s.past.losses.limited + s.past.losses.evicted + s.past.losses.unwritten)
    && (s.stopping ==> t.stopping) && (s.abandon ==> t.abandon) && (t.abandon ==> s.abandon || s.stopping)
  }

  lemma PushMovesNothing(s: State)
    ensures MovesNothing(s, Ringed(s))
  {
  }

  lemma OthersMoveNothing(s: State, step: Step)
    requires !step.Enqueue? && !step.Take? && !step.Finish?
    ensures MovesNothing(s, Next(s, step))
  {
    if step.PushRing? {
      PushMovesNothing(s);
    }
  }

  lemma OthersSound(s: State, t: State)
    requires Sound(s) && MovesNothing(s, t)
    ensures Sound(t)
  {
  }

  /** Every step of every thread keeps the accounts. */
  lemma StepSound(s: State, step: Step)
    requires Sound(s)
    ensures Sound(Next(s, step))
  {
    match step
    case Enqueue(event, cap, canStart) => EnqueueSound(s, event, cap, canStart);
    case Take => TakeSound(s);
    case Finish => FinishSound(s);
    case _ =>
      OthersMoveNothing(s, step);
      OthersSound(s, Next(s, step));
  }

  /** Nothing accepted or handled is ever forgotten, and a stop stays. */
  ghost predicate Grows(s: State, t: State) {
    s.past.accepted <= t.past.accepted && s.past.done <= t.past.done && (s.stopping ==> t.stopping)
  }

  lemma StepGrows(s: State, step: Step)
    ensures Grows(s, Next(s, step))
  {
    if !step.Enqueue? && !step.Take? && !step.Finish? {
      OthersMoveNothing(s, step);
    }
  }

  lemma {:induction false} RunSound(s: State, steps: seq<Step>)
    requires Sound(s)
    ensures Sound(Run(s, steps)) && Grows(s, Run(s, steps))
  {
    if steps != [] {
      var before := Run(s, steps[..|steps| - 1]);
      RunSound(s, steps[..|steps| - 1]);
      StepSound(before, steps[|steps| - 1]);
      StepGrows(before, steps[|steps| - 1]);
    }
  }

  /** In every interleaving: each event enqueued is handled, queued, in the worker's hand or given up, and
      `dropped` counts every loss but an emit refused because a stop had begun. */
  lemma NothingUnaccounted(steps: seq<Step>)
    ensures var s := Run(INITIAL, steps);
            && s.enqueued == s.handled + |s.queue| + |InHand(s)| + |s.past.abandoned|
            && s.past.emits == s.handled + |s.queue| + |InHand(s)| + |s.past.abandoned|
                               + s.past.losses.queueFull + s.past.losses.notStarted + s.past.losses.refusedStopping
            && s.past.losses.queueFull + s.past.losses.notStarted + |s.past.abandoned| <= s.dropped
  {
    RunSound(INITIAL, steps);
  }

  /** Events are handled in strictly increasing number, and each is handled before any accepted later. */
  lemma HandledInOrder(steps: seq<Step>)
    ensures var s := Run(INITIAL, steps);
            && (forall i, j :: 0 <= i < j < |s.past.done| ==> s.past.done[i].seqNo < s.past.done[j].seqNo)
            && s.past.done <= s.past.accepted
  {
    RunSound(INITIAL, steps);
    var s := Run(INITIAL, steps);
    assert forall i :: 0 <= i < |s.past.done| ==> s.past.done[i] == s.past.accepted[i];
  }

  predicate EnqueuesUnder(step: Step, cap: int) {
    step.Enqueue? ==> step.cap == cap
  }

  /** Under one positive cap the queue never outgrows it. */
  lemma {:induction false} QueueIsBounded(steps: seq<Step>, cap: int)
    requires cap > 0 && forall i :: 0 <= i < |steps| ==> EnqueuesUnder(steps[i], cap)
    ensures |Run(INITIAL, steps).queue| <= cap
  {
    if steps != [] {
      QueueIsBounded(steps[..|steps| - 1], cap);
      assert EnqueuesUnder(steps[|steps| - 1], cap);
    }
  }

  /** What a flush waits for from the number enqueued when it began. */
  predicate Drained(s: State, target: int) {
    s.handled >= target || s.stopping
  }

  /** A flush that answers true while no stop has begun: every event accepted before it began has been
      handled. */
  lemma FlushIsABarrier(before: seq<Step>, during: seq<Step>)
    requires var s := Run(INITIAL, before); var t := Run(s, during);
             Drained(t, s.enqueued) && !t.stopping
    ensures Run(INITIAL, before).past.accepted <= Run(Run(INITIAL, before), during).past.done
  {
    RunSound(INITIAL, before);
    var s := Run(INITIAL, before);
    RunSound(s, during);
    var t := Run(s, during);
    forall i | 0 <= i < |s.past.accepted| ensures s.past.accepted[i] == t.past.done[i] {
      assert s.past.accepted[i] == t.past.accepted[i] == t.past.done[i];
    }
  }

  /** What a flush may conclude from the counts alone: unless a stop has begun it is told it drained
      exactly when every event accepted before it began has been handled. */
  lemma DrainedMeaning(s: State, accepted: seq<Event>)
    requires Sound(s) && accepted <= s.past.accepted
    ensures Drained(s, |accepted|) <==> s.stopping || accepted <= s.past.done
  {
    if s.handled >= |accepted| {
      forall i | 0 <= i < |accepted| ensures accepted[i] == s.past.done[i] {
        assert accepted[i] == s.past.accepted[i] == s.past.done[i];
      }
    }
  }

  /** With a stop under way it answers true at once: then the events accepted before it have been handled
      exactly when the count says so. */
  lemma FlushDuringStop(before: seq<Step>, during: seq<Step>)
    ensures var s := Run(INITIAL, before); var t := Run(s, during);
            && (t.stopping ==> Drained(t, s.enqueued))
            && (s.past.accepted <= t.past.done <==> t.handled >= s.enqueued)
  {
    RunSound(INITIAL, before);
    var s := Run(INITIAL, before);
    RunSound(s, during);
    var t := Run(s, during);
    if t.handled >= s.enqueued {
      forall i | 0 <= i < |s.past.accepted| ensures s.past.accepted[i] == t.past.done[i] {
        assert s.past.accepted[i] == t.past.accepted[i] == t.past.done[i];
      }
    }
  }

  /** A flush that is told it drained although its event is still queued: a stop had begun. */
  lemma DrainedIsNotHandled(e: Event)
    ensures var s := Run(INITIAL, [Enqueue(e, 10, true)]);
            var t := Run(s, [BeginStop]);
            Drained(t, s.enqueued) && |t.queue| == 1 && t.handled == 0
  {
    assert [Enqueue(e, 10, true)][..0] == [] && [BeginStop][..0] == [];
  }

  ghost predicate HasStopped(s: State) {
    s.stopping && (s.worker.Exited? || s.worker.NotStarted?)
  }

  /** Once a stop has joined the worker - or there never was one - nothing is in flight: what was not
      handled was given up, and counted. No later step changes that. */
  lemma StoppedForGood(before: seq<Step>, after: seq<Step>)
    requires HasStopped(Run(INITIAL, before))
    ensures var s := Run(INITIAL, before); var t := Run(s, after);
            && t.past.accepted == s.past.done + s.past.abandoned
            && t.past.done == s.past.done && t.queue == [] && InHand(t) == []
            && t.enqueued == t.handled + |t.past.abandoned|
  {
    RunSound(INITIAL, before);
    var s := Run(INITIAL, before);
    NothingInFlight(s);
    StaysStopped(s, after);
    RunSound(s, after);
    NothingInFlight(Run(s, after));
  }

  lemma NothingInFlight(s: State)
    requires Sound(s) && HasStopped(s)
    ensures s.queue == [] && InHand(s) == [] && s.past.accepted == s.past.done + s.past.abandoned
    ensures s.enqueued == s.handled + |s.past.abandoned|
  {
    assert s.past.done + [] + [] + s.past.abandoned == s.past.done + s.past.abandoned;
  }

  lemma StepStaysStopped(s: State, step: Step)
    requires HasStopped(s) && s.queue == []
    ensures var t := Next(s, step);
            HasStopped(t) && t.queue == [] && t.past.done == s.past.done && t.past.accepted == s.past.accepted && t.past.abandoned == s.past.abandoned
  {
  }

  lemma {:induction false} StaysStopped(s: State, after: seq<Step>)
    requires Sound(s) && HasStopped(s)
    ensures var t := Run(s, after);
            HasStopped(t) && t.queue == [] && t.past.done == s.past.done && t.past.accepted == s.past.accepted && t.past.abandoned == s.past.abandoned
  {
    NothingInFlight(s);
    if after != [] {
      StaysStopped(s, after[..|after| - 1]);
      StepStaysStopped(Run(s, after[..|after| - 1]), after[|after| - 1]);
    }
  }

  // ---------------------------------------------------------------------------------------------
  // The rings.

  function Recorded(es: seq<Event>, lineage: bool): seq<Event> {
    Filter(es, (e: Event) => e.recorded && e.lineage == lineage)
  }

  // The events that have passed their ring: those handled, and the one in hand past that stage.
  function PastRing(s: State): seq<Event> {
    if s.worker.Holding? && (s.worker.stage.ToFile? || s.worker.stage.Handled?)
    then s.past.done + [s.worker.event] else s.past.done
  }

  predicate Keeps(step: Step, ringCap: int, lineageCap: int) {
    step.ReadSettings? ==> step.ringCap == ringCap && step.lineageCap == lineageCap
  }

  ghost predicate WorkerSound(w: Worker, ringCap: int, lineageCap: int) {
    && (w.Holding? && w.stage.CapLoaded? ==> w.stage.cap == if w.event.lineage then lineageCap else ringCap)
    && (w.Holding? && !w.stage.Handled? ==> w.event.recorded)
    && (w.Holding? && w.stage.ToFile? ==> !w.event.lineage)
  }

  ghost predicate RingsSound(s: State, ringCap: int, lineageCap: int) {
    && s.ringCap == ringCap && s.lineageCap == lineageCap
    && WorkerSound(s.worker, ringCap, lineageCap)
    && s.ring == Newest(Recorded(PastRing(s), false), ringCap)
    && s.lineageRing == Newest(Recorded(PastRing(s), true), lineageCap)
  }

  lemma RecordedOneMore(es: seq<Event>, e: Event, lineage: bool)
    ensures Recorded(es + [e], lineage) == Recorded(es, lineage) + if e.recorded && e.lineage == lineage then [e] else []
  {
    assert (es + [e])[..|es|] == es;
  }

  lemma NewestOneMore(es: seq<Event>, e: Event, cap: int)
    requires cap > 0
    ensures Newest(Newest(es, cap) + [e], cap) == Newest(es + [e], cap)
  {
  }

  lemma NewestRecorded(done: seq<Event>, e: Event, cap: int, lineage: bool)
    requires cap > 0 && e.recorded
    ensures Newest(Recorded(done + [e], lineage), cap) ==
            if e.lineage == lineage then Newest(Newest(Recorded(done, lineage), cap) + [e], cap)
            else Newest(Recorded(done, lineage), cap)
  {
    RecordedOneMore(done, e, lineage);
    NewestOneMore(Recorded(done, lineage), e, cap);
  }

  lemma PushKeepsRings(s: State, ringCap: int, lineageCap: int)
    requires RingsSound(s, ringCap, lineageCap) && ringCap > 0 && lineageCap > 0
    ensures RingsSound(Ringed(s), ringCap, lineageCap)
  {
    if s.worker.Holding? && s.worker.stage.CapLoaded? {
      NewestRecorded(s.past.done, s.worker.event, ringCap, false);
      NewestRecorded(s.past.done, s.worker.event, lineageCap, true);
      assert PastRing(s) == s.past.done && PastRing(Ringed(s)) == s.past.done + [s.worker.event];
    }
  }

  lemma TakeKeepsRings(s: State, ringCap: int, lineageCap: int)
    requires RingsSound(s, ringCap, lineageCap)
    ensures RingsSound(Taken(s), ringCap, lineageCap)
  {
    if s.worker.Waiting? && s.queue != [] {
      RecordedOneMore(s.past.done, s.queue[0], false);
      RecordedOneMore(s.past.done, s.queue[0], true);
      assert !s.queue[0].recorded ==> Recorded(s.past.done + [s.queue[0]], false) == Recorded(s.past.done, false)
                                      && Recorded(s.past.done + [s.queue[0]], true) == Recorded(s.past.done, true);
    }
  }

  // What the rings hold, and what decides it, stays.
  ghost predicate RingsStay(s: State, t: State, ringCap: int, lineageCap: int) {
    && PastRing(t) == PastRing(s) && t.ring == s.ring && t.lineageRing == s.lineageRing
    && t.ringCap == ringCap && t.lineageCap == lineageCap && WorkerSound(t.worker, ringCap, lineageCap)
  }

  ghost predicate CapsAre(s: State, ringCap: int, lineageCap: int) {
    s.ringCap == ringCap && s.lineageCap == lineageCap && WorkerSound(s.worker, ringCap, lineageCap)
  }

  lemma EnqueueKeepsStages(s: State, event: Event, cap: int, canStart: bool, ringCap: int, lineageCap: int)
    requires CapsAre(s, ringCap, lineageCap)
    ensures RingsStay(s, Enqueued(s, event, cap, canStart), ringCap, lineageCap)
  {
  }

  lemma FinishKeepsStages(s: State, ringCap: int, lineageCap: int)
    requires CapsAre(s, ringCap, lineageCap)
    ensures RingsStay(s, Next(s, Finish), ringCap, lineageCap)
  {
  }

  lemma OthersKeepStages(s: State, step: Step, ringCap: int, lineageCap: int)
    requires CapsAre(s, ringCap, lineageCap) && Keeps(step, ringCap, lineageCap)
    requires !step.Enqueue? && !step.Take? && !step.PushRing? && !step.Finish?
    ensures RingsStay(s, Next(s, step), ringCap, lineageCap)
  {
  }

  lemma StayingIsSound(s: State, t: State, ringCap: int, lineageCap: int)
    requires RingsSound(s, ringCap, lineageCap) && RingsStay(s, t, ringCap, lineageCap)
    ensures RingsSound(t, ringCap, lineageCap)
  {
  }

  lemma StepKeepsRings(s: State, step: Step, ringCap: int, lineageCap: int)
    requires RingsSound(s, ringCap, lineageCap) && ringCap > 0 && lineageCap > 0 && Keeps(step, ringCap, lineageCap)
    ensures RingsSound(Next(s, step), ringCap, lineageCap)
  {
    match step
    case Take => TakeKeepsRings(s, ringCap, lineageCap);
    case PushRing => PushKeepsRings(s, ringCap, lineageCap);
    case Enqueue(event, cap, canStart) =>
      EnqueueKeepsStages(s, event, cap, canStart, ringCap, lineageCap);
      StayingIsSound(s, Next(s, step), ringCap, lineageCap);
    case Finish =>
      FinishKeepsStages(s, ringCap, lineageCap);
      StayingIsSound(s, Next(s, step), ringCap, lineageCap);
    case _ =>
      OthersKeepStages(s, step, ringCap, lineageCap);
      StayingIsSound(s, Next(s, step), ringCap, lineageCap);
  }

  /** Under fixed positive caps each ring holds exactly the newest recorded events of its kind that the
      worker has passed, oldest first: a lineage event never enters the audit ring. */
  lemma {:induction false} RingsHoldTheNewest(s: State, steps: seq<Step>, ringCap: int, lineageCap: int)
    requires ringCap > 0 && lineageCap > 0 && s == Next(INITIAL, ReadSettings(ringCap, lineageCap))
    requires forall i :: 0 <= i < |steps| ==> Keeps(steps[i], ringCap, lineageCap)
    ensures RingsSound(Run(s, steps), ringCap, lineageCap)
  {
    if steps != [] {
      RingsHoldTheNewest(s, steps[..|steps| - 1], ringCap, lineageCap);
      assert Keeps(steps[|steps| - 1], ringCap, lineageCap);
      StepKeepsRings(Run(s, steps[..|steps| - 1]), steps[|steps| - 1], ringCap, lineageCap);
    }
  }

  /** Whatever the caps become, a ring is the end of what entered it, and what it lost was counted. */
  ghost predicate RingIsASuffix(s: State) {
    && |s.past.ringed| == s.past.losses.evicted + |s.ring|
    && s.ring == s.past.ringed[s.past.losses.evicted..]
    && |s.lineageRing| <= |s.past.lineageRinged|
    && s.lineageRing == s.past.lineageRinged[|s.past.lineageRinged| - |s.lineageRing|..]
  }

  lemma NewestOfSuffix(es: seq<Event>, from: nat, e: Event, cap: int)
    requires from <= |es| && cap > 0
    ensures var kept := Newest(es[from..] + [e], cap);
            var evicted := |es[from..]| + 1 - |kept|;
            evicted >= 0 && from + evicted + |kept| == |es| + 1 && kept == (es + [e])[from + evicted..]
  {
    assert es[from..] + [e] == (es + [e])[from..];
  }

  lemma PushKeepsSuffixes(s: State)
    requires RingIsASuffix(s)
    ensures RingIsASuffix(Ringed(s))
  {
    if s.worker.Holding? && s.worker.stage.CapLoaded? && s.worker.stage.cap > 0 {
      if s.worker.event.lineage {
        NewestOfSuffix(s.past.lineageRinged, |s.past.lineageRinged| - |s.lineageRing|, s.worker.event, s.worker.stage.cap);
      } else {
        NewestOfSuffix(s.past.ringed, s.past.losses.evicted, s.worker.event, s.worker.stage.cap);
      }
    }
  }

  lemma OthersKeepSuffixes(s: State, step: Step)
    requires RingIsASuffix(s) && !step.PushRing?
    ensures RingIsASuffix(Next(s, step))
  {
  }

  lemma {:induction false} RingsAreSuffixes(steps: seq<Step>)
    ensures RingIsASuffix(Run(INITIAL, steps))
  {
    if steps != [] {
      var before := Run(INITIAL, steps[..|steps| - 1]);
      RingsAreSuffixes(steps[..|steps| - 1]);
      if steps[|steps| - 1].PushRing? {
        PushKeepsSuffixes(before);
      } else {
        OthersKeepSuffixes(before, steps[|steps| - 1]);
      }
    }
  }
}
