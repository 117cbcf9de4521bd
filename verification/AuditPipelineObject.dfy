/** The audit pipeline as an object: each method is one section under a lock, or the sections one call
    runs when no other thread comes between them. */
module AuditPipelineObject {
  import opened AuditPipeline

  class Pipeline {
    var queue: seq<Event>
    var lastSeq: nat
    var enqueued: int
    var handled: nat
    var dropped: nat
    var stopping: bool
    var abandon: bool
    var worker: Worker
    var ringCap: int
    var lineageCap: int
    var ring: seq<Event>
    var lineageRing: seq<Event>
    ghost var past: History

    ghost function View(): State
      reads this
    {
      State(queue, lastSeq, enqueued, handled, dropped, stopping, abandon, worker, ringCap, lineageCap, ring, lineageRing, past)
    }

    constructor ()
      ensures View() == INITIAL
    {
      queue, lastSeq, enqueued, handled, dropped := [], 0, 0, 0, 0;
      stopping, abandon, worker := false, false, NotStarted;
      ringCap, lineageCap, ring, lineageRing := 10000, 1000, [], [];
      past := History(0, [], [], [], [], [], NO_LOSSES);
    }

    method Accept(event: Event, canStart: bool) returns (number: nat)
      requires !stopping
      modifies this
      ensures View() == Accepted(old(View()), event, canStart)
      ensures number == if old(worker) == NotStarted && !canStart then 0 else old(lastSeq) + 1
    {
      lastSeq := lastSeq + 1;
      number := lastSeq;
      queue := queue + [event.(seqNo := lastSeq)];
      enqueued := enqueued + 1;
      if worker == NotStarted {
        if canStart {
          worker := Waiting;
        } else {
          queue := queue[..|queue| - 1];
          enqueued := enqueued - 1;
          dropped := dropped + 1;
          past := past.(losses := past.losses.(notStarted := past.losses.notStarted + 1));
          return 0;
        }
      }
      past := past.(accepted := past.accepted + [event.(seqNo := lastSeq)]);
    }

    /** Puts an event in the queue, starting the worker on the first one. */
    method EnqueueEvent(event: Event, cap: int, canStart: bool) returns (number: nat)
      modifies this
      ensures View() == Enqueued(old(View()), event, cap, canStart)
      ensures number == Answer(old(View()), cap, canStart)
    {
      past := past.(emits := past.emits + 1);
      if stopping {
        past := past.(losses := past.losses.(refusedStopping := past.losses.refusedStopping + 1));
        return 0;
      }
      if cap > 0 && |queue| >= cap {
        dropped := dropped + 1;
        past := past.(losses := past.losses.(queueFull := past.losses.queueFull + 1));
        return 0;
      }
      number := Accept(event, canStart);
    }

    /** Emits one event: the settings are read on the emitting thread, and a denial past its source's
        rate is only counted. `admitted` is false for just that: a recorded denial the limit refuses. */
    method Emit(event: Event, admitted: bool, cap: int, newRingCap: int, newLineageCap: int, canStart: bool)
      returns (number: nat)
      modifies this
      ensures var prepared := Prepared(old(View()), admitted, newRingCap, newLineageCap);
              && View() == Enqueued(prepared, if admitted then event else event.(recorded := false), cap, canStart)
              && number == Answer(prepared, cap, canStart)
    {
      ringCap, lineageCap := newRingCap, newLineageCap;
      var e := event;
      if !admitted {
        e := e.(recorded := false);
        dropped := dropped + 1;
        past := past.(losses := past.losses.(limited := past.losses.limited + 1));
      }
      assert View() == Prepared(old(View()), admitted, newRingCap, newLineageCap);
      number := EnqueueEvent(e, cap, canStart);
    }

    /** The worker's wait has ended: it takes an event, or gives the backlog up, or exits. */
    method TakeNext()
      requires worker == Waiting && (queue != [] || stopping)
      modifies this
      ensures View() == Next(old(View()), Take)
    {
      if abandon && queue != [] {
        dropped := dropped + |queue|;
        past := past.(abandoned := past.abandoned + queue);
        queue := [];
      }
      if queue == [] {
        worker := Exited;
        assert old(queue) == [] ==> old(past).abandoned + old(queue) == old(past).abandoned;
        return;
      }
      var event := queue[0];
      queue := queue[1..];
      worker := Holding(event, if event.recorded then ToRing else Handled);
    }

    method PushAudit(e: Event, cap: int)
      requires worker == Holding(e, CapLoaded(cap)) && !e.lineage
      modifies this
      ensures View() == Next(old(View()), PushRing)
    {
      worker := Holding(e, ToFile);
      if cap > 0 {
        ring := ring + [e];
        var full := ring;
        var out := 0;
        while |ring| > cap
          invariant out <= |full| && ring == full[out..] && (out > 0 ==> |ring| >= cap)
          invariant View() == old(View()).(worker := Holding(e, ToFile), ring := ring, dropped := old(dropped) + out)
        {
          ring := ring[1..];
          dropped := dropped + 1;
          out := out + 1;
        }
        assert ring == Newest(full, cap);
        past := past.(ringed := past.ringed + [e], losses := past.losses.(evicted := past.losses.evicted + out));
      }
    }

    method PushLineage(e: Event, cap: int)
      requires worker == Holding(e, CapLoaded(cap)) && e.lineage
      modifies this
      ensures View() == Next(old(View()), PushRing)
    {
      worker := Holding(e, Handled);
      if cap > 0 {
        lineageRing := lineageRing + [e];
        var full := lineageRing;
        ghost var out := 0;
        while |lineageRing| > cap
          invariant out <= |full| && lineageRing == full[out..] && (out > 0 ==> |lineageRing| >= cap)
          invariant View() == old(View()).(worker := Holding(e, Handled), lineageRing := lineageRing)
        {
          lineageRing := lineageRing[1..];
          out := out + 1;
        }
        assert lineageRing == Newest(full, cap);
        past := past.(lineageRinged := past.lineageRinged + [e]);
      }
    }

    method PushToRing()
      modifies this
      ensures View() == Next(old(View()), PushRing)
    {
      if worker.Holding? && worker.stage.CapLoaded? {
        if worker.event.lineage {
          PushLineage(worker.event, worker.stage.cap);
        } else {
          PushAudit(worker.event, worker.stage.cap);
        }
      }
    }

    method LoadRingCap()
      modifies this`worker
      ensures View() == Next(old(View()), LoadCap)
    {
      if worker.Holding? && worker.stage == ToRing {
        worker := Holding(worker.event, CapLoaded(if worker.event.lineage then lineageCap else ringCap));
      }
    }

    method WriteToFile(lost: bool)
      modifies this
      ensures View() == Next(old(View()), WriteFile(lost))
    {
      if worker.Holding? && worker.stage == ToFile {
        if lost {
          dropped := dropped + 1;
          past := past.(losses := past.losses.(unwritten := past.losses.unwritten + 1));
        }
        worker := Holding(worker.event, Handled);
      }
    }

    method CountHandled()
      requires worker.Holding? && worker.stage == Handled
      modifies this
      ensures View() == Next(old(View()), Finish)
    {
      handled := handled + 1;
      past := past.(done := past.done + [worker.event]);
      worker := Waiting;
    }

    /** Hands an event to its ring and the file, undisturbed, and counts it handled. */
    method HandleEvent(lost: bool)
      requires worker.Holding? && (worker.stage == ToRing || worker.stage == Handled)
      modifies this
      ensures View() == Next(Next(Next(Next(old(View()), LoadCap), PushRing), WriteFile(lost)), Finish)
      ensures worker == Waiting && handled == old(handled) + 1
    {
      LoadRingCap();
      PushToRing();
      WriteToFile(lost);
      CountHandled();
    }

    /** A flush begins: what it waits for is the number of events accepted so far. */
    method BeginFlush() returns (target: int, ghost accepted: seq<Event>)
      requires Sound(View())
      ensures accepted == past.accepted && target == |accepted|
    {
      target, accepted := enqueued, past.accepted;
    }

    /** What the flush is told later: every event accepted before it began has been handled - or a stop has
        begun. */
    method HasDrained(target: int, ghost accepted: seq<Event>) returns (drained: bool)
      requires Sound(View()) && accepted <= past.accepted && target == |accepted|
      ensures drained <==> accepted <= past.done || stopping
    {
      DrainedMeaning(View(), accepted);
      drained := handled >= target || stopping;
    }

    method WorkerTurn(lost: bool)
      requires stopping && AtRest(worker) && !HasStopped(View())
      modifies this
      ensures View() == Turn(old(View()), lost)
    {
      if worker.Holding? {
        HandleEvent(lost);
      } else {
        TakeNext();
      }
    }

    // The backlog gets its while: so many turns of the worker.
    method Drain(grace: nat, lost: nat -> bool)
      requires Sound(View()) && stopping && AtRest(worker)
      modifies this
      ensures Sound(View()) && TurnedFrom(old(View()), View())
      ensures HasStopped(View()) || grace + TurnsLeft(View()) <= TurnsLeft(old(View()))
    {
      var turns := 0;
      while turns < grace && (worker.Waiting? || worker.Holding?)
        invariant Sound(View()) && TurnedFrom(old(View()), View())
        invariant turns <= grace && turns + TurnsLeft(View()) <= TurnsLeft(old(View()))
      {
        TurnSound(View(), lost(turns));
        WorkerTurn(lost(turns));
        turns := turns + 1;
      }
    }

    // What is left is given up, and the worker exits.
    method Join(lost: bool)
      requires Sound(View()) && stopping && abandon && AtRest(worker)
      modifies this
      ensures Sound(View()) && TurnedFrom(old(View()), View()) && HasStopped(View())
      ensures HasStopped(old(View())) ==> View() == old(View())
    {
      while worker.Waiting? || worker.Holding?
        invariant Sound(View()) && TurnedFrom(old(View()), View())
        invariant HasStopped(old(View())) ==> View() == old(View())
        decreases TurnsLeft(View())
      {
        TurnSound(View(), lost);
        WorkerTurn(lost);
      }
    }

    method StartStopping()
      requires Sound(View())
      modifies this`stopping
      ensures View() == Next(old(View()), BeginStop) && Sound(View())
    {
      StepSound(View(), BeginStop);
      stopping := true;
    }

    method GiveUpBacklog()
      requires Sound(View()) && stopping
      modifies this`abandon
      ensures View() == Next(old(View()), GiveUp) && Sound(View())
    {
      StepSound(View(), GiveUp);
      abandon := true;
    }

    /** A stop, undisturbed: the worker gets `grace` turns at the backlog, then gives the rest up and exits.
        Nothing is in flight afterwards, and with turns enough nothing is given up. */
    method Stop(grace: nat, lost: nat -> bool)
      requires Sound(View()) && AtRest(worker)
      modifies this
      ensures Sound(View()) && HasStopped(View())
      ensures past.accepted == old(past).accepted && past.accepted == past.done + past.abandoned && old(past).done <= past.done
      ensures !old(abandon) && grace >= TurnsLeft(old(View())) ==> past.abandoned == old(past).abandoned
    {
      StartStopping();
      Drain(grace, lost);
      GiveUpBacklog();
      Join(lost(grace));
      NothingInFlight(View());
    }
  }

  // The worker is between two events, or about to hand one on.
  predicate AtRest(w: Worker) {
    w.Holding? ==> w.stage == ToRing || w.stage == Handled
  }

  /** How many turns the worker needs to hand on what is left, and exit. */
  function TurnsLeft(s: State): nat {
    match s.worker
    case Holding(_, _) => 2 * |s.queue| + 2
    case Waiting => 2 * |s.queue| + 1
    case _ => 0
  }

  function Handed(s: State, lost: bool): State {
    Next(Next(Next(Next(s, LoadCap), PushRing), WriteFile(lost)), Finish)
  }

  /** The worker's turn: it hands its event on, or takes the next. */
  function Turn(s: State, lost: bool): State {
    if s.worker.Holding? then Handed(s, lost) else Taken(s)
  }

  /** Turns of a worker under a stop lose no event, and give none up unless told to. */
  ghost predicate TurnedFrom(s: State, t: State) {
    && t.stopping && t.abandon == s.abandon && AtRest(t.worker)
    && t.past.accepted == s.past.accepted && s.past.done <= t.past.done
    && (!s.abandon ==> t.past.abandoned == s.past.abandoned)
  }

  lemma HandedSound(s: State, lost: bool)
    requires Sound(s) && s.worker.Holding? && AtRest(s.worker)
    ensures var t := Handed(s, lost);
            && Sound(t) && t.worker == Waiting && t.queue == s.queue && t.stopping == s.stopping && t.abandon == s.abandon
            && t.past.accepted == s.past.accepted && t.past.done == s.past.done + [s.worker.event] && t.past.abandoned == s.past.abandoned
  {
    var a := Next(s, LoadCap);
    var b := Next(a, PushRing);
    var c := Next(b, WriteFile(lost));
    StepSound(s, LoadCap);
    StepSound(a, PushRing);
    StepSound(b, WriteFile(lost));
    StepSound(c, Finish);
    OnItsWay(s, a, LoadCap);
    OnItsWay(a, b, PushRing);
    OnItsWay(b, c, WriteFile(lost));
  }

  // A step of the worker with an event in its hand keeps it there, one stage on.
  lemma OnItsWay(s: State, t: State, step: Step)
    requires t == Next(s, step) && s.worker.Holding? && (step.LoadCap? || step.PushRing? || step.WriteFile?)
    ensures t.worker.Holding? && t.worker.event == s.worker.event && t.queue == s.queue
    ensures t.stopping == s.stopping && t.abandon == s.abandon
    ensures t.past.accepted == s.past.accepted && t.past.done == s.past.done && t.past.abandoned == s.past.abandoned
    ensures s.worker.stage == Handled ==> t.worker.stage == Handled
    ensures step.LoadCap? && s.worker.stage == ToRing ==> t.worker.stage.CapLoaded?
    ensures step.PushRing? && s.worker.stage.CapLoaded? ==> t.worker.stage == ToFile || t.worker.stage == Handled
    ensures step.WriteFile? && s.worker.stage == ToFile ==> t.worker.stage == Handled
  {
  }

  lemma TurnSound(s: State, lost: bool)
    requires Sound(s) && s.stopping && AtRest(s.worker) && !HasStopped(s)
    ensures Sound(Turn(s, lost)) && TurnedFrom(s, Turn(s, lost)) && TurnsLeft(Turn(s, lost)) < TurnsLeft(s)
  {
    if s.worker.Holding? {
      HandedSound(s, lost);
    } else {
      StepSound(s, Take);
      assert Next(s, Take) == Taken(s);
    }
  }
}
