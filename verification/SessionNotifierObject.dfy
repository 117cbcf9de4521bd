/** The session notifier as an object: the sections under its lock, and the deliveries between them when
    no other thread comes between. */
module SessionNotifierObject {
  import opened SessionNotifier

  /** One call of an observer. */
  datatype Call = Call(observer: string, what: Told)

  datatype Outcome = Outcome(threw: bool, slow: bool)

  function CallsFor(observers: seq<string>, what: Told): (calls: seq<Call>)
    ensures |calls| == |observers|
  {
    seq(|observers|, i requires 0 <= i < |observers| => Call(observers[i], what))
  }

  function CallsForAll(observers: seq<string>, due: seq<Close>): seq<Call> {
    if due == [] then [] else
    var n := |due| - 1;
    CallsForAll(observers, due[..n]) + CallsFor(observers, CloseOf(due[n]))
  }

  function Threw(calls: seq<Call>, outcome: Call -> Outcome): nat {
    if calls == [] then 0 else
    var n := |calls| - 1;
    Threw(calls[..n], outcome) + if outcome(calls[n]).threw then 1 else 0
  }

  lemma {:induction false} ThrewConcat(a: seq<Call>, b: seq<Call>, outcome: Call -> Outcome)
    ensures Threw(a + b, outcome) == Threw(a, outcome) + Threw(b, outcome)
    decreases |b|
  {
    if b == [] {
      assert a + b == a;
    } else {
      assert (a + b)[..|a + b| - 1] == a + b[..|b| - 1];
      ThrewConcat(a, b[..|b| - 1], outcome);
    }
  }

  lemma Times(n: nat, a: nat)
    ensures n * (a + 1) == n * a + n
  {
  }

  /** Every observer is called once for every close of the batch. */
  lemma {:induction false} EachObserverEachClose(observers: seq<string>, due: seq<Close>, observer: string, close: Close)
    ensures multiset(CallsForAll(observers, due))[Call(observer, CloseOf(close))] == multiset(observers)[observer] * multiset(due)[close]
  {
    if due != [] {
      var n := |due| - 1;
      var call := Call(observer, CloseOf(close));
      EachObserverEachClose(observers, due[..n], observer, close);
      OneCallEach(observers, CloseOf(due[n]), call);
      Times(multiset(observers)[observer], multiset(due[..n])[close]);
      LastCounts(due, close);
      CallsCount(CallsForAll(observers, due[..n]), CallsFor(observers, CloseOf(due[n])), call);
    }
  }

  lemma LastCounts(due: seq<Close>, close: Close)
    requires due != []
    ensures multiset(due)[close] == multiset(due[..|due| - 1])[close] + if due[|due| - 1] == close then 1 else 0
  {
    assert due == due[..|due| - 1] + [due[|due| - 1]];
  }

  lemma CallsCount(a: seq<Call>, b: seq<Call>, call: Call)
    ensures multiset(a + b)[call] == multiset(a)[call] + multiset(b)[call]
  {
  }

  lemma {:induction false} OneCallEach(observers: seq<string>, what: Told, call: Call)
    ensures multiset(CallsFor(observers, what))[call] == if call.what == what then multiset(observers)[call.observer] else 0
  {
    if observers == [] {
      assert CallsFor(observers, what) == [];
    } else {
      var n := |observers| - 1;
      OneCallEach(observers[..n], what, call);
      assert observers == observers[..n] + [observers[n]];
      assert CallsFor(observers, what) == CallsFor(observers[..n], what) + [Call(observers[n], what)];
    }
  }

  function Closings(due: seq<Close>): (told: seq<Told>)
    ensures |told| == |due|
  {
    seq(|due|, i requires 0 <= i < |due| => CloseOf(due[i]))
  }

  lemma {:induction false} ClosingsAreDelivered(told: seq<Told>, due: seq<Close>)
    ensures Delivered(told + Closings(due)) == Delivered(told) + due
  {
    if due == [] {
      assert told + Closings(due) == told;
    } else {
      var n := |due| - 1;
      ClosingsAreDelivered(told, due[..n]);
      assert Closings(due) == Closings(due[..n]) + [CloseOf(due[n])];
      assert told + Closings(due) == (told + Closings(due[..n])) + [CloseOf(due[n])];
      DeliveredOneMore(told + Closings(due[..n]), CloseOf(due[n]));
    }
  }

  lemma CallsOneMore(observers: seq<string>, due: seq<Close>, i: nat, outcome: Call -> Outcome)
    requires i < |due|
    ensures CallsForAll(observers, due[..i + 1]) == CallsForAll(observers, due[..i]) + CallsFor(observers, CloseOf(due[i]))
    ensures Threw(CallsForAll(observers, due[..i + 1]), outcome)
         == Threw(CallsForAll(observers, due[..i]), outcome) + Threw(CallsFor(observers, CloseOf(due[i])), outcome)
  {
    assert due[..i + 1][..i] == due[..i];
    ThrewConcat(CallsForAll(observers, due[..i]), CallsFor(observers, CloseOf(due[i])), outcome);
  }

  lemma ToldNothing(s: State, flusher: nat, due: seq<Close>)
    requires flusher < |s.batches| && s.batches[flusher] == due
    ensures ToldSome(s, flusher, due, 0) == s
  {
    assert due[0..] == due && s.batches[flusher := due] == s.batches && s.told + Closings(due[..0]) == s.told;
  }

  ghost function ToldNext(s: State, flusher: nat): State
    requires flusher < |s.batches| && s.batches[flusher] != []
  {
    s.(batches := s.batches[flusher := s.batches[flusher][1..]], told := s.told + [CloseOf(s.batches[flusher][0])])
  }

  ghost function ToldSome(s: State, flusher: nat, due: seq<Close>, i: nat): State
    requires flusher < |s.batches| && i <= |due|
  {
    s.(batches := s.batches[flusher := due[i..]], told := s.told + Closings(due[..i]))
  }

  lemma ToldOneMoreOf(s: State, flusher: nat, due: seq<Close>, i: nat)
    requires flusher < |s.batches| && i < |due|
    ensures ToldSome(s, flusher, due, i + 1) == ToldNext(ToldSome(s, flusher, due, i), flusher)
  {
    assert due[i..][1..] == due[i + 1..];
    assert s.batches[flusher := due[i..]][flusher := due[i + 1..]] == s.batches[flusher := due[i + 1..]];
    assert Closings(due[..i + 1]) == Closings(due[..i]) + [CloseOf(due[i])];
  }

  class Notifier {
    var opening: set<string>
    var deferred: map<string, string>
    var closes: seq<Close>
    var failures: nat
    var slow: nat
    ghost var others: State
    ghost var calls: seq<Call>

    /** The state the threads share; the batches and the history are the specification's. */
    ghost function View(): State
      reads this
    {
      others.(opening := opening, deferred := deferred, closes := closes)
    }

    constructor (ghost flushers: nat)
      ensures View() == Initial(flushers) && calls == [] && failures == 0
    {
      opening, deferred, closes, failures, slow := {}, map[], [], 0, 0;
      others, calls := Initial(flushers), [];
    }

    /** From here the session's close waits for its open to be delivered. */
    method BeginOpen(session: string)
      requires Legal(View(), Step.BeginOpen(session))
      modifies this
      ensures View() == Next(old(View()), Step.BeginOpen(session))
      ensures calls == old(calls) && failures == old(failures)
    {
      opening := opening + {session};
      others := others.(begun := others.begun + {session});
    }

    method QueueClose(close: Close)
      requires Legal(View(), Step.QueueClose(close))
      modifies this
      ensures View() == Next(old(View()), Step.QueueClose(close))
      ensures calls == old(calls) && failures == old(failures)
    {
      others := others.(queued := others.queued + [close]);
      if close.session in opening {
        if close.session in deferred {
          others := others.(replaced := others.replaced + [Close(close.session, deferred[close.session])]);
        }
        deferred := deferred[close.session := close.reason];
        return;
      }
      closes := closes + [close];
    }

    /** Every observer hears of it; one that throws is counted and keeps nobody else from hearing. */
    method Tell(what: Told, observers: seq<string>, outcome: Call -> Outcome)
      modifies this`calls, this`failures, this`slow
      ensures calls == old(calls) + CallsFor(observers, what)
      ensures failures == old(failures) + Threw(CallsFor(observers, what), outcome)
    {
      ghost var all := CallsFor(observers, what);
      for i := 0 to |observers|
        invariant calls == old(calls) + all[..i] && failures == old(failures) + Threw(all[..i], outcome)
      {
        var call := Call(observers[i], what);
        assert all[..i + 1][..i] == all[..i];
        calls := calls + [call];
        if outcome(call).threw {
          failures := failures + 1;
        }
        if outcome(call).slow {
          slow := slow + 1;
        }
      }
      assert all[..|observers|] == all;
    }

    method TellOpen(session: string, observers: seq<string>, outcome: Call -> Outcome)
      requires Legal(View(), DeliverOpen(session))
      modifies this
      ensures View() == Next(old(View()), DeliverOpen(session))
      ensures calls == old(calls) + CallsFor(observers, OpenOf(session))
      ensures failures == old(failures) + Threw(CallsFor(observers, OpenOf(session)), outcome)
    {
      Tell(OpenOf(session), observers, outcome);
      others := others.(announced := others.announced + {session}, told := others.told + [OpenOf(session)]);
    }

    /** The open is over: a close that came meanwhile is queued. */
    method EndOpen(session: string)
      requires Legal(View(), FinishOpen(session))
      modifies this
      ensures View() == Next(old(View()), FinishOpen(session))
      ensures calls == old(calls) && failures == old(failures)
    {
      opening := opening - {session};
      if session in deferred {
        closes := closes + [Close(session, deferred[session])];
      }
      deferred := deferred - {session};
    }

    method TellClose(ghost flusher: nat, close: Close, observers: seq<string>, outcome: Call -> Outcome)
      requires Legal(View(), DeliverClose(flusher)) && close == View().batches[flusher][0]
      modifies this`others, this`calls, this`failures, this`slow
      ensures View() == Next(old(View()), DeliverClose(flusher))
      ensures others == ToldNext(old(others), flusher)
      ensures calls == old(calls) + CallsFor(observers, CloseOf(close))
      ensures failures == old(failures) + Threw(CallsFor(observers, CloseOf(close)), outcome)
    {
      Tell(CloseOf(close), observers, outcome);
      others := others.(batches := others.batches[flusher := others.batches[flusher][1..]], told := others.told + [CloseOf(close)]);
    }

    method TellBatch(ghost flusher: nat, due: seq<Close>, observers: seq<string>, outcome: Call -> Outcome)
      requires flusher < |others.batches| && others.batches[flusher] == due
      modifies this`others, this`calls, this`failures, this`slow
      ensures others == ToldSome(old(others), flusher, due, |due|)
      ensures calls == old(calls) + CallsForAll(observers, due)
      ensures failures == old(failures) + Threw(CallsForAll(observers, due), outcome)
    {
      ToldNothing(others, flusher, due);
      for i := 0 to |due|
        invariant others == ToldSome(old(others), flusher, due, i)
        invariant calls == old(calls) + CallsForAll(observers, due[..i])
        invariant failures == old(failures) + Threw(CallsForAll(observers, due[..i]), outcome)
      {
        CallsOneMore(observers, due, i, outcome);
        ToldOneMoreOf(old(others), flusher, due, i);
        TellClose(flusher, due[i], observers, outcome);
      }
      assert due[..|due|] == due;
    }

    /** A flusher takes every queued close, then tells every observer of each, in order - undisturbed. */
    method Flush(ghost flusher: nat, observers: seq<string>, outcome: Call -> Outcome)
      requires Legal(View(), TakeBatch(flusher))
      modifies this
      ensures closes == [] && opening == old(opening) && deferred == old(deferred)
      ensures others == old(others).(told := old(others).told + Closings(old(closes)))
      ensures Delivered(others.told) == Delivered(old(others).told) + old(closes)
      ensures calls == old(calls) + CallsForAll(observers, old(closes))
      ensures failures == old(failures) + Threw(CallsForAll(observers, old(closes)), outcome)
    {
      var due := closes;
      closes := [];
      others := others.(batches := others.batches[flusher := due]);
      TellBatch(flusher, due, observers, outcome);
      assert due[..|due|] == due && due[|due|..] == [];
      assert old(others).batches[flusher := due][flusher := []] == old(others).batches;
      ClosingsAreDelivered(old(others).told, due);
    }
  }
}
