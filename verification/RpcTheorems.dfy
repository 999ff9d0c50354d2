/** What holds of the pending calls of a client over every run. */
module RpcTheorems {
  import opened Bytes
  import opened Options
  import opened RpcCalls
  import opened Sessions

  // ---------------------------------------------------------------- invariant

  function Settled(log: seq<Settlement>): set<nat> {
    set x <- log :: x.call
  }

  /** The table that holds exactly the calls that are not done. */
  function Open(calls: seq<int>, done: set<nat>): seq<Entry> {
    if calls == [] then [] else
      var k := |calls| - 1;
      Open(calls[..k], done) + if k in done then [] else [Entry(calls[k], k)]
  }

  function Waiting(calls: seq<int>, done: set<nat>): set<nat> {
    set k | 0 <= k < |calls| && k !in done
  }

  ghost predicate DistinctIds(calls: seq<int>, done: set<nat>) {
    forall j, k :: 0 <= j < k < |calls| && j !in done && k !in done ==> calls[j] != calls[k]
  }

  /** Every call is either settled, once, or it waits under an id of its own with its timer
      armed. */
  ghost predicate Consistent(s: State) {
    var done := Settled(s.log);
    && s.pending == Open(s.calls, done)
    && s.armed == Waiting(s.calls, done)
    && DistinctIds(s.calls, done)
    && (forall x :: x in s.log ==> x.call < |s.calls|)
    && (forall i, j :: 0 <= i < j < |s.log| ==> s.log[i].call != s.log[j].call)
  }

  lemma {:induction false} OpenMembers(calls: seq<int>, done: set<nat>)
    ensures forall e :: e in Open(calls, done) <==> e.call < |calls| && e.call !in done && calls[e.call] == e.msgId
    decreases |calls|
  {
    if calls != [] { OpenMembers(calls[..|calls| - 1], done); }
  }

  lemma {:induction false} OpenWithin(calls: seq<int>, a: set<nat>, b: set<nat>)
    requires forall k :: 0 <= k < |calls| ==> (k in a <==> k in b)
    ensures Open(calls, a) == Open(calls, b)
    decreases |calls|
  {
    if calls != [] { OpenWithin(calls[..|calls| - 1], a, b); }
  }

  lemma {:induction false} FindInOpen(calls: seq<int>, done: set<nat>, msgId: int)
    ensures var r := Find(Open(calls, done), msgId);
            && (r.Some? ==> r.value < |calls| && r.value !in done && calls[r.value] == msgId)
            && (r.None? ==> forall k :: 0 <= k < |calls| && k !in done ==> calls[k] != msgId)
    decreases |calls|
  {
    if calls != [] {
      var k := |calls| - 1;
      FindInOpen(calls[..k], done, msgId);
      assert k !in done ==> Open(calls, done)[..|Open(calls, done)| - 1] == Open(calls[..k], done);
      assert k in done ==> Open(calls, done) == Open(calls[..k], done);
    }
  }

  lemma {:induction false} DeleteFromOpen(calls: seq<int>, done: set<nat>, call: nat)
    requires call < |calls| && call !in done && DistinctIds(calls, done)
    ensures Delete(Open(calls, done), calls[call]) == Open(calls, done + {call})
    decreases |calls|
  {
    var k := |calls| - 1;
    var init := Open(calls[..k], done);
    assert k !in done ==> Open(calls, done)[..|Open(calls, done)| - 1] == init;
    assert k in done ==> Open(calls, done) == init;
    if call < k {
      DeleteFromOpen(calls[..k], done, call);
      assert k !in done ==> calls[k] != calls[call];
    } else {
      OpenWithin(calls[..k], done, done + {call});
    }
  }

  /** An id that is there keeps its place and takes the new call, another goes to the end. */
  lemma {:induction false} SetKeepsPlaces(es: seq<Entry>, msgId: int, call: nat)
    ensures |Set(es, msgId, call)| == |es| + if Find(es, msgId).None? then 1 else 0
    ensures Find(Set(es, msgId, call), msgId) == Some(call)
    ensures Find(es, msgId).Some? ==>
              forall i :: 0 <= i < |es| ==> var e := Set(es, msgId, call)[i];
                e.msgId == es[i].msgId && (e.msgId != msgId ==> e == es[i])
    ensures Find(es, msgId).None? ==> Set(es, msgId, call) == es + [Entry(msgId, call)]
    decreases |es|
  {
    if es != [] { SetKeepsPlaces(es[..|es| - 1], msgId, call); }
  }

  lemma {:induction false} OpenCount(calls: seq<int>, done: set<nat>)
    requires forall k :: k in done ==> k < |calls|
    ensures |Open(calls, done)| + |done| == |calls|
    decreases |calls|
  {
    if calls == [] {
      assert done == {};
    } else {
      var k := |calls| - 1;
      OpenWithin(calls[..k], done, done - {k});
      OpenCount(calls[..k], done - {k});
    }
  }

  lemma {:induction false} OpenOrdered(calls: seq<int>, done: set<nat>)
    ensures forall i, j :: 0 <= i < j < |Open(calls, done)| ==> Open(calls, done)[i].call < Open(calls, done)[j].call
    ensures forall i :: 0 <= i < |Open(calls, done)| ==> Open(calls, done)[i].call < |calls|
    decreases |calls|
  {
    if calls != [] { OpenOrdered(calls[..|calls| - 1], done); }
  }

  lemma {:induction false} SettledCount(log: seq<Settlement>)
    requires forall i, j :: 0 <= i < j < |log| ==> log[i].call != log[j].call
    ensures |Settled(log)| == |log|
  {
    if log != [] {
      var k := |log| - 1;
      SettledCount(log[..k]);
      assert log == log[..k] + [log[k]];
      assert Settled(log) == Settled(log[..k]) + {log[k].call};
    }
  }

  lemma SettledSnoc(log: seq<Settlement>, x: Settlement)
    ensures Settled(log + [x]) == Settled(log) + {x.call}
  {
    assert x in log + [x];
    assert forall y :: y in log ==> y in log + [x];
  }

  // -------------------------------------------------------------------- steps

  /** A registration keeps the table consistent exactly when its id is not waiting already. */
  lemma RegisterKeeps(s: State, msgId: int)
    requires Consistent(s)
    ensures Consistent(Register(s, msgId)) <==> Find(s.pending, msgId).None?
  {
    hide Find, Set;
    var t, n, done := Register(s, msgId), |s.calls|, Settled(s.log);
    assert n !in done && t.calls[..n] == s.calls;
    FindInOpen(s.calls, done, msgId);
    SetKeepsPlaces(s.pending, msgId, n);
    if Find(s.pending, msgId).None? {
      assert t.armed == Waiting(t.calls, done);
    }
  }

  /** A result or an error settles the call that waits under its id, and nothing else. */
  lemma SettleKeeps(s: State, msgId: int, outcome: Outcome)
    requires Consistent(s)
    ensures Consistent(Settle(s, msgId, outcome))
    ensures forall k :: k in s.armed && s.calls[k] == msgId ==>
              Settle(s, msgId, outcome).log == s.log + [Settlement(k, outcome)]
    ensures (forall k :: k in s.armed ==> s.calls[k] != msgId) ==> Settle(s, msgId, outcome) == s
  {
    hide Find, Delete;
    var done, found := Settled(s.log), Find(s.pending, msgId);
    FindInOpen(s.calls, done, msgId);
    if found.Some? {
      DeleteFromOpen(s.calls, done, found.value);
      Close(s, found.value, outcome);
    }
  }

  /** Closing one waiting call, as every settlement does. */
  lemma Close(s: State, call: nat, outcome: Outcome)
    requires Consistent(s) && call in s.armed
    ensures Consistent(State(Open(s.calls, Settled(s.log) + {call}), s.armed - {call}, s.calls,
                             s.log + [Settlement(call, outcome)]))
  {
    hide Open;
    var done, log := Settled(s.log), s.log + [Settlement(call, outcome)];
    SettledSnoc(s.log, Settlement(call, outcome));
    assert s.armed - {call} == Waiting(s.calls, done + {call});
    assert forall i :: 0 <= i < |s.log| ==> s.log[i] in s.log && log[i] == s.log[i];
  }

  /** A timer that fires settles its own call. */
  lemma FireKeeps(s: State, call: nat)
    requires Consistent(s)
    ensures Consistent(Fire(s, call))
    ensures call in s.armed ==> Fire(s, call).log == s.log + [Settlement(call, TimedOut)]
  {
    hide Find, Delete;
    if call in s.armed {
      var done := Settled(s.log);
      FindInOpen(s.calls, done, s.calls[call]);
      DeleteFromOpen(s.calls, done, call);
      Close(s, call, TimedOut);
    }
  }

  /** Cancelling settles every waiting call. */
  lemma CancelAllKeeps(s: State, reason: string)
    requires Consistent(s)
    ensures Consistent(CancelAll(s, reason))
    ensures var t := CancelAll(s, reason);
            && t.pending == [] && t.armed == {}
            && |t.log| == |s.log| + |s.pending| && s.log <= t.log
            && forall i :: 0 <= i < |s.pending| ==> t.log[|s.log| + i] == Settlement(s.pending[i].call, Cancelled(reason))
  {
    hide Open;
    var done, t := Settled(s.log), CancelAll(s, reason);
    OpenMembers(s.calls, done);
    OpenOrdered(s.calls, done);
    var more := Cancellations(s.pending, reason);
    forall k | 0 <= k < |s.calls| ensures k in Settled(t.log) {
      if k in done {
        var x :| x in s.log && x.call == k;
        assert x in t.log;
      } else {
        assert Entry(s.calls[k], k) in s.pending;
        var i :| 0 <= i < |s.pending| && s.pending[i] == Entry(s.calls[k], k);
        assert more[i] in t.log;
      }
    }
    forall i, j | 0 <= i < j < |t.log| ensures t.log[i].call != t.log[j].call {
      LogOrder(s, reason, i, j);
    }
    OpenAllDone(s.calls, Settled(t.log));
    forall k | k in s.armed ensures k in TimersOf(s.pending) {
      assert Entry(s.calls[k], k) in s.pending;
    }
  }

  lemma LogOrder(s: State, reason: string, i: nat, j: nat)
    requires Consistent(s)
    requires i < j < |s.log + Cancellations(s.pending, reason)|
    ensures var log := s.log + Cancellations(s.pending, reason); log[i].call != log[j].call
  {
    hide Open;
    var done, n := Settled(s.log), |s.log|;
    OpenMembers(s.calls, done);
    OpenOrdered(s.calls, done);
    if i < n <= j {
      assert s.pending[j - n] in s.pending && s.log[i] in s.log;
    }
  }

  lemma {:induction false} OpenAllDone(calls: seq<int>, done: set<nat>)
    requires forall k :: 0 <= k < |calls| ==> k in done
    ensures Open(calls, done) == []
    decreases |calls|
  {
    if calls != [] { OpenAllDone(calls[..|calls| - 1], done); }
  }

  predicate IsResolution(x: Settlement) {
    x.outcome.Resolved?
  }

  function Resolutions(log: seq<Settlement>): nat {
    if log == [] then 0 else Resolutions(log[..|log| - 1]) + if IsResolution(log[|log| - 1]) then 1 else 0
  }

  function Rejections(log: seq<Settlement>): nat {
    if log == [] then 0 else Rejections(log[..|log| - 1]) + if IsResolution(log[|log| - 1]) then 0 else 1
  }

  lemma {:induction false} EitherWay(log: seq<Settlement>)
    ensures Resolutions(log) + Rejections(log) == |log|
  {
    if log != [] { EitherWay(log[..|log| - 1]); }
  }

  /** registered = resolved + rejected + pending, and the timers armed are those of the
      pending calls. */
  lemma Accounting(s: State)
    requires Consistent(s)
    ensures |s.calls| == Resolutions(s.log) + Rejections(s.log) + |s.pending|
    ensures s.armed == TimersOf(s.pending)
  {
    hide Open;
    EitherWay(s.log);
    SettledCount(s.log);
    OpenCount(s.calls, Settled(s.log));
    OpenMembers(s.calls, Settled(s.log));
    assert forall k :: k in s.armed ==> Entry(s.calls[k], k) in s.pending;
  }

  // --------------------------------------------------------------------- runs

  /** The client: its last message id, the ids of the sends whose calls are not registered
      yet (invoke awaits the send before it registers), and its calls. */
  datatype Client = Client(lastId: int, issued: multiset<int>, rpc: State)

  /** Everything that can happen between two turns of the event loop. A step that is not
      possible changes nothing. Reset is Session.reset. */
  datatype Step =
    | Send(reading: int)
    | Await(msgId: int)
    | Result(msgId: int, data: seq<byte>)
    | Error(msgId: int, code: int, message: string)
    | Timeout(call: nat)
    | Disconnect(reason: string)
    | Reset

  function Do(c: Client, step: Step): Client {
    match step
    case Send(reading) => var id := NextId(c.lastId, reading); c.(lastId := id, issued := c.issued + multiset{id})
    case Await(id) => if id in c.issued then c.(issued := c.issued - multiset{id}, rpc := Register(c.rpc, id)) else c
    case Result(id, data) => c.(rpc := Settle(c.rpc, id, Resolved(data)))
    case Error(id, code, message) => c.(rpc := Settle(c.rpc, id, Failed(code, message)))
    case Timeout(call) => c.(rpc := Fire(c.rpc, call))
    case Disconnect(reason) => c.(rpc := CancelAll(c.rpc, reason))
    case Reset => c.(lastId := 0)
  }

  function Run(c: Client, steps: seq<Step>): Client {
    if steps == [] then c else Do(Run(c, steps[..|steps| - 1]), steps[|steps| - 1])
  }

  const START := Client(0, multiset{}, INITIAL)

  /** Every id given out so far is at most the last one, and none was given out twice. */
  ghost predicate Fresh(c: Client) {
    && IsId(c.lastId)
    && (forall id :: id in c.issued ==> c.issued[id] == 1 && id <= c.lastId && id !in c.rpc.calls)
    && (forall id :: id in c.rpc.calls ==> id <= c.lastId)
    && (forall i, j :: 0 <= i < j < |c.rpc.calls| ==> c.rpc.calls[i] != c.rpc.calls[j])
  }

  lemma StepIsSafe(c: Client, step: Step)
    requires Consistent(c.rpc) && Fresh(c) && !step.Reset?
    ensures Consistent(Do(c, step).rpc) && Fresh(Do(c, step))
  {
    hide Consistent, NextId, IsId;
    match step
    case Send(reading) => NextIdIsLeast(c.lastId, reading);
    case Await(id) =>
      if id in c.issued {
        RegisterKeeps(c.rpc, id);
        NotWaiting(c.rpc, id);
      }
    case Result(id, data) => SettleKeeps(c.rpc, id, Resolved(data));
    case Error(id, code, message) => SettleKeeps(c.rpc, id, Failed(code, message));
    case Timeout(call) => FireKeeps(c.rpc, call);
    case Disconnect(reason) => CancelAllKeeps(c.rpc, reason);
  }

  lemma NotWaiting(s: State, msgId: int)
    requires Consistent(s) && msgId !in s.calls
    ensures Find(s.pending, msgId).None?
  {
    hide Find;
    FindInOpen(s.calls, Settled(s.log), msgId);
  }

  /** Within one session, for any clock and any order of events, no registration overwrites
      another, each call settles at most once and waits with its timer armed until then. */
  lemma {:induction false} EveryRunIsSafe(steps: seq<Step>)
    requires Reset !in steps
    ensures var c := Run(START, steps); Consistent(c.rpc) && Fresh(c)
  {
    if steps == [] {
      assert Open([], {}) == [];
    } else {
      var k := |steps| - 1;
      assert forall x :: x in steps[..k] ==> x in steps;
      EveryRunIsSafe(steps[..k]);
      StepIsSafe(Run(START, steps[..k]), steps[k]);
    }
  }

  /** The step registers an id under which another call still waits. */
  predicate Clashes(c: Client, step: Step) {
    step.Await? && step.msgId in c.issued && Find(c.rpc.pending, step.msgId).Some?
  }

  lemma StepIsSafeUnlessItClashes(c: Client, step: Step)
    requires Consistent(c.rpc)
    ensures Consistent(Do(c, step).rpc) <==> !Clashes(c, step)
  {
    hide Consistent, NextId;
    match step
    case Send(_) =>
    case Await(id) => RegisterKeeps(c.rpc, id);
    case Result(id, data) => SettleKeeps(c.rpc, id, Resolved(data));
    case Error(id, code, message) => SettleKeeps(c.rpc, id, Failed(code, message));
    case Timeout(call) => FireKeeps(c.rpc, call);
    case Disconnect(reason) => CancelAllKeeps(c.rpc, reason);
    case Reset =>
  }

  /** The client after the first `i` steps. */
  function After(steps: seq<Step>, i: nat): Client
    requires i <= |steps|
  {
    Run(START, steps[..i])
  }

  ghost predicate SafeThroughout(steps: seq<Step>) {
    forall i: nat :: i <= |steps| ==> Consistent(After(steps, i).rpc)
  }

  ghost predicate NeverClashes(steps: seq<Step>) {
    forall i: nat :: i < |steps| ==> !Clashes(After(steps, i), steps[i])
  }

  lemma AfterPrefix(steps: seq<Step>, k: nat, i: nat)
    requires i <= k <= |steps|
    ensures After(steps[..k], i) == After(steps, i)
  {
    assert steps[..k][..i] == steps[..i];
  }

  lemma AfterStep(steps: seq<Step>, i: nat)
    requires i < |steps|
    ensures After(steps, i + 1) == Do(After(steps, i), steps[i])
  {
    hide Do;
    assert steps[..i + 1][..i] == steps[..i];
  }

  /** Over runs that may reset the session: the calls stay consistent exactly when no id is
      registered while it is still waiting. */
  lemma {:induction false} SafeUnlessAnIdClashes(steps: seq<Step>)
    ensures SafeThroughout(steps) <==> NeverClashes(steps)
    decreases |steps|
  {
    hide Consistent, Clashes, Do, Run, After;
    if steps == [] {
      EveryRunIsSafe([]);
      AfterNothing();
    } else {
      var k := |steps| - 1;
      SafeUnlessAnIdClashes(steps[..k]);
      forall i: nat | i <= k ensures After(steps[..k], i) == After(steps, i) { AfterPrefix(steps, k, i); }
      AfterStep(steps, k);
      if Consistent(After(steps, k).rpc) {
        StepIsSafeUnlessItClashes(After(steps, k), steps[k]);
      }
    }
  }

  lemma AfterNothing()
    ensures After([], 0) == Run(START, [])
  {}

  /** Session.reset breaks this: with the same reading of the clock the next call gets the id
      of one that still waits and takes its place in the table. When the old timer fires it
      deletes the new call's entry, and the new call is never settled: nothing waits for it
      and no timer is armed. */
  lemma ResetLosesACall(reading: int)
    ensures var id := NextId(0, reading);
            var s := Run(START, [Send(reading), Await(id)] + [Reset, Send(reading), Await(id)] + [Timeout(0)] + [Timeout(1)]).rpc;
            s.calls == [id, id] && s.pending == [] && s.armed == {} && s.log == [Settlement(0, TimedOut)]
  {
    hide NextId, Run;
    var id := NextId(0, reading);
    var one := [Send(reading), Await(id)];
    var two := one + [Reset, Send(reading), Await(id)];
    assert [] + [Send(reading)] == [Send(reading)] && [Send(reading)] + [Await(id)] == one;
    assert one + [Reset] + [Send(reading)] == one + [Reset, Send(reading)];
    assert one + [Reset, Send(reading)] + [Await(id)] == two;
    RunNothing();
    RunSnoc([], Send(reading));
    RunSnoc([Send(reading)], Await(id));
    RunSnoc(one, Reset);
    RunSnoc(one + [Reset], Send(reading));
    RunSnoc(one + [Reset, Send(reading)], Await(id));
    FirstCall(reading);
    SecondCall(reading);
    RunSnoc(two, Timeout(0));
    RunSnoc(two + [Timeout(0)], Timeout(1));
    BothTimers(id);
  }

  lemma RunNothing()
    ensures Run(START, []) == START
  {}

  lemma RunSnoc(steps: seq<Step>, step: Step)
    ensures Run(START, steps + [step]) == Do(Run(START, steps), step)
  {
    assert (steps + [step])[..|steps|] == steps;
  }

  /** One call waits under `id`. */
  function OneWaiting(id: int): State {
    State([Entry(id, 0)], {0}, [id], [])
  }

  lemma FirstCall(reading: int)
    ensures var id := NextId(0, reading);
            Do(Do(START, Send(reading)), Await(id)) == Client(id, multiset{}, OneWaiting(id))
  {
    hide NextId;
  }

  /** The second call took the first one's place. */
  function TwoRegistered(id: int): State {
    State([Entry(id, 1)], {0, 1}, [id, id], [])
  }

  lemma SecondCall(reading: int)
    ensures var id := NextId(0, reading);
            Do(Do(Do(Client(id, multiset{}, OneWaiting(id)), Reset), Send(reading)), Await(id))
            == Client(id, multiset{}, TwoRegistered(id))
  {
    hide NextId;
  }

  lemma BothTimers(id: int)
    ensures Fire(Fire(TwoRegistered(id), 0), 1) == State([], {}, [id, id], [Settlement(0, TimedOut)])
  {
    assert Fire(TwoRegistered(id), 0) == State([], {1}, [id, id], [Settlement(0, TimedOut)]);
  }

  /** It takes no waiting call: two calls invoked around a reset at the same reading are in
      flight under one id, and the second to be registered overwrites the first. */
  lemma ResetBetweenTwoSends(reading: int)
    ensures var id := NextId(0, reading);
            var sends := [Send(reading)] + [Reset] + [Send(reading)];
            && Clashes(Run(START, sends + [Await(id)]), Await(id))
            && Run(START, sends + [Await(id)] + [Await(id)]).rpc == TwoRegistered(id)
            && !SafeThroughout(sends + [Await(id)] + [Await(id)])
  {
    hide NextId, Run, Consistent;
    var id := NextId(0, reading);
    var sends := [Send(reading)] + [Reset] + [Send(reading)];
    var all := sends + [Await(id)] + [Await(id)];
    RunNothing();
    RunSnoc([], Send(reading));
    assert [] + [Send(reading)] == [Send(reading)];
    RunSnoc([Send(reading)], Reset);
    RunSnoc([Send(reading)] + [Reset], Send(reading));
    RunSnoc(sends, Await(id));
    RunSnoc(sends + [Await(id)], Await(id));
    InFlight(reading);
    assert all[..4] == sends + [Await(id)];
    assert After(all, 4) == Run(START, sends + [Await(id)]);
    assert !NeverClashes(all);
    SafeUnlessAnIdClashes(all);
  }

  lemma InFlight(reading: int)
    ensures var id := NextId(0, reading);
            var c := Do(Do(Do(START, Send(reading)), Reset), Send(reading));
            && Do(c, Await(id)) == Client(id, multiset{id}, OneWaiting(id))
            && Do(Do(c, Await(id)), Await(id)) == Client(id, multiset{}, TwoRegistered(id))
  {
    hide NextId;
  }
}
