/** Settlement of calls: the table of pending calls, their timers and the ids they wait
    under. Promises and timers are numbered by the call that made them. */
module RpcCalls {
  import opened Bytes
  import opened Options

  /** An entry of the table, which keeps its insertion order as a JavaScript Map does. */
  datatype Entry = Entry(msgId: int, call: nat)

  datatype Outcome =
    | Resolved(result: seq<byte>)
    | Failed(code: int, message: string)
    | TimedOut
    | Cancelled(reason: string)

  /** A call to the resolve or reject function of a promise. */
  datatype Settlement = Settlement(call: nat, outcome: Outcome)

  /** `calls` are the ids registered so far, `armed` the timers still to fire, and `log` all
      uses of resolve and reject. */
  datatype State = State(pending: seq<Entry>, armed: set<nat>, calls: seq<int>, log: seq<Settlement>)

  const INITIAL := State([], {}, [], [])

  // -------------------------------------------------------------------- table

  function Find(es: seq<Entry>, msgId: int): Option<nat> {
    if es == [] then None
    else if es[|es| - 1].msgId == msgId then Some(es[|es| - 1].call)
    else Find(es[..|es| - 1], msgId)
  }

  function Delete(es: seq<Entry>, msgId: int): seq<Entry> {
    if es == [] then []
    else if es[|es| - 1].msgId == msgId then es[..|es| - 1]
    else Delete(es[..|es| - 1], msgId) + [es[|es| - 1]]
  }

  /** Setting a key that is there keeps its place. */
  function Set(es: seq<Entry>, msgId: int, call: nat): seq<Entry> {
    if es == [] then [Entry(msgId, call)]
    else if es[|es| - 1].msgId == msgId then es[..|es| - 1] + [Entry(msgId, call)]
    else if Find(es, msgId).None? then es + [Entry(msgId, call)]
    else Set(es[..|es| - 1], msgId, call) + [es[|es| - 1]]
  }

  // -------------------------------------------------------------------- steps

  function Register(s: State, msgId: int): State {
    State(Set(s.pending, msgId, |s.calls|), s.armed + {|s.calls|}, s.calls + [msgId], s.log)
  }

  /** A result or an error from the server. */
  function Settle(s: State, msgId: int, outcome: Outcome): State {
    var found := Find(s.pending, msgId);
    if found.None? then s else
      State(Delete(s.pending, msgId), s.armed - {found.value}, s.calls, s.log + [Settlement(found.value, outcome)])
  }

  /** The timer of a call fires: it deletes whatever waits under its id. */
  function Fire(s: State, call: nat): State {
    if call !in s.armed || call >= |s.calls| then s
    else if Find(s.pending, s.calls[call]).None? then s.(armed := s.armed - {call})
    else State(Delete(s.pending, s.calls[call]), s.armed - {call}, s.calls, s.log + [Settlement(call, TimedOut)])
  }

  function Cancellations(es: seq<Entry>, reason: string): (r: seq<Settlement>)
    ensures |r| == |es|
  {
    seq(|es|, i requires 0 <= i < |es| => Settlement(es[i].call, Cancelled(reason)))
  }

  function TimersOf(es: seq<Entry>): set<nat> {
    set e <- es :: e.call
  }

  function CancelAll(s: State, reason: string): State {
    State([], s.armed - TimersOf(s.pending), s.calls, s.log + Cancellations(s.pending, reason))
  }
}
