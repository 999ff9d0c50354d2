/** The RPC handler in the form the source has; every method is proved equal to its function
    in RpcCalls. */
module RpcHandler {
  import opened Bytes
  import opened Options
  import opened RpcCalls

  class RpcHandler {
    var pending: seq<Entry>
    // the runtime's side of setTimeout
    var armed: set<nat>
    var calls: seq<int>
    // history: the uses of resolve and reject
    ghost var log: seq<Settlement>

    ghost function View(): State
      reads this
    {
      State(pending, armed, calls, log)
    }

    constructor ()
      ensures View() == INITIAL
    {
      pending, armed, calls, log := [], {}, [], [];
    }

    method Register(msgId: int) returns (promise: nat)
      modifies this
      ensures View() == RpcCalls.Register(old(View()), msgId) && promise == |old(calls)|
    {
      promise := |calls|;
      armed := armed + {promise};
      pending := Set(pending, msgId, promise);
      calls := calls + [msgId];
    }

    method HandleResult(reqMsgId: int, resultData: seq<byte>) returns (found: bool)
      modifies this
      ensures View() == Settle(old(View()), reqMsgId, Resolved(resultData))
      ensures found == Find(old(pending), reqMsgId).Some?
    {
      var rpc := Find(pending, reqMsgId);
      if rpc.None? { return false; }
      armed := armed - {rpc.value};
      pending := Delete(pending, reqMsgId);
      log := log + [Settlement(rpc.value, Resolved(resultData))];
      return true;
    }

    method HandleError(reqMsgId: int, errorCode: int, errorMessage: string) returns (found: bool)
      modifies this
      ensures View() == Settle(old(View()), reqMsgId, Failed(errorCode, errorMessage))
      ensures found == Find(old(pending), reqMsgId).Some?
    {
      var rpc := Find(pending, reqMsgId);
      if rpc.None? { return false; }
      armed := armed - {rpc.value};
      pending := Delete(pending, reqMsgId);
      log := log + [Settlement(rpc.value, Failed(errorCode, errorMessage))];
      return true;
    }

    /** The callback given to setTimeout, run when the timer of this call fires. */
    method OnTimeout(call: nat)
      requires call in armed && call < |calls|
      modifies this
      ensures View() == Fire(old(View()), call)
    {
      armed := armed - {call};
      if Find(pending, calls[call]).Some? {
        pending := Delete(pending, calls[call]);
        log := log + [Settlement(call, TimedOut)];
      }
    }

    method CancelAll(reason: string)
      modifies this
      ensures View() == RpcCalls.CancelAll(old(View()), reason)
    {
      for i := 0 to |pending|
        invariant pending == old(pending) && calls == old(calls)
        invariant armed == old(armed) - TimersOf(pending[..i])
        invariant log == old(log) + Cancellations(pending[..i], reason)
      {
        armed := armed - {pending[i].call};
        log := log + [Settlement(pending[i].call, Cancelled(reason))];
        assert pending[..i + 1] == pending[..i] + [pending[i]];
        assert Cancellations(pending[..i + 1], reason) ==
               Cancellations(pending[..i], reason) + [Settlement(pending[i].call, Cancelled(reason))];
      }
      assert pending[..|pending|] == pending;
      pending := [];
    }
  }
}
