/** Dispatch of decrypted messages: containers nest, every message is queued for
    acknowledgement, and the queue is flushed in batches. A gzip_packed message is reported
    as it stands; what it unpacks to is not modelled. */
module Dispatch {
  import opened Bytes
  import opened Containers
  import opened Options

  const ACK_BATCH_LIMIT: nat := 16
  const CID_GZ_PACKED: nat := 0x3072_cfa1

  datatype Event =
    | TooShort
    | BadContainer
    | Handled(msgId: int, data: seq<byte>)

  predicate IsContainer(data: seq<byte>) {
    |data| >= 4 && GetLE(data[..4]) == CONTAINER_CID
  }

  /** The messages of a container, each shorter than it. */
  function Inner(data: seq<byte>): (r: Option<seq<InnerMessage>>)
    ensures r.Some? ==> Below(r.value, |data|)
  {
    if |data| >= 8 && GetInt(data[4..8]) >= 0 then
      BodiesShrink(data, 8, GetInt(data[4..8]));
      Unpack(data)
    else Unpack(data)
  }

  predicate Below(ms: seq<InnerMessage>, n: nat) {
    forall m :: m in ms ==> |m.body| < n
  }

  /** The ids queued while a message is processed, in order. */
  function Queued(msgId: int, data: seq<byte>): seq<int>
    decreases |data|, 1, 0
  {
    if |data| < 4 then []
    else if IsContainer(data) && Inner(data).Some? then [msgId] + QueuedAll(Inner(data).value, |data|)
    else [msgId]
  }

  function QueuedAll(ms: seq<InnerMessage>, n: nat): seq<int>
    requires Below(ms, n)
    decreases n, 0, |ms|
  {
    if ms == [] then [] else Queued(ms[0].msgId, ms[0].body) + QueuedAll(ms[1..], n)
  }

  /** What is handed to the handlers and to the application, in order. */
  function Visits(msgId: int, data: seq<byte>): seq<Event>
    decreases |data|, 1, 0
  {
    if |data| < 4 then [TooShort]
    else if !IsContainer(data) then [Handled(msgId, data)]
    else if Inner(data).None? then [BadContainer]
    else VisitsAll(Inner(data).value, |data|)
  }

  function VisitsAll(ms: seq<InnerMessage>, n: nat): seq<Event>
    requires Below(ms, n)
    decreases n, 0, |ms|
  {
    if ms == [] then [] else Visits(ms[0].msgId, ms[0].body) + VisitsAll(ms[1..], n)
  }

  // ---------------------------------------------------------------- ack queue

  /** The batches taken off the queue so far, and the queue. */
  datatype Acks = Acks(taken: seq<seq<int>>, queue: seq<int>)

  function Flush(a: Acks, linked: bool): Acks {
    if a.queue == [] || !linked then a else Acks(a.taken + [a.queue], [])
  }

  function QueueAck(a: Acks, linked: bool, id: int): Acks {
    var b := Acks(a.taken, a.queue + [id]);
    if |b.queue| >= ACK_BATCH_LIMIT then Flush(b, linked) else b
  }

  function QueueAll(a: Acks, linked: bool, ids: seq<int>): Acks
    decreases |ids|
  {
    if ids == [] then a else QueueAll(QueueAck(a, linked, ids[0]), linked, ids[1..])
  }

  function Concat(batches: seq<seq<int>>): seq<int> {
    if batches == [] then [] else Concat(batches[..|batches| - 1]) + batches[|batches| - 1]
  }

  /** All ids that were ever queued. */
  function History(a: Acks): seq<int> {
    Concat(a.taken) + a.queue
  }

  lemma OneAck(a: Acks, linked: bool, id: int)
    ensures var b := QueueAck(a, linked, id);
            && History(b) == History(a) + [id]
            && (linked ==> |b.queue| < ACK_BATCH_LIMIT)
            && (b.taken == a.taken || (linked && b.taken == a.taken + [a.queue + [id]] && |a.queue| + 1 >= ACK_BATCH_LIMIT))
  {
    var q := a.queue + [id];
    assert (a.taken + [q])[..|a.taken|] == a.taken;
  }

  /** The new batches have the size of the batch limit. */
  predicate FullFrom(batches: seq<seq<int>>, from: nat) {
    forall i :: from <= i < |batches| ==> |batches[i]| == 16
  }

  /** The batches followed by the queue are the ids in the order they came. While the
      connection is up the queue stays below 16 and every batch has 16 ids; while it is down
      nothing is taken. */
  lemma {:induction false} AcksAreConserved(a: Acks, linked: bool, ids: seq<int>)
    ensures var b := QueueAll(a, linked, ids);
            && History(b) == History(a) + ids
            && a.taken <= b.taken
            && (!linked ==> b.taken == a.taken)
            && (linked && (ids != [] || |a.queue| < 16) ==> |b.queue| < 16)
            && (|a.queue| < 16 ==> FullFrom(b.taken, |a.taken|))
    decreases |ids|
  {
    hide QueueAck, Concat;
    if ids == [] {
      assert History(a) + [] == History(a);
    } else {
      var b := QueueAck(a, linked, ids[0]);
      OneAck(a, linked, ids[0]);
      AcksAreConserved(b, linked, ids[1..]);
      assert History(a) + [ids[0]] + ids[1..] == History(a) + ids;
    }
  }

  lemma {:induction false} QueueAllAppend(a: Acks, linked: bool, s: seq<int>, t: seq<int>)
    ensures QueueAll(a, linked, s + t) == QueueAll(QueueAll(a, linked, s), linked, t)
    decreases |s|
  {
    hide QueueAck;
    if s == [] {
      assert s + t == t;
    } else {
      assert (s + t)[0] == s[0] && (s + t)[1..] == s[1..] + t;
      QueueAllAppend(QueueAck(a, linked, s[0]), linked, s[1..], t);
    }
  }

  // --------------------------------------------------------------- connection

  class Connection {
    // whether session and transport are both set
    var linked: bool
    var ackQueue: seq<int>
    // whether encrypting and sending a msgs_ack goes through
    const accepts: seq<byte> -> bool
    // history: batches taken off the queue, the msgs_ack bodies sent, what was visited
    ghost var taken: seq<seq<int>>
    ghost var sent: seq<seq<byte>>
    ghost var events: seq<Event>

    ghost function View(): Acks
      reads this
    {
      Acks(taken, ackQueue)
    }

    constructor (accepts: seq<byte> -> bool)
      ensures !linked && View() == Acks([], []) && sent == [] && events == []
    {
      this.accepts := accepts;
      linked, ackQueue := false, [];
      taken, sent, events := [], [], [];
    }

    method FlushAcks()
      modifies this`ackQueue, this`taken, this`sent
      ensures View() == Flush(old(View()), linked)
      ensures sent == old(sent) + Delivered(accepts, taken[|old(taken)|..])
    {
      hide MsgsAck, IdsFit;
      assert taken[|taken|..] == [] && sent + [] == sent;
      if |ackQueue| == 0 { return; }
      if !linked { return; }
      var msgIds := ackQueue;
      ackQueue := [];
      taken := taken + [msgIds];
      assert taken[|old(taken)|..] == [msgIds];
      OneDelivered(accepts, msgIds);
      var ackData := CreateMsgsAck(msgIds);
      if ackData.Some? {
        if accepts(ackData.value[..]) { sent := sent + [ackData.value[..]]; }
      }
    }

    method Queue(msgId: int)
      modifies this`ackQueue, this`taken, this`sent
      ensures View() == QueueAck(old(View()), linked, msgId)
      ensures sent == old(sent) + Delivered(accepts, taken[|old(taken)|..])
    {
      hide Delivered;
      NothingDelivered(accepts, taken, sent);
      ackQueue := ackQueue + [msgId];
      if |ackQueue| >= ACK_BATCH_LIMIT {
        FlushAcks();
      }
    }

    method ProcessMessage(msgId: int, data: seq<byte>)
      modifies this`ackQueue, this`taken, this`sent, this`events
      ensures View() == QueueAll(old(View()), linked, Queued(msgId, data))
      ensures events == old(events) + Visits(msgId, data)
      decreases |data|, 1
    {
      hide GetLE, Inner, QueueAck;
      if |data| < 4 {
        events := events + [TooShort];
        return;
      }
      Queue(msgId);
      OnlyOne(old(View()), linked, msgId);
      if IsContainer(data) {
        HandleContainer(data);
        if Inner(data).Some? {
          QueueAllAppend(old(View()), linked, [msgId], QueuedAll(Inner(data).value, |data|));
        }
      } else {
        events := events + [Handled(msgId, data)];
      }
    }

    method HandleContainer(data: seq<byte>)
      requires IsContainer(data)
      modifies this`ackQueue, this`taken, this`sent, this`events
      ensures View() == if Inner(data).None? then old(View())
                        else QueueAll(old(View()), linked, QueuedAll(Inner(data).value, |data|))
      ensures events == old(events) + if Inner(data).None? then [BadContainer] else VisitsAll(Inner(data).value, |data|)
      decreases |data|, 0
    {
      hide IsContainer, Queued, Visits, QueueAll, QueuedAll, VisitsAll;
      var r := UnpackContainer(data);
      assert r == Inner(data);
      hide Inner;
      if r.None? {
        events := events + [BadContainer];
        return;
      }
      var messages, n := r.value, |data|;
      assert messages[0..] == messages;
      for i := 0 to |messages|
        invariant QueueAll(old(View()), linked, QueuedAll(messages, n)) == QueueAll(View(), linked, QueuedAll(messages[i..], n))
        invariant old(events) + VisitsAll(messages, n) == events + VisitsAll(messages[i..], n)
      {
        var msg := messages[i];
        OneMessage(View(), linked, events, messages[i..], n);
        assert messages[i..][0] == msg && messages[i..][1..] == messages[i + 1..];
        ProcessMessage(msg.msgId, msg.body);
      }
      assert messages[|messages|..] == [];
      NoMessages(View(), linked, events, n);
    }
  }

  lemma OneMessage(a: Acks, linked: bool, events: seq<Event>, ms: seq<InnerMessage>, n: nat)
    requires ms != [] && Below(ms, n)
    ensures QueueAll(a, linked, QueuedAll(ms, n))
         == QueueAll(QueueAll(a, linked, Queued(ms[0].msgId, ms[0].body)), linked, QueuedAll(ms[1..], n))
    ensures events + VisitsAll(ms, n) == (events + Visits(ms[0].msgId, ms[0].body)) + VisitsAll(ms[1..], n)
  {
    hide Queued, Visits, QueueAll;
    QueueAllAppend(a, linked, Queued(ms[0].msgId, ms[0].body), QueuedAll(ms[1..], n));
  }

  lemma NoMessages(a: Acks, linked: bool, events: seq<Event>, n: nat)
    ensures QueueAll(a, linked, QueuedAll([], n)) == a
    ensures events + VisitsAll([], n) == events
  {}

  /** The msgs_ack bodies that go out for these batches. */
  function Delivered(accepts: seq<byte> -> bool, batches: seq<seq<int>>): seq<seq<byte>> {
    if batches == [] then [] else
      var init, batch := Delivered(accepts, batches[..|batches| - 1]), batches[|batches| - 1];
      if IdsFit(batch) && accepts(MsgsAck(batch)) then init + [MsgsAck(batch)] else init
  }

  lemma OneDelivered(accepts: seq<byte> -> bool, batch: seq<int>)
    ensures Delivered(accepts, [batch]) == if IdsFit(batch) && accepts(MsgsAck(batch)) then [MsgsAck(batch)] else []
  {
    assert [batch][..0] == [];
    assert Delivered(accepts, []) == [];
  }

  lemma NothingDelivered(accepts: seq<byte> -> bool, batches: seq<seq<int>>, sent: seq<seq<byte>>)
    ensures sent + Delivered(accepts, batches[|batches|..]) == sent
  {}

  /** Nothing else goes out. */
  lemma {:induction false} OnlyBatchesGoOut(accepts: seq<byte> -> bool, batches: seq<seq<int>>)
    ensures forall s :: s in Delivered(accepts, batches) ==>
              accepts(s) && exists b :: b in batches && IdsFit(b) && s == MsgsAck(b)
  {
    hide MsgsAck, IdsFit;
    if batches != [] { OnlyBatchesGoOut(accepts, batches[..|batches| - 1]); }
  }

  lemma OnlyOne(a: Acks, linked: bool, id: int)
    ensures QueueAll(a, linked, [id]) == QueueAck(a, linked, id)
  {
    assert QueueAll(QueueAck(a, linked, id), linked, [id][1..]) == QueueAck(a, linked, id);
  }

  /** While sends succeed, the server reads every batch as it was queued. */
  lemma {:induction false} BatchesArrive(accepts: seq<byte> -> bool, batches: seq<seq<int>>)
    requires forall b :: b in batches ==> IdsFit(b) && accepts(MsgsAck(b))
    ensures |Delivered(accepts, batches)| == |batches|
    ensures forall i :: 0 <= i < |batches| ==> ParsedAck(Delivered(accepts, batches)[i]) == Some(batches[i])
  {
    hide MsgsAck, IdsFit, ParsedAck;
    if batches != [] {
      var k := |batches| - 1;
      BatchesArrive(accepts, batches[..k]);
      ParseUndoesCreate(batches[k], []);
      assert MsgsAck(batches[k]) + [] == MsgsAck(batches[k]);
    }
  }

  /** One message: too short, not a container, a container that does not unpack, or one whose
      messages are processed behind its own id. */
  lemma MessageCaseByCase(msgId: int, data: seq<byte>)
    ensures var ids, seen := Queued(msgId, data), Visits(msgId, data);
            if |data| < 4 then ids == [] && seen == [TooShort]
            else if data[..4] != [0xdc, 0xf8, 0xf1, 0x73] then ids == [msgId] && seen == [Handled(msgId, data)]
            else if Unpack(data).None? then ids == [msgId] && seen == [BadContainer]
            else
              var ms := Unpack(data).value;
              Below(ms, |data|) && ids == [msgId] + QueuedAll(ms, |data|) && seen == VisitsAll(ms, |data|)
  {
    hide GetLE, QueuedAll, VisitsAll, Unpack, Below;
    WordBytes([0xdc, 0xf8, 0xf1, 0x73]);
    FourValues(0xdc, 0xf8, 0xf1, 0x73);
    assert Inner(data) == Unpack(data);
  }

  // --------------------------------------------------------- trees of messages

  datatype Tree =
    | Leaf(msgId: int, seqNo: int, data: seq<byte>)
    | Node(msgId: int, seqNo: int, children: seq<Tree>)

  /** What a sender can put in a container: leaves that are neither containers nor gzipped,
      and at most 1024 messages in each container. */
  predicate Legal(t: Tree)
    decreases t, 1
  {
    match t
    case Leaf(_, _, data) => |data| >= 4 && GetLE(data[..4]) != CONTAINER_CID && GetLE(data[..4]) != CID_GZ_PACKED
    case Node(_, _, children) => |children| <= MAX_MESSAGES && AllLegal(children) && Packable(Messages(children))
  }

  predicate AllLegal(ts: seq<Tree>)
    decreases ts, 0
  {
    ts != [] ==> Legal(ts[0]) && AllLegal(ts[1..])
  }

  function Body(t: Tree): seq<byte>
    requires Legal(t)
    decreases t, 2
  {
    match t
    case Leaf(_, _, data) => data
    case Node(_, _, children) => Pack(Messages(children))
  }

  function Messages(ts: seq<Tree>): (ms: seq<InnerMessage>)
    requires AllLegal(ts)
    ensures |ms| == |ts|
    decreases ts, 1
  {
    if ts == [] then [] else [InnerMessage(ts[0].msgId, ts[0].seqNo, Body(ts[0]))] + Messages(ts[1..])
  }

  function Preorder(t: Tree): seq<int>
    decreases t, 1
  {
    match t
    case Leaf(msgId, _, _) => [msgId]
    case Node(msgId, _, children) => [msgId] + PreorderAll(children)
  }

  function PreorderAll(ts: seq<Tree>): seq<int>
    decreases ts, 0
  {
    if ts == [] then [] else Preorder(ts[0]) + PreorderAll(ts[1..])
  }

  function Leaves(t: Tree): seq<Event>
    decreases t, 1
  {
    match t
    case Leaf(msgId, _, data) => [Handled(msgId, data)]
    case Node(_, _, children) => LeavesOf(children)
  }

  function LeavesOf(ts: seq<Tree>): seq<Event>
    decreases ts, 0
  {
    if ts == [] then [] else Leaves(ts[0]) + LeavesOf(ts[1..])
  }

  /** From left to right. */
  lemma {:induction false} LeavesInOrder(ts: seq<Tree>, t: Tree)
    ensures LeavesOf(ts + [t]) == LeavesOf(ts) + Leaves(t) && PreorderAll(ts + [t]) == PreorderAll(ts) + Preorder(t)
    decreases |ts|
  {
    hide LeavesOf, PreorderAll, Leaves, Preorder;
    NoTrees();
    if ts == [] {
      assert ts + [t] == [t] + [] && ts == [];
      FirstTree(t, []);
      assert Leaves(t) + [] == [] + Leaves(t) && Preorder(t) + [] == [] + Preorder(t);
    } else {
      LeavesInOrder(ts[1..], t);
      assert ts + [t] == [ts[0]] + (ts[1..] + [t]) && ts == [ts[0]] + ts[1..];
      FirstTree(ts[0], ts[1..] + [t]);
      FirstTree(ts[0], ts[1..]);
    }
  }

  lemma NoTrees()
    ensures LeavesOf([]) == [] && PreorderAll([]) == []
  {}

  lemma FirstTree(t: Tree, ts: seq<Tree>)
    ensures LeavesOf([t] + ts) == Leaves(t) + LeavesOf(ts) && PreorderAll([t] + ts) == Preorder(t) + PreorderAll(ts)
  {
    hide Leaves, Preorder;
    assert ([t] + ts)[1..] == ts;
  }

  lemma PackedIsContainer(ms: seq<InnerMessage>)
    requires Packable(ms) && |ms| <= MAX_MESSAGES
    ensures IsContainer(Pack(ms)) && Inner(Pack(ms)) == Some(ms)
  {
    hide PutLE, PutInt, GetLE, GetInt, Fits, Power256, PackAll, MessageFits, Unpack;
    Widths();
    assert Pack(ms)[..4] == PutLE(CONTAINER_CID, 4);
    GetPut(CONTAINER_CID, 4);
    assert Pack(ms) + [] == Pack(ms);
    UnpackUndoesPack(ms, []);
  }

  /** Processing a tree of containers visits its leaves from left to right and queues the ids
      of all its messages in preorder. */
  lemma {:induction false} TreeIsProcessed(t: Tree)
    requires Legal(t)
    ensures Queued(t.msgId, Body(t)) == Preorder(t)
    ensures Visits(t.msgId, Body(t)) == Leaves(t)
    decreases t, 1
  {
    hide GetLE, Inner, Pack, Packable;
    match t
    case Leaf(_, _, _) =>
    case Node(_, _, children) =>
      var ms := Messages(children);
      PackedIsContainer(ms);
      TreesAreProcessed(children, |Pack(ms)|);
  }

  lemma {:induction false} TreesAreProcessed(ts: seq<Tree>, n: nat)
    requires AllLegal(ts) && Below(Messages(ts), n)
    ensures QueuedAll(Messages(ts), n) == PreorderAll(ts)
    ensures VisitsAll(Messages(ts), n) == LeavesOf(ts)
    decreases ts, 0
  {
    hide Queued, Visits, Preorder, Leaves, Body;
    if ts != [] {
      TreeIsProcessed(ts[0]);
      assert Messages(ts)[1..] == Messages(ts[1..]);
      TreesAreProcessed(ts[1..], n);
    }
  }
}
