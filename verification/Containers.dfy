/** msg_container and msgs_ack: the two lists that the connection packs and unpacks by hand. */
module Containers {
  import opened Buffers
  import opened Bytes
  import opened Options

  const CONTAINER_CID: nat := 0x73f1_f8dc
  const MSGS_ACK_CID: nat := 0x62d6_b459
  const VECTOR_CID: nat := 0x1cb5_c415
  const MAX_MESSAGES: nat := 1024

  datatype InnerMessage = InnerMessage(msgId: int, seqNo: int, body: seq<byte>)

  // ------------------------------------------------------------------- packing

  predicate MessageFits(m: InnerMessage) {
    Fits(m.msgId, 8) && Fits(m.seqNo, 4) && Fits(|m.body|, 4)
  }

  /** What Node's writers accept; otherwise packContainer throws. */
  predicate Packable(ms: seq<InnerMessage>) {
    Fits(|ms|, 4) && forall m :: m in ms ==> MessageFits(m)
  }

  function PackOne(m: InnerMessage): (s: seq<byte>)
    requires MessageFits(m)
    ensures |s| == 16 + |m.body|
  {
    PutInt(m.msgId, 8) + PutInt(m.seqNo, 4) + PutInt(|m.body|, 4) + m.body
  }

  function PackAll(ms: seq<InnerMessage>): seq<byte>
    requires forall m :: m in ms ==> MessageFits(m)
  {
    if ms == [] then [] else PackOne(ms[0]) + PackAll(ms[1..])
  }

  function Pack(ms: seq<InnerMessage>): seq<byte>
    requires Packable(ms)
  {
    PutLE(CONTAINER_CID, 4) + PutInt(|ms|, 4) + PackAll(ms)
  }

  function TotalSize(ms: seq<InnerMessage>): nat {
    if ms == [] then 0 else TotalSize(ms[..|ms| - 1]) + 16 + |ms[|ms| - 1].body|
  }

  lemma {:induction false} PackAllSnoc(ms: seq<InnerMessage>, m: InnerMessage)
    requires (forall x :: x in ms ==> MessageFits(x)) && MessageFits(m)
    ensures PackAll(ms + [m]) == PackAll(ms) + PackOne(m)
  {
    hide PackOne, MessageFits;
    if ms == [] {
      assert ms + [m] == [m];
    } else {
      assert (ms + [m])[1..] == ms[1..] + [m];
      PackAllSnoc(ms[1..], m);
    }
  }

  lemma {:induction false} PackAllLength(ms: seq<InnerMessage>)
    requires forall m :: m in ms ==> MessageFits(m)
    ensures |PackAll(ms)| == TotalSize(ms)
  {
    hide PackOne, MessageFits;
    if ms != [] {
      var init, last := ms[..|ms| - 1], ms[|ms| - 1];
      assert ms == init + [last];
      PackAllSnoc(init, last);
      PackAllLength(init);
    }
  }

  lemma {:induction false} PrefixIsSmaller(ms: seq<InnerMessage>, i: nat)
    requires i <= |ms|
    ensures TotalSize(ms[..i]) <= TotalSize(ms)
  {
    if i < |ms| {
      PrefixIsSmaller(ms[..|ms| - 1], i);
      assert ms[..|ms| - 1][..i] == ms[..i];
    } else {
      assert ms[..i] == ms;
    }
  }

  /** Writes into a buffer of the size counted beforehand. */
  method PackContainer(messages: seq<InnerMessage>) returns (r: Option<array<byte>>)
    ensures r.Some? <==> Packable(messages)
    ensures r.Some? ==> fresh(r.value) && r.value[..] == Pack(messages)
  {
    hide PutLE, PutInt, Power256, Fits, PackOne, TotalSize, PackAll;
    var totalSize := 8;
    SizeOfNothing();
    for i := 0 to |messages|
      invariant totalSize == 8 + TotalSize(messages[..i])
    {
      SizeStep(messages, i);
      totalSize := totalSize + (16 + |messages[i].body|);
    }
    var buf := new byte[totalSize];
    assert messages[..|messages|] == messages;
    if !Fits(|messages|, 4) { return None; }
    Fill(PutLE(CONTAINER_CID, 4), buf, 0);
    Fill(PutInt(|messages|, 4), buf, 4);
    ghost var head := PutLE(CONTAINER_CID, 4) + PutInt(|messages|, 4);
    var offset := 8;
    for i := 0 to |messages|
      invariant forall m :: m in messages[..i] ==> MessageFits(m)
      invariant offset == 8 + TotalSize(messages[..i])
      invariant offset <= buf.Length == 8 + TotalSize(messages)
      invariant fresh(buf) && buf[..offset] == head + PackAll(messages[..i])
    {
      var m := messages[i];
      SizeStep(messages, i);
      PrefixIsSmaller(messages, i + 1);
      if !MessageFits(m) { return None; }
      WriteMessage(m, buf, offset);
      PackAllSnoc(messages[..i], m);
      offset := offset + 16 + |m.body|;
    }
    return Some(buf);
  }

  lemma SizeOfNothing()
    ensures TotalSize([]) == 0 && PackAll([]) == []
  {}

  lemma SizeStep(ms: seq<InnerMessage>, i: nat)
    requires i < |ms|
    ensures ms[..i + 1] == ms[..i] + [ms[i]]
    ensures TotalSize(ms[..i + 1]) == TotalSize(ms[..i]) + 16 + |ms[i].body|
  {
    assert ms[..i + 1][..i] == ms[..i];
  }

  method WriteMessage(m: InnerMessage, buf: array<byte>, offset: nat)
    requires MessageFits(m) && offset + 16 + |m.body| <= buf.Length
    modifies buf
    ensures buf[..offset + 16 + |m.body|] == old(buf[..offset]) + PackOne(m)
  {
    hide PutInt, Power256, Fits;
    Fill(PutInt(m.msgId, 8), buf, offset);
    Fill(PutInt(m.seqNo, 4), buf, offset + 8);
    Fill(PutInt(|m.body|, 4), buf, offset + 12);
    Fill(m.body, buf, offset + 16);
  }

  // ----------------------------------------------------------------- unpacking

  /** The messages from `offset` on. A negative length moves the offset back, and reading at
      a negative offset throws. */
  function UnpackFrom(data: seq<byte>, offset: int, count: nat): Option<seq<InnerMessage>>
    decreases count
  {
    if count == 0 then Some([])
    else if offset < 0 || offset + 16 > |data| then None
    else
      var m := MessageAt(data, offset);
      var next := offset + 16 + BodyLength(data, offset);
      if next > |data| then None else
        var others := UnpackFrom(data, next, count - 1);
        if others.None? then None else Some([m] + others.value)
  }

  function BodyLength(data: seq<byte>, offset: nat): int
    requires offset + 16 <= |data|
  {
    GetInt(data[offset + 12..offset + 16])
  }

  function MessageAt(data: seq<byte>, offset: nat): (m: InnerMessage)
    requires offset + 16 <= |data|
    ensures |m.body| + 16 <= |data|
  {
    var from := offset + 16;
    SubarrayFrom(data, from, from + BodyLength(data, offset));
    InnerMessage(GetInt(data[offset..offset + 8]), GetInt(data[offset + 8..offset + 12]),
                 Subarray(data, from, from + BodyLength(data, offset)))
  }

  lemma SubarrayFrom(s: seq<byte>, from: nat, to: int)
    requires from <= |s|
    ensures |Subarray(s, from, to)| <= |s| - from
  {}

  function Unpack(data: seq<byte>): Option<seq<InnerMessage>> {
    if |data| < 8 || GetLE(data[..4]) != CONTAINER_CID then None else
      var count := GetInt(data[4..8]);
      if count < 0 || count > MAX_MESSAGES then None else UnpackFrom(data, 8, count)
  }

  method UnpackContainer(data: seq<byte>) returns (r: Option<seq<InnerMessage>>)
    ensures r == Unpack(data)
  {
    hide GetLE, GetInt, UnpackFrom, MessageAt, BodyLength;
    if |data| < 8 { return None; }
    if GetLE(data[..4]) != CONTAINER_CID { return None; }
    var count := GetInt(data[4..8]);
    if count < 0 || count > MAX_MESSAGES { return None; }
    var offset: int := 8;
    var messages := [];
    AfterNone(data, 8, count);
    for i := 0 to count
      invariant Unpack(data) == Behind(messages, UnpackFrom(data, offset, count - i))
    {
      Turn(data, offset, count - i, messages);
      if offset + 16 > |data| { return None; }
      if offset < 0 { return None; }
      var m := MessageAt(data, offset);
      offset := offset + 16 + BodyLength(data, offset);
      if offset > |data| { return None; }
      messages := messages + [m];
    }
    AllTaken(data, offset);
    assert messages + [] == messages;
    return Some(messages);
  }

  ghost function Behind(ms: seq<InnerMessage>, r: Option<seq<InnerMessage>>): Option<seq<InnerMessage>> {
    if r.None? then None else Some(ms + r.value)
  }

  lemma AfterNone(data: seq<byte>, offset: int, count: nat)
    ensures Behind([], UnpackFrom(data, offset, count)) == UnpackFrom(data, offset, count)
  {
    hide UnpackFrom;
    var r := UnpackFrom(data, offset, count);
    if r.Some? { assert [] + r.value == r.value; }
  }

  lemma AllTaken(data: seq<byte>, offset: int)
    ensures UnpackFrom(data, offset, 0) == Some([])
  {}

  lemma Turn(data: seq<byte>, offset: int, count: nat, before: seq<InnerMessage>)
    requires count > 0
    ensures (offset < 0 || offset + 16 > |data|) ==> UnpackFrom(data, offset, count).None?
    ensures (0 <= offset && offset + 16 <= |data| && offset + 16 + BodyLength(data, offset) > |data|
             ==> UnpackFrom(data, offset, count).None?)
    ensures (0 <= offset && offset + 16 <= |data| && offset + 16 + BodyLength(data, offset) <= |data|
             ==> Behind(before, UnpackFrom(data, offset, count)) ==
                 Behind(before + [MessageAt(data, offset)], UnpackFrom(data, offset + 16 + BodyLength(data, offset), count - 1)))
  {
    hide BodyLength, MessageAt;
    if 0 <= offset && offset + 16 <= |data| {
      var r := UnpackFrom(data, offset + 16 + BodyLength(data, offset), count - 1);
      if r.Some? {
        assert before + ([MessageAt(data, offset)] + r.value) == (before + [MessageAt(data, offset)]) + r.value;
      }
    }
  }

  /** A body is always shorter than its container, whatever lengths the container announces. */
  lemma {:induction false} BodiesShrink(data: seq<byte>, offset: int, count: nat)
    ensures var r := UnpackFrom(data, offset, count);
            r.Some? ==> |r.value| == count && forall m :: m in r.value ==> |m.body| < |data|
    decreases count
  {
    hide BodyLength;
    if count > 0 && 0 <= offset && offset + 16 <= |data| {
      BodiesShrink(data, offset + 16 + BodyLength(data, offset), count - 1);
    }
  }

  // --------------------------------------------------------------- round trips

  lemma MessageBehind(before: seq<byte>, m: InnerMessage, rest: seq<byte>)
    requires MessageFits(m)
    ensures var data := before + PackOne(m) + rest;
            && BodyLength(data, |before|) == |m.body| && MessageAt(data, |before|) == m
  {
    hide PutInt, GetInt, Fits, Power256;
    var o, data := |before|, before + PackOne(m) + rest;
    assert data[o..o + 8] == PutInt(m.msgId, 8);
    assert data[o + 8..o + 12] == PutInt(m.seqNo, 4);
    assert data[o + 12..o + 16] == PutInt(|m.body|, 4);
    GetPutInt(m.msgId, 8);
    GetPutInt(m.seqNo, 4);
    GetPutInt(|m.body|, 4);
    assert data[o + 16..o + 16 + |m.body|] == m.body;
  }

  lemma {:induction false} UnpackPacked(before: seq<byte>, ms: seq<InnerMessage>, rest: seq<byte>)
    requires forall m :: m in ms ==> MessageFits(m)
    ensures UnpackFrom(before + PackAll(ms) + rest, |before|, |ms|) == Some(ms)
    decreases |ms|
  {
    hide PackOne, PackAll, MessageFits, BodyLength, MessageAt;
    if ms != [] {
      var one, more := PackOne(ms[0]), PackAll(ms[1..]);
      PackAllStep(ms);
      Regroup(before, one, more, rest);
      MessageBehind(before, ms[0], more + rest);
      UnpackPacked(before + one, ms[1..], rest);
      assert ms == [ms[0]] + ms[1..];
    }
  }

  lemma PackAllStep(ms: seq<InnerMessage>)
    requires ms != [] && forall m :: m in ms ==> MessageFits(m)
    ensures PackAll(ms) == PackOne(ms[0]) + PackAll(ms[1..])
  {}

  lemma Regroup(a: seq<byte>, b: seq<byte>, c: seq<byte>, d: seq<byte>)
    ensures a + (b + c) + d == a + b + (c + d) == (a + b) + c + d
  {}

  /** Unpacking gives back what was packed, whatever bytes follow, exactly up to 1024
      messages. */
  lemma UnpackUndoesPack(ms: seq<InnerMessage>, rest: seq<byte>)
    requires Packable(ms)
    ensures Unpack(Pack(ms) + rest) == Some(ms) <==> |ms| <= 1024
  {
    hide PutLE, PutInt, GetLE, GetInt, Fits, Power256, PackAll, MessageFits, UnpackFrom;
    Widths();
    var head := PutLE(CONTAINER_CID, 4) + PutInt(|ms|, 4);
    var data := Pack(ms) + rest;
    assert data == head + PackAll(ms) + rest;
    assert data[..4] == PutLE(CONTAINER_CID, 4) && data[4..8] == PutInt(|ms|, 4);
    GetPut(CONTAINER_CID, 4);
    GetPutInt(|ms|, 4);
    UnpackPacked(head, ms, rest);
  }

  /** No length announced on the way is negative. */
  predicate LengthsOk(data: seq<byte>, offset: int, count: nat)
    decreases count
  {
    count == 0 || offset < 0 || offset + 16 > |data| ||
    (BodyLength(data, offset) >= 0 && LengthsOk(data, offset + 16 + BodyLength(data, offset), count - 1))
  }

  /** Conversely a container that unpacks starts with the packing of what came out, exactly
      when it announces no negative length. */
  lemma PackUndoesUnpack(data: seq<byte>)
    requires Unpack(data).Some?
    ensures var ms := Unpack(data).value;
            (Packable(ms) && Pack(ms) <= data) <==> LengthsOk(data, 8, |ms|)
  {
    hide PutLE, PutInt, GetLE, GetInt, Fits, Power256, PackAll, UnpackFrom, LengthsOk, MessageFits;
    var ms, head := Unpack(data).value, data[..8];
    PutGet(data[..4]);
    PutGetInt(data[4..8]);
    BodiesShrink(data, 8, GetInt(data[4..8]));
    assert head == PutLE(CONTAINER_CID, 4) + PutInt(|ms|, 4);
    PackFrom(data, 8, |ms|);
    if AllFit(ms) { PrefixBehind(head, PackAll(ms), data); }
  }

  /** A container of one message that announces length -16. */
  function MinusSixteen(msgId: int, seqNo: int): (data: seq<byte>)
    requires Fits(msgId, 8) && Fits(seqNo, 4)
    ensures |data| == 24
  {
    Widths();
    PutLE(CONTAINER_CID, 4) + PutInt(1, 4) + PutInt(msgId, 8) + PutInt(seqNo, 4) + PutInt(-16, 4)
  }

  /** It unpacks, the offset standing where it stood before, and is no packing of the result. */
  lemma NegativeLengthUnpacks(msgId: int, seqNo: int)
    requires Fits(msgId, 8) && Fits(seqNo, 4)
    ensures var data, ms := MinusSixteen(msgId, seqNo), [InnerMessage(msgId, seqNo, [])];
            && Unpack(data) == Some(ms) && !LengthsOk(data, 8, 1)
            && !(Packable(ms) && Pack(ms) <= data)
  {
    hide PutLE, PutInt, GetLE, GetInt, Fits, Power256, Pack;
    Widths();
    var data := MinusSixteen(msgId, seqNo);
    MinusSixteenParts(msgId, seqNo);
    GetPut(CONTAINER_CID, 4);
    SmallFits();
    GetPutInt(1, 4);
    GetPutInt(msgId, 8);
    GetPutInt(seqNo, 4);
    GetPutInt(-16, 4);
    assert BodyLength(data, 8) == -16;
    assert Subarray(data, 24, 8) == [];
    assert MessageAt(data, 8) == InnerMessage(msgId, seqNo, []);
    OneUnpacked(data, 8);
    PackUndoesUnpack(data);
  }

  lemma OneUnpacked(data: seq<byte>, offset: nat)
    requires offset + 16 <= |data| && offset + 16 + BodyLength(data, offset) <= |data|
    ensures UnpackFrom(data, offset, 1) == Some([MessageAt(data, offset)])
    ensures LengthsOk(data, offset, 1) <==> BodyLength(data, offset) >= 0
  {
    hide MessageAt, BodyLength;
    assert UnpackFrom(data, offset + 16 + BodyLength(data, offset), 0) == Some([]);
    assert [MessageAt(data, offset)] + [] == [MessageAt(data, offset)];
  }

  lemma SmallFits()
    ensures Fits(1, 4) && Fits(-16, 4)
  {
    Widths();
  }

  lemma MinusSixteenParts(msgId: int, seqNo: int)
    requires Fits(msgId, 8) && Fits(seqNo, 4)
    ensures Fits(1, 4) && Fits(-16, 4)
    ensures var data := MinusSixteen(msgId, seqNo);
            && data[..4] == PutLE(CONTAINER_CID, 4) && data[4..8] == PutInt(1, 4)
            && data[8..16] == PutInt(msgId, 8) && data[16..20] == PutInt(seqNo, 4) && data[20..24] == PutInt(-16, 4)
  {
    hide PutLE, PutInt, Power256, Fits;
    SmallFits();
  }

  predicate AllFit(ms: seq<InnerMessage>) {
    forall m :: m in ms ==> MessageFits(m)
  }

  lemma PrefixBehind(head: seq<byte>, s: seq<byte>, data: seq<byte>)
    requires head <= data
    ensures head + s <= data <==> s <= data[|head|..]
  {
    if s <= data[|head|..] {
      assert data == head + data[|head|..];
    }
    if head + s <= data {
      assert data[|head|..][..|s|] == (head + s)[|head|..];
    }
  }

  lemma StartsWith(a: seq<byte>, b: seq<byte>, data: seq<byte>)
    ensures a + b <= data ==> a <= data
  {}

  /** The bytes of a message read at `offset` are its packing, unless its length is negative. */
  lemma PackOneAt(data: seq<byte>, offset: nat)
    requires offset + 16 <= |data| && offset + 16 + BodyLength(data, offset) <= |data|
    ensures var m, l := MessageAt(data, offset), BodyLength(data, offset);
            && (l >= 0 ==> MessageFits(m) && PackOne(m) == data[offset..offset + 16 + l])
            && (l < 0 ==> !(MessageFits(m) && PackOne(m) <= data[offset..]))
  {
    hide PutInt, GetInt, Fits, Power256;
    var m, l, o := MessageAt(data, offset), BodyLength(data, offset), offset;
    PutGetInt(data[o..o + 8]);
    PutGetInt(data[o + 8..o + 12]);
    PutGetInt(data[o + 12..o + 16]);
    if l >= 0 {
      assert m.body == data[o + 16..o + 16 + l];
      assert data[o..o + 16 + l] == data[o..o + 8] + data[o + 8..o + 12] + data[o + 12..o + 16] + data[o + 16..o + 16 + l];
    } else if MessageFits(m) && PackOne(m) <= data[o..] {
      assert data[o + 12..o + 16] == data[o..][12..16] == PackOne(m)[12..16] == PutInt(|m.body|, 4);
      GetPutInt(|m.body|, 4);
      assert false;
    }
  }

  lemma {:induction false} PackFrom(data: seq<byte>, offset: nat, count: nat)
    requires offset <= |data| && UnpackFrom(data, offset, count).Some?
    ensures var ms := UnpackFrom(data, offset, count).value;
            (AllFit(ms) && PackAll(ms) <= data[offset..]) <==> LengthsOk(data, offset, count)
    decreases count
  {
    hide BodyLength, MessageAt, PackOne, MessageFits;
    if count > 0 {
      var m, next := MessageAt(data, offset), offset + 16 + BodyLength(data, offset);
      var others := UnpackFrom(data, next, count - 1).value;
      var ms := [m] + others;
      assert ms[1..] == others && (AllFit(ms) <==> MessageFits(m) && AllFit(others));
      PackOneAt(data, offset);
      if BodyLength(data, offset) >= 0 {
        PackFrom(data, next, count - 1);
        assert data[offset..][|PackOne(m)|..] == data[next..];
        if AllFit(ms) { PrefixBehind(PackOne(m), PackAll(others), data[offset..]); }
      } else if AllFit(ms) {
        StartsWith(PackOne(m), PackAll(others), data[offset..]);
      }
    }
  }

  // ---------------------------------------------------------- acknowledgements

  predicate IdsFit(ids: seq<int>) {
    Fits(|ids|, 4) && forall id :: id in ids ==> Fits(id, 8)
  }

  function PutIds(ids: seq<int>): (s: seq<byte>)
    requires forall id :: id in ids ==> Fits(id, 8)
    ensures |s| == 8 * |ids|
  {
    if ids == [] then [] else PutIds(ids[..|ids| - 1]) + PutInt(ids[|ids| - 1], 8)
  }

  function MsgsAck(ids: seq<int>): (s: seq<byte>)
    requires IdsFit(ids)
    ensures |s| == 12 + 8 * |ids|
  {
    PutLE(MSGS_ACK_CID, 4) + PutLE(VECTOR_CID, 4) + PutInt(|ids|, 4) + PutIds(ids)
  }

  method CreateMsgsAck(msgIds: seq<int>) returns (r: Option<array<byte>>)
    ensures r.Some? <==> IdsFit(msgIds)
    ensures r.Some? ==> fresh(r.value) && r.value[..] == MsgsAck(msgIds)
  {
    hide PutLE, PutInt, Power256, Fits;
    var buf := new byte[12 + |msgIds| * 8];
    Fill(PutLE(MSGS_ACK_CID, 4), buf, 0);
    Fill(PutLE(VECTOR_CID, 4), buf, 4);
    if !Fits(|msgIds|, 4) { return None; }
    Fill(PutInt(|msgIds|, 4), buf, 8);
    ghost var head := PutLE(MSGS_ACK_CID, 4) + PutLE(VECTOR_CID, 4) + PutInt(|msgIds|, 4);
    var offset := 12;
    for i := 0 to |msgIds|
      invariant forall id :: id in msgIds[..i] ==> Fits(id, 8)
      invariant offset == 12 + 8 * i
      invariant fresh(buf) && buf[..offset] == head + PutIds(msgIds[..i])
    {
      if !Fits(msgIds[i], 8) { return None; }
      Fill(PutInt(msgIds[i], 8), buf, offset);
      offset := offset + 8;
      assert msgIds[..i + 1][..i] == msgIds[..i];
    }
    assert msgIds[..|msgIds|] == msgIds;
    return Some(buf);
  }

  function GetIds(data: seq<byte>, count: nat): (ids: seq<int>)
    requires |data| >= 12 + 8 * count
    ensures |ids| == count
  {
    if count == 0 then [] else GetIds(data, count - 1) + [GetInt(data[4 + 8 * count..12 + 8 * count])]
  }

  /** A negative count passes the length check and gives no ids. */
  function ParsedAck(data: seq<byte>): Option<seq<int>> {
    if |data| < 12 || GetLE(data[..4]) != MSGS_ACK_CID || GetLE(data[4..8]) != VECTOR_CID then None else
      var count := GetInt(data[8..12]);
      if |data| < 12 + count * 8 then None
      else if count < 0 then Some([])
      else Some(GetIds(data, count))
  }

  method ParseMsgsAck(data: seq<byte>) returns (r: Option<seq<int>>)
    ensures r == ParsedAck(data)
  {
    hide GetLE, GetInt;
    if |data| < 12 { return None; }
    if GetLE(data[..4]) != MSGS_ACK_CID { return None; }
    if GetLE(data[4..8]) != VECTOR_CID { return None; }
    var count := GetInt(data[8..12]);
    if |data| < 12 + count * 8 { return None; }
    var msgIds := [];
    var offset, i := 12, 0;
    while i < count
      invariant 0 <= i && (count < 0 ==> i == 0) && (count >= 0 ==> i <= count)
      invariant offset == 12 + 8 * i && msgIds == GetIds(data, i)
    {
      msgIds := msgIds + [GetInt(data[offset..offset + 8])];
      offset := offset + 8;
      i := i + 1;
    }
    return Some(msgIds);
  }

  lemma {:induction false} IdsRoundTrip(head: seq<byte>, ids: seq<int>, rest: seq<byte>)
    requires |head| == 12 && forall id :: id in ids ==> Fits(id, 8)
    ensures GetIds(head + PutIds(ids) + rest, |ids|) == ids
    decreases |ids|
  {
    hide PutInt, GetInt, Fits, Power256;
    if ids != [] {
      var init, last := ids[..|ids| - 1], ids[|ids| - 1];
      Regroup(head, PutIds(init), PutInt(last, 8), rest);
      IdsRoundTrip(head, init, PutInt(last, 8) + rest);
      Between(head + PutIds(init), PutInt(last, 8), rest);
      GetPutInt(last, 8);
    }
  }

  lemma Between(a: seq<byte>, b: seq<byte>, c: seq<byte>)
    ensures (a + b + c)[|a|..|a| + |b|] == b && a + b + c == a + (b + c)
  {}

  /** The ids acknowledged are read back, whatever bytes follow. */
  lemma ParseUndoesCreate(ids: seq<int>, rest: seq<byte>)
    requires IdsFit(ids)
    ensures ParsedAck(MsgsAck(ids) + rest) == Some(ids)
  {
    hide PutLE, PutInt, GetLE, GetInt, Fits, Power256, GetIds, PutIds;
    Widths();
    var head := PutLE(MSGS_ACK_CID, 4) + PutLE(VECTOR_CID, 4) + PutInt(|ids|, 4);
    var data := head + PutIds(ids) + rest;
    assert data[..4] == PutLE(MSGS_ACK_CID, 4) && data[4..8] == PutLE(VECTOR_CID, 4) && data[8..12] == PutInt(|ids|, 4);
    GetPut(MSGS_ACK_CID, 4);
    GetPut(VECTOR_CID, 4);
    GetPutInt(|ids|, 4);
    IdsRoundTrip(head, ids, rest);
    assert MsgsAck(ids) + rest == data;
  }
}
