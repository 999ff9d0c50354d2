/** Message ids and sequence numbers of an outgoing session. */
module Sessions {
  import opened DiffieHellman

  // -------------------------------------------------------------- message ids

  /** floor((now / 1000 + offset) * 2^32) for a clock in milliseconds, in the arithmetic and
      with the rounding of the machine, whatever that is. */
  type Scaling = (int, int) -> int

  /** The id after `last`, whatever the clock reads. */
  function NextId(last: int, reading: int): int {
    var msgId := reading - TruncatedRemainder(reading, 4);
    if msgId <= last then last + 4 else msgId
  }

  class MsgIdGenerator {
    const scale: Scaling
    var lastMsgId: int
    var timeOffset: int

    constructor (scale: Scaling)
      ensures this.scale == scale && lastMsgId == 0 && timeOffset == 0
    {
      this.scale := scale;
      lastMsgId, timeOffset := 0, 0;
    }

    method SetTimeOffset(offset: int)
      modifies this`timeOffset
      ensures timeOffset == offset
    {
      timeOffset := offset;
    }

    method Generate(nowMs: int) returns (msgId: int)
      modifies this`lastMsgId
      ensures msgId == lastMsgId == NextId(old(lastMsgId), scale(nowMs, timeOffset))
    {
      msgId := scale(nowMs, timeOffset);
      msgId := msgId - TruncatedRemainder(msgId, 4);
      if msgId <= lastMsgId {
        msgId := lastMsgId + 4;
      }
      lastMsgId := msgId;
    }
  }

  predicate IsId(n: int) {
    n >= 0 && n % 4 == 0
  }

  /** The id is the least multiple of four above the previous one that is less than four
      below the clock. */
  lemma NextIdIsLeast(last: int, reading: int)
    requires IsId(last)
    ensures var id := NextId(last, reading);
            && IsId(id) && id > last && id > reading - 4
            && forall n :: IsId(n) && n > last && n > reading - 4 ==> id <= n
  {
    var id := NextId(last, reading);
    forall n | IsId(n) && n > last && n > reading - 4 ensures id <= n {}
  }

  /** The ids of a session, one for each reading of the clock. */
  function Ids(last: int, readings: seq<int>): (ids: seq<int>)
    ensures |ids| == |readings|
    decreases |readings|
  {
    if readings == [] then [] else
      var id := NextId(last, readings[0]);
      [id] + Ids(id, readings[1..])
  }

  /** Multiples of four above `last`, each above the ones before it. */
  predicate Increasing(last: int, ids: seq<int>) {
    && (forall i :: 0 <= i < |ids| ==> IsId(ids[i]) && ids[i] > last)
    && (forall i, j :: 0 <= i < j < |ids| ==> ids[i] < ids[j])
  }

  /** Any clock, even one that runs backwards, gives strictly increasing multiples of four. */
  lemma {:induction false} IdsIncrease(last: int, readings: seq<int>)
    requires IsId(last)
    ensures Increasing(last, Ids(last, readings))
    decreases |readings|
  {
    hide NextId, IsId;
    if readings != [] {
      var id := NextId(last, readings[0]);
      NextIdIsLeast(last, readings[0]);
      IdsIncrease(id, readings[1..]);
      IncreasingCons(last, id, Ids(id, readings[1..]));
    }
  }

  lemma IncreasingCons(last: int, id: int, more: seq<int>)
    requires IsId(id) && id > last && Increasing(id, more)
    ensures Increasing(last, [id] + more)
  {
    hide IsId;
    var ids := [id] + more;
    assert forall i :: 0 < i < |ids| ==> ids[i] == more[i - 1];
  }

  // --------------------------------------------------------- sequence numbers

  class SeqNoTracker {
    var contentSeqNo: nat

    constructor ()
      ensures contentSeqNo == 0
    {
      contentSeqNo := 0;
    }

    method Next(isContentRelated: bool) returns (seqNo: nat)
      modifies this
      ensures seqNo == 2 * old(contentSeqNo) + (if isContentRelated then 1 else 0)
      ensures contentSeqNo == old(contentSeqNo) + (if isContentRelated then 1 else 0)
    {
      seqNo := contentSeqNo * 2 + (if isContentRelated then 1 else 0);
      if isContentRelated {
        contentSeqNo := contentSeqNo + 1;
      }
    }

    method Reset()
      modifies this
      ensures contentSeqNo == 0
    {
      contentSeqNo := 0;
    }
  }

  /** The numbers of a run of messages, by whether each is content-related. */
  function SeqNos(content: nat, kinds: seq<bool>): (ns: seq<nat>)
    ensures |ns| == |kinds|
    decreases |kinds|
  {
    if kinds == [] then []
    else if kinds[0] then [2 * content + 1] + SeqNos(content + 1, kinds[1..])
    else [2 * content] + SeqNos(content, kinds[1..])
  }

  function ContentCount(kinds: seq<bool>): nat {
    if kinds == [] then 0 else ContentCount(kinds[..|kinds| - 1]) + if kinds[|kinds| - 1] then 1 else 0
  }

  /** Each number is twice the content-related messages before it, plus one for such a
      message itself: numbers of content-related messages are odd and all different. */
  lemma {:induction false} SeqNoMeaning(content: nat, kinds: seq<bool>, i: nat)
    requires i < |kinds|
    ensures SeqNos(content, kinds)[i] == 2 * (content + ContentCount(kinds[..i])) + if kinds[i] then 1 else 0
    decreases |kinds|
  {
    if i > 0 {
      var c := if kinds[0] then 1 else 0;
      SeqNoMeaning(content + c, kinds[1..], i - 1);
      assert kinds[..i] == [kinds[0]] + kinds[1..][..i - 1];
      ContentCountCons(kinds[0], kinds[1..][..i - 1]);
    }
  }

  lemma {:induction false} ContentCountCons(k: bool, kinds: seq<bool>)
    ensures ContentCount([k] + kinds) == (if k then 1 else 0) + ContentCount(kinds)
    decreases |kinds|
  {
    if kinds == [] {
      assert [k] + kinds == [k] && [k][..0] == [];
    } else {
      var n := |kinds| - 1;
      assert ([k] + kinds)[..n + 1] == [k] + kinds[..n];
      ContentCountCons(k, kinds[..n]);
    }
  }

  // ------------------------------------------------------------------ session

  class Session {
    const scale: Scaling
    var sessionId: int
    var timeOffset: int
    var seqNoTracker: SeqNoTracker
    var msgIdGenerator: MsgIdGenerator

    ghost predicate Valid()
      reads this, msgIdGenerator
    {
      msgIdGenerator.scale == scale && msgIdGenerator.timeOffset == timeOffset && IsId(msgIdGenerator.lastMsgId)
    }

    constructor (scale: Scaling, sessionId: int, timeOffset: int)
      ensures Valid() && fresh(seqNoTracker) && fresh(msgIdGenerator)
      ensures this.scale == scale && this.sessionId == sessionId && this.timeOffset == timeOffset
      ensures msgIdGenerator.lastMsgId == 0 && seqNoTracker.contentSeqNo == 0
    {
      this.scale, this.sessionId, this.timeOffset := scale, sessionId, timeOffset;
      seqNoTracker := new SeqNoTracker();
      msgIdGenerator := new MsgIdGenerator(scale);
      new;
      msgIdGenerator.SetTimeOffset(timeOffset);
    }

    /** `newId` is the random session id drawn. The new generator starts from zero again. */
    method Reset(newId: int)
      requires Valid()
      modifies this`sessionId, this`msgIdGenerator, seqNoTracker
      ensures Valid() && fresh(msgIdGenerator) && sessionId == newId
      ensures msgIdGenerator.lastMsgId == 0 && seqNoTracker.contentSeqNo == 0
    {
      sessionId := newId;
      seqNoTracker.Reset();
      msgIdGenerator := new MsgIdGenerator(scale);
      msgIdGenerator.SetTimeOffset(timeOffset);
    }

    method NextMsgId(nowMs: int) returns (msgId: int)
      requires Valid()
      modifies msgIdGenerator
      ensures Valid() && msgId == msgIdGenerator.lastMsgId == NextId(old(msgIdGenerator.lastMsgId), scale(nowMs, timeOffset))
    {
      hide NextId;
      NextIdIsLeast(msgIdGenerator.lastMsgId, scale(nowMs, timeOffset));
      msgId := msgIdGenerator.Generate(nowMs);
    }

    method NextSeqNo(contentRelated: bool) returns (seqNo: nat)
      modifies seqNoTracker
      ensures seqNo == 2 * old(seqNoTracker.contentSeqNo) + (if contentRelated then 1 else 0)
      ensures seqNoTracker.contentSeqNo == old(seqNoTracker.contentSeqNo) + (if contentRelated then 1 else 0)
    {
      seqNo := seqNoTracker.Next(contentRelated);
    }

    method UpdateTimeOffset(offset: int)
      requires Valid()
      modifies this`timeOffset, msgIdGenerator
      ensures Valid() && timeOffset == offset && msgIdGenerator.lastMsgId == old(msgIdGenerator.lastMsgId)
    {
      timeOffset := offset;
      msgIdGenerator.SetTimeOffset(offset);
    }
  }
}
