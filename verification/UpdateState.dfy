/** The tracked position of the update stream, and the three gap tests on it. */
module UpdateState {

  datatype Verdict = Accept | Duplicate | Gap

  datatype Position = Position(pts: int, qts: int, seqNo: int, date: int)

  /** A counter that stands at `at` meets an update ending at `end` that counts for `width`:
      an uninitialized counter takes anything, otherwise the update must start where the
      counter stands. */
  function Judge(at: int, end: int, width: int): Verdict {
    if at == 0 || end == at + width then Accept
    else if end <= at then Duplicate
    else Gap
  }

  /** A seq of zero means that the wrapper carries none. */
  function JudgeSeq(at: int, seqNo: int): Verdict {
    if seqNo == 0 then Accept else Judge(at, seqNo, 1)
  }

  class UpdateState {
    var pts: int
    var qts: int
    var seqNo: int
    var date: int

    constructor (initial: Position)
      ensures GetState() == initial
    {
      pts, qts, seqNo, date := initial.pts, initial.qts, initial.seqNo, initial.date;
    }

    function GetState(): (p: Position)
      reads this
    {
      Position(pts, qts, seqNo, date)
    }

    method ApplyPts(receivedPts: int, ptsCount: int) returns (v: Verdict)
      modifies this
      ensures v == Judge(old(pts), receivedPts, ptsCount)
      ensures v == if old(pts) == 0 || receivedPts == old(pts) + ptsCount then Accept
                   else if receivedPts <= old(pts) then Duplicate else Gap
      ensures GetState() == if v.Accept? then old(GetState()).(pts := receivedPts) else old(GetState())
    {
      if pts == 0 {
        pts := receivedPts;
        return Accept;
      }
      var expectedPts := pts + ptsCount;
      if receivedPts == expectedPts {
        pts := receivedPts;
        return Accept;
      }
      if receivedPts <= pts {
        return Duplicate;
      }
      return Gap;
    }

    method ApplyQts(receivedQts: int) returns (v: Verdict)
      modifies this
      ensures v == Judge(old(qts), receivedQts, 1)
      ensures v == if old(qts) == 0 || receivedQts == old(qts) + 1 then Accept
                   else if receivedQts <= old(qts) then Duplicate else Gap
      ensures GetState() == if v.Accept? then old(GetState()).(qts := receivedQts) else old(GetState())
    {
      if qts == 0 {
        qts := receivedQts;
        return Accept;
      }
      if receivedQts == qts + 1 {
        qts := receivedQts;
        return Accept;
      }
      if receivedQts <= qts {
        return Duplicate;
      }
      return Gap;
    }

    method ApplySeq(receivedSeq: int) returns (v: Verdict)
      modifies this
      ensures v == JudgeSeq(old(seqNo), receivedSeq)
      ensures v == if receivedSeq == 0 || old(seqNo) == 0 || receivedSeq == old(seqNo) + 1 then Accept
                   else if receivedSeq <= old(seqNo) then Duplicate else Gap
      ensures GetState() == if v.Accept? && receivedSeq != 0 then old(GetState()).(seqNo := receivedSeq)
                            else old(GetState())
    {
      if receivedSeq == 0 {
        return Accept;
      }
      if seqNo == 0 {
        seqNo := receivedSeq;
        return Accept;
      }
      if receivedSeq == seqNo + 1 {
        seqNo := receivedSeq;
        return Accept;
      }
      if receivedSeq <= seqNo {
        return Duplicate;
      }
      return Gap;
    }

    method SetPts(value: int)
      modifies this
      ensures GetState() == old(GetState()).(pts := value)
    {
      pts := value;
    }

    method SetQts(value: int)
      modifies this
      ensures GetState() == old(GetState()).(qts := value)
    {
      qts := value;
    }

    method SetSeq(value: int)
      modifies this
      ensures GetState() == old(GetState()).(seqNo := value)
    {
      seqNo := value;
    }

    method SetDate(value: int)
      modifies this
      ensures GetState() == old(GetState()).(date := value)
    {
      date := value;
    }
  }
}
