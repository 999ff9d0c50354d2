/** Replay protection: the ids of recent messages in a set that keeps insertion order. */
module ReplayWindow {
  const MAX_RECENT_MSG_IDS: nat := 1000

  /** The set after an id came in; an id that is there already is dropped. */
  function Admit(recent: seq<int>, msgId: int): seq<int> {
    if msgId in recent then recent
    else if |recent| + 1 > MAX_RECENT_MSG_IDS then (recent + [msgId])[1..]
    else recent + [msgId]
  }

  class ReplayGuard {
    var recentMsgIds: seq<int>

    constructor ()
      ensures recentMsgIds == []
    {
      recentMsgIds := [];
    }

    /** Whether the message goes on to be processed. */
    method Accept(msgId: int) returns (accepted: bool)
      modifies this
      ensures accepted == (msgId !in old(recentMsgIds))
      ensures recentMsgIds == Admit(old(recentMsgIds), msgId)
    {
      if msgId in recentMsgIds { return false; }
      recentMsgIds := recentMsgIds + [msgId];
      if |recentMsgIds| > MAX_RECENT_MSG_IDS {
        recentMsgIds := recentMsgIds[1..];
      }
      return true;
    }
  }

  /** The set after a run of incoming ids. */
  function Recent(incoming: seq<int>): seq<int> {
    if incoming == [] then [] else Admit(Recent(incoming[..|incoming| - 1]), incoming[|incoming| - 1])
  }

  /** The ids of the run that were accepted, in order. */
  function Accepted(incoming: seq<int>): seq<int> {
    if incoming == [] then [] else
      var before, msgId := incoming[..|incoming| - 1], incoming[|incoming| - 1];
      if msgId in Recent(before) then Accepted(before) else Accepted(before) + [msgId]
  }

  function LastOf(ids: seq<int>): seq<int> {
    if |ids| <= MAX_RECENT_MSG_IDS then ids else ids[|ids| - MAX_RECENT_MSG_IDS..]
  }

  /** The set is exactly the last 1000 accepted ids, in the order of acceptance. */
  lemma {:induction false} WindowIsTheLastAccepted(incoming: seq<int>)
    ensures Recent(incoming) == LastOf(Accepted(incoming))
    ensures var ids := Accepted(incoming); Recent(incoming) == if |ids| <= 1000 then ids else ids[|ids| - 1000..]
  {
    hide Admit, LastOf;
    LastOfMeans(Accepted(incoming));
    if incoming != [] {
      var before, msgId := incoming[..|incoming| - 1], incoming[|incoming| - 1];
      WindowIsTheLastAccepted(before);
      AdmitMovesOn(Accepted(before), msgId);
    }
  }

  lemma LastOfMeans(ids: seq<int>)
    ensures LastOf(ids) == if |ids| <= 1000 then ids else ids[|ids| - 1000..]
  {}

  lemma AdmitMovesOn(ids: seq<int>, msgId: int)
    ensures msgId !in LastOf(ids) ==> Admit(LastOf(ids), msgId) == LastOf(ids + [msgId])
    ensures msgId in LastOf(ids) ==> Admit(LastOf(ids), msgId) == LastOf(ids)
  {
    assert |ids| >= MAX_RECENT_MSG_IDS ==> (LastOf(ids) + [msgId])[1..] == LastOf(ids + [msgId]);
  }

  lemma InLast(ids: seq<int>, i: nat)
    requires i < |ids|
    ensures |ids| - i <= MAX_RECENT_MSG_IDS ==> ids[i] in LastOf(ids)
  {
    if |ids| - i <= MAX_RECENT_MSG_IDS < |ids| {
      assert LastOf(ids)[i - (|ids| - MAX_RECENT_MSG_IDS)] == ids[i];
    }
  }

  /** So an id is accepted again only after at least 1000 others. */
  lemma {:induction false} RepeatsAreFarApart(incoming: seq<int>, i: nat, j: nat)
    requires i < j < |Accepted(incoming)| && Accepted(incoming)[i] == Accepted(incoming)[j]
    ensures j - i > 1000
  {
    var before, msgId := incoming[..|incoming| - 1], incoming[|incoming| - 1];
    if j < |Accepted(before)| {
      RepeatsAreFarApart(before, i, j);
    } else {
      var ids := Accepted(before);
      WindowIsTheLastAccepted(before);
      InLast(ids, i);
    }
  }
}
