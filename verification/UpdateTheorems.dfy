/** What the update handler guarantees: nothing is lost or repeated, accepted updates abut,
    draining stops only when nothing more fits, any delivery order of a chain emits the
    chain, and a waiting buffer always has a timer or has already asked for the difference. */
module UpdateTheorems {
  import opened UpdateState
  import opened Options
  import opened UpdateSequencing

  // -------------------------------------------------------------- conservation

  ghost function Content(r: Drained): multiset<Update> {
    multiset(r.emitted) + multiset(r.dropped) + multiset(r.left)
  }

  lemma HeadTail(us: seq<Update>)
    requires us != []
    ensures multiset(us) == multiset{us[0]} + multiset(us[1..])
  {
    assert us == [us[0]] + us[1..];
  }

  lemma {:induction false} PassPartitions(s: Position, us: seq<Update>)
    ensures Content(Pass(s, us)) == multiset(us)
    decreases us
  {
    if us != [] {
      HeadTail(us);
      PassPartitions(if Classify(s, us[0]).Accept? then Advance(s, us[0]) else s, us[1..]);
    }
  }

  /** Draining splits the waiting updates into emitted, discarded and still waiting. */
  lemma {:induction false} DrainPartitions(s: Position, us: seq<Update>)
    ensures Content(Drain(s, us)) == multiset(us)
    decreases |us|
  {
    var r := Pass(s, us);
    PassPartitions(s, us);
    if |r.emitted| > 0 {
      DrainPartitions(r.state, r.left);
    }
  }

  lemma {:induction false} InsertKeepsContent(sorted: seq<Update>, u: Update)
    ensures multiset(InsertByPts(sorted, u)) == multiset(sorted) + multiset{u}
  {
    if sorted != [] {
      var n := |sorted| - 1;
      assert sorted == sorted[..n] + [sorted[n]];
      InsertKeepsContent(sorted[..n], u);
    }
  }

  lemma {:induction false} SortKeepsContent(us: seq<Update>)
    ensures multiset(SortByPts(us)) == multiset(us)
  {
    if us != [] {
      var n := |us| - 1;
      assert us == us[..n] + [us[n]];
      SortKeepsContent(us[..n]);
      InsertKeepsContent(SortByPts(us[..n]), us[n]);
    }
  }

  ghost predicate SortedByKey(us: seq<Update>) {
    forall i, j :: 0 <= i < j < |us| ==> SortKey(us[i]) <= SortKey(us[j])
  }

  /** The updates of one key, in their order. */
  function WithKey(us: seq<Update>, key: int): seq<Update> {
    if us == [] then [] else
      WithKey(us[..|us| - 1], key) + (if SortKey(us[|us| - 1]) == key then [us[|us| - 1]] else [])
  }

  lemma {:induction false} InsertMembers(sorted: seq<Update>, u: Update)
    ensures forall k :: 0 <= k < |InsertByPts(sorted, u)| ==>
              InsertByPts(sorted, u)[k] == u || InsertByPts(sorted, u)[k] in sorted
  {
    if sorted != [] && SortKey(sorted[|sorted| - 1]) > SortKey(u) {
      InsertMembers(sorted[..|sorted| - 1], u);
    }
  }

  lemma {:induction false} InsertSorts(sorted: seq<Update>, u: Update)
    requires SortedByKey(sorted)
    ensures SortedByKey(InsertByPts(sorted, u))
  {
    if sorted != [] && SortKey(sorted[|sorted| - 1]) > SortKey(u) {
      var n := |sorted| - 1;
      InsertSorts(sorted[..n], u);
      InsertMembers(sorted[..n], u);
    }
  }

  lemma WithKeySnoc(us: seq<Update>, u: Update, key: int)
    ensures WithKey(us + [u], key) == WithKey(us, key) + if SortKey(u) == key then [u] else []
  {
    assert (us + [u])[..|us|] == us;
  }

  lemma SwapInKey(us: seq<Update>, a: Update, b: Update, key: int)
    requires SortKey(a) != SortKey(b)
    ensures WithKey(us + [a] + [b], key) == WithKey(us + [b], key) + if SortKey(a) == key then [a] else []
  {
    WithKeySnoc(us + [a], b, key);
    WithKeySnoc(us, a, key);
    WithKeySnoc(us, b, key);
    assert forall w: seq<Update> :: w + [] == w;
  }

  lemma {:induction false} InsertIsStable(sorted: seq<Update>, u: Update, key: int)
    ensures WithKey(InsertByPts(sorted, u), key) == WithKey(sorted + [u], key)
  {
    if sorted != [] && SortKey(sorted[|sorted| - 1]) > SortKey(u) {
      var n := |sorted| - 1;
      var front, last := sorted[..n], sorted[n];
      assert sorted == front + [last];
      InsertIsStable(front, u, key);
      WithKeySnoc(InsertByPts(front, u), last, key);
      SwapInKey(front, last, u, key);
      assert InsertByPts(sorted, u) == InsertByPts(front, u) + [last];
    } else {
      assert InsertByPts(sorted, u) == sorted + [u];
    }
  }

  /** The sort puts the buffer in pts order and keeps equal keys in arrival order. */
  lemma {:induction false} SortIsStable(us: seq<Update>, key: int)
    ensures var t := SortByPts(us);
            && SortedByKey(t)
            && (forall i, j :: 0 <= i < j < |t| && t[i].pts.Some? && t[j].pts.Some? ==> t[i].pts.value <= t[j].pts.value)
    ensures WithKey(SortByPts(us), key) == WithKey(us, key)
  {
    if us != [] {
      var n := |us| - 1;
      SortIsStable(us[..n], key);
      var t := SortByPts(us[..n]);
      InsertSorts(t, us[n]);
      InsertIsStable(t, us[n], key);
      WithKeySnoc(t, us[n], key);
    }
  }

  /** Every update the handler ever took in, wherever it is now. */
  ghost function Account(h: Handler): multiset<Update> {
    multiset(Emissions(h.log)) + multiset(h.dropped) + multiset(h.buffer)
  }

  lemma {:induction false} EmissionsConcat(a: seq<Event>, b: seq<Event>)
    ensures Emissions(a + b) == Emissions(a) + Emissions(b)
  {
    if b == [] {
      assert a + b == a;
    } else {
      var n := |b| - 1;
      assert (a + b)[..|a + b| - 1] == a + b[..n];
      EmissionsConcat(a, b[..n]);
    }
  }

  lemma {:induction false} EmissionsOfEvents(us: seq<Update>)
    ensures Emissions(Events(us)) == us
  {
    if us != [] {
      var n := |us| - 1;
      assert Events(us)[..n] == Events(us[..n]);
      EmissionsOfEvents(us[..n]);
      assert us == us[..n] + [us[n]];
    }
  }

  lemma EmissionsOfOne(e: Event)
    ensures Emissions([e]) == if e.Emitted? then [e.update] else []
  {
    assert [e][..0] == [];
  }

  lemma LogOne(log: seq<Event>, e: Event)
    ensures Emissions(log + [e]) == if e.Emitted? then Emissions(log) + [e.update] else Emissions(log)
  {
    assert Emissions(log) + [] == Emissions(log);
    EmissionsConcat(log, [e]);
    EmissionsOfOne(e);
  }

  /** Draining the buffer adds what it emits and keeps the account. */
  lemma DrainBufferAccount(h: Handler)
    ensures var d := Drain(h.state, SortByPts(h.buffer));
            && Emissions(DrainBuffer(h).log) == Emissions(h.log) + d.emitted
            && Account(DrainBuffer(h)) == Account(h)
  {
    var sorted := SortByPts(h.buffer);
    var d := Drain(h.state, sorted);
    EmissionsConcat(h.log, Events(d.emitted));
    EmissionsOfEvents(d.emitted);
    SortKeepsContent(h.buffer);
    DrainPartitions(h.state, sorted);
  }

  /** The handler just before it drains its buffer for an accepted update. */
  function Emitting(h: Handler, u: Update): Handler {
    var s := Advance(h.state, u);
    h.(state := s, log := h.log + [Emitted(u), StateUpdated(s)])
  }

  lemma AcceptedShape(h: Handler, u: Update)
    ensures var r, d := Accepted(h, u), DrainBuffer(Emitting(h, u));
            r.state == d.state && r.buffer == d.buffer && r.dropped == d.dropped && r.log == d.log
            && r.ranges == h.ranges
    ensures Emissions(Emitting(h, u).log) == Emissions(h.log) + [u]
  {
    hide Drain, SortByPts, Events, Emissions;
    var s := Advance(h.state, u);
    assert h.log + [Emitted(u), StateUpdated(s)] == h.log + [Emitted(u)] + [StateUpdated(s)];
    LogOne(h.log, Emitted(u));
    LogOne(h.log + [Emitted(u)], StateUpdated(s));
  }

  lemma UpdateIsAccountedFor(h: Handler, u: Update)
    ensures Account(ProcessUpdate(h, u)) == Account(h) + multiset{u}
  {
    if !On(Pts, u) && !On(Qts, u) {
      LogOne(h.log, Emitted(u));
    } else {
      match Classify(h.state, u)
      case Accept =>
        AcceptedShape(h, u);
        DrainBufferAccount(Emitting(h, u));
      case Duplicate =>
      case Gap =>
        BufferedShape(h, [u], if On(Pts, u) then PtsGap else QtsGap);
    }
  }

  lemma BufferedShape(h: Handler, us: seq<Update>, kind: GapKind)
    ensures var r := Buffered(h, us, kind);
            r.state == h.state && r.buffer == h.buffer + us && r.dropped == h.dropped && r.ranges == h.ranges
            && Emissions(r.log) == Emissions(h.log)
  {
    LogOne(h.log, GapDetected(kind));
  }

  lemma {:induction false} EachIsAccountedFor(h: Handler, us: seq<Update>)
    ensures Account(ProcessEach(h, us)) == Account(h) + multiset(us)
  {
    hide ProcessUpdate;
    hide Account;
    if us != [] {
      var n := |us| - 1;
      assert us == us[..n] + [us[n]];
      EachIsAccountedFor(h, us[..n]);
      UpdateIsAccountedFor(ProcessEach(h, us[..n]), us[n]);
    }
  }

  /** A difference also loses nothing: its updates are all emitted, before those that it
      frees, and what then stays buffered is still behind a gap. No timer is left. */
  lemma DifferenceIsAccountedFor(h: Handler, s: Position, us: seq<Update>)
    ensures var r := ApplyDifference(h, s, us);
            && Account(r) == Account(h) + multiset(us)
            && AllGaps(r.state, r.buffer)
            && Emissions(r.log) == Emissions(h.log) + us + Drain(s, SortByPts(h.buffer)).emitted
            && (OneTimer(h) ==> r.armed == {} && r.timer == None)
  {
    hide Drain, SortByPts, Classify, Events, Emissions, AllGaps;
    var c := ClearTimer(h.(state := s));
    var e := c.(log := c.log + Events(us));
    EmissionsConcat(c.log, Events(us));
    EmissionsOfEvents(us);
    DrainBufferAccount(e);
    DrainedShape(e);
    var d := DrainBuffer(e);
    LogOne(d.log, StateUpdated(d.state));
    DrainReachesFixpoint(s, SortByPts(h.buffer));
  }

  lemma DrainedShape(h: Handler)
    ensures var r, d := DrainBuffer(h), Drain(h.state, SortByPts(h.buffer));
            r.state == d.state && r.buffer == d.left && r.armed == h.armed && r.timer == h.timer
            && r.log == h.log + Events(d.emitted)
  {}

  lemma StepIsAccountedFor(h: Handler, a: Action)
    ensures Account(Step(h, a)) == Account(h) + multiset(Input(a))
  {
    hide ProcessUpdate, ProcessEach, Emissions, ApplyDifference;
    match a
    case Difference(s, us) => DifferenceIsAccountedFor(h, s, us);
    case Single(u) => UpdateIsAccountedFor(h, u);
    case Timer(_) => LogOne(h.log, NeedDifference);
    case Wrapper(us, seqNo, seqStart, date) =>
      match JudgeSeq(h.state.seqNo, FirstSeq(seqNo, seqStart))
      case Duplicate =>
      case Gap => BufferedShape(h, us, SeqGap);
      case Accept => WrapperIsAccountedFor(EnterWrapper(h, seqNo, seqStart, date), us);
  }

  lemma WrapperIsAccountedFor(h: Handler, us: seq<Update>)
    ensures Account(Announce(ProcessEach(h, us))) == Account(h) + multiset(us)
  {
    hide ProcessEach;
    EachIsAccountedFor(h, us);
    var p := ProcessEach(h, us);
    LogOne(p.log, StateUpdated(p.state));
  }

  /** Conservation: over any run, every update handed in is exactly one of emitted,
      discarded as a duplicate, or still buffered. */
  lemma {:induction false} NothingIsLost(h: Handler, acts: seq<Action>)
    ensures Account(Run(h, acts)) == Account(h) + multiset(HandedIn(acts))
  {
    hide Step;
    hide Account;
    if acts != [] {
      var n := |acts| - 1;
      NothingIsLost(h, acts[..n]);
      StepIsAccountedFor(Run(h, acts[..n]), acts[n]);
    }
  }

  // -------------------------------------------------------- the drain fixpoint

  ghost predicate AllGaps(s: Position, us: seq<Update>) {
    forall u :: u in us ==> Classify(s, u) == Gap
  }

  lemma {:induction false} QuietPassLeavesGaps(s: Position, us: seq<Update>)
    requires Pass(s, us).emitted == []
    ensures Pass(s, us).state == s && AllGaps(s, Pass(s, us).left)
    decreases us
  {
    if us != [] && !Classify(s, us[0]).Accept? {
      QuietPassLeavesGaps(s, us[1..]);
    }
  }

  /** When draining stops, no buffered update could be emitted: each is still a gap. */
  lemma {:induction false} DrainReachesFixpoint(s: Position, us: seq<Update>)
    ensures AllGaps(Drain(s, us).state, Drain(s, us).left)
    decreases |us|
  {
    var r := Pass(s, us);
    if |r.emitted| == 0 {
      QuietPassLeavesGaps(s, us);
    } else {
      DrainReachesFixpoint(r.state, r.left);
    }
  }

  // -------------------------------------------------------------------- tiling

  /** The updates of `es` on the line abut: each starts where the one before ended, the
      first at `p`, and the last ends at `q`. */
  ghost predicate Tile(line: Line, p: int, es: seq<Update>, q: int)
    decreases es
  {
    if es == [] then p == q
    else if On(line, es[0]) then
      End(line, es[0]) == p + Width(line, es[0]) && Tile(line, End(line, es[0]), es[1..], q)
    else Tile(line, p, es[1..], q)
  }

  lemma {:induction false} TileConcat(line: Line, p: int, a: seq<Update>, q: int, b: seq<Update>, r: int)
    requires Tile(line, p, a, q) && Tile(line, q, b, r)
    ensures Tile(line, p, a + b, r)
    decreases a
  {
    if a == [] {
      assert a + b == b;
    } else {
      assert (a + b)[1..] == a[1..] + b;
      TileConcat(line, if On(line, a[0]) then End(line, a[0]) else p, a[1..], q, b, r);
    }
  }

  ghost predicate NoNegativeWidths(line: Line, us: seq<Update>) {
    forall u :: u in us && On(line, u) ==> Width(line, u) >= 0
  }

  /** Everything discarded ends at or before `at`. */
  ghost predicate Past(line: Line, at: int, us: seq<Update>) {
    forall u :: u in us && On(line, u) ==> End(line, u) <= at
  }

  /** What a pass or a drain from `s` to `r.state` does on one line. */
  ghost predicate MovesForward(line: Line, s: Position, r: Drained) {
    && Tile(line, At(line, s), r.emitted, At(line, r.state))
    && At(line, r.state) >= At(line, s)
    && Past(line, At(line, r.state), r.dropped)
  }

  lemma {:induction false} PassTiles(line: Line, s: Position, us: seq<Update>)
    requires At(line, s) > 0 && NoNegativeWidths(line, us)
    ensures MovesForward(line, s, Pass(s, us))
    decreases us
  {
    if us != [] {
      var u := us[0];
      var s' := if Classify(s, u).Accept? then Advance(s, u) else s;
      var rest := Pass(s', us[1..]);
      assert On(line, u) ==> Classify(s, u) == Judge(At(line, s), End(line, u), Width(line, u));
      PassTiles(line, s', us[1..]);
      var r := Pass(s, us);
      match Classify(s, u)
      case Accept =>
        assert u in us;
        assert r.emitted[0] == u && r.emitted[1..] == rest.emitted && r.dropped == rest.dropped;
      case Duplicate =>
        assert r.emitted == rest.emitted && r.dropped == [u] + rest.dropped;
      case Gap =>
        assert r.emitted == rest.emitted && r.dropped == rest.dropped;
    }
  }

  lemma {:induction false} DrainTiles(line: Line, s: Position, us: seq<Update>)
    requires At(line, s) > 0 && NoNegativeWidths(line, us)
    ensures MovesForward(line, s, Drain(s, us))
    decreases |us|
  {
    var r := Pass(s, us);
    PassTiles(line, s, us);
    if |r.emitted| > 0 {
      PassPartitions(s, us);
      MembersOf(us, r);
      DrainTiles(line, r.state, r.left);
      var t := Drain(r.state, r.left);
      TileConcat(line, At(line, s), r.emitted, At(line, r.state), t.emitted, At(line, t.state));
    }
  }

  lemma MembersOf(us: seq<Update>, r: Drained)
    requires Content(r) == multiset(us)
    ensures forall u :: u in us <==> u in r.emitted || u in r.dropped || u in r.left
  {
    forall u
      ensures u in us <==> u in r.emitted || u in r.dropped || u in r.left
    {
      assert u in us <==> u in multiset(us);
    }
  }

  lemma SameMembers(a: seq<Update>, b: seq<Update>)
    requires multiset(a) == multiset(b)
    ensures forall u :: u in a <==> u in b
  {
    forall u
      ensures u in a <==> u in b
    {
      assert u in a <==> u in multiset(a);
      assert u in b <==> u in multiset(b);
    }
  }

  /** The emitted updates tile (p0, position]. */
  ghost predicate Tiled(line: Line, p0: int, h: Handler) {
    && At(line, h.state) > 0
    && NoNegativeWidths(line, h.buffer)
    && Tile(line, p0, Emissions(h.log), At(line, h.state))
  }

  /** From `h` to `h2` the position does not go back, and if everything discarded was past
      then it still is. */
  ghost predicate StaysPast(line: Line, h: Handler, h2: Handler) {
    && At(line, h2.state) >= At(line, h.state)
    && (Past(line, At(line, h.state), h.dropped) ==> Past(line, At(line, h2.state), h2.dropped))
  }

  lemma AppendTile(line: Line, p: int, es: seq<Update>, q: int, u: Update)
    requires Tile(line, p, es, q)
    ensures !On(line, u) ==> Tile(line, p, es + [u], q)
    ensures On(line, u) && End(line, u) == q + Width(line, u) ==> Tile(line, p, es + [u], End(line, u))
  {
    assert [u][1..] == [];
    if !On(line, u) {
      TileConcat(line, p, es, q, [u], q);
    } else if End(line, u) == q + Width(line, u) {
      TileConcat(line, p, es, q, [u], End(line, u));
    }
  }

  lemma DrainBufferKeepsTiling(line: Line, p0: int, h: Handler)
    requires Tiled(line, p0, h)
    ensures Tiled(line, p0, DrainBuffer(h)) && StaysPast(line, h, DrainBuffer(h))
  {
    var sorted := SortByPts(h.buffer);
    var d := Drain(h.state, sorted);
    SortKeepsContent(h.buffer);
    SameMembers(sorted, h.buffer);
    DrainTiles(line, h.state, sorted);
    DrainPartitions(h.state, sorted);
    MembersOf(sorted, d);
    DrainBufferAccount(h);
    TileConcat(line, p0, Emissions(h.log), At(line, h.state), d.emitted, At(line, d.state));
  }

  lemma AcceptedKeepsTiling(line: Line, p0: int, h: Handler, u: Update)
    requires Tiled(line, p0, h) && NoNegativeWidths(line, [u]) && Classify(h.state, u).Accept?
    ensures Tiled(line, p0, Accepted(h, u)) && StaysPast(line, h, Accepted(h, u))
  {
    assert u in [u];
    AcceptedShape(h, u);
    AppendTile(line, p0, Emissions(h.log), At(line, h.state), u);
    DrainBufferKeepsTiling(line, p0, Emitting(h, u));
  }

  lemma UpdateKeepsTiling(line: Line, p0: int, h: Handler, u: Update)
    requires Tiled(line, p0, h) && NoNegativeWidths(line, [u])
    ensures Tiled(line, p0, ProcessUpdate(h, u)) && StaysPast(line, h, ProcessUpdate(h, u))
  {
    assert u in [u];
    if !On(Pts, u) && !On(Qts, u) {
      LogOne(h.log, Emitted(u));
      AppendTile(line, p0, Emissions(h.log), At(line, h.state), u);
    } else {
      match Classify(h.state, u)
      case Accept => AcceptedKeepsTiling(line, p0, h, u);
      case Duplicate =>
      case Gap => BufferedShape(h, [u], if On(Pts, u) then PtsGap else QtsGap);
    }
  }

  lemma {:induction false} EachKeepsTiling(line: Line, p0: int, h: Handler, us: seq<Update>)
    requires Tiled(line, p0, h) && NoNegativeWidths(line, us)
    ensures Tiled(line, p0, ProcessEach(h, us))
  {
    if us != [] {
      var n := |us| - 1;
      EachKeepsTiling(line, p0, h, us[..n]);
      UpdateKeepsTiling(line, p0, ProcessEach(h, us[..n]), us[n]);
    }
  }

  lemma WrapperKeepsTiling(line: Line, p0: int, h: Handler, us: seq<Update>, seqNo: int, seqStart: int, date: int)
    requires Tiled(line, p0, h) && NoNegativeWidths(line, us)
    ensures Tiled(line, p0, ProcessUpdates(h, us, seqNo, seqStart, date))
  {
    match JudgeSeq(h.state.seqNo, FirstSeq(seqNo, seqStart))
    case Duplicate =>
    case Gap => BufferedShape(h, us, SeqGap);
    case Accept =>
      var e := EnterWrapper(h, seqNo, seqStart, date);
      assert e.log == h.log && At(line, e.state) == At(line, h.state);
      EachKeepsTiling(line, p0, e, us);
      var p := ProcessEach(e, us);
      LogOne(p.log, StateUpdated(p.state));
      assert Announce(p).state == p.state;
  }

  lemma StepKeepsTiling(line: Line, p0: int, h: Handler, a: Action)
    requires Tiled(line, p0, h) && NoNegativeWidths(line, Input(a)) && !a.Difference?
    ensures Tiled(line, p0, Step(h, a))
  {
    match a
    case Single(u) => UpdateKeepsTiling(line, p0, h, u);
    case Timer(_) => LogOne(h.log, NeedDifference);
    case Wrapper(us, seqNo, seqStart, date) => WrapperKeepsTiling(line, p0, h, us, seqNo, seqStart, date);
  }

  /** Over any run without a difference, from a positive counter with counts that are not negative, the emitted
      updates of a line abut exactly and tile (start, position]. */
  lemma {:induction false} EmissionsTile(line: Line, s: Position, acts: seq<Action>)
    requires At(line, s) > 0 && NoNegativeWidths(line, HandedIn(acts)) && NoDifference(acts)
    ensures Tiled(line, At(line, s), Run(Initial(s), acts))
  {
    if acts != [] {
      var n := |acts| - 1;
      EmissionsTile(line, s, acts[..n]);
      StepKeepsTiling(line, At(line, s), Run(Initial(s), acts[..n]), acts[n]);
    }
  }

  // ------------------------------------------------------ seq of the wrappers

  /** The ranges abut, the first starting after `first` and the last ending at `last`. */
  ghost predicate Abut(first: int, ranges: seq<(int, int)>, last: int) {
    if ranges == [] then first == last else
      var n := |ranges| - 1;
      ranges[n].0 <= ranges[n].1 == last && Abut(first, ranges[..n], ranges[n].0 - 1)
  }

  lemma {:induction false} PassKeepsSeq(s: Position, us: seq<Update>)
    ensures Pass(s, us).state.seqNo == s.seqNo
    decreases us
  {
    if us != [] {
      PassKeepsSeq(if Classify(s, us[0]).Accept? then Advance(s, us[0]) else s, us[1..]);
    }
  }

  lemma {:induction false} DrainKeepsSeq(s: Position, us: seq<Update>)
    ensures Drain(s, us).state.seqNo == s.seqNo
    decreases |us|
  {
    PassKeepsSeq(s, us);
    if |Pass(s, us).emitted| > 0 {
      DrainKeepsSeq(Pass(s, us).state, Pass(s, us).left);
    }
  }

  lemma UpdateKeepsSeq(h: Handler, u: Update)
    ensures ProcessUpdate(h, u).state.seqNo == h.state.seqNo && ProcessUpdate(h, u).ranges == h.ranges
  {
    DrainKeepsSeq(Advance(h.state, u), SortByPts(h.buffer));
  }

  lemma {:induction false} EachKeepsSeq(h: Handler, us: seq<Update>)
    ensures ProcessEach(h, us).state.seqNo == h.state.seqNo && ProcessEach(h, us).ranges == h.ranges
  {
    if us != [] {
      var n := |us| - 1;
      EachKeepsSeq(h, us[..n]);
      UpdateKeepsSeq(ProcessEach(h, us[..n]), us[n]);
    }
  }

  lemma NoRanges(first: int)
    ensures Abut(first, [], first)
  {}

  lemma WrapperAbuts(first: int, h: Handler, us: seq<Update>, seqNo: int, seqStart: int, date: int)
    requires h.state.seqNo > 0 && Abut(first, h.ranges, h.state.seqNo)
    ensures var r := ProcessUpdates(h, us, seqNo, seqStart, date);
            r.state.seqNo > 0 && Abut(first, r.ranges, r.state.seqNo)
  {
    hide ProcessUpdate;
    var e := EnterWrapper(h, seqNo, seqStart, date);
    EachKeepsSeq(e, us);
    var range := (FirstSeq(seqNo, seqStart), LastSeq(seqNo, seqStart));
    assert (h.ranges + [range])[..|h.ranges|] == h.ranges;
  }

  /** Over any run without a difference from a positive seq, the ranges of the accepted wrappers abut exactly. */
  lemma {:induction false} WrapperRangesAbut(s: Position, acts: seq<Action>)
    requires s.seqNo > 0 && NoDifference(acts)
    ensures var h := Run(Initial(s), acts);
            h.state.seqNo > 0 && Abut(s.seqNo, h.ranges, h.state.seqNo)
  {
    hide ProcessUpdate, ProcessUpdates, Abut;
    if acts == [] {
      NoRanges(s.seqNo);
    } else {
      var n := |acts| - 1;
      assert acts[n] in acts && forall a :: a in acts[..n] ==> a in acts;
      WrapperRangesAbut(s, acts[..n]);
      var h := Run(Initial(s), acts[..n]);
      match acts[n]
      case Single(u) => UpdateKeepsSeq(h, u);
      case Timer(_) =>
      case Wrapper(us, seqNo, seqStart, date) => WrapperAbuts(s.seqNo, h, us, seqNo, seqStart, date);
    }
  }

  // -------------------------------------------------------- order independence

  /** Updates on one line that tile (p, q], each counting for at least one. */
  ghost predicate Chain(line: Line, p: int, c: seq<Update>, q: int)
    decreases c
  {
    if c == [] then p == q else
      && On(line, c[0])
      && Width(line, c[0]) >= 1
      && End(line, c[0]) == p + Width(line, c[0])
      && Chain(line, End(line, c[0]), c[1..], q)
  }

  lemma {:induction false} ChainMember(line: Line, p: int, c: seq<Update>, q: int, u: Update)
    requires Chain(line, p, c, q) && u in c
    ensures On(line, u) && Width(line, u) >= 1 && p <= End(line, u) - Width(line, u) && End(line, u) <= q
    decreases c
  {
    ChainGrows(line, End(line, c[0]), c[1..], q);
    if u != c[0] {
      ChainMember(line, End(line, c[0]), c[1..], q, u);
    }
  }

  lemma {:induction false} ChainGrows(line: Line, p: int, c: seq<Update>, q: int)
    requires Chain(line, p, c, q)
    ensures p <= q
    decreases c
  {
    if c != [] { ChainGrows(line, End(line, c[0]), c[1..], q); }
  }

  function OnlyOn(line: Line, us: seq<Update>): seq<Update>
    decreases us
  {
    if us == [] then [] else (if On(line, us[0]) then [us[0]] else []) + OnlyOn(line, us[1..])
  }

  /** The only chain member that starts where the chain starts is its first. */
  lemma NextInChain(line: Line, p: int, c: seq<Update>, qn: int, e: Update)
    requires Chain(line, p, c, qn) && e in c && On(line, e) && End(line, e) == p + Width(line, e)
    ensures c[0] == e && c == [e] + c[1..] && Chain(line, End(line, e), c[1..], qn)
  {
    ChainMember(line, p, c, qn, e);
    if e in c[1..] { ChainMember(line, End(line, c[0]), c[1..], qn, e); }
    assert c == [c[0]] + c[1..];
  }

  /** `es` has nothing on the line but chain members and what ends at or before `p`. */
  ghost predicate FromChain(line: Line, p: int, c: seq<Update>, es: seq<Update>) {
    forall u :: u in es && On(line, u) ==> Width(line, u) >= 1 && (u in c || End(line, u) <= p)
  }

  lemma RestFromChain(line: Line, p: int, c: seq<Update>, es: seq<Update>)
    requires es != [] && c != [] && FromChain(line, p, c, es) && On(line, c[0]) && p <= End(line, c[0])
    ensures FromChain(line, End(line, c[0]), c[1..], es[1..])
  {
    forall u | u in es[1..] && On(line, u)
      ensures Width(line, u) >= 1 && (u in c[1..] || End(line, u) <= End(line, c[0]))
    {
      assert u in es;
    }
  }

  lemma SkipOnlyOn(line: Line, es: seq<Update>)
    ensures es == [] ==> OnlyOn(line, es) == []
    ensures es != [] && !On(line, es[0]) ==> OnlyOn(line, es) == OnlyOn(line, es[1..])
  {}

  lemma PrefixGrows(line: Line, es: seq<Update>, c: seq<Update>, rest: seq<Update>)
    requires es != [] && c != [] && On(line, es[0]) && c[0] == es[0]
    requires c[1..] == OnlyOn(line, es[1..]) + rest
    ensures c == OnlyOn(line, es) + rest
  {
    var more := OnlyOn(line, es[1..]);
    assert OnlyOn(line, es) == [c[0]] + more;
    hide OnlyOn;
    assert c == [c[0]] + c[1..] == [c[0]] + (more + rest) == ([c[0]] + more) + rest;
  }

  /** Updates that tile from p and come from a chain from p are a prefix of the chain. */
  lemma {:induction false} TileInChain(line: Line, p: int, c: seq<Update>, qn: int, es: seq<Update>, q: int)
    returns (rest: seq<Update>)
    requires Chain(line, p, c, qn) && Tile(line, p, es, q) && FromChain(line, p, c, es)
    ensures c == OnlyOn(line, es) + rest && Chain(line, q, rest, qn)
    decreases es
  {
    hide FromChain;
    hide OnlyOn;
    if es == [] {
      SkipOnlyOn(line, es);
      assert [] + c == c;
      return c;
    }
    var e := es[0];
    if !On(line, e) {
      SkipFromChain(line, p, c, es);
      rest := TileInChain(line, p, c, qn, es[1..], q);
      SkipOnlyOn(line, es);
    } else {
      SkipFromChain(line, p, c, es);
      NextInChain(line, p, c, qn, e);
      RestFromChain(line, p, c, es);
      rest := TileInChain(line, End(line, e), c[1..], qn, es[1..], q);
      PrefixGrows(line, es, c, rest);
    }
  }

  lemma SkipFromChain(line: Line, p: int, c: seq<Update>, es: seq<Update>)
    requires es != [] && FromChain(line, p, c, es)
    ensures FromChain(line, p, c, es[1..])
    ensures On(line, es[0]) ==> Width(line, es[0]) >= 1 && (es[0] in c || End(line, es[0]) <= p)
  {
    assert forall u :: u in es[1..] ==> u in es;
    assert es[0] in es;
  }

  function Singles(ds: seq<Update>): (acts: seq<Action>)
    ensures |acts| == |ds|
  {
    seq(|ds|, i requires 0 <= i < |ds| => Single(ds[i]))
  }

  lemma {:induction false} SinglesHandIn(ds: seq<Update>)
    ensures HandedIn(Singles(ds)) == ds
  {
    if ds != [] {
      var n := |ds| - 1;
      assert Singles(ds)[..n] == Singles(ds[..n]);
      SinglesHandIn(ds[..n]);
      assert ds == ds[..n] + [ds[n]];
    }
  }

  /** After single updates the buffer holds only gaps, and what was discarded is past. */
  lemma {:induction false} RestState(line: Line, s: Position, ds: seq<Update>)
    requires At(line, s) > 0 && NoNegativeWidths(line, ds)
    ensures var h := Run(Initial(s), Singles(ds));
            && AllGaps(h.state, h.buffer)
            && Tiled(line, At(line, s), h)
            && Past(line, At(line, h.state), h.dropped)
  {
    if ds != [] {
      var n := |ds| - 1;
      RestState(line, s, ds[..n]);
      assert Singles(ds)[..n] == Singles(ds[..n]);
      var h := Run(Initial(s), Singles(ds[..n]));
      UpdateKeepsTiling(line, At(line, s), h, ds[n]);
      UpdateKeepsGaps(h, ds[n]);
    }
  }

  lemma UpdateKeepsGaps(h: Handler, u: Update)
    requires AllGaps(h.state, h.buffer)
    ensures AllGaps(ProcessUpdate(h, u).state, ProcessUpdate(h, u).buffer)
  {
    DrainReachesFixpoint(Advance(h.state, u), SortByPts(h.buffer));
  }

  /** Any delivery order of a chain, with any repeats and any other line's updates in
      between, emits exactly the chain, in order, each update once. */
  lemma AnyOrderEmitsTheChain(line: Line, s: Position, c: seq<Update>, q: int, ds: seq<Update>)
    requires At(line, s) > 0 && Chain(line, At(line, s), c, q)
    requires forall u :: u in ds && On(line, u) ==> u in c
    requires forall u :: u in c ==> u in ds
    ensures var h := Run(Initial(s), Singles(ds));
            && OnlyOn(line, Emissions(h.log)) == c
            && At(line, h.state) == q
            && forall u :: u in h.buffer ==> !On(line, u)
  {
    hide Run, Singles, Emissions;
    var h := Run(Initial(s), Singles(ds));
    forall u | u in c
      ensures On(line, u) && Width(line, u) >= 1 && End(line, u) <= q
    {
      ChainMember(line, At(line, s), c, q, u);
    }
    RestState(line, s, ds);
    Deliveries(s, ds);
    var es := Emissions(h.log);
    var rest := TileInChain(line, At(line, s), c, q, es, At(line, h.state));
    if rest != [] {
      var u := rest[0];
      assert u in c && u in ds;
      EmittedIsBehind(line, At(line, s), es, At(line, h.state), u);
      assert false;
    }
    assert c == OnlyOn(line, es);
    forall u | u in h.buffer
      ensures !On(line, u)
    {
      assert Classify(h.state, u) == Gap;
    }
  }

  /** What is delivered is emitted, discarded or buffered, and nothing else is. */
  lemma Deliveries(s: Position, ds: seq<Update>)
    ensures var h := Run(Initial(s), Singles(ds));
            forall u :: u in ds <==> u in Emissions(h.log) || u in h.dropped || u in h.buffer
  {
    var h := Run(Initial(s), Singles(ds));
    NothingIsLost(Initial(s), Singles(ds));
    SinglesHandIn(ds);
    MembersOf(ds, Drained(h.state, Emissions(h.log), h.dropped, h.buffer));
  }

  lemma {:induction false} EmittedIsBehind(line: Line, p: int, es: seq<Update>, q: int, u: Update)
    requires Tile(line, p, es, q) && NoNegativeWidths(line, es)
    ensures p <= q && (u in es && On(line, u) ==> End(line, u) <= q)
    decreases es
  {
    if es != [] {
      assert es[0] in es && forall v :: v in es[1..] ==> v in es;
      EmittedIsBehind(line, if On(line, es[0]) then End(line, es[0]) else p, es[1..], q, u);
    }
  }

  /** A pts chain and a qts chain, interleaved in any way: both are emitted in order and
      nothing stays buffered. */
  lemma AnyInterleavingEmitsBothChains(s: Position, c: seq<Update>, p: int, d: seq<Update>, q: int, ds: seq<Update>)
    requires s.pts > 0 && Chain(Pts, s.pts, c, p)
    requires s.qts > 0 && Chain(Qts, s.qts, d, q)
    requires forall u :: u in ds <==> u in c || u in d
    ensures var h := Run(Initial(s), Singles(ds));
            && OnlyOn(Pts, Emissions(h.log)) == c && OnlyOn(Qts, Emissions(h.log)) == d
            && h.state.pts == p && h.state.qts == q
            && h.buffer == []
  {
    forall u | u in ds
      ensures (On(Pts, u) ==> u in c) && (On(Qts, u) ==> u in d) && (On(Pts, u) || On(Qts, u))
    {
      if u in c { ChainMember(Pts, s.pts, c, p, u); }
      if u in d { ChainMember(Qts, s.qts, d, q, u); }
    }
    AnyOrderEmitsTheChain(Pts, s, c, p, ds);
    AnyOrderEmitsTheChain(Qts, s, d, q, ds);
    Deliveries(s, ds);
    var h := Run(Initial(s), Singles(ds));
    FirstIsMember(h.buffer);
  }

  lemma FirstIsMember(us: seq<Update>)
    ensures us != [] ==> us[0] in us
  {}

  lemma FirstUpdateIsTaken(line: Line, s: Position, u: Update)
    requires At(line, s) == 0 && On(line, u)
    ensures var h := ProcessUpdate(Initial(s), u);
            h.state == Advance(s, u) && h.buffer == [] && h.dropped == [] && Emissions(h.log) == [u]
  {
    AcceptedShape(Initial(s), u);
    DrainBufferAccount(Emitting(Initial(s), u));
    assert SortByPts([]) == [];
    assert Emissions([]) + [u] + [] == [u];
  }

  /** A counter of zero takes anything, so from there the order does matter: a chain of two
      delivered backwards loses its first update. */
  lemma UninitializedCounterLosesUpdates(line: Line, s: Position, p: nat, u1: Update, u2: Update, q: int)
    requires At(line, s) == 0 && Chain(line, p, [u1, u2], q)
    ensures var h := Run(Initial(s), Singles([u2, u1]));
            Emissions(h.log) == [u2] && h.dropped == [u1] && h.buffer == []
  {
    var c, ds := [u1, u2], [u2, u1];
    ChainMember(line, p, c, q, u1);
    assert c[1..] == [u2];
    ChainMember(line, End(line, u1), [u2], q, u2);
    FirstUpdateIsTaken(line, s, u2);
    var h := ProcessUpdate(Initial(s), u2);
    assert Singles(ds)[..1] == [Single(u2)] && [Single(u2)][..0] == [];
    assert Run(Initial(s), [Single(u2)]) == h;
    assert Classify(h.state, u1) == Duplicate;
  }

  // ------------------------------------------------------------- the gap timer

  /** The runtime holds exactly the timer that the handler remembers, if any. */
  ghost predicate OneTimer(h: Handler) {
    && h.armed == (if h.timer.Some? then {h.timer.value} else {})
    && (h.timer.Some? ==> h.timer.value < h.nextTimer)
  }

  lemma UpdateKeepsTimer(h: Handler, u: Update)
    requires OneTimer(h)
    ensures OneTimer(ProcessUpdate(h, u))
    ensures var h2 := ProcessUpdate(h, u);
            h2.buffer != [] && h2.timer.None? ==> h.buffer != [] && h.timer.None?
  {
    var s := Advance(h.state, u);
    if h.buffer == [] {
      assert SortByPts(h.buffer) == [];
    }
  }

  lemma {:induction false} EachKeepsTimer(h: Handler, us: seq<Update>)
    requires OneTimer(h)
    ensures OneTimer(ProcessEach(h, us))
    ensures var h2 := ProcessEach(h, us);
            h2.buffer != [] && h2.timer.None? ==> h.buffer != [] && h.timer.None?
  {
    if us != [] {
      var n := |us| - 1;
      EachKeepsTimer(h, us[..n]);
      UpdateKeepsTimer(ProcessEach(h, us[..n]), us[n]);
    }
  }

  lemma StepKeepsTimer(h: Handler, a: Action)
    requires OneTimer(h)
    ensures OneTimer(Step(h, a))
    ensures var h2 := Step(h, a);
            (h2.buffer != [] && h2.timer.None? && !(a.Timer? && a.id in h.armed) && !a.Difference?
             ==> h.buffer != [] && h.timer.None?)
    ensures a.Timer? ==> Step(h, a).buffer == h.buffer
  {
    match a
    case Difference(s, us) => DifferenceIsAccountedFor(h, s, us);
    case Single(u) => UpdateKeepsTimer(h, u);
    case Timer(_) =>
    case Wrapper(us, seqNo, seqStart, date) => EachKeepsTimer(EnterWrapper(h, seqNo, seqStart, date), us);
  }

  lemma {:induction false} AtMostOneTimer(s: Position, acts: seq<Action>)
    ensures OneTimer(Run(Initial(s), acts)) && |Run(Initial(s), acts).armed| <= 1
  {
    if acts != [] {
      var n := |acts| - 1;
      AtMostOneTimer(s, acts[..n]);
      StepKeepsTimer(Run(Initial(s), acts[..n]), acts[n]);
    }
  }

  ghost predicate NeverEmptyFrom(s: Position, acts: seq<Action>, i: nat) {
    forall j :: i <= j <= |acts| ==> Run(Initial(s), acts[..j]).buffer != []
  }

  lemma StillNotEmpty(s: Position, acts: seq<Action>, i: nat)
    requires acts != [] && Run(Initial(s), acts).buffer != []
    requires NeverEmptyFrom(s, acts[..|acts| - 1], i)
    ensures NeverEmptyFrom(s, acts, i)
  {
    hide Run, Initial;
    var before := acts[..|acts| - 1];
    forall j | i <= j <= |acts|
      ensures Run(Initial(s), acts[..j]).buffer != []
    {
      if j < |acts| {
        assert before[..j] == acts[..j];
      } else {
        assert acts[..j] == acts;
      }
    }
  }

  /** The timer armed before action `i` fires in it, emitting need-difference, and from
      then on the buffer is never empty. */
  ghost predicate AskedSince(s: Position, acts: seq<Action>, i: nat) {
    && i < |acts|
    && acts[i].Timer? && acts[i].id in Run(Initial(s), acts[..i]).armed
    && Run(Initial(s), acts[..i + 1]).log == Run(Initial(s), acts[..i]).log + [NeedDifference]
    && NeverEmptyFrom(s, acts, i)
  }

  lemma FiringAsks(h: Handler, id: nat)
    requires id in h.armed
    ensures Step(h, Timer(id)).log == h.log + [NeedDifference]
  {}

  lemma AskedStays(s: Position, acts: seq<Action>, i: nat)
    requires acts != [] && Run(Initial(s), acts).buffer != []
    requires AskedSince(s, acts[..|acts| - 1], i)
    ensures AskedSince(s, acts, i)
  {
    hide Run, Initial, NeverEmptyFrom;
    var before := acts[..|acts| - 1];
    assert before[..i] == acts[..i] && before[..i + 1] == acts[..i + 1];
    StillNotEmpty(s, acts, i);
  }

  /** Action `i` applied a difference, and since then the buffer is never empty. */
  ghost predicate LeftSince(s: Position, acts: seq<Action>, i: nat) {
    i < |acts| && acts[i].Difference? && NeverEmptyFrom(s, acts, i + 1)
  }

  lemma LeftStays(s: Position, acts: seq<Action>, i: nat)
    requires acts != [] && Run(Initial(s), acts).buffer != []
    requires LeftSince(s, acts[..|acts| - 1], i)
    ensures LeftSince(s, acts, i)
  {
    hide Run, Initial, NeverEmptyFrom;
    StillNotEmpty(s, acts, i + 1);
  }

  /** At rest a non-empty buffer has an armed timer, unless need-difference was emitted or a
      difference applied since the buffer was last empty. */
  lemma {:induction false} WaitingBufferIsWatched(s: Position, acts: seq<Action>)
    requires Run(Initial(s), acts).buffer != [] && Run(Initial(s), acts).timer.None?
    ensures (exists i :: AskedSince(s, acts, i)) || (exists i :: LeftSince(s, acts, i))
  {
    hide Step;
    hide OneTimer;
    if acts != [] {
      var n := |acts| - 1;
      var h := Run(Initial(s), acts[..n]);
      AtMostOneTimer(s, acts[..n]);
      StepKeepsTimer(h, acts[n]);
      assert acts[..|acts|] == acts;
      if acts[n].Timer? && acts[n].id in h.armed {
        FiringAsks(h, acts[n].id);
        assert AskedSince(s, acts, n);
      } else if acts[n].Difference? {
        assert LeftSince(s, acts, n);
      } else {
        WaitingBufferIsWatched(s, acts[..n]);
        if i: nat :| AskedSince(s, acts[..n], i) {
          AskedStays(s, acts, i);
        } else {
          var i: nat :| LeftSince(s, acts[..n], i);
          LeftStays(s, acts, i);
        }
      }
    }
  }
}
