/** What one call of the update handler does, case by case in terms of the numbers that it is
    given, and when the gap timer speaks and when it is silenced. */
module HandlerSteps {
  import opened Options
  import opened UpdateSequencing
  import opened UpdateState
  import opened UpdateTheorems

  // ------------------------------------------------------------ single updates

  /** Nothing but one more waiting update: the gap is reported and a timer runs. */
  ghost predicate OnlyBuffers(h: Handler, r: Handler, us: seq<Update>, kind: GapKind) {
    && r.state == h.state && r.dropped == h.dropped && r.ranges == h.ranges
    && r.buffer == h.buffer + us && r.log == h.log + [GapDetected(kind)]
    && r.timer.Some? && (if h.timer.Some? then r.timer == h.timer && r.armed == h.armed
                         else r.timer.value == h.nextTimer && r.armed == h.armed + {h.nextTimer})
  }

  /** The update is emitted from the position `s` and the buffer drained behind it; a buffer
      that this empties has no timer. */
  ghost predicate EmitsAndDrains(h: Handler, r: Handler, u: Update, s: Position) {
    var d := Drain(s, SortByPts(h.buffer));
    && r.state == d.state && r.buffer == d.left && r.dropped == h.dropped + d.dropped && r.ranges == h.ranges
    && r.log == h.log + [Emitted(u), StateUpdated(s)] + Events(d.emitted)
    && (r.buffer == [] && OneTimer(h) ==> r.timer == None && r.armed == {})
    && (r.buffer != [] ==> r.timer == h.timer && r.armed == h.armed)
  }

  /** An update that carries pts and a count. */
  lemma PtsUpdate(h: Handler, u: Update)
    requires u.pts.Some? && u.ptsCount.Some?
    ensures var r, at, end := ProcessUpdate(h, u), h.state.pts, u.pts.value;
            if at == 0 || end == at + u.ptsCount.value then EmitsAndDrains(h, r, u, h.state.(pts := end))
            else if end <= at then r == h.(dropped := h.dropped + [u])
            else OnlyBuffers(h, r, [u], PtsGap)
  {
    hide Drain, SortByPts, Events;
    AcceptedLog(h, u);
  }

  /** An update that carries qts instead. */
  lemma QtsUpdate(h: Handler, u: Update)
    requires !(u.pts.Some? && u.ptsCount.Some?) && u.qts.Some?
    ensures var r, at, end := ProcessUpdate(h, u), h.state.qts, u.qts.value;
            if at == 0 || end == at + 1 then EmitsAndDrains(h, r, u, h.state.(qts := end))
            else if end <= at then r == h.(dropped := h.dropped + [u])
            else OnlyBuffers(h, r, [u], QtsGap)
  {
    hide Drain, SortByPts, Events;
    AcceptedLog(h, u);
  }

  /** An update that carries neither is emitted as it comes. */
  lemma UnorderedUpdate(h: Handler, u: Update)
    requires !(u.pts.Some? && u.ptsCount.Some?) && u.qts.None?
    ensures ProcessUpdate(h, u) == h.(log := h.log + [Emitted(u)])
  {}

  lemma AcceptedLog(h: Handler, u: Update)
    ensures var s := Advance(h.state, u);
            EmitsAndDrains(h, Accepted(h, u), u, s)
  {
    hide Drain, SortByPts, Events;
  }

  // ------------------------------------------------------------------ wrappers

  /** The same handler but for the date, the seq and the reports of them. */
  ghost predicate Like(h: Handler, g: Handler) {
    && h.state.pts == g.state.pts && h.state.qts == g.state.qts
    && h.buffer == g.buffer && h.dropped == g.dropped
    && h.timer == g.timer && h.armed == g.armed && h.nextTimer == g.nextTimer
    && Emissions(h.log) == Emissions(g.log)
  }

  ghost predicate SameCounters(s: Position, t: Position) {
    s.pts == t.pts && s.qts == t.qts
  }

  ghost predicate LikeDrained(r: Drained, q: Drained) {
    SameCounters(r.state, q.state) && r.emitted == q.emitted && r.dropped == q.dropped && r.left == q.left
  }

  lemma {:induction false} PassIsLike(s: Position, t: Position, us: seq<Update>)
    requires SameCounters(s, t)
    ensures LikeDrained(Pass(s, us), Pass(t, us)) && Pass(s, us).state.date == s.date
    decreases us
  {
    if us != [] {
      if Classify(s, us[0]).Accept? {
        PassIsLike(Advance(s, us[0]), Advance(t, us[0]), us[1..]);
      } else {
        PassIsLike(s, t, us[1..]);
      }
    }
  }

  lemma {:induction false} DrainIsLike(s: Position, t: Position, us: seq<Update>)
    requires SameCounters(s, t)
    ensures LikeDrained(Drain(s, us), Drain(t, us)) && Drain(s, us).state.date == s.date
    decreases |us|
  {
    hide Pass;
    PassIsLike(s, t, us);
    if |Pass(s, us).emitted| > 0 {
      DrainIsLike(Pass(s, us).state, Pass(t, us).state, Pass(s, us).left);
    }
  }

  lemma UpdateIsLike(h: Handler, g: Handler, u: Update)
    requires Like(h, g)
    ensures Like(ProcessUpdate(h, u), ProcessUpdate(g, u)) && ProcessUpdate(h, u).state.date == h.state.date
  {
    hide Drain, SortByPts, Emissions, Events;
    if !On(Pts, u) && !On(Qts, u) {
      LogOne(h.log, Emitted(u));
      LogOne(g.log, Emitted(u));
    } else if Classify(h.state, u).Accept? {
      DrainIsLike(Advance(h.state, u), Advance(g.state, u), SortByPts(h.buffer));
      AcceptedShape(h, u);
      AcceptedShape(g, u);
      DrainBufferAccount(Emitting(h, u));
      DrainBufferAccount(Emitting(g, u));
    } else {
      var kind := if On(Pts, u) then PtsGap else QtsGap;
      BufferedShape(h, [u], kind);
      BufferedShape(g, [u], kind);
    }
  }

  lemma {:induction false} EachIsLike(h: Handler, g: Handler, us: seq<Update>)
    requires Like(h, g)
    ensures Like(ProcessEach(h, us), ProcessEach(g, us)) && ProcessEach(h, us).state.date == h.state.date
    decreases |us|
  {
    hide ProcessUpdate, Like;
    if us != [] {
      var n := |us| - 1;
      EachIsLike(h, g, us[..n]);
      UpdateIsLike(ProcessEach(h, us[..n]), ProcessEach(g, us[..n]), us[n]);
    }
  }

  lemma {:induction false} EachIsSingles(h: Handler, us: seq<Update>)
    ensures ProcessEach(h, us) == Run(h, Singles(us))
    decreases |us|
  {
    hide ProcessUpdate;
    if us != [] {
      var n := |us| - 1;
      EachIsSingles(h, us[..n]);
      assert Singles(us)[..n] == Singles(us[..n]);
    }
  }

  /** The handler behind a wrapper whose updates are delivered one by one. */
  ghost predicate Delivers(h: Handler, r: Handler, us: seq<Update>, seqNo: int, first: int, date: int) {
    && Like(r, Run(h, Singles(us)))
    && r.state.seqNo == (if first == 0 then h.state.seqNo else if seqNo > first then seqNo else first)
    && r.state.date == (if date > 0 then date else h.state.date)
    && r.log != [] && r.log[|r.log| - 1] == StateUpdated(r.state)
  }

  /** What a wrapper does. When it carries no seq, or the seq is not initialized, or its first
      seq is the next one, its updates are delivered one by one, its last seq and its date are
      taken and the state is reported. When its first seq is not ahead it is discarded whole.
      Otherwise its updates wait. */
  lemma WrapperCaseByCase(h: Handler, us: seq<Update>, seqNo: int, seqStart: int, date: int)
    ensures var r, at := Step(h, Wrapper(us, seqNo, seqStart, date)), h.state.seqNo;
            var first := if seqStart > 0 then seqStart else seqNo;
            if first == 0 || at == 0 || first == at + 1 then Delivers(h, r, us, seqNo, first, date)
            else if first <= at then r == h.(dropped := h.dropped + us)
            else OnlyBuffers(h, r, us, SeqGap)
  {
    hide Delivers, ProcessEach, EnterWrapper, Announce;
    var first := if seqStart > 0 then seqStart else seqNo;
    if first == 0 || h.state.seqNo == 0 || first == h.state.seqNo + 1 {
      WrapperDelivers(h, us, seqNo, seqStart, date);
    }
  }

  lemma WrapperDelivers(h: Handler, us: seq<Update>, seqNo: int, seqStart: int, date: int)
    requires var first := if seqStart > 0 then seqStart else seqNo;
             first == 0 || h.state.seqNo == 0 || first == h.state.seqNo + 1
    ensures var first := if seqStart > 0 then seqStart else seqNo;
            Delivers(h, Announce(ProcessEach(EnterWrapper(h, seqNo, seqStart, date), us)), us, seqNo, first, date)
  {
    hide ProcessUpdate, ProcessEach, Emissions, Run, Singles;
    var e := EnterWrapper(h, seqNo, seqStart, date);
    EachIsLike(e, h, us);
    EachKeepsSeq(e, us);
    EachIsSingles(h, us);
    LogOne(ProcessEach(e, us).log, StateUpdated(ProcessEach(e, us).state));
  }

  /** So a wrapper without a seq is its updates, one by one. */
  lemma WrapperWithoutSeq(h: Handler, us: seq<Update>, seqStart: int, date: int)
    requires seqStart <= 0
    ensures var r, d := Step(h, Wrapper(us, 0, seqStart, date)), Run(h, Singles(us));
            && Emissions(r.log) == Emissions(d.log) && r.buffer == d.buffer && r.dropped == d.dropped
            && r.state.seqNo == h.state.seqNo == d.state.seqNo
  {
    hide Step, Run, Emissions;
    WrapperCaseByCase(h, us, 0, seqStart, date);
    EachIsSingles(h, us);
    EachKeepsSeq(h, us);
  }

  // --------------------------------------------------------------- differences

  /** A difference takes over the whole position, stops the timer, emits its updates and then
      those that they free, and reports the state. */
  lemma DifferenceTakesOver(h: Handler, s: Position, us: seq<Update>)
    ensures var r, d := Step(h, Difference(s, us)), Drain(s, SortByPts(h.buffer));
            && r.state == d.state && r.state.seqNo == s.seqNo && r.state.date == s.date
            && r.buffer == d.left && r.dropped == h.dropped + d.dropped && r.ranges == h.ranges
            && r.log == h.log + Events(us) + Events(d.emitted) + [StateUpdated(r.state)]
            && r.timer == None && r.armed == (if h.timer.Some? then h.armed - {h.timer.value} else h.armed)
  {
    hide Drain, SortByPts, Events;
    DrainKeepsSeq(s, SortByPts(h.buffer));
    DrainIsLike(s, s, SortByPts(h.buffer));
  }

  /** What is taken from `us` keeps its order. */
  ghost predicate InOrderOf(part: seq<Update>, us: seq<Update>)
    decreases us
  {
    part == [] || (us != [] && (InOrderOf(part, us[1..]) || (part[0] == us[0] && InOrderOf(part[1..], us[1..]))))
  }

  /** One pass goes through the waiting updates from first to last. */
  lemma {:induction false} PassKeepsOrder(s: Position, us: seq<Update>)
    ensures var r := Pass(s, us); InOrderOf(r.emitted, us) && InOrderOf(r.dropped, us) && InOrderOf(r.left, us)
    decreases us
  {
    hide Classify, Advance;
    if us != [] {
      var rest := Pass(if Classify(s, us[0]).Accept? then Advance(s, us[0]) else s, us[1..]);
      PassKeepsOrder(if Classify(s, us[0]).Accept? then Advance(s, us[0]) else s, us[1..]);
      Led(rest.emitted, us);
      Led(rest.dropped, us);
      Led(rest.left, us);
    }
  }

  lemma Led(part: seq<Update>, us: seq<Update>)
    requires us != [] && InOrderOf(part, us[1..])
    ensures InOrderOf([us[0]] + part, us) && InOrderOf([] + part, us)
  {
    assert ([us[0]] + part)[1..] == part && [] + part == part;
  }

  // ----------------------------------------------------------------- the timer

  function Requests(log: seq<Event>): nat {
    if log == [] then 0 else Requests(log[..|log| - 1]) + if log[|log| - 1].NeedDifference? then 1 else 0
  }

  lemma {:induction false} RequestsConcat(a: seq<Event>, b: seq<Event>)
    ensures Requests(a + b) == Requests(a) + Requests(b)
    decreases |b|
  {
    if b == [] {
      assert a + b == a;
    } else {
      assert (a + b)[..|a + b| - 1] == a + b[..|b| - 1];
      RequestsConcat(a, b[..|b| - 1]);
    }
  }

  lemma {:induction false} NoRequestIn(log: seq<Event>)
    requires NeedDifference !in log
    ensures Requests(log) == 0
  {
    if log != [] { NoRequestIn(log[..|log| - 1]); }
  }

  /** `r` reports more than `h` but does not ask for a difference. */
  ghost predicate AsksNothing(h: Handler, r: Handler) {
    Requests(r.log) == Requests(h.log)
  }

  lemma AppendedQuietly(h: Handler, r: Handler, more: seq<Event>)
    requires r.log == h.log + more && NeedDifference !in more
    ensures AsksNothing(h, r)
  {
    RequestsConcat(h.log, more);
    NoRequestIn(more);
  }

  lemma UpdateAsksNothing(h: Handler, u: Update)
    ensures AsksNothing(h, ProcessUpdate(h, u))
  {
    hide Drain, SortByPts, Requests;
    var r := ProcessUpdate(h, u);
    if u.pts.Some? && u.ptsCount.Some? {
      PtsUpdate(h, u);
      QuietLog(h, r, u, h.state.(pts := u.pts.value));
    } else if u.qts.Some? {
      QtsUpdate(h, u);
      QuietLog(h, r, u, h.state.(qts := u.qts.value));
    } else {
      UnorderedUpdate(h, u);
      AppendedQuietly(h, r, [Emitted(u)]);
    }
  }

  lemma QuietLog(h: Handler, r: Handler, u: Update, s: Position)
    ensures EmitsAndDrains(h, r, u, s) ==> AsksNothing(h, r)
    ensures OnlyBuffers(h, r, [u], PtsGap) || OnlyBuffers(h, r, [u], QtsGap) ==> AsksNothing(h, r)
    ensures r.log == h.log ==> AsksNothing(h, r)
  {
    hide Drain, SortByPts, Requests;
    var d := Drain(s, SortByPts(h.buffer));
    var more := [Emitted(u), StateUpdated(s)] + Events(d.emitted);
    assert h.log + more == h.log + [Emitted(u), StateUpdated(s)] + Events(d.emitted);
    if EmitsAndDrains(h, r, u, s) { AppendedQuietly(h, r, more); }
    if OnlyBuffers(h, r, [u], PtsGap) { AppendedQuietly(h, r, [GapDetected(PtsGap)]); }
    if OnlyBuffers(h, r, [u], QtsGap) { AppendedQuietly(h, r, [GapDetected(QtsGap)]); }
  }

  lemma {:induction false} EachAsksNothing(h: Handler, us: seq<Update>)
    ensures AsksNothing(h, ProcessEach(h, us))
    decreases |us|
  {
    hide ProcessUpdate, Requests;
    if us != [] {
      EachAsksNothing(h, us[..|us| - 1]);
      UpdateAsksNothing(ProcessEach(h, us[..|us| - 1]), us[|us| - 1]);
    }
  }

  lemma DifferenceAsksNothing(h: Handler, s: Position, us: seq<Update>)
    ensures AsksNothing(h, ApplyDifference(h, s, us))
  {
    hide Drain, SortByPts, Requests;
    var c := ClearTimer(h.(state := s));
    var d := Drain(s, SortByPts(h.buffer));
    var more := Events(us) + Events(d.emitted) + [StateUpdated(d.state)];
    assert h.log + more == h.log + Events(us) + Events(d.emitted) + [StateUpdated(d.state)];
    AppendedQuietly(h, ApplyDifference(h, s, us), more);
  }

  /** The armed timer of the action fires. */
  predicate Fires(h: Handler, a: Action) {
    a.Timer? && a.id in h.armed
  }

  lemma StepAsksWhenItFires(h: Handler, a: Action)
    ensures Requests(Step(h, a).log) == Requests(h.log) + if Fires(h, a) then 1 else 0
  {
    hide ProcessUpdate, ProcessEach, ApplyDifference, Requests;
    match a
    case Single(u) => UpdateAsksNothing(h, u);
    case Difference(s, us) => DifferenceAsksNothing(h, s, us);
    case Timer(id) =>
      RequestsConcat(h.log, [NeedDifference]);
      OneRequest();
    case Wrapper(us, seqNo, seqStart, date) =>
      var e := EnterWrapper(h, seqNo, seqStart, date);
      EachAsksNothing(e, us);
      var p := ProcessEach(e, us);
      AppendedQuietly(p, Announce(p), [StateUpdated(p.state)]);
      AppendedQuietly(h, Buffered(h, us, SeqGap), [GapDetected(SeqGap)]);
  }

  lemma OneRequest()
    ensures Requests([NeedDifference]) == 1
  {
    assert [NeedDifference][..0] == [];
  }

  /** How many armed timers fire during the run. */
  function Firings(s: Position, acts: seq<Action>): nat {
    if acts == [] then 0 else
      var n := |acts| - 1;
      Firings(s, acts[..n]) + if Fires(Run(Initial(s), acts[..n]), acts[n]) then 1 else 0
  }

  /** Over every run a difference is asked for as often as an armed timer fires. */
  lemma {:induction false} EveryFiringAsks(s: Position, acts: seq<Action>)
    ensures Requests(Run(Initial(s), acts).log) == Firings(s, acts)
    decreases |acts|
  {
    hide Step, Fires;
    if acts != [] {
      var n := |acts| - 1;
      EveryFiringAsks(s, acts[..n]);
      StepAsksWhenItFires(Run(Initial(s), acts[..n]), acts[n]);
    }
  }

  /** No timer runs for an empty buffer. */
  ghost predicate Quiet(h: Handler) {
    h.buffer == [] ==> h.timer == None && h.armed == {}
  }

  ghost predicate WrappersCarryUpdates(acts: seq<Action>) {
    forall a :: a in acts && a.Wrapper? ==> a.updates != []
  }

  lemma UpdateKeepsQuiet(h: Handler, u: Update)
    requires OneTimer(h) && Quiet(h)
    ensures Quiet(ProcessUpdate(h, u))
  {
    hide Drain, SortByPts, ProcessUpdate;
    if u.pts.Some? && u.ptsCount.Some? {
      PtsUpdate(h, u);
    } else if u.qts.Some? {
      QtsUpdate(h, u);
    } else {
      UnorderedUpdate(h, u);
    }
  }

  lemma {:induction false} EachKeepsQuiet(h: Handler, us: seq<Update>)
    requires OneTimer(h) && Quiet(h)
    ensures OneTimer(ProcessEach(h, us)) && Quiet(ProcessEach(h, us))
    decreases |us|
  {
    hide ProcessUpdate, Quiet, OneTimer;
    if us != [] {
      var p := ProcessEach(h, us[..|us| - 1]);
      EachKeepsQuiet(h, us[..|us| - 1]);
      UpdateKeepsQuiet(p, us[|us| - 1]);
      UpdateKeepsTimer(p, us[|us| - 1]);
    }
  }

  lemma StepKeepsQuiet(h: Handler, a: Action)
    requires OneTimer(h) && Quiet(h) && (a.Wrapper? ==> a.updates != [])
    ensures Quiet(Step(h, a))
  {
    hide ProcessUpdate, ProcessEach, ApplyDifference;
    match a
    case Single(u) => UpdateKeepsQuiet(h, u);
    case Timer(_) =>
    case Difference(s, us) => DifferenceIsAccountedFor(h, s, us);
    case Wrapper(us, seqNo, seqStart, date) => EachKeepsQuiet(EnterWrapper(h, seqNo, seqStart, date), us);
  }

  /** Over every run whose wrappers carry updates, a buffer that is empty has no timer: filling
      the gap cancels it. */
  lemma {:induction false} EmptyBufferHasNoTimer(s: Position, acts: seq<Action>)
    requires WrappersCarryUpdates(acts)
    ensures Quiet(Run(Initial(s), acts))
    decreases |acts|
  {
    hide Step, Quiet, OneTimer;
    if acts == [] {
      NothingRuns(s);
    } else {
      var n := |acts| - 1;
      assert acts[n] in acts && forall a :: a in acts[..n] ==> a in acts;
      EmptyBufferHasNoTimer(s, acts[..n]);
      AtMostOneTimer(s, acts[..n]);
      StepKeepsQuiet(Run(Initial(s), acts[..n]), acts[n]);
    }
  }

  lemma NothingRuns(s: Position)
    ensures Quiet(Run(Initial(s), []))
  {}

  /** A wrapper without updates behind a gap is the exception: it arms the timer over an empty
      buffer. */
  lemma EmptyWrapperArmsATimer(s: Position, seqNo: int, date: int)
    requires 0 < s.seqNo && s.seqNo + 1 < seqNo
    ensures var h := Step(Initial(s), Wrapper([], seqNo, seqNo, date)); h.buffer == [] && h.armed == {0}
  {
    WrapperCaseByCase(Initial(s), [], seqNo, seqNo, date);
  }
}
