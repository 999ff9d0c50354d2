/** The update handler as a function on values: what one call, and a whole run of calls,
    does to the position, the buffer, the gap timer and the events. */
module UpdateSequencing {
  import opened UpdateState
  import opened Bytes
  import opened Options

  datatype Update = Update(constructorId: int, data: seq<byte>,
                           pts: Option<int>, ptsCount: Option<int>, qts: Option<int>)

  /** The two counters that order updates. */
  datatype Line = Pts | Qts

  predicate On(line: Line, u: Update) {
    match line
    case Pts => u.pts.Some? && u.ptsCount.Some?
    case Qts => !(u.pts.Some? && u.ptsCount.Some?) && u.qts.Some?
  }

  function End(line: Line, u: Update): int
    requires On(line, u)
  {
    match line
    case Pts => u.pts.value
    case Qts => u.qts.value
  }

  function Width(line: Line, u: Update): int
    requires On(line, u)
  {
    match line
    case Pts => u.ptsCount.value
    case Qts => 1
  }

  function At(line: Line, s: Position): int {
    match line
    case Pts => s.pts
    case Qts => s.qts
  }

  function Classify(s: Position, u: Update): Verdict {
    if On(Pts, u) then Judge(s.pts, End(Pts, u), Width(Pts, u))
    else if On(Qts, u) then Judge(s.qts, End(Qts, u), 1)
    else Accept
  }

  function Advance(s: Position, u: Update): Position {
    if On(Pts, u) then s.(pts := End(Pts, u))
    else if On(Qts, u) then s.(qts := End(Qts, u))
    else s
  }

  // ------------------------------------------------------------------ draining

  datatype Drained = Drained(state: Position, emitted: seq<Update>, dropped: seq<Update>, left: seq<Update>)

  function Before(emitted: seq<Update>, dropped: seq<Update>, left: seq<Update>, r: Drained): Drained {
    Drained(r.state, emitted + r.emitted, dropped + r.dropped, left + r.left)
  }

  /** One pass over the waiting updates. */
  function Pass(s: Position, us: seq<Update>): (r: Drained)
    ensures |r.emitted| + |r.left| <= |us|
    decreases us
  {
    if us == [] then Drained(s, [], [], []) else
      match Classify(s, us[0])
      case Accept => Before([us[0]], [], [], Pass(Advance(s, us[0]), us[1..]))
      case Duplicate => Before([], [us[0]], [], Pass(s, us[1..]))
      case Gap => Before([], [], [us[0]], Pass(s, us[1..]))
  }

  /** Passes repeat as long as they emit something. */
  function Drain(s: Position, us: seq<Update>): Drained
    decreases |us|
  {
    var r := Pass(s, us);
    if |r.emitted| == 0 then r
    else Before(r.emitted, r.dropped, [], Drain(r.state, r.left))
  }

  function SortKey(u: Update): int {
    if u.pts.Some? then u.pts.value else 0
  }

  function InsertByPts(sorted: seq<Update>, u: Update): seq<Update> {
    if sorted == [] then [u]
    else if SortKey(sorted[|sorted| - 1]) <= SortKey(u) then sorted + [u]
    else InsertByPts(sorted[..|sorted| - 1], u) + [sorted[|sorted| - 1]]
  }

  /** The stable sort of the buffer by pts, where a missing pts counts as zero. */
  function SortByPts(us: seq<Update>): seq<Update> {
    if us == [] then [] else InsertByPts(SortByPts(us[..|us| - 1]), us[|us| - 1])
  }

  // ------------------------------------------------------------- the handler

  datatype GapKind = PtsGap | QtsGap | SeqGap

  datatype Event =
    | Emitted(update: Update)
    | GapDetected(kind: GapKind)
    | NeedDifference
    | StateUpdated(state: Position)

  /** `armed` are the timers the runtime holds, `nextTimer` the next handle it gives out;
      `dropped` and `ranges` are history: the discarded updates, and the seqNo ranges of the
      accepted wrappers that carry one. */
  datatype Handler = Handler(
    state: Position,
    buffer: seq<Update>,
    timer: Option<nat>,
    armed: set<nat>,
    nextTimer: nat,
    log: seq<Event>,
    dropped: seq<Update>,
    ranges: seq<(int, int)>)

  function Initial(s: Position): Handler {
    Handler(s, [], None, {}, 0, [], [], [])
  }

  function Events(us: seq<Update>): (es: seq<Event>)
    ensures |es| == |us|
  {
    seq(|us|, i requires 0 <= i < |us| => Emitted(us[i]))
  }

  function StartTimer(h: Handler): Handler {
    if h.timer.Some? then h
    else h.(timer := Some(h.nextTimer), armed := h.armed + {h.nextTimer}, nextTimer := h.nextTimer + 1)
  }

  function ClearTimer(h: Handler): Handler {
    if h.timer.Some? then h.(timer := None, armed := h.armed - {h.timer.value}) else h
  }

  function DrainBuffer(h: Handler): Handler {
    var d := Drain(h.state, SortByPts(h.buffer));
    h.(state := d.state, buffer := d.left, dropped := h.dropped + d.dropped, log := h.log + Events(d.emitted))
  }

  function Accepted(h: Handler, u: Update): Handler {
    var s := Advance(h.state, u);
    var d := DrainBuffer(h.(state := s, log := h.log + [Emitted(u), StateUpdated(s)]));
    if d.buffer == [] then ClearTimer(d) else d
  }

  function Buffered(h: Handler, us: seq<Update>, kind: GapKind): Handler {
    StartTimer(h.(buffer := h.buffer + us, log := h.log + [GapDetected(kind)]))
  }

  function ProcessUpdate(h: Handler, u: Update): Handler {
    if !On(Pts, u) && !On(Qts, u) then h.(log := h.log + [Emitted(u)]) else
      match Classify(h.state, u)
      case Accept => Accepted(h, u)
      case Duplicate => h.(dropped := h.dropped + [u])
      case Gap => Buffered(h, [u], if On(Pts, u) then PtsGap else QtsGap)
  }

  function ProcessEach(h: Handler, us: seq<Update>): Handler {
    if us == [] then h else ProcessUpdate(ProcessEach(h, us[..|us| - 1]), us[|us| - 1])
  }

  function Announce(h: Handler): Handler {
    h.(log := h.log + [StateUpdated(h.state)])
  }

  /** seqStart when it is positive, else seq. */
  function FirstSeq(seqNo: int, seqStart: int): int {
    if seqStart > 0 then seqStart else seqNo
  }

  function LastSeq(seqNo: int, seqStart: int): int {
    if seqNo > FirstSeq(seqNo, seqStart) then seqNo else FirstSeq(seqNo, seqStart)
  }

  /** The position after an accepted wrapper, before its updates. */
  function EnterWrapper(h: Handler, seqNo: int, seqStart: int, date: int): Handler {
    var first, last := FirstSeq(seqNo, seqStart), LastSeq(seqNo, seqStart);
    var s := if first == 0 then h.state else h.state.(seqNo := last);
    h.(state := if date > 0 then s.(date := date) else s,
       ranges := if first == 0 then h.ranges else h.ranges + [(first, last)])
  }

  function ProcessUpdates(h: Handler, us: seq<Update>, seqNo: int, seqStart: int, date: int): Handler {
    match JudgeSeq(h.state.seqNo, FirstSeq(seqNo, seqStart))
    case Duplicate => h.(dropped := h.dropped + us)
    case Gap => Buffered(h, us, SeqGap)
    case Accept => Announce(ProcessEach(EnterWrapper(h, seqNo, seqStart, date), us))
  }

  function FireTimer(h: Handler, id: nat): Handler {
    if id !in h.armed then h
    else h.(timer := None, armed := h.armed - {id}, log := h.log + [NeedDifference])
  }

  function ApplyDifference(h: Handler, s: Position, us: seq<Update>): Handler {
    var c := ClearTimer(h.(state := s));
    Announce(DrainBuffer(c.(log := c.log + Events(us))))
  }

  // --------------------------------------------------------------------- runs

  datatype Action =
    | Single(update: Update)
    | Wrapper(updates: seq<Update>, seqNo: int, seqStart: int, date: int)
    | Timer(id: nat)
    | Difference(newState: Position, updates: seq<Update>)

  function Step(h: Handler, a: Action): Handler {
    match a
    case Single(u) => ProcessUpdate(h, u)
    case Wrapper(us, seqNo, seqStart, date) => ProcessUpdates(h, us, seqNo, seqStart, date)
    case Timer(id) => FireTimer(h, id)
    case Difference(s, us) => ApplyDifference(h, s, us)
  }

  function Run(h: Handler, acts: seq<Action>): Handler {
    if acts == [] then h else Step(Run(h, acts[..|acts| - 1]), acts[|acts| - 1])
  }

  function Input(a: Action): seq<Update> {
    match a
    case Single(u) => [u]
    case Wrapper(us, _, _, _) => us
    case Timer(_) => []
    case Difference(_, us) => us
  }

  /** No difference is applied during the run. */
  predicate NoDifference(acts: seq<Action>) {
    forall a :: a in acts ==> !a.Difference?
  }

  function HandedIn(acts: seq<Action>): seq<Update> {
    if acts == [] then [] else HandedIn(acts[..|acts| - 1]) + Input(acts[|acts| - 1])
  }

  function Emissions(log: seq<Event>): seq<Update> {
    if log == [] then []
    else Emissions(log[..|log| - 1]) +
         (if log[|log| - 1].Emitted? then [log[|log| - 1].update] else [])
  }
}
