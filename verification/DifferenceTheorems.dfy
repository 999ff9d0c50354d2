/** What applying a difference leaves in the buffer, and that nothing watches it then. */
module DifferenceTheorems {
  import opened Options
  import opened UpdateSequencing
  import opened UpdateState
  import opened UpdateTheorems

  /** An update behind a gap and then a difference that does not fill the gap: the update
      stays buffered, no timer is armed and the difference was never asked for. */
  lemma DifferenceLeavesTheBufferUnwatched(s: Position, u: Update)
    requires Classify(s, u) == Gap
    ensures var h := Run(Initial(s), [Single(u), Difference(s, [])]);
            h.buffer == [u] && h.timer == None && h.armed == {} && NeedDifference !in h.log
  {
    hide Classify;
    var acts := [Single(u), Difference(s, [])];
    assert acts[..1] == [Single(u)] && acts[..1][..0] == [];
    var one := Run(Initial(s), acts[..1]);
    BufferedAlone(s, u);
    assert Run(Initial(s), acts[..1][..0]) == Initial(s);
    assert one == ProcessUpdate(Initial(s), u);
    ClearTimerKeepsRest(one);
    OneGapStays(s, u);
    assert ClearTimer(one.(state := s)).log + Events([]) == one.log;
    assert one.log + [] == one.log;
  }

  lemma BufferedAlone(s: Position, u: Update)
    requires Classify(s, u) == Gap
    ensures ProcessUpdate(Initial(s), u) ==
            Initial(s).(buffer := [u], timer := Some(0), armed := {0}, nextTimer := 1,
                        log := [GapDetected(if On(Pts, u) then PtsGap else QtsGap)])
  {}

  lemma ClearTimerKeepsRest(h: Handler)
    ensures var r := ClearTimer(h); r.buffer == h.buffer && r.log == h.log && r.state == h.state && r.dropped == h.dropped
  {}

  lemma OneGapStays(s: Position, u: Update)
    requires Classify(s, u) == Gap
    ensures SortByPts([u]) == [u] && Drain(s, [u]) == Drained(s, [], [], [u])
  {
    hide Classify;
    assert SortByPts([u][..0]) == [];
    assert Pass(s, [u][1..]) == Drained(s, [], [], []);
    assert [u] + [] == [u];
  }

  // ---------------------------------------------------- when nothing is left

  /** `c` are exactly the updates of the line that end behind `at`. */
  ghost predicate Covers(line: Line, at: int, us: seq<Update>, c: seq<Update>) {
    forall u :: u in c <==> (u in us && On(line, u) && End(line, u) > at)
  }

  /** The updates of the line that end behind `at` abut, starting there. */
  ghost predicate FormsChain(line: Line, at: int, us: seq<Update>) {
    exists c, q :: Chain(line, at, c, q) && Covers(line, at, us, c)
  }

  /** Nothing of the line is left over. */
  ghost predicate Clear(line: Line, us: seq<Update>) {
    forall u :: u in us ==> !On(line, u)
  }

  ghost predicate AllFrom(line: Line, us: seq<Update>, c: seq<Update>) {
    forall u :: u in us && On(line, u) ==> u in c
  }

  lemma {:induction false} InOnlyOn(line: Line, es: seq<Update>, u: Update)
    ensures u in OnlyOn(line, es) <==> u in es && On(line, u)
    decreases es
  {
    if es != [] { InOnlyOn(line, es[1..], u); }
  }

  lemma {:induction false} TileIsChain(line: Line, p: int, es: seq<Update>, q: int)
    requires Tile(line, p, es, q) && forall u :: u in es && On(line, u) ==> Width(line, u) >= 1
    ensures Chain(line, p, OnlyOn(line, es), q)
    decreases es
  {
    if es != [] {
      assert es[0] in es && forall u :: u in es[1..] ==> u in es;
      TileIsChain(line, if On(line, es[0]) then End(line, es[0]) else p, es[1..], q);
      var more := OnlyOn(line, es[1..]);
      assert OnlyOn(line, es) == if On(line, es[0]) then [es[0]] + more else more;
    }
  }

  /** Some member of a chain reaches over `x`. */
  lemma {:induction false} PointIsCovered(line: Line, p: int, c: seq<Update>, q: int, x: int) returns (e: Update)
    requires Chain(line, p, c, q) && p < x <= q
    ensures e in c && On(line, e) && End(line, e) - Width(line, e) < x <= End(line, e)
    decreases c
  {
    if x <= End(line, c[0]) { return c[0]; }
    e := PointIsCovered(line, End(line, c[0]), c[1..], q, x);
  }

  /** Members of a chain do not overlap. */
  lemma {:induction false} ChainIsDisjoint(line: Line, p: int, c: seq<Update>, q: int, u: Update, e: Update)
    requires Chain(line, p, c, q) && u in c && e in c && On(line, u) && On(line, e)
    requires End(line, e) - Width(line, e) < End(line, u) <= End(line, e)
    ensures u == e
    decreases c
  {
    if u != e {
      if u in c[1..] { ChainMember(line, End(line, c[0]), c[1..], q, u); }
      if e in c[1..] { ChainMember(line, End(line, c[0]), c[1..], q, e); }
      ChainIsDisjoint(line, End(line, c[0]), c[1..], q, u, e);
    }
  }

  lemma FromChainWidths(line: Line, us: seq<Update>, p: int, c: seq<Update>, q: int)
    requires Chain(line, p, c, q) && AllFrom(line, us, c)
    ensures forall u :: u in us && On(line, u) ==> Width(line, u) >= 1
  {
    forall u | u in us && On(line, u) ensures Width(line, u) >= 1 { ChainMember(line, p, c, q, u); }
  }

  /** A drain takes everything on the line when what lies ahead forms a chain. */
  lemma ChainDrains(line: Line, s: Position, us: seq<Update>, c: seq<Update>, q: int)
    requires At(line, s) > 0 && Chain(line, At(line, s), c, q) && Covers(line, At(line, s), us, c)
    requires forall u :: u in us && On(line, u) ==> Width(line, u) >= 1
    ensures Clear(line, Drain(s, us).left)
  {
    hide Drain;
    var d, at := Drain(s, us), At(line, s);
    DrainTiles(line, s, us);
    DrainReachesFixpoint(s, us);
    DrainPartitions(s, us);
    MembersOf(us, d);
    var final := At(line, d.state);
    var rest := TileInChain(line, at, c, q, d.emitted, final);
    if rest != [] {
      var u := rest[0];
      assert u in c;
      assert Classify(d.state, u) == Accept;
      EmittedIsBehind(line, at, d.emitted, final, u);
      assert false;
    }
    forall u | u in d.left ensures !On(line, u) {
      assert Classify(d.state, u) == Gap;
      if On(line, u) && End(line, u) > at { ChainMember(line, at, c, q, u); }
    }
  }

  /** Conversely, when it takes everything, then what lay ahead formed a chain, provided that
      the updates come from some chain, as a server issues them. */
  lemma DrainedWasChain(line: Line, s: Position, us: seq<Update>, p: int, all: seq<Update>, end: int)
    requires At(line, s) > 0 && Chain(line, p, all, end) && AllFrom(line, us, all)
    requires Clear(line, Drain(s, us).left)
    ensures FormsChain(line, At(line, s), us)
  {
    hide Drain, OnlyOn;
    var d, at := Drain(s, us), At(line, s);
    FromChainWidths(line, us, p, all, end);
    DrainTiles(line, s, us);
    DrainPartitions(s, us);
    MembersOf(us, d);
    var final, c := At(line, d.state), OnlyOn(line, d.emitted);
    TileIsChain(line, at, d.emitted, final);
    forall u ensures u in c <==> (u in us && On(line, u) && End(line, u) > at) {
      InOnlyOn(line, d.emitted, u);
      if u in c { ChainMember(line, at, c, final, u); }
      if u in us && On(line, u) && End(line, u) > at {
        EmittedIsBehind(line, at, d.emitted, final, u);
        var e := PointIsCovered(line, at, c, final, End(line, u));
        InOnlyOn(line, d.emitted, e);
        ChainIsDisjoint(line, p, all, end, u, e);
      }
    }
    assert Covers(line, at, us, c);
  }

  /** Updates taken from a chain: after a difference none of them is left exactly when those
      that lie ahead of the new counter form a chain from it. The counter is initialized, or
      nothing of the line is buffered. */
  lemma DifferenceClearsALine(line: Line, h: Handler, s: Position, us: seq<Update>, p: int, all: seq<Update>, end: int)
    requires At(line, s) > 0 || Clear(line, h.buffer)
    requires Chain(line, p, all, end) && AllFrom(line, h.buffer, all)
    ensures Clear(line, ApplyDifference(h, s, us).buffer) <==> FormsChain(line, At(line, s), h.buffer)
  {
    hide Drain, SortByPts, Covers, Chain;
    var sorted := SortByPts(h.buffer);
    SortKeepsContent(h.buffer);
    SameMembers(sorted, h.buffer);
    var c0 := ClearTimer(h.(state := s));
    DrainedShape(c0.(log := c0.log + Events(us)));
    SameFormsChain(line, At(line, s), h.buffer, sorted);
    FromChainWidths(line, sorted, p, all, end);
    if At(line, s) > 0 {
      if FormsChain(line, At(line, s), sorted) {
        var c, q :| Chain(line, At(line, s), c, q) && Covers(line, At(line, s), sorted, c);
        ChainDrains(line, s, sorted, c, q);
      }
      if Clear(line, Drain(s, sorted).left) { DrainedWasChain(line, s, sorted, p, all, end); }
    } else {
      NothingOnTheLine(line, s, sorted);
    }
  }

  lemma NothingOnTheLine(line: Line, s: Position, us: seq<Update>)
    requires Clear(line, us)
    ensures Clear(line, Drain(s, us).left) && FormsChain(line, At(line, s), us)
  {
    hide Drain;
    DrainPartitions(s, us);
    MembersOf(us, Drain(s, us));
    assert Chain(line, At(line, s), [], At(line, s)) && Covers(line, At(line, s), us, []);
  }

  lemma SameFormsChain(line: Line, at: int, a: seq<Update>, b: seq<Update>)
    requires forall u :: u in a <==> u in b
    ensures FormsChain(line, at, a) <==> FormsChain(line, at, b)
  {
    hide Chain;
    forall c ensures Covers(line, at, a, c) <==> Covers(line, at, b, c) {}
  }

  /** So the buffer is empty after a difference, and needs no timer, exactly when on both
      lines what lies ahead of the new counters forms a chain from them. */
  lemma DifferenceEmptiesTheBuffer(h: Handler, s: Position, us: seq<Update>, p: int, c: seq<Update>, m: int,
                                   q: int, d: seq<Update>, n: int)
    requires s.pts > 0 || Clear(Pts, h.buffer)
    requires s.qts > 0 || Clear(Qts, h.buffer)
    requires Chain(Pts, p, c, m) && AllFrom(Pts, h.buffer, c)
    requires Chain(Qts, q, d, n) && AllFrom(Qts, h.buffer, d)
    ensures ApplyDifference(h, s, us).buffer == []
       <==> FormsChain(Pts, s.pts, h.buffer) && FormsChain(Qts, s.qts, h.buffer)
  {
    hide ApplyDifference, FormsChain, Chain;
    var r := ApplyDifference(h, s, us);
    DifferenceClearsALine(Pts, h, s, us, p, c, m);
    DifferenceClearsALine(Qts, h, s, us, q, d, n);
    DifferenceIsAccountedFor(h, s, us);
    FirstIsMember(r.buffer);
  }
}
