/** How far the order of delivery is free: from which counters, and that it is not free for
    the wrappers of updates. */
module DeliveryOrder {
  import opened Options
  import opened UpdateSequencing
  import opened UpdateState
  import opened UpdateTheorems

  // ------------------------------------------------------------ single updates

  /** On the line exactly the chain is delivered, in any order, with any repeats. */
  ghost predicate Delivers(line: Line, ds: seq<Update>, c: seq<Update>) {
    && (forall u :: u in ds && On(line, u) ==> u in c)
    && (forall u :: u in c ==> u in ds)
  }

  /** Every chain from the counter is emitted as it is, however it is delivered. */
  ghost predicate OrderIsFree(line: Line, s: Position) {
    forall c, q, ds :: Chain(line, At(line, s), c, q) && Delivers(line, ds, c) ==> EmitsJust(line, s, ds, c)
  }

  ghost predicate EmitsJust(line: Line, s: Position, ds: seq<Update>, c: seq<Update>) {
    OnlyOn(line, Emissions(Run(Initial(s), Singles(ds)).log)) == c
  }

  /** An update that counts for one. */
  function Unit(line: Line, end: int): (u: Update)
    ensures On(line, u) && End(line, u) == end && Width(line, u) == 1
  {
    match line
    case Pts => Update(0, [], Some(end), Some(1), None)
    case Qts => Update(0, [], None, None, Some(end))
  }

  function Units(line: Line, from: int, count: nat): (us: seq<Update>)
    ensures |us| == count && forall i :: 0 <= i < count ==> us[i] == Unit(line, from + i + 1)
  {
    seq(count, i requires 0 <= i < count => Unit(line, from + i + 1))
  }

  lemma {:induction false} UnitsFormAChain(line: Line, from: int, count: nat)
    ensures Chain(line, from, Units(line, from, count), from + count)
    decreases count
  {
    if count > 0 {
      UnitsFormAChain(line, from + 1, count - 1);
      assert Units(line, from, count)[1..] == Units(line, from + 1, count - 1);
    }
  }

  lemma AcceptedAlone(line: Line, h: Handler, u: Update)
    requires h.buffer == [] && On(line, u) && Classify(h.state, u) == Accept
    ensures var r := ProcessUpdate(h, u);
            && r.state == Advance(h.state, u) && r.buffer == [] && r.dropped == h.dropped
            && Emissions(r.log) == Emissions(h.log) + [u]
  {
    hide Emissions, Classify;
    assert SortByPts([]) == [];
    assert On(Pts, u) || On(Qts, u);
    AcceptedShape(h, u);
    NothingToDrain(Emitting(h, u));
  }

  lemma NothingToDrain(h: Handler)
    requires h.buffer == []
    ensures var r := DrainBuffer(h); r.state == h.state && r.buffer == [] && r.dropped == h.dropped && r.log == h.log
  {
    assert SortByPts([]) == [] && Drain(h.state, []) == Drained(h.state, [], [], []);
    assert h.log + Events([]) == h.log && h.dropped + [] == h.dropped;
  }

  lemma SinglesSnoc(s: Position, ds: seq<Update>, u: Update)
    ensures Run(Initial(s), Singles(ds + [u])) == ProcessUpdate(Run(Initial(s), Singles(ds)), u)
  {
    hide ProcessUpdate;
    assert Singles(ds + [u])[..|ds|] == Singles(ds);
  }

  /** Delivered in order, units are emitted one by one. */
  lemma {:induction false} InOrder(line: Line, s: Position, count: nat)
    ensures var h := Run(Initial(s), Singles(Units(line, At(line, s), count)));
            && At(line, h.state) == At(line, s) + count && h.buffer == [] && h.dropped == []
            && Emissions(h.log) == Units(line, At(line, s), count)
    decreases count
  {
    hide ProcessUpdate, Emissions, Run;
    if count == 0 {
      NothingHappened(s);
      assert Singles(Units(line, At(line, s), 0)) == [];
    } else {
      var us, u := Units(line, At(line, s), count - 1), Unit(line, At(line, s) + count);
      InOrder(line, s, count - 1);
      assert Units(line, At(line, s), count) == us + [u];
      SinglesSnoc(s, us, u);
      AcceptedAlone(line, Run(Initial(s), Singles(us)), u);
    }
  }

  lemma NothingHappened(s: Position)
    ensures Run(Initial(s), []) == Initial(s) && Emissions(Initial(s).log) == []
  {}

  /** Emissions of one update too few are not the chain. */
  lemma {:induction false} OnlyOnIsShorter(line: Line, es: seq<Update>)
    ensures |OnlyOn(line, es)| <= |es|
    decreases es
  {
    if es != [] { OnlyOnIsShorter(line, es[1..]); }
  }

  /** From a counter that is zero or negative: units up to zero in order, and then 2 before
      1. At zero the counter takes the 2, and the 1 is lost as a duplicate. */
  lemma LosesAtZero(line: Line, s: Position)
    requires At(line, s) <= 0
    ensures !OrderIsFree(line, s)
  {
    hide ProcessUpdate, Emissions, OnlyOn, Run, Chain;
    var at := At(line, s);
    var c, up := Units(line, at, 2 - at), Units(line, at, -at);
    var ds := up + [Unit(line, 2)] + [Unit(line, 1)];
    UnitsFormAChain(line, at, 2 - at);
    DeliversAll(line, at);
    InOrder(line, s, -at);
    SinglesSnoc(s, up, Unit(line, 2));
    SinglesSnoc(s, up + [Unit(line, 2)], Unit(line, 1));
    var h := Run(Initial(s), Singles(up));
    AcceptedAlone(line, h, Unit(line, 2));
    var h2 := ProcessUpdate(h, Unit(line, 2));
    DuplicateIsDropped(line, h2, Unit(line, 1));
    OnlyOnIsShorter(line, Emissions(h2.log));
    assert !EmitsJust(line, s, ds, c);
  }

  lemma DuplicateIsDropped(line: Line, h: Handler, u: Update)
    requires On(line, u) && Classify(h.state, u) == Duplicate
    ensures ProcessUpdate(h, u).log == h.log
  {}

  lemma DeliversAll(line: Line, at: int)
    requires at <= 0
    ensures Delivers(line, Units(line, at, -at) + [Unit(line, 2)] + [Unit(line, 1)], Units(line, at, 2 - at))
  {
    var c, up := Units(line, at, 2 - at), Units(line, at, -at);
    var ds := up + [Unit(line, 2)] + [Unit(line, 1)];
    forall i | 0 <= i < |ds| ensures ds[i] in c {
      var j := if i < |up| then i else if i == |up| then i + 1 else i - 1;
      assert ds[i] == c[j];
    }
    forall j | 0 <= j < |c| ensures c[j] in ds {
      var i := if j < |up| then j else if j == |up| then j + 1 else j - 1;
      assert ds[i] == c[j];
    }
  }

  /** The order of delivery is free exactly from a positive counter. */
  lemma OrderIsFreeFromPositive(line: Line, s: Position)
    ensures OrderIsFree(line, s) <==> At(line, s) > 0
  {
    hide Chain, Delivers, EmitsJust;
    if At(line, s) > 0 {
      forall c, q, ds | Chain(line, At(line, s), c, q) && Delivers(line, ds, c) ensures EmitsJust(line, s, ds, c) {
        DeliveredAnyhow(line, s, c, q, ds);
      }
    } else {
      LosesAtZero(line, s);
    }
  }

  lemma DeliveredAnyhow(line: Line, s: Position, c: seq<Update>, q: int, ds: seq<Update>)
    requires At(line, s) > 0 && Chain(line, At(line, s), c, q) && Delivers(line, ds, c)
    ensures EmitsJust(line, s, ds, c)
  {
    AnyOrderEmitsTheChain(line, s, c, q, ds);
  }

  // ----------------------------------------------------------------- wrappers

  function First(a: Action): int
    requires a.Wrapper?
  {
    FirstSeq(a.seqNo, a.seqStart)
  }

  function Last(a: Action): (n: int)
    requires a.Wrapper?
    ensures n >= First(a)
  {
    LastSeq(a.seqNo, a.seqStart)
  }

  /** Wrappers whose ranges abut from behind `p` to `q`. */
  predicate WrapperChain(p: int, ws: seq<Action>, q: int)
    decreases |ws|
  {
    if ws == [] then p == q
    else ws[0].Wrapper? && First(ws[0]) == p + 1 && WrapperChain(Last(ws[0]), ws[1..], q)
  }

  predicate AllWrappers(ds: seq<Action>) {
    forall a :: a in ds ==> a.Wrapper?
  }

  function SeqAfterOne(p: int, a: Action): int
    requires a.Wrapper?
  {
    if First(a) == p + 1 then Last(a) else p
  }

  /** The seq after the wrappers, taken one after the other. */
  function SeqAfter(p: int, ds: seq<Action>): int
    requires AllWrappers(ds)
    decreases |ds|
  {
    if ds == [] then p else SeqAfter(SeqAfterOne(p, ds[0]), ds[1..])
  }

  lemma {:induction false} SeqAfterSnoc(p: int, ds: seq<Action>, a: Action)
    requires AllWrappers(ds) && a.Wrapper?
    ensures AllWrappers(ds + [a]) && SeqAfter(p, ds + [a]) == SeqAfterOne(SeqAfter(p, ds), a)
    decreases |ds|
  {
    if ds == [] {
      assert [] + [a] == [a] && [a][1..] == [];
    } else {
      SeqAfterSnoc(SeqAfterOne(p, ds[0]), ds[1..], a);
      assert (ds + [a])[1..] == ds[1..] + [a];
    }
  }

  lemma OneWrapper(h: Handler, a: Action)
    requires h.state.seqNo > 0 && a.Wrapper?
    ensures Step(h, a).state.seqNo == SeqAfterOne(h.state.seqNo, a) && Step(h, a).state.seqNo > 0
  {
    EachKeepsSeq(EnterWrapper(h, a.seqNo, a.seqStart, a.date), a.updates);
  }

  lemma {:induction false} RunOfWrappers(s: Position, ds: seq<Action>)
    requires s.seqNo > 0 && AllWrappers(ds)
    ensures Run(Initial(s), ds).state.seqNo == SeqAfter(s.seqNo, ds) > 0
    decreases |ds|
  {
    hide Step, SeqAfter, SeqAfterOne;
    if ds == [] {
      NoWrappers(s);
    } else {
      var k := |ds| - 1;
      RunOfWrappers(s, ds[..k]);
      assert ds == ds[..k] + [ds[k]];
      SeqAfterSnoc(s.seqNo, ds[..k], ds[k]);
      OneWrapper(Run(Initial(s), ds[..k]), ds[k]);
    }
  }

  lemma NoWrappers(s: Position)
    ensures SeqAfter(s.seqNo, []) == s.seqNo
  {}

  /** The members of `ws` occur in `ds` in this order. */
  predicate Subsequence(ws: seq<Action>, ds: seq<Action>)
    decreases |ds|
  {
    if ws == [] then true
    else if ds == [] then false
    else if ds[0] == ws[0] then Subsequence(ws[1..], ds[1..])
    else Subsequence(ws, ds[1..])
  }

  lemma {:induction false} WrapperMember(p: int, ws: seq<Action>, q: int, a: Action)
    requires WrapperChain(p, ws, q) && a in ws
    ensures a.Wrapper? && p < First(a)
    decreases |ws|
  {
    if a != ws[0] { WrapperMember(Last(ws[0]), ws[1..], q, a); }
  }

  lemma {:induction false} WrapperChainGrows(p: int, ws: seq<Action>, q: int)
    requires WrapperChain(p, ws, q)
    ensures p <= q && (ws != [] ==> p < q)
    decreases |ws|
  {
    if ws != [] { WrapperChainGrows(Last(ws[0]), ws[1..], q); }
  }

  /** What is delivered is a member of the chain or ends at or before the seq. */
  ghost predicate FromWrappers(p: int, ws: seq<Action>, ds: seq<Action>) {
    forall a :: a in ds ==> a.Wrapper? && (a in ws || First(a) <= p)
  }

  lemma {:induction false} SeqReachesTheEnd(p: int, ws: seq<Action>, q: int, ds: seq<Action>)
    requires WrapperChain(p, ws, q) && FromWrappers(p, ws, ds)
    ensures AllWrappers(ds) && (SeqAfter(p, ds) == q <==> Subsequence(ws, ds))
    decreases |ds|
  {
    WrapperChainGrows(p, ws, q);
    if ds != [] {
      var d := ds[0];
      assert d in ds && forall a :: a in ds[1..] ==> a in ds;
      if ws != [] && d == ws[0] {
        SeqReachesTheEnd(Last(d), ws[1..], q, ds[1..]);
      } else {
        NotNext(p, ws, q, d);
        SeqReachesTheEnd(p, ws, q, ds[1..]);
      }
    }
  }

  lemma NotNext(p: int, ws: seq<Action>, q: int, d: Action)
    requires WrapperChain(p, ws, q) && d.Wrapper? && (d in ws || First(d) <= p) && (ws != [] ==> d != ws[0])
    ensures First(d) != p + 1
  {
    if d in ws { WrapperMember(Last(ws[0]), ws[1..], q, d); }
  }

  /** A wrapper behind a seq gap is not kept as a wrapper, so its seq is never taken: wrappers
      whose ranges abut bring the seq to their end exactly when they arrive in their order,
      whatever is repeated in between. */
  lemma WrappersNeedTheirOrder(s: Position, ws: seq<Action>, q: int, ds: seq<Action>)
    requires s.seqNo > 0 && WrapperChain(s.seqNo, ws, q)
    requires forall a :: a in ds ==> a in ws
    ensures Run(Initial(s), ds).state.seqNo == q <==> Subsequence(ws, ds)
  {
    forall a | a in ds ensures a.Wrapper? { WrapperMember(s.seqNo, ws, q, a); }
    RunOfWrappers(s, ds);
    SeqReachesTheEnd(s.seqNo, ws, q, ds);
  }

  /** Two wrappers swapped: the seq stays at the first one's end and a third is a gap. */
  lemma SwappedWrappersStall(s: Position, w1: Action, w2: Action, w3: Action)
    requires s.seqNo > 0 && w1.Wrapper? && w2.Wrapper? && w3.Wrapper?
    requires First(w1) == s.seqNo + 1 && First(w2) == Last(w1) + 1 && First(w3) == Last(w2) + 1
    ensures var h := Run(Initial(s), [w2, w1]);
            && h.state.seqNo == Last(w1)
            && JudgeSeq(h.state.seqNo, First(w3)) == Gap
            && Step(h, w3).buffer == h.buffer + w3.updates
  {
    hide Step, SeqAfter;
    TwoWrappers(s.seqNo, w2, w1);
    RunOfWrappers(s, [w2, w1]);
    GapIsBuffered(Run(Initial(s), [w2, w1]), w3);
  }

  lemma TwoWrappers(p: int, a: Action, b: Action)
    requires a.Wrapper? && b.Wrapper?
    ensures AllWrappers([a, b]) && SeqAfter(p, [a, b]) == SeqAfterOne(SeqAfterOne(p, a), b)
  {
    hide SeqAfterOne;
    SeqAfterSnoc(p, [], a);
    SeqAfterSnoc(p, [a], b);
    assert [] + [a] == [a] && [a] + [b] == [a, b];
  }

  lemma GapIsBuffered(h: Handler, w: Action)
    requires w.Wrapper? && JudgeSeq(h.state.seqNo, First(w)) == Gap
    ensures Step(h, w).buffer == h.buffer + w.updates
  {}
}
