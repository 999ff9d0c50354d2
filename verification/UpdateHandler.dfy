/** The update handler in the form the source has: an object that judges, buffers and
    emits updates. Every method is proved equal to its function in UpdateSequencing, so
    the theorems of UpdateTheorems hold of it. Listeners do not call back into it. */
module UpdateHandler {
  import opened Options
  import opened UpdateSequencing
  import State = UpdateState

  class UpdateHandler {
    const state: State.UpdateState
    var buffer: seq<Update>
    var gapTimeout: Option<nat>
    // the runtime's side of setTimeout: the handles it has armed, and the next one
    var armed: set<nat>
    var nextTimer: nat
    // history: the events emitted, the updates discarded, the seq ranges accepted
    ghost var log: seq<Event>
    ghost var dropped: seq<Update>
    ghost var ranges: seq<(int, int)>

    ghost function View(): Handler
      reads this, state
    {
      Handler(state.GetState(), buffer, gapTimeout, armed, nextTimer, log, dropped, ranges)
    }

    constructor (initial: State.Position)
      ensures View() == Initial(initial) && fresh(state)
    {
      state := new State.UpdateState(initial);
      buffer := [];
      gapTimeout := None;
      armed, nextTimer := {}, 0;
      log, dropped, ranges := [], [], [];
    }

    method ProcessUpdate(update: Update)
      modifies this, state
      ensures View() == UpdateSequencing.ProcessUpdate(old(View()), update)
    {
      if update.pts.Some? && update.ptsCount.Some? {
        var result := state.ApplyPts(update.pts.value, update.ptsCount.value);
        HandleApplyResult(result, update, PtsGap, old(View()));
        return;
      }
      if update.qts.Some? {
        var result := state.ApplyQts(update.qts.value);
        HandleApplyResult(result, update, QtsGap, old(View()));
        return;
      }
      EmitUpdate(update);
    }

    /** `before` is the handler as it was before the update was judged. */
    method HandleApplyResult(result: State.Verdict, update: Update, kind: GapKind, ghost before: Handler)
      requires On(Pts, update) || On(Qts, update)
      requires kind == if On(Pts, update) then PtsGap else QtsGap
      requires result == Classify(before.state, update)
      requires View() == before.(state := if result.Accept? then Advance(before.state, update) else before.state)
      modifies this, state
      ensures View() == UpdateSequencing.ProcessUpdate(before, update)
    {
      match result {
        case Accept =>
          EmitUpdate(update);
          EmitStateUpdated();
          assert log == before.log + [Emitted(update), StateUpdated(state.GetState())];
          DrainBuffer();
          if |buffer| == 0 {
            ClearGapTimer();
          }
        case Duplicate =>
          dropped := dropped + [update];
        case Gap =>
          buffer := buffer + [update];
          log := log + [GapDetected(kind)];
          StartGapTimer();
      }
    }

    method ProcessUpdates(updates: seq<Update>, seqNo: int, seqStart: int, date: int)
      modifies this, state
      ensures View() == UpdateSequencing.ProcessUpdates(old(View()), updates, seqNo, seqStart, date)
    {
      hide Drain, SortByPts, Events, UpdateSequencing.ProcessUpdate;
      var seqToCheck := if seqStart > 0 then seqStart else seqNo;
      var seqResult := state.ApplySeq(seqToCheck);
      if seqResult == State.Duplicate {
        dropped := dropped + updates;
        return;
      }
      if seqResult == State.Gap {
        for i := 0 to |updates|
          invariant View() == old(View()).(buffer := old(buffer) + updates[..i])
        {
          buffer := buffer + [updates[i]];
          assert updates[..i + 1] == updates[..i] + [updates[i]];
        }
        assert updates[..|updates|] == updates;
        log := log + [GapDetected(SeqGap)];
        StartGapTimer();
        return;
      }
      if seqNo > seqToCheck {
        state.SetSeq(seqNo);
      }
      if date > 0 {
        state.SetDate(date);
      }
      ranges := if seqToCheck == 0 then ranges else ranges + [(seqToCheck, LastSeq(seqNo, seqStart))];
      ghost var entered := EnterWrapper(old(View()), seqNo, seqStart, date);
      assert View() == entered;
      for i := 0 to |updates|
        invariant View() == ProcessEach(entered, updates[..i])
      {
        ProcessUpdate(updates[i]);
        assert updates[..i + 1][..i] == updates[..i];
      }
      assert updates[..|updates|] == updates;
      EmitStateUpdated();
    }

    method ApplyDifference(newState: State.Position, updates: seq<Update>)
      modifies this, state
      ensures View() == UpdateSequencing.ApplyDifference(old(View()), newState, updates)
    {
      state.SetPts(newState.pts);
      state.SetQts(newState.qts);
      state.SetSeq(newState.seqNo);
      state.SetDate(newState.date);
      ClearGapTimer();
      ghost var cleared := View();
      for i := 0 to |updates|
        invariant View() == cleared.(log := cleared.log + Events(updates[..i]))
      {
        EmitUpdate(updates[i]);
        assert Events(updates[..i + 1]) == Events(updates[..i]) + [Emitted(updates[i])];
      }
      assert updates[..|updates|] == updates;
      DrainBuffer();
      EmitStateUpdated();
    }

    method DrainBuffer()
      modifies this, state
      ensures View() == UpdateSequencing.DrainBuffer(old(View()))
    {
      hide Pass, Events;
      if |buffer| == 0 {
        assert SortByPts(buffer) == [];
        NothingBefore(state.GetState(), [], log);
        PassOfNothing(state.GetState());
        return;
      }
      buffer := SortByPts(buffer);
      ghost var sorted, s0 := buffer, state.GetState();
      NothingBefore(s0, sorted, log);
      ghost var emitted: seq<Update>, discarded: seq<Update> := [], [];
      var remaining: seq<Update> := [];
      var progress := true;
      assert Before([], [], [], Drain(s0, sorted)) == Drain(s0, sorted) && remaining + buffer == sorted;
      while progress
        invariant remaining == [] || buffer == []
        invariant progress ==>
          Drain(s0, sorted) == Before(emitted, discarded, [], Drain(state.GetState(), remaining + buffer))
        invariant !progress ==>
          buffer == [] && Drain(s0, sorted) == Drained(state.GetState(), emitted, discarded, remaining)
        invariant log == old(log) + Events(emitted) && dropped == old(dropped) + discarded
        invariant gapTimeout == old(gapTimeout) && armed == old(armed)
        invariant nextTimer == old(nextTimer) && ranges == old(ranges)
        decreases if progress then 1 + |remaining| + |buffer| else 0
      {
        progress := false;
        var toProcess := if |remaining| > 0 then remaining else buffer;
        assert toProcess == remaining + buffer;
        if |remaining| > 0 { remaining := []; } else { buffer := []; }
        DrainStep(emitted, discarded, state.GetState(), toProcess);
        ghost var pass := Pass(state.GetState(), toProcess);
        var tryAgain;
        tryAgain, progress := RunPass(toProcess);
        EventsConcat(old(log), emitted, pass.emitted);
        Associative(old(dropped), discarded, pass.dropped);
        remaining := remaining + tryAgain;
        emitted, discarded := emitted + pass.emitted, discarded + pass.dropped;
        assert remaining + buffer == pass.left;
      }
      buffer := remaining;
    }

    /** The body of the drain loop: one pass over the waiting updates. */
    method RunPass(toProcess: seq<Update>) returns (tryAgain: seq<Update>, progress: bool)
      modifies this, state
      ensures var pass := Pass(old(state.GetState()), toProcess);
              && tryAgain == pass.left && progress == (pass.emitted != [])
              && View() == old(View()).(state := pass.state, log := old(log) + Events(pass.emitted),
                                        dropped := old(dropped) + pass.dropped)
    {
      hide Pass, Events, Classify, Advance, Before;
      progress := false;
      tryAgain := [];
      ghost var s0 := state.GetState();
      ghost var e: seq<Update>, d: seq<Update> := [], [];
      NothingBefore(s0, toProcess, log);
      assert toProcess[0..] == toProcess;
      for i := 0 to |toProcess|
        invariant Pass(s0, toProcess) == Before(e, d, tryAgain, Pass(state.GetState(), toProcess[i..]))
        invariant progress == (e != [])
        invariant View() == old(View()).(state := state.GetState(), log := old(log) + Events(e),
                                         dropped := old(dropped) + d)
      {
        var update := toProcess[i];
        PassStep(e, d, tryAgain, state.GetState(), toProcess[i..]);
        assert toProcess[i..][0] == update && toProcess[i..][1..] == toProcess[i + 1..];
        var result := Apply(update);
        if result == State.Accept {
          EmitUpdate(update);
          EventAdded(old(log), e, update);
          e := e + [update];
          progress := true;
        } else if result == State.Gap {
          tryAgain := tryAgain + [update];
        } else {
          Associative(old(dropped), d, [update]);
          dropped := dropped + [update];
          d := d + [update];
        }
      }
      assert toProcess[|toProcess|..] == [];
      NothingLeft(e, d, tryAgain, state.GetState());
    }

    /** Judges one waiting update; one without pts and qts is accepted as it is. */
    method Apply(update: Update) returns (result: State.Verdict)
      modifies state
      ensures result == Classify(old(state.GetState()), update)
      ensures state.GetState() ==
              if result.Accept? then Advance(old(state.GetState()), update) else old(state.GetState())
    {
      result := State.Accept;
      if update.pts.Some? && update.ptsCount.Some? {
        result := state.ApplyPts(update.pts.value, update.ptsCount.value);
      } else if update.qts.Some? {
        result := state.ApplyQts(update.qts.value);
      }
    }

    method StartGapTimer()
      modifies this
      ensures View() == StartTimer(old(View()))
    {
      if gapTimeout.Some? { return; }
      gapTimeout := Some(nextTimer);
      armed := armed + {nextTimer};
      nextTimer := nextTimer + 1;
    }

    /** The runtime calls this when an armed timer expires. */
    method TimerExpires(id: nat)
      modifies this
      ensures View() == FireTimer(old(View()), id)
    {
      if id in armed {
        armed := armed - {id};
        gapTimeout := None;
        log := log + [NeedDifference];
      }
    }

    method ClearGapTimer()
      modifies this
      ensures View() == ClearTimer(old(View()))
    {
      if gapTimeout.Some? {
        armed := armed - {gapTimeout.value};
        gapTimeout := None;
      }
    }

    method EmitUpdate(update: Update)
      modifies this`log
      ensures log == old(log) + [Emitted(update)]
    {
      log := log + [Emitted(update)];
    }

    method EmitStateUpdated()
      modifies this`log
      ensures log == old(log) + [StateUpdated(state.GetState())]
    {
      log := log + [StateUpdated(state.GetState())];
    }
  }

  lemma Associative<T>(a: seq<T>, b: seq<T>, c: seq<T>)
    ensures a + b + c == a + (b + c)
  {}

  lemma EventsConcat(log: seq<Event>, a: seq<Update>, b: seq<Update>)
    ensures log + Events(a) + Events(b) == log + Events(a + b)
  {
    assert Events(a) + Events(b) == Events(a + b);
    Associative(log, Events(a), Events(b));
  }

  lemma EventAdded(log: seq<Event>, us: seq<Update>, u: Update)
    ensures log + Events(us) + [Emitted(u)] == log + Events(us + [u])
  {
    EventsConcat(log, us, [u]);
    assert Events([u]) == [Emitted(u)];
  }

  lemma NothingBefore(s: State.Position, us: seq<Update>, log: seq<Event>)
    ensures Before([], [], [], Pass(s, us)) == Pass(s, us)
    ensures log + Events([]) == log
  {
    hide Pass;
    assert log + Events([]) == log + [] == log;
  }

  lemma PassOfNothing(s: State.Position)
    ensures Pass(s, []) == Drained(s, [], [], [])
  {}

  lemma NothingLeft(e: seq<Update>, d: seq<Update>, again: seq<Update>, s: State.Position)
    ensures Before(e, d, again, Pass(s, [])) == Drained(s, e, d, again)
  {}

  /** One update of a pass, after the ones already handled. */
  lemma PassStep(e: seq<Update>, d: seq<Update>, again: seq<Update>, s: State.Position, us: seq<Update>)
    requires us != []
    ensures match Classify(s, us[0])
            case Accept => Before(e, d, again, Pass(s, us)) == Before(e + [us[0]], d, again, Pass(Advance(s, us[0]), us[1..]))
            case Duplicate => Before(e, d, again, Pass(s, us)) == Before(e, d + [us[0]], again, Pass(s, us[1..]))
            case Gap => Before(e, d, again, Pass(s, us)) == Before(e, d, again + [us[0]], Pass(s, us[1..]))
  {
    var u, rest := us[0], us[1..];
    match Classify(s, u)
    case Accept =>
      var r := Pass(Advance(s, u), rest);
      assert e + ([u] + r.emitted) == (e + [u]) + r.emitted;
      assert d + ([] + r.dropped) == d + r.dropped && again + ([] + r.left) == again + r.left;
    case Duplicate =>
      var r := Pass(s, rest);
      assert d + ([u] + r.dropped) == (d + [u]) + r.dropped;
      assert e + ([] + r.emitted) == e + r.emitted && again + ([] + r.left) == again + r.left;
    case Gap =>
      var r := Pass(s, rest);
      assert again + ([u] + r.left) == (again + [u]) + r.left;
      assert e + ([] + r.emitted) == e + r.emitted && d + ([] + r.dropped) == d + r.dropped;
  }

  /** One pass of a drain, after the passes already made. */
  lemma DrainStep(emitted: seq<Update>, discarded: seq<Update>, s: State.Position, us: seq<Update>)
    ensures var r := Pass(s, us);
            Before(emitted, discarded, [], Drain(s, us)) ==
            if r.emitted == [] then Drained(r.state, emitted, discarded + r.dropped, r.left)
            else Before(emitted + r.emitted, discarded + r.dropped, [], Drain(r.state, r.left))
  {
    var r := Pass(s, us);
    if r.emitted == [] {
      assert emitted + [] == emitted && [] + r.left == r.left;
    } else {
      var t := Drain(r.state, r.left);
      assert emitted + (r.emitted + t.emitted) == emitted + r.emitted + t.emitted;
      assert discarded + (r.dropped + t.dropped) == discarded + r.dropped + t.dropped;
      assert [] + ([] + t.left) == [] + t.left;
    }
  }
}
