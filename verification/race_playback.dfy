/** Playback of the bar-chart race. Each chart runs one `animate` loop over
    its keyframes: before a frame it checks the shared pause flag, and while
    paused it parks on a promise whose resolver it stores in the one shared
    slot `currentAnimation`; it then draws the frame and awaits the end of that
    frame's transition. The pause button flips the flag, and on resume calls the
    stored resolver once and clears the slot. Loading a state (a state button or
    restart) starts a new chart and a new loop.

    Promises and timers are replaced by events: `Continue(l)` lets loop `l` run
    up to its next `await`, `TransitionEnd(l)` ends the transition loop `l`
    awaits. */
module RacePlayback {
  import opened Seqs
  import opened Sorting
  import opened Ranking
  import opened Keyframes

  datatype Phase =
    | Checking   // about to test the pause flag for `frame`
    | Waiting    // parked on the pause promise before drawing `frame`
    | Drawing    // `frame` drawn, awaiting the end of its transition
    | Finished   // the keyframes are exhausted
    | Cancelled  // stopped because a newer chart replaced this one

  /** One `animate` loop over a chart of `total` keyframes. `drawn` lists the
      frames it has drawn, in order. */
  datatype Loop = Loop(total: nat, frame: nat, phase: Phase, drawn: seq<nat>)

  /** All loops started so far (the last is the current chart's), the pause
      flag, and which loop's resolver sits in `currentAnimation`. */
  datatype Player = Player(loops: seq<Loop>, paused: bool, current: Option<nat>)

  datatype Event =
    | Continue(l: nat)
    | TransitionEnd(l: nat)
    | PauseClick
    | Load(total: nat)     // a state button: `loadStateData`
    | Restart(total: nat)  // the restart button: unpause, then `loadStateData`

  function Iota(m: nat): (r: seq<nat>)
    ensures |r| == m && forall i :: 0 <= i < m ==> r[i] == i
  {
    if m == 0 then [] else Iota(m - 1) + [m - 1]
  }

  function NewLoop(total: nat): Loop {
    Loop(total, 0, Checking, [])
  }

  function Empty(): Player {
    Player([], false, None)
  }

  predicate Live(l: Loop) {
    l.phase == Checking || l.phase == Waiting || l.phase == Drawing
  }

  /** The loop reaches its next `await` (or its end). */
  function Advance(l: Loop, paused: bool): Loop {
    if l.phase != Checking then l
    else if l.frame >= l.total then l.(phase := Finished)
    else if paused then l.(phase := Waiting)
    else l.(phase := Drawing, drawn := l.drawn + [l.frame])
  }

  /** The resolver of a parked loop is called: it draws its frame. */
  function Resume(l: Loop): Loop {
    if l.phase == Waiting then l.(phase := Drawing, drawn := l.drawn + [l.frame]) else l
  }

  /** The transition of the drawn frame ends: on to the next frame. */
  function EndTransition(l: Loop): Loop {
    if l.phase == Drawing then l.(frame := l.frame + 1, phase := Checking) else l
  }

  function Cancel(l: Loop): Loop {
    if Live(l) then l.(phase := Cancelled) else l
  }

  function CancelAll(ls: seq<Loop>): (r: seq<Loop>)
    ensures |r| == |ls| && forall i :: 0 <= i < |ls| ==> r[i] == Cancel(ls[i])
  {
    seq(|ls|, i requires 0 <= i < |ls| => Cancel(ls[i]))
  }

  /** The pause button. */
  function Toggle(p: Player): Player {
    if !p.paused then p.(paused := true)
    else if p.current.Some? && p.current.value < |p.loops| then
      var c := p.current.value;
      Player(p.loops[c := Resume(p.loops[c])], false, None)
    else p.(paused := false, current := None)
  }

  /** Loading a chart: the new loop replaces the older ones, which are
      cancelled, and no stale resolver is kept. */
  function Reload(p: Player, total: nat): Player {
    Player(CancelAll(p.loops) + [NewLoop(total)], p.paused, None)
  }

  /** Loading a chart as the handlers do it: the new loop is started next to
      the older ones, which keep running, and the resolver slot is left as it
      was. */
  function ReloadAsWritten(p: Player, total: nat): Player {
    p.(loops := p.loops + [NewLoop(total)])
  }

  function StepWith(p: Player, e: Event, cancelling: bool): Player {
    match e
    case Continue(l) =>
      if l < |p.loops| then
        var a := Advance(p.loops[l], p.paused);
        p.(loops := p.loops[l := a], current := if a.phase == Waiting && p.loops[l].phase == Checking then Some(l) else p.current)
      else p
    case TransitionEnd(l) =>
      if l < |p.loops| then p.(loops := p.loops[l := EndTransition(p.loops[l])]) else p
    case PauseClick => Toggle(p)
    case Load(total) =>
      if cancelling then Reload(p, total) else ReloadAsWritten(p, total)
    case Restart(total) =>
      var q := p.(paused := false);
      if cancelling then Reload(q, total) else ReloadAsWritten(q, total)
  }

  /** One event, with reloads cancelling the older loops. */
  function Step(p: Player, e: Event): Player {
    StepWith(p, e, true)
  }

  /** One event, as the page's handlers behave. */
  function StepAsWritten(p: Player, e: Event): Player {
    StepWith(p, e, false)
  }

  function Run(p: Player, es: seq<Event>): Player
    decreases |es|
  {
    if |es| == 0 then p else Run(Step(p, es[0]), es[1..])
  }

  // ---------------------------------------------------------------------
  // One loop draws its frames in order, one at a time

  /** A loop has drawn exactly frames `0 .. frame - 1`, plus `frame` while it
      awaits that frame's transition; it finishes only past the last frame; a
      cancelled loop keeps what it drew. */
  predicate LoopOk(l: Loop) {
    && l.frame <= l.total
    && l.drawn == Iota(|l.drawn|)
    && (l.phase == Drawing ==> l.frame < l.total && |l.drawn| == l.frame + 1)
    && (l.phase == Checking || l.phase == Waiting || l.phase == Finished ==> |l.drawn| == l.frame)
    && (l.phase == Cancelled ==> |l.drawn| <= l.frame + 1 && |l.drawn| <= l.total)
    && (l.phase == Waiting ==> l.frame < l.total)
    && (l.phase == Finished ==> l.frame == l.total)
  }

  lemma IotaSnoc(m: nat)
    ensures Iota(m) + [m] == Iota(m + 1)
  {
  }

  /** Each loop step keeps the drawing discipline: a frame is drawn only
      after the previous frame's transition has ended, and frames are never
      skipped or repeated. */
  lemma LoopStepsOk(l: Loop, paused: bool)
    requires LoopOk(l)
    ensures LoopOk(Advance(l, paused)) && LoopOk(Resume(l)) && LoopOk(EndTransition(l)) && LoopOk(Cancel(l))
    ensures |Advance(l, paused).drawn| <= |l.drawn| + 1
  {
    IotaSnoc(l.frame);
  }

  /** Only the newest loop is live, and the stored resolver, if any, belongs
      to it and it is parked. */
  predicate Inv(p: Player) {
    && (forall i :: 0 <= i < |p.loops| ==> LoopOk(p.loops[i]))
    && (forall i :: 0 <= i < |p.loops| - 1 ==> !Live(p.loops[i]))
    && (p.current.Some? ==> p.current.value == |p.loops| - 1 && p.loops[p.current.value].phase == Waiting)
  }

  lemma EmptyInv()
    ensures Inv(Empty())
  {
  }

  /** Every event keeps the invariant. */
  lemma StepInv(p: Player, e: Event)
    requires Inv(p)
    ensures Inv(Step(p, e))
  {
    match e
    case Continue(l) => ContinueInv(p, l);
    case TransitionEnd(l) => TransitionEndInv(p, l);
    case PauseClick =>
      if p.paused && p.current.Some? {
        LoopStepsOk(p.loops[p.current.value], p.paused);
      }
    case Load(total) => ReloadInv(p, total);
    case Restart(total) => ReloadInv(p.(paused := false), total);
  }

  lemma ContinueInv(p: Player, l: nat)
    requires Inv(p)
    ensures Inv(Step(p, Continue(l)))
  {
    if l < |p.loops| {
      LoopStepsOk(p.loops[l], p.paused);
    }
  }

  lemma TransitionEndInv(p: Player, l: nat)
    requires Inv(p)
    ensures Inv(Step(p, TransitionEnd(l)))
  {
    if l < |p.loops| {
      LoopStepsOk(p.loops[l], p.paused);
    }
  }

  lemma ReloadInv(p: Player, total: nat)
    requires forall i :: 0 <= i < |p.loops| ==> LoopOk(p.loops[i])
    ensures Inv(Reload(p, total))
  {
    forall i | 0 <= i < |p.loops| ensures LoopOk(Cancel(p.loops[i])) {
      LoopStepsOk(p.loops[i], p.paused);
    }
  }

  /** Draws only ever come from the newest loop: no event changes what an
      older loop has drawn. */
  lemma OnlyNewestDraws(p: Player, e: Event, i: int)
    requires Inv(p) && 0 <= i < |p.loops| - 1
    ensures i < |Step(p, e).loops| && Step(p, e).loops[i].drawn == p.loops[i].drawn
  {
  }

  /** While paused no new frame starts: only the pause button (which resumes)
      and restart (which unpauses) can make a loop draw. This holds of the
      handlers as written as well as with cancelling reloads. */
  lemma PausedDrawsNothing(p: Player, e: Event, cancelling: bool, i: int)
    requires p.paused && !e.PauseClick? && !e.Restart?
    requires 0 <= i < |p.loops|
    ensures var q := StepWith(p, e, cancelling); i < |q.loops| && q.loops[i].drawn == p.loops[i].drawn
  {
  }

  /** Resuming calls the stored resolver once and clears the slot: exactly the
      parked loop, if there is one, draws its frame, and no other loop
      changes. */
  lemma ResumeOnce(p: Player, i: int)
    requires Inv(p) && p.paused && 0 <= i < |p.loops|
    ensures var q := Toggle(p);
      && !q.paused && q.current == None && |q.loops| == |p.loops|
      && (if p.current == Some(i)
          then q.loops[i].phase == Drawing && q.loops[i].drawn == p.loops[i].drawn + [p.loops[i].frame]
          else q.loops[i] == p.loops[i])
  {
  }

  /** The frame in flight is always awaited: nothing but the end of its own
      transition moves a drawing loop on. With the handlers as written this
      holds for every other event, reloads included; with cancelling reloads
      a reload cancels the loop instead. */
  lemma InFlightAwaited(p: Player, e: Event, cancelling: bool, i: int)
    requires 0 <= i < |p.loops| && p.loops[i].phase == Drawing
    requires e != TransitionEnd(i)
    ensures var q := StepWith(p, e, cancelling);
      && i < |q.loops|
      && (!cancelling || (!e.Load? && !e.Restart?) ==> q.loops[i] == p.loops[i])
      && (cancelling && (e.Load? || e.Restart?) ==> q.loops[i] == p.loops[i].(phase := Cancelled))
  {
  }

  // ---------------------------------------------------------------------
  // The uninterrupted run of `createChart`

  /** The events of an uninterrupted run of the newest loop `l` over `m`
      frames: let it run, end the transition, and so on. */
  function Schedule(l: nat, m: nat): (es: seq<Event>)
    ensures |es| == 2 * m
  {
    if m == 0 then [] else Schedule(l, m - 1) + [Continue(l), TransitionEnd(l)]
  }

  lemma {:induction false} RunAppend(p: Player, a: seq<Event>, b: seq<Event>)
    ensures Run(p, a + b) == Run(Run(p, a), b)
    decreases |a|
  {
    if |a| > 0 {
      assert (a + b)[0] == a[0];
      assert (a + b)[1..] == a[1..] + b;
      RunAppend(Step(p, a[0]), a[1..], b);
    } else {
      assert a + b == b;
    }
  }

  /** A loop that is never paused draws its keyframes strictly in order, one
      frame per transition, and finishes after the last one. */
  lemma UninterruptedRun(p: Player, total: nat)
    requires p.loops == [NewLoop(total)] && !p.paused && p.current == None
    ensures Run(p, Schedule(0, total) + [Continue(0)]) == Player([Loop(total, total, Finished, Iota(total))], false, None)
  {
    UninterruptedRunPrefix(p, total, total);
    RunAppend(p, Schedule(0, total), [Continue(0)]);
  }

  lemma {:induction false} UninterruptedRunPrefix(p: Player, total: nat, m: nat)
    requires p.loops == [NewLoop(total)] && !p.paused && p.current == None && m <= total
    ensures Run(p, Schedule(0, m)) == Player([Loop(total, m, Checking, Iota(m))], false, None)
  {
    if m > 0 {
      UninterruptedRunPrefix(p, total, m - 1);
      RunAppend(p, Schedule(0, m - 1), [Continue(0), TransitionEnd(0)]);
      IotaSnoc(m - 1);
      var mid := Run(p, Schedule(0, m - 1));
      assert Run(mid, [Continue(0), TransitionEnd(0)]) == Step(Step(mid, Continue(0)), TransitionEnd(0));
    }
  }

  // ---------------------------------------------------------------------
  // What a drawn frame shows

  /** `data.slice(0, n)`: the bars and labels drawn for a frame. */
  function Visible(f: Keyframe, n: nat): (vs: seq<Entry>)
    ensures |vs| == Min(n, |f.entries|) && vs == f.entries[..|vs|]
  {
    f.entries[..Min(n, |f.entries|)]
  }

  /** `x.domain([0, keyframe[1][0].value])`: the axis runs up to the top
      entry's value; a frame without entries has no top entry. */
  function AxisMax(f: Keyframe): (m: Option<real>)
    ensures m.Some? <==> |f.entries| > 0
  {
    if |f.entries| == 0 then None else Some(f.entries[0].value)
  }

  /** In a frame sorted by value the axis bound is the frame's largest value,
      so every bar fits. */
  lemma AxisFitsAll(f: Keyframe)
    requires |f.entries| > 0 && Descending(f.entries, Value)
    ensures AxisMax(f).Some?
    ensures forall e :: 0 <= e < |f.entries| ==> f.entries[e].value <= AxisMax(f).value
    ensures exists e :: 0 <= e < |f.entries| && f.entries[e].value == AxisMax(f).value
  {
    assert forall e :: 0 <= e < |f.entries| ==> Value(f.entries[0]) >= Value(f.entries[e]);
  }

  /** The visible bars of a ranked frame are exactly the entries ranked below
      `n`, top first. */
  lemma VisibleAreTopRanks(names: seq<string>, value: string -> real, n: nat, date: int)
    ensures var f := Keyframe(date, Rank(names, value, n));
      && (forall e :: 0 <= e < |Visible(f, n)| ==> Visible(f, n)[e].rank == e && e < n)
      && (forall e :: 0 <= e < |f.entries| ==> (f.entries[e] in Visible(f, n) <==> f.entries[e].rank < n))
  {
    var f := Keyframe(date, Rank(names, value, n));
    RankClamp(names, value, n);
    var vs := Visible(f, n);
    forall e | 0 <= e < |f.entries| ensures f.entries[e] in vs <==> f.entries[e].rank < n {
      if f.entries[e].rank < n {
        assert vs[e] == f.entries[e];
      }
      if f.entries[e] in vs {
        var v :| 0 <= v < |vs| && vs[v] == f.entries[e];
      }
    }
  }

  // ---------------------------------------------------------------------
  // Reloading without cancelling

  /** As the handlers are written, a reload leaves the previous loop running:
      after a restart during a frame's transition, the old chart's loop goes on
      to draw its next frame (updating the shared axis scale and statistics
      panel with the old state's data). */
  lemma StaleLoopDrawsAfterRestart()
    ensures var p0 := Player([Loop(3, 0, Drawing, [0])], false, None);
      var p1 := StepAsWritten(p0, Restart(5));
      var p2 := StepAsWritten(p1, TransitionEnd(0));
      var p3 := StepAsWritten(p2, Continue(0));
      && Inv(p0)
      && |p3.loops| == 2
      && p3.loops[0].drawn == [0, 1]
      && p3.loops[0].phase == Drawing
  {
    IotaSnoc(0);
  }

  /** As written, the resolver slot survives a restart: resuming the new chart
      after a pause calls the parked loop of the old chart instead. */
  lemma StaleResolverRevivesOldLoop()
    ensures var p0 := Player([Loop(3, 1, Waiting, [0])], true, Some(0));
      var p1 := StepAsWritten(p0, Restart(5));
      var p2 := StepAsWritten(p1, PauseClick);
      var p3 := StepAsWritten(p2, PauseClick);
      && Inv(p0)
      && p3.loops[0].phase == Drawing && p3.loops[0].drawn == [0, 1]
      && p3.loops[1] == NewLoop(5)
  {
    IotaSnoc(0);
    IotaSnoc(1);
  }
}
