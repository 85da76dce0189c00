/** The playback controls of the bar-chart page: a cursor into the yearly
    keyframes and a playing flag. `play` starts from the cursor (from the
    beginning when the cursor is at or past the last keyframe), `animate`
    draws the cursor's keyframe and moves on one, re-arming a timer while
    keyframes remain, and `pause` stops and clears the timer. The timer firing
    is the explicit event `Tick`; drawing is recorded as the index drawn. */
module BarChartPlayer {
  import Seqs

  /** `frames` is the number of keyframes; `pending` says a timer is armed. */
  datatype Player = Player(frames: nat, cursor: nat, playing: bool, pending: bool)

  /** The state after an action and the keyframe indices it drew, in order. */
  datatype Out = Out(p: Player, drawn: seq<nat>)

  datatype Event =
    | Click          // the play/pause button
    | Replay         // the replay button
    | Tick           // the armed timer fires
    | Load(built: Seqs.Option<nat>)
      // `loadData` once its requests settle: `Some(n)` when `processData`
      // rebuilt `n` keyframes, `None` when no response had results and it
      // failed before rebuilding (the old keyframes stay)

  /** The state of a freshly constructed chart with `n` keyframes. */
  function Initial(n: nat): (p: Player)
    ensures Inv(p) && !p.playing && p.cursor == 0
  {
    Player(n, 0, false, false)
  }

  /** `pause()` */
  function Pause(p: Player): (r: Player)
    ensures !r.playing && !r.pending
    ensures r.frames == p.frames && r.cursor == p.cursor
  {
    p.(playing := false, pending := false)
  }

  /** `animate()`: while paused it does nothing; otherwise it draws the
      cursor's keyframe, moves the cursor on by one and stays playing exactly
      when keyframes remain. */
  function Animate(p: Player): (o: Out)
    ensures !p.playing ==> o == Out(p, [])
    ensures p.playing ==> o.drawn == [p.cursor] && o.p.cursor == p.cursor + 1 && o.p.frames == p.frames
    ensures p.playing ==> (o.p.playing <==> p.cursor + 1 < p.frames) && o.p.pending == o.p.playing
  {
    if !p.playing then Out(p, [])
    else
      var c := p.cursor + 1;
      if c < p.frames then Out(p.(cursor := c, pending := true), [p.cursor])
      else Out(Pause(p.(cursor := c)), [p.cursor])
  }

  /** `play()`: a no-op while playing; otherwise it draws the keyframe at the
      cursor, or the first one when the cursor is at or past the last. */
  function Play(p: Player): (o: Out)
    ensures p.playing ==> o == Out(p, [])
    ensures !p.playing ==> o.drawn == [if p.cursor + 1 >= p.frames then 0 else p.cursor]
  {
    if p.playing then Out(p, [])
    else
      var start := if p.cursor as int >= p.frames as int - 1 then 0 else p.cursor;
      Animate(p.(playing := true, cursor := start))
  }

  /** One event. Every event keeps the invariant; a tick while playing draws
      an existing keyframe and moves on by one, and a tick while paused does
      nothing. */
  function Step(p: Player, e: Event): (o: Out)
    ensures Inv(p) ==> Inv(o.p)
    ensures Inv(p) && e == Tick && p.playing ==>
      && o.drawn == [p.cursor] && p.cursor < p.frames
      && o.p.cursor == p.cursor + 1 && o.p.frames == p.frames
      && (o.p.playing <==> p.cursor + 1 < p.frames)
    ensures Inv(p) && e == Tick && !p.playing ==> o == Out(p, [])
    ensures e == Click && p.playing ==> o == Out(p.(playing := false, pending := false), [])
    ensures e.Load? ==> !o.p.playing && !o.p.pending && o.p.cursor == 0
    ensures e.Load? && e.built.Some? ==>
      o.p.frames == e.built.value && o.drawn == (if e.built.value > 0 then [0] else [])
    ensures e.Load? && e.built.None? ==> o.p.frames == p.frames && o.drawn == []
  {
    match e
    case Click => if p.playing then Out(Pause(p), []) else Play(p)
    case Replay => Play(p.(cursor := 0))
    case Tick => if p.pending then Animate(p.(pending := false)) else Out(p, [])
    case Load(built) =>
      var q := Pause(p).(cursor := 0);
      match built
      case None => Out(q, [])
      case Some(n) => Out(q.(frames := n), if n > 0 then [0] else [])
  }

  function Run(p: Player, es: seq<Event>): Out
    decreases |es|
  {
    if |es| == 0 then Out(p, [])
    else
      var o := Step(p, es[0]);
      var o2 := Run(o.p, es[1..]);
      Out(o2.p, o.drawn + o2.drawn)
  }

  function Ticks(m: nat): (es: seq<Event>)
    ensures |es| == m && forall i :: 0 <= i < m ==> es[i] == Tick
  {
    seq(m, i => Tick)
  }

  /** The indices `a`, `a + 1`, ..., `b - 1`. */
  function Range(a: nat, b: nat): (r: seq<nat>)
    ensures |r| == if a <= b then b - a else 0
    ensures forall i :: 0 <= i < |r| ==> r[i] == a + i
    decreases b - a
  {
    if a >= b then [] else [a] + Range(a + 1, b)
  }

  function Max(a: int, b: int): int { if a >= b then a else b }

  /** A timer is armed exactly while playing, and while playing the cursor
      names an existing keyframe. The cursor passes the end by at most one
      step, which `play` takes on an empty chart. */
  predicate Inv(p: Player) {
    && (p.playing <==> p.pending)
    && (p.playing ==> p.cursor < p.frames)
    && p.cursor <= Max(p.frames, 1)
  }

  // ---------------------------------------------------------------------
  // Properties

  lemma {:induction false} RunAppend(p: Player, a: seq<Event>, b: seq<Event>)
    ensures Run(p, a + b).p == Run(Run(p, a).p, b).p
    ensures Run(p, a + b).drawn == Run(p, a).drawn + Run(Run(p, a).p, b).drawn
    decreases |a|
  {
    if |a| == 0 {
      assert a + b == b;
    } else {
      var o := Step(p, a[0]);
      var ab := a + b;
      assert ab[0] == a[0];
      assert ab[1..] == a[1..] + b;
      var tail := Run(o.p, a[1..]);
      assert Run(p, ab) == Out(Run(o.p, ab[1..]).p, o.drawn + Run(o.p, ab[1..]).drawn);
      assert Run(p, a) == Out(tail.p, o.drawn + tail.drawn);
      RunAppend(o.p, a[1..], b);
      Seqs.AppendAssoc(o.drawn, tail.drawn, Run(tail.p, b).drawn);
    }
  }

  /** Left alone, a playing chart draws every remaining keyframe once, in
      order, and then stops at the end with no timer armed. */
  lemma {:induction false} TicksToEnd(p: Player)
    requires Inv(p) && p.playing
    ensures var o := Run(p, Ticks(p.frames - p.cursor));
      && o.drawn == Range(p.cursor, p.frames)
      && o.p == Player(p.frames, p.frames, false, false)
    decreases p.frames - p.cursor
  {
    var m := p.frames - p.cursor;
    var o := Step(p, Tick);
    assert Ticks(m)[0] == Tick && Ticks(m)[1..] == Ticks(m - 1);
    if p.cursor + 1 < p.frames {
      TicksToEnd(o.p);
    } else {
      assert Ticks(m - 1) == [];
    }
  }

  /** Pressing play on a paused chart with keyframes plays it through from
      the cursor (from the first keyframe when the cursor is at or past the
      last one) to the end, each keyframe once and in order. */
  lemma PlayThrough(p: Player)
    requires Inv(p) && !p.playing && p.frames > 0
    ensures var start := if p.cursor + 1 >= p.frames then 0 else p.cursor;
      var o := Run(p, [Click] + Ticks(p.frames - start - 1));
      && o.drawn == Range(start, p.frames)
      && o.p == Player(p.frames, p.frames, false, false)
  {
    var start := if p.cursor + 1 >= p.frames then 0 else p.cursor;
    var o := Step(p, Click);
    RunAppend(p, [Click], Ticks(p.frames - start - 1));
    assert [Click][1..] == [];
    if start + 1 < p.frames {
      TicksToEnd(o.p);
    }
  }

  /** The replay button on a paused chart plays every keyframe from the
      first. */
  lemma ReplayPlaysAll(p: Player)
    requires Inv(p) && !p.playing && p.frames > 0
    ensures var o := Run(p, [Replay] + Ticks(p.frames - 1));
      && o.drawn == Range(0, p.frames)
      && o.p == Player(p.frames, p.frames, false, false)
  {
    var q := p.(cursor := 0);
    assert Step(p, Replay) == Step(q, Click);
    RunAppend(p, [Replay], Ticks(p.frames - 1));
    RunAppend(q, [Click], Ticks(p.frames - 1));
    assert [Replay][1..] == [] && [Click][1..] == [];
    PlayThrough(q);
  }
}
