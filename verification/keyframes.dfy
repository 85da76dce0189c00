/** The keyframe builder of the bar-chart race. Between each pair of
    consecutive snapshots it makes `k` frames at `t = 0, 1/k, ..., (k-1)/k`,
    each frame ranking every name by its linearly interpolated value (a name
    missing from a snapshot counts as 0); after the last pair it appends the
    last snapshot itself, with its exact values. */
module Keyframes {
  import opened Seqs
  import opened Sorting
  import opened Rollup
  import opened Ranking

  /** Frames per pair of snapshots (`const k = 10`). */
  const FramesPerPair: nat := 10

  /** `[date, data]`: the frame's timestamp in milliseconds and the ranked
      entries of all names. */
  datatype Keyframe = Keyframe(date: int, entries: seq<Entry>)

  /** With fewer than two snapshots the race cannot be drawn: the builder
      reads a snapshot that does not exist (`b.get` on `undefined`), or, with
      no names at all, builds a single empty frame whose first entry the
      drawing then reads. The state page's loader shows an error message
      instead; on the root page the handler itself refers to a `container`
      declared inside the failed block, so nothing is shown. With no rows at
      all the statistics panel of the state race already fails on the
      missing top row. */
  datatype BuildError = NotEnoughSnapshots | NoRows

  /** `a.get(name) || 0` */
  function ValueIn(m: map<string, real>, name: string): real {
    if name in m then m[name] else 0.0
  }

  /** `a * (1 - t) + b * t` */
  function Lerp(a: real, b: real, t: real): real {
    a * (1.0 - t) + b * t
  }

  /** `new Date(x)` keeps the integral part of `x` (rounding toward zero). */
  function Trunc(x: real): int {
    if x >= 0.0 then x.Floor else -((-x).Floor)
  }

  /** The fraction `i / k` of frame `i` of a pair. */
  function Fraction(i: nat, k: nat): real
    requires i < k
  {
    i as real / k as real
  }

  /** The interpolated value function handed to `rank` for fraction `t`. */
  function Blend(a: Snapshot, b: Snapshot, t: real): string -> real {
    name => Lerp(ValueIn(a.values, name), ValueIn(b.values, name), t)
  }

  /** The value function handed to `rank` for the final frame. */
  function Exact(b: Snapshot): string -> real {
    name => ValueIn(b.values, name)
  }

  /** Frame `i` between snapshots `a` and `b`. */
  function Frame(a: Snapshot, b: Snapshot, i: nat, k: nat, names: seq<string>, n: nat): Keyframe
    requires i < k
  {
    var t := Fraction(i, k);
    Keyframe(Trunc(Lerp(a.date as real, b.date as real, t)), Rank(names, Blend(a, b, t), n))
  }

  /** The `k` frames of one pair. */
  function PairFrames(a: Snapshot, b: Snapshot, k: nat, names: seq<string>, n: nat): (fs: seq<Keyframe>)
    ensures |fs| == k
    ensures forall i :: 0 <= i < k ==> fs[i] == Frame(a, b, i, k, names, n)
  {
    seq(k, i requires 0 <= i < k => Frame(a, b, i, k, names, n))
  }

  /** `d3.pairs(xs)` with each pair of neighbours mapped to a run by `f`, the
      runs concatenated in order. */
  function FlatPairs<S, F>(xs: seq<S>, f: (S, S) -> seq<F>): seq<F>
    decreases |xs|
  {
    if |xs| < 2 then [] else f(xs[0], xs[1]) + FlatPairs(xs[1..], f)
  }

  /** The frames of all pairs `d3.pairs(datevalues)`, in order. */
  function Between(snaps: seq<Snapshot>, k: nat, names: seq<string>, n: nat): seq<Keyframe> {
    FlatPairs(snaps, (a, b) => PairFrames(a, b, k, names, n))
  }

  /** The last frame: the last snapshot with its exact values. */
  function Final(b: Snapshot, names: seq<string>, n: nat): Keyframe {
    Keyframe(b.date, Rank(names, Exact(b), n))
  }

  /** The keyframe list, or the error the loader reports. */
  function Build(snaps: seq<Snapshot>, k: nat, names: seq<string>, n: nat): Result<seq<Keyframe>, BuildError> {
    if |snaps| < 2 then Err(NotEnoughSnapshots)
    else Ok(Between(snaps, k, names, n) + [Final(snaps[|snaps| - 1], names, n)])
  }

  /** The whole pipeline of `loadStateData`: rollup, sort, interpolate. */
  function Race(rows: seq<Row>, k: nat, n: nat): Result<seq<Keyframe>, BuildError> {
    Build(Snapshots(rows), k, Names(rows), n)
  }

  // ---------------------------------------------------------------------
  // Count and position of the frames

  /** With runs of `k` each, `m` elements make `(m - 1) * k` in all. */
  lemma {:induction false} FlatPairsLength<S, F>(xs: seq<S>, f: (S, S) -> seq<F>, k: nat)
    requires |xs| >= 1
    requires forall a, b :: |f(a, b)| == k
    ensures |FlatPairs(xs, f)| == (|xs| - 1) * k
    decreases |xs|
  {
    if |xs| >= 2 {
      FlatPairsLength(xs[1..], f, k);
      assert (|xs| - 1) * k == (|xs| - 2) * k + k;
    }
  }

  /** With runs of `k` each, place `j * k + i` holds place `i` of the run of
      pair `j`. */
  lemma {:induction false} FlatPairsAt<S, F>(xs: seq<S>, f: (S, S) -> seq<F>, k: nat, j: nat, i: nat)
    requires forall a, b :: |f(a, b)| == k
    requires j + 1 < |xs| && i < k
    ensures 0 <= j * k && j * k + i < |FlatPairs(xs, f)|
    ensures FlatPairs(xs, f)[j * k + i] == f(xs[j], xs[j + 1])[i]
    decreases j
  {
    var head := f(xs[0], xs[1]);
    var rest := FlatPairs(xs[1..], f);
    if j > 0 {
      FlatPairsAt(xs[1..], f, k, j - 1, i);
      assert j * k + i == k + ((j - 1) * k + i);
      assert (head + rest)[k + ((j - 1) * k + i)] == rest[(j - 1) * k + i];
    }
  }

  lemma BetweenLength(snaps: seq<Snapshot>, k: nat, names: seq<string>, n: nat)
    requires |snaps| >= 1
    ensures |Between(snaps, k, names, n)| == (|snaps| - 1) * k
  {
    FlatPairsLength(snaps, (a, b) => PairFrames(a, b, k, names, n), k);
  }

  /** Frame `j * k + i` is frame `i` of the pair (`snaps[j]`, `snaps[j + 1]`). */
  lemma BetweenAt(snaps: seq<Snapshot>, k: nat, names: seq<string>, n: nat, j: nat, i: nat)
    requires j + 1 < |snaps| && i < k
    ensures 0 <= j * k && j * k + i < |Between(snaps, k, names, n)|
    ensures Between(snaps, k, names, n)[j * k + i] == Frame(snaps[j], snaps[j + 1], i, k, names, n)
  {
    FlatPairsAt(snaps, (a, b) => PairFrames(a, b, k, names, n), k, j, i);
  }

  /** The frame at `t = 0` of a pair is the first snapshot exactly: its own
      date and its own values. */
  lemma FrameAtZero(a: Snapshot, b: Snapshot, k: nat, names: seq<string>, n: nat)
    requires k > 0
    ensures Frame(a, b, 0, k, names, n) == Final(a, names, n)
  {
    assert Fraction(0, k) == 0.0;
    forall i | 0 <= i < |names| ensures Blend(a, b, 0.0)(names[i]) == Exact(a)(names[i]) {
    }
    RankSameValues(names, Blend(a, b, 0.0), Exact(a), n);
  }

  /** With m >= 2 snapshots there are (m - 1) * k + 1 keyframes, and the last
      one carries the last snapshot exactly. */
  lemma BuildShape(snaps: seq<Snapshot>, k: nat, names: seq<string>, n: nat)
    requires |snaps| >= 2
    ensures Build(snaps, k, names, n).Ok?
    ensures var fs := Build(snaps, k, names, n).value;
      && |fs| == (|snaps| - 1) * k + 1
      && fs[|fs| - 1] == Final(snaps[|snaps| - 1], names, n)
  {
    BetweenLength(snaps, k, names, n);
  }

  /** Keyframe `j * k` carries snapshot `j` exactly, so every snapshot is
      shown with its true values and date on its way through the race. */
  lemma BuildHitsSnapshots(snaps: seq<Snapshot>, k: nat, names: seq<string>, n: nat, j: nat)
    requires |snaps| >= 2 && k > 0 && j < |snaps|
    ensures Build(snaps, k, names, n).Ok?
    ensures 0 <= j * k < |Build(snaps, k, names, n).value|
    ensures Build(snaps, k, names, n).value[j * k] == Final(snaps[j], names, n)
  {
    var bet := Between(snaps, k, names, n);
    var last := Final(snaps[|snaps| - 1], names, n);
    assert Build(snaps, k, names, n).value == bet + [last];
    if j + 1 < |snaps| {
      BetweenHitsSnapshot(snaps, k, names, n, j);
    } else {
      BetweenLength(snaps, k, names, n);
      assert j == |snaps| - 1;
      assert j * k == |bet|;
    }
    HitAt(bet, last, j * k, Final(snaps[j], names, n));
  }

  lemma HitAt<F>(xs: seq<F>, last: F, p: int, target: F)
    requires (0 <= p < |xs| && xs[p] == target) || (p == |xs| && last == target)
    ensures 0 <= p < |xs + [last]| && (xs + [last])[p] == target
  {
  }

  lemma BetweenHitsSnapshot(snaps: seq<Snapshot>, k: nat, names: seq<string>, n: nat, j: nat)
    requires k > 0 && j + 1 < |snaps|
    ensures 0 <= j * k < |Between(snaps, k, names, n)|
    ensures Between(snaps, k, names, n)[j * k] == Final(snaps[j], names, n)
  {
    BetweenAt(snaps, k, names, n, j, 0);
    FrameAtZero(snaps[j], snaps[j + 1], k, names, n);
  }

  /** With fewer than two snapshots there are no keyframes: the error is
      reported. */
  lemma BuildNeedsTwo(snaps: seq<Snapshot>, k: nat, names: seq<string>, n: nat)
    ensures Build(snaps, k, names, n).Err? <==> |snaps| < 2
  {
  }

  // ---------------------------------------------------------------------
  // Interpolated values

  /** `t = i / k` lies in [0, 1). */
  lemma FractionRange(i: nat, k: nat)
    requires i < k
    ensures 0.0 <= Fraction(i, k) < 1.0
  {
  }

  /** An interpolated value lies between the two endpoint values. */
  lemma LerpBetween(a: real, b: real, t: real)
    requires 0.0 <= t <= 1.0
    ensures a <= b ==> a <= Lerp(a, b, t) <= b
    ensures b <= a ==> b <= Lerp(a, b, t) <= a
    ensures Lerp(a, b, 0.0) == a && Lerp(a, b, 1.0) == b
  {
    assert Lerp(a, b, t) == a + t * (b - a);
    if a <= b {
      ScaleBetween(b - a, t);
    } else {
      ScaleBetween(a - b, t);
    }
  }

  lemma ScaleBetween(d: real, t: real)
    requires 0.0 <= d && 0.0 <= t <= 1.0
    ensures 0.0 <= t * d <= d
  {
    assert d - t * d == (1.0 - t) * d;
  }

  /** Every value in frame `i` of a pair lies between the name's values in
      the two snapshots (0 when absent). */
  lemma FrameValuesBetween(a: Snapshot, b: Snapshot, i: nat, k: nat, names: seq<string>, n: nat, e: int)
    requires i < k
    requires 0 <= e < |Frame(a, b, i, k, names, n).entries|
    ensures var en := Frame(a, b, i, k, names, n).entries[e];
      var va := ValueIn(a.values, en.name);
      var vb := ValueIn(b.values, en.name);
      en.name in names
      && (va <= vb ==> va <= en.value <= vb)
      && (vb <= va ==> vb <= en.value <= va)
  {
    var t := Fraction(i, k);
    var es := Frame(a, b, i, k, names, n).entries;
    assert es == Rank(names, Blend(a, b, t), n);
    RankEntries(names, Blend(a, b, t), n);
    var en := es[e];
    assert en.name in names && en.value == Blend(a, b, t)(en.name);
    FractionRange(i, k);
    LerpBetween(ValueIn(a.values, en.name), ValueIn(b.values, en.name), t);
  }

  /** A name whose value is the same constant in both snapshots keeps exactly
      that value in every interpolated frame: repeated interpolation does not
      drift. */
  lemma ConstantStaysConstant(a: Snapshot, b: Snapshot, i: nat, k: nat, names: seq<string>, n: nat, e: int, c: real)
    requires i < k
    requires 0 <= e < |Frame(a, b, i, k, names, n).entries|
    requires ValueIn(a.values, Frame(a, b, i, k, names, n).entries[e].name) == c
    requires ValueIn(b.values, Frame(a, b, i, k, names, n).entries[e].name) == c
    ensures Frame(a, b, i, k, names, n).entries[e].value == c
  {
    var t := Fraction(i, k);
    RankEntries(names, Blend(a, b, t), n);
    assert c * (1.0 - t) + c * t == c;
  }

  // ---------------------------------------------------------------------
  // Every keyframe is a ranking of all names

  /** `es` ranks all of `names`: sorted by value descending, every name
      present, nothing else, and each name once when the names are distinct. */
  predicate RanksAll(es: seq<Entry>, names: seq<string>) {
    && |es| == |names|
    && Descending(es, Value)
    && (forall e :: 0 <= e < |es| ==> es[e].name in names)
    && (forall i :: 0 <= i < |names| ==> names[i] in NamesOf(es))
    && (NoDuplicates(names) ==> NoDuplicates(NamesOf(es)))
  }

  predicate AllRankAll(fs: seq<Keyframe>, names: seq<string>) {
    forall p :: 0 <= p < |fs| ==> RanksAll(fs[p].entries, names)
  }

  lemma RankRanksAll(names: seq<string>, value: string -> real, n: nat)
    ensures RanksAll(Rank(names, value, n), names)
  {
    RankEntries(names, value, n);
  }

  /** Every element of every run has property `p`, so every element of the
      concatenation has it. */
  lemma {:induction false} FlatPairsAll<S, F>(xs: seq<S>, f: (S, S) -> seq<F>, p: F -> bool)
    requires forall a, b, i :: 0 <= i < |f(a, b)| ==> p(f(a, b)[i])
    ensures forall q :: 0 <= q < |FlatPairs(xs, f)| ==> p(FlatPairs(xs, f)[q])
    decreases |xs|
  {
    if |xs| >= 2 {
      var head := f(xs[0], xs[1]);
      var rest := FlatPairs(xs[1..], f);
      FlatPairsAll(xs[1..], f, p);
      forall q | 0 <= q < |head + rest| ensures p((head + rest)[q]) {
        if q >= |head| {
          assert (head + rest)[q] == rest[q - |head|];
        }
      }
    }
  }

  lemma BetweenRanksAll(snaps: seq<Snapshot>, k: nat, names: seq<string>, n: nat)
    ensures AllRankAll(Between(snaps, k, names, n), names)
  {
    var f := (a, b) => PairFrames(a, b, k, names, n);
    var p := (fr: Keyframe) => RanksAll(fr.entries, names);
    forall a, b, i | 0 <= i < |f(a, b)| ensures p(f(a, b)[i]) {
      RankRanksAll(names, Blend(a, b, Fraction(i, k)), n);
    }
    FlatPairsAll(snaps, f, p);
  }

  lemma AllRankAllAppend(xs: seq<Keyframe>, ys: seq<Keyframe>, names: seq<string>)
    requires AllRankAll(xs, names) && AllRankAll(ys, names)
    ensures AllRankAll(xs + ys, names)
  {
    forall p | 0 <= p < |xs + ys| ensures RanksAll((xs + ys)[p].entries, names) {
      if p >= |xs| {
        assert (xs + ys)[p] == ys[p - |xs|];
      }
    }
  }

  /** The entries of every keyframe rank all the names. */
  lemma BuildRanksAll(snaps: seq<Snapshot>, k: nat, names: seq<string>, n: nat)
    requires |snaps| >= 2
    ensures AllRankAll(Build(snaps, k, names, n).value, names)
  {
    var bet := Between(snaps, k, names, n);
    var last := Final(snaps[|snaps| - 1], names, n);
    BetweenRanksAll(snaps, k, names, n);
    RankRanksAll(names, Exact(snaps[|snaps| - 1]), n);
    assert AllRankAll([last], names);
    AllRankAllAppend(bet, [last], names);
  }

  // ---------------------------------------------------------------------
  // Timestamps

  predicate DatesAscending(snaps: seq<Snapshot>) {
    forall i, j :: 0 <= i < j < |snaps| ==> snaps[i].date < snaps[j].date
  }

  predicate FramesNonDecreasing(fs: seq<Keyframe>) {
    forall p, q :: 0 <= p <= q < |fs| ==> fs[p].date <= fs[q].date
  }

  predicate DatesWithin(fs: seq<Keyframe>, lo: int, hi: int) {
    forall p :: 0 <= p < |fs| ==> lo <= fs[p].date <= hi
  }

  lemma TruncMonotone(x: real, y: real)
    requires x <= y
    ensures Trunc(x) <= Trunc(y)
  {
  }

  lemma TruncOfInt(d: int)
    ensures Trunc(d as real) == d
  {
  }

  /** For `a <= b` the interpolation grows with `t`. */
  lemma LerpMonotone(a: real, b: real, s: real, t: real)
    requires a <= b && s <= t
    ensures Lerp(a, b, s) <= Lerp(a, b, t)
  {
    assert Lerp(a, b, t) - Lerp(a, b, s) == (t - s) * (b - a);
  }

  /** Within a pair, the frame dates grow with `i` and stay between the two
      snapshots' dates. */
  lemma FrameDateStep(a: Snapshot, b: Snapshot, i: nat, k: nat, names: seq<string>, n: nat)
    requires a.date <= b.date && i < k
    ensures a.date <= Frame(a, b, i, k, names, n).date <= b.date
    ensures i + 1 < k ==> Frame(a, b, i, k, names, n).date <= Frame(a, b, i + 1, k, names, n).date
  {
    var da, db := a.date as real, b.date as real;
    FractionRange(i, k);
    LerpBetween(da, db, Fraction(i, k));
    TruncOfInt(a.date);
    TruncOfInt(b.date);
    TruncMonotone(da, Lerp(da, db, Fraction(i, k)));
    TruncMonotone(Lerp(da, db, Fraction(i, k)), db);
    if i + 1 < k {
      assert Fraction(i, k) <= Fraction(i + 1, k) by {
        assert Fraction(i + 1, k) - Fraction(i, k) == 1.0 / k as real;
      }
      LerpMonotone(da, db, Fraction(i, k), Fraction(i + 1, k));
      TruncMonotone(Lerp(da, db, Fraction(i, k)), Lerp(da, db, Fraction(i + 1, k)));
    }
  }

  lemma {:induction false} StepsToOrder(fs: seq<Keyframe>)
    requires forall p :: 0 <= p < |fs| - 1 ==> fs[p].date <= fs[p + 1].date
    ensures FramesNonDecreasing(fs)
  {
    if |fs| > 1 {
      StepsToOrder(fs[1..]);
      assert fs[1..][0] == fs[1];
      forall q | 0 < q < |fs| ensures fs[0].date <= fs[q].date {
        assert fs[1..][q - 1] == fs[q];
      }
    }
  }

  /** The frames of one pair run in time order from the first snapshot's date
      up to at most the second's. */
  lemma PairFramesOrdered(a: Snapshot, b: Snapshot, k: nat, names: seq<string>, n: nat)
    requires a.date <= b.date
    ensures FramesNonDecreasing(PairFrames(a, b, k, names, n))
    ensures DatesWithin(PairFrames(a, b, k, names, n), a.date, b.date)
  {
    var fs := PairFrames(a, b, k, names, n);
    forall p | 0 <= p < |fs| ensures a.date <= fs[p].date <= b.date {
      FrameDateStep(a, b, p, k, names, n);
    }
    forall p | 0 <= p < |fs| - 1 ensures fs[p].date <= fs[p + 1].date {
      FrameDateStep(a, b, p, k, names, n);
    }
    StepsToOrder(fs);
  }

  /** Two runs in time order, the first ending no later than the second
      starts, make one run in time order. */
  lemma OrderedAppend(xs: seq<Keyframe>, ys: seq<Keyframe>, mid: int)
    requires FramesNonDecreasing(xs) && FramesNonDecreasing(ys)
    requires forall p :: 0 <= p < |xs| ==> xs[p].date <= mid
    requires forall q :: 0 <= q < |ys| ==> mid <= ys[q].date
    ensures FramesNonDecreasing(xs + ys)
  {
    var zs := xs + ys;
    forall p, q | 0 <= p <= q < |zs| ensures zs[p].date <= zs[q].date {
      if q < |xs| {
        assert zs[p] == xs[p] && zs[q] == xs[q];
      } else if p >= |xs| {
        assert zs[p] == ys[p - |xs|] && zs[q] == ys[q - |xs|];
      } else {
        assert zs[p] == xs[p] && zs[q] == ys[q - |xs|];
      }
    }
  }

  predicate AtLeast(fs: seq<Keyframe>, lo: int) {
    forall p :: 0 <= p < |fs| ==> lo <= fs[p].date
  }

  lemma AtLeastAppend(xs: seq<Keyframe>, ys: seq<Keyframe>, lo: int, mid: int)
    requires AtLeast(xs, lo) && AtLeast(ys, mid) && lo <= mid
    ensures AtLeast(xs + ys, lo)
  {
    forall p | 0 <= p < |xs + ys| ensures lo <= (xs + ys)[p].date {
      if p >= |xs| {
        assert (xs + ys)[p] == ys[p - |xs|];
      }
    }
  }

  /** The frames from snapshot 0 on, the final frame included, run in time
      order and start no earlier than snapshot 0. */
  lemma {:induction false} TailOrdered(snaps: seq<Snapshot>, k: nat, names: seq<string>, n: nat)
    requires |snaps| >= 1 && DatesAscending(snaps)
    ensures FramesNonDecreasing(Between(snaps, k, names, n) + [Final(snaps[|snaps| - 1], names, n)])
    ensures AtLeast(Between(snaps, k, names, n) + [Final(snaps[|snaps| - 1], names, n)], snaps[0].date)
    decreases |snaps|
  {
    var last := Final(snaps[|snaps| - 1], names, n);
    if |snaps| == 1 {
      assert Between(snaps, k, names, n) + [last] == [last];
    } else {
      var rest := snaps[1..];
      var head := PairFrames(snaps[0], snaps[1], k, names, n);
      var bet := Between(rest, k, names, n);
      AscendingTail(snaps);
      assert rest[|rest| - 1] == snaps[|snaps| - 1];
      TailOrdered(rest, k, names, n);
      PairFramesOrdered(snaps[0], snaps[1], k, names, n);
      assert Between(snaps, k, names, n) == head + bet;
      AppendAssoc(head, bet, [last]);
      ConsOrdered(head, bet + [last], snaps[0].date, snaps[1].date);
    }
  }

  lemma AscendingTail(snaps: seq<Snapshot>)
    requires |snaps| >= 2 && DatesAscending(snaps)
    ensures DatesAscending(snaps[1..]) && snaps[1..][0] == snaps[1]
    ensures snaps[0].date <= snaps[1].date
  {
  }

  /** A run in time order within [lo, mid], followed by a run in time order
      from mid on, is a run in time order from lo on. */
  lemma ConsOrdered(xs: seq<Keyframe>, ys: seq<Keyframe>, lo: int, mid: int)
    requires FramesNonDecreasing(xs) && DatesWithin(xs, lo, mid)
    requires FramesNonDecreasing(ys) && AtLeast(ys, mid) && lo <= mid
    ensures FramesNonDecreasing(xs + ys) && AtLeast(xs + ys, lo)
  {
    OrderedAppend(xs, ys, mid);
    AtLeastAppend(xs, ys, lo, mid);
  }

  /** Keyframe timestamps never decrease when the snapshots are in ascending
      date order, as the rollup leaves them. */
  lemma BuildDatesNonDecreasing(snaps: seq<Snapshot>, k: nat, names: seq<string>, n: nat)
    requires |snaps| >= 2 && DatesAscending(snaps)
    ensures FramesNonDecreasing(Build(snaps, k, names, n).value)
  {
    TailOrdered(snaps, k, names, n);
  }

  /** `fs` is a race over `m` snapshot dates and `names`: (m - 1) * k + 1
      frames in time order, each ranking every name once. */
  predicate WellFormedRace(fs: seq<Keyframe>, m: nat, k: nat, names: seq<string>) {
    && |fs| == (m - 1) * k + 1
    && FramesNonDecreasing(fs)
    && AllRankAll(fs, names)
  }

  /** The outcome of building a race over `m` snapshot dates: an error
      exactly when there are fewer than two (and then `NotEnoughSnapshots`),
      otherwise a well formed race. */
  predicate RaceOutcome(r: Result<seq<Keyframe>, BuildError>, m: nat, k: nat, names: seq<string>) {
    && (r.Ok? <==> m >= 2)
    && (r.Err? ==> r.error == NotEnoughSnapshots)
    && (r.Ok? ==> WellFormedRace(r.value, m, k, names))
  }

  /** The race built from CSV rows is an error exactly when there are fewer
      than two dates, and otherwise well formed. On the root page an empty
      file first builds a single empty frame and fails only in the drawing,
      which the model folds into the same error. */
  lemma RaceShape(rows: seq<Row>, k: nat, n: nat)
    ensures RaceOutcome(Race(rows, k, n), |Dates(rows)|, k, Names(rows))
  {
    var snaps := Snapshots(rows);
    assert DatesAscending(snaps);
    BuildWellFormed(snaps, k, Names(rows), n);
  }

  /** Built from snapshots in ascending date order, the keyframes are an
      error exactly when there are fewer than two snapshots, and otherwise a
      well formed race. */
  lemma BuildWellFormed(snaps: seq<Snapshot>, k: nat, names: seq<string>, n: nat)
    requires DatesAscending(snaps)
    ensures RaceOutcome(Build(snaps, k, names, n), |snaps|, k, names)
  {
    if |snaps| >= 2 {
      BuildShape(snaps, k, names, n);
      BuildDatesNonDecreasing(snaps, k, names, n);
      BuildRanksAll(snaps, k, names, n);
    }
  }

  /** The race of one state's CSV file: the statistics panel first sorts the
      rows in place by value, largest first, so the rollup and the name set
      read them in that order. */
  function StateRace(rows: seq<Row>, k: nat, n: nat): Result<seq<Keyframe>, BuildError> {
    if |rows| == 0 then Err(NoRows) else Race(SortDesc(rows, RowValue), k, n)
  }

  /** The state race fails with `NoRows` exactly on an empty file. */
  lemma StateRaceNoRows(rows: seq<Row>, k: nat, n: nat)
    ensures StateRace(rows, k, n) == Err(NoRows) <==> |rows| == 0
  {
    if |rows| > 0 {
      RaceError(SortDesc(rows, RowValue), k, n);
    }
  }

  /** The race from rows never fails with `NoRows`. */
  lemma RaceError(rows: seq<Row>, k: nat, n: nat)
    ensures Race(rows, k, n) != Err(NoRows)
  {
  }

  /** A state race over a non-empty file has the outcome of the race over
      the value-sorted rows, whose snapshot entries are each group's largest
      value. */
  lemma StateRaceShape(rows: seq<Row>, k: nat, n: nat)
    requires |rows| > 0
    ensures RaceOutcome(StateRace(rows, k, n), |Dates(SortDesc(rows, RowValue))|, k, Names(SortDesc(rows, RowValue)))
  {
    var sorted := SortDesc(rows, RowValue);
    assert StateRace(rows, k, n) == Race(sorted, k, n);
    RaceShape(sorted, k, n);
  }

  /** The race a state's page builds: ten frames per pair of snapshots and
      fifteen visible bars. An empty file fails in the statistics panel, and
      a file with a single date fails in the builder. Otherwise there are ten
      frames for every pair of consecutive dates of the file and one closing
      frame, in time order. */
  function StatePage(rows: seq<Row>): (r: Result<seq<Keyframe>, BuildError>)
    ensures r == Err(NoRows) <==> |rows| == 0
    ensures r == Err(NotEnoughSnapshots) <==> |rows| > 0 && |Dates(rows)| < 2
    ensures r.Ok? ==> |r.value| == (|Dates(rows)| - 1) * FramesPerPair + 1 && FramesNonDecreasing(r.value)
  {
    StatePageErrors(rows);
    StatePageFrames(rows);
    StateRace(rows, FramesPerPair, VisibleBars)
  }

  lemma StatePageErrors(rows: seq<Row>)
    ensures var r := StateRace(rows, FramesPerPair, VisibleBars);
      && (r == Err(NoRows) <==> |rows| == 0)
      && (r == Err(NotEnoughSnapshots) <==> |rows| > 0 && |Dates(rows)| < 2)
  {
    StateRaceNoRows(rows, FramesPerPair, VisibleBars);
    if |rows| > 0 {
      StateRaceTooFew(rows, FramesPerPair, VisibleBars);
      DatesOfPermutation(rows, SortDesc(rows, RowValue));
    }
  }

  /** A non-empty state file fails in the builder exactly when its sorted
      rows have fewer than two dates. */
  lemma StateRaceTooFew(rows: seq<Row>, k: nat, n: nat)
    requires |rows| > 0
    ensures StateRace(rows, k, n) == Err(NotEnoughSnapshots) <==> |Dates(SortDesc(rows, RowValue))| < 2
  {
    StateRaceShape(rows, k, n);
  }

  lemma StatePageFrames(rows: seq<Row>)
    ensures var r := StateRace(rows, FramesPerPair, VisibleBars);
      r.Ok? ==> |r.value| == (|Dates(rows)| - 1) * FramesPerPair + 1 && FramesNonDecreasing(r.value)
  {
    var r := StateRace(rows, FramesPerPair, VisibleBars);
    if |rows| > 0 && r.Ok? {
      var sorted := SortDesc(rows, RowValue);
      DatesOfPermutation(rows, sorted);
      var m := |Dates(sorted)|;
      StateRaceShape(rows, FramesPerPair, VisibleBars);
      assert RaceOutcome(r, m, FramesPerPair, Names(sorted));
      assert WellFormedRace(r.value, m, FramesPerPair, Names(sorted));
      var len := |r.value|;
      assert len == (m - 1) * FramesPerPair + 1;
      SameFrameCount(len, m, |Dates(rows)|);
    }
  }

  lemma SameFrameCount(len: int, m: int, d: int)
    requires len == (m - 1) * FramesPerPair + 1 && m == d
    ensures len == (d - 1) * FramesPerPair + 1
  {
  }
}
