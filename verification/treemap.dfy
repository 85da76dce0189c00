/** The treemap page: for the selected year, the state's rows dated in that
    year are summed per recipient name, the totals are sorted descending and
    those below the threshold dropped, and the survivors become the leaves of
    a one-level hierarchy. Also the autoplay year counter that bounces between
    the slider's bounds, and the rule deciding whether a box shows its label.
    Loading the CSV file, the layout and the drawing are not modelled. */
module Treemap {
  import opened Seqs
  import opened Sorting
  import opened Text

  /** Totals below this are dropped (`countThreshold`). */
  const Threshold: real := 9000.0

  /** One CSV row, its value already converted by unary `+`. */
  datatype Row = Row(date: string, name: string, value: real)

  /** One aggregate `{Type, totalValue}`. */
  datatype Total = Total(name: string, total: real)

  /** One record of `hierarchyData`; `value` is absent on the root. */
  datatype Node = Node(id: string, parent: string, value: Option<real>)

  /** What the chart area shows after `processDataForYear`. */
  datatype View = NoDataMessage | Tree(nodes: seq<Node>)

  function TotalOf(t: Total): real { t.total }

  // ---------------------------------------------------------------------
  // Aggregation

  /** `data.filter(d => d.date.startsWith(year))` */
  function InYear(rows: seq<Row>, year: string): (r: seq<Row>)
    ensures forall x :: x in r <==> x in rows && StartsWith(x.date, year)
  {
    if |rows| == 0 then []
    else (if StartsWith(rows[0].date, year) then [rows[0]] else []) + InYear(rows[1..], year)
  }

  function RowNames(rows: seq<Row>): (ns: seq<string>)
    ensures |ns| == |rows| && forall i :: 0 <= i < |rows| ==> ns[i] == rows[i].name
  {
    seq(|rows|, i requires 0 <= i < |rows| => rows[i].name)
  }

  /** `d3.sum` of the values of the rows named `n`. */
  function NameSum(rows: seq<Row>, n: string): real {
    if |rows| == 0 then 0.0
    else NameSum(rows[..|rows| - 1], n) + (if rows[|rows| - 1].name == n then rows[|rows| - 1].value else 0.0)
  }

  /** The totals of the names `d`, in that order. */
  function TotalsOf(d: seq<string>, rows: seq<Row>): (ts: seq<Total>)
    ensures |ts| == |d| && forall i :: 0 <= i < |d| ==> ts[i] == Total(d[i], NameSum(rows, d[i]))
  {
    seq(|d|, i requires 0 <= i < |d| => Total(d[i], NameSum(rows, d[i])))
  }

  /** `d3.rollup(rows, sum, d => d.name)` as an array: one total per name, in
      order of the name's first row. */
  function Rollup(rows: seq<Row>): seq<Total> {
    TotalsOf(Distinct(RowNames(rows)), rows)
  }

  /** The totals that reach the threshold, order kept. */
  function AtThreshold(ts: seq<Total>): (r: seq<Total>)
    ensures forall x :: x in r <==> x in ts && x.total >= Threshold
    ensures |r| <= |ts|
  {
    if |ts| == 0 then []
    else (if ts[0].total >= Threshold then [ts[0]] else []) + AtThreshold(ts[1..])
  }

  /** `aggregated` after the sort and the threshold filter. */
  function Aggregate(rows: seq<Row>, year: string): seq<Total> {
    AtThreshold(SortDesc(Rollup(InYear(rows, year)), TotalOf))
  }

  function Leaves(ts: seq<Total>): (ns: seq<Node>)
    ensures |ns| == |ts| && forall i :: 0 <= i < |ts| ==> ns[i] == Node(ts[i].name, "root", Some(ts[i].total))
  {
    seq(|ts|, i requires 0 <= i < |ts| => Node(ts[i].name, "root", Some(ts[i].total)))
  }

  /** `processDataForYear(year)`: `None` while no data is loaded, when the
      function returns without touching the chart. */
  function ProcessYear(data: Option<seq<Row>>, year: string): Option<View> {
    match data
    case None => None
    case Some(rows) =>
      var kept := Aggregate(rows, year);
      if |kept| == 0 then Some(NoDataMessage)
      else Some(Tree([Node("root", "", None)] + Leaves(kept)))
  }

  // ---------------------------------------------------------------------
  // Properties of the aggregation

  /** The sum of the totals of the names `d`. */
  function SumNames(d: seq<string>, rows: seq<Row>): real {
    if |d| == 0 then 0.0 else SumNames(d[..|d| - 1], rows) + NameSum(rows, d[|d| - 1])
  }

  function SumTotals(ts: seq<Total>): real {
    if |ts| == 0 then 0.0 else SumTotals(ts[..|ts| - 1]) + ts[|ts| - 1].total
  }

  function SumValues(rows: seq<Row>): real {
    if |rows| == 0 then 0.0 else SumValues(rows[..|rows| - 1]) + rows[|rows| - 1].value
  }

  lemma {:induction false} NameSumAbsent(rows: seq<Row>, n: string)
    requires n !in RowNames(rows)
    ensures NameSum(rows, n) == 0.0
  {
    if |rows| > 0 {
      var init := rows[..|rows| - 1];
      assert RowNames(rows)[|rows| - 1] == rows[|rows| - 1].name;
      assert forall i :: 0 <= i < |init| ==> RowNames(init)[i] == RowNames(rows)[i];
      NameSumAbsent(init, n);
    }
  }

  /** Adding a row adds its value to the sum over distinct names exactly
      when its name is one of them. */
  lemma {:induction false} SumNamesSnoc(d: seq<string>, rows: seq<Row>, r: Row)
    requires NoDuplicates(d)
    ensures SumNames(d, rows + [r]) == SumNames(d, rows) + (if r.name in d then r.value else 0.0)
  {
    if |d| > 0 {
      var init := d[..|d| - 1];
      assert (rows + [r])[..|rows + [r]| - 1] == rows;
      assert NoDuplicates(init);
      SumNamesSnoc(init, rows, r);
      assert d == init + [d[|d| - 1]];
      assert r.name in d <==> r.name in init || r.name == d[|d| - 1];
      assert r.name == d[|d| - 1] ==> r.name !in init;
    }
  }

  /** Summing per name loses and duplicates nothing: the totals add up to the
      sum of all the rows' values. */
  lemma {:induction false} RollupConserves(rows: seq<Row>)
    ensures SumNames(Distinct(RowNames(rows)), rows) == SumValues(rows)
  {
    if |rows| > 0 {
      var init := rows[..|rows| - 1];
      var r := rows[|rows| - 1];
      assert rows == init + [r];
      assert RowNames(rows) == RowNames(init) + [r.name];
      assert RowNames(rows)[..|RowNames(rows)| - 1] == RowNames(init);
      var d := Distinct(RowNames(init));
      RollupConserves(init);
      SumNamesSnoc(d, init, r);
      assert SumValues(rows) == SumValues(init) + r.value;
      if r.name in d {
        assert Distinct(RowNames(rows)) == d;
        assert SumNames(d, rows) == SumValues(rows);
      } else {
        var e := d + [r.name];
        assert Distinct(RowNames(rows)) == e;
        assert r.name !in RowNames(init);
        NameSumAbsent(init, r.name);
        assert NameSum(rows, r.name) == r.value;
        assert e[..|e| - 1] == d;
        assert SumNames(e, rows) == SumNames(d, rows) + NameSum(rows, r.name);
        assert SumNames(e, rows) == SumValues(rows);
      }
    } else {
      assert RowNames(rows) == [];
    }
  }

  lemma {:induction false} SumTotalsOf(d: seq<string>, rows: seq<Row>)
    ensures SumTotals(TotalsOf(d, rows)) == SumNames(d, rows)
  {
    if |d| > 0 {
      var init := d[..|d| - 1];
      assert TotalsOf(d, rows)[..|d| - 1] == TotalsOf(init, rows);
      SumTotalsOf(init, rows);
    }
  }

  /** The rollup lists every name of the rows exactly once, with the sum of
      that name's values, and the totals add up to the sum of all values. */
  lemma RollupTotals(rows: seq<Row>)
    ensures var ts := Rollup(rows);
      && (forall i, j :: 0 <= i < j < |ts| ==> ts[i].name != ts[j].name)
      && (forall n :: n in RowNames(rows) <==> exists i :: 0 <= i < |ts| && ts[i].name == n)
      && (forall i :: 0 <= i < |ts| ==> ts[i].total == NameSum(rows, ts[i].name))
      && SumTotals(ts) == SumValues(rows)
  {
    RollupNames(rows);
    RollupConserves(rows);
    SumTotalsOf(Distinct(RowNames(rows)), rows);
  }

  lemma RollupNames(rows: seq<Row>)
    ensures var ts := Rollup(rows);
      && (forall i, j :: 0 <= i < j < |ts| ==> ts[i].name != ts[j].name)
      && (forall n :: n in RowNames(rows) <==> exists i :: 0 <= i < |ts| && ts[i].name == n)
  {
    var d := Distinct(RowNames(rows));
    var ts := Rollup(rows);
    forall n | n in RowNames(rows) ensures exists i :: 0 <= i < |ts| && ts[i].name == n {
      var k :| 0 <= k < |rows| && RowNames(rows)[k] == n;
      var i :| 0 <= i < |d| && d[i] == n;
      assert ts[i].name == n;
    }
  }

  /** In a sequence ordered by non-increasing total, so is the part kept. */
  lemma {:induction false} AtThresholdDescending(ts: seq<Total>)
    requires Descending(ts, TotalOf)
    ensures Descending(AtThreshold(ts), TotalOf)
  {
    if |ts| > 0 {
      var rest := AtThreshold(ts[1..]);
      assert Descending(ts[1..], TotalOf);
      AtThresholdDescending(ts[1..]);
      forall x | x in rest ensures TotalOf(x) <= TotalOf(ts[0]) {
        var j :| 0 <= j < |ts[1..]| && ts[1..][j] == x;
        assert ts[j + 1] == x;
      }
    }
  }

  lemma {:induction false} AtThresholdNoDuplicates(ts: seq<Total>)
    requires NoDuplicates(ts)
    ensures NoDuplicates(AtThreshold(ts))
  {
    if |ts| > 0 {
      assert NoDuplicates(ts[1..]);
      AtThresholdNoDuplicates(ts[1..]);
      assert ts[0] !in ts[1..];
    }
  }

  /** The rollup's entries are distinct, each determined by its name. */
  lemma RollupDistinct(ys: seq<Row>)
    ensures NoDuplicates(Rollup(ys))
    ensures forall x :: x in Rollup(ys) ==> x.total == NameSum(ys, x.name)
  {
    var ts := Rollup(ys);
    var d := Distinct(RowNames(ys));
    forall i, j | 0 <= i < j < |ts| ensures ts[i] != ts[j] {
      assert ts[i].name == d[i] && ts[j].name == d[j];
    }
  }

  /** The kept entries are exactly the rollup's entries reaching the
      threshold, without repetition, in descending order of total. */
  lemma KeptOfRollup(rows: seq<Row>, year: string)
    ensures var ts := Rollup(InYear(rows, year));
      var kept := Aggregate(rows, year);
      && Descending(kept, TotalOf)
      && NoDuplicates(kept)
      && forall x :: x in kept <==> x in ts && x.total >= Threshold
  {
    var ts := Rollup(InYear(rows, year));
    var s := SortDesc(ts, TotalOf);
    AtThresholdDescending(s);
    RollupDistinct(InYear(rows, year));
    NoDuplicatesPermutation(ts, s);
    AtThresholdNoDuplicates(s);
    forall x ensures x in s <==> x in ts {
      assert x in s <==> x in multiset(s);
      assert x in ts <==> x in multiset(ts);
    }
  }

  /** The chart's entries for a year: ordered by total descending, one per
      name, each name's total the sum of its rows of that year; a name is kept
      exactly when it has a row in the year and its total reaches 9000. */
  lemma AggregateSpec(rows: seq<Row>, year: string)
    ensures var ys := InYear(rows, year);
      var kept := Aggregate(rows, year);
      && Descending(kept, TotalOf)
      && (forall i, j :: 0 <= i < j < |kept| ==> kept[i].name != kept[j].name)
      && (forall i :: 0 <= i < |kept| ==> kept[i].total == NameSum(ys, kept[i].name) && kept[i].total >= Threshold)
      && (forall n :: (n in RowNames(ys) && NameSum(ys, n) >= Threshold) <==>
            exists i :: 0 <= i < |kept| && kept[i].name == n)
  {
    AggregateEntries(rows, year);
    AggregateNames(rows, year);
  }

  lemma AggregateEntries(rows: seq<Row>, year: string)
    ensures var ys := InYear(rows, year);
      var kept := Aggregate(rows, year);
      && Descending(kept, TotalOf)
      && (forall i, j :: 0 <= i < j < |kept| ==> kept[i].name != kept[j].name)
      && (forall i :: 0 <= i < |kept| ==> kept[i].total == NameSum(ys, kept[i].name) && kept[i].total >= Threshold)
  {
    var ys := InYear(rows, year);
    var ts := Rollup(ys);
    var kept := Aggregate(rows, year);
    KeptOfRollup(rows, year);
    RollupDistinct(ys);
    RollupNames(ys);
    KeptEntries(ys, ts, kept);
  }

  lemma AggregateNames(rows: seq<Row>, year: string)
    ensures var ys := InYear(rows, year);
      var kept := Aggregate(rows, year);
      forall n :: (n in RowNames(ys) && NameSum(ys, n) >= Threshold) <==>
        exists i :: 0 <= i < |kept| && kept[i].name == n
  {
    var ys := InYear(rows, year);
    var kept := Aggregate(rows, year);
    KeptOfRollup(rows, year);
    RollupDistinct(ys);
    RollupNames(ys);
    forall n ensures (n in RowNames(ys) && NameSum(ys, n) >= Threshold) <==>
      exists i :: 0 <= i < |kept| && kept[i].name == n
    {
      KeptName(ys, kept, n);
    }
  }

  /** Entries taken, without repeats, from totals with distinct names keep
      distinct names and their totals. */
  lemma KeptEntries(ys: seq<Row>, ts: seq<Total>, kept: seq<Total>)
    requires NoDuplicates(kept)
    requires forall x :: x in kept ==> x in ts
    requires forall i, j :: 0 <= i < j < |ts| ==> ts[i].name != ts[j].name
    requires forall x :: x in ts ==> x.total == NameSum(ys, x.name)
    ensures forall i, j :: 0 <= i < j < |kept| ==> kept[i].name != kept[j].name
    ensures forall i :: 0 <= i < |kept| ==> kept[i].total == NameSum(ys, kept[i].name)
  {
    forall i | 0 <= i < |kept| ensures kept[i].total == NameSum(ys, kept[i].name) {
      assert kept[i] in ts;
    }
    forall i, j | 0 <= i < j < |kept| ensures kept[i].name != kept[j].name {
      assert kept[i] in ts && kept[j] in ts;
      assert kept[i] != kept[j];
    }
  }

  lemma KeptName(ys: seq<Row>, kept: seq<Total>, n: string)
    requires forall x :: x in kept <==> x in Rollup(ys) && x.total >= Threshold
    requires forall m :: m in RowNames(ys) <==> exists i :: 0 <= i < |Rollup(ys)| && Rollup(ys)[i].name == m
    requires forall x :: x in Rollup(ys) ==> x.total == NameSum(ys, x.name)
    ensures (n in RowNames(ys) && NameSum(ys, n) >= Threshold) <==> exists i :: 0 <= i < |kept| && kept[i].name == n
  {
    var ts := Rollup(ys);
    if n in RowNames(ys) && NameSum(ys, n) >= Threshold {
      var i :| 0 <= i < |ts| && ts[i].name == n;
      assert ts[i] in kept;
      var k :| 0 <= k < |kept| && kept[k] == ts[i];
    }
    if exists i :: 0 <= i < |kept| && kept[i].name == n {
      var i :| 0 <= i < |kept| && kept[i].name == n;
      assert kept[i] in ts;
      var j :| 0 <= j < |ts| && ts[j] == kept[i];
    }
  }

  /** With no data loaded nothing changes; otherwise an empty aggregate gives
      the "No data available" message and anything else a hierarchy of one
      root and one leaf per entry, each leaf under the root with its total. */
  lemma ProcessYearView(data: Option<seq<Row>>, year: string)
    ensures ProcessYear(data, year).None? <==> data.None?
    ensures data.Some? && |Aggregate(data.value, year)| == 0 ==> ProcessYear(data, year) == Some(NoDataMessage)
    ensures data.Some? && |Aggregate(data.value, year)| > 0 ==>
      var kept := Aggregate(data.value, year);
      var v := ProcessYear(data, year);
      && v.Some? && v.value.Tree?
      && |v.value.nodes| == |kept| + 1
      && v.value.nodes[0] == Node("root", "", None)
      && forall i :: 0 <= i < |kept| ==> v.value.nodes[i + 1] == Node(kept[i].name, "root", Some(kept[i].total))
  {
    if data.Some? {
      var kept := Aggregate(data.value, year);
      if |kept| > 0 {
        var leaves := Leaves(kept);
        var ns := [Node("root", "", None)] + leaves;
        assert ProcessYear(data, year) == Some(Tree(ns));
        forall i | 0 <= i < |kept| ensures ns[i + 1] == Node(kept[i].name, "root", Some(kept[i].total)) {
          assert ns[i + 1] == leaves[i];
        }
      }
    }
  }

  // ---------------------------------------------------------------------
  // Labels

  /** The zoom handler's rule: a box shows its label when zoomed in more than
      twice, or when its zoomed width exceeds 80 and its zoomed height 30. */
  predicate LabelShown(scale: real, w: real, h: real) {
    scale > 2.0 || (w * scale > 80.0 && h * scale > 30.0)
  }

  /** A positive product above `c` stays above it when the factor `a` grows. */
  lemma ScaleUp(x: real, a: real, b: real, c: real)
    requires 0.0 < a <= b && x * a > c >= 0.0
    ensures x * b > c
  {
    assert x > 0.0;
    assert x * b == x * a + x * (b - a);
    assert x * (b - a) >= 0.0;
  }

  /** The rule applied when boxes are drawn is the zoom rule at scale 1, and
      zooming in never hides a label that was shown. */
  lemma LabelRule(scale: real, scale': real, w: real, h: real)
    requires 0.0 < scale <= scale'
    ensures LabelShown(1.0, w, h) <==> w > 80.0 && h > 30.0
    ensures LabelShown(scale, w, h) ==> LabelShown(scale', w, h)
  {
    if !(scale > 2.0) && w * scale > 80.0 && h * scale > 30.0 {
      ScaleUp(w, scale, scale', 80.0);
      ScaleUp(h, scale, scale', 30.0);
    }
  }

  // ---------------------------------------------------------------------
  // Autoplay

  /** The autoplay state: the slider's year, the step direction, and whether
      autoplay is on (it is switched off for two minutes after user input). */
  datatype Autoplay = Autoplay(year: int, direction: int, on: bool)

  /** One tick of the five-second interval over slider bounds `lo`..`hi`. */
  function AutoTick(a: Autoplay, lo: int, hi: int): (r: Autoplay)
    ensures !a.on ==> r == a
    ensures a.on && lo <= hi ==> lo <= r.year <= hi
  {
    if !a.on then a
    else
      var y := a.year + a.direction;
      if y >= hi then Autoplay(hi, -1, true)
      else if y <= lo then Autoplay(lo, 1, true)
      else a.(year := y)
  }

  /** User input: a year chosen on the slider, autoplay off. */
  function UserYear(a: Autoplay, y: int): Autoplay {
    Autoplay(y, a.direction, false)
  }

  function AutoRun(a: Autoplay, lo: int, hi: int, m: nat): Autoplay
    decreases m
  {
    if m == 0 then a else AutoRun(AutoTick(a, lo, hi), lo, hi, m - 1)
  }

  predicate AutoInv(a: Autoplay, lo: int, hi: int) {
    lo <= a.year <= hi && (a.direction == 1 || a.direction == -1)
  }

  /** A tick keeps the year within the slider's bounds and the direction a
      unit step. */
  lemma AutoTickInv(a: Autoplay, lo: int, hi: int)
    requires AutoInv(a, lo, hi)
    ensures AutoInv(AutoTick(a, lo, hi), lo, hi)
  {
  }

  /** Counting up from `y`, autoplay reaches the top bound after `hi - y`
      ticks and turns round. */
  lemma {:induction false} ClimbToTop(y: int, lo: int, hi: int)
    requires lo <= y < hi
    ensures AutoRun(Autoplay(y, 1, true), lo, hi, hi - y) == Autoplay(hi, -1, true)
    decreases hi - y
  {
    if y + 1 < hi {
      ClimbToTop(y + 1, lo, hi);
    }
  }

  /** Counting down from `y`, autoplay reaches the bottom bound after `y - lo`
      ticks and turns round. */
  lemma {:induction false} DescendToBottom(y: int, lo: int, hi: int)
    requires lo < y <= hi
    ensures AutoRun(Autoplay(y, -1, true), lo, hi, y - lo) == Autoplay(lo, 1, true)
    decreases y - lo
  {
    if y - 1 > lo {
      DescendToBottom(y - 1, lo, hi);
    }
  }

  lemma {:induction false} AutoRunAppend(a: Autoplay, lo: int, hi: int, m: nat, m': nat)
    ensures AutoRun(a, lo, hi, m + m') == AutoRun(AutoRun(a, lo, hi, m), lo, hi, m')
    decreases m
  {
    if m > 0 {
      AutoRunAppend(AutoTick(a, lo, hi), lo, hi, m - 1, m');
    }
  }

  /** Left on, autoplay sweeps from the bottom bound to the top one and back
      in `2 * (hi - lo)` ticks, ending where it began. */
  lemma Bounce(lo: int, hi: int)
    requires lo < hi
    ensures AutoRun(Autoplay(lo, 1, true), lo, hi, 2 * (hi - lo)) == Autoplay(lo, 1, true)
  {
    AutoRunAppend(Autoplay(lo, 1, true), lo, hi, hi - lo, hi - lo);
    ClimbToTop(lo, lo, hi);
    DescendToBottom(hi, lo, hi);
  }
}
