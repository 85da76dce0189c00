/** The first step of the bar-chart race: the CSV rows are reduced to one value
    per (date, name) and the resulting snapshots are ordered by date.

    `d3.rollup(data, ([d]) => d.value, d => +d.date, d => d.name)` keeps the
    value of the FIRST row of each group (the reducer destructures the group's
    first element); it does not add the group's values up. */
module Rollup {
  import opened Seqs
  import opened Sorting

  /** One CSV row after `d.value = +d.value` and `d.date = new Date(d.date)`:
      the date is the row's time in milliseconds since the epoch. */
  datatype Row = Row(date: int, name: string, value: real)

  /** The values of all names observed at one date. */
  datatype Snapshot = Snapshot(date: int, values: map<string, real>)

  /** Row `i` is the first row for (`date`, `name`). */
  predicate IsFirstRow(rows: seq<Row>, i: int, date: int, name: string) {
    && 0 <= i < |rows|
    && rows[i].date == date && rows[i].name == name
    && forall j :: 0 <= j < i ==> !(rows[j].date == date && rows[j].name == name)
  }

  /** `new Set(data.map(d => d.name))`: every name once, in order of first
      appearance. */
  function Names(rows: seq<Row>): (names: seq<string>)
    ensures NoDuplicates(names)
    ensures forall i :: 0 <= i < |rows| ==> rows[i].name in names
    ensures forall nm :: nm in names ==> exists i :: 0 <= i < |rows| && rows[i].name == nm
  {
    var column := seq(|rows|, i requires 0 <= i < |rows| => rows[i].name);
    var names := Distinct(column);
    assert forall i :: 0 <= i < |rows| ==> column[i] == rows[i].name;
    assert forall nm :: nm in names ==> exists i :: 0 <= i < |rows| && rows[i].name == nm by {
      forall nm | nm in names ensures exists i :: 0 <= i < |rows| && rows[i].name == nm {
        var k := IndexOf(column, nm);
        assert rows[k].name == nm;
      }
    }
    names
  }

  /** The nested map `date -> name -> value` built by the rollup. Rows are
      folded from the back, so the first row of a group is written last and
      its value is the one kept. */
  function Group(rows: seq<Row>): map<int, map<string, real>> {
    if |rows| == 0 then map[]
    else
      var rest := Group(rows[1..]);
      var r := rows[0];
      var inner := if r.date in rest then rest[r.date] else map[];
      rest[r.date := inner[r.name := r.value]]
  }

  /** The rollup has a group for every date of a row, and for no other date. */
  lemma {:induction false} GroupDates(rows: seq<Row>, d: int)
    ensures d in Group(rows) <==> exists i :: 0 <= i < |rows| && rows[i].date == d
  {
    if |rows| > 0 {
      GroupDates(rows[1..], d);
      if d in Group(rows[1..]) && d != rows[0].date {
        var i :| 0 <= i < |rows| - 1 && rows[1..][i].date == d;
        assert rows[i + 1].date == d;
      }
      if exists i :: 0 <= i < |rows| && rows[i].date == d {
        var i :| 0 <= i < |rows| && rows[i].date == d;
        if i > 0 {
          assert rows[1..][i - 1].date == d;
        }
      }
    }
  }

  /** Every row lands in the group of its date under its name. */
  lemma {:induction false} GroupCovers(rows: seq<Row>, i: int)
    requires 0 <= i < |rows|
    ensures rows[i].date in Group(rows) && rows[i].name in Group(rows)[rows[i].date]
  {
    if i > 0 {
      assert rows[1..][i - 1] == rows[i];
      GroupCovers(rows[1..], i - 1);
    }
  }

  /** Each (date, name) entry of the rollup holds the value of the first row
      with that date and name. */
  lemma {:induction false} GroupFirst(rows: seq<Row>, d: int, nm: string)
    requires d in Group(rows) && nm in Group(rows)[d]
    ensures exists i :: IsFirstRow(rows, i, d, nm) && Group(rows)[d][nm] == rows[i].value
  {
    var r := rows[0];
    if d == r.date && nm == r.name {
      assert IsFirstRow(rows, 0, d, nm);
    } else {
      var rest := Group(rows[1..]);
      assert d in rest && nm in rest[d];
      GroupFirst(rows[1..], d, nm);
      var i :| IsFirstRow(rows[1..], i, d, nm) && rest[d][nm] == rows[1..][i].value;
      assert IsFirstRow(rows, i + 1, d, nm);
    }
  }

  function DateColumn(rows: seq<Row>): (column: seq<int>)
    ensures |column| == |rows|
    ensures forall i :: 0 <= i < |rows| ==> column[i] == rows[i].date
  {
    seq(|rows|, i requires 0 <= i < |rows| => rows[i].date)
  }

  lemma DatesCover(rows: seq<Row>, sorted: seq<int>)
    requires forall x :: x in sorted <==> x in DateColumn(rows)
    ensures forall i :: 0 <= i < |rows| ==> rows[i].date in sorted
    ensures forall k :: 0 <= k < |sorted| ==> exists i :: 0 <= i < |rows| && rows[i].date == sorted[k]
  {
    var column := DateColumn(rows);
    forall i | 0 <= i < |rows| ensures rows[i].date in sorted {
      assert column[i] in column;
    }
    forall k | 0 <= k < |sorted| ensures exists i :: 0 <= i < |rows| && rows[i].date == sorted[k] {
      var x := sorted[k];
      assert x in sorted;
      assert x in column;
      var i := IndexOf(column, x);
      assert 0 <= i < |rows| && rows[i].date == x;
    }
  }

  /** A permutation of the distinct values of `column` holds exactly the
      values of `column`. */
  lemma DistinctMembers(column: seq<int>, sorted: seq<int>)
    requires multiset(sorted) == multiset(Distinct(column))
    ensures forall x :: x in sorted <==> x in column
  {
    var distinct := Distinct(column);
    forall x ensures x in sorted <==> x in column {
      assert x in sorted <==> x in multiset(sorted);
      assert x in distinct <==> x in multiset(distinct);
      if x in column {
        assert column[IndexOf(column, x)] in distinct;
      }
    }
  }

  function AsReal(d: int): real { d as real }

  lemma StrictlyAscending(s: seq<int>)
    requires Ascending(s, AsReal) && NoDuplicates(s)
    ensures forall i, j :: 0 <= i < j < |s| ==> s[i] < s[j]
  {
    forall i, j | 0 <= i < j < |s| ensures s[i] < s[j] {
      assert AsReal(s[i]) <= AsReal(s[j]);
    }
  }

  /** The dates that occur in `rows`, each once, ascending. */
  function Dates(rows: seq<Row>): (dates: seq<int>)
    ensures forall i, j :: 0 <= i < j < |dates| ==> dates[i] < dates[j]
    ensures forall i :: 0 <= i < |rows| ==> rows[i].date in dates
    ensures forall k :: 0 <= k < |dates| ==> exists i :: 0 <= i < |rows| && rows[i].date == dates[k]
  {
    var column := DateColumn(rows);
    var distinct := Distinct(column);
    var sorted := SortAsc(distinct, AsReal);
    NoDuplicatesPermutation(distinct, sorted);
    DistinctMembers(column, sorted);
    DatesCover(rows, sorted);
    StrictlyAscending(sorted);
    sorted
  }

  /** Pairs each date with its group, in the order of `dates`. */
  function Pair(dates: seq<int>, g: map<int, map<string, real>>): (snaps: seq<Snapshot>)
    requires forall k :: 0 <= k < |dates| ==> dates[k] in g
    ensures |snaps| == |dates|
    ensures forall j :: 0 <= j < |snaps| ==> snaps[j] == Snapshot(dates[j], g[dates[j]])
  {
    seq(|dates|, k requires 0 <= k < |dates| => Snapshot(dates[k], g[dates[k]]))
  }

  lemma DatesGrouped(rows: seq<Row>)
    ensures forall k :: 0 <= k < |Dates(rows)| ==> Dates(rows)[k] in Group(rows)
  {
    var dates := Dates(rows);
    forall k | 0 <= k < |dates| ensures dates[k] in Group(rows) {
      GroupDates(rows, dates[k]);
    }
  }

  /** The rollup's entries as snapshots sorted ascending by date. */
  function Snapshots(rows: seq<Row>): (snaps: seq<Snapshot>)
    ensures |snaps| == |Dates(rows)|
    ensures forall j :: 0 <= j < |snaps| ==> snaps[j].date == Dates(rows)[j]
    ensures forall j :: 0 <= j < |snaps| ==>
      snaps[j].date in Group(rows) && snaps[j].values == Group(rows)[snaps[j].date]
  {
    DatesGrouped(rows);
    Pair(Dates(rows), Group(rows))
  }

  /** A snapshot holds a name exactly when some row of its date has that
      name, and then the value of the first such row. */
  lemma SnapshotEntries(rows: seq<Row>, nm: string)
    ensures forall j :: 0 <= j < |Snapshots(rows)| ==>
      var s := Snapshots(rows)[j];
      && (nm in s.values <==> exists i :: 0 <= i < |rows| && rows[i].date == s.date && rows[i].name == nm)
      && (nm in s.values ==> exists i :: IsFirstRow(rows, i, s.date, nm) && s.values[nm] == rows[i].value)
  {
    forall j | 0 <= j < |Snapshots(rows)|
      ensures var s := Snapshots(rows)[j];
        && (nm in s.values <==> exists i :: 0 <= i < |rows| && rows[i].date == s.date && rows[i].name == nm)
        && (nm in s.values ==> exists i :: IsFirstRow(rows, i, s.date, nm) && s.values[nm] == rows[i].value)
    {
      var s := Snapshots(rows)[j];
      if nm in s.values {
        GroupFirst(rows, s.date, nm);
      }
      if exists i :: 0 <= i < |rows| && rows[i].date == s.date && rows[i].name == nm {
        var i :| 0 <= i < |rows| && rows[i].date == s.date && rows[i].name == nm;
        GroupCovers(rows, i);
      }
    }
  }

  function RowValue(r: Row): real { r.value }

  /** The state race first hands the parsed rows to its statistics panel,
      which sorts them in place by value, largest first (a stable sort), so the
      rollup then reads the rows in that order. The first row of a group is then
      the one with the largest value: each snapshot entry is the maximum of the
      group's values. */
  lemma ValueSortedRollupKeepsMax(rows: seq<Row>, nm: string)
    ensures forall j :: 0 <= j < |Snapshots(SortDesc(rows, RowValue))| ==>
      var s := Snapshots(SortDesc(rows, RowValue))[j];
      nm in s.values ==>
        && (forall i :: 0 <= i < |rows| && rows[i].date == s.date && rows[i].name == nm ==> rows[i].value <= s.values[nm])
        && (exists i :: 0 <= i < |rows| && rows[i].date == s.date && rows[i].name == nm && rows[i].value == s.values[nm])
  {
    var sorted := SortDesc(rows, RowValue);
    SnapshotEntries(sorted, nm);
    forall j | 0 <= j < |Snapshots(sorted)| && nm in Snapshots(sorted)[j].values
      ensures var s := Snapshots(sorted)[j];
        && (forall i :: 0 <= i < |rows| && rows[i].date == s.date && rows[i].name == nm ==> rows[i].value <= s.values[nm])
        && (exists i :: 0 <= i < |rows| && rows[i].date == s.date && rows[i].name == nm && rows[i].value == s.values[nm])
    {
      var s := Snapshots(sorted)[j];
      var f :| IsFirstRow(sorted, f, s.date, nm) && s.values[nm] == sorted[f].value;
      FirstOfSortedIsMax(rows, sorted, f, s.date, nm);
    }
  }

  /** In rows sorted by value, largest first, the first row of a group holds
      the group's largest value. */
  lemma FirstOfSortedIsMax(rows: seq<Row>, sorted: seq<Row>, f: int, d: int, nm: string)
    requires multiset(sorted) == multiset(rows) && Descending(sorted, RowValue)
    requires IsFirstRow(sorted, f, d, nm)
    ensures forall i :: 0 <= i < |rows| && rows[i].date == d && rows[i].name == nm ==> rows[i].value <= sorted[f].value
    ensures exists i :: 0 <= i < |rows| && rows[i].date == d && rows[i].name == nm && rows[i].value == sorted[f].value
  {
    forall i | 0 <= i < |rows| && rows[i].date == d && rows[i].name == nm
      ensures rows[i].value <= sorted[f].value
    {
      assert rows[i] in multiset(sorted);
      var m :| 0 <= m < |sorted| && sorted[m] == rows[i];
      assert f <= m;
      assert RowValue(sorted[f]) >= RowValue(sorted[m]);
    }
    assert sorted[f] in multiset(rows);
    var i :| 0 <= i < |rows| && rows[i] == sorted[f];
  }

  /** Two strictly increasing lists of dates with the same members are the
      same list. */
  lemma {:induction false} IncreasingUnique(a: seq<int>, b: seq<int>)
    requires forall i, j :: 0 <= i < j < |a| ==> a[i] < a[j]
    requires forall i, j :: 0 <= i < j < |b| ==> b[i] < b[j]
    requires forall x :: x in a <==> x in b
    ensures a == b
  {
    if |a| > 0 {
      assert a[0] in a;
    }
    if |b| > 0 {
      assert b[0] in b;
    }
    if |a| > 0 {
      assert a[0] in b && b[0] in a;
      var i :| 0 <= i < |b| && b[i] == a[0];
      var j :| 0 <= j < |a| && a[j] == b[0];
      assert a[0] <= a[j] && b[0] <= b[i];
      assert a[0] == b[0];
      forall x ensures x in a[1..] <==> x in b[1..] {
        if x in a[1..] {
          var k :| 1 <= k < |a| && a[k] == x;
          assert x > a[0] && x in b;
          var l :| 0 <= l < |b| && b[l] == x;
          assert l != 0;
          assert b[l] == b[1..][l - 1];
        }
        if x in b[1..] {
          var k :| 1 <= k < |b| && b[k] == x;
          assert x > b[0] && x in a;
          var l :| 0 <= l < |a| && a[l] == x;
          assert l != 0;
          assert a[l] == a[1..][l - 1];
        }
      }
      IncreasingUnique(a[1..], b[1..]);
      assert a == [a[0]] + a[1..] && b == [b[0]] + b[1..];
    }
  }

  /** Reordering the rows leaves the snapshot dates as they were. */
  lemma DatesOfPermutation(rows: seq<Row>, perm: seq<Row>)
    requires multiset(perm) == multiset(rows)
    ensures Dates(perm) == Dates(rows)
  {
    var a, b := Dates(perm), Dates(rows);
    forall x ensures x in a <==> x in b {
      if x in a {
        var k :| 0 <= k < |a| && a[k] == x;
        var i :| 0 <= i < |perm| && perm[i].date == a[k];
        assert perm[i] in multiset(rows);
        var j :| 0 <= j < |rows| && rows[j] == perm[i];
      }
      if x in b {
        var k :| 0 <= k < |b| && b[k] == x;
        var i :| 0 <= i < |rows| && rows[i].date == b[k];
        assert rows[i] in multiset(perm);
        var j :| 0 <= j < |perm| && perm[j] == rows[i];
      }
    }
    IncreasingUnique(a, b);
  }
}
