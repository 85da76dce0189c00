/** `rank(value)` of the bar-chart race: every name gets its value, the list is
    sorted by value descending with JavaScript's stable sort, and the entry at
    position `i` gets rank `min(n, i)`, so that all entries past the visible
    `n` bars share the one off-chart rank `n`. */
module Ranking {
  import opened Seqs
  import opened Sorting

  /** `{name, value, rank}` */
  datatype Entry = Entry(name: string, value: real, rank: nat)

  /** The number of bars shown (`const n = 15`). */
  const VisibleBars: nat := 15

  function Value(e: Entry): real { e.value }

  function Min(a: int, b: int): int { if a <= b then a else b }

  function NamesOf(es: seq<Entry>): (ns: seq<string>)
    ensures |ns| == |es|
    ensures forall i :: 0 <= i < |es| ==> ns[i] == es[i].name
  {
    seq(|es|, i requires 0 <= i < |es| => es[i].name)
  }

  /** `Array.from(names, name => ({name, value: value(name)}))`, before ranks
      are assigned. */
  function Unranked(names: seq<string>, value: string -> real): (es: seq<Entry>)
    ensures |es| == |names|
    ensures forall i :: 0 <= i < |es| ==> es[i] == Entry(names[i], value(names[i]), 0)
  {
    seq(|names|, i requires 0 <= i < |names| => Entry(names[i], value(names[i]), 0))
  }

  /** The loop `data[i].rank = Math.min(n, i)`, starting at position `from`. */
  function AssignRanks(es: seq<Entry>, n: nat, from: nat): (r: seq<Entry>)
    ensures |r| == |es|
    ensures forall i :: 0 <= i < |es| ==>
      r[i].name == es[i].name && r[i].value == es[i].value && r[i].rank == Min(n, from + i)
  {
    if |es| == 0 then []
    else [es[0].(rank := Min(n, from))] + AssignRanks(es[1..], n, from + 1)
  }

  function Rank(names: seq<string>, value: string -> real, n: nat): (r: seq<Entry>)
    ensures |r| == |names|
    ensures Descending(r, Value)
  {
    var sorted := SortDesc(Unranked(names, value), Value);
    var r := AssignRanks(sorted, n, 0);
    assert forall i :: 0 <= i < |r| ==> Value(r[i]) == Value(sorted[i]);
    r
  }

  /** `rank` returns each name of `names` with its own value: every entry's
      name is one of `names`, every name has an entry, and distinct names give
      distinct entries (so each name of the set appears exactly once). */
  lemma RankEntries(names: seq<string>, value: string -> real, n: nat)
    ensures var r := Rank(names, value, n);
      && (forall i :: 0 <= i < |r| ==> r[i].name in names && r[i].value == value(r[i].name))
      && (forall i :: 0 <= i < |names| ==> names[i] in NamesOf(r))
      && (NoDuplicates(names) ==> NoDuplicates(NamesOf(r)))
  {
    var sorted := SortDesc(Unranked(names, value), Value);
    var r := AssignRanks(sorted, n, 0);
    assert Rank(names, value, n) == r;
    RankedEntriesFromNames(names, value, sorted);
    assert NamesOf(r) == NamesOf(sorted);
    forall i | 0 <= i < |r| ensures r[i].name in names && r[i].value == value(r[i].name) {
      assert r[i].name == sorted[i].name && r[i].value == sorted[i].value;
    }
  }

  /** What sorting the unranked list keeps: every entry comes from a name with
      that name's value, every name is still there, and distinct names stay
      distinct. */
  lemma RankedEntriesFromNames(names: seq<string>, value: string -> real, sorted: seq<Entry>)
    requires multiset(sorted) == multiset(Unranked(names, value))
    ensures forall i :: 0 <= i < |sorted| ==> sorted[i].name in names && sorted[i].value == value(sorted[i].name)
    ensures forall i :: 0 <= i < |names| ==> names[i] in NamesOf(sorted)
    ensures NoDuplicates(names) ==> NoDuplicates(NamesOf(sorted))
  {
    EntriesFromNames(names, value, sorted);
    NamesHaveEntries(names, value, sorted);
    if NoDuplicates(names) {
      DistinctEntryNames(names, value, sorted);
    }
  }

  lemma EntriesFromNames(names: seq<string>, value: string -> real, sorted: seq<Entry>)
    requires multiset(sorted) == multiset(Unranked(names, value))
    ensures forall i :: 0 <= i < |sorted| ==> sorted[i].name in names && sorted[i].value == value(sorted[i].name)
  {
    var u := Unranked(names, value);
    forall i | 0 <= i < |sorted|
      ensures sorted[i].name in names && sorted[i].value == value(sorted[i].name)
    {
      assert sorted[i] in multiset(u);
      var k :| 0 <= k < |u| && u[k] == sorted[i];
    }
  }

  lemma NamesHaveEntries(names: seq<string>, value: string -> real, sorted: seq<Entry>)
    requires multiset(sorted) == multiset(Unranked(names, value))
    ensures forall i :: 0 <= i < |names| ==> names[i] in NamesOf(sorted)
  {
    var u := Unranked(names, value);
    forall i | 0 <= i < |names| ensures names[i] in NamesOf(sorted) {
      assert u[i] in multiset(sorted);
      var k :| 0 <= k < |sorted| && sorted[k] == u[i];
      assert NamesOf(sorted)[k] == names[i];
    }
  }

  lemma DistinctEntryNames(names: seq<string>, value: string -> real, sorted: seq<Entry>)
    requires multiset(sorted) == multiset(Unranked(names, value))
    requires NoDuplicates(names)
    ensures NoDuplicates(NamesOf(sorted))
  {
    var u := Unranked(names, value);
    assert NoDuplicates(u);
    NoDuplicatesPermutation(u, sorted);
    forall i, j | 0 <= i < j < |sorted| ensures sorted[i].name != sorted[j].name {
      assert sorted[i] in multiset(u) && sorted[j] in multiset(u);
      var a :| 0 <= a < |u| && u[a] == sorted[i];
      var b :| 0 <= b < |u| && u[b] == sorted[j];
      assert a != b;
      assert names[a] != names[b];
    }
  }

  /** `rank` only looks at the values of the names it is given. */
  lemma RankSameValues(names: seq<string>, f: string -> real, g: string -> real, n: nat)
    requires forall i :: 0 <= i < |names| ==> f(names[i]) == g(names[i])
    ensures Rank(names, f, n) == Rank(names, g, n)
  {
    assert Unranked(names, f) == Unranked(names, g);
  }

  /** Rank is clamped at `n`, equals the position below `n`, and never
      decreases along the list. */
  lemma RankClamp(names: seq<string>, value: string -> real, n: nat)
    ensures var r := Rank(names, value, n);
      && (forall i :: 0 <= i < |r| ==> r[i].rank <= n)
      && (forall i :: 0 <= i < |r| && i < n ==> r[i].rank == i)
      && (forall i :: 0 <= i < |r| && i >= n ==> r[i].rank == n)
      && (forall i, j :: 0 <= i <= j < |r| ==> r[i].rank <= r[j].rank)
  {
  }

  /** The names whose value is exactly `v`, in the order of `names`. */
  function NamesWithValue(names: seq<string>, value: string -> real, v: real): seq<string> {
    if |names| == 0 then []
    else (if value(names[0]) == v then [names[0]] else []) + NamesWithValue(names[1..], value, v)
  }

  lemma {:induction false} NamesOfAppend(a: seq<Entry>, b: seq<Entry>)
    ensures NamesOf(a + b) == NamesOf(a) + NamesOf(b)
  {
  }

  lemma {:induction false} UnrankedWithKey(names: seq<string>, value: string -> real, v: real)
    ensures NamesOf(WithKey(Unranked(names, value), Value, v)) == NamesWithValue(names, value, v)
  {
    if |names| > 0 {
      var u := Unranked(names, value);
      assert u[1..] == Unranked(names[1..], value);
      UnrankedWithKey(names[1..], value, v);
      NamesOfAppend(if Value(u[0]) == v then [u[0]] else [], WithKey(u[1..], Value, v));
    }
  }

  lemma {:induction false} AssignRanksWithKey(es: seq<Entry>, n: nat, from: nat, v: real)
    ensures NamesOf(WithKey(AssignRanks(es, n, from), Value, v)) == NamesOf(WithKey(es, Value, v))
  {
    if |es| > 0 {
      var r := AssignRanks(es, n, from);
      assert r[1..] == AssignRanks(es[1..], n, from + 1);
      AssignRanksWithKey(es[1..], n, from + 1, v);
      NamesOfAppend(if Value(r[0]) == v then [r[0]] else [], WithKey(r[1..], Value, v));
      NamesOfAppend(if Value(es[0]) == v then [es[0]] else [], WithKey(es[1..], Value, v));
    }
  }

  /** Ties keep the insertion order of `names`: the names sharing any one
      value appear in the ranking in the same order as in `names`. */
  lemma RankStable(names: seq<string>, value: string -> real, n: nat, v: real)
    ensures NamesOf(WithKey(Rank(names, value, n), Value, v)) == NamesWithValue(names, value, v)
  {
    var u := Unranked(names, value);
    var sorted := SortDesc(u, Value);
    assert WithKey(sorted, Value, v) == WithKey(u, Value, v);
    AssignRanksWithKey(sorted, n, 0, v);
    UnrankedWithKey(names, value, v);
  }
}
