/** The data step of the bar-chart page (`processData` and the checks of
    `loadData`): for every fiscal year's API response, the items with a
    positive amount become bars, the largest `topN` of them are kept in
    descending order and ranked by position, and the yearly keyframes are
    ordered by year. Fetching the responses is an input. */
module BarChart {
  import opened Seqs
  import opened Sorting

  /** The number of bars kept per year (`DEFAULT_TOP_N`). */
  const DefaultTopN: nat := 10

  /** The category selector: the two listed options, and any other value. */
  datatype Category = AwardingAgency | Recipients | Unlisted

  /** One raw API item. A text field that is absent is the empty string (both
      are falsy); `amount` is `parseFloat` of the amount, `None` for NaN. */
  datatype ApiItem = ApiItem(name: string, agencyName: string, recipientName: string, amount: Option<real>)

  datatype FiscalYear = FiscalYear(year: int, yearLabel: string)

  /** One element of `Promise.all`'s result: the year, the response's
      `results` array (`None` when `data` or `data.results` is missing) and
      whether an error message came back. */
  datatype Response = Response(fy: FiscalYear, results: Option<seq<ApiItem>>, failed: bool)

  /** A bar before ranking. */
  datatype Item = Item(name: string, value: real, year: int, yearLabel: string)

  datatype Ranked = Ranked(item: Item, rank: nat)

  datatype Keyframe = Keyframe(year: int, yearLabel: string, items: seq<Ranked>)

  datatype LoadError =
    | NoData       // no response had a non-empty `results`
    | NoValidData  // responses had results, but no year kept a bar

  function ItemValue(x: Item): real { x.value }

  function FrameYear(k: Keyframe): real { k.year as real }

  /** JavaScript's `a || b` on strings. */
  function Or(a: string, b: string): string {
    if a != "" then a else b
  }

  /** `parseFloat(item.amount) || 0` */
  function AmountOf(it: ApiItem): real {
    match it.amount
    case Some(v) => v
    case None => 0.0
  }

  /** The bar of one API item, `None` when its amount is not positive. */
  function ToItem(cat: Category, fy: FiscalYear, it: ApiItem): (r: Option<Item>)
    ensures r.Some? <==> cat != Unlisted && AmountOf(it) > 0.0
    ensures r.Some? ==> r.value.value == AmountOf(it) && r.value.year == fy.year && r.value.yearLabel == fy.yearLabel
    ensures r.Some? && cat == AwardingAgency ==> r.value.name == Or(it.name, Or(it.agencyName, "Unknown Agency"))
    ensures r.Some? && cat == Recipients ==> r.value.name == Or(it.name, Or(it.recipientName, "Unknown Recipient"))
  {
    var (name, value) :=
      match cat
      case AwardingAgency => (Or(it.name, Or(it.agencyName, "Unknown Agency")), AmountOf(it))
      case Recipients => (Or(it.name, Or(it.recipientName, "Unknown Recipient")), AmountOf(it))
      case Unlisted => ("", 0.0);
    if value <= 0.0 then None else Some(Item(name, value, fy.year, fy.yearLabel))
  }

  /** `data.results.map(...).filter(item => item !== null)` */
  function ValidItems(cat: Category, fy: FiscalYear, its: seq<ApiItem>): (r: seq<Item>)
    ensures |r| <= |its|
    ensures forall x :: x in r ==> x.value > 0.0 && x.year == fy.year
    ensures forall x :: x in r <==> exists i :: 0 <= i < |its| && ToItem(cat, fy, its[i]) == Some(x)
  {
    FilterMap(its, it => ToItem(cat, fy, it))
  }

  /** The bars keep the items' order, which decides ties in the sort: one
      more item adds its bar at the end, or nothing. */
  lemma ValidItemsSnoc(cat: Category, fy: FiscalYear, its: seq<ApiItem>, it: ApiItem)
    ensures ValidItems(cat, fy, its + [it]) ==
      ValidItems(cat, fy, its) + (if ToItem(cat, fy, it).Some? then [ToItem(cat, fy, it).value] else [])
  {
    FilterMapSnoc(its, it, x => ToItem(cat, fy, x));
  }

  /** `topItems.forEach((item, i) => { item.rank = i; })` */
  function RankByPosition(xs: seq<Item>): (r: seq<Ranked>)
    ensures |r| == |xs|
    ensures forall i :: 0 <= i < |xs| ==> r[i] == Ranked(xs[i], i)
  {
    seq(|xs|, i requires 0 <= i < |xs| => Ranked(xs[i], i))
  }

  function ItemsOf(rs: seq<Ranked>): (xs: seq<Item>)
    ensures |xs| == |rs|
    ensures forall i :: 0 <= i < |rs| ==> xs[i] == rs[i].item
  {
    seq(|rs|, i requires 0 <= i < |rs| => rs[i].item)
  }

  function Min(a: int, b: int): int { if a <= b then a else b }

  /** `items.sort((a, b) => b.value - a.value).slice(0, topN)`, ranked. */
  function TopItems(xs: seq<Item>, topN: nat): seq<Ranked> {
    RankByPosition(Top(xs, ItemValue, topN))
  }

  /** The keyframe of one response, `None` when the year is skipped. */
  function YearFrame(cat: Category, topN: nat, resp: Response): Option<Keyframe> {
    if resp.failed || resp.results.None? || |resp.results.value| == 0 then None
    else
      var xs := ValidItems(cat, resp.fy, resp.results.value);
      if |xs| == 0 then None
      else Some(Keyframe(resp.fy.year, resp.fy.yearLabel, TopItems(xs, topN)))
  }

  /** The keyframes in response order, before the year sort. */
  function Collect(cat: Category, topN: nat, resps: seq<Response>): (r: seq<Keyframe>)
    ensures |r| <= |resps|
    ensures forall k :: k in r <==> exists i :: 0 <= i < |resps| && YearFrame(cat, topN, resps[i]) == Some(k)
  {
    FilterMap(resps, resp => YearFrame(cat, topN, resp))
  }

  /** `processData`. */
  function Keyframes(cat: Category, topN: nat, resps: seq<Response>): seq<Keyframe> {
    SortAsc(Collect(cat, topN, resps), FrameYear)
  }

  /** `results.some(...)` of `loadData`. */
  predicate HasData(resps: seq<Response>) {
    exists i :: 0 <= i < |resps| && resps[i].results.Some? && |resps[i].results.value| > 0
  }

  /** What `loadData` ends with: the keyframes, or the error it shows. */
  function Load(cat: Category, topN: nat, resps: seq<Response>): Result<seq<Keyframe>, LoadError> {
    if !HasData(resps) then Err(NoData)
    else
      var ks := Keyframes(cat, topN, resps);
      if |ks| == 0 then Err(NoValidData) else Ok(ks)
  }

  // ---------------------------------------------------------------------
  // Properties

  /** A year is skipped exactly when its fetch failed, it returned no
      results, or none of its items has a positive amount. */
  lemma YearFrameSkips(cat: Category, topN: nat, resp: Response)
    ensures YearFrame(cat, topN, resp).None? <==>
      || resp.failed || resp.results.None? || |resp.results.value| == 0
      || forall i :: 0 <= i < |resp.results.value| ==> ToItem(cat, resp.fy, resp.results.value[i]).None?
  {
    if !resp.failed && resp.results.Some? && |resp.results.value| > 0 {
      var xs := ValidItems(cat, resp.fy, resp.results.value);
      if |xs| > 0 {
        var i :| 0 <= i < |resp.results.value| && ToItem(cat, resp.fy, resp.results.value[i]) == Some(xs[0]);
      } else {
        forall i | 0 <= i < |resp.results.value|
          ensures ToItem(cat, resp.fy, resp.results.value[i]).None?
        {
          assert forall y :: ToItem(cat, resp.fy, resp.results.value[i]) == Some(y) ==> y in xs;
        }
      }
    }
  }

  /** The bars kept for a year are its `min(topN, valid)` largest, in
      descending order of value, ranked 0, 1, 2, ... without clamping: every
      valid item left out is no larger than the smallest one kept. */
  lemma TopItemsAreTop(xs: seq<Item>, topN: nat)
    ensures var r := TopItems(xs, topN);
      && |r| == Min(topN, |xs|)
      && (forall i :: 0 <= i < |r| ==> r[i].rank == i)
      && Descending(ItemsOf(r), ItemValue)
      && multiset(ItemsOf(r)) <= multiset(xs)
      && (|r| > 0 ==> forall x :: x in multiset(xs) - multiset(ItemsOf(r)) ==> x.value <= r[|r| - 1].item.value)
  {
    var t := Top(xs, ItemValue, topN);
    var r := TopItems(xs, topN);
    TopIsTop(xs, ItemValue, topN);
    assert r == RankByPosition(t);
    assert ItemsOf(r) == t;
    if |r| > 0 {
      assert r[|r| - 1].item == t[|t| - 1];
    }
  }

  /** `processData` keeps one keyframe for each year that is not skipped,
      and nothing else, ordered by year. */
  lemma {:induction false} KeyframesAreYearFrames(cat: Category, topN: nat, resps: seq<Response>)
    ensures Ascending(Keyframes(cat, topN, resps), FrameYear)
    ensures forall k :: k in Keyframes(cat, topN, resps) <==>
      exists i :: 0 <= i < |resps| && YearFrame(cat, topN, resps[i]) == Some(k)
  {
    var c := Collect(cat, topN, resps);
    var ks := Keyframes(cat, topN, resps);
    SameMembers(ks, c);
  }

  /** `loadData` fails with "no data" exactly when no response had results,
      and otherwise fails with "no valid data" exactly when every year was
      skipped. */
  lemma LoadOutcome(cat: Category, topN: nat, resps: seq<Response>)
    ensures Load(cat, topN, resps) == Err(NoData) <==> !HasData(resps)
    ensures Load(cat, topN, resps) == Err(NoValidData) <==>
      HasData(resps) && forall i :: 0 <= i < |resps| ==> YearFrame(cat, topN, resps[i]).None?
    ensures Load(cat, topN, resps).Ok? ==> Load(cat, topN, resps).value == Keyframes(cat, topN, resps)
  {
    KeyframesAreYearFrames(cat, topN, resps);
    var ks := Keyframes(cat, topN, resps);
    if HasData(resps) && |ks| > 0 {
      assert ks[0] in ks;
    }
    if exists i :: 0 <= i < |resps| && YearFrame(cat, topN, resps[i]).Some? {
      var i :| 0 <= i < |resps| && YearFrame(cat, topN, resps[i]).Some?;
      assert YearFrame(cat, topN, resps[i]).value in ks;
    }
  }

  /** A kept year holds at least one bar and at most `topN`. */
  lemma YearFrameBound(cat: Category, topN: nat, resp: Response)
    ensures YearFrame(cat, topN, resp).Some? ==>
      0 < |YearFrame(cat, topN, resp).value.items| <= topN || (topN == 0 && |YearFrame(cat, topN, resp).value.items| == 0)
  {
    if YearFrame(cat, topN, resp).Some? {
      TopItemsAreTop(ValidItems(cat, resp.fy, resp.results.value), topN);
    }
  }

  /** The chart's own load, with `DEFAULT_TOP_N` bars a year: every keyframe
      it draws holds between one and ten bars. */
  function DefaultLoad(cat: Category, resps: seq<Response>): (r: Result<seq<Keyframe>, LoadError>)
    ensures r.Ok? ==> forall f :: f in r.value ==> 0 < |f.items| <= DefaultTopN
  {
    var r := Load(cat, DefaultTopN, resps);
    KeyframesAreYearFrames(cat, DefaultTopN, resps);
    forall i | 0 <= i < |resps| ensures YearFrame(cat, DefaultTopN, resps[i]).Some? ==>
      0 < |YearFrame(cat, DefaultTopN, resps[i]).value.items| <= DefaultTopN {
      YearFrameBound(cat, DefaultTopN, resps[i]);
    }
    r
  }
}
