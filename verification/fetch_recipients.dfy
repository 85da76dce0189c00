/** The offline fetch script `fetchTopRecipients`: it requests up to five
    pages of 100 recipients of a state for one fiscal year, classifies each
    recipient by the first keyword of a fixed table found in its upper-cased
    name, and returns the 500 largest by rounded amount, ranked from 1.
    The HTTP request is a parameter `fetch` from page number to response;
    the pause between requests and the currency text are not modelled. */
module FetchRecipients {
  import opened Seqs
  import opened Sorting
  import opened Text

  const PageSize: nat := 100
  const TotalWanted: nat := 500
  /** `Math.ceil(TOTAL_WANTED / PAGE_SIZE)` */
  const MaxPages: nat := 5

  /** The keyword table, in declaration order. */
  const Categories: seq<(string, string)> := [
    ("LOCKHEED MARTIN", "Defense"),
    ("NORTHROP GRUMMAN", "Defense"),
    ("GENERAL DYNAMICS", "Defense"),
    ("RAYTHEON", "Defense"),
    ("BAE SYSTEMS", "Defense"),
    ("BOEING", "Defense"),
    ("L3HARRIS", "Defense"),
    ("BOOZ ALLEN", "Defense"),
    ("LEIDOS", "Defense"),
    ("MICROSOFT", "Technology"),
    ("AMAZON", "Technology"),
    ("GOOGLE", "Technology"),
    ("IBM", "Technology"),
    ("ORACLE", "Technology"),
    ("DELL", "Technology"),
    ("CISCO", "Technology"),
    ("JOHNS HOPKINS", "Healthcare"),
    ("KAISER", "Healthcare"),
    ("UNITED HEALTH", "Healthcare"),
    ("CVS", "Healthcare"),
    ("ANTHEM", "Healthcare"),
    ("UNIVERSITY", "Research & Education"),
    ("INSTITUTE", "Research & Education"),
    ("COLLEGE", "Research & Education"),
    ("LABORATORY", "Research & Education"),
    ("CONSTRUCTION", "Construction"),
    ("ENGINEERING", "Construction"),
    ("BUILDERS", "Construction"),
    ("ENERGY", "Energy"),
    ("POWER", "Energy"),
    ("ELECTRIC", "Energy"),
    ("SOLAR", "Energy"),
    ("NUCLEAR", "Energy")
  ]

  /** `determineCategory` */
  function DetermineCategory(name: string): (c: string)
    ensures (forall i :: 0 <= i < |Categories| ==> !Contains(Upper(name), Categories[i].0)) ==> c == "Other"
    ensures forall i :: FirstHit(Upper(name), Categories, i) ==> c == Categories[i].1
  {
    match FirstMatch(Upper(name), Categories)
    case Some(c) => c
    case None => "Other"
  }

  // ---------------------------------------------------------------------
  // Fiscal-year window

  /** A calendar date, compared field by field. */
  datatype Date = Date(year: int, month: int, day: int)

  predicate Leap(y: int) {
    y % 4 == 0 && (y % 100 != 0 || y % 400 == 0)
  }

  function DaysInMonth(y: int, m: int): int {
    if m == 2 then (if Leap(y) then 29 else 28)
    else if m == 4 || m == 6 || m == 9 || m == 11 then 30
    else 31
  }

  predicate ValidDate(d: Date) {
    1 <= d.month <= 12 && 1 <= d.day <= DaysInMonth(d.year, d.month)
  }

  predicate NotAfter(a: Date, b: Date) {
    a.year < b.year || (a.year == b.year && (a.month < b.month || (a.month == b.month && a.day <= b.day)))
  }

  /** The `time_period` of the request for fiscal year `fy`: from October
      1st of the year before to September 30th of `fy`. */
  function Window(fy: int): (Date, Date) {
    (Date(fy - 1, 10, 1), Date(fy, 9, 30))
  }

  /** The federal fiscal year a date falls in: it begins on October 1st. */
  function FiscalYearOf(d: Date): int {
    if d.month >= 10 then d.year + 1 else d.year
  }

  /** A date lies in the window of fiscal year `fy` exactly when it belongs
      to that fiscal year. */
  lemma WindowIsFiscalYear(fy: int, d: Date)
    requires ValidDate(d)
    ensures NotAfter(Window(fy).0, d) && NotAfter(d, Window(fy).1) <==> FiscalYearOf(d) == fy
  {
  }

  // ---------------------------------------------------------------------
  // Records

  /** One API result item; an absent text field is the empty string. */
  datatype ApiItem = ApiItem(name: string, recipientId: string, amount: real)

  datatype Record = Record(name: string, recipientId: string, amount: int, fiscalYear: int, state: string, category: string)

  /** `Math.round`: the nearest integer, halves rounded up. */
  function Round(x: real): (r: int)
    ensures r as real - 0.5 <= x < r as real + 0.5
  {
    (x + 0.5).Floor
  }

  /** The record of one result item, its category given by `classify`. */
  function ToRecord(it: ApiItem, fy: int, state: string, classify: string -> string): (r: Record)
    ensures r.name == (if it.name != "" then it.name else "Unknown")
    ensures r.recipientId == (if it.recipientId != "" then it.recipientId else "Unknown")
    ensures r.amount as real - 0.5 <= it.amount < r.amount as real + 0.5
    ensures r.category == classify(r.name)
  {
    var name := if it.name != "" then it.name else "Unknown";
    Record(name, if it.recipientId != "" then it.recipientId else "Unknown",
           Round(it.amount), fy, state, classify(name))
  }

  function ToRecords(its: seq<ApiItem>, fy: int, state: string, classify: string -> string): (rs: seq<Record>)
    ensures |rs| == |its| && forall i :: 0 <= i < |its| ==> rs[i] == ToRecord(its[i], fy, state, classify)
  {
    seq(|its|, i requires 0 <= i < |its| => ToRecord(its[i], fy, state, classify))
  }

  // ---------------------------------------------------------------------
  // Paging

  /** The outcome of one page request: a thrown error (network failure or a
      status that is not ok), or the page's items. */
  datatype PageResult = Failed | Page(items: seq<ApiItem>)

  /** A page that lets the loop go on to the next one. */
  predicate Full(r: PageResult) {
    r.Page? && |r.items| >= PageSize
  }

  /** The items of the pages the loop keeps, from page `page` on. Each
      page's items are turned into records as they arrive; since that mapping
      works item by item, mapping the collected items at the end gives the
      same records (`ToRecordsAppend`). */
  function Collected(fetch: nat -> PageResult, page: nat): seq<ApiItem>
    decreases MaxPages + 1 - page
  {
    if page > MaxPages then []
    else match fetch(page)
      case Failed => []
      case Page(items) =>
        if |items| == 0 then []
        else if |items| < PageSize then items
        else items + Collected(fetch, page + 1)
  }

  lemma ToRecordsAppend(a: seq<ApiItem>, b: seq<ApiItem>, fy: int, state: string, classify: string -> string)
    ensures ToRecords(a + b, fy, state, classify) == ToRecords(a, fy, state, classify) + ToRecords(b, fy, state, classify)
  {
  }

  /** The `while (currentPage <= MAX_PAGES)` loop. It returns the records
      collected and the number of pages it requested: at least one and at most
      five, every page but the last requested full, and the last one failed,
      empty or short unless the five-page bound stopped the loop. */
  method FetchPages(fetch: nat -> PageResult, fy: int, state: string, classify: string -> string) returns (all: seq<Record>, requested: nat)
    ensures 1 <= requested <= MaxPages
    ensures forall p :: 1 <= p < requested ==> Full(fetch(p))
    ensures requested < MaxPages ==> !Full(fetch(requested))
    ensures all == ToRecords(Collected(fetch, 1), fy, state, classify)
  {
    all := [];
    var taken: seq<ApiItem> := [];
    ghost var target := Collected(fetch, 1);
    var page: nat := 1;
    requested := 0;
    while page <= MaxPages
      invariant 1 <= page <= MaxPages + 1
      invariant requested == page - 1
      invariant forall p :: 1 <= p < page ==> Full(fetch(p))
      invariant taken + Collected(fetch, page) == target
      invariant all == ToRecords(taken, fy, state, classify)
      decreases MaxPages + 1 - page
    {
      requested := page;
      var res := fetch(page);
      if res.Failed? || |res.items| == 0 {
        CollectedStop(fetch, page);
        return;
      }
      ToRecordsAppend(taken, res.items, fy, state, classify);
      all := all + ToRecords(res.items, fy, state, classify);
      if |res.items| < PageSize {
        CollectedShort(fetch, page);
        taken := taken + res.items;
        return;
      }
      CollectedStep(fetch, page);
      AppendAssoc(taken, res.items, Collected(fetch, page + 1));
      taken := taken + res.items;
      page := page + 1;
    }
  }

  lemma CollectedStop(fetch: nat -> PageResult, page: nat)
    requires 1 <= page <= MaxPages
    requires fetch(page).Failed? || |fetch(page).items| == 0
    ensures Collected(fetch, page) == []
  {
  }

  lemma CollectedShort(fetch: nat -> PageResult, page: nat)
    requires 1 <= page <= MaxPages
    requires fetch(page).Page? && 0 < |fetch(page).items| < PageSize
    ensures Collected(fetch, page) == fetch(page).items
  {
  }

  lemma CollectedStep(fetch: nat -> PageResult, page: nat)
    requires 1 <= page <= MaxPages
    requires Full(fetch(page))
    ensures Collected(fetch, page) == fetch(page).items + Collected(fetch, page + 1)
  {
  }

  // ---------------------------------------------------------------------
  // Ranking

  datatype Ranked = Ranked(rank: nat, record: Record)

  function AmountKey(r: Record): real { r.amount as real }

  /** `topResults.map((result, index) => ({rank: index + 1, ...result}))` */
  function RankFromOne(rs: seq<Record>): (r: seq<Ranked>)
    ensures |r| == |rs| && forall i :: 0 <= i < |rs| ==> r[i] == Ranked(i + 1, rs[i])
  {
    seq(|rs|, i requires 0 <= i < |rs| => Ranked(i + 1, rs[i]))
  }

  function RecordsOf(r: seq<Ranked>): (rs: seq<Record>)
    ensures |rs| == |r| && forall i :: 0 <= i < |r| ==> rs[i] == r[i].record
  {
    seq(|r|, i requires 0 <= i < |r| => r[i].record)
  }

  /** Sort by amount descending, keep the first 500, rank from 1. */
  function RankTop(all: seq<Record>): seq<Ranked> {
    RankFromOne(Top(all, AmountKey, TotalWanted))
  }

  /** `fetchTopRecipients` */
  method FetchTopRecipients(fetch: nat -> PageResult, fy: int, state: string) returns (out: seq<Ranked>)
    ensures out == RankTop(ToRecords(Collected(fetch, 1), fy, state, DetermineCategory))
    ensures |out| <= TotalWanted
  {
    var all, _ := FetchPages(fetch, fy, state, DetermineCategory);
    out := RankTop(all);
  }

  /** The output holds the 500 largest amounts, or all when fewer were
      collected, in descending order of amount, ranked 1, 2, ... without gaps;
      every collected record left out has an amount no larger than the last
      one kept. */
  lemma RankTopSpec(all: seq<Record>)
    ensures var out := RankTop(all);
      && |out| == (if |all| <= TotalWanted then |all| else TotalWanted)
      && (forall i :: 0 <= i < |out| ==> out[i].rank == i + 1)
      && Descending(RecordsOf(out), AmountKey)
      && multiset(RecordsOf(out)) <= multiset(all)
      && (|out| > 0 ==> forall x :: x in multiset(all) - multiset(RecordsOf(out)) ==> x.amount <= out[|out| - 1].record.amount)
  {
    var top := Top(all, AmountKey, TotalWanted);
    TopIsTop(all, AmountKey, TotalWanted);
    RankedRecords(top);
  }

  lemma RankedRecords(rs: seq<Record>)
    ensures RecordsOf(RankFromOne(rs)) == rs
  {
  }

  /** Every page after the first is only requested after a full page, so at
      most five pages of at most `PageSize` items each are collected when the
      service keeps to the requested page size. */
  lemma {:induction false} CollectedBound(fetch: nat -> PageResult, page: nat)
    requires 1 <= page <= MaxPages + 1
    requires forall p :: fetch(p).Page? ==> |fetch(p).items| <= PageSize
    ensures |Collected(fetch, page)| <= PageSize * (MaxPages + 1 - page)
    decreases MaxPages + 1 - page
  {
    if page <= MaxPages {
      assert PageSize * (MaxPages + 1 - page) == PageSize + PageSize * (MaxPages - page);
      assert PageSize * (MaxPages - page) >= 0;
      if Full(fetch(page)) {
        CollectedBound(fetch, page + 1);
      }
    }
  }
}
