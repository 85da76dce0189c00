/** The offline step that turns the yearly recipient files of a state into
    the race's CSV file: every recipient name is normalised (title case, suffix
    removal, a table of well-known organisations, white-space and punctuation
    cleanup), every recipient becomes one row dated January 1st of its fiscal
    year, and each row is written as one comma-separated line.

    The regular-expression suffix removal is a parameter `strip`, and reading
    a year's file is a parameter `read`. */
module ProcessData {
  import opened Seqs
  import opened Text

  // ---------------------------------------------------------------------
  // Title case

  /** A word that is all lower case stays; any other keeps its first
      character and has the rest lower-cased. */
  function TitleWord(w: string): (r: string)
    ensures |r| == |w|
    ensures Lower(w) == w ==> r == w
    ensures |w| > 0 ==> r[0] == w[0]
    ensures forall i :: 1 <= i < |w| ==> r[i] == LowerChar(w[i])
  {
    if Lower(w) == w then w
    else if |w| == 0 then w
    else [w[0]] + Lower(w[1..])
  }

  function TitleWords(ws: seq<string>): (rs: seq<string>)
    ensures |rs| == |ws| && forall i :: 0 <= i < |ws| ==> rs[i] == TitleWord(ws[i])
  {
    seq(|ws|, i requires 0 <= i < |ws| => TitleWord(ws[i]))
  }

  /** `name.split(' ').map(...).join(' ')` */
  function TitleCase(name: string): string {
    Join(TitleWords(Split(name, ' ')), ' ')
  }

  lemma TitleWordNoSpace(w: string)
    requires ' ' !in w
    ensures ' ' !in TitleWord(w)
  {
    var r := TitleWord(w);
    forall i | 0 <= i < |r| ensures r[i] != ' ' {
      assert w[i] != ' ';
    }
  }

  /** Title-casing keeps the space-separated words, one for one, and changes
      each only as `TitleWord` says. */
  lemma TitleCaseWords(name: string)
    ensures |Split(TitleCase(name), ' ')| == |Split(name, ' ')|
    ensures forall i :: 0 <= i < |Split(name, ' ')| ==>
      Split(TitleCase(name), ' ')[i] == TitleWord(Split(name, ' ')[i])
  {
    var ws := Split(name, ' ');
    var ts := TitleWords(ws);
    forall i | 0 <= i < |ts| ensures ' ' !in ts[i] {
      TitleWordNoSpace(ws[i]);
    }
    SplitJoin(ts, ' ');
  }

  // ---------------------------------------------------------------------
  // Well-known organisations

  /** The table of well-known organisations, in declaration order: the first
      key contained in the upper-cased name decides. */
  const SpecialCases: seq<(string, string)> := [
    ("UNIVERSITY OF CALIFORNIA", "UC Regents"),
    ("CALIFORNIA INSTITUTE OF TECHNOLOGY", "Caltech"),
    ("THE LELAND STANFORD", "Stanford"),
    ("LAWRENCE LIVERMORE", "Lawrence Livermore"),
    ("HEALTH NET", "Health Net"),
    ("GENERAL ATOMICS", "General Atomics"),
    ("SPACE EXPLORATION", "SpaceX"),
    ("NORTHROP GRUMMAN", "Northrop Grumman"),
    ("LOCKHEED MARTIN", "Lockheed Martin"),
    ("BOOZ ALLEN", "Booz Allen"),
    ("NATIONAL STEEL AND SHIPBUILDING", "NASSCO"),
    ("THE AEROSPACE", "Aerospace"),
    ("THE BOEING", "Boeing"),
    ("QTC MEDICAL", "QTC Medical"),
    ("RAYTHEON", "Raytheon"),
    ("JOHNS HOPKINS", "Johns Hopkins"),
    ("UNIVERSITY OF MARYLAND", "UMD"),
    ("LEIDOS", "Leidos"),
    ("NAVAL SYSTEMS", "Naval Systems"),
    ("OPTUM PUBLIC SECTOR", "Optum"),
    ("TRIWEST HEALTHCARE", "TriWest"),
    ("ATLANTIC DIVING SUPPLY", "ADS"),
    ("HUNTINGTON INGALLS", "Huntington Ingalls"),
    ("GENERAL DYNAMICS INFORMATION", "GDIT"),
    ("SCIENCE APPLICATIONS INTERNATIONAL", "SAIC"),
    ("ACCENTURE", "Accenture Federal"),
    ("DELOITTE", "Deloitte"),
    ("CACI", "CACI"),
    ("THE MITRE", "MITRE"),
    ("CARAHSOFT", "Carahsoft"),
    ("MAXIMUS", "Maximus"),
    ("AMENTUM", "Amentum"),
    ("MANTECH", "ManTech"),
    ("PERATON", "Peraton"),
    ("CGI FEDERAL", "CGI Federal"),
    ("MINBURN", "Minburn")
  ]

  // ---------------------------------------------------------------------
  // Cleanup

  /** `s.replace(/\s+/g, ' ')`: every run of white space becomes one space.
      `afterSpace` says a run was just replaced. */
  function Collapse(s: string, afterSpace: bool): (r: string)
    ensures NonSpace(r) == NonSpace(s)
    ensures forall i :: 0 <= i < |r| && IsSpace(r[i]) ==> r[i] == ' '
    ensures forall i :: 0 <= i < |r| - 1 ==> !(IsSpace(r[i]) && IsSpace(r[i + 1]))
    ensures afterSpace && |r| > 0 ==> !IsSpace(r[0])
    ensures |r| <= |s|
  {
    if |s| == 0 then ""
    else
      assert NonSpace(s) == (if IsSpace(s[0]) then "" else [s[0]]) + NonSpace(s[1..]);
      if IsSpace(s[0]) then
        if afterSpace then Collapse(s[1..], true)
        else
          var r := [' '] + Collapse(s[1..], true);
          assert r[1..] == Collapse(s[1..], true);
          r
      else
        var r := [s[0]] + Collapse(s[1..], false);
        assert r[1..] == Collapse(s[1..], false);
        r
  }

  function Pad(b: bool): string { if b then " " else "" }

  /** The words of `s` joined by single spaces, with one space in front when
      `s` starts with white space that does not continue a run already
      replaced, and one space at the end when white space follows the last
      word. */
  function Spaced(s: string, afterSpace: bool): string {
    Pad(!afterSpace && |s| > 0 && IsSpace(s[0])) + Join(Words(s), ' ') + Pad(|Words(s)| > 0 && IsSpace(s[|s| - 1]))
  }

  /** What `Collapse` turns the first character into. */
  function Head(c: char, afterSpace: bool): string {
    if IsSpace(c) then Pad(!afterSpace) else [c]
  }

  /** `Collapse` word by word: every run of white space between two words
      becomes exactly one space, and the words are kept as they are. */
  lemma {:induction false} CollapseWords(s: string, afterSpace: bool)
    ensures Collapse(s, afterSpace) ==
      Pad(!afterSpace && |s| > 0 && IsSpace(s[0])) + Join(Words(s), ' ') + Pad(|Words(s)| > 0 && IsSpace(s[|s| - 1]))
  {
    CollapseSpaced(s, afterSpace);
  }

  lemma {:induction false} CollapseSpaced(s: string, afterSpace: bool)
    ensures Collapse(s, afterSpace) == Spaced(s, afterSpace)
  {
    if |s| > 0 {
      CollapseSpaced(s[1..], IsSpace(s[0]));
      CollapseHead(s, afterSpace);
      SpacedStep(s, afterSpace);
    }
  }

  lemma CollapseHead(s: string, afterSpace: bool)
    requires |s| > 0
    ensures Collapse(s, afterSpace) == Head(s[0], afterSpace) + Collapse(s[1..], IsSpace(s[0]))
  {
  }

  lemma SpacedStep(s: string, afterSpace: bool)
    requires |s| > 0
    ensures Spaced(s, afterSpace) == Head(s[0], afterSpace) + Spaced(s[1..], IsSpace(s[0]))
  {
    var t := s[1..];
    if IsSpace(s[0]) {
      SpacedStepSpace(s, afterSpace);
    } else if |t| > 0 && IsSpace(t[0]) {
      SpacedStepWordEnd(s, afterSpace);
    } else if |t| > 0 {
      SpacedStepInWord(s, afterSpace);
    } else {
      assert Words(s) == [[s[0]]];
    }
  }

  lemma SpacedStepSpace(s: string, afterSpace: bool)
    requires |s| > 0 && IsSpace(s[0])
    ensures Spaced(s, afterSpace) == Head(s[0], afterSpace) + Spaced(s[1..], IsSpace(s[0]))
  {
    var t := s[1..];
    var wt := Words(t);
    assert Words(s) == wt;
    assert |wt| > 0 ==> |t| > 0 && s[|s| - 1] == t[|t| - 1];
    assert Spaced(s, afterSpace) == Pad(!afterSpace) + Join(wt, ' ') + Pad(|wt| > 0 && IsSpace(t[|t| - 1]));
    assert Spaced(t, true) == Join(wt, ' ') + Pad(|wt| > 0 && IsSpace(t[|t| - 1]));
  }

  lemma SpacedStepWordEnd(s: string, afterSpace: bool)
    requires |s| > 1 && !IsSpace(s[0]) && IsSpace(s[1])
    ensures Spaced(s, afterSpace) == Head(s[0], afterSpace) + Spaced(s[1..], IsSpace(s[0]))
  {
    var t := s[1..];
    var wt := Words(t);
    WordsNone(t);
    assert Words(s) == [[s[0]]] + wt;
    assert s[|s| - 1] == t[|t| - 1];
    JoinCons([s[0]], wt, ' ');
    if |wt| == 0 {
      assert IsSpace(t[|t| - 1]);
      assert Spaced(s, afterSpace) == [s[0]] + " ";
      assert Spaced(t, false) == " ";
    } else {
      assert Spaced(s, afterSpace) == [s[0]] + " " + Join(wt, ' ') + Pad(IsSpace(t[|t| - 1]));
      assert Spaced(t, false) == " " + Join(wt, ' ') + Pad(IsSpace(t[|t| - 1]));
    }
  }

  lemma SpacedStepInWord(s: string, afterSpace: bool)
    requires |s| > 1 && !IsSpace(s[0]) && !IsSpace(s[1])
    ensures Spaced(s, afterSpace) == Head(s[0], afterSpace) + Spaced(s[1..], IsSpace(s[0]))
  {
    var t := s[1..];
    var wt := Words(t);
    assert |wt| > 0;
    assert Words(s) == [[s[0]] + wt[0]] + wt[1..];
    assert s[|s| - 1] == t[|t| - 1];
    JoinFirst(s[0], wt, ' ');
    assert Spaced(s, afterSpace) == [s[0]] + Join(wt, ' ') + Pad(IsSpace(t[|t| - 1]));
    assert Spaced(t, false) == Join(wt, ' ') + Pad(IsSpace(t[|t| - 1]));
  }

  /** `s.replace(/[,.]$/, '')`: one trailing comma or period goes. */
  function DropTrailingMark(s: string): (r: string)
    ensures |s| > 0 && (s[|s| - 1] == ',' || s[|s| - 1] == '.') ==> r == s[..|s| - 1]
    ensures !(|s| > 0 && (s[|s| - 1] == ',' || s[|s| - 1] == '.')) ==> r == s
  {
    if |s| > 0 && (s[|s| - 1] == ',' || s[|s| - 1] == '.') then s[..|s| - 1] else s
  }

  /** The single-space, trimmed form of a name. */
  predicate Clean(s: string) {
    && (|s| > 0 ==> !IsSpace(s[0]))
    && (forall i :: 0 <= i < |s| && IsSpace(s[i]) ==> s[i] == ' ')
    && (forall i :: 0 <= i < |s| - 1 ==> !(IsSpace(s[i]) && IsSpace(s[i + 1])))
  }

  lemma CleanInfix(s: string, r: string, k: int)
    requires OccursAt(s, r, k)
    requires forall i :: 0 <= i < |s| && IsSpace(s[i]) ==> s[i] == ' '
    requires forall i :: 0 <= i < |s| - 1 ==> !(IsSpace(s[i]) && IsSpace(s[i + 1]))
    requires |r| > 0 ==> !IsSpace(r[0])
    ensures Clean(r)
  {
    assert forall i :: 0 <= i < |r| ==> r[i] == s[k + i];
  }

  /** White space collapsed, the ends trimmed, one trailing mark dropped. */
  function Tidy(s: string): string {
    DropTrailingMark(Trim(Collapse(s, false)))
  }

  /** A tidied name has single spaces only and no leading white space, and
      keeps the non-space characters of the input except at most one trailing
      comma or period. Before the mark is dropped it is exactly the words of
      the input joined by single spaces, so it is trimmed at both ends. */
  lemma TidyClean(s: string)
    ensures Trim(Collapse(s, false)) == Join(Words(s), ' ')
    ensures Clean(Tidy(s))
    ensures || NonSpace(Tidy(s)) == NonSpace(s)
            || (|NonSpace(s)| > 0 && NonSpace(s)[|NonSpace(s)| - 1] in ",."
                && NonSpace(Tidy(s)) == NonSpace(s)[..|NonSpace(s)| - 1])
  {
    var c := Collapse(s, false);
    var t := Trim(c);
    TidyWords(s);
    TrimClean(c);
    DropMarkClean(t);
  }

  /** Collapsing and trimming leaves exactly the words of `s`, separated by
      single spaces; the tidied name is that with one trailing mark dropped. */
  lemma TidyWords(s: string)
    ensures Trim(Collapse(s, false)) == Join(Words(s), ' ')
    ensures Tidy(s) == DropTrailingMark(Join(Words(s), ' '))
  {
    CollapseSpaced(s, false);
    TrimSpaced(s);
  }

  lemma TrimSpaced(s: string)
    ensures Trim(Spaced(s, false)) == Join(Words(s), ' ')
  {
    var ws := Words(s);
    WordsShape(s);
    JoinEnds(ws, ' ');
    var l, t := Pad(|s| > 0 && IsSpace(s[0])), Pad(|ws| > 0 && IsSpace(s[|s| - 1]));
    assert forall i :: 0 <= i < |l| ==> IsSpace(l[i]);
    assert forall i :: 0 <= i < |t| ==> IsSpace(t[i]);
    TrimPadded(l, Join(ws, ' '), t);
  }

  /** The mark is dropped after trimming, so a mark standing alone after the
      last word leaves a trailing space. */
  lemma TidyKeepsSpaceBeforeMark(c: char)
    requires !IsSpace(c)
    ensures Tidy([c, ' ', '.']) == [c, ' ']
  {
    var s := [c, ' ', '.'];
    TidyWords(s);
    var t := s[1..];
    assert t == [' ', '.'] && t[1..] == ['.'] && t[1..][1..] == [];
    assert Words(['.']) == [['.']];
    assert Words(t) == [['.']];
    assert Words(s) == [[c], ['.']];
    JoinCons([c], [['.']], ' ');
    assert Join(Words(s), ' ') == s;
  }

  lemma TrimClean(c: string)
    requires forall i :: 0 <= i < |c| && IsSpace(c[i]) ==> c[i] == ' '
    requires forall i :: 0 <= i < |c| - 1 ==> !(IsSpace(c[i]) && IsSpace(c[i + 1]))
    ensures Clean(Trim(c))
  {
    var t := Trim(c);
    var k :| OccursAt(c, t, k);
    CleanInfix(c, t, k);
  }

  /** Dropping a trailing mark keeps a name clean and removes only that
      mark from its non-space characters. */
  lemma DropMarkClean(t: string)
    requires Clean(t)
    ensures Clean(DropTrailingMark(t))
    ensures || NonSpace(DropTrailingMark(t)) == NonSpace(t)
            || (|NonSpace(t)| > 0 && NonSpace(t)[|NonSpace(t)| - 1] in ",."
                && NonSpace(DropTrailingMark(t)) == NonSpace(t)[..|NonSpace(t)| - 1])
  {
    if |t| > 0 && (t[|t| - 1] == ',' || t[|t| - 1] == '.') {
      var r := t[..|t| - 1];
      var m := t[|t| - 1];
      assert t == r + [m];
      NonSpaceAppend(r, [m]);
      assert NonSpace([m]) == [m] by {
        assert !IsSpace(m);
        assert [m][1..] == [];
      }
      assert NonSpace(t) == NonSpace(r) + [m];
      assert NonSpace(t)[..|NonSpace(t)| - 1] == NonSpace(r);
      assert OccursAt(t, r, 0);
      CleanInfix(t, r, 0);
    }
  }

  /** `shortenCompanyName` of the data step. */
  function Normalize(name: string, strip: string -> string): string {
    var s := strip(TitleCase(name));
    match FirstMatch(Upper(s), SpecialCases)
    case Some(short) => short
    case None => Tidy(s)
  }

  /** A name matching a well-known organisation becomes that organisation's
      short name, the first matching key in table order deciding. */
  lemma NormalizeSpecial(name: string, strip: string -> string)
    ensures var s := strip(TitleCase(name));
      forall i :: 0 <= i < |SpecialCases| && Contains(Upper(s), SpecialCases[i].0) ==>
        exists j :: FirstHit(Upper(s), SpecialCases, j) && j <= i && Normalize(name, strip) == SpecialCases[j].1
  {
    var s := strip(TitleCase(name));
    var found := FirstMatch(Upper(s), SpecialCases);
    forall i | 0 <= i < |SpecialCases| && Contains(Upper(s), SpecialCases[i].0)
      ensures exists j :: FirstHit(Upper(s), SpecialCases, j) && j <= i && Normalize(name, strip) == SpecialCases[j].1
    {
      var j :| FirstHit(Upper(s), SpecialCases, j) && found.value == SpecialCases[j].1;
    }
  }

  /** A name matching no well-known organisation comes out with single
      spaces only and no leading white space, its non-space characters intact
      except at most one trailing comma or period. */
  lemma NormalizeCleanup(name: string, strip: string -> string)
    requires forall i :: 0 <= i < |SpecialCases| ==> !Contains(Upper(strip(TitleCase(name))), SpecialCases[i].0)
    ensures Normalize(name, strip) == Tidy(strip(TitleCase(name)))
    ensures var s := strip(TitleCase(name));
      var r := Normalize(name, strip);
      && Clean(r)
      && (|| NonSpace(r) == NonSpace(s)
          || (|NonSpace(s)| > 0 && NonSpace(s)[|NonSpace(s)| - 1] in ",." && NonSpace(r) == NonSpace(s)[..|NonSpace(s)| - 1]))
  {
    TidyClean(strip(TitleCase(name)));
  }

  // ---------------------------------------------------------------------
  // Rows of a state

  /** One recipient of a yearly file. */
  datatype Recipient = Recipient(name: string, amount: real)

  /** One row of the state's CSV data. */
  datatype StateRow = StateRow(date: string, name: string, value: real, category: string)

  const Years: seq<string> := ["2020", "2021", "2022", "2023", "2024"]
  const Category: string := "Federal Contracting"

  /** The row of one recipient of `year`'s file, its name given by `norm`. */
  function RowOf(year: string, rec: Recipient, norm: string -> string): StateRow {
    StateRow(year + "-01-01", norm(rec.name), rec.amount, Category)
  }

  function YearRows(year: string, recs: seq<Recipient>, norm: string -> string): (rows: seq<StateRow>)
    ensures |rows| == |recs|
    ensures forall i :: 0 <= i < |recs| ==> rows[i] == RowOf(year, recs[i], norm)
  {
    seq(|recs|, i requires 0 <= i < |recs| => RowOf(year, recs[i], norm))
  }

  /** The rows of each year's file, year by year. */
  function Rows(years: seq<string>, read: string -> seq<Recipient>, norm: string -> string): seq<StateRow> {
    if |years| == 0 then []
    else YearRows(years[0], read(years[0]), norm) + Rows(years[1..], read, norm)
  }

  /** The name normaliser of the data step, as a function value. */
  function Namer(strip: string -> string): string -> string {
    name => Normalize(name, strip)
  }

  /** `processStateData`. */
  function StateRows(years: seq<string>, read: string -> seq<Recipient>, strip: string -> string): seq<StateRow> {
    Rows(years, read, Namer(strip))
  }

  /** The number of rows contributed by the first `k` years. */
  function Offset(years: seq<string>, read: string -> seq<Recipient>, k: nat): nat
    requires k <= |years|
  {
    if k == 0 then 0 else |read(years[0])| + Offset(years[1..], read, k - 1)
  }

  lemma {:induction false} RowsLength(years: seq<string>, read: string -> seq<Recipient>, norm: string -> string)
    ensures |Rows(years, read, norm)| == Offset(years, read, |years|)
  {
    if |years| > 0 {
      RowsLength(years[1..], read, norm);
    }
  }

  lemma {:induction false} RowsLayout(years: seq<string>, read: string -> seq<Recipient>, norm: string -> string, k: nat, r: nat)
    requires k < |years| && r < |read(years[k])|
    ensures |Rows(years, read, norm)| == Offset(years, read, |years|)
    ensures Offset(years, read, k) + r < |Rows(years, read, norm)|
    ensures Rows(years, read, norm)[Offset(years, read, k) + r] == RowOf(years[k], read(years[k])[r], norm)
    decreases k
  {
    RowsLength(years, read, norm);
    var head := YearRows(years[0], read(years[0]), norm);
    var rest := Rows(years[1..], read, norm);
    assert Rows(years, read, norm) == head + rest;
    if k > 0 {
      RowsLayout(years[1..], read, norm, k - 1, r);
      assert years[1..][k - 1] == years[k];
      var o := Offset(years[1..], read, k - 1) + r;
      assert |head| == |read(years[0])|;
      assert Offset(years, read, k) == |read(years[0])| + Offset(years[1..], read, k - 1);
      assert (head + rest)[|head| + o] == rest[o];
    } else {
      assert (head + rest)[r] == head[r];
    }
  }

  /** The rows are exactly one per recipient, year by year in the given order
      and in file order within a year: recipient `r` of year `k` is row
      `Offset(k) + r`, dated January 1st of that year, with its normalised name,
      its amount and the fixed category. */
  lemma StateRowsLayout(years: seq<string>, read: string -> seq<Recipient>, strip: string -> string, k: nat, r: nat)
    requires k < |years| && r < |read(years[k])|
    ensures |StateRows(years, read, strip)| == Offset(years, read, |years|)
    ensures Offset(years, read, k) + r < |StateRows(years, read, strip)|
    ensures var rec := read(years[k])[r];
      StateRows(years, read, strip)[Offset(years, read, k) + r]
        == StateRow(years[k] + "-01-01", Normalize(rec.name, strip), rec.amount, Category)
  {
    RowsLayout(years, read, Namer(strip), k, r);
  }

  // ---------------------------------------------------------------------
  // CSV lines

  const Header: string := "date,name,category,value"

  /** Keeps every character but a comma. */
  function NotComma(c: char): Option<char> {
    if c == ',' then None else Some(c)
  }

  /** `s.replace(/,/g, '')`: every comma goes, and every other character
      stays, in order. */
  function RemoveCommas(s: string): (r: string)
    ensures r == FilterMap(s, NotComma)
    ensures ',' !in r
    ensures ',' !in s ==> r == s
    ensures |r| <= |s|
  {
    if |s| == 0 then ""
    else
      var rest := RemoveCommas(s[1..]);
      if s[0] == ',' then rest
      else
        assert s == [s[0]] + s[1..];
        [s[0]] + rest
  }

  /** One data line; `value` is the amount as JavaScript prints a number,
      which never holds a comma. */
  function CsvLine(row: StateRow, value: string): string {
    row.date + "," + RemoveCommas(row.name) + "," + row.category + "," + value
  }

  /** The header names four fields. */
  lemma HeaderFields()
    ensures Split(Header, ',') == ["date", "name", "category", "value"]
  {
    assert Header == "date" + "," + "name" + "," + "category" + "," + "value";
    FourFields("date", "name", "category", "value");
  }

  /** A data line splits into exactly the four fields date, comma-free name,
      category and value, whatever commas the name held. */
  lemma CsvFourFields(row: StateRow, value: string)
    requires ',' !in row.date && ',' !in row.category && ',' !in value
    ensures Split(CsvLine(row, value), ',') == [row.date, RemoveCommas(row.name), row.category, value]
  {
    FourFields(row.date, RemoveCommas(row.name), row.category, value);
  }

  /** Four comma-free fields joined by commas split back into themselves. */
  lemma FourFields(a: string, b: string, c: string, d: string)
    requires ',' !in a && ',' !in b && ',' !in c && ',' !in d
    ensures Split(a + "," + b + "," + c + "," + d, ',') == [a, b, c, d]
  {
    var cd, bcd, abcd := [c, d], [b, c, d], [a, b, c, d];
    var tail2 := c + [','] + d;
    var tail1 := b + [','] + tail2;
    var line := a + [','] + tail1;
    assert cd[1..] == [d] && Join([d], ',') == d;
    assert Join(cd, ',') == tail2;
    assert bcd[1..] == cd;
    assert Join(bcd, ',') == tail1;
    assert abcd[1..] == bcd;
    assert Join(abcd, ',') == line;
    assert a + "," + b + "," + c + "," + d == line;
    SplitJoin(abcd, ',');
  }

  /** Every row of a state has a comma-free date and category, so each of its
      lines has four fields. */
  lemma StateRowsFourFields(years: seq<string>, read: string -> seq<Recipient>, strip: string -> string, i: int, value: string)
    requires forall y :: y in years ==> ',' !in y
    requires 0 <= i < |StateRows(years, read, strip)| && ',' !in value
    ensures |Split(CsvLine(StateRows(years, read, strip)[i], value), ',')| == 4
  {
    RowsFourFields(years, read, Namer(strip), i, value);
  }

  lemma RowsFourFields(years: seq<string>, read: string -> seq<Recipient>, norm: string -> string, i: int, value: string)
    requires forall y :: y in years ==> ',' !in y
    requires 0 <= i < |Rows(years, read, norm)| && ',' !in value
    ensures |Split(CsvLine(Rows(years, read, norm)[i], value), ',')| == 4
  {
    var row := Rows(years, read, norm)[i];
    RowFields(years, read, norm, i);
    CsvFourFields(row, value);
  }

  lemma {:induction false} RowFields(years: seq<string>, read: string -> seq<Recipient>, norm: string -> string, i: int)
    requires forall y :: y in years ==> ',' !in y
    requires 0 <= i < |Rows(years, read, norm)|
    ensures ',' !in Rows(years, read, norm)[i].date
    ensures Rows(years, read, norm)[i].category == Category
  {
    var head := YearRows(years[0], read(years[0]), norm);
    var rest := Rows(years[1..], read, norm);
    if i < |head| {
      assert (head + rest)[i] == head[i];
      assert ',' !in years[0] + "-01-01";
    } else {
      assert (head + rest)[i] == rest[i - |head|];
      RowFields(years[1..], read, norm, i - |head|);
    }
  }

  lemma YearsCommaFree()
    ensures forall y :: y in Years ==> ',' !in y
  {
  }
}
