/** The string operations the scripts use (`toUpperCase`, `toLowerCase`,
    `includes`, `startsWith`, `split`/`join` on one character, `trim` and the
    regular-expression class `\s`), over `string` = `seq<char>`. Case
    conversion covers the ASCII letters only. Also the first-match lookup in
    an ordered keyword table that both name classifiers use. */
module Text {
  import opened Seqs

  predicate IsLower(c: char) { 'a' <= c <= 'z' }
  predicate IsUpper(c: char) { 'A' <= c <= 'Z' }

  function UpperChar(c: char): (u: char)
    ensures !IsLower(u)
    ensures IsLower(c) ==> u as int == c as int - 32
    ensures !IsLower(c) ==> u == c
  {
    if IsLower(c) then (c as int - 32) as char else c
  }

  function LowerChar(c: char): (l: char)
    ensures !IsUpper(l)
    ensures IsUpper(c) ==> l as int == c as int + 32
    ensures !IsUpper(c) ==> l == c
  {
    if IsUpper(c) then (c as int + 32) as char else c
  }

  /** `s.toUpperCase()` on ASCII letters. */
  function Upper(s: string): (u: string)
    ensures |u| == |s|
    ensures forall i :: 0 <= i < |s| ==> u[i] == UpperChar(s[i])
  {
    if |s| == 0 then "" else [UpperChar(s[0])] + Upper(s[1..])
  }

  /** `s.toLowerCase()` on ASCII letters. */
  function Lower(s: string): (l: string)
    ensures |l| == |s|
    ensures forall i :: 0 <= i < |s| ==> l[i] == LowerChar(s[i])
  {
    if |s| == 0 then "" else [LowerChar(s[0])] + Lower(s[1..])
  }

  /** The characters matched by `\s` and removed by `String.prototype.trim`. */
  predicate IsSpace(c: char) {
    c == ' ' || c == '\t' || c == '\n' || c == '\r' || c == '\U{000B}' || c == '\U{000C}'
    || c == '\U{00A0}' || c == '\U{1680}' || ('\U{2000}' <= c <= '\U{200A}')
    || c == '\U{2028}' || c == '\U{2029}' || c == '\U{202F}' || c == '\U{205F}'
    || c == '\U{3000}' || c == '\U{FEFF}'
  }

  predicate StartsWith(s: string, prefix: string) {
    |prefix| <= |s| && s[..|prefix|] == prefix
  }

  /** `sub` occurs in `s` starting at position `i`. */
  predicate OccursAt(s: string, sub: string, i: int) {
    0 <= i <= |s| - |sub| && s[i..i + |sub|] == sub
  }

  /** `s.includes(sub)`. */
  function Contains(s: string, sub: string): (b: bool)
    ensures b <==> exists i :: OccursAt(s, sub, i)
    decreases |s|
  {
    if StartsWith(s, sub) then
      assert OccursAt(s, sub, 0);
      true
    else if |s| == 0 then false
    else
      var b := Contains(s[1..], sub);
      assert b ==> exists i :: OccursAt(s, sub, i) by {
        if b {
          var i :| OccursAt(s[1..], sub, i);
          assert s[1..][i..i + |sub|] == s[i + 1..i + 1 + |sub|];
          assert OccursAt(s, sub, i + 1);
        }
      }
      assert (exists i :: OccursAt(s, sub, i)) ==> b by {
        if exists i :: OccursAt(s, sub, i) {
          var i :| OccursAt(s, sub, i);
          assert i != 0;
          assert s[1..][i - 1..i - 1 + |sub|] == s[i..i + |sub|];
          assert OccursAt(s[1..], sub, i - 1);
        }
      }
      b
  }

  /** `s.split(sep)`: always at least one part; `""` splits into `[""]`. */
  function Split(s: string, sep: char): (parts: seq<string>)
    ensures |parts| >= 1
    ensures forall i :: 0 <= i < |parts| ==> sep !in parts[i]
    ensures Join(parts, sep) == s
  {
    if |s| == 0 then [""]
    else
      var rest := Split(s[1..], sep);
      if s[0] == sep then
        assert s == [sep] + s[1..];
        [""] + rest
      else
        assert Join([[s[0]] + rest[0]] + rest[1..], sep) == [s[0]] + Join(rest, sep);
        assert s == [s[0]] + s[1..];
        [[s[0]] + rest[0]] + rest[1..]
  }

  /** `parts.join(sep)`. */
  function Join(parts: seq<string>, sep: char): string {
    if |parts| == 0 then ""
    else if |parts| == 1 then parts[0]
    else parts[0] + [sep] + Join(parts[1..], sep)
  }

  lemma JoinCons(w: string, rest: seq<string>, sep: char)
    ensures Join([w] + rest, sep) == w + (if |rest| == 0 then "" else [sep] + Join(rest, sep))
  {
    assert ([w] + rest)[1..] == rest;
  }

  /** A character put in front of the first part comes first in the join. */
  lemma JoinFirst(c: char, parts: seq<string>, sep: char)
    requires |parts| > 0
    ensures Join([[c] + parts[0]] + parts[1..], sep) == [c] + Join(parts, sep)
  {
    JoinCons([c] + parts[0], parts[1..], sep);
    JoinCons(parts[0], parts[1..], sep);
    assert parts == [parts[0]] + parts[1..];
  }

  /** Joining non-empty parts free of white space gives a string that is
      non-empty when there is a part and starts and ends with a part's
      character. */
  lemma {:induction false} JoinEnds(parts: seq<string>, sep: char)
    requires forall i :: 0 <= i < |parts| ==> |parts[i]| > 0
    requires forall i, j :: 0 <= i < |parts| && 0 <= j < |parts[i]| ==> !IsSpace(parts[i][j])
    ensures |parts| > 0 ==> |Join(parts, sep)| > 0
    ensures |Join(parts, sep)| > 0 ==> !IsSpace(Join(parts, sep)[0]) && !IsSpace(Join(parts, sep)[|Join(parts, sep)| - 1])
  {
    if |parts| > 1 {
      var rest := parts[1..];
      assert forall i :: 0 <= i < |rest| ==> rest[i] == parts[i + 1];
      JoinEnds(rest, sep);
      var j := Join(parts, sep);
      assert j == parts[0] + [sep] + Join(rest, sep);
      assert j[0] == parts[0][0];
      assert j[|j| - 1] == Join(rest, sep)[|Join(rest, sep)| - 1];
    } else if |parts| == 1 {
      assert Join(parts, sep) == parts[0];
      assert !IsSpace(parts[0][|parts[0]| - 1]);
    }
  }

  /** Splitting a join gives the parts back when no part holds the separator. */
  lemma {:induction false} SplitJoin(parts: seq<string>, sep: char)
    requires |parts| >= 1
    requires forall i :: 0 <= i < |parts| ==> sep !in parts[i]
    ensures Split(Join(parts, sep), sep) == parts
  {
    if |parts| == 1 {
      SplitWord(parts[0], sep);
    } else {
      SplitJoin(parts[1..], sep);
      SplitWordThenSep(parts[0], Join(parts[1..], sep), sep);
    }
  }

  lemma {:induction false} SplitWord(w: string, sep: char)
    requires sep !in w
    ensures Split(w, sep) == [w]
  {
    if |w| > 0 {
      SplitWord(w[1..], sep);
      assert w == [w[0]] + w[1..];
    }
  }

  lemma {:induction false} SplitWordThenSep(w: string, rest: string, sep: char)
    requires sep !in w
    ensures Split(w + [sep] + rest, sep) == [w] + Split(rest, sep)
  {
    if |w| == 0 {
      assert w + [sep] + rest == [sep] + rest;
      assert ([sep] + rest)[1..] == rest;
    } else {
      assert (w + [sep] + rest)[1..] == w[1..] + [sep] + rest;
      SplitWordThenSep(w[1..], rest, sep);
      assert w == [w[0]] + w[1..];
    }
  }

  /** The characters of `s` that are not white space, in order. */
  function NonSpace(s: string): string {
    if |s| == 0 then "" else (if IsSpace(s[0]) then "" else [s[0]]) + NonSpace(s[1..])
  }

  lemma {:induction false} NonSpaceAppend(a: string, b: string)
    ensures NonSpace(a + b) == NonSpace(a) + NonSpace(b)
  {
    if |a| == 0 {
      assert a + b == b;
    } else {
      assert (a + b)[1..] == a[1..] + b;
      NonSpaceAppend(a[1..], b);
    }
  }

  lemma {:induction false} NonSpaceOfSpaces(s: string)
    requires forall i :: 0 <= i < |s| ==> IsSpace(s[i])
    ensures NonSpace(s) == ""
  {
    if |s| > 0 {
      NonSpaceOfSpaces(s[1..]);
    }
  }

  /** The words of `s`: its maximal runs of characters other than white
      space, in order. A character joins the word of the next one when that
      one is not white space either. */
  function Words(s: string): (ws: seq<string>)
    ensures |s| > 0 && !IsSpace(s[0]) ==> |ws| > 0
  {
    if |s| == 0 then []
    else
      var rest := Words(s[1..]);
      if IsSpace(s[0]) then rest
      else if |s| > 1 && !IsSpace(s[1]) then [[s[0]] + rest[0]] + rest[1..]
      else [[s[0]]] + rest
  }

  /** Every word is non-empty and holds no white space. */
  lemma {:induction false} WordsShape(s: string)
    ensures forall i :: 0 <= i < |Words(s)| ==> |Words(s)[i]| > 0
    ensures forall i, j :: 0 <= i < |Words(s)| && 0 <= j < |Words(s)[i]| ==> !IsSpace(Words(s)[i][j])
  {
    if |s| > 0 {
      WordsShape(s[1..]);
      var rest := Words(s[1..]);
      var ws := Words(s);
      if !IsSpace(s[0]) {
        if |s| > 1 && !IsSpace(s[1]) {
          assert ws[0] == [s[0]] + rest[0];
          assert forall i :: 1 <= i < |ws| ==> ws[i] == rest[i];
        } else {
          assert forall i :: 1 <= i < |ws| ==> ws[i] == rest[i - 1];
        }
      }
    }
  }

  /** There are no words exactly when `s` is all white space. */
  lemma {:induction false} WordsNone(s: string)
    ensures |Words(s)| == 0 <==> forall i :: 0 <= i < |s| ==> IsSpace(s[i])
  {
    if |s| > 0 {
      WordsNone(s[1..]);
      assert forall i :: 1 <= i < |s| ==> s[i] == s[1..][i - 1];
    }
  }

  /** The words, put back together, are the characters of `s` other than
      white space. */
  lemma {:induction false} WordsConcat(s: string)
    ensures Concat(Words(s)) == NonSpace(s)
  {
    if |s| > 0 {
      WordsConcat(s[1..]);
      var rest := Words(s[1..]);
      if !IsSpace(s[0]) {
        if |s| > 1 && !IsSpace(s[1]) {
          var ws := [[s[0]] + rest[0]] + rest[1..];
          assert ws[1..] == rest[1..];
          assert Concat(rest) == rest[0] + Concat(rest[1..]);
          assert Concat(ws) == [s[0]] + rest[0] + Concat(rest[1..]);
        } else {
          var ws := [[s[0]]] + rest;
          assert ws[1..] == rest;
        }
      }
    }
  }

  function TrimStart(s: string): (r: string)
    ensures |r| <= |s| && r == s[|s| - |r|..]
    ensures |r| > 0 ==> !IsSpace(r[0])
  {
    if |s| > 0 && IsSpace(s[0]) then TrimStart(s[1..]) else s
  }

  /** Everything `TrimStart` drops is white space. */
  lemma {:induction false} TrimStartDropsSpaces(s: string)
    ensures forall i :: 0 <= i < |s| - |TrimStart(s)| ==> IsSpace(s[i])
  {
    if |s| > 0 && IsSpace(s[0]) {
      TrimStartDropsSpaces(s[1..]);
      assert forall i :: 1 <= i < |s| - |TrimStart(s)| ==> s[i] == s[1..][i - 1];
    }
  }

  function TrimEnd(s: string): (r: string)
    ensures |r| <= |s| && r == s[..|r|]
    ensures |r| > 0 ==> !IsSpace(r[|r| - 1])
  {
    if |s| > 0 && IsSpace(s[|s| - 1]) then TrimEnd(s[..|s| - 1]) else s
  }

  /** Everything `TrimEnd` drops is white space. */
  lemma {:induction false} TrimEndDropsSpaces(s: string)
    ensures forall i :: |TrimEnd(s)| <= i < |s| ==> IsSpace(s[i])
  {
    if |s| > 0 && IsSpace(s[|s| - 1]) {
      TrimEndDropsSpaces(s[..|s| - 1]);
    }
  }

  /** `s.trim()`: white space is removed from both ends and nothing else. */
  function Trim(s: string): (r: string)
    ensures |r| <= |s|
    ensures |r| > 0 ==> !IsSpace(r[0]) && !IsSpace(r[|r| - 1])
    ensures NonSpace(r) == NonSpace(s)
    ensures exists i :: OccursAt(s, r, i)
  {
    var a := TrimStart(s);
    TrimStartContent(s);
    TrimEndContent(a);
    var r := TrimEnd(a);
    TrimOccurs(s);
    assert |r| > 0 ==> r[0] == a[0];
    r
  }

  lemma TrimOccurs(s: string)
    ensures OccursAt(s, TrimEnd(TrimStart(s)), |s| - |TrimStart(s)|)
  {
    var a := TrimStart(s);
    var r := TrimEnd(a);
    PrefixOfSuffix(s, a, r);
  }

  /** A prefix of a suffix of `s` occurs in `s`. */
  lemma PrefixOfSuffix(s: string, a: string, r: string)
    requires |a| <= |s| && a == s[|s| - |a|..]
    requires |r| <= |a| && r == a[..|r|]
    ensures OccursAt(s, r, |s| - |a|)
  {
    var k := |s| - |a|;
    assert s[k..k + |r|] == s[k..][..|r|];
  }

  /** Trimming white space from around a string that neither starts nor
      ends with white space gives that string back. */
  lemma TrimPadded(l: string, m: string, t: string)
    requires forall i :: 0 <= i < |l| ==> IsSpace(l[i])
    requires forall i :: 0 <= i < |t| ==> IsSpace(t[i])
    requires |m| > 0 ==> !IsSpace(m[0]) && !IsSpace(m[|m| - 1])
    ensures Trim(l + m + t) == m
  {
    if |m| > 0 {
      assert l + m + t == l + (m + t);
      TrimStartSpaces(l, m + t);
      TrimEndSpaces(m, t);
    } else {
      assert l + m + t == (l + t) + "";
      TrimStartSpaces(l + t, "");
    }
  }

  lemma {:induction false} TrimStartSpaces(l: string, rest: string)
    requires forall i :: 0 <= i < |l| ==> IsSpace(l[i])
    requires |rest| > 0 ==> !IsSpace(rest[0])
    ensures TrimStart(l + rest) == rest
  {
    if |l| > 0 {
      assert (l + rest)[1..] == l[1..] + rest;
      TrimStartSpaces(l[1..], rest);
    } else {
      assert l + rest == rest;
    }
  }

  lemma {:induction false} TrimEndSpaces(rest: string, t: string)
    requires forall i :: 0 <= i < |t| ==> IsSpace(t[i])
    requires |rest| > 0 ==> !IsSpace(rest[|rest| - 1])
    ensures TrimEnd(rest + t) == rest
  {
    if |t| > 0 {
      assert (rest + t)[..|rest + t| - 1] == rest + t[..|t| - 1];
      TrimEndSpaces(rest, t[..|t| - 1]);
    } else {
      assert rest + t == rest;
    }
  }

  lemma TrimStartContent(s: string)
    ensures NonSpace(TrimStart(s)) == NonSpace(s)
  {
    var a := TrimStart(s);
    var k := |s| - |a|;
    var pre := s[..k];
    assert s == pre + a;
    TrimStartDropsSpaces(s);
    assert forall i :: 0 <= i < |pre| ==> IsSpace(pre[i]);
    NonSpaceOfSpaces(pre);
    NonSpaceAppend(pre, a);
  }

  lemma TrimEndContent(a: string)
    ensures NonSpace(TrimEnd(a)) == NonSpace(a)
  {
    var r := TrimEnd(a);
    var post := a[|r|..];
    assert a == r + post;
    TrimEndDropsSpaces(a);
    assert forall i :: 0 <= i < |post| ==> IsSpace(post[i]);
    NonSpaceOfSpaces(post);
    NonSpaceAppend(r, post);
  }

  /** Entry `i` of a keyword table is the first whose keyword `s` contains. */
  predicate FirstHit(s: string, table: seq<(string, string)>, i: int) {
    && 0 <= i < |table|
    && Contains(s, table[i].0)
    && forall j :: 0 <= j < i ==> !Contains(s, table[j].0)
  }

  /** At most one entry is the first hit. */
  lemma FirstHitUnique(s: string, table: seq<(string, string)>)
    ensures forall i, j :: FirstHit(s, table, i) && FirstHit(s, table, j) ==> i == j
  {
  }

  /** The value of the first entry of `table` whose keyword `s` contains,
      the table read in order. */
  function FirstMatch(s: string, table: seq<(string, string)>): (r: Option<string>)
    ensures r.None? <==> forall i :: 0 <= i < |table| ==> !Contains(s, table[i].0)
    ensures r.Some? ==> exists i :: FirstHit(s, table, i) && r.value == table[i].1
    ensures forall i :: FirstHit(s, table, i) ==> r == Some(table[i].1)
  {
    FirstHitUnique(s, table);
    if |table| == 0 then None
    else if Contains(s, table[0].0) then
      assert FirstHit(s, table, 0);
      Some(table[0].1)
    else
      var r := FirstMatch(s, table[1..]);
      assert forall i :: 1 <= i < |table| ==> table[i] == table[1..][i - 1];
      if r.Some? then
        var i :| FirstHit(s, table[1..], i) && r.value == table[1..][i].1;
        assert FirstHit(s, table, i + 1);
        r
      else r
  }
}
