/** The label shortener of the state race (`shortenCompanyName` in the race
    page): a fixed table of short names keyed by the upper-cased recipient
    name, and otherwise the cleaned name cut to at most 15 characters. The
    regular-expression suffix removal is a parameter `strip`. */
module ShortNames {
  import opened Text

  /** The widest label: longer cleaned names are cut. */
  const MaxLabel: nat := 15
  /** Characters kept in front of the ellipsis. */
  const KeptPrefix: nat := 12

  const Known: map<string, string> := map[
    "HEALTH NET FEDERAL SERVICES, LLC" := "Health Net",
    "LAWRENCE LIVERMORE NATIONAL SECURITY, LLC" := "LLNS",
    "CALIFORNIA INSTITUTE OF TECHNOLOGY" := "Caltech",
    "GENERAL ATOMICS" := "Gen Atomics",
    "LOCKHEED MARTIN CORPORATION" := "Lockheed",
    "THE BOEING COMPANY" := "Boeing",
    "NATIONAL STEEL AND SHIPBUILDING COMPANY" := "NASSCO",
    "SPACE EXPLORATION TECHNOLOGIES CORP." := "SpaceX",
    "UNIVERSITY OF CALIFORNIA REGENTS" := "UC Regents",
    "RAYTHEON COMPANY" := "Raytheon",
    "NORTHROP GRUMMAN CORPORATION" := "Northrop",
    "STANFORD UNIVERSITY" := "Stanford",
    "GENERAL DYNAMICS" := "GDIT",
    "SCIENCE APPLICATIONS INTERNATIONAL CORPORATION" := "SAIC",
    "LEIDOS HOLDINGS, INC." := "Leidos",
    "BAE SYSTEMS" := "BAE",
    "L3 TECHNOLOGIES" := "L3",
    "BOOZ ALLEN HAMILTON" := "Booz Allen",
    "AEROSPACE CORPORATION" := "Aerospace",
    "QTC MEDICAL GROUP INC" := "QTC Medical"
  ]

  /** Cut a cleaned name longer than 15 characters to its first 12 and an
      ellipsis. */
  function Truncate(s: string): (r: string)
    ensures |r| <= MaxLabel
    ensures |s| <= MaxLabel ==> r == s
    ensures |s| > MaxLabel ==> |r| == MaxLabel && r[..KeptPrefix] == s[..KeptPrefix] && r[KeptPrefix..] == "..."
  {
    if |s| > MaxLabel then s[..KeptPrefix] + "..." else s
  }

  /** The label for a recipient name. */
  function Shorten(name: string, strip: string -> string): string {
    if Upper(name) in Known then Known[Upper(name)] else Truncate(Trim(strip(name)))
  }

  /** Every table entry already fits the label width. */
  lemma KnownFit()
    ensures forall key :: key in Known ==> |Known[key]| <= MaxLabel
  {
  }

  /** Whatever the name and the suffix removal, a label is at most 15
      characters. A name in the table (compared upper-cased) gets its table
      entry; any other keeps its cleaned form when that fits and is otherwise
      cut to exactly 15, its first 12 characters taken from the cleaned
      name. */
  lemma ShortenFits(name: string, strip: string -> string)
    ensures |Shorten(name, strip)| <= MaxLabel
    ensures Upper(name) in Known ==> Shorten(name, strip) == Known[Upper(name)]
    ensures var c := Trim(strip(name));
      && (Upper(name) !in Known && |c| <= MaxLabel ==> Shorten(name, strip) == c)
      && (Upper(name) !in Known && |c| > MaxLabel ==>
            |Shorten(name, strip)| == MaxLabel && Shorten(name, strip)[..KeptPrefix] == c[..KeptPrefix])
  {
    KnownFit();
  }
}
