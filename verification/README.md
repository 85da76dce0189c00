# Federal contracting visualisations, modelled in Dafny

The site turns federal contract spending data into animated charts. This
project models the parts of it that compute something.

- **The bar-chart race keyframe engine** (`JS/example.js`, and its near copy
  `example.js`):
  - CSV rows are rolled up into one value per (date, name), giving snapshots
    sorted by date.
  - Between consecutive snapshots, `k` linearly interpolated frames are built.
    Each frame ranks every name with a stable descending sort and clamps ranks
    at `n`.
  - The last snapshot is appended exactly.
  - `prev`/`next` link each name's entries in consecutive frames.
  - The `animate` loop with its pause gate, the pause, restart and state
    buttons, and the label shortener are modelled too.
- **The yearly bar chart** (`JS/barchart.js`): per-year top-N keyframes built
  from the API responses, and the play/pause/replay cursor.
- **The treemap** (`JS/treemap.js`): the yearly per-name aggregation with its
  threshold, the resulting hierarchy, the label-visibility rule and the
  bouncing autoplay year.
- **The recipient fetch script**
  (`FetchingScriptForBarChartData/fetch_va_2023.js`): keyword
  classification, the fiscal-year window, the bounded page loop and the
  1-based ranking.
- **The data step** (`process_data.js`): company-name normalisation, one row
  per recipient and year, and the four-field CSV line.
- **The flow diagram** (`JS/sankey.js`): node alignment per view, colour
  domains and node colours, the two flow builders, and load validation.
- **The state map** (`JS/map.js`): bounding box, scale-and-centre, the
  allowed-state filter and the morph state.

Values are `real`, dates are `int` milliseconds, and strings are
`seq<char>`. Timers, promises and transitions become explicit events on
small state records. Network and file reads become parameters or input
sequences.

The modules, one per file:

- `Seqs`: options and results, first-occurrence dedup, filter-map.
- `Sorting`: the stable sort.
- `Text`: case, `\s`, split/join, trim, the keyword tables.
- Race engine: `Rollup`, `Ranking`, `Keyframes`, `Links`, `RacePlayback`,
  `ShortNames`.
- The other pages: `ProcessData`, `BarChart`, `BarChartPlayer`, `Treemap`,
  `FetchRecipients`, `Sankey`, `StateMap`.

Two details of the code decide what the race shows:

- **Duplicate rows are not summed.** The rollup's reducer `([d]) => d.value`
  keeps the first row of each (date, name) group.
- **The state race sorts its rows first.** Its statistics panel sorts the
  parsed rows in place, largest value first, before the rollup reads them.
  So each snapshot entry is the largest value of its group
  (`Rollup.ValueSortedRollupKeepsMax`).

## Model

| member | source | states |
|---|---|---|
| Seqs.Distinct | JS/example.js:143 | Like `new Set(...)`: every element of the input appears exactly once, nothing else appears, and elements stay in order of first occurrence |
| Seqs.FilterMap | JS/barchart.js:488-510 | Like `map` followed by `filter(x => x !== null)`: `y` is in the result exactly when some input maps to `Some(y)`, and the result is never longer than the input |
| Seqs.FilterMapAppend | JS/barchart.js:488-510 | Mapping and filtering a concatenation gives the two parts' results concatenated, so order and repeats are kept |
| Seqs.FilterMapSnoc | JS/barchart.js:488-510 | One more input adds its mapped value at the end when it is kept, and nothing otherwise |
| Sorting.SortDesc | JS/example.js:150 | Like JavaScript's stable `sort` with a descending comparator: the result is a permutation of the input ordered by non-increasing key, and elements with equal keys keep their input order |
| Sorting.SortAsc | JS/barchart.js:537 | Stable ascending sort: a permutation ordered by non-decreasing key, with equal keys in input order |
| Sorting.TopIsTop | FetchingScriptForBarChartData/fetch_va_2023.js:160-163 | Sort then `slice(0, n)` keeps a sub-multiset of the input in descending order, and nothing left out is larger than the smallest element kept |
| Text.Upper | process_data.js:102 | `toUpperCase` keeps the length and maps every ASCII lower-case letter to its capital |
| Text.Lower | process_data.js:8 | `toLowerCase` keeps the length and maps every ASCII capital to its lower-case letter |
| Text.Contains | process_data.js:102 | `includes` holds exactly when the part occurs at some position |
| Text.Split | process_data.js:7 | `split(sep)` gives at least one part, no part holds the separator, and joining the parts gives back the input |
| Text.SplitJoin | process_data.js:7-9 | Splitting a join of separator-free parts gives the parts back |
| Text.WordsShape | process_data.js:108 | Every word is non-empty and free of white space |
| Text.WordsNone | process_data.js:108 | A string has no words exactly when it is all white space |
| Text.WordsConcat | process_data.js:108 | The words, put together, are the string's non-space characters in order |
| Text.TrimPadded | process_data.js:108 | `trim` of a string that neither starts nor ends with white space, padded with white space, gives the string back |
| Text.Trim | process_data.js:108 | `trim` drops white space from both ends and keeps every other character; the result occurs in the input and neither starts nor ends with white space |
| Text.TrimStartDropsSpaces | process_data.js:108 | Everything removed at the front is white space |
| Text.TrimEndDropsSpaces | process_data.js:108 | Everything removed at the back is white space |
| Text.FirstMatch | FetchingScriptForBarChartData/fetch_va_2023.js:65-69 | The keyword table is scanned in declaration order: the result is the value of the first keyword the text contains, and none when it contains no keyword |
| Rollup.Names | JS/example.js:143 | The name set holds each row's name once, in order of first appearance, and nothing else |
| Rollup.GroupDates | JS/example.js:144 | The rollup has a group for a date exactly when some row has that date |
| Rollup.GroupCovers | JS/example.js:144 | Every row's name is an entry of its date's group |
| Rollup.GroupFirst | JS/example.js:144 | Each (date, name) entry holds the value of the first row with that date and name: duplicates are not summed |
| Rollup.Dates | JS/example.js:144-146 | The snapshot dates are strictly increasing and are exactly the dates of the rows |
| Rollup.Snapshots | JS/example.js:144-146 | One snapshot per date, in ascending date order, each carrying that date's group |
| Rollup.SnapshotEntries | JS/example.js:144-146 | A snapshot holds a name exactly when a row of that date has the name, and then holds the first such row's value |
| Rollup.ValueSortedRollupKeepsMax | JS/example.js:115-146 | The rows are sorted in place by value before the rollup, so each snapshot entry is the largest value among its group's rows and is one of them |
| Rollup.FirstOfSortedIsMax | JS/example.js:117 | In rows sorted by value, largest first, the first row of a (date, name) group holds the group's largest value |
| Ranking.Unranked | JS/example.js:149 | One entry per name, in the name set's order, with that name's value |
| Ranking.AssignRanks | JS/example.js:151 | The entry at position `i` keeps its name and value and gets rank `min(n, i)` |
| Ranking.Rank | JS/example.js:148-153 | `rank` returns one entry per name, ordered by non-increasing value |
| Ranking.RankEntries | JS/example.js:148-150 | Every entry is a name of the set with its own value, every name has an entry, and distinct names give distinct entries |
| Ranking.RankClamp | JS/example.js:151 | Every rank is at most `n`, a rank equals its position below `n` and is `n` from there on, and ranks never decrease along the list |
| Ranking.RankStable | JS/example.js:150 | Ties keep insertion order: the names sharing a value appear in the same order as in the name set |
| Ranking.RankSameValues | JS/example.js:148-153 | `rank` depends only on the values of the names in the set |
| Keyframes.PairFrames | JS/example.js:160-166 | A pair of snapshots gives `k` frames, frame `i` taken at `t = i/k` |
| Keyframes.BetweenLength | JS/example.js:159-167 | `m` snapshots give `(m - 1) * k` interpolated frames |
| Keyframes.BetweenAt | JS/example.js:159-167 | Frame `j * k + i` is frame `i` of the pair (snapshot `j`, snapshot `j + 1`) |
| Keyframes.FrameAtZero | JS/example.js:160-165 | The `t = 0` frame of a pair carries the first snapshot exactly: its date and its values |
| Keyframes.BuildShape | JS/example.js:156-170 | With at least two snapshots there are exactly `(m - 1) * k + 1` keyframes, and the last carries the last snapshot's date and exact values |
| Keyframes.BuildHitsSnapshots | JS/example.js:156-170 | Keyframe `j * k` carries snapshot `j` exactly, so every snapshot appears with its true values |
| Keyframes.BuildNeedsTwo | JS/example.js:158-168 | The builder fails exactly when there are fewer than two snapshots: the last pair's `kb` and `b` are then undefined, the loader fails, and the state page's `catch` shows the error |
| Keyframes.FractionRange | JS/example.js:161 | `t = i / k` lies in [0, 1) |
| Keyframes.LerpBetween | JS/example.js:164 | `a * (1 - t) + b * t` lies between `a` and `b`, and equals `a` at `t = 0` and `b` at `t = 1` |
| Keyframes.FrameValuesBetween | JS/example.js:164 | Every value in an interpolated frame lies between the name's values in the two snapshots, a missing name counting as 0 |
| Keyframes.ConstantStaysConstant | JS/example.js:164 | A name with the same value in both snapshots keeps exactly that value in every interpolated frame |
| Keyframes.RankRanksAll | example.js:61-65 | A ranked frame lists every name of the set, nothing else, in non-increasing value order, and each name once when the names are distinct |
| Keyframes.BuildRanksAll | example.js:56-83 | Every keyframe, the final one included, ranks all the distinct names of the data, each exactly once |
| Keyframes.TruncMonotone | example.js:76 | `new Date(x)` truncates toward zero, which preserves order |
| Keyframes.FrameDateStep | example.js:72-76 | Within a pair, frame `i` is stamped between the two snapshot dates, and the stamps grow with `i` |
| Keyframes.BuildDatesNonDecreasing | example.js:69-83 | With snapshots in ascending date order, keyframe timestamps never decrease along the whole list |
| Keyframes.BuildWellFormed | JS/example.js:156-170 | With snapshots in ascending date order, the result is an error exactly when there are fewer than two snapshots, and otherwise has `(m - 1) * k + 1` time-ordered frames, each ranking every name once |
| Keyframes.RaceShape | example.js:49-83 | The race built from CSV rows with at least one date has that outcome over the rows' distinct dates and names: an error with exactly one date, a well formed race with two or more |
| Keyframes.StateRaceNoRows | JS/example.js:115-122 | An empty file fails in the statistics panel, which reads the top row of an empty list, and no other input fails that way |
| Keyframes.StateRaceShape | JS/example.js:132-170 | A non-empty state file gives the race outcome over the value-sorted rows' dates and names |
| Keyframes.StateRaceTooFew | JS/example.js:132-170 | A non-empty state file fails for too few snapshots exactly when its sorted rows hold fewer than two dates |
| Keyframes.StatePageErrors | JS/example.js:115-170 | With the page's ten frames per pair and fifteen bars, the build fails for no rows exactly when the file is empty, and for too few snapshots exactly when it is non-empty with fewer than two dates |
| Keyframes.StatePageFrames | JS/example.js:132-170 | With the page's constants, a successful build has `(d - 1) * 10 + 1` time-ordered frames for `d` distinct dates in the file |
| Keyframes.StatePage | JS/example.js:9-10 | The race the page builds with its constants `k = 10` and `n = 15`: both error conditions exactly as above, and otherwise the frame count and time order |
| Rollup.IncreasingUnique | JS/example.js:132-146 | Two strictly increasing lists with the same members are equal |
| Rollup.DatesOfPermutation | JS/example.js:132-146 | Reordering the rows, as the sort by value does, does not change the ascending list of distinct dates |
| Links.Positions | JS/example.js:172 | The places of one frame holding a name: all of them, in order |
| Links.Track | JS/example.js:172 | A name's group in the flattened frames holds exactly the entries with that name, in flattened order |
| Links.TrackOnePerFrame | JS/example.js:172 | When every frame ranks all distinct names once, a name's group holds one entry per frame, in frame order |
| Links.NextPrev | JS/example.js:173-174 | `next` links an entry to a later entry with the same name, `prev` to an earlier one, and `next(r) = s` exactly when `prev(s) = r` |
| Links.NextIsFollowingFrame | JS/example.js:172-174 | `next` of an entry is the same name's entry in the following frame, `prev` the one in the preceding frame; the last frame has no `next` and the first no `prev` |
| RacePlayback.LoopStepsOk | JS/example.js:191-215 | Each step of an `animate` loop keeps its discipline: frames are drawn in order, none skipped or repeated, a frame only after the previous transition ended |
| RacePlayback.StepInv | JS/example.js:191-215 | With reloads cancelling the old loop, every event keeps these facts: only the newest loop runs, every loop keeps its drawing discipline, and a stored resolver belongs to the newest loop, which is parked |
| RacePlayback.ReloadInv | JS/example.js:388-393 | A reload that cancels the old loops leaves one live loop and no stored resolver |
| RacePlayback.OnlyNewestDraws | JS/example.js:365-369 | Once a chart has been replaced, no event makes its loop draw again |
| RacePlayback.PausedDrawsNothing | JS/example.js:192-197 | While paused, no loop draws a new frame, except through the pause button (resume) or restart. This holds for the handlers as written and for the corrected step |
| RacePlayback.ResumeOnce | JS/example.js:372-385 | Resume clears the flag, calls the stored resolver once and clears the slot: only the parked loop draws its frame, and no other loop changes |
| RacePlayback.InFlightAwaited | JS/example.js:199-213 | A drawing loop moves on only at the end of its own transition. As written, no other event touches it, reloads included; with the correction a reload cancels it |
| RacePlayback.UninterruptedRun | example.js:106-120 | Left alone, the loop draws frames `0, 1, ..., total - 1`, each once and in order, and then finishes |
| RacePlayback.UninterruptedRunPrefix | example.js:106-120 | After `m` draw-and-end rounds, exactly frames `0 .. m - 1` have been drawn |
| RacePlayback.Visible | example.js:128-129 | `data.slice(0, n)`: the first `min(n, len)` entries |
| RacePlayback.AxisMax | example.js:112 | The axis bound exists exactly when the frame has entries |
| RacePlayback.AxisFitsAll | example.js:112 | In a frame sorted by value, the axis bound is the frame's largest value, so every bar fits |
| RacePlayback.VisibleAreTopRanks | JS/example.js:227 | The bars drawn are exactly the entries ranked below `n`, top first, each bar's rank equal to its place |
| RacePlayback.StaleLoopDrawsAfterRestart | JS/example.js:388-393 | As written, a restart during a transition leaves the old loop running: it draws its next frame after the restart |
| RacePlayback.StaleResolverRevivesOldLoop | JS/example.js:372-393 | As written, the resolver slot survives a restart: the next resume calls the old chart's parked loop |
| ShortNames.Truncate | JS/example.js:84-86 | A cleaned name longer than 15 characters becomes its first 12 characters plus `...`, exactly 15; shorter ones are kept |
| ShortNames.KnownFit | JS/example.js:18-39 | Every entry of the short-name table fits in 15 characters |
| ShortNames.ShortenFits | JS/example.js:66-89 | A label is at most 15 characters. A name in the table, compared upper-cased, gets its entry; any other keeps its cleaned form when that fits and is otherwise cut to exactly 15, starting with the first 12 cleaned characters |
| ProcessData.TitleWord | process_data.js:8 | An all-lower-case word is unchanged; any other keeps its first character and has the rest lower-cased |
| ProcessData.TitleCaseWords | process_data.js:7-9 | Title-casing keeps the number of space-separated words, and word `i` becomes the title-cased word `i` |
| ProcessData.Collapse | process_data.js:108 | `replace(/\s+/g, ' ')` keeps every non-space character, turns all white space into single spaces, and leaves no two in a row |
| ProcessData.CollapseWords | process_data.js:108 | The result is the input's words (maximal runs without white space) joined by single spaces, plus one space in front when the input starts with white space and one at the end when white space follows the last word |
| ProcessData.DropTrailingMark | process_data.js:111 | Exactly one trailing `,` or `.` is removed, and nothing else changes |
| ProcessData.TidyClean | process_data.js:107-111 | Collapsing and trimming leaves exactly the input's words joined by single spaces. The final name has single spaces only, no leading white space, and the input's non-space characters except at most one trailing mark |
| ProcessData.TidyWords | process_data.js:107-111 | The cleaned name is the input's words joined by single spaces, with one trailing comma or period then dropped |
| ProcessData.TidyKeepsSpaceBeforeMark | process_data.js:107-111 | The mark is dropped after trimming, so `x .` becomes `x ` and ends in a space |
| ProcessData.NormalizeSpecial | process_data.js:100-105 | A name whose upper-cased form contains a special-case key becomes the short name of the first such key in declaration order |
| ProcessData.NormalizeCleanup | process_data.js:5-114 | A name matching no special case comes out as the cleaned title-cased, suffix-stripped name |
| ProcessData.YearRows | process_data.js:127-134 | One row per recipient of a year, in file order, dated `${year}-01-01`, with the normalised name, the amount and category `Federal Contracting` |
| ProcessData.StateRowsLayout | process_data.js:117-138 | The rows are the years' recipients in year order, then file order: recipient `r` of year `k` is row `Offset(k) + r` |
| ProcessData.YearsCommaFree | process_data.js:119 | The years 2020 to 2024 contain no comma |
| ProcessData.RemoveCommas | process_data.js:159 | `replace(/,/g, '')` drops every comma and keeps every other character, in order, as a filter over the characters does; a comma-free name is unchanged |
| ProcessData.HeaderFields | process_data.js:155 | The header splits into the four fields `date,name,category,value` |
| ProcessData.CsvFourFields | process_data.js:156-160 | A data line splits into exactly date, comma-free name, category and value, whatever commas the name held |
| ProcessData.StateRowsFourFields | process_data.js:150-161 | Every line written for a state has exactly four fields |
| BarChart.ToItem | JS/barchart.js:488-509 | An item becomes a bar exactly when the category is listed and its parsed amount is positive. The name falls back to the agency or recipient name, then to `Unknown ...` |
| BarChart.ValidItems | JS/barchart.js:488-510 | A year's bars are exactly the items that become bars, all with positive values |
| BarChart.ValidItemsSnoc | JS/barchart.js:488-510 | The bars keep the items' order: one more item adds its bar at the end, or nothing |
| BarChart.RankByPosition | JS/barchart.js:523-526 | Ranks are the positions `0 .. len - 1`, unclamped |
| BarChart.YearFrameBound | JS/barchart.js:473-527 | A kept year has between one and `topN` bars, or none when `topN` is zero |
| BarChart.DefaultLoad | JS/barchart.js:12-57 | With the default of ten bars, every keyframe loaded holds between one and ten bars |
| BarChart.Collect | JS/barchart.js:473-534 | A keyframe is kept for every year that is not skipped, and nothing else |
| BarChart.YearFrameSkips | JS/barchart.js:478-516 | A year is skipped exactly when its fetch failed, it has no results, or no item has a positive amount |
| BarChart.TopItemsAreTop | JS/barchart.js:518-526 | A keyframe holds the `min(topN, valid)` largest bars in descending order, ranked 0, 1, 2, ..., and no bar left out is larger than the last one kept |
| BarChart.KeyframesAreYearFrames | JS/barchart.js:473-540 | The keyframes are in ascending year order, and are exactly the frames of the years that are not skipped |
| BarChart.LoadOutcome | JS/barchart.js:356-377 | Loading fails with "no data" exactly when no response has results, and otherwise with the empty-keyframes error exactly when every year is skipped |
| BarChartPlayer.Initial | JS/barchart.js:57-62 | A new chart starts paused at keyframe 0 with no timer |
| BarChartPlayer.Pause | JS/barchart.js:752-762 | `pause` stops playing and clears the timer, and the cursor stays |
| BarChartPlayer.Animate | JS/barchart.js:767-785 | While paused nothing happens; otherwise the cursor's keyframe is drawn and the cursor advances by one. A timer is armed exactly when keyframes remain, and otherwise playback pauses |
| BarChartPlayer.Play | JS/barchart.js:733-747 | `play` does nothing while playing; otherwise it draws from the cursor, or from 0 when the cursor is at or past the last keyframe |
| BarChartPlayer.Step | JS/barchart.js:284-296 | Every event keeps the cursor and timer invariant. A tick while playing draws an existing keyframe and advances one. Play/pause while playing pauses. A load pauses, resets the cursor, and draws keyframe 0 when it rebuilt a non-empty list |
| BarChartPlayer.TicksToEnd | JS/barchart.js:767-785 | Left playing, the chart draws every remaining keyframe once, in order, then stops at the end with no timer |
| BarChartPlayer.PlayThrough | JS/barchart.js:733-785 | Play on a paused chart draws every keyframe from the start point to the last, once and in order |
| BarChartPlayer.ReplayPlaysAll | JS/barchart.js:293-296 | Replay on a paused chart draws every keyframe from the first |
| Treemap.InYear | JS/treemap.js:70 | Only rows whose date string starts with the year are kept |
| Treemap.TotalsOf | JS/treemap.js:71-77 | Each name's total is the sum of its rows' values |
| Treemap.RollupTotals | JS/treemap.js:71-77 | The rollup lists every row name once and nothing else, each with the sum of its values; the totals add up to the sum of all values |
| Treemap.AtThreshold | JS/treemap.js:80 | The kept totals are exactly those of at least 9000 |
| Treemap.AggregateSpec | JS/treemap.js:70-80 | For a year: one entry per name in descending order of total, each total summing that year's rows; a name is kept exactly when it has a row in the year and its total reaches 9000 |
| Treemap.ProcessYearView | JS/treemap.js:67-101 | No data loaded changes nothing. An empty aggregate gives the "No data available" message. Otherwise the hierarchy is a root plus one leaf per entry, in order, each under "root" with its total |
| Treemap.LabelRule | JS/treemap.js:55-59 | A label shows when zoomed in more than twice or when its zoomed box exceeds 80 by 30; at scale 1 this is the drawing rule, and zooming in never hides a label |
| Treemap.AutoTick | JS/treemap.js:240-257 | With autoplay off nothing changes; otherwise the year moves by the direction and stays within the slider's bounds |
| Treemap.AutoTickInv | JS/treemap.js:241-255 | A tick keeps the year in [min, max] and the direction at +1 or -1 |
| Treemap.ClimbToTop | JS/treemap.js:245-249 | Counting up from `y`, autoplay reaches the maximum after `max - y` ticks and turns round |
| Treemap.DescendToBottom | JS/treemap.js:245-253 | Counting down from `y`, autoplay reaches the minimum after `y - min` ticks and turns round |
| Treemap.Bounce | JS/treemap.js:237-258 | Left on, autoplay sweeps from the minimum to the maximum and back in `2 * (max - min)` ticks |
| FetchRecipients.DetermineCategory | FetchingScriptForBarChartData/fetch_va_2023.js:61-73 | The category is that of the first keyword, in declaration order, contained in the upper-cased name, and `Other` when none matches |
| FetchRecipients.WindowIsFiscalYear | FetchingScriptForBarChartData/fetch_va_2023.js:76-78 | A valid date lies in the window from (FY-1)-10-01 to FY-09-30 exactly when it belongs to that fiscal year |
| FetchRecipients.Round | FetchingScriptForBarChartData/fetch_va_2023.js:125 | `Math.round` gives the nearest integer, rounding halves up |
| FetchRecipients.ToRecord | FetchingScriptForBarChartData/fetch_va_2023.js:120-130 | A missing name or id becomes `Unknown`, the amount is rounded, and the category is that of the record's name |
| FetchRecipients.FetchPages | FetchingScriptForBarChartData/fetch_va_2023.js:80-157 | Between 1 and 5 pages are requested. Every page before the last was full. The loop stops early only on a failed, empty or short page. The records are those of the pages collected |
| FetchRecipients.CollectedStop | FetchingScriptForBarChartData/fetch_va_2023.js:133-136 | An empty or failed page ends the collection and contributes nothing |
| FetchRecipients.CollectedShort | FetchingScriptForBarChartData/fetch_va_2023.js:138-145 | A short page is kept and ends the collection |
| FetchRecipients.CollectedStep | FetchingScriptForBarChartData/fetch_va_2023.js:138-148 | A full page is kept and the next page is requested |
| FetchRecipients.CollectedBound | FetchingScriptForBarChartData/fetch_va_2023.js:9 | At most five pages of at most 100 items are collected |
| FetchRecipients.RankFromOne | FetchingScriptForBarChartData/fetch_va_2023.js:166-168 | Record `i` gets rank `i + 1` |
| FetchRecipients.FetchTopRecipients | FetchingScriptForBarChartData/fetch_va_2023.js:5-179 | The output ranks the classified records of the collected pages, and holds at most 500 |
| FetchRecipients.RankTopSpec | FetchingScriptForBarChartData/fetch_va_2023.js:159-175 | The output holds the 500 largest amounts, or all of them, in descending order, ranked 1, 2, ... without gaps; no record left out has a larger amount than the last one kept |
| Sankey.NodeAlign | JS/sankey.js:135-170 | The alignment selected for a node is justify exactly for the justified views. It is right exactly for the final node types of a right-ending view and for recipients in a recipient view. Anything else is left |
| Sankey.GetNodeAlignment | JS/sankey.js:135-170 | A right-ending or recipient view yields a per-node choice and every other view one alignment; for every node type the choice is the one above |
| Sankey.OfferedViews | JS/sankey.js:508-521 | Three offered views are in no list and select the left alignment for every node; `business_size` and `org_type` select right for recipients only |
| Sankey.Domains | JS/sankey.js:43-88 | Each of the seven scales' domains is rebuilt from the loaded nodes alone: each name of a node of that type once, in first-occurrence order |
| Sankey.UnknownTypeIgnored | JS/sankey.js:54-78 | A node of a type without a scale changes no domain |
| Sankey.NodeColor | JS/sankey.js:90-115 | A state with a predefined colour gets it. The seven types use their own scheme. Any other type gets `#999` |
| Sankey.SameTypeColors | JS/sankey.js:80-111 | Two nodes of one scaled type share a colour exactly when their domain positions agree modulo nine |
| Sankey.FirstNineDistinct | JS/sankey.js:80-111 | The first nine names of a type get different colours |
| Sankey.TwoHop | JS/sankey.js:443-458 | Each row gives two links, first to middle then middle to last, both carrying the row's amount |
| Sankey.FieldSet | JS/sankey.js:438-445 | A `Set` of one field: each value once, in first-occurrence order |
| Sankey.AgencyFlow | JS/sankey.js:434-464 | Links are agency to state to recipient. Nodes are the agency set, then CA, MD, VA, then the recipient set, with repeats removed only within each part |
| Sankey.AgencyFlowResolves | JS/sankey.js:434-464 | Every agency and recipient endpoint is a node; a row's state is a node exactly when it is CA, MD or VA or some row's agency or recipient name |
| Sankey.StateCategoryFlow | JS/sankey.js:466-493 | Links are state to category to recipient, but only the fixed states and the categories become nodes |
| Sankey.StateCategoryRecipients | JS/sankey.js:466-493 | A row's recipient is a node only when its name is a fixed state or a category |
| Sankey.Conservation | JS/sankey.js:443-458 | At a middle node that is never a first or last name, inflow equals outflow |
| Sankey.Validate | JS/sankey.js:534-539 | Missing data, nodes or links is an invalid format; empty nodes or links is empty data; only both present and non-empty pass |
| Sankey.LoadView | JS/sankey.js:528-554 | Invalid data keeps the domains and shows the error message. Valid data rebuilds the domains first; the diagram of the data's nodes and links shows exactly when the layout also succeeds, and otherwise the error message shows |
| StateMap.Least | JS/map.js:55-56 | `Math.min` of a non-empty list is at most every element and is one of them |
| StateMap.BoundingBox | JS/map.js:51-60 | For non-empty input every point lies in the box and each bound is reached by a point |
| StateMap.BoxUnique | JS/map.js:51-60 | Any box that holds every point and whose bounds are all reached is the bounding box |
| StateMap.Scale | JS/map.js:66 | The scale `0.8 * min(svgWidth / width, svgHeight / height)` is positive, makes both extents fit in 80% of the area, and fills 80% along one axis |
| StateMap.ScaleAndCenter | JS/map.js:62-77 | One point out per point in |
| StateMap.ScaledWhenSpread | JS/map.js:51-78 | Fitting yields coordinates exactly when the outline has two distinct points; with none there is no box, and with one the zero extents make the scale infinite |
| StateMap.OneMap | JS/map.js:62-77 | All points go through one affine map: differences between points are scaled by the one scale factor |
| StateMap.Centred | JS/map.js:62-77 | The fitted outline's bounding box is centred, keeps a tenth of the area free on every side, and spans 80% along one axis |
| StateMap.StatesData | JS/map.js:161-171 | The features kept are exactly those with an allowed id, each with its colour, in their order |
| StateMap.StatesDataAppend | JS/map.js:161-171 | Filtering a concatenation gives the two parts' results concatenated: order and repeats are kept |
| StateMap.StatesDataSnoc | JS/map.js:161-171 | One more feature adds its shape at the end exactly when its id is allowed |
| StateMap.AllowedColored | JS/map.js:36-41 | Every kept state has its own colour, never the default |
| StateMap.Find | JS/map.js:129 | `find` returns the first state with the id, and nothing exactly when no state has it |
| StateMap.Loaded | JS/map.js:158-176 | Once the map data loads, the current state is California's shape and no morph runs |
| StateMap.MorphToState | JS/map.js:80-121 | Without a current state nothing changes; otherwise a morph towards the target starts, and the current state is not yet replaced |
| StateMap.MorphToStateById | JS/map.js:123-149 | With no data or an unknown id nothing changes. A known id starts a morph and shows its description. The current state never changes here |
| StateMap.MorphEnd | JS/map.js:117-119 | When the morph ends, its target becomes the current state |
| StateMap.StepsKeepInv | JS/map.js:123-149 | The drawn state and the morph target are always loaded states |
| StateMap.MorphThenEnd | JS/map.js:113-149 | Clicking a loaded state and letting the morph finish draws that state, provided one was drawn before |

## Left out

- Rendering is not modelled: DOM, SVG, d3 scales, axes, joins, transitions,
  tooltips, zoom handlers and text fades. Where they hold logic, that logic
  is modelled: the axis bound, the visible slice, the label rule, and the
  morph's end.
- Network and file I/O are not modelled: `fetch`, `d3.csv`, `d3.json`,
  `fs`. Their results are inputs: CSV rows, API responses, a page function
  `fetch`, a file reader `read`, loaded graphs and map features.
- Timers, promises and transition ends are explicit events. Real durations,
  the one-second pause between page requests and the two-minute autoplay
  pause in the treemap are not modelled. After user input, autoplay is
  simply off (`Treemap.UserYear`).
- Number formatting and string parsing are not modelled: `d3.format`,
  `toFixed`, `Intl.NumberFormat`, `parseFloat` and unary `+`. Amounts arrive
  as `real`. In the bar chart a missing or unparsable amount is `None`,
  standing for `NaN`. Date strings arrive as millisecond
  timestamps.
- Floating-point arithmetic is modelled as exact rational arithmetic.
- Regular-expression suffix removal in both `shortenCompanyName` functions is
  an arbitrary function parameter `strip`. The model covers the lookup, the
  cleanup and the truncation around it.
- Case conversion (`toUpperCase`, `toLowerCase`) covers the ASCII letters
  only.
- Library layout and interpolation are not modelled: `d3.sankey`,
  `d3.treemap`, `d3.stratify` (including its rejection of duplicate ids),
  `flubber.interpolate` and `topojson.feature`. A map feature is its id and
  outer ring.
- Ordinal scales are modelled after their domains are set. Their implicit
  growth when asked about an unknown name is approximated by the next slot.
- BarChartPlayer: `loadData` is one event taken when its requests settle.
  Clicks that arrive while the requests are still pending are not
  interleaved with it. Its pause and cursor reset happen at the same moment
  in the model.
- StateMap.ScaleAndCenter: the drawing area is assumed to have positive
  width and height. Two inputs yield `None`. For a list with no points the
  browser maps nothing and gives an empty list. For a list with both extents
  zero the scale is `Infinity`, and the coordinates come out as `NaN` from
  `0 * Infinity`.
- ShortNames.Truncate: JavaScript's `length` and `substring` count UTF-16
  code units, the model counts characters. A name with characters outside
  the Basic Multilingual Plane is cut at a different place, and may be cut
  inside a surrogate pair in the browser.
- Sankey.NodeAlign: for the right-ending and recipient views the page hands
  the layout library a function that returns an alignment function, where
  the library expects a column number. The model gives the alignment that
  this choice selects. What the library lays out from such a value is not
  modelled.
- Sankey.OfferedViews: states which alignment each offered view selects, not
  the columns the layout library draws for the five views with a per-node
  choice (`business_size`, `org_type`, `state_action_type`,
  `state_business_size`, `state_org_type`).
- Sankey.LoadView: the layout's outcome is the input `laidOut`; why the
  library fails is not modelled.
- FetchRecipients.ToRecord: the API's `amount` is assumed to be a number.
  A missing amount would make `Math.round` give `NaN`, which the sort
  comparator then meets; the model has no such value.
- StateMap.MorphToStateById: the description element looked up by the
  lower-cased id is modelled as always present.
- Keyframes.StateRaceShape: it requires a non-empty file. The empty file is
  covered by `Keyframes.StateRaceNoRows`, which fails it before the race is
  built.
- Keyframes.RaceShape: for an empty root-page file the model reports
  `NotEnoughSnapshots`, but `d3.pairs([])` is empty, so example.js:71-82
  builds one frame `[new Date(undefined), []]` without failing, and the
  page fails only when drawing reads `keyframe[1][0].value` (example.js:112),
  after the chart's `svg` was appended. An invalid date and a half-drawn
  chart are not modelled; with one date or more the outcome is as stated.
- `JS/script.js` is DOM wiring around the other pages and is not part of this
  model.

## Findings

| source | as written | input that shows it | evidently intended | confidence | as-written member | corrected member |
|---|---|---|---|---|---|---|
| JS/example.js:365-393 | Loading a state (a state button or restart) starts a new `animate` loop and leaves the previous loop running. The resolver slot `currentAnimation` is kept as well. | A restart while the old chart's frame is in its transition: when that transition ends, the old loop draws its next frame. Or pause, restart, then pause and resume before the new loop reaches its gate: the old chart's parked loop is resumed. In both cases it updates the shared axis scale and statistics panel with the old state's data. | Loading a chart cancels the older loops and clears the resolver slot, so only the newest chart ever draws. | not executed | RacePlayback.StaleLoopDrawsAfterRestart | RacePlayback.StepInv |

The as-written behaviour is `RacePlayback.StepAsWritten`. The lemmas
`RacePlayback.StaleLoopDrawsAfterRestart` and
`RacePlayback.StaleResolverRevivesOldLoop` exhibit the discrepancy on
concrete event sequences. The corrected `RacePlayback.Step` cancels the old
loops on every reload. The rest of the model uses it:
`RacePlayback.StepInv`, `RacePlayback.OnlyNewestDraws` and
`RacePlayback.PausedDrawsNothing` are proved about it.
`RacePlayback.PausedDrawsNothing` and `RacePlayback.InFlightAwaited` hold for
the handlers as written too.
