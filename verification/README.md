# Talker grid of the FlowTrack dashboard, in Dafny

FlowTrack's browser dashboard polls the backend for the current top "talkers".
A talker is a pair of an internal and an external IP address that exchange traffic.
The dashboard draws the talkers as a grid, three cells per row. Next to each cell it
draws an indicator: whether the pair is new since the previous polling cycle, or has
moved up, moved down or kept its place. It also labels the traffic chart's y-axis
in B, kB or MB.

This project models three parts of `html/js/graphs.js`:

- **The rank diff** (`TalkerRank`). `onTalkerDataReceived` gives each pair a
  1-based position. It compares that position with the one recorded in
  `talkerData.lastUpdate`, then records the new position. The record is a
  `map<string, nat>`, and one cycle is a fold over the list of ids that
  produces one `GridItem` (id, position, indicator) per entry.
- **The row grouping** (`TalkerGrid`). The `div_count` counter decides where a
  row opens and closes. Only the open/cell/close structure of the markup is
  modelled, as `Token`s.
- **The unit choice** (`AxisUnits`). The y-axis `tickFormatter` picks a unit by
  comparing the tick value, a real number, with two thresholds, and appends
  that unit's suffix.

`TalkerGraphs.OnTalkerDataReceived` is the handler's loop as written: two
counters, the indicator reset for each cell, the record update and the row
bookkeeping. It is proved equal to the folds above. The global `talkerData`
object becomes a parameter and a result.

The model keeps these behaviours of the code as they are:

- Moving to a smaller position number, which is a better rank, shows the
  *down* arrow (`fa-arrow-circle-down`).
- The record is never pruned. A pair that drops out of the list keeps its old
  position.
- A pair that appears twice in one list always shows *up* at its later
  occurrence, and the later position is the one recorded.
- A trailing row with fewer than three cells is never closed.

## Model

| member | source | states |
|---|---|---|
| TalkerRank.IndicatorClass | html/js/graphs.js:84-97 | only the "unchanged" indicator draws no icon class |
| TalkerRank.IndicatorClassInjective | html/js/graphs.js:84-97 | the four indicators are drawn with four distinct classes, so the grid can tell them apart |
| TalkerRank.Classify | html/js/graphs.js:79-98 | an id with no record is new; otherwise a position smaller than the recorded one is Down, equal is unchanged and larger is Up; exactly one of the four holds |
| TalkerRank.Rank | html/js/graphs.js:72-102 | one cycle yields one cell per list entry, in list order, with positions exactly 1..n; afterwards the record's keys are the old keys plus every listed id, so nothing is removed |
| TalkerRank.RankRecordsLastOccurrence | html/js/graphs.js:100-102 | after a cycle every listed id is recorded at the 1-based position of its last occurrence, so a later duplicate overwrites an earlier one |
| TalkerRank.RankKeepsAbsent | html/js/graphs.js:100-102 | an id missing from the list keeps its earlier record, or stays unrecorded if it had none: the record, created once at lines 2-3, is only assigned to and never has a key removed |
| TalkerRank.RankPrefix | html/js/graphs.js:72-102 | the cells for the first k entries do not depend on what comes after them in the list |
| TalkerRank.RankItemUsesStateBefore | html/js/graphs.js:79-102 | each cell's indicator depends only on the record as it stood just before that cell, because the indicator is reset for every cell |
| TalkerRank.RankChangeMatchesExpected | html/js/graphs.js:80-102 | each indicator equals `ExpectedChange`, a description from the inputs alone: Up if the id already appeared earlier in this list, otherwise judged against the previous cycles' record |
| TalkerRank.RankNewIff | html/js/graphs.js:80-98 | a cell is marked new exactly when its id was never recorded and does not appear earlier in the same list |
| TalkerRank.RankRepeatShowsSame | html/js/graphs.js:82-102 | receiving the same duplicate-free list twice marks every cell unchanged the second time |
| TalkerRank.RankRepeatKeepsRecord | html/js/graphs.js:100-102 | receiving the same duplicate-free list twice leaves the record as the first cycle left it |
| TalkerGrid.RowStep | html/js/graphs.js:107-125 | the row counter stays below 3 and moves to (d + 1) mod 3; a counter at d emits the same tokens as the cell at position d + 1 |
| TalkerGrid.Grouping | html/js/graphs.js:66-125 | after n cells the counter is n mod 3, and the tokens are the position-based layout: a row opens before positions 1, 4, 7, ... and closes after 3, 6, 9, ... |
| TalkerGrid.Rows | html/js/graphs.js:107-125 | splitting into rows gives ceil(n/3) rows, each of 1 to 3 items, all but the last full, concatenating back to the items |
| TalkerGrid.LayoutOneRow | html/js/graphs.js:107-125 | up to three cells form one row, and the row is closed only when it holds three |
| TalkerGrid.LayoutIsRows | html/js/graphs.js:107-125 | the layout is the rows of at most three cells rendered in order, and a trailing partial row is left open |
| TalkerGrid.LayoutRowCounts | html/js/graphs.js:107-125 | n cells give ceil(n/3) row openings and floor(n/3) row closings |
| TalkerGraphs.OnTalkerDataReceived | html/js/graphs.js:64-129 | the handler's loop as written produces the record and the grid of the `Rank` fold and the position-based layout; the record's keys grow by exactly the listed ids |
| AxisUnits.UnitFor | html/js/graphs.js:24-29 | MB exactly above 1,000,000; kB exactly above 1,000 up to 1,000,000; B at 1,000 or below |
| AxisUnits.Mantissa | html/js/graphs.js:24-29 | the number shown, multiplied by its unit, gives the value back; it is above 1 unless the unit is B, and at most 1000 in kB |
| AxisUnits.Suffix | html/js/graphs.js:25-29 | every label suffix is a space, a unit prefix (M, k or none) and B |
| AxisUnits.SuffixNamesUnit | html/js/graphs.js:24-29 | the suffix is " MB" exactly above 1,000,000, " kB" exactly above 1,000 up to 1,000,000, and " B" otherwise, so the three suffixes tell the units apart |
| AxisUnits.UnitForMonotone | html/js/graphs.js:24-29 | a larger value never gets a smaller unit |
| AxisUnits.UnitBoundaries | html/js/graphs.js:24-28 | both thresholds are strict: exactly 1,000,000 is kB and exactly 1,000 is B |

## Left out

- The AJAX polling in `getMainGraphData` and `getTalkerData` (html/js/graphs.js:41-62) is left out. It is network I/O. The received list is a parameter instead.
- The Flot chart options and the `$.plot` call (html/js/graphs.js:8-39) are left out. They belong to an outside charting library. Only the tick formatter's unit choice is modelled.
- The jQuery `empty` and `append` calls and the markup text are not modelled. This includes the IP addresses, host names and element ids in each cell. The grid is the token sequence that replaces the old contents.
- The row `div`'s id attribute is not modelled. It is always written as `1`, because it is emitted only when `div_count` is 1.
- Each talker object is reduced to its `id`. The other fields appear only in the markup text.
- The `console.log` call (html/js/graphs.js:104) is left out. It is only a side effect.
- AxisUnits.Mantissa: tick values and the division are exact reals. The source uses floating-point numbers and rounds with `toFixed(axis.tickDecimals)`. That rounding and the digits of the label are not modelled; the suffix is.
- AxisUnits.UnitFor: tick values are exact reals, not floating-point numbers. NaN and the infinities are not modelled; in the source NaN fails both comparisons and would be labelled B.
- TalkerRank.Classify: JavaScript's `in` also finds names on the object's prototype chain, such as `constructor` or `toString`. The model uses plain map membership. Talker ids are composite IP-pair ids and never collide with those names.
- Positions are unbounded naturals. JavaScript numbers are doubles, but the top-talkers query asks for 21 entries, so the difference never shows.
