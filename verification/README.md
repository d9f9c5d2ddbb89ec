# A verified model of the table engine and its state machines

This project models, in Dafny, the parts of the terminal application that decide
what is on screen and when data is reloaded, and proves what they promise for every
input and every run. Values of the program are datatypes and sequences; objects that
the program updates in place are classes (the tab, the dashboard, the tree overlay,
the column finder, the sync handler, the navigation state) whose methods carry the
program's loops and are proved against functions of the old state.

| file | component |
|---|---|
| `Schema`, `Sums` | cells, column specs, pins, sorts, the tab; sums of widths |
| `WaterFill`, `Layout` | the two round-robin allocators, natural widths, the three layout regimes |
| `Viewport`, `Columns`, `TableView`, `WideSymbol` | the scrolling column window, the visible projection, hiding and the cursor, the drawn viewport, a currency symbol of two cells |
| `Pins`, `Sort`, `Refresh` | pins and the row filter, magnitude translation, the multi-key stable sort, the whole refresh |
| `Dashboard` | the navigation index, the renderer that numbers the same entries, the scroll window |
| `OpsTree`, `OpsShown`, `OpsView`, `OpsClash` | building the JSON tree, what it shows of the value, its visible rows, expand and collapse, a value with a dotted key |
| `Fuzzy`, `Finder` | greedy fuzzy matching, the ranked list, highlighting, the column finder |
| `SyncMachine`, `Drilldown` | background sync over all interleavings, the drilldown stack and reload freshness |
| `ClaudeStream` | the stream of the claude command line turned into chunks |
| `WordWrap`, `WrapShown`, `GroupOps` | word wrapping and what stands in its output, grouping extracted operations into preview tables |

How the program's surroundings appear:

- The currency symbol, visible width, lower-casing, white space and letters, cell
  trimming, number and date parsing, magnitude formatting and value formatting are
  function parameters. Parsed numbers are reals and parsed dates are integers, compared
  as such.
- A load from the store gives a tab the store's version number and its rows; it can
  fail. Timers, a running sync and the network are events of a world in which any
  enabled event may happen next.
- Go's integers are unbounded here: widths, offsets, cursors and generations stay far
  below the machine range.
- The standard library's stable sort is written as an insertion sort; where the comparator
  is a strict weak order, its result is proved to be the only stable order, so the
  algorithm does not matter. For other comparators only a rearrangement is promised.

Where the code does something other than one might expect, the model follows the code:

- Preview columns for maintenance items take columns 3 and 6 of the tab, Season and
  Next, for the appliance and the interval (internal/app/extraction_render.go:768-771 with
  internal/app/coldefs.go:111-126).
- A text's blank paragraphs before its first word vanish when it is wrapped
  (internal/app/view.go:1120-1123).
- A column in which only some cells parse can make the comparator run in a circle
  (`Sort.MixedColumnCycles`). It does not if and only if the cells that parse agree, as
  values, with the others as text (`Sort.StrictWeakExactly`): one all-digit ID among the
  short IDs of column 0 does no harm (`Sort.OneParsingIsOrderly`). For a stack of several
  columns `Sort.StackExactly` says when it does not.
- Tree nodes are told apart by dotted paths, which clash when a key contains a dot: the
  toggle key may move another node under the cursor (`OpsClash.DottedKeysClash`, exactly
  when: `OpsView.ToggleKeepsNodeExactly`), and the collapse key may close another node
  than the parent (`OpsClash.DottedKeyMissesParent`, exactly when:
  `OpsView.CollapseGoesToParentExactly`). A parent that moves up can still get the cursor,
  when clamping puts it on the last row (`OpsClash.ClampingCatchesParent`).
- A pin whose values no loaded row has is left as it is when the display mode flips and
  may then match other rows, as a pin on a magnitude that was left over does
  (`Pins.DeadPinComesAlive`, exactly when: `Pins.DeadPinWakesExactly`; `Pins.TranslationExact`
  says for any list of pins exactly when the matching rows stay).
- The scroll offset is computed with the dollar sign in money headers, whatever the
  currency (internal/app/model.go:1730 with internal/app/table.go:801), and from the
  displayed rows, also while pins make the drawing measure all loaded rows
  (internal/app/table.go:164-178). So a drawing may open elsewhere than at the offset, as
  with a symbol of two cells (`WideSymbol.WideSymbolScrolls`); it opens there if both
  measure the same rows and the symbol is as wide as the dollar sign or not shown
  (`TableView.DrawnAtOffset`), and in general exactly if the window there shows the cursor
  in the drawn widths (`TableView.DrawnAtOffsetExactly`).
- A pending reload is dropped even if it fails when its form is closed: a delivered pull may
  stay hidden on the tabs that were not loaded, until they are loaded for another reason
  (`SyncMachine.FailedExitHidesPull`, `SyncMachine.StaysBehind`).
- Closing all drilldowns at once does not move the column cursor after a changed service
  log, as closing them one by one does (`Drilldown.CloseAllIsCloseEach`).
- A form opened from form mode leaves the application in form mode for good
  (`SyncMachine.ReopenedFormSticks`).
- A process killed in the middle of a JSON object ends the stream with an unexpected
  end of file, which counts as malformed: a cancelled run may be reported as malformed.
  An error of the decoder is never reported as a cancellation (`ClaudeStream.VerdictExactly`),
  but a stray closing bracket is no error to it: the reading ends, and if the process then
  stalls, the run is reported as cancelled (`ClaudeStream.StrayBracketUnnoticed`).
- Switching to a tab reloads it whether or not it is marked stale, although the comment
  there calls the reload lazy (internal/app/model_tabs.go:427-438).
- A tab whose load fails after a mutation is not marked stale
  (`Drilldown.FailedLoadIsUnmarked`); the marks of tabs whose last load did not fail tell
  the truth (`Drilldown.MarksAfterFailures`).
- After a sync pull an open drilldown shows old rows (`Drilldown.PullFreshExactly`), and
  a document search from a drilldown may show a stale documents tab
  (`Drilldown.SearchFreshExactly`).

`dafny verify dfyconfig.toml` checks the whole project.

## Model

| member | source | states |
|---|---|---|
| WaterFill.FairHasLevel | internal/app/table.go:928-985 | a share is fair (shares of columns short of their cap differ by at most one, earlier first) only if it is a water level: everyone at the level or the cap, and one more for an initial run |
| WaterFill.LevelIsFair | internal/app/table.go:928-985 | the converse: every water level is fair |
| WaterFill.FairUnique | internal/app/table.go:928-985 | there is only one fair share of a given total |
| WaterFill.RoundOutcome | internal/app/table.go:933-944 | one pass of the round-robin loop raises the level by one, or leaves a partial level and nothing to give, or finds every column full |
| WaterFill.FairSplitUnique | internal/app/table.go:928-985 | before, after, caps and amount determine the allocation: the allocators have no freedom left |
| Layout.Distribute | internal/app/table.go:948-985 | in place, the listed columns change by a fair split of the amount within their caps; unlisted columns stay; a column that grows does not pass its maximum, and one that shrinks does not pass its minimum |
| Layout.WidenTruncated | internal/app/table.go:928-946 | in place, columns below their natural width share the extra fairly; the result is exactly what could not be used |
| Layout.WidenUsesAll | internal/app/table.go:928-946 | when the natural widths do not fit, nothing is left over and no column passes its natural width |
| Layout.NaturalWidth | internal/app/table.go:883-923 | the width is the largest demand of the title, the fixed values and the cells (a note counts its first line and the suffix for the others), at least Min, and for notes at most Max |
| Layout.HeaderHolds | internal/app/table.go:286-299 | the measured title is the header that is drawn, with its arrow or currency symbol, and the room for a sort indicator |
| Layout.IndicatorRoom | internal/app/table.go:266-315 | that room holds the indicator of every entry of every sort stack, and the widest one fills it |
| Layout.CellHolds | internal/app/table.go:896-909 | the measured cell is what is drawn of it: the first line and, for a note with more lines, an ellipsis, a blank and "+" with their number |
| Layout.ComputeNaturalWidths | internal/app/table.go:883-923 | every column gets its natural width |
| Layout.DollarNatural | internal/app/table.go:286-299 | a natural width measured in dollars is the one measured with the currency symbol, if the header does not show the symbol or the symbol is as wide |
| Layout.NaturalAtLeastMin | internal/app/table.go:883-923 | a natural width is never below Min when Min is at most Max |
| Layout.FlexOrAll | internal/app/table.go:987-1003 | the columns that take part are the flexible ones, or all if there is none, in order |
| Layout.ColumnWidths | internal/app/table.go:786-853 | the widths obey the layout law for the natural widths, given or measured in dollars, and the space left by the separators |
| Layout.LayOut | internal/app/table.go:804-852 | the three regimes: natural plus grown flexible columns, capped plus widened, capped and shrunk |
| Layout.LaidUnique | internal/app/table.go:786-853 | the layout law has exactly one solution |
| Layout.NaturalNeverTruncates | internal/app/table.go:804-817 | when the natural widths fit, no column is narrower than natural, the total fits, and space is left only if every flexible column is at its maximum |
| Layout.CappedFillsExactly | internal/app/table.go:819-843 | in the capped regime the columns fill the space exactly, each between its capped and its natural width |
| Layout.ShrinkHitsWidthOrFloor | internal/app/table.go:845-852 | in the shrink regime the total is exactly the space, or every shrinkable column is at its minimum; others are untouched |
| Layout.NeverBelowMin | internal/app/table.go:786-853 | in every regime each column keeps its minimum width |
| Layout.NeverAboveMax | internal/app/table.go:804-852 | in every regime a column with a maximum is no wider than the larger of it and its content; when the content fits, columns that may not grow are as wide as their content |
| Layout.AvailableFills | internal/app/table.go:786-803 | the space for columns and the separators together are exactly the terminal, unless that left less than one cell for every column |
| Layout.WithinOrFloored | internal/app/table.go:786-853 | a layout keeps to its space, or every column is at its floor: shrinkable ones at their minimum, the others at their cap |
| Layout.PartFits | internal/app/table.go:168-197 | columns that together fit some space in the layout of all columns fit it when they are laid out alone in it, although other columns may be shrinkable then and another regime may apply |
| Viewport.VisibleRange | internal/app/table.go:769-784 | the row window has the full height when there are enough rows, contains the clamped cursor, and centres it away from both ends |
| Viewport.WindowAtEdges | internal/app/table.go:767-784 | near the first or the last row the window stands at that end, and elsewhere half a window above the cursor |
| Viewport.ViewportRange | internal/app/table.go:1056-1138 | the loops compute the window that the scrolling law describes |
| Viewport.WindowEndFurthest | internal/app/table.go:1083-1108 | the greedy end is the furthest end that fits with its indicators, or one column |
| Viewport.ScrollLeast | internal/app/table.go:1110-1135 | scrolling stops at the least start from which the cursor is in the window |
| Viewport.RangeShowsCursor | internal/app/table.go:1056-1138 | the cursor is in the window, the indicators are shown iff columns are hidden on that side, the window is the furthest that fits, and no earlier start at or after the old offset would show the cursor |
| Viewport.RangeStable | internal/app/table.go:1056-1138 | feeding the start back in gives the same window |
| Pins.MatchesAllPins | internal/app/filter.go:90-101 | the loop answers whether every pin has the row's key in its column |
| Pins.MatchesByKeys | internal/app/filter.go:90-101 | a row matches iff in every pinned column its own key is pinned: values are alternatives, columns are all required |
| Pins.PinnedCellMatches | internal/app/filter.go:71-85 | pinning a null cell keeps exactly the null cells, pinning an entity keeps the entities of its kind in both displays, and pinning any other cell keeps the cells that read the same in the display at hand |
| Pins.TogglePin | internal/app/filter.go:19-43 | the pins become the toggled pins, and the answer says whether the key was absent |
| Pins.ToggledFlips | internal/app/filter.go:19-43 | toggling flips exactly one column and key and keeps the pins well formed |
| Pins.ToggleTwice | internal/app/filter.go:19-43 | toggling twice keeps the matching rows |
| Pins.ClearPins | internal/app/filter.go:46-50 | no pins are left and both filter flags are off |
| Pins.ClearPinsForColumn | internal/app/filter.go:54-65 | the column's pins go; the flags go with the last pin |
| Pins.ClearedColumn | internal/app/filter.go:54-65 | exactly the pins of that column are gone |
| Pins.TranslatePins | internal/app/filter.go:181-218 | every pin's keys become the new keys of the loaded rows it matched, or stay when it matched none |
| Pins.TranslationKeepsRows | internal/app/filter.go:181-218 | in either direction, no matching row is lost, whatever the data |
| Pins.LiveTranslation | internal/app/filter.go:181-218 | a translated pin matches exactly the rows that share a new key with a row it matched |
| Pins.TranslationMeets | internal/app/filter.go:181-218 | after the switch a row matches a list of pins iff for every pin it shares a new key with a row the pin matched or, if the pin matched none, has one of the pin's old keys |
| Pins.TranslationExact | internal/app/filter.go:181-218 | for any list of pins, the switch keeps exactly the matching rows iff every row that some pin rejected by its old key is rejected, by its new key, by a pin with rows none of which has it or by a pin without rows |
| Pins.DeadPinComesAlive | internal/app/filter.go:181-218 | a pin on a magnitude, left over from a row that is gone and matching nothing by raw values, matches another row after the switch to magnitudes |
| Pins.DeadPinWakesExactly | internal/app/mag.go:16-74 | since magnitudes bear an arrow, a pin that matches no loaded row by raw values comes alive with the magnitudes iff it has the magnitude of a loaded cell; without an arrow among its values it stays dead |
| Pins.MagToRawExact | internal/app/filter.go:181-218 | from magnitudes to raw values exactly the same rows match, if each pin matches some row and equal raw keys give equal magnitudes |
| Pins.RoundTripClosure | internal/app/filter.go:181-218 | raw to magnitude and back keeps the matching rows and adds exactly the rows of the same magnitudes |
| Pins.RoundTripStable | internal/app/filter.go:181-218 | a second round trip changes nothing |
| Pins.FilterRows | internal/app/filter.go:116-138 | cells, metadata and widget rows are filtered by the same flags |
| Pins.SelectExactly | internal/app/filter.go:116-138 | exactly the flagged rows are kept, in their order |
| Pins.DimRows | internal/app/filter.go:140-155 | without an active filter the non-matching rows are marked dimmed and nothing is dropped |
| Pins.InversionShares | internal/app/filter.go:122-133 | a filter and its inversion together show every row, each row once |
| Pins.ApplyRowFilter | internal/app/filter.go:108-156 | the displayed arrays in each of the three cases, in step |
| Sort.ToggleSort | internal/app/sort.go:20-33 | the sort stack becomes the toggled one |
| Sort.ToggleCycle | internal/app/sort.go:20-33 | ascending, descending, off: three toggles of a new column restore the stack, and a column is never listed twice |
| Sort.ToggleInPlace | internal/app/sort.go:20-33 | a column in the stack keeps its place when it turns to descending and leaves when toggled once more; other entries and their order stay |
| Sort.ClearSorts | internal/app/sort.go:36-38 | no sort entries are left |
| Sort.WithPKTiebreaker | internal/app/sort.go:140-147 | the user's entries come first, and the first column is in the stack |
| Sort.TiebreakerOrders | internal/app/sort.go:140-147 | a stack with an entry on column 0 stays as it is; otherwise the completed stack orders two rows as the user's entries do and, where these tie, puts first the row with the smaller value in column 0, nulls last |
| Sort.FirstDecides | internal/app/sort.go:67-93 | the first entry of a stack that tells two rows apart decides their order |
| Sort.Less | internal/app/sort.go:67-93 | the loop over the stack decides the comparison |
| Sort.StrictWeakOrder | internal/app/sort.go:55-96 | on orderly columns (cells that parse agree, as values, with the others, as text) the comparator of a whole sort stack is irreflexive, asymmetric, transitive, and so is its complement |
| Sort.TransitiveExactly | internal/app/sort.go:102-136 | the comparison of one column, in either direction, is transitive on the rows iff the column is orderly |
| Sort.StrictWeakExactly | internal/app/sort.go:55-96 | the comparator of one sort entry is a strict weak order on the rows iff its column is orderly |
| Sort.HomogeneousIsOrderly | internal/app/sort.go:118-131 | a column in which all cells parse or none does is orderly |
| Sort.OneParsingIsOrderly | internal/app/sort.go:124-130 | so is one in which a single cell parses whose text no other cell has |
| Sort.OrderlyIsSortable | internal/app/sort.go:55-96 | rows with orderly sort columns can be sorted; with one sort column, only then |
| Sort.StackExactly | internal/app/sort.go:67-93 | for a sort stack of any height and any columns, the comparator is a strict weak order on the rows iff the rest of the stack is one among the rows that the head does not tell apart, and turns round a tied pair in every circle that the head runs in |
| Sort.OrderlyHasNoCircle | internal/app/sort.go:102-136 | a column runs in no circle iff it is orderly |
| Sort.BeforeAsymmetric | internal/app/sort.go:67-93 | whatever the columns, no two rows precede each other |
| Sort.AscendingByValue | internal/app/sort.go:102-136 | an ascending column orders parsed cells by amount, date or number and all others by lower-case text |
| Sort.StringsLexicographic | internal/app/sort.go:41-49 | texts compare as in the dictionary: at the first character that differs, or the shorter first |
| Sort.DescendingReverses | internal/app/sort.go:87-90 | a descending column reverses the order of its non-null cells |
| Sort.NullsLast | internal/app/sort.go:72-81 | among rows that the entries before an entry do not tell apart, nulls of its column go last in both directions |
| Sort.NullsShownLast | internal/app/sort.go:72-81 | in the displayed order, of two rows tied on the entries before an entry, the later one is null in its column if the earlier one is |
| Sort.MixedColumnCycles | internal/app/sort.go:118-131 | a column that is not orderly: three short IDs precede each other in a circle |
| Sort.SliceStable | internal/app/sort.go:62-93 | in place, the row numbers are rearranged, none lost, whatever the comparator does; they come into stable order whenever it is a strict weak order on the rows |
| Sort.StableOrderUnique | internal/app/sort.go:62-93 | whatever the columns, there is at most one stable order of given rows |
| Sort.ReorderTab | internal/app/sort.go:180-198 | cells, metadata and widget rows are moved by the same numbers |
| Sort.ApplySorts | internal/app/sort.go:55-96 | the three displayed arrays are the old ones, moved by one permutation; it is the stable order whenever the comparator is a strict weak order on the rows |
| Refresh.RefreshTable | internal/app/model.go:1708-1716 | the tab shows the loaded records, filtered, in some order and in three aligned arrays; the order is the sorted one whenever the comparator is a strict weak order on the filtered rows, as it is when it is one on the loaded rows |
| Refresh.ShownByID | internal/app/model.go:1708-1716 | of two displayed records that the user's entries, none on column 0, do not tell apart, column 0 does not put the later one first; without entries the whole display is ascending by column 0 |
| Refresh.ShownByUser | internal/app/model.go:1708-1716 | of two displayed records that the user's entries tell apart, the first entry that does so does not put the later one first |
| Refresh.RefreshIdempotent | internal/app/model.go:1708-1716 | the refresh has at most one possible outcome, so repeating it changes nothing |
| Refresh.PinUnpinRestores | internal/app/filter.go:19-43 | pinning and unpinning a value gives back the same filtered records, with the same dimming, and so the same display |
| Refresh.FilterSortCommute | internal/app/model.go:1708-1716 | filtering, dimming or leaving the records and then sorting equals sorting first, even with ties |
| Refresh.LoadOrderIrrelevant | internal/app/sort.go:140-147 | with distinct first-column keys the display does not depend on the order of loading |
| Refresh.KeysBreakTies | internal/app/sort.go:140-147 | rows with different first-column keys are never tied |
| Columns.VisToFullLists | internal/app/table.go:36-75 | the projection lists exactly the visible columns in increasing order |
| Columns.ProjectCells | internal/app/table.go:231-248 | cell k of a projected row is the full row's cell at the k-th column; short rows lose exactly the columns they lack |
| Columns.VisibleProjection | internal/app/table.go:36-75 | specs, rows, cursor and sorts of the visible columns |
| Columns.VisibleSortsExactly | internal/app/table.go:36-75 | the visible sort entries are exactly those of visible columns, in the order of the stack, each with its direction and the place of its column |
| Columns.FullToVisFinds | internal/app/table.go:36-75 | a column has a place among the visible ones iff it is visible |
| Columns.ScanNearest | internal/app/model.go:1522-1557 | a scan finds the nearest visible column in its direction, or there is none |
| Columns.NextVisibleCol | internal/app/model.go:1522-1537 | the next visible column, or the current one |
| Columns.FirstVisibleCol | internal/app/model.go:1540-1547 | the first visible column, or 0 |
| Columns.LastVisibleCol | internal/app/model.go:1550-1557 | the last visible column, or 0 |
| Columns.VisibleCount | internal/app/model.go:1560-1568 | the number of visible columns |
| Columns.NextHideOrder | internal/app/model.go:1571-1579 | one more than any hide order in use |
| Columns.ArrowsByPlace | internal/app/model_keys.go:113-136 | in places among the visible columns, left and right move by one and stop at the ends, first and last go to the ends |
| Columns.HideMovesOn | internal/app/model.go:1640-1672 | hiding moves the cursor to the nearest visible column on the right, else on the left |
| Columns.StepKeepsGood | internal/app/model.go:1640-1690 | every column key keeps the cursor on a visible column and hide orders distinct |
| Columns.RunKeepsGood | internal/app/model.go:1522-1690 | so does every run of hide, show all, jump, click, left, right, first and last |
| Columns.HideThenJump | internal/app/column_finder.go:66-88 | jumping back to a hidden column undoes the hiding |
| Columns.GoingTo | internal/app/column_finder.go:66-88 | a click goes to a visible column, the finder's jump to any column, which it shows; showing all shows every column; no other column changes |
| TableView.EnsureCursorVisible | internal/app/table.go:1034-1051 | the stored offset becomes the old one clamped to at most the cursor |
| TableView.EnsuredNearest | internal/app/table.go:1034-1051 | an offset at or left of the cursor stays, any other goes to the nearest such offset |
| TableView.UpdateTabViewport | internal/app/model.go:1718-1736 | the offset becomes the start of the window, opened from the clamped old offset, over the one layout of the visible columns by their natural widths in dollars on the displayed rows; the cursor is on screen; on a hidden cursor the offset is reset |
| TableView.SizedUnique | internal/app/table.go:786-853 | rows, columns and room determine the natural widths and the layout |
| TableView.LaidOutIsPositive | internal/app/table.go:786-853 | measured and laid out columns are at least one cell wide, as the window law needs |
| TableView.WindowShowsCursor | internal/app/table.go:1056-1138 | for any widths the cursor is in the window |
| TableView.ComputeTableViewport | internal/app/table.go:146-203 | the drawn specs, cells, links, cursor, sorts and gap marks are those of the window, over the layout of the visible columns by natural widths on the rows consulted for links; the drawn widths are the layout of the window's columns alone, by the same natural widths |
| TableView.FilterKeepsWidths | internal/app/table.go:159-178 | while pins are set, the filter does not move columns: the same loaded rows give the same layout |
| TableView.DrawnCursor | internal/app/table.go:146-203 | a drawn cursor maps back to the tab's cursor column, and is drawn whenever it is on screen |
| TableView.DrawnFits | internal/app/table.go:146-203 | the widths that are drawn, with their separators, take no more than the terminal, or a single column is drawn at its minimum |
| TableView.WindowFits | internal/app/table.go:173-178 | the window is the furthest that fits the terminal with its indicators, or one column |
| TableView.DrawnAtOffset | internal/app/model.go:1718-1736 | a drawing after an update of the viewport opens exactly at the stored offset, when both measure the same rows, as they do without pins, and the currency symbol is as wide as the dollar sign or no visible header shows it |
| TableView.DrawnAtOffsetExactly | internal/app/table.go:164-178 | whatever rows and symbol the drawing measures, it opens at the stored offset iff the window there shows the cursor in the widths it is sized by, or, when all columns fit, iff the offset is 0 |
| WideSymbol.WideSymbolScrolls | internal/app/coldefs.go:72-104 | with a two-cell symbol, the quotes table with Other and Docs hidden, no rows and a terminal of 87 cells, the update stores the offset 0 and the drawing opens at the second visible column |
| TableView.SliceViewportRows | internal/app/table.go:1152-1158 | every row is cut to the window |
| TableView.ViewportSorts | internal/app/table.go:252-261 | sort columns are shifted to window positions |
| TableView.GapSeparators | internal/app/collapse.go:13-37 | a separator is marked iff the full columns on its sides are not neighbours |
| TableView.MarkedGapsHide | internal/app/collapse.go:13-37 | a gap is marked iff a hidden column lies in it |
| TableView.ViewportPins | internal/app/view.go:738-763 | a window column has a pinned key iff its full column has it |
| TableView.HideCurrentColumn | internal/app/model.go:1640-1672 | the column step, the dropped pins, the displayed rows (filtered again while pins are left, else as they were) and the viewport after hiding |
| TableView.ShowAllColumns | internal/app/model.go:1674-1690 | every column visible again, the cursor still on screen |
| TableView.MoveCursor | internal/app/model_keys.go:113-136 | the cursor step, on screen afterwards |
| TableView.JumpTo | internal/app/column_finder.go:66-88 | the jumped-to column visible, under the cursor and on screen |
| Dashboard.Flatten | internal/app/dashboard.go:407-415 | the index is a header per group and the entries of the expanded groups |
| Dashboard.NavPositions | internal/app/dashboard.go:407-415 | every section takes one stretch of the index, in order: its header, and its entries below it if it is expanded |
| Dashboard.GroupsExactly | internal/app/dashboard.go:359-405 | each of the six sections is listed iff it has items, in the display order, each item with its own tab, the insurance last among the expiring ones and for information only |
| Dashboard.Dash.BuildDashNav | internal/app/dashboard.go:359-421 | the index of the current data, with the cursor pulled into it |
| Dashboard.SectionsMatchGroups | internal/app/dashboard.go:454-506 | the renderer's sections and the index's groups list the same titles and entries |
| Dashboard.RenderMiniTable | internal/app/dashboard.go:112-224 | labels and a rule iff some label is set, then one line per row in order, none numbered yet |
| Dashboard.MarkedEntry | internal/app/dashboard.go:514-566 | in the rendered lines, the line numbered k stands for entry k |
| Dashboard.Dash.RenderRows | internal/app/dashboard.go:546-565 | the table of the section is drawn below the lines there are, its rows numbered on from the running counter, and the cursor's line is found iff the cursor is among them |
| Dashboard.Dash.RenderHeader | internal/app/dashboard.go:527-541 | a blank line unless the section is the first, then the header with the number of its rows and its number in the index |
| Dashboard.Dash.RenderSection | internal/app/dashboard.go:524-566 | below the lines there are stand a blank line unless the section is the first, its header with the number of its rows, and its table if it is expanded; its clickable lines are exactly its part of the index |
| Dashboard.Dash.RenderLines | internal/app/dashboard.go:514-566 | the lines are those of the sections one after the other; the clickable ones are the whole index in order, and the cursor's line bears the cursor's number |
| Dashboard.Dash.ScrollDashTo | internal/app/dashboard.go:932-945 | the offset becomes the scrolled one |
| Dashboard.LeastScroll | internal/app/dashboard.go:932-945 | the scrolled offset shows the target in a window that is full where it can be, and no other such offset is nearer to the old one |
| Dashboard.Dash.SettleScroll | internal/app/dashboard.go:572-590 | the three-round loop computes the settled offset and indicator count |
| Dashboard.SettlesInThree | internal/app/dashboard.go:568-610 | from any offset, with a budget of at least three, the count is a fixpoint, the output is exactly the budget, and the cursor's line is in the window |
| Dashboard.CursorInWindow | internal/app/dashboard.go:568-610 | for every budget the cursor's line is in the window, the window is no larger than the budget, and the output no smaller |
| Dashboard.BudgetOfThree | internal/app/view.go:185-186 | a budget is never exceeded iff it is at least three lines |
| Dashboard.Dash.DashboardView | internal/app/dashboard.go:454-613 | the lines are those of the sections in order; all are shown if they fit the budget, else those from the offset to an end, in order, below a line with the number of lines above iff there are any and above one with the number of lines below iff there are any; the selected entry is on screen, and with the floor of three lines the output is the budget |
| Dashboard.Dash.Visible | internal/app/dashboard.go:594-606 | the output is the lines of the window in order, between the two indicators, each iff lines are hidden on its side and with their number |
| Dashboard.Dash.DashDown | internal/app/dashboard.go:776-785 | the cursor moves down within the index |
| Dashboard.Dash.DashUp | internal/app/dashboard.go:787-792 | the cursor moves up and stops at the first entry |
| Dashboard.Dash.DashTop | internal/app/dashboard.go:794-797 | the cursor goes to the first entry and the offset to the first line |
| Dashboard.Dash.DashBottom | internal/app/dashboard.go:799-805 | the cursor goes to the last entry |
| Dashboard.Dash.DashNextSection | internal/app/dashboard.go:808-816 | the cursor goes to the nearest header below, or stays |
| Dashboard.Dash.DashPrevSection | internal/app/dashboard.go:819-826 | the cursor goes to the nearest header above, or stays |
| Dashboard.Dash.DashToggleCurrent | internal/app/dashboard.go:857-867 | the section of the selected entry is toggled |
| Dashboard.Dash.DashToggleAll | internal/app/dashboard.go:871-887 | all listed sections collapse if all were expanded, else all expand |
| Dashboard.ToggleKeepsHeader | internal/app/dashboard.go:849-867 | toggling the section of a header leaves that header at its place in the index |
| Dashboard.GroupsWellFormed | internal/app/dashboard.go:359-401 | the groups have distinct titles and no headers among their entries |
| OpsTree.ParentOfChild | internal/app/ops_tree.go:235-241 | the parent of a child's path is the parent's path iff the key has no dot |
| OpsTree.JoinInjective | internal/app/ops_tree.go:143-169 | with dot-free keys a path determines the keys |
| OpsTree.PrefixColumns | internal/app/ops_tree.go:172-187 | a prefix has a column per ancestor, a line iff that ancestor has later siblings, and a corner iff the node is last |
| OpsTree.FieldsSorted | internal/app/ops_tree.go:152-157 | fields are shown in key order, action and table first, none lost and none added |
| OpsTree.LeadingKeys | internal/app/ops_tree.go:191-208 | action comes before every other key, and table before the rest |
| OpsTree.OtherKeys | internal/app/ops_tree.go:191-208 | all other keys come in the order of the dictionary |
| OpsTree.BuiltIsGrown | internal/app/ops_tree.go:143-169 | every built node's path is its keys joined, and siblings differ |
| OpsTree.TreeIsGrown | internal/app/ops_tree.go:108-139 | the same for the tree that is opened, with at most one root |
| OpsTree.TreeIsClean | internal/app/ops_tree.go:108-139 | a value with dot-free keys gives a tree with dot-free keys |
| OpsShown.NodeShows | internal/app/ops_tree.go:143-169 | a built node shows its value: the text of a leaf, the items of an array in order and numbered from 0, the fields of an object under their keys in key order, and so on below; its guides tell which ancestors have later siblings |
| OpsShown.TreeShows | internal/app/ops_tree.go:108-139 | the opened tree is one root that shows the parsed list, a single object being a list of one; there is none for an unreadable text or an empty list |
| OpsShown.DigitsRead | internal/app/ops_tree.go:160-166 | items are numbered in decimal, without leading zeros |
| OpsView.CountAllNodes | internal/app/ops_tree.go:211-218 | the number of nodes |
| OpsView.Walk | internal/app/ops_tree.go:77-90 | the walk appends the visible nodes |
| OpsView.VisibleIsRevealed | internal/app/ops_tree.go:77-90 | the visible nodes are the preorder restricted to nodes whose ancestors are all expanded |
| OpsView.VisibleAtMostAll | internal/app/ops_tree.go:211-218 | there are at most as many as nodes |
| OpsView.PrefixStays | internal/app/ops_tree.go:77-90 | toggling a path leaves every row up to the first node with that path in place |
| OpsView.OpeningSpreads | internal/app/ops_tree.go:77-90 | opening a path inserts, after each visible node with it, the rows below that node, and changes nothing else |
| OpsView.MovesDown | internal/app/ops_tree.go:77-90 | a row moves down under opening iff an affected node is above it |
| OpsView.RowsApart | internal/app/ops_tree.go:77-90 | no two visible nodes have the same keys from the root |
| OpsView.TreeIsRooted | internal/app/ops_tree.go:108-139 | every decoded value gives a well-grown tree with a named root |
| OpsView.TreeIsTidy | internal/app/ops_tree.go:108-139 | a decoded value with dot-free keys gives a tidy tree |
| OpsView.PathsDistinct | internal/app/ops_tree.go:143-169 | in a tidy tree no two visible nodes share a path |
| OpsView.ToggleKeepsNode | internal/app/ops_tree.go:375-383 | in a tidy tree toggling a node always leaves it and all rows above it in place |
| OpsView.ToggleKeepsNodeExactly | internal/app/ops_tree.go:375-383 | for any keys, toggling a node, open or closed, leaves it in its row iff no expandable node above it has the same path; the rows above stay too |
| OpsView.ParentAbove | internal/app/ops_tree.go:77-90 | every visible node below the top has its expanded parent above it |
| OpsView.ArrowsByRow | internal/app/ops_tree.go:369-419 | down and up move by one row and stop at the ends; top and bottom go there |
| OpsView.RunInRange | internal/app/ops_tree.go:360-422 | after every key of every run the cursor is on a visible node and the preview tab exists |
| OpsView.ExpandKeepsCursorExactly | internal/app/ops_tree.go:375-383 | for any keys, the toggle key keeps the cursor on its node iff no expandable node above has its path, and then a second time restores the state |
| OpsView.ExpandKeepsCursor | internal/app/ops_tree.go:375-383 | in a tidy tree toggling keeps the cursor on its node, and twice restores the state |
| OpsView.CollapseGoesToParentExactly | internal/app/ops_tree.go:384-404 | for any keys, collapsing from a node that is not open leaves the cursor on its parent, now closed, iff the node's key has no dot and no expandable node above the parent has the parent's path, or the parent's rows are the last ones, so that clamping catches it |
| OpsView.CollapseGoesToParent | internal/app/ops_tree.go:384-404 | in a tidy tree collapsing from a child or closed node leaves the cursor on its parent, which is in its row and now collapsed; toggling there gives back the old rows |
| OpsView.KeysOnOpenAndLeaf | internal/app/ops_tree.go:375-404 | collapsing an open node does what toggling it does; toggling a leaf and, in a tidy tree, collapsing a closed root change nothing |
| OpsView.TabsByOne | internal/app/ops_tree.go:405-412 | the preview tabs move by one and stop at the ends |
| OpsClash.DottedKeysClash | internal/app/ops_tree.go:143-169 | the tree of a value with a dotted key, in which the toggle key puts another node under the cursor |
| OpsClash.DottedKeyMissesParent | internal/app/ops_tree.go:235-241 | in that tree the collapse key closes another node than the parent and goes there |
| OpsClash.ClampingCatchesParent | internal/app/ops_tree.go:384-404 | in that tree the parent moves up although its child's key has no dot, and clamping still leaves the cursor on it |
| OpsView.Overlay.ClampCursor | internal/app/ops_tree.go:93-105 | the cursor is pulled into the visible rows |
| OpsView.Overlay.HandleKey | internal/app/ops_tree.go:360-422 | a key press is the step of the state |
| Fuzzy.FuzzyMatch | internal/app/fuzzy.go:16-66 | positive score iff the lowered query is a subsequence; the positions spell it and are pointwise leftmost among all embeddings; the score is that of the positions |
| Fuzzy.MatchUnique | internal/app/fuzzy.go:16-66 | query and target determine score and positions |
| Fuzzy.ScoreCounts | internal/app/fuzzy.go:32-63 | the score is 10 for every character, 15 for every one that directly follows its predecessor, 20 for every start of a word, 25 for every one at its own place in the query, and the covered tenths of the target |
| Fuzzy.SortFuzzyScored | internal/app/fuzzy.go:78-88 | in place, a ranked permutation |
| Fuzzy.RankingUnique | internal/app/fuzzy.go:78-95 | with distinct indices there is only one ranked permutation |
| Fuzzy.HighlightRuns | internal/app/fuzzy.go:99-141 | the runs spell the text, alternate, and are highlighted exactly at the positions |
| Fuzzy.HighlightSpellsQuery | internal/app/fuzzy.go:16-141 | the highlighted characters of a matched text, lower-cased, spell the lower-cased query |
| Finder.ColumnFinder.Refilter | internal/app/column_finder.go:91-115 | the list shows the query's hits in rank order and the cursor is on it |
| Finder.ColumnFinder.CollectHits | internal/app/column_finder.go:92-111 | the hits in entry order with their scores and positions |
| Finder.HitsAreListed | internal/app/column_finder.go:91-115 | every match is a hit of the query and every hit is listed |
| Finder.ListUnique | internal/app/column_finder.go:91-115 | entries and query determine the list |
| Finder.TitlesSpellQuery | internal/app/column_finder.go:262-272 | in every title of the finder's list the highlighted characters, lower-cased, spell the lower-cased query |
| Finder.ColumnFinder.ClampCursor | internal/app/column_finder.go:117-124 | the cursor is pulled into the list |
| Finder.ColumnFinder.HandleKey | internal/app/column_finder.go:127-170 | every key that does not close the finder leaves the list of its query with the cursor on it; up and down move by one and stop at the ends, typing appends, backspace removes the last character, clearing empties the query |
| Finder.ColumnFinder.ColumnFinderJump | internal/app/column_finder.go:66-88 | the selected match, whose title contains the query as a subsequence, is unhidden, under the cursor and on screen |
| SyncMachine.App.Init | internal/app/model.go:382-389 | with an engine the first sync and the first tick are started |
| SyncMachine.StartIsInit | internal/app/model.go:382-389 | the first world is the one in which these commands were issued |
| SyncMachine.App.Dispatch | internal/app/model_update.go:142-174 | each sync message does to the state, and asks for, what the step says |
| SyncMachine.App.Update | internal/app/model.go:391-398 | a message is handled, and the debounce of the new generation is appended if it bumped the generation |
| SyncMachine.StepTimers | internal/app/model.go:391-398 | with an engine a step with an edit in it starts exactly one debounce timer, of a generation newer than all others, and no other step starts one |
| SyncMachine.EditTimerWaits | internal/app/model.go:391-398 | over any run with an engine the timer of the latest edit is outstanding exactly until it fires |
| SyncMachine.EditTimerSyncs | internal/app/model_update.go:169-174 | when it fires with no sync in flight a sync starts; with one in flight nothing else does |
| SyncMachine.TickSyncs | internal/app/model_update.go:163-168 | a tick starts the next tick, and a sync if none is in flight |
| SyncMachine.App.LeaveForm | internal/app/model.go:1265-1284 | leaving a form clears a pending reload and reloads the tabs up to the first that fails |
| SyncMachine.NextInv | internal/app/model_update.go:142-174 | every step keeps: syncs in flight are one iff the status is syncing, one tick outstanding, at most one debounce per generation, a reload pending only behind a form |
| SyncMachine.NextShown | internal/app/model_update.go:151-157 | a step keeps every delivered pull shown on every tab, or its reload pending, unless its own full reload fails; one that loads every tab shows them whatever was before |
| SyncMachine.RunInv | internal/app/model_update.go:142-174 | so does every interleaving of ticks, debounces, mutations, forms, tab loads and sync results; and every delivered pull is shown or its reload pending whenever the last full reload that was tried loaded every tab |
| SyncMachine.DebounceStarts | internal/app/model_update.go:169-174 | a debounce starts a sync iff it is of the current generation and no sync is in flight; a superseded one changes nothing |
| SyncMachine.StatusReports | internal/app/model_update.go:142-164 | after a sync has answered, the status is offline iff it failed, conflict iff it had conflicts, and synced otherwise |
| SyncMachine.ExitShowsPulls | internal/app/model.go:1265-1284 | closing a form shows every delivered pull iff the tabs that its reload does not get to show them already; nothing stays pending, and exactly the tabs that a pending reload gets to are loaded |
| SyncMachine.PullHeldBack | internal/app/model_update.go:142-157 | a pull that arrives behind a form leaves the tabs alone and holds its reload back; otherwise the tabs are loaded at once, up to the first that fails |
| SyncMachine.ModeKeys | internal/app/model.go:407-416 | edit mode is entered from normal mode and left for it, and neither key leaves a form |
| SyncMachine.FailedExitHidesPull | internal/app/model.go:1280-1283 | a run in which the reload at the exit of a form fails at the second tab: that tab does not show the pull, and nothing is pending |
| SyncMachine.StaysBehind | internal/app/model.go:1280-1283 | a tab left behind stays so, with nothing pending, over any run until the next pull or the next load of that tab |
| SyncMachine.ExitLeavesFormMode | internal/app/forms.go:1656-1673 | after any run, closing a form returns to the mode in which the last form was opened, so it leaves form mode iff that was not form mode |
| SyncMachine.ReopenedFormSticks | internal/app/forms.go:1656-1673 | a form opened on a form leaves form mode never |
| Drilldown.Model.ReloadAfterMutation | internal/app/model.go:439-454 | the effective tab is reloaded and all others are marked stale |
| Drilldown.MutationShows | internal/app/model.go:439-464 | a mutation reloads the table in view, marks every tab but the active one stale and an open drilldown as mutated, and leaves the rest alone |
| Drilldown.ReloadShows | internal/app/model_tabs.go:419-427 | a load that succeeds shows the store's rows under the same column cursor, one that fails changes nothing |
| Drilldown.Model.SwitchToTab | internal/app/model_tabs.go:429-438 | the target becomes active and is reloaded |
| Drilldown.SwitchShows | internal/app/model_tabs.go:429-438 | the target tab is active and reloaded, the other tabs and the drilldowns stay |
| Drilldown.Model.NextTab | internal/app/model_tabs.go:440-449 | the tab on the right becomes active and is reloaded; on the last tab nothing happens |
| Drilldown.Model.PrevTab | internal/app/model_tabs.go:451-459 | the tab on the left becomes active and is reloaded; on the first tab nothing happens |
| Drilldown.Model.OpenDetailWith | internal/app/model_tabs.go:334-343 | the state becomes that of an opening, which is undone when the drilldown fails to load |
| Drilldown.OpenShows | internal/app/model_tabs.go:334-343 | an opening that loads puts the drilldown on top of those that were open, leaves the tabs alone, and shows the drilldown's own table with the store's rows |
| Drilldown.OpenThenClose | internal/app/model_tabs.go:334-374 | opening and then closing gives back the depth and the table that was in view, reloaded, with the cursor on the row it was opened from if that is there |
| Drilldown.Model.CloseDetail | internal/app/model_tabs.go:345-391 | the top is popped, what is below reloaded, the parent row selected, and after a changed service log over a maintenance table the column cursor put on Last |
| Drilldown.CloseKeepsBelow | internal/app/model_tabs.go:345-374 | closing leaves the drilldowns below the parent alone and, under a drilldown, all tabs; else all tabs but the parent |
| Drilldown.CloseMovesColumn | internal/app/model_tabs.go:375-391 | the column cursor below moves iff a changed service log over a maintenance table is closed, and then to Last |
| Drilldown.Model.CloseAllDetails | internal/app/model_tabs.go:396-417 | the stack is emptied, the bottom's tab active and reloaded, its row selected |
| Drilldown.Model.NavigateToLink | internal/app/model.go:506-517 | drilldowns closed, target tab active, target row selected |
| Drilldown.CloseAllIsCloseEach | internal/app/model_tabs.go:345-417 | closing all at once ends in the same state as closing one by one iff the bottom drilldown is not a changed service log over a maintenance tab whose column cursor is elsewhere than Last |
| Drilldown.CloseEachJumps | internal/app/model_tabs.go:345-417 | closing one by one is closing all at once followed by the jump of the column cursor, if the bottom drilldown is a changed service log |
| Drilldown.NextGood | internal/app/model_tabs.go:334-459 | every local step whose reloads succeed keeps the table in view at the store's version and the other tabs marked stale exactly when old |
| Drilldown.RunFresh | internal/app/model.go:439-474 | so does every run of such steps |
| Drilldown.FreshAfterSuccess | internal/app/model_tabs.go:334-459 | over any run of steps with failing and succeeding reloads, the table in view is fresh whenever the last reload tried succeeded, a failed opening of a drilldown not counting |
| Drilldown.MarksAfterFailures | internal/app/model.go:439-475 | over any run of steps with failing and succeeding loads, a tab whose last load did not fail is marked stale iff it is old, unless it lies under an open drilldown; no tab is marked without being old |
| Drilldown.FailedLoadIsUnmarked | internal/app/model.go:446-464 | a tab whose load fails after a mutation is old and not marked, also after it has been left |
| Drilldown.CloseReturnsToRow | internal/app/model_tabs.go:345-374 | after closing a drilldown the cursor is on the row it was opened from, if the reloaded table has it |
| Drilldown.LinkSelectsRow | internal/app/model.go:506-517 | following a link ends on the target tab, reloaded, with the linked row selected if it is there |
| Drilldown.FailedOpenIsUndone | internal/app/model_tabs.go:334-343 | pushing a drilldown, failing to load it and popping it leaves the state as it was |
| Drilldown.PullFreshExactly | internal/app/model.go:620-630 | after a pull whose reload may fail at some tab, the table in view is fresh iff no drilldown is open and its tab was loaded |
| Drilldown.SearchFreshExactly | internal/app/search.go:122-147 | after a document search it is fresh iff no drilldown was left, or the documents tab below it was reloaded or fresh, or another documents tab is not marked stale |
| ClaudeStream.HandleStreamEvent | internal/claudecli/client.go:248-281 | what one event sends, and whether it stops, is malformed or completes |
| ClaudeStream.Pump | internal/claudecli/client.go:157-227 | the channel carries the contents before the first ending item, then the verdict |
| ClaudeStream.QuietUntilEnd | internal/claudecli/client.go:163-186 | the reading ends at the first item that is not an unrelated event, a delta or another stream event |
| ClaudeStream.OneTerminalLast | internal/claudecli/client.go:157-227 | content chunks followed by exactly one terminal chunk, for every stream |
| ClaudeStream.VerdictExactly | internal/claudecli/client.go:201-227 | Done iff message_stop came before any error of the decoder; malformed iff such an error came first; the context is blamed only if neither |
| ClaudeStream.StrayBracketUnnoticed | internal/claudecli/client.go:163-185 | a stray closing bracket ends the reading without an error, and the verdict depends on the process alone |
| ClaudeStream.WholeOutput | internal/claudecli/client.go:259-272 | while the caller does not cancel, the joined content is the structured-output text before the end |
| ClaudeStream.CancelledKeepsHead | internal/claudecli/client.go:268-271 | a cancelled run sends everything up to the cancellation |
| ClaudeStream.CancelledThins | internal/claudecli/client.go:268-271 | and afterwards some of the rest, in order |
| ClaudeStream.ContentsExactly | internal/claudecli/client.go:259-272 | exactly the non-empty structured-output deltas come through that precede the cancellation or for which the race went to the send, each as its text and in order |
| ClaudeStream.RestIgnored | internal/claudecli/client.go:273-278 | nothing after message_stop or the first error changes the outcome |
| ClaudeStream.ValidateSingleTurn | internal/claudecli/client.go:284-319 | accepted iff the messages are a user message, alone or after a system message |
| WordWrap.WordWrap | internal/app/view.go:1115-1148 | the written text is the lines of the paragraphs from the first word on |
| WordWrap.WriteParagraph | internal/app/view.go:1124-1145 | the inner loop writes the greedy lines of the paragraph's words |
| WordWrap.WrappedLines | internal/app/view.go:1115-1148 | the lines one sees are exactly those lines |
| WordWrap.WrapKeepsWords | internal/app/view.go:1115-1148 | every word of the text is kept, in order |
| WordWrap.WrapFits | internal/app/view.go:1115-1148 | every line fits the width or is one word |
| WordWrap.GreedyStaysAhead | internal/app/view.go:1128-1145 | against any fitting wrapping of the same words, fewer lines, or as many and a last line that is no longer |
| WordWrap.FewestLines | internal/app/view.go:1128-1145 | no text with a paragraph's words whose lines all fit has fewer lines |
| WrapShown.WrapShowsAll | internal/app/view.go:1115-1148 | the whole output: the blank paragraphs before the first word are gone; each other paragraph stands in its place, a blank one as one empty line, any other as its words in order on single-spaced lines that fit or are one word and are broken only where the next word does not fit |
| WrapShown.CountIsWidth | internal/app/view.go:1128-1144 | for a width that adds up, the width that the loop counts is the width of the line |
| GroupOps.PreviewColumnsAllDistinct | internal/app/extraction_render.go:730-790 | no two preview columns of a table share a title or a key |
| GroupOps.CollectColumns | internal/app/extraction_render.go:812-851 | the first pass finds the groups and their columns |
| GroupOps.BuildRow | internal/app/extraction_render.go:862-905 | a row has, under each column, the formatted value of its key or a null cell, with the vendor's own locale for phones |
| GroupOps.FillRows | internal/app/extraction_render.go:853-905 | the second pass adds one row per operation on a grouped table |
| GroupOps.GroupOperationsByTable | internal/app/extraction_render.go:811-912 | the groups in order, each with its columns and one row per operation |
| GroupOps.OrderHas | internal/app/extraction_render.go:816-832 | a table has a group iff some operation on it is known and has data |
| GroupOps.OrderIsFirstSeen | internal/app/extraction_render.go:812-832 | groups are distinct and come in the order their tables were first seen |
| GroupOps.OpsOnInOrder | internal/app/extraction_render.go:853-905 | the rows of a group are the operations on its table, all of them and in order |
| GroupOps.ColumnsInOrder | internal/app/extraction_render.go:834-850 | columns stand in the order in which operations first fill them, and those that one operation brings in the order of the known columns |
| GroupOps.ColumnsExactly | internal/app/extraction_render.go:834-850 | a group's columns are exactly the known columns some operation fills, each once |
| GroupOps.NullExactly | internal/app/extraction_render.go:893-902 | a cell is null, and then empty, iff its operation lacks the column's key |
| GroupOps.ValueIsShown | internal/app/extraction_render.go:853-905 | every value of a known column of a grouped operation stands in that operation's row under exactly one column, in the column's format, or for a vendor's phone in that of the row's own locale, and in the column's kind |

## Left out

- Sort.StrictWeakOrder: asks every sort column to be orderly; the exact condition is in `Sort.StackExactly`. Not-a-number floats are outside the model.
- Sort.SliceStable: says nothing of the order when the comparator is no strict weak order; there it depends on the library's algorithm.
- TableView.HideCurrentColumn: the rows are not sorted again after the filter, as in the code.
- Drilldown.Model.CloseDetail: leaves the scroll offset after the jump of the column cursor to `TableView.UpdateTabViewport`, which resets it when the column is hidden.
- Drilldown.NextGood: is about steps whose loads succeed, like `Drilldown.RunFresh`; runs in which some fail are in `Drilldown.FreshAfterSuccess` and `Drilldown.MarksAfterFailures`. Sync pulls and document search are treated apart, exactly.
- Fuzzy.HighlightSpellsQuery: takes lower-casing to go character by character, as the library does.
- Layout.NeverBelowMin: needs Min at most natural and at most Max, which `Layout.NaturalAtLeastMin` and the column definitions give.
- WordWrap.LineWidth: a line's width is the sum of its words' widths and gaps, as the loop counts it; that the terminal adds widths the same way is not part of this model.
- SyncMachine.Updated: one message is one step; that the runtime delivers messages one at a time is taken from the framework.
- ClaudeStream.Pump: starts when the process runs; building arguments, marshalling the schema and failing to start it are left out, and so is blocking on a full channel.
- Formatting of magnitudes, money, dates and phone numbers is uninterpreted.
- Styling, box drawing beyond the tree prefix, ANSI compositing, mouse zones, help and key maps are library glue.
- Forms, entity editing, configuration, the relay, HTTP lookups and the command line are thin wrappers over packages that are not part of this model.
- The overlay that runs an extraction, chat streaming, undo and the document viewer are separate features without further laws of this kind.
- Padding and dimming of the background behind an overlay work on styled text only.
- Opening the tree expands the operations node and, when that has at most three children, every expandable node down to depth two (internal/app/ops_tree.go:221-232 and 321-326); the model takes any set of expanded paths to start with.
