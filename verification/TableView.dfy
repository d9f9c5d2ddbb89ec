/**
 The table viewport: scroll offset upkeep, the window of columns that is drawn,
 the column keys acting on a tab, and pins in viewport coordinates.
 */
module TableView {
  import opened Schema
  import opened Sums
  import opened Columns
  import L = Layout
  import V = Viewport
  import P = Pins

  // ----- scroll offset -----

  function EnsuredOffset(offset: int, visCursor: int, visCount: nat): int
  {
    if visCount == 0 then 0 else
      var a := if offset > visCursor then visCursor else offset;
      var b := if a > visCount - 1 then visCount - 1 else a;
      if b < 0 then 0 else b
  }

  /** `ensureCursorVisible`. */
  method EnsureCursorVisible(tab: Tab, visCursor: int, visCount: nat)
    modifies tab`ViewOffset
    ensures tab.ViewOffset == EnsuredOffset(old(tab.ViewOffset), visCursor, visCount)
    ensures 0 <= visCursor < visCount ==>
              tab.ViewOffset == if old(tab.ViewOffset) < 0 then 0 else if old(tab.ViewOffset) > visCursor then visCursor else old(tab.ViewOffset)
  {
    if visCount == 0 {
      tab.ViewOffset := 0;
      return;
    }
    if tab.ViewOffset > visCursor {
      tab.ViewOffset := visCursor;
    }
    if tab.ViewOffset > visCount - 1 {
      tab.ViewOffset := visCount - 1;
    }
    if tab.ViewOffset < 0 {
      tab.ViewOffset := 0;
    }
  }

  /** An offset at or left of the cursor stays; one that is not moves to the nearest such
      offset. */
  lemma EnsuredNearest(offset: int, visCursor: int, visCount: nat, other: int)
    requires 0 <= visCursor < visCount && 0 <= other <= visCursor
    ensures var e := EnsuredOffset(offset, visCursor, visCount);
            && 0 <= e <= visCursor && (0 <= offset <= visCursor ==> e == offset)
            && (if e >= offset then e - offset else offset - e) <= (if other >= offset then other - offset else offset - other)
  {
  }

  /** A window opened at or left of the cursor shows the cursor, whatever the widths. */
  lemma {:induction false} WindowShowsCursor(widths: seq<int>, sep: int, term: int, offset: int, cursor: int)
    requires 0 <= offset <= cursor < |widths|
    ensures var w := V.Range(widths, sep, term, offset, cursor); 0 <= w.start <= cursor < w.end <= |widths|
  {
    if V.TotalWidth(widths, sep) > term {
      V.ScrollLeast(widths, sep, term, offset, cursor);
    }
  }

  /** The cursor's column is visible and not left of the scroll offset. */
  ghost predicate OnScreen(tab: Tab)
    reads tab
  {
    Visible(tab.Specs, tab.ColCursor) && 0 <= tab.ViewOffset <= FullToVis(tab.Specs, tab.ColCursor)
  }

  /** Specs the widths of which can never drop to zero. */
  ghost predicate SaneSpecs(specs: seq<ColumnSpec>)
  {
    forall i :: 0 <= i < |specs| ==> Sane(specs[i])
  }

  predicate Sane(spec: ColumnSpec)
  {
    1 <= spec.min && (spec.max > 0 ==> spec.min <= spec.max)
  }

  /** How a set of columns is sized: its specs, their natural widths, the widths they
      are laid out with, and the window [start, end) of them that is shown. */
  datatype Plan = Plan(specs: seq<ColumnSpec>, natural: seq<int>, widths: seq<int>, start: nat, end: nat)

  /** The plan's natural widths are measured on the rows, whose columns `at` it lists,
      and its widths are laid out from them. */
  ghost predicate Sized(m: L.Metrics, plan: Plan, at: seq<nat>, rows: seq<CellRow>, width: int, sepW: int)
  {
    && |plan.specs| == |at| && |plan.natural| == |at| && |plan.widths| == |at|
    && (forall i {:trigger Measured(m, plan, at, rows, i)} :: 0 <= i < |at| ==> Measured(m, plan, at, rows, i))
    && L.Laid(plan.specs, plan.natural, L.Available(width, sepW, |at|), plan.widths)
  }

  ghost predicate Measured(m: L.Metrics, plan: Plan, at: seq<nat>, rows: seq<CellRow>, i: nat)
    requires i < |at| == |plan.specs| == |plan.natural|
  {
    L.IsNatural(m, plan.specs[i], |at|, rows, at[i], plan.natural[i])
  }

  /** There is one way to size given columns. */
  lemma {:induction false} SizedUnique(m: L.Metrics, p: Plan, q: Plan, at: seq<nat>, rows: seq<CellRow>, width: int, sepW: int)
    requires p.specs == q.specs && Sized(m, p, at, rows, width, sepW) && Sized(m, q, at, rows, width, sepW)
    ensures p.natural == q.natural && p.widths == q.widths
  {
    forall i | 0 <= i < |at|
      ensures p.natural[i] == q.natural[i]
    {
      assert Measured(m, p, at, rows, i) && Measured(m, q, at, rows, i);
      L.NaturalUnique(m, p.specs[i], |at|, rows, at[i], p.natural[i], q.natural[i]);
    }
    assert p.natural == q.natural;
    L.LaidUnique(p.specs, p.natural, L.Available(width, sepW, |at|), p.widths, q.widths);
  }

  lemma {:induction false} NaturalsAboveMin(m: L.Metrics, plan: Plan, at: seq<nat>, rows: seq<CellRow>, width: int, sepW: int)
    requires Sized(m, plan, at, rows, width, sepW) && SaneSpecs(plan.specs)
    ensures forall i :: 0 <= i < |at| ==> plan.specs[i].min <= plan.natural[i]
  {
    forall i | 0 <= i < |at|
      ensures plan.specs[i].min <= plan.natural[i]
    {
      assert Measured(m, plan, at, rows, i);
      L.NaturalAtLeastMin(m, plan.specs[i], |at|, rows, at[i], plan.natural[i]);
    }
  }

  /** Measured and laid out columns are at least one cell wide, so the window laws
      of `Viewport.RangeShowsCursor` apply to them. */
  lemma {:induction false} LaidOutIsPositive(m: L.Metrics, plan: Plan, at: seq<nat>, rows: seq<CellRow>, width: int, sepW: int)
    requires Sized(m, plan, at, rows, width, sepW) && SaneSpecs(plan.specs)
    ensures V.Positive(plan.widths)
  {
    NaturalsAboveMin(m, plan, at, rows, width, sepW);
    L.NeverBelowMin(plan.specs, plan.natural, L.Available(width, sepW, |at|), plan.widths);
  }

  /** Measuring projected rows is measuring the rows at the projected columns. */
  lemma {:induction false} ProjectedNatural(m: L.Metrics, spec: ColumnSpec, count: nat, rows: seq<CellRow>, projected: seq<CellRow>,
                                            at: seq<nat>, i: nat, w: int)
    requires StrictlyIncreasing(at) && i < |at| && L.IsNatural(m, spec, count, projected, i, w)
    requires |projected| == |rows| && forall r :: 0 <= r < |rows| ==> projected[r] == Project(rows[r], at)
    ensures L.IsNatural(m, spec, count, rows, at[i], w)
  {
    forall d
      ensures L.CellDemand(m, spec, projected, i, d) <==> L.CellDemand(m, spec, rows, at[i], d)
    {
      SameDemand(m, spec, rows, projected, at, i, d);
    }
    assert forall d :: L.Demand(m, spec, count, projected, i, d) <==> L.Demand(m, spec, count, rows, at[i], d);
  }

  lemma SameDemand(m: L.Metrics, spec: ColumnSpec, rows: seq<CellRow>, projected: seq<CellRow>, at: seq<nat>, i: nat, d: int)
    requires StrictlyIncreasing(at) && i < |at|
    requires |projected| == |rows| && forall r :: 0 <= r < |rows| ==> projected[r] == Project(rows[r], at)
    ensures L.CellDemand(m, spec, projected, i, d) <==> L.CellDemand(m, spec, rows, at[i], d)
  {
    forall k | 0 <= k < |rows|
      ensures L.HasContent(m, projected[k], i) <==> L.HasContent(m, rows[k], at[i])
      ensures L.HasContent(m, rows[k], at[i]) ==> projected[k][i] == rows[k][at[i]]
    {
      ProjectCells(rows[k], at);
    }
    if L.CellDemand(m, spec, projected, i, d) {
      var k :| 0 <= k < |projected| && L.HasContent(m, projected[k], i) && L.CellWidth(m, spec, projected[k][i]) == d;
      assert L.HasContent(m, rows[k], at[i]);
    }
    if L.CellDemand(m, spec, rows, at[i], d) {
      var k :| 0 <= k < |rows| && L.HasContent(m, rows[k], at[i]) && L.CellWidth(m, spec, rows[k][at[i]]) == d;
      assert L.HasContent(m, projected[k], i);
    }
  }

  /** The scroll offset is where the window of the displayed rows' layout starts, when it
      is opened from the offset `from`; that layout measures money headers in dollars. */
  ghost predicate Settled(tab: Tab, m: L.Metrics, plan: Plan, from: int, width: int, sepW: int)
    reads tab
  {
    && SpecsAt(plan.specs, tab.Specs, VisToFull(tab.Specs))
    && Sized(L.InDollars(m), plan, VisToFull(tab.Specs), tab.CellRows, width, sepW)
    && tab.ViewOffset == V.Range(plan.widths, sepW, width, from, FullToVis(tab.Specs, tab.ColCursor)).start
  }

  /** `updateTabViewport`. */
  method UpdateTabViewport(tab: Tab, m: L.Metrics, width: int, sepW: int) returns (ghost plan: Plan)
    modifies tab`ViewOffset
    ensures !Visible(tab.Specs, tab.ColCursor) ==> tab.ViewOffset == 0
    ensures Visible(tab.Specs, tab.ColCursor) ==> OnScreen(tab)
    ensures Visible(tab.Specs, tab.ColCursor) ==>
              var from := EnsuredOffset(old(tab.ViewOffset), FullToVis(tab.Specs, tab.ColCursor), |VisToFull(tab.Specs)|);
              Settled(tab, m, plan, from, width, sepW)
  {
    plan := Plan([], [], [], 0, 0);
    var visSpecs, visCells, visColCursor, _, visToFull := VisibleProjection(tab);
    FullToVisFinds(tab.Specs, tab.ColCursor);
    if |visSpecs| == 0 || visColCursor < 0 {
      tab.ViewOffset := 0;
      return;
    }
    var fullWidths;
    fullWidths, plan := MeasureVisible(tab, m, visSpecs, visCells, visToFull, width, sepW);
    EnsureCursorVisible(tab, visColCursor, |visSpecs|);
    WindowShowsCursor(fullWidths, sepW, width, tab.ViewOffset, visColCursor);
    var vpStart, _, _, _ := V.ViewportRange(fullWidths, sepW, width, tab.ViewOffset, visColCursor);
    tab.ViewOffset := vpStart;
  }

  /** `updateTabViewport` as its callers use it: the cursor's column is on screen. */
  method Rescroll(tab: Tab, m: L.Metrics, width: int, sepW: int)
    modifies tab`ViewOffset
    ensures Visible(tab.Specs, tab.ColCursor) ==> OnScreen(tab)
  {
    ghost var _ := UpdateTabViewport(tab, m, width, sepW);
  }

  /** Sizes the visible columns by the displayed rows. */
  method MeasureVisible(tab: Tab, m: L.Metrics, visSpecs: seq<ColumnSpec>, visCells: seq<CellRow>, ghost visToFull: seq<nat>,
                        width: int, sepW: int)
    returns (widths: seq<int>, ghost plan: Plan)
    requires visToFull == VisToFull(tab.Specs) && |visSpecs| == |visToFull| > 0
    requires |visCells| == |tab.CellRows| && forall r :: 0 <= r < |visCells| ==> visCells[r] == Project(tab.CellRows[r], visToFull)
    ensures plan.specs == visSpecs && plan.widths == widths
    ensures Sized(L.InDollars(m), plan, visToFull, tab.CellRows, width, sepW)
  {
    ghost var natural;
    widths, natural := L.ColumnWidths(m, visSpecs, visCells, width, sepW, None);
    plan := Plan(visSpecs, natural, widths, 0, 0);
    L.LaidLength(visSpecs, natural, L.Available(width, sepW, |visSpecs|), widths);
    assert StrictlyIncreasing(visToFull) by {
      VisToFullLists(tab.Specs);
    }
    forall i | 0 <= i < |visToFull|
      ensures Measured(L.InDollars(m), plan, visToFull, tab.CellRows, i)
    {
      ProjectedNatural(L.InDollars(m), visSpecs[i], |visToFull|, tab.CellRows, visCells, visToFull, i, natural[i]);
    }
  }

  // ----- the drawn window -----

  datatype TableViewport = TableViewport(
    hasLeft: bool,
    hasRight: bool,
    specs: seq<ColumnSpec>,
    cells: seq<CellRow>,
    linkCells: seq<CellRow>,
    widths: seq<int>,
    collapsed: seq<bool>,
    cursor: int,
    sorts: seq<SortEntry>,
    visToFull: seq<nat>)

  const EMPTY_VIEWPORT := TableViewport(false, false, [], [], [], [], [], 0, [], [])

  function SliceViewport<T>(items: seq<T>, start: nat, end: nat): seq<T>
    requires start <= end
  {
    if start >= |items| then [] else items[start..if end > |items| then |items| else end]
  }

  method SliceViewportRows(rows: seq<CellRow>, start: nat, end: nat) returns (result: seq<CellRow>)
    requires start <= end
    ensures |result| == |rows| && forall r :: 0 <= r < |rows| ==> result[r] == SliceViewport(rows[r], start, end)
  {
    result := [];
    for r := 0 to |rows|
      invariant |result| == r && forall q :: 0 <= q < r ==> result[q] == SliceViewport(rows[q], start, end)
    {
      result := result + [SliceViewport(rows[r], start, end)];
    }
  }

  method ViewportSorts(sorts: seq<SortEntry>, vpStart: int) returns (adjusted: seq<SortEntry>)
    ensures ShiftedSorts(adjusted, sorts, vpStart)
  {
    if vpStart == 0 {
      return sorts;
    }
    adjusted := [];
    for i := 0 to |sorts|
      invariant |adjusted| == i
      invariant forall j :: 0 <= j < i ==> adjusted[j] == SortEntry(sorts[j].col - vpStart, sorts[j].dir)
    {
      adjusted := adjusted + [SortEntry(sorts[i].col - vpStart, sorts[i].dir)];
    }
  }

  /** Columns are missing between positions `k` and `k + 1`. */
  predicate Gap(visToFull: seq<nat>, k: nat)
    requires k + 1 < |visToFull|
  {
    visToFull[k + 1] > visToFull[k] + 1
  }

  ghost predicate MarksGaps(collapsed: seq<bool>, visToFull: seq<nat>)
  {
    && |collapsed| == (if |visToFull| <= 1 then 0 else |visToFull| - 1)
    && forall k: nat {:trigger collapsed[k]} :: k < |collapsed| ==> (collapsed[k] <==> Gap(visToFull, k))
  }

  /** `gapSeparators`: which gaps get the mark of collapsed columns. */
  method GapSeparators(visToFull: seq<nat>) returns (collapsed: seq<bool>)
    ensures MarksGaps(collapsed, visToFull)
  {
    collapsed := [];
    if |visToFull| <= 1 {
      return;
    }
    for i := 0 to |visToFull| - 1
      invariant |collapsed| == i
      invariant forall j: nat {:trigger collapsed[j]} :: j < i ==> (collapsed[j] <==> Gap(visToFull, j))
    {
      collapsed := collapsed + [Gap(visToFull, i)];
    }
  }

  /** A gap is marked exactly when a hidden column lies in it. */
  lemma {:induction false} MarkedGapsHide(specs: seq<ColumnSpec>, k: nat)
    requires k + 1 < |VisToFull(specs)|
    ensures var v := VisToFull(specs);
            Gap(v, k) <==> exists i :: v[k] < i < v[k + 1] && !Visible(specs, i)
  {
    VisToFullLists(specs);
    var v := VisToFull(specs);
    if v[k + 1] > v[k] + 1 {
      var i := v[k] + 1;
      forall j | 0 <= j < |v|
        ensures v[j] != i
      {
        assert j <= k || j >= k + 1;
      }
      assert i !in v && !Visible(specs, i);
    }
  }

  /** Rows drawn through the window are the table's rows at the window's columns. */
  ghost predicate DrawsRows(cells: seq<CellRow>, rows: seq<CellRow>, at: seq<nat>)
  {
    && |cells| == |rows|
    && forall r :: 0 <= r < |rows| ==> DrawsRow(cells[r], rows[r], at)
  }

  ghost predicate DrawsRow(drawn: CellRow, row: CellRow, at: seq<nat>)
  {
    && |drawn| <= |at|
    && (forall k :: 0 <= k < |at| ==> (k < |drawn| <==> at[k] < |row|))
    && forall k :: 0 <= k < |drawn| ==> drawn[k] == row[at[k]]
  }

  lemma SliceDraws(row: CellRow, at: seq<nat>, start: nat, end: nat)
    requires StrictlyIncreasing(at) && start <= end <= |at|
    ensures DrawsRow(SliceViewport(Project(row, at), start, end), row, at[start..end])
  {
    ProjectCells(row, at);
  }

  lemma ProjectDraws(row: CellRow, at: seq<nat>)
    requires StrictlyIncreasing(at)
    ensures DrawsRow(Project(row, at), row, at)
  {
    ProjectCells(row, at);
  }

  ghost predicate SpecsAt(specs: seq<ColumnSpec>, all: seq<ColumnSpec>, at: seq<nat>)
  {
    && |specs| == |at|
    && forall k :: 0 <= k < |specs| ==> at[k] < |all| && specs[k] == all[at[k]]
  }

  /** The plan's window as seen from the scroll offset, the columns it shows, and where
      the cursor, on visible column `vis`, is in it. */
  ghost predicate Windowed(plan: Plan, all: seq<nat>, vp: TableViewport, termWidth: int, sepW: int, offset: int, vis: int)
  {
    && IsWindow(V.Window(plan.start, plan.end, vp.hasLeft, vp.hasRight), plan.widths, sepW, termWidth, offset, vis)
    && |plan.widths| == |all| && plan.start < plan.end <= |all|
    && vp.visToFull == all[plan.start..plan.end]
    && vp.cursor == (if plan.start <= vis < plan.end then vis - plan.start else -1)
  }

  /** The window's columns laid out alone. */
  ghost predicate LaidPart(plan: Plan, widths: seq<int>, termWidth: int, sepW: int)
    requires plan.start < plan.end <= |plan.specs| == |plan.natural|
  {
    L.Laid(plan.specs[plan.start..plan.end], plan.natural[plan.start..plan.end],
           L.Available(termWidth, sepW, plan.end - plan.start), widths)
  }

  /** The window's columns are laid out once more, alone, with their natural widths. */
  ghost predicate Redrawn(plan: Plan, vp: TableViewport, termWidth: int, sepW: int)
  {
    && plan.start < plan.end <= |plan.specs| == |plan.natural|
    && vp.specs == plan.specs[plan.start..plan.end]
    && LaidPart(plan, vp.widths, termWidth, sepW)
  }

  /** What a computed viewport shows: of the visible columns `all`, sized by the plan, the
      plan's window. */
  ghost predicate DrawnAt(tab: Tab, m: L.Metrics, all: seq<nat>, vis: int, vp: TableViewport, plan: Plan, termWidth: int, sepW: int)
    reads tab
  {
    && SpecsAt(plan.specs, tab.Specs, all)
    && Sized(m, plan, all, LinkSource(tab), termWidth, sepW)
    && Windowed(plan, all, vp, termWidth, sepW, tab.ViewOffset, vis)
    && Redrawn(plan, vp, termWidth, sepW)
    && DrawsRows(vp.cells, tab.CellRows, vp.visToFull)
    && DrawsRows(vp.linkCells, LinkSource(tab), vp.visToFull)
    && MarksGaps(vp.collapsed, vp.visToFull)
  }

  ghost predicate Drawn(tab: Tab, m: L.Metrics, vp: TableViewport, plan: Plan, termWidth: int, sepW: int)
    reads tab
  {
    DrawnAt(tab, m, VisToFull(tab.Specs), FullToVis(tab.Specs, tab.ColCursor), vp, plan, termWidth, sepW)
  }

  /** The rows consulted for link arrows: all loaded rows while pins are set. */
  ghost function LinkSource(tab: Tab): seq<CellRow>
    reads tab
  {
    if tab.Pins != [] && tab.FullCellRows != [] then tab.FullCellRows else tab.CellRows
  }

  ghost predicate ShiftedSorts(sorts: seq<SortEntry>, visSorts: seq<SortEntry>, start: int)
  {
    |sorts| == |visSorts| &&
    forall i :: 0 <= i < |sorts| ==> sorts[i] == SortEntry(visSorts[i].col - start, visSorts[i].dir)
  }

  /** Sizes the visible columns for drawing. With pins the natural widths are measured
      on the loaded rows, so that filtering does not move columns. */
  method SizeVisible(tab: Tab, m: L.Metrics, visSpecs: seq<ColumnSpec>, visCells: seq<CellRow>, visToFull: seq<nat>,
                     termWidth: int, sepW: int)
    returns (natural: seq<int>, widths: seq<int>)
    requires |visToFull| == |visSpecs| > 0 && StrictlyIncreasing(visToFull)
    requires |visCells| == |tab.CellRows| && forall r :: 0 <= r < |visCells| ==> visCells[r] == Project(tab.CellRows[r], visToFull)
    ensures Sized(m, Plan(visSpecs, natural, widths, 0, 0), visToFull, LinkSource(tab), termWidth, sepW)
  {
    if |tab.Pins| > 0 && |tab.FullCellRows| > 0 {
      natural := L.ComputeNaturalWidths(m, visSpecs, tab.FullCellRows, visToFull);
    } else {
      natural := L.ComputeNaturalWidths(m, visSpecs, visCells, seq(|visSpecs|, i requires 0 <= i => i));
      forall i | 0 <= i < |visToFull|
        ensures L.IsNatural(m, visSpecs[i], |visToFull|, LinkSource(tab), visToFull[i], natural[i])
      {
        ProjectedNatural(m, visSpecs[i], |visToFull|, tab.CellRows, visCells, visToFull, i, natural[i]);
      }
    }
    widths := WidthsFor(m, visSpecs, visCells, termWidth, sepW, natural);
    forall i | 0 <= i < |visToFull|
      ensures Measured(m, Plan(visSpecs, natural, widths, 0, 0), visToFull, LinkSource(tab), i)
    {
    }
  }

  method WidthsFor(m: L.Metrics, specs: seq<ColumnSpec>, rows: seq<CellRow>, termWidth: int, sepW: int, natural: seq<int>)
    returns (widths: seq<int>)
    requires |specs| > 0 && |natural| == |specs|
    ensures |widths| == |specs| && L.Laid(specs, natural, L.Available(termWidth, sepW, |specs|), widths)
  {
    ghost var used;
    widths, used := L.ColumnWidths(m, specs, rows, termWidth, sepW, Some(natural));
    L.LaidLength(specs, natural, L.Available(termWidth, sepW, |specs|), widths);
  }

  /** The drawn cells, and the cells consulted for link arrows. */
  method DrawCells(tab: Tab, visCells: seq<CellRow>, visToFull: seq<nat>, first: nat, last: nat)
    returns (cells: seq<CellRow>, linkCells: seq<CellRow>)
    requires StrictlyIncreasing(visToFull) && first <= last <= |visToFull|
    requires |visCells| == |tab.CellRows| && forall r :: 0 <= r < |visCells| ==> visCells[r] == Project(tab.CellRows[r], visToFull)
    ensures DrawsRows(cells, tab.CellRows, visToFull[first..last])
    ensures DrawsRows(linkCells, LinkSource(tab), visToFull[first..last])
  {
    cells := SliceViewportRows(visCells, first, last);
    forall r | 0 <= r < |cells|
      ensures DrawsRow(cells[r], tab.CellRows[r], visToFull[first..last])
    {
      SliceDraws(tab.CellRows[r], visToFull, first, last);
    }
    linkCells := cells;
    if |tab.Pins| > 0 && |tab.FullCellRows| > 0 {
      linkCells := ProjectRows(tab.FullCellRows, visToFull[first..last]);
      forall r | 0 <= r < |linkCells|
        ensures DrawsRow(linkCells[r], tab.FullCellRows[r], visToFull[first..last])
      {
        ProjectDraws(tab.FullCellRows[r], visToFull[first..last]);
      }
    }
  }

  /** `computeTableViewport`, for a non-nil tab. */
  method ComputeTableViewport(tab: Tab, m: L.Metrics, termWidth: int, sepW: int)
    returns (vp: TableViewport, ghost plan: Plan)
    ensures |VisToFull(tab.Specs)| == 0 ==> vp == EMPTY_VIEWPORT
    ensures |VisToFull(tab.Specs)| > 0 ==> Drawn(tab, m, vp, plan, termWidth, sepW)
    ensures |VisToFull(tab.Specs)| > 0 ==> ShiftedSorts(vp.sorts, VisibleSorts(tab.Specs, tab.Sorts), plan.start)
  {
    var visSpecs, visCells, visColCursor, visSorts, visToFull := VisibleProjection(tab);
    if |visSpecs| == 0 {
      return EMPTY_VIEWPORT, Plan([], [], [], 0, 0);
    }
    assert StrictlyIncreasing(visToFull) by {
      VisToFullLists(tab.Specs);
    }
    vp, plan := DrawWindow(tab, m, termWidth, sepW, visSpecs, visCells, visColCursor, visSorts, visToFull);
  }

  /** The part of `computeTableViewport` that follows the projection. */
  method DrawWindow(tab: Tab, m: L.Metrics, termWidth: int, sepW: int, visSpecs: seq<ColumnSpec>, visCells: seq<CellRow>,
                    visColCursor: int, visSorts: seq<SortEntry>, visToFull: seq<nat>)
    returns (vp: TableViewport, ghost plan: Plan)
    requires |visSpecs| > 0 && SpecsAt(visSpecs, tab.Specs, visToFull) && StrictlyIncreasing(visToFull)
    requires |visCells| == |tab.CellRows| && forall r :: 0 <= r < |visCells| ==> visCells[r] == Project(tab.CellRows[r], visToFull)
    ensures DrawnAt(tab, m, visToFull, visColCursor, vp, plan, termWidth, sepW)
    ensures ShiftedSorts(vp.sorts, visSorts, plan.start)
  {
    var planned, hasLeft, hasRight := PlanWindow(tab, m, termWidth, sepW, visSpecs, visCells, visColCursor, visToFull);
    plan := planned;
    var first, last := planned.start, planned.end;
    var at := SliceViewport(visToFull, first, last);
    var sorts := ViewportSorts(visSorts, first);
    var cursor := visColCursor - first;
    if visColCursor < first || visColCursor >= last {
      cursor := -1;
    }
    var cells, linkCells := DrawCells(tab, visCells, visToFull, first, last);
    var specs, vpWidths := LayOutWindow(m, planned, linkCells, termWidth, sepW);
    var collapsed := GapSeparators(at);
    vp := TableViewport(hasLeft, hasRight, specs, cells, linkCells, vpWidths, collapsed, cursor, sorts, at);
    assert Windowed(plan, visToFull, vp, termWidth, sepW, tab.ViewOffset, visColCursor);
    assert Redrawn(plan, vp, termWidth, sepW);
  }

  /** Sizes the visible columns and opens the window at the scroll offset. */
  method PlanWindow(tab: Tab, m: L.Metrics, termWidth: int, sepW: int, visSpecs: seq<ColumnSpec>, visCells: seq<CellRow>,
                    visColCursor: int, visToFull: seq<nat>)
    returns (plan: Plan, hasLeft: bool, hasRight: bool)
    requires |visToFull| == |visSpecs| > 0 && StrictlyIncreasing(visToFull)
    requires |visCells| == |tab.CellRows| && forall r :: 0 <= r < |visCells| ==> visCells[r] == Project(tab.CellRows[r], visToFull)
    ensures plan.specs == visSpecs && plan.start < plan.end <= |visToFull|
    ensures |plan.natural| == |plan.widths| == |visToFull|
    ensures Sized(m, plan, visToFull, LinkSource(tab), termWidth, sepW)
    ensures IsWindow(V.Window(plan.start, plan.end, hasLeft, hasRight), plan.widths, sepW, termWidth, tab.ViewOffset, visColCursor)
  {
    var natural, widths := SizeVisible(tab, m, visSpecs, visCells, visToFull, termWidth, sepW);
    var first, last;
    first, last, hasLeft, hasRight := VisibleWindow(widths, sepW, termWidth, tab.ViewOffset, visColCursor);
    plan := Plan(visSpecs, natural, widths, first, last);
    ResizedPlan(m, Plan(visSpecs, natural, widths, 0, 0), plan, visToFull, LinkSource(tab), termWidth, sepW);
  }

  /** The specs of the window and the widths it is drawn with. */
  method LayOutWindow(m: L.Metrics, plan: Plan, linkCells: seq<CellRow>, termWidth: int, sepW: int)
    returns (specs: seq<ColumnSpec>, widths: seq<int>)
    requires plan.start < plan.end <= |plan.specs| == |plan.natural|
    ensures specs == plan.specs[plan.start..plan.end]
    ensures LaidPart(plan, widths, termWidth, sepW)
  {
    specs := SliceViewport(plan.specs, plan.start, plan.end);
    widths := WidthsFor(m, specs, linkCells, termWidth, sepW, plan.natural[plan.start..plan.end]);
  }

  /** The window does not matter to the sizes. */
  lemma ResizedPlan(m: L.Metrics, p: Plan, q: Plan, at: seq<nat>, rows: seq<CellRow>, width: int, sepW: int)
    requires Sized(m, p, at, rows, width, sepW) && q == p.(start := q.start, end := q.end)
    ensures Sized(m, q, at, rows, width, sepW)
  {
    forall i | 0 <= i < |at|
      ensures Measured(m, q, at, rows, i)
    {
      assert Measured(m, p, at, rows, i);
    }
  }

  ghost predicate IsWindow(w: V.Window, widths: seq<int>, sepW: int, termWidth: int, offset: int, cursor: int)
  {
    w == V.Range(widths, sepW, termWidth, offset, cursor)
  }

  method VisibleWindow(widths: seq<int>, sepW: int, termWidth: int, offset: int, cursor: int)
    returns (first: nat, last: nat, hasLeft: bool, hasRight: bool)
    requires |widths| > 0
    ensures IsWindow(V.Window(first, last, hasLeft, hasRight), widths, sepW, termWidth, offset, cursor)
    ensures first < last <= |widths|
  {
    var a, b;
    a, b, hasLeft, hasRight := V.ViewportRange(widths, sepW, termWidth, offset, cursor);
    RangeInside(widths, sepW, termWidth, offset, cursor);
    first, last := a, b;
  }

  lemma RangeInside(widths: seq<int>, sep: int, term: int, offset: int, cursor: int)
    requires |widths| > 0
    ensures var w := V.Range(widths, sep, term, offset, cursor); 0 <= w.start < w.end <= |widths|
  {
  }

  /** The cursor of a drawn viewport maps back to the tab's column cursor; when the
      tab is on screen the cursor is in the window. */
  lemma DrawnCursor(tab: Tab, m: L.Metrics, vp: TableViewport, plan: Plan, termWidth: int, sepW: int)
    requires Drawn(tab, m, vp, plan, termWidth, sepW)
    ensures vp.cursor == -1 || (0 <= vp.cursor < |vp.visToFull| && vp.visToFull[vp.cursor] == tab.ColCursor)
    ensures OnScreen(tab) ==> vp.cursor >= 0
  {
    CursorMaps(tab.Specs, plan, vp, termWidth, sepW, tab.ViewOffset, tab.ColCursor);
  }

  lemma CursorMaps(specs: seq<ColumnSpec>, plan: Plan, vp: TableViewport, termWidth: int, sepW: int, offset: int, cursor: int)
    requires Windowed(plan, VisToFull(specs), vp, termWidth, sepW, offset, FullToVis(specs, cursor))
    ensures vp.cursor == -1 || (0 <= vp.cursor < |vp.visToFull| && vp.visToFull[vp.cursor] == cursor)
    ensures Visible(specs, cursor) && 0 <= offset <= FullToVis(specs, cursor) ==> vp.cursor >= 0
  {
    FullToVisFinds(specs, cursor);
    var all, vis := VisToFull(specs), FullToVis(specs, cursor);
    assert plan.start <= vis < plan.end ==> all[plan.start..plan.end][vis - plan.start] == all[vis];
    if Visible(specs, cursor) && 0 <= offset <= FullToVis(specs, cursor) {
      WindowShowsCursor(plan.widths, sepW, termWidth, offset, FullToVis(specs, cursor));
    }
  }

  /** While pins are set, the widths do not depend on the rows that the filter leaves: two
      tabs with the same columns and the same loaded rows are sized alike. */
  lemma {:induction false} FilterKeepsWidths(a: Tab, b: Tab, m: L.Metrics, vpA: TableViewport, vpB: TableViewport,
                                             planA: Plan, planB: Plan, termWidth: int, sepW: int)
    requires Drawn(a, m, vpA, planA, termWidth, sepW) && Drawn(b, m, vpB, planB, termWidth, sepW)
    requires a.Specs == b.Specs && a.FullCellRows == b.FullCellRows != [] && a.Pins != [] && b.Pins != []
    ensures planA.natural == planB.natural && planA.widths == planB.widths
  {
    assert planA.specs == planB.specs;
    SizedUnique(m, planA, planB, VisToFull(a.Specs), a.FullCellRows, termWidth, sepW);
  }

  /** On screen, with sane columns and a separator, the window is the furthest that fits
      the terminal with its indicators, or one column. */
  lemma {:induction false} WindowFits(tab: Tab, m: L.Metrics, vp: TableViewport, plan: Plan, termWidth: int, sepW: int)
    requires Drawn(tab, m, vp, plan, termWidth, sepW) && OnScreen(tab) && SaneSpecs(tab.Specs) && sepW >= 1
    ensures V.Furthest(plan.widths, sepW, termWidth, plan.start, plan.end)
  {
    LaidOutIsPositive(m, plan, VisToFull(tab.Specs), LinkSource(tab), termWidth, sepW);
    WindowedFurthest(tab.Specs, plan, vp, termWidth, sepW, tab.ViewOffset, tab.ColCursor);
  }

  lemma WindowedFurthest(specs: seq<ColumnSpec>, plan: Plan, vp: TableViewport, termWidth: int, sepW: int, offset: int, cursor: int)
    requires Windowed(plan, VisToFull(specs), vp, termWidth, sepW, offset, FullToVis(specs, cursor))
    requires Visible(specs, cursor) && 0 <= offset <= FullToVis(specs, cursor)
    requires V.Positive(plan.widths) && sepW >= 1
    ensures V.Furthest(plan.widths, sepW, termWidth, plan.start, plan.end)
  {
    FullToVisFinds(specs, cursor);
    V.RangeShowsCursor(plan.widths, sepW, termWidth, offset, FullToVis(specs, cursor));
  }

  /** What is drawn fits: the drawn columns are laid out once more, with other columns to
      shrink and perhaps in another regime, and still take no more than the terminal with
      their separators. A single column that does not fit is at its minimum. */
  lemma {:induction false} DrawnFits(tab: Tab, m: L.Metrics, vp: TableViewport, plan: Plan, termWidth: int, sepW: int)
    requires Drawn(tab, m, vp, plan, termWidth, sepW) && OnScreen(tab) && SaneSpecs(tab.Specs) && sepW >= 1
    ensures |vp.widths| == plan.end - plan.start
    ensures DrawnWidth(vp.widths, sepW) <= termWidth || (|vp.widths| == |vp.specs| == 1 && vp.widths[0] <= vp.specs[0].min)
  {
    var at, rows := VisToFull(tab.Specs), LinkSource(tab);
    WindowFits(tab, m, vp, plan, termWidth, sepW);
    NaturalsAboveMin(m, plan, at, rows, termWidth, sepW);
    LaidOutIsPositive(m, plan, at, rows, termWidth, sepW);
    RedrawnFits(plan, vp, L.Available(termWidth, sepW, |at|), termWidth, sepW);
  }

  lemma {:induction false} RedrawnFits(plan: Plan, vp: TableViewport, avail: int, termWidth: int, sepW: int)
    requires Redrawn(plan, vp, termWidth, sepW) && SaneSpecs(plan.specs)
    requires forall i :: 0 <= i < |plan.specs| ==> plan.specs[i].min <= plan.natural[i]
    requires L.Laid(plan.specs, plan.natural, avail, plan.widths) && V.Positive(plan.widths)
    requires V.Fits(plan.widths, sepW, termWidth, plan.start, plan.end) || plan.end == plan.start + 1
    ensures |vp.widths| == plan.end - plan.start
    ensures DrawnWidth(vp.widths, sepW) <= termWidth || (|vp.widths| == |vp.specs| == 1 && vp.widths[0] <= vp.specs[0].min)
  {
    if V.Fits(plan.widths, sepW, termWidth, plan.start, plan.end) {
      FittingRedrawn(plan, vp.widths, avail, termWidth, sepW);
    } else {
      OneRedrawn(plan, vp.widths, termWidth, sepW);
    }
  }

  /** The columns with their separators. */
  function DrawnWidth(widths: seq<int>, sepW: int): int
  {
    Sum(widths) + (|widths| - 1) * sepW
  }

  lemma {:induction false} FittingRedrawn(plan: Plan, widths: seq<int>, avail: int, termWidth: int, sepW: int)
    requires |plan.natural| == |plan.specs| && SaneSpecs(plan.specs)
    requires V.Fits(plan.widths, sepW, termWidth, plan.start, plan.end) && plan.end <= |plan.specs|
    requires forall i :: 0 <= i < |plan.specs| ==> plan.specs[i].min <= plan.natural[i]
    requires L.Laid(plan.specs, plan.natural, avail, plan.widths) && V.Positive(plan.widths)
    requires LaidPart(plan, widths, termWidth, sepW)
    ensures |widths| == plan.end - plan.start && DrawnWidth(widths, sepW) <= termWidth
  {
    var n := plan.end - plan.start;
    var room := WindowRoom(plan.widths, plan.start, plan.end, termWidth, sepW);
    PartInRoom(plan, widths, avail, termWidth, sepW, room);
    DrawnInRoom(widths, n, room, termWidth, sepW);
  }

  lemma {:induction false} PartInRoom(plan: Plan, widths: seq<int>, avail: int, termWidth: int, sepW: int, room: int)
    requires |plan.natural| == |plan.specs| && SaneSpecs(plan.specs) && plan.start < plan.end <= |plan.specs|
    requires forall i :: 0 <= i < |plan.specs| ==> plan.specs[i].min <= plan.natural[i]
    requires L.Laid(plan.specs, plan.natural, avail, plan.widths)
    requires LaidPart(plan, widths, termWidth, sepW) && room == L.Available(termWidth, sepW, plan.end - plan.start)
    requires plan.end <= |plan.widths| && Sum(plan.widths[plan.start..plan.end]) <= room
    ensures |widths| == plan.end - plan.start && Sum(widths) <= room
  {
    L.PartFits(plan.specs, plan.natural, avail, plan.widths, plan.start, plan.end, room, widths);
  }

  lemma DrawnInRoom(widths: seq<int>, n: nat, room: int, termWidth: int, sepW: int)
    requires |widths| == n && Sum(widths) <= room && room + (n - 1) * sepW == termWidth
    ensures DrawnWidth(widths, sepW) <= termWidth
  {
  }

  lemma WindowRoom(widths: seq<int>, start: nat, end: nat, termWidth: int, sepW: int) returns (room: int)
    requires V.Fits(widths, sepW, termWidth, start, end) && V.Positive(widths)
    ensures room == L.Available(termWidth, sepW, end - start)
    ensures Sum(widths[start..end]) <= room && room + (end - start - 1) * sepW == termWidth
  {
    room := L.Available(termWidth, sepW, end - start);
    SumAtLeastCount(widths[start..end]);
    RoomForWindow(termWidth, sepW, end - start, Sum(widths[start..end]));
  }

  lemma {:induction false} OneRedrawn(plan: Plan, widths: seq<int>, termWidth: int, sepW: int)
    requires plan.start + 1 == plan.end <= |plan.specs| == |plan.natural| && SaneSpecs(plan.specs)
    requires LaidPart(plan, widths, termWidth, sepW)
    ensures |widths| == 1 && (DrawnWidth(widths, sepW) <= termWidth || widths[0] <= plan.specs[plan.start].min)
  {
    assert plan.specs[plan.start..plan.end] == [plan.specs[plan.start]];
    assert plan.natural[plan.start..plan.end] == [plan.natural[plan.start]];
    OneDrawn(plan.specs[plan.start], plan.natural[plan.start], termWidth, sepW, widths);
  }

  lemma RoomForWindow(termWidth: int, sepW: int, n: nat, total: int)
    requires n <= total && total + (n - 1) * sepW <= termWidth
    ensures L.Available(termWidth, sepW, n) + (n - 1) * sepW == termWidth && total <= L.Available(termWidth, sepW, n)
  {
    assert sepW * (n - 1) == (n - 1) * sepW;
  }

  lemma {:induction false} OneDrawn(spec: ColumnSpec, natural: int, termWidth: int, sepW: int, widths: seq<int>)
    requires Sane(spec) && L.Laid([spec], [natural], L.Available(termWidth, sepW, 1), widths)
    ensures |widths| == 1 && (DrawnWidth(widths, sepW) <= termWidth || widths[0] <= spec.min)
  {
    L.OneColumnWidth(spec, natural, L.Available(termWidth, sepW, 1), widths);
    L.SumOne(widths[0]);
    assert widths == [widths[0]];
  }

  lemma {:induction false} SumAtLeastCount(widths: seq<int>)
    requires V.Positive(widths)
    ensures Sum(widths) >= |widths|
  {
    if widths != [] {
      SumAtLeastCount(widths[..|widths| - 1]);
    }
  }

  /** Measuring in dollars makes no difference: the symbol is as wide, or no visible
      header shows it. */
  ghost predicate DollarWide(m: L.Metrics, specs: seq<ColumnSpec>)
  {
    m.width(m.symbol) == m.width("$") || forall i :: Visible(specs, i) ==> !L.ShowsSymbol(specs[i])
  }

  lemma {:induction false} SizedInDollars(m: L.Metrics, plan: Plan, specs: seq<ColumnSpec>, rows: seq<CellRow>, width: int, sepW: int)
    requires SpecsAt(plan.specs, specs, VisToFull(specs)) && DollarWide(m, specs)
    requires Sized(L.InDollars(m), plan, VisToFull(specs), rows, width, sepW)
    ensures Sized(m, plan, VisToFull(specs), rows, width, sepW)
  {
    var at := VisToFull(specs);
    VisToFullLists(specs);
    forall i | 0 <= i < |at|
      ensures Measured(m, plan, at, rows, i)
    {
      assert Measured(L.InDollars(m), plan, at, rows, i);
      assert at[i] in at;
      L.DollarNatural(m, plan.specs[i], |at|, rows, at[i], plan.natural[i]);
    }
  }

  /** A drawing that follows an update of the viewport opens its window exactly at the
      scroll offset, as long as both measure the same rows, as they do without pins, and
      the update's dollar sign is as wide as the symbol that is drawn. */
  lemma {:induction false} DrawnAtOffset(tab: Tab, m: L.Metrics, vp: TableViewport, updated: Plan, from: int, plan: Plan,
                                         width: int, sepW: int)
    requires Settled(tab, m, updated, from, width, sepW) && Drawn(tab, m, vp, plan, width, sepW)
    requires LinkSource(tab) == tab.CellRows && DollarWide(m, tab.Specs)
    ensures plan.widths == updated.widths && plan.start == tab.ViewOffset
  {
    assert plan.specs == updated.specs;
    SizedInDollars(m, updated, tab.Specs, tab.CellRows, width, sepW);
    SizedUnique(m, plan, updated, VisToFull(tab.Specs), tab.CellRows, width, sepW);
    V.RangeStable(updated.widths, sepW, width, from, FullToVis(tab.Specs, tab.ColCursor));
  }

  /** A window opened at the offset shows the cursor: then the drawing need not scroll. */
  predicate OpensAt(widths: seq<int>, sepW: int, width: int, offset: int, cursor: int)
    requires 0 <= offset < |widths|
  {
    if V.TotalWidth(widths, sepW) <= width then offset == 0 else cursor < V.WindowEnd(widths, sepW, width, offset)
  }

  /** With pins too, when drawing measures other rows, and with any symbol: the drawing opens at the scroll
      offset if and only if, in the widths it is sized by, the window there shows the
      cursor (and the offset is 0 if all columns fit). */
  lemma DrawnAtOffsetExactly(tab: Tab, m: L.Metrics, vp: TableViewport, plan: Plan, width: int, sepW: int)
    requires Drawn(tab, m, vp, plan, width, sepW) && OnScreen(tab)
    ensures 0 <= tab.ViewOffset <= FullToVis(tab.Specs, tab.ColCursor) < |plan.widths|
    ensures plan.start == tab.ViewOffset <==> OpensAt(plan.widths, sepW, width, tab.ViewOffset, FullToVis(tab.Specs, tab.ColCursor))
  {
    WindowedAtOffset(tab.Specs, plan, vp, width, sepW, tab.ViewOffset, tab.ColCursor);
  }

  lemma WindowedAtOffset(specs: seq<ColumnSpec>, plan: Plan, vp: TableViewport, width: int, sepW: int, offset: int, cursor: int)
    requires Windowed(plan, VisToFull(specs), vp, width, sepW, offset, FullToVis(specs, cursor))
    requires Visible(specs, cursor) && 0 <= offset <= FullToVis(specs, cursor)
    ensures FullToVis(specs, cursor) < |plan.widths|
    ensures plan.start == offset <==> OpensAt(plan.widths, sepW, width, offset, FullToVis(specs, cursor))
  {
    FullToVisFinds(specs, cursor);
    if V.TotalWidth(plan.widths, sepW) > width {
      V.ScrollLeast(plan.widths, sepW, width, offset, FullToVis(specs, cursor));
    }
  }

  // ----- pins in viewport coordinates -----

  function PlaceOf(visToFull: seq<nat>, col: nat): (k: nat)
    ensures k <= |visToFull| && (k < |visToFull| ==> visToFull[k] == col)
    ensures k == |visToFull| ==> col !in visToFull
  {
    if visToFull == [] then 0
    else
      var n := |visToFull| - 1;
      if visToFull[n] == col then n
      else
        var k := PlaceOf(visToFull[..n], col);
        if k == n then |visToFull| else k
  }

  /** `viewportPinContext`: the pins on drawn columns, renumbered. */
  method ViewportPins(pins: seq<Pin>, visToFull: seq<nat>) returns (translated: seq<Pin>)
    requires StrictlyIncreasing(visToFull)
    ensures forall k: nat, key: string :: k < |visToFull| ==>
              (P.Pinned(translated, k, key) <==> P.Pinned(pins, visToFull[k], key))
    ensures forall i :: 0 <= i < |translated| ==> translated[i].col < |visToFull|
  {
    var fullToVP: map<nat, nat> := map[];
    for k := 0 to |visToFull|
      invariant forall f :: f in fullToVP ==> fullToVP[f] < k && visToFull[fullToVP[f]] == f
      invariant forall j :: 0 <= j < k ==> visToFull[j] in fullToVP
    {
      fullToVP := fullToVP[visToFull[k] := k];
    }
    translated := [];
    for i := 0 to |pins|
      invariant forall j :: 0 <= j < |translated| ==> translated[j].col < |visToFull|
      invariant forall k: nat, key: string :: k < |visToFull| ==>
                  (P.Pinned(translated, k, key) <==> P.Pinned(pins[..i], visToFull[k], key))
    {
      var pin := pins[i];
      ghost var before := translated;
      if pin.col in fullToVP {
        translated := translated + [Pin(fullToVP[pin.col], pin.values)];
      }
      forall k: nat, key: string | k < |visToFull|
        ensures P.Pinned(translated, k, key) <==> P.Pinned(pins[..i + 1], visToFull[k], key)
      {
        PinnedAppend(pins[..i], pin, visToFull[k], key);
        assert pins[..i + 1] == pins[..i] + [pin];
        if pin.col in fullToVP {
          PinnedAppend(before, Pin(fullToVP[pin.col], pin.values), k, key);
          assert fullToVP[pin.col] == k <==> visToFull[k] == pin.col;
        }
      }
    }
    assert pins[..|pins|] == pins;
  }

  lemma PinnedAppend(pins: seq<Pin>, pin: Pin, col: nat, key: string)
    ensures P.Pinned(pins + [pin], col, key) <==> P.Pinned(pins, col, key) || (pin.col == col && key in pin.values)
  {
    var all := pins + [pin];
    if P.Pinned(pins, col, key) {
      var i :| 0 <= i < |pins| && pins[i].col == col && key in pins[i].values;
      assert all[i] == pins[i];
    }
    if pin.col == col && key in pin.values {
      assert all[|pins|] == pin;
    }
  }

  // ----- the column keys, on a tab -----

  ghost function ColsOf(tab: Tab): Cols
    reads tab
  {
    Cols(tab.Specs, tab.ColCursor)
  }

  /** The pins of a column go; while others are left, the rows are filtered anew. */
  method DropPins(tab: Tab, col: nat, d: P.Display, magMode: bool)
    requires P.Loaded(tab)
    modifies tab`Pins, tab`FilterActive, tab`FilterInverted, tab`CellRows, tab`Rows, tab`TableRows
    ensures tab.Pins == P.Cleared(old(tab.Pins), col)
    ensures tab.Pins != [] ==> P.Displays(d, tab, magMode)
    ensures tab.Pins == [] ==> tab.CellRows == old(tab.CellRows) && tab.Rows == old(tab.Rows) && tab.TableRows == old(tab.TableRows)
  {
    P.ClearPinsForColumn(tab, col);
    if |tab.Pins| > 0 {
      P.ApplyRowFilter(d, tab, magMode);
    }
  }

  /** `hideCurrentColumn`: pins on the hidden column go with it. */
  method HideCurrentColumn(tab: Tab, d: P.Display, magMode: bool, m: L.Metrics, width: int, sepW: int) returns (hidden: bool)
    requires P.Loaded(tab)
    modifies tab`Specs, tab`ColCursor, tab`ViewOffset, tab`Pins, tab`FilterActive, tab`FilterInverted, tab`CellRows, tab`Rows, tab`TableRows
    ensures ColsOf(tab) == Step(old(ColsOf(tab)), Hide)
    ensures hidden <==> Visible(old(tab.Specs), old(tab.ColCursor)) && |VisToFull(old(tab.Specs))| > 1
    ensures hidden ==> tab.Pins == P.Cleared(old(tab.Pins), old(tab.ColCursor))
    ensures hidden && tab.Pins != [] ==> P.Displays(d, tab, magMode)
    ensures !hidden || tab.Pins == [] ==>
              tab.CellRows == old(tab.CellRows) && tab.Rows == old(tab.Rows) && tab.TableRows == old(tab.TableRows)
    ensures !hidden ==> tab.Pins == old(tab.Pins) && tab.ViewOffset == old(tab.ViewOffset)
    ensures hidden && Visible(tab.Specs, tab.ColCursor) ==> OnScreen(tab)
  {
    var col := tab.ColCursor;
    if col < 0 || col >= |tab.Specs| {
      return false;
    }
    if tab.Specs[col].hideOrder > 0 {
      return false;
    }
    var count := VisibleCount(tab.Specs);
    if count <= 1 {
      return false;
    }
    HideVisible(tab, d, magMode, m, width, sepW);
    return true;
  }

  /** Hides the cursor's column, once the guards have let it through. */
  method HideVisible(tab: Tab, d: P.Display, magMode: bool, m: L.Metrics, width: int, sepW: int)
    requires P.Loaded(tab) && Visible(tab.Specs, tab.ColCursor) && |VisToFull(tab.Specs)| > 1
    modifies tab`Specs, tab`ColCursor, tab`ViewOffset, tab`Pins, tab`FilterActive, tab`FilterInverted, tab`CellRows, tab`Rows, tab`TableRows
    ensures ColsOf(tab) == Step(old(ColsOf(tab)), Hide)
    ensures tab.Pins == P.Cleared(old(tab.Pins), old(tab.ColCursor))
    ensures tab.Pins != [] ==> P.Displays(d, tab, magMode)
    ensures tab.Pins == [] ==> tab.CellRows == old(tab.CellRows) && tab.Rows == old(tab.Rows) && tab.TableRows == old(tab.TableRows)
    ensures Visible(tab.Specs, tab.ColCursor) ==> OnScreen(tab)
  {
    ghost var c := ColsOf(tab);
    var col := tab.ColCursor;
    HideAt(tab, col, d, magMode);
    StepOff(tab, col);
    Rescroll(tab, m, width, sepW);
    HiddenStep(c, ColsOf(tab));
  }

  lemma HiddenStep(c: Cols, h: Cols)
    requires Visible(c.specs, c.cursor) && |VisToFull(c.specs)| > 1
    requires h.specs == c.specs[c.cursor := c.specs[c.cursor].(hideOrder := MaxHideOrder(c.specs) + 1)]
    requires var right := NextVisible(h.specs, c.cursor, true);
             h.cursor == if right == c.cursor then NextVisible(h.specs, c.cursor, false) else right
    ensures h == Step(c, Hide)
  {
  }

  /** Marks the column hidden and drops its pins. */
  method HideAt(tab: Tab, col: nat, d: P.Display, magMode: bool)
    requires P.Loaded(tab) && col < |tab.Specs|
    modifies tab`Specs, tab`Pins, tab`FilterActive, tab`FilterInverted, tab`CellRows, tab`Rows, tab`TableRows
    ensures tab.Specs == old(tab.Specs)[col := old(tab.Specs)[col].(hideOrder := MaxHideOrder(old(tab.Specs)) + 1)]
    ensures tab.Pins == P.Cleared(old(tab.Pins), col)
    ensures tab.Pins != [] ==> P.Displays(d, tab, magMode)
    ensures tab.Pins == [] ==> tab.CellRows == old(tab.CellRows) && tab.Rows == old(tab.Rows) && tab.TableRows == old(tab.TableRows)
  {
    var order := NextHideOrder(tab.Specs);
    tab.Specs := tab.Specs[col := tab.Specs[col].(hideOrder := order)];
    DropPins(tab, col, d, magMode);
  }

  /** Moves the cursor off a hidden column: to the right, else to the left. */
  method StepOff(tab: Tab, col: nat)
    modifies tab`ColCursor
    ensures var right := NextVisible(tab.Specs, col, true);
            tab.ColCursor == if right == col then NextVisible(tab.Specs, col, false) else right
  {
    var next := NextVisibleCol(tab.Specs, col, true);
    if next == col {
      next := NextVisibleCol(tab.Specs, col, false);
    }
    tab.ColCursor := next;
  }

  /** `showAllColumns`. */
  method ShowAllColumns(tab: Tab, m: L.Metrics, width: int, sepW: int)
    modifies tab`Specs, tab`ViewOffset
    ensures ColsOf(tab) == Step(old(ColsOf(tab)), ShowAll)
    ensures old(OnScreen(tab)) ==> OnScreen(tab)
  {
    var changed := false;
    ghost var was := tab.Specs;
    for i := 0 to |tab.Specs|
      invariant |tab.Specs| == |was|
      invariant forall j :: 0 <= j < i ==> tab.Specs[j] == was[j].(hideOrder := 0)
      invariant forall j :: i <= j < |was| ==> tab.Specs[j] == was[j]
      invariant !changed ==> tab.Specs == was
      invariant tab.ViewOffset == old(tab.ViewOffset)
    {
      if tab.Specs[i].hideOrder > 0 {
        tab.Specs := tab.Specs[i := tab.Specs[i].(hideOrder := 0)];
        changed := true;
      }
    }
    assert tab.Specs == UnhideAll(was);
    if changed {
      Rescroll(tab, m, width, sepW);
    }
  }

  /** The cursor keys: left, right, first and last visible column. */
  method MoveCursor(tab: Tab, k: Key, m: L.Metrics, width: int, sepW: int)
    requires k in {Left, Right, First, Last}
    modifies tab`ColCursor, tab`ViewOffset
    ensures ColsOf(tab) == Step(old(ColsOf(tab)), k)
    ensures Visible(tab.Specs, tab.ColCursor) ==> OnScreen(tab)
  {
    match k {
      case Left => tab.ColCursor := NextVisibleCol(tab.Specs, tab.ColCursor, false);
      case Right => tab.ColCursor := NextVisibleCol(tab.Specs, tab.ColCursor, true);
      case First => tab.ColCursor := FirstVisibleCol(tab.Specs);
      case Last => tab.ColCursor := LastVisibleCol(tab.Specs);
    }
    Rescroll(tab, m, width, sepW);
  }

  /** The column part of `columnFinderJump`: a hidden target is shown first. */
  method JumpTo(tab: Tab, idx: nat, m: L.Metrics, width: int, sepW: int)
    requires idx < |tab.Specs|
    modifies tab`Specs, tab`ColCursor, tab`ViewOffset
    ensures ColsOf(tab) == Step(old(ColsOf(tab)), Jump(idx))
    ensures OnScreen(tab)
  {
    if tab.Specs[idx].hideOrder > 0 {
      tab.Specs := tab.Specs[idx := tab.Specs[idx].(hideOrder := 0)];
    }
    tab.ColCursor := idx;
    Rescroll(tab, m, width, sepW);
  }
}
