/**
 The yen sign, which takes two cells: the scroll offset is computed in dollars, and the
 window that is drawn opens elsewhere. The quotes table, its columns Other and Docs hidden
 and without rows, on a terminal of 87 cells, which holds the other columns exactly as
 long as the symbol takes one cell.
 */
module WideSymbol {
  import opened Schema
  import opened Sums
  import opened Columns
  import opened TableView
  import W = WaterFill
  import L = Layout
  import V = Viewport

  const YEN_SIGN := "\U{FFE5}"
  const YEN := L.Metrics(YEN_SIGN, (s: string) => if s == YEN_SIGN then 2 else |s|, s => s, s => 0, n => 1)

  const ID := ColumnSpec("ID", 7, 7, false, Readonly, [], 0, false)
  const PROJECT := ColumnSpec("Project", 12, 24, true, Text, [], 0, true)
  const VENDOR := ColumnSpec("Vendor", 12, 20, true, Text, [], 0, true)
  const TOTAL := ColumnSpec("Total", 10, 14, false, Money, [], 0, false)
  const LABOR := ColumnSpec("Labor", 10, 14, false, Money, [], 0, false)
  const MAT := ColumnSpec("Mat", 8, 12, false, Money, [], 0, false)
  const OTHER := ColumnSpec("Other", 8, 12, false, Money, [], 1, false)
  const RECV := ColumnSpec("Recv", 10, 12, false, Date, [], 0, false)
  const DOCS := ColumnSpec("Docs", 5, 6, false, Drilldown, [], 2, false)

  const QUOTES := [ID, PROJECT, VENDOR, TOTAL, LABOR, MAT, OTHER, RECV, DOCS]
  const VISIBLE := [ID, PROJECT, VENDOR, TOTAL, LABOR, MAT, RECV]
  const AT: seq<nat> := [0, 1, 2, 3, 4, 5, 7]

  const TERM := 87
  const SEP := 3

  // The widths in dollars, and in yen.
  const DOLLARS := [7, 12, 12, 10, 10, 8, 10]
  const YENS := [7, 12, 12, 11, 11, 9, 10]

  // ----- the visible columns -----

  lemma VisibleStep(specs: seq<ColumnSpec>, n: nat)
    requires n < |specs|
    ensures VisToFull(specs[..n + 1]) == VisToFull(specs[..n]) + if specs[n].hideOrder > 0 then [] else [n]
  {
    assert specs[..n + 1][..n] == specs[..n];
  }

  lemma VisibleColumns()
    ensures VisToFull(QUOTES) == AT
  {
    assert QUOTES[..0] == [] && QUOTES[..9] == QUOTES;
    VisibleStep(QUOTES, 0);
    VisibleStep(QUOTES, 1);
    VisibleStep(QUOTES, 2);
    assert VisToFull(QUOTES[..3]) == [0, 1, 2];
    VisibleStep(QUOTES, 3);
    VisibleStep(QUOTES, 4);
    VisibleStep(QUOTES, 5);
    assert VisToFull(QUOTES[..6]) == [0, 1, 2, 3, 4, 5];
    VisibleStep(QUOTES, 6);
    VisibleStep(QUOTES, 7);
    VisibleStep(QUOTES, 8);
  }

  lemma CursorPlace()
    ensures FullToVis(QUOTES, 7) == 6
  {
    VisibleColumns();
    FullToVisFinds(QUOTES, 7);
  }

  lemma SpecsVisible(specs: seq<ColumnSpec>)
    requires SpecsAt(specs, QUOTES, AT)
    ensures specs == VISIBLE
  {
    assert forall k :: 0 <= k < 7 ==> QUOTES[AT[k]] == VISIBLE[k];
  }

  // ----- the two layouts -----

  lemma TextWidths()
    ensures YEN.width(YEN_SIGN) == 2 && YEN.width("$") == 1 && YEN.width(L.LINK_ARROW) == 1
    ensures YEN.width("ID") == 2 && YEN.width("Project") == 7 && YEN.width("Vendor") == 6
    ensures YEN.width("Total") == YEN.width("Labor") == 5 && YEN.width("Mat") == 3 && YEN.width("Recv") == 4
  {
    assert |YEN_SIGN| == 1 && YEN_SIGN[0] == '\U{FFE5}';
    assert "$"[0] == '$' && L.LINK_ARROW[0] == '\U{2192}';
  }

  /** Without rows a column is as wide as its header, or as its minimum. */
  function Bare(m: L.Metrics, spec: ColumnSpec): int
  {
    Max(L.HeaderWidth(m, spec, 7), spec.min)
  }

  lemma BareIsNatural(m: L.Metrics, spec: ColumnSpec, ci: nat)
    requires spec.fixedValues == [] && spec.kind != Notes
    ensures L.IsNatural(m, spec, 7, [], ci, Bare(m, spec))
  {
    assert L.Demand(m, spec, 7, [], ci, Bare(m, spec));
  }

  lemma BareInDollars()
    ensures forall i :: 0 <= i < 7 ==> Bare(L.InDollars(YEN), VISIBLE[i]) == DOLLARS[i]
  {
    TextWidths();
  }

  lemma BareInYen()
    ensures forall i :: 0 <= i < 7 ==> Bare(YEN, VISIBLE[i]) == YENS[i]
  {
    TextWidths();
  }

  lemma SumSeven(s: seq<int>)
    requires |s| == 7
    ensures Sum(s) == s[0] + s[1] + s[2] + s[3] + s[4] + s[5] + s[6]
  {
    assert s[..0] == [] && s[..7] == s;
    SumSlice(s, 0, 0);
    SumSlice(s, 0, 1);
    SumSlice(s, 0, 2);
    SumSlice(s, 0, 3);
    SumSlice(s, 0, 4);
    SumSlice(s, 0, 5);
    SumSlice(s, 0, 6);
  }

  lemma SizedInDollarSigns()
    ensures Sized(L.InDollars(YEN), Plan(VISIBLE, DOLLARS, DOLLARS, 0, 0), AT, [], TERM, SEP)
  {
    var plan := Plan(VISIBLE, DOLLARS, DOLLARS, 0, 0);
    BareInDollars();
    forall i | 0 <= i < 7
      ensures Measured(L.InDollars(YEN), plan, AT, [], i)
    {
      BareIsNatural(L.InDollars(YEN), VISIBLE[i], AT[i]);
    }
    SumSeven(DOLLARS);
    L.NothingToGrow(VISIBLE, DOLLARS);
  }

  lemma SizedInYen()
    ensures Sized(YEN, Plan(VISIBLE, YENS, YENS, 0, 0), AT, [], TERM, SEP)
  {
    var plan := Plan(VISIBLE, YENS, YENS, 0, 0);
    BareInYen();
    forall i | 0 <= i < 7
      ensures Measured(YEN, plan, AT, [], i)
    {
      BareIsNatural(YEN, VISIBLE[i], AT[i]);
    }
    SumSeven(YENS);
    assert L.Capped(VISIBLE, YENS) == YENS;
    NothingToShrink();
  }

  /** The two flexible columns are at their minimum, and no others may shrink. */
  lemma NothingToShrink()
    ensures W.FairSplit(YENS, YENS, L.DistributeCaps(YENS, VISIBLE, L.Flexible(VISIBLE), false), 3, false)
  {
    assert VISIBLE[1].flex;
    assert W.Changes(YENS, YENS, false) == W.Zeros(7);
    W.SumZeros(7);
  }

  lemma WidthsInDollars(p: Plan)
    requires p.specs == VISIBLE && Sized(L.InDollars(YEN), p, AT, [], TERM, SEP)
    ensures p.widths == DOLLARS
  {
    SizedInDollarSigns();
    SizedUnique(L.InDollars(YEN), p, Plan(VISIBLE, DOLLARS, DOLLARS, 0, 0), AT, [], TERM, SEP);
  }

  lemma WidthsInYen(p: Plan)
    requires p.specs == VISIBLE && Sized(YEN, p, AT, [], TERM, SEP)
    ensures p.widths == YENS
  {
    SizedInYen();
    SizedUnique(YEN, p, Plan(VISIBLE, YENS, YENS, 0, 0), AT, [], TERM, SEP);
  }

  // ----- the two windows -----

  lemma DollarWindow(offset: int, cursor: int)
    ensures V.Range(DOLLARS, SEP, TERM, offset, cursor).start == 0
  {
    SumSeven(DOLLARS);
  }

  lemma FirstYenWindow()
    ensures V.WindowEnd(YENS, SEP, TERM, 0) == 6
  {
    assert V.Fill(YENS, SEP, 0, 6, 10) == (6, 10);
    assert V.Fill(YENS, SEP, 0, 5, 22) == (6, 10);
    assert V.Fill(YENS, SEP, 0, 4, 36) == (6, 10);
    assert V.Fill(YENS, SEP, 0, 3, 50) == (6, 10);
    assert V.Fill(YENS, SEP, 0, 2, 65) == (6, 10);
    assert V.Fill(YENS, SEP, 0, 1, 80) == (6, 10);
    assert V.Fill(YENS, SEP, 0, 0, 87) == (6, 10);
  }

  lemma SecondYenWindow()
    ensures V.WindowEnd(YENS, SEP, TERM, 1) == 7
  {
    assert V.Fill(YENS, SEP, 1, 7, 5) == (7, 5);
    assert V.Fill(YENS, SEP, 1, 6, 18) == (7, 5);
    assert V.Fill(YENS, SEP, 1, 5, 30) == (7, 5);
    assert V.Fill(YENS, SEP, 1, 4, 44) == (7, 5);
    assert V.Fill(YENS, SEP, 1, 3, 58) == (7, 5);
    assert V.Fill(YENS, SEP, 1, 2, 73) == (7, 5);
    assert V.Fill(YENS, SEP, 1, 1, 85) == (7, 5);
  }

  lemma YenWindow()
    ensures V.Range(YENS, SEP, TERM, 0, 6).start == 1
  {
    SumSeven(YENS);
    FirstYenWindow();
    SecondYenWindow();
  }

  // ----- the tab -----

  lemma UpdatedStart(plan: Plan, offset: int, from: int, cursor: int)
    requires SpecsAt(plan.specs, QUOTES, AT) && Sized(L.InDollars(YEN), plan, AT, [], TERM, SEP)
    requires offset == V.Range(plan.widths, SEP, TERM, from, cursor).start
    ensures offset == 0
  {
    SpecsVisible(plan.specs);
    WidthsInDollars(plan);
    DollarWindow(from, cursor);
  }

  lemma SettledAtZero(tab: Tab, from: int, updated: Plan)
    requires tab.Specs == QUOTES && tab.CellRows == [] && Settled(tab, YEN, updated, from, TERM, SEP)
    ensures tab.ViewOffset == 0
  {
    VisibleColumns();
    UpdatedStart(updated, tab.ViewOffset, from, FullToVis(tab.Specs, tab.ColCursor));
  }

  lemma DrawnStart(plan: Plan, vp: TableViewport)
    requires SpecsAt(plan.specs, QUOTES, AT) && Sized(YEN, plan, AT, [], TERM, SEP)
    requires Windowed(plan, AT, vp, TERM, SEP, 0, 6)
    ensures plan.start == 1
  {
    SpecsVisible(plan.specs);
    WidthsInYen(plan);
    YenWindow();
  }

  lemma DrawnAtOne(tab: Tab, vp: TableViewport, plan: Plan)
    requires tab.Specs == QUOTES && tab.CellRows == [] && tab.Pins == [] && tab.ColCursor == 7 && tab.ViewOffset == 0
    requires Drawn(tab, YEN, vp, plan, TERM, SEP)
    ensures plan.start == 1
  {
    VisibleColumns();
    CursorPlace();
    DrawnStart(plan, vp);
  }

  lemma NotDollarWide()
    ensures !DollarWide(YEN, QUOTES)
  {
    TextWidths();
    assert Visible(QUOTES, 3) && L.ShowsSymbol(QUOTES[3]);
  }

  /** With the cursor on Recv the update stores the offset 0, and the drawing right after
      it opens at the second visible column. */
  lemma WideSymbolScrolls(tab: Tab, from: int, updated: Plan, vp: TableViewport, plan: Plan)
    requires tab.Specs == QUOTES && tab.CellRows == [] && tab.Pins == [] && tab.ColCursor == 7
    requires Settled(tab, YEN, updated, from, TERM, SEP) && Drawn(tab, YEN, vp, plan, TERM, SEP)
    ensures tab.ViewOffset == 0 && plan.start == 1
    ensures !DollarWide(YEN, tab.Specs)
  {
    SettledAtZero(tab, from, updated);
    DrawnAtOne(tab, vp, plan);
    NotDollarWide();
  }
}
