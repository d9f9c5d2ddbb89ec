/**
 Hidden columns: the visible projection of a tab, and the keys that hide, show and move between columns.
 */
module Columns {
  import opened Schema

  // ----- the visible projection -----

  predicate Visible(specs: seq<ColumnSpec>, i: int)
  {
    0 <= i < |specs| && specs[i].hideOrder == 0
  }

  /** Table positions of the visible columns, left to right. */
  function VisToFull(specs: seq<ColumnSpec>): (v: seq<nat>)
    ensures |v| <= |specs|
    ensures forall k :: 0 <= k < |v| ==> v[k] < |specs|
  {
    if specs == [] then [] else
      var n := |specs| - 1;
      VisToFull(specs[..n]) + if specs[n].hideOrder > 0 then [] else [n]
  }

  /** It lists exactly the visible columns, in strictly increasing order. */
  lemma {:induction false} VisToFullLists(specs: seq<ColumnSpec>)
    ensures forall j, k :: 0 <= j < k < |VisToFull(specs)| ==> VisToFull(specs)[j] < VisToFull(specs)[k]
    ensures forall i: nat :: i in VisToFull(specs) <==> Visible(specs, i)
  {
    if specs != [] {
      var n := |specs| - 1;
      VisToFullLists(specs[..n]);
    }
  }

  /** The cells of a row at the given positions; positions past the end of a short
      row are skipped. */
  function Project(row: CellRow, at: seq<nat>): CellRow
  {
    if at == [] then [] else
      var n := |at| - 1;
      Project(row, at[..n]) + if at[n] < |row| then [row[at[n]]] else []
  }

  ghost predicate StrictlyIncreasing(at: seq<nat>)
  {
    forall j, k :: 0 <= j < k < |at| ==> at[j] < at[k]
  }

  /** A projected cell is the cell at its position; only positions past the end of a
      short row are missing, and they are the last ones. */
  lemma {:induction false} ProjectCells(row: CellRow, at: seq<nat>)
    requires StrictlyIncreasing(at)
    ensures |Project(row, at)| <= |at|
    ensures forall k :: 0 <= k < |at| ==> (k < |Project(row, at)| <==> at[k] < |row|)
    ensures forall k :: 0 <= k < |Project(row, at)| ==> Project(row, at)[k] == row[at[k]]
  {
    if at != [] {
      ProjectCells(row, at[..|at| - 1]);
    }
  }

  method ProjectRow(row: CellRow, at: seq<nat>) returns (projected: CellRow)
    ensures projected == Project(row, at)
  {
    projected := [];
    for k := 0 to |at|
      invariant projected == Project(row, at[..k])
    {
      assert at[..k + 1][..k] == at[..k];
      if at[k] < |row| {
        projected := projected + [row[at[k]]];
      }
    }
    assert at[..|at|] == at;
  }

  method ProjectRows(rows: seq<CellRow>, at: seq<nat>) returns (projected: seq<CellRow>)
    ensures |projected| == |rows|
    ensures forall r :: 0 <= r < |rows| ==> projected[r] == Project(rows[r], at)
  {
    projected := [];
    for r := 0 to |rows|
      invariant |projected| == r
      invariant forall q :: 0 <= q < r ==> projected[q] == Project(rows[q], at)
    {
      var p := ProjectRow(rows[r], at);
      projected := projected + [p];
    }
  }

  /** Position of a table column among the visible ones, or -1. */
  function FullToVis(specs: seq<ColumnSpec>, full: int): (vis: int)
    ensures vis == -1 || (0 <= vis < |VisToFull(specs)| && VisToFull(specs)[vis] == full)
  {
    if specs == [] then -1 else
      var n := |specs| - 1;
      if n == full && specs[n].hideOrder == 0 then |VisToFull(specs[..n])|
      else FullToVis(specs[..n], full)
  }

  lemma {:induction false} FullToVisFinds(specs: seq<ColumnSpec>, full: int)
    ensures FullToVis(specs, full) >= 0 <==> Visible(specs, full)
  {
    if specs != [] {
      FullToVisFinds(specs[..|specs| - 1], full);
    }
  }

  /** The sort entries of visible columns, renumbered. */
  function VisibleSorts(specs: seq<ColumnSpec>, sorts: seq<SortEntry>): seq<SortEntry>
  {
    if sorts == [] then [] else
      var n := |sorts| - 1;
      var vis := FullToVis(specs, sorts[n].col);
      VisibleSorts(specs, sorts[..n]) + if vis >= 0 then [SortEntry(vis, sorts[n].dir)] else []
  }

  /** The index the projection builds: each visible column's place in `visToFull`. */
  ghost predicate Places(specs: seq<ColumnSpec>, visToFull: seq<nat>, fullToVis: map<int, nat>, n: nat)
  {
    && (forall f :: f in fullToVis <==> f < n && Visible(specs, f))
    && (forall f :: f in fullToVis ==> fullToVis[f] < |visToFull| && visToFull[fullToVis[f]] == f)
  }

  lemma PlacesAgree(specs: seq<ColumnSpec>, fullToVis: map<int, nat>, f: int)
    requires Places(specs, VisToFull(specs), fullToVis, |specs|)
    ensures f in fullToVis <==> FullToVis(specs, f) >= 0
    ensures f in fullToVis ==> fullToVis[f] == FullToVis(specs, f)
  {
    FullToVisFinds(specs, f);
    VisToFullLists(specs);
  }

  method IndexVisible(all: seq<ColumnSpec>) returns (specs: seq<ColumnSpec>, visToFull: seq<nat>, fullToVis: map<int, nat>)
    ensures visToFull == VisToFull(all)
    ensures |specs| == |visToFull| && forall k :: 0 <= k < |specs| ==> specs[k] == all[visToFull[k]]
    ensures Places(all, visToFull, fullToVis, |all|)
  {
    fullToVis := map[];
    visToFull, specs := [], [];
    for i := 0 to |all|
      invariant visToFull == VisToFull(all[..i])
      invariant |specs| == |visToFull| && forall k :: 0 <= k < |specs| ==> specs[k] == all[visToFull[k]]
      invariant Places(all, visToFull, fullToVis, i)
    {
      assert all[..i + 1][..i] == all[..i];
      if all[i].hideOrder > 0 {
        continue;
      }
      fullToVis := fullToVis[i := |visToFull|];
      visToFull := visToFull + [i];
      specs := specs + [all[i]];
    }
    assert all[..|all|] == all;
  }

  method ProjectSorts(all: seq<ColumnSpec>, fullToVis: map<int, nat>, entries: seq<SortEntry>) returns (sorts: seq<SortEntry>)
    requires Places(all, VisToFull(all), fullToVis, |all|)
    ensures sorts == VisibleSorts(all, entries)
  {
    sorts := [];
    for k := 0 to |entries|
      invariant sorts == VisibleSorts(all, entries[..k])
    {
      assert entries[..k + 1][..k] == entries[..k];
      PlacesAgree(all, fullToVis, entries[k].col);
      if entries[k].col in fullToVis {
        sorts := sorts + [SortEntry(fullToVis[entries[k].col], entries[k].dir)];
      }
    }
    assert entries[..|entries|] == entries;
  }

  /** `visibleProjection`. */
  method VisibleProjection(tab: Tab)
    returns (specs: seq<ColumnSpec>, cellRows: seq<CellRow>, colCursor: int, sorts: seq<SortEntry>, visToFull: seq<nat>)
    ensures visToFull == VisToFull(tab.Specs)
    ensures |specs| == |visToFull| && forall k :: 0 <= k < |specs| ==> specs[k] == tab.Specs[visToFull[k]]
    ensures |cellRows| == |tab.CellRows|
    ensures forall r :: 0 <= r < |cellRows| ==> cellRows[r] == Project(tab.CellRows[r], visToFull)
    ensures colCursor == FullToVis(tab.Specs, tab.ColCursor)
    ensures sorts == VisibleSorts(tab.Specs, tab.Sorts)
  {
    var fullToVis;
    specs, visToFull, fullToVis := IndexVisible(tab.Specs);
    colCursor := -1;
    PlacesAgree(tab.Specs, fullToVis, tab.ColCursor);
    if tab.ColCursor in fullToVis {
      colCursor := fullToVis[tab.ColCursor];
    }
    cellRows := ProjectRows(tab.CellRows, visToFull);
    sorts := ProjectSorts(tab.Specs, fullToVis, tab.Sorts);
  }

  // ----- moving between columns -----

  /** The nearest visible column from `i` on, going right or left. */
  function Scan(specs: seq<ColumnSpec>, i: int, forward: bool): (r: Option<int>)
    decreases if forward then |specs| - i else i
  {
    if !(0 <= i < |specs|) then None
    else if specs[i].hideOrder == 0 then Some(i)
    else Scan(specs, if forward then i + 1 else i - 1, forward)
  }

  /** What scanning finds is visible, and everything before it is hidden. */
  lemma {:induction false} ScanNearest(specs: seq<ColumnSpec>, i: int, forward: bool)
    ensures Scan(specs, i, forward).Some? ==>
              var r := Scan(specs, i, forward).value;
              && Visible(specs, r)
              && (if forward then i <= r else r <= i)
              && forall k :: (if forward then i <= k < r else r < k <= i) ==> !Visible(specs, k)
    ensures Scan(specs, i, forward).None? && 0 <= i < |specs| ==>
              forall k :: (if forward then i <= k else k <= i) ==> !Visible(specs, k)
    decreases if forward then |specs| - i else i
  {
    if 0 <= i < |specs| && specs[i].hideOrder != 0 {
      ScanNearest(specs, if forward then i + 1 else i - 1, forward);
    }
  }

  function ScanOr(specs: seq<ColumnSpec>, i: int, forward: bool, default: int): int
  {
    var r := Scan(specs, i, forward);
    if r.Some? then r.value else default
  }

  function NextVisible(specs: seq<ColumnSpec>, current: int, forward: bool): int
  {
    if |specs| == 0 then 0 else ScanOr(specs, if forward then current + 1 else current - 1, forward, current)
  }

  method NextVisibleCol(specs: seq<ColumnSpec>, current: int, forward: bool) returns (r: int)
    ensures r == NextVisible(specs, current, forward)
  {
    var n := |specs|;
    if n == 0 {
      return 0;
    }
    var step := if forward then 1 else -1;
    var i := current + step;
    while 0 <= i < n
      invariant Scan(specs, current + step, forward) == Scan(specs, i, forward)
      decreases if forward then n - i else i
    {
      if specs[i].hideOrder == 0 {
        return i;
      }
      i := i + step;
    }
    return current;
  }

  method FirstVisibleCol(specs: seq<ColumnSpec>) returns (r: int)
    ensures r == ScanOr(specs, 0, true, 0)
  {
    for i := 0 to |specs|
      invariant Scan(specs, 0, true) == Scan(specs, i, true)
    {
      if specs[i].hideOrder == 0 {
        return i;
      }
    }
    return 0;
  }

  method LastVisibleCol(specs: seq<ColumnSpec>) returns (r: int)
    ensures r == ScanOr(specs, |specs| - 1, false, 0)
  {
    var i := |specs| - 1;
    while i >= 0
      invariant -1 <= i < |specs|
      invariant Scan(specs, |specs| - 1, false) == Scan(specs, i, false)
    {
      if specs[i].hideOrder == 0 {
        return i;
      }
      i := i - 1;
    }
    return 0;
  }

  method VisibleCount(specs: seq<ColumnSpec>) returns (count: nat)
    ensures count == |VisToFull(specs)|
  {
    count := 0;
    for i := 0 to |specs|
      invariant count == |VisToFull(specs[..i])|
    {
      assert specs[..i + 1][..i] == specs[..i];
      if specs[i].hideOrder == 0 {
        count := count + 1;
      }
    }
    assert specs[..|specs|] == specs;
  }

  function MaxHideOrder(specs: seq<ColumnSpec>): (m: nat)
    ensures forall i :: 0 <= i < |specs| ==> specs[i].hideOrder <= m
    ensures m == 0 || exists i :: 0 <= i < |specs| && specs[i].hideOrder == m
  {
    if specs == [] then 0 else
      var n := |specs| - 1;
      var m := MaxHideOrder(specs[..n]);
      if specs[n].hideOrder > m then specs[n].hideOrder else m
  }

  method NextHideOrder(specs: seq<ColumnSpec>) returns (next: nat)
    ensures next == MaxHideOrder(specs) + 1
  {
    var max := 0;
    for i := 0 to |specs|
      invariant max == MaxHideOrder(specs[..i])
    {
      assert specs[..i + 1][..i] == specs[..i];
      if specs[i].hideOrder > max {
        max := specs[i].hideOrder;
      }
    }
    assert specs[..|specs|] == specs;
    next := max + 1;
  }

  /** The visible sort entries are those of visible columns, in the order of the stack,
      each with its direction and with the place of its column. */
  lemma {:induction false} VisibleSortsExactly(specs: seq<ColumnSpec>, sorts: seq<SortEntry>) returns (from: seq<nat>)
    ensures TakenFrom(specs, sorts, VisibleSorts(specs, sorts), from)
  {
    from := [];
    if sorts != [] {
      var n := |sorts| - 1;
      from := VisibleSortsExactly(specs, sorts[..n]);
      FullToVisFinds(specs, sorts[n].col);
      if FullToVis(specs, sorts[n].col) >= 0 {
        TakenLast(specs, sorts, VisibleSorts(specs, sorts[..n]), from, SortEntry(FullToVis(specs, sorts[n].col), sorts[n].dir));
        from := from + [n];
      } else {
        TakenSkip(specs, sorts, VisibleSorts(specs, sorts), from);
      }
    }
  }

  /** `from` lists, in order, the entries of visible columns, and `vis` stands for them. */
  ghost predicate TakenFrom(specs: seq<ColumnSpec>, sorts: seq<SortEntry>, vis: seq<SortEntry>, from: seq<nat>)
  {
    && |from| == |vis| && StrictlyIncreasing(from)
    && (forall j :: 0 <= j < |from| ==> from[j] < |sorts| && StandsFor(specs, vis[j], sorts[from[j]]))
    && forall k: nat :: k < |sorts| && Visible(specs, sorts[k].col) ==> k in from
  }

  lemma TakenLast(specs: seq<ColumnSpec>, sorts: seq<SortEntry>, vis: seq<SortEntry>, from: seq<nat>, e: SortEntry)
    requires sorts != [] && TakenFrom(specs, sorts[..|sorts| - 1], vis, from) && StandsFor(specs, e, sorts[|sorts| - 1])
    ensures TakenFrom(specs, sorts, vis + [e], from + [|sorts| - 1])
  {
    var n := |sorts| - 1;
    forall k: nat | k < |sorts| && Visible(specs, sorts[k].col)
      ensures k in from + [n]
    {
      assert k < n ==> sorts[..n][k] == sorts[k];
    }
  }

  lemma TakenSkip(specs: seq<ColumnSpec>, sorts: seq<SortEntry>, vis: seq<SortEntry>, from: seq<nat>)
    requires sorts != [] && TakenFrom(specs, sorts[..|sorts| - 1], vis, from) && !Visible(specs, sorts[|sorts| - 1].col)
    ensures TakenFrom(specs, sorts, vis, from)
  {
    var n := |sorts| - 1;
    forall k: nat | k < |sorts| && Visible(specs, sorts[k].col)
      ensures k in from
    {
      assert k < n && sorts[..n][k] == sorts[k];
    }
  }

  /** The entry of a place stands for the entry of its column. */
  ghost predicate StandsFor(specs: seq<ColumnSpec>, vis: SortEntry, full: SortEntry)
  {
    0 <= vis.col < |VisToFull(specs)| && VisToFull(specs)[vis.col] == full.col && vis.dir == full.dir
  }

  // ----- runs of column keys -----

  /** The columns and the cursor: all that the column keys work on. */
  datatype Cols = Cols(specs: seq<ColumnSpec>, cursor: int)

  datatype Key =
    | Left | Right | First | Last
    | Hide | ShowAll
    | Jump(column: nat)   // finder jump, which unhides
    | Click(column: nat)  // click on a visible column header

  function Unhide(specs: seq<ColumnSpec>, i: int): (u: seq<ColumnSpec>)
    ensures |u| == |specs|
  {
    if 0 <= i < |specs| && specs[i].hideOrder > 0 then specs[i := specs[i].(hideOrder := 0)] else specs
  }

  function UnhideAll(specs: seq<ColumnSpec>): (u: seq<ColumnSpec>)
    ensures |u| == |specs| && forall i :: 0 <= i < |specs| ==> u[i] == specs[i].(hideOrder := 0)
  {
    seq(|specs|, i requires 0 <= i < |specs| => specs[i].(hideOrder := 0))
  }

  function HideCurrent(c: Cols): Cols
  {
    if !Visible(c.specs, c.cursor) || |VisToFull(c.specs)| <= 1 then c
    else
      var specs := c.specs[c.cursor := c.specs[c.cursor].(hideOrder := MaxHideOrder(c.specs) + 1)];
      var right := NextVisible(specs, c.cursor, true);
      Cols(specs, if right == c.cursor then NextVisible(specs, c.cursor, false) else right)
  }

  function Step(c: Cols, k: Key): Cols
  {
    match k
    case Left => c.(cursor := NextVisible(c.specs, c.cursor, false))
    case Right => c.(cursor := NextVisible(c.specs, c.cursor, true))
    case First => c.(cursor := ScanOr(c.specs, 0, true, 0))
    case Last => c.(cursor := ScanOr(c.specs, |c.specs| - 1, false, 0))
    case Hide => HideCurrent(c)
    case ShowAll => c.(specs := UnhideAll(c.specs))
    case Jump(i) => if i < |c.specs| then Cols(Unhide(c.specs, i), i) else c
    case Click(i) => if Visible(c.specs, i) then c.(cursor := i) else c
  }

  function Run(c: Cols, keys: seq<Key>): Cols
  {
    if keys == [] then c else Step(Run(c, keys[..|keys| - 1]), keys[|keys| - 1])
  }

  /** The cursor is on a visible column, and no two hidden columns were hidden at
      the same moment. */
  ghost predicate Good(c: Cols)
  {
    Visible(c.specs, c.cursor) && DistinctOrders(c.specs)
  }

  ghost predicate DistinctOrders(specs: seq<ColumnSpec>)
  {
    forall i, j :: 0 <= i < j < |specs| && specs[i].hideOrder > 0 ==> specs[i].hideOrder != specs[j].hideOrder
  }

  lemma {:induction false} StepKeepsGood(c: Cols, k: Key)
    requires Good(c)
    ensures Good(Step(c, k)) && |Step(c, k).specs| == |c.specs|
  {
    match k {
      case Left => NextNearest(c.specs, c.cursor, false);
      case Right => NextNearest(c.specs, c.cursor, true);
      case First => EndVisible(c.specs, 0, true, c.cursor);
      case Last => EndVisible(c.specs, |c.specs| - 1, false, c.cursor);
      case Hide => HideKeepsGood(c);
      case ShowAll =>
      case Jump(i) =>
        if i < |c.specs| {
          UnhideKeepsOrders(c.specs, i);
        }
      case Click(i) =>
    }
  }

  lemma UnhideKeepsOrders(specs: seq<ColumnSpec>, i: nat)
    requires DistinctOrders(specs) && i < |specs|
    ensures DistinctOrders(Unhide(specs, i)) && Visible(Unhide(specs, i), i)
  {
  }

  /** The next visible column is the nearest one, or the current one when there is none. */
  lemma NextNearest(specs: seq<ColumnSpec>, current: int, forward: bool)
    requires 0 <= current < |specs|
    ensures var r := NextVisible(specs, current, forward);
            && (r == current || Visible(specs, r))
            && (if forward then current <= r else r <= current)
            && (r != current ==> forall k :: (if forward then current < k < r else r < k < current) ==> !Visible(specs, k))
            && (r == current ==> forall k :: (if forward then current < k else k < current) ==> !Visible(specs, k))
  {
    ScanNearest(specs, if forward then current + 1 else current - 1, forward);
  }

  /** A scan that has a visible column ahead ends on a visible column. */
  lemma EndVisible(specs: seq<ColumnSpec>, i: int, forward: bool, target: int)
    requires Visible(specs, target) && 0 <= i < |specs|
    requires if forward then i <= target else target <= i
    ensures Visible(specs, ScanOr(specs, i, forward, 0))
  {
    ScanFinds(specs, i, forward, target);
    ScanNearest(specs, i, forward);
  }

  lemma {:induction false} ScanFinds(specs: seq<ColumnSpec>, i: int, forward: bool, target: int)
    requires Visible(specs, target) && 0 <= i < |specs|
    requires if forward then i <= target else target <= i
    ensures Scan(specs, i, forward).Some?
  {
    ScanNearest(specs, i, forward);
  }

  /** Two visible columns: the other one is found on one side or the other. */
  lemma {:induction false} AnotherVisible(specs: seq<ColumnSpec>, cursor: int) returns (other: int)
    requires |VisToFull(specs)| > 1 && Visible(specs, cursor)
    ensures Visible(specs, other) && other != cursor
  {
    VisToFullLists(specs);
    var v := VisToFull(specs);
    other := if v[0] == cursor then v[1] else v[0];
    assert v[0] in v && v[1] in v;
  }

  /** Hiding gives the column the largest hide order and touches no other column. */
  lemma {:induction false} HideMarks(c: Cols)
    requires Good(c) && |VisToFull(c.specs)| > 1
    ensures var h := HideCurrent(c);
            && |h.specs| == |c.specs| && h.specs[c.cursor] == c.specs[c.cursor].(hideOrder := MaxHideOrder(c.specs) + 1)
            && (forall i :: 0 <= i < |c.specs| && i != c.cursor ==> h.specs[i] == c.specs[i])
            && (forall i :: 0 <= i < |c.specs| && i != c.cursor ==> h.specs[i].hideOrder < h.specs[c.cursor].hideOrder)
            && (forall k :: Visible(h.specs, k) <==> k != c.cursor && Visible(c.specs, k))
  {
  }

  /** After hiding, the cursor is on a visible column. */
  lemma {:induction false} HideLands(c: Cols)
    requires Good(c) && |VisToFull(c.specs)| > 1
    ensures Visible(HideCurrent(c).specs, HideCurrent(c).cursor)
  {
    var other := AnotherVisible(c.specs, c.cursor);
    HideMarks(c);
    var specs := HideCurrent(c).specs;
    NextNearest(specs, c.cursor, true);
    NextNearest(specs, c.cursor, false);
    assert Visible(specs, other);
  }

  lemma HideKeepsGood(c: Cols)
    requires Good(c)
    ensures Good(HideCurrent(c))
  {
    if |VisToFull(c.specs)| > 1 {
      HideLands(c);
      HideMarks(c);
    }
  }

  /** Hiding moves the cursor to the nearest visible column: to the right if there
      is one, else to the left. */
  lemma {:induction false} HideMovesOn(c: Cols)
    requires Good(c)
    ensures Good(HideCurrent(c))
    ensures |VisToFull(c.specs)| > 1 ==>
              var h := HideCurrent(c);
              && h.cursor != c.cursor
              && (h.cursor > c.cursor ==> forall k :: c.cursor < k < h.cursor ==> !Visible(c.specs, k))
              && (h.cursor < c.cursor ==> forall k :: h.cursor < k && k != c.cursor ==> !Visible(c.specs, k))
  {
    HideKeepsGood(c);
    if |VisToFull(c.specs)| > 1 {
      HideMarks(c);
      var specs := HideCurrent(c).specs;
      NextNearest(specs, c.cursor, true);
      NextNearest(specs, c.cursor, false);
    }
  }

  /** In terms of places among the visible columns: left and right move by one and
      stop at the ends, first and last go to the ends. */
  lemma {:induction false} ArrowsByPlace(c: Cols, k: nat)
    requires k < |VisToFull(c.specs)| && c.cursor == VisToFull(c.specs)[k]
    ensures var v := VisToFull(c.specs);
            && Step(c, Right).cursor == v[if k + 1 < |v| then k + 1 else k]
            && Step(c, Left).cursor == v[if k > 0 then k - 1 else k]
            && Step(c, First).cursor == v[0] && Step(c, Last).cursor == v[|v| - 1]
  {
    RightByPlace(c.specs, k);
    LeftByPlace(c.specs, k);
    EndsByPlace(c.specs);
  }

  lemma {:induction false} RightByPlace(specs: seq<ColumnSpec>, k: nat)
    requires k < |VisToFull(specs)|
    ensures var v := VisToFull(specs); NextVisible(specs, v[k], true) == v[if k + 1 < |v| then k + 1 else k]
  {
    PlacesAscend(specs, k);
    NearestIsNext(specs, VisToFull(specs)[k] + 1, k + 1);
  }

  lemma {:induction false} LeftByPlace(specs: seq<ColumnSpec>, k: nat)
    requires k < |VisToFull(specs)|
    ensures var v := VisToFull(specs); NextVisible(specs, v[k], false) == v[if k > 0 then k - 1 else k]
  {
    PlacesAscend(specs, k);
    var at: int := VisToFull(specs)[k];
    NearestIsPrevious(specs, at - 1, k);
  }

  lemma {:induction false} EndsByPlace(specs: seq<ColumnSpec>)
    requires VisToFull(specs) != []
    ensures var v := VisToFull(specs);
            ScanOr(specs, 0, true, 0) == v[0] && ScanOr(specs, |specs| - 1, false, 0) == v[|v| - 1]
  {
    var v := VisToFull(specs);
    PlacesAscend(specs, 0);
    PlacesAscend(specs, |v| - 1);
    NearestIsNext(specs, 0, 0);
    NearestIsPrevious(specs, |specs| - 1, |v|);
  }

  lemma {:induction false} PlacesAscend(specs: seq<ColumnSpec>, k: nat)
    requires k < |VisToFull(specs)|
    ensures VisToFull(specs)[k] < |specs|
    ensures k + 1 < |VisToFull(specs)| ==> VisToFull(specs)[k] < VisToFull(specs)[k + 1]
    ensures k > 0 ==> VisToFull(specs)[k - 1] < VisToFull(specs)[k]
  {
    VisToFullLists(specs);
  }

  /** Scanning right finds the visible column whose place is next. */
  lemma {:induction false} NearestIsNext(specs: seq<ColumnSpec>, i: nat, k: nat)
    requires k <= |VisToFull(specs)| && i <= |specs|
    requires k > 0 ==> VisToFull(specs)[k - 1] < i
    requires k < |VisToFull(specs)| ==> i <= VisToFull(specs)[k]
    ensures Scan(specs, i, true) == if k < |VisToFull(specs)| then Some(VisToFull(specs)[k]) else None
  {
    VisToFullLists(specs);
    var v := VisToFull(specs);
    ScanNearest(specs, i, true);
    if k < |v| {
      assert v[k] in v;
    }
    if Scan(specs, i, true).Some? {
      var r := Scan(specs, i, true).value;
      assert (r as nat) in v;
      var m :| 0 <= m < |v| && v[m] == r;
      assert m >= k;
    }
  }

  /** Scanning left finds the visible column whose place is before. */
  lemma {:induction false} NearestIsPrevious(specs: seq<ColumnSpec>, i: int, k: nat)
    requires k <= |VisToFull(specs)| && -1 <= i < |specs|
    requires k > 0 ==> VisToFull(specs)[k - 1] <= i
    requires k < |VisToFull(specs)| ==> i < VisToFull(specs)[k]
    ensures Scan(specs, i, false) == if k > 0 then Some(VisToFull(specs)[k - 1]) else None
  {
    VisToFullLists(specs);
    var v := VisToFull(specs);
    ScanNearest(specs, i, false);
    if k > 0 {
      assert v[k - 1] in v;
    }
    if Scan(specs, i, false).Some? {
      var r := Scan(specs, i, false).value;
      assert (r as nat) in v;
      var m :| 0 <= m < |v| && v[m] == r;
      assert m < k;
    }
  }

  /** Over any run of column keys the cursor stays on a visible column (so at least
      one is visible) and the hide orders of hidden columns stay distinct. */
  lemma {:induction false} RunKeepsGood(c: Cols, keys: seq<Key>)
    requires Good(c)
    ensures Good(Run(c, keys)) && |Run(c, keys).specs| == |c.specs|
  {
    if keys != [] {
      RunKeepsGood(c, keys[..|keys| - 1]);
      StepKeepsGood(Run(c, keys[..|keys| - 1]), keys[|keys| - 1]);
    }
  }

  /** A click goes to a visible column; the finder's jump goes to any column and shows it;
      showing all shows all; none of them touches another column. */
  lemma GoingTo(c: Cols, i: nat)
    requires i < |c.specs|
    ensures Step(c, Click(i)) == if Visible(c.specs, i) then c.(cursor := i) else c
    ensures var j := Step(c, Jump(i));
            && j.cursor == i && Visible(j.specs, i) && |j.specs| == |c.specs|
            && forall k :: 0 <= k < |c.specs| && k != i ==> j.specs[k] == c.specs[k]
    ensures var a := Step(c, ShowAll);
            && a.cursor == c.cursor && |a.specs| == |c.specs|
            && forall k :: 0 <= k < |c.specs| ==> Visible(a.specs, k) && a.specs[k] == c.specs[k].(hideOrder := 0)
  {
  }

  /** Hiding a column and jumping back to it with the finder undoes the hiding. */
  lemma {:induction false} HideThenJump(c: Cols)
    requires Good(c)
    ensures Step(Step(c, Hide), Jump(c.cursor)) == c
  {
    var h := Step(c, Hide);
    if |VisToFull(c.specs)| > 1 {
      HideMarks(c);
      assert Unhide(h.specs, c.cursor) == c.specs;
    }
  }
}
