/**
 The horizontal scroll window over a table's columns (`viewportRange`), the
 offset clamp that precedes it (`ensureCursorVisible`) and the vertical row
 window (`visibleRange`).
 */
module Viewport {
  import opened Sums

  /** Width of the gutter that announces off-screen columns on one side. */
  const SCROLL_INDICATOR_WIDTH := 2

  datatype Window = Window(start: int, end: int, hasLeft: bool, hasRight: bool)

  function Gap(e: int, start: int, sep: int): int
  {
    if e > start then sep else 0
  }

  function Gutter(shown: bool): int
  {
    if shown then SCROLL_INDICATOR_WIDTH else 0
  }

  /** One greedy left-to-right fill: columns are taken from `e` on while the
      budget lasts; the first column of a window is always taken. Gives the end
      of the fill and the budget that is left. */
  function Fill(widths: seq<int>, sep: int, start: nat, e: nat, budget: int): (r: (nat, int))
    requires start <= e <= |widths|
    ensures e <= r.0 <= |widths|
    ensures e == start < |widths| ==> start < r.0
    decreases |widths| - e
  {
    if e == |widths| || (budget - (widths[e] + Gap(e, start, sep)) < 0 && e > start) then
      (e, budget)
    else
      Fill(widths, sep, start, e + 1, budget - (widths[e] + Gap(e, start, sep)))
  }

  /** The end of the window that opens at `start`: a greedy fill, minus its last
      column when the right indicator would have no room. */
  function WindowEnd(widths: seq<int>, sep: int, term: int, start: nat): (end: nat)
    requires start < |widths|
    ensures start < end <= |widths|
  {
    var (end, left) := Fill(widths, sep, start, start, term - Gutter(start > 0));
    if end < |widths| && left < SCROLL_INDICATOR_WIDTH && end > start + 1 then end - 1 else end
  }

  /** Scrolls right, one column at a time, until the cursor is inside the window
      or the window touches the right edge. */
  function Scroll(widths: seq<int>, sep: int, term: int, start: nat, cursor: int): (s: nat)
    requires start < |widths|
    ensures start <= s < |widths|
    decreases |widths| - start
  {
    var end := WindowEnd(widths, sep, term, start);
    if cursor >= end && end < |widths| then Scroll(widths, sep, term, start + 1, cursor) else start
  }

  function Clamp(offset: int, n: nat): nat
    requires n > 0
  {
    if offset < 0 then 0 else if offset >= n then n - 1 else offset
  }

  function TotalWidth(widths: seq<int>, sep: int): int
  {
    if |widths| > 1 then Sum(widths) + (|widths| - 1) * sep else Sum(widths)
  }

  /** The window the terminal shows. */
  function Range(widths: seq<int>, sep: int, term: int, offset: int, cursor: int): Window
  {
    if |widths| == 0 then
      Window(0, 0, false, false)
    else if TotalWidth(widths, sep) <= term then
      Window(0, |widths|, false, false)
    else
      var start := Scroll(widths, sep, term, Clamp(offset, |widths|), cursor);
      var end := WindowEnd(widths, sep, term, start);
      Window(start, end, start > 0, end < |widths|)
  }

  method ComputeTotal(widths: seq<int>, sepWidth: int) returns (total: int)
    ensures total == TotalWidth(widths, sepWidth)
  {
    total := SumInts(widths);
    if |widths| > 1 {
      total := total + (|widths| - 1) * sepWidth;
    }
  }

  /** The fill loop, which `viewportRange` runs once for the first window and
      once more for every column it scrolls past. */
  method FillFrom(widths: seq<int>, sepWidth: int, start: nat, room: int) returns (end: nat, budget: int)
    requires start < |widths|
    ensures (end, budget) == Fill(widths, sepWidth, start, start, room)
  {
    budget := room;
    end := start;
    while end < |widths|
      invariant start <= end <= |widths|
      invariant Fill(widths, sepWidth, start, end, budget) == Fill(widths, sepWidth, start, start, room)
    {
      var colW := widths[end];
      if end > start {
        colW := colW + sepWidth;
      }
      if budget - colW < 0 && end > start {
        break;
      }
      budget := budget - colW;
      end := end + 1;
    }
  }

  /** Opens a window at `start`: fills it and makes room for the right indicator. */
  method OpenWindow(widths: seq<int>, sepWidth: int, termWidth: int, start: nat) returns (end: nat, hasRight: bool)
    requires start < |widths|
    ensures end == WindowEnd(widths, sepWidth, termWidth, start)
    ensures hasRight == (end < |widths|)
  {
    var budget := termWidth;
    if start > 0 {
      budget := budget - SCROLL_INDICATOR_WIDTH;
    }
    end, budget := FillFrom(widths, sepWidth, start, budget);
    hasRight := end < |widths|;
    if hasRight && budget < SCROLL_INDICATOR_WIDTH && end > start + 1 {
      end := end - 1;
    }
  }

  /** `viewportRange`: the first window, then one window per column scrolled. */
  method ViewportRange(widths: seq<int>, sepWidth: int, termWidth: int, viewOffset: int, visCursor: int)
    returns (start: int, end: int, hasLeft: bool, hasRight: bool)
    ensures Window(start, end, hasLeft, hasRight) == Range(widths, sepWidth, termWidth, viewOffset, visCursor)
  {
    var n := |widths|;
    if n == 0 {
      return 0, 0, false, false;
    }
    var offset := viewOffset;
    if offset < 0 {
      offset := 0;
    }
    if offset >= n {
      offset := n - 1;
    }
    var totalWidth := ComputeTotal(widths, sepWidth);
    if totalWidth <= termWidth {
      return 0, n, false, false;
    }
    start := offset;
    hasLeft := start > 0;
    end, hasRight := OpenWindow(widths, sepWidth, termWidth, start);
    while visCursor >= end && end < n
      invariant 0 <= start < n
      invariant end == WindowEnd(widths, sepWidth, termWidth, start)
      invariant hasLeft == (start > 0) && hasRight == (end < n)
      invariant Scroll(widths, sepWidth, termWidth, start, visCursor)
             == Scroll(widths, sepWidth, termWidth, offset, visCursor)
      decreases n - start
    {
      start := start + 1;
      hasLeft := true;
      end, hasRight := OpenWindow(widths, sepWidth, termWidth, start);
    }
  }

  // ----- what the window promises -----

  /** Columns [start, end) with their separators and the indicators they need. */
  ghost function Occupied(widths: seq<int>, sep: int, start: nat, end: nat): int
    requires start < end <= |widths|
  {
    Sum(widths[start..end]) + (end - start - 1) * sep + (if start > 0 then 2 else 0) + (if end < |widths| then 2 else 0)
  }

  ghost predicate Fits(widths: seq<int>, sep: int, term: int, start: nat, end: nat)
  {
    start < end <= |widths| && Occupied(widths, sep, start, end) <= term
  }

  /** `end` is the furthest right edge a window opened at `start` can have: it
      fits (or is a single column, which is shown whatever its width), and no
      further edge fits. */
  ghost predicate Furthest(widths: seq<int>, sep: int, term: int, start: nat, end: nat)
  {
    && start < end <= |widths|
    && (end == start + 1 || Fits(widths, sep, term, start, end))
    && forall e :: end < e <= |widths| ==> !Fits(widths, sep, term, start, e)
  }

  ghost predicate Positive(widths: seq<int>)
  {
    forall i :: 0 <= i < |widths| ==> widths[i] >= 1
  }

  /** Budget left after columns [start, e) have been placed. */
  function Left(widths: seq<int>, sep: int, term: int, start: nat, e: nat): int
    requires start < e <= |widths|
  {
    term - Gutter(start > 0) - Sum(widths[start..e]) - (e - start - 1) * sep
  }

  lemma {:induction false} LeftStep(widths: seq<int>, sep: int, term: int, start: nat, e: nat)
    requires start < e < |widths|
    ensures Left(widths, sep, term, start, e + 1) == Left(widths, sep, term, start, e) - widths[e] - sep
  {
    SumSlice(widths, start, e);
  }

  lemma {:induction false} LeftDecreases(widths: seq<int>, sep: int, term: int, start: nat, e: nat, e': nat)
    requires Positive(widths) && sep >= 1 && start < e < e' <= |widths|
    ensures Left(widths, sep, term, start, e') <= Left(widths, sep, term, start, e) - 2
    decreases e'
  {
    LeftStep(widths, sep, term, start, e' - 1);
    if e < e' - 1 {
      LeftDecreases(widths, sep, term, start, e, e' - 1);
    }
  }

  /** A greedy fill stops with exactly the budget its columns leave, and stops
      only when the next column would not fit. */
  lemma {:induction false} FillStops(widths: seq<int>, sep: int, term: int, start: nat, e: nat)
    requires start < e <= |widths|
    requires e > start + 1 ==> Left(widths, sep, term, start, e) >= 0
    ensures var (end, left) := Fill(widths, sep, start, e, Left(widths, sep, term, start, e));
            && left == Left(widths, sep, term, start, end)
            && (end > start + 1 ==> left >= 0)
            && (end < |widths| ==> Left(widths, sep, term, start, end + 1) < 0)
    decreases |widths| - e
  {
    if e < |widths| {
      LeftStep(widths, sep, term, start, e);
      if Left(widths, sep, term, start, e + 1) >= 0 {
        FillStops(widths, sep, term, start, e + 1);
      }
    }
  }

  lemma {:induction false} FirstFill(widths: seq<int>, sep: int, term: int, start: nat)
    requires start < |widths|
    ensures Fill(widths, sep, start, start, term - Gutter(start > 0))
         == Fill(widths, sep, start, start + 1, Left(widths, sep, term, start, start + 1))
  {
    assert widths[start..start + 1] == [widths[start]];
    assert Sum([widths[start]]) == widths[start] by {
      assert [widths[start]][..0] == [];
    }
  }

  /** The window end is the furthest that fits. */
  lemma {:induction false} WindowEndFurthest(widths: seq<int>, sep: int, term: int, start: nat)
    requires Positive(widths) && sep >= 1 && start < |widths|
    ensures Furthest(widths, sep, term, start, WindowEnd(widths, sep, term, start))
  {
    FirstFill(widths, sep, term, start);
    FillStops(widths, sep, term, start, start + 1);
    var (stop, left) := Fill(widths, sep, start, start, term - Gutter(start > 0));
    var end := WindowEnd(widths, sep, term, start);
    if end < stop {
      LeftStep(widths, sep, term, start, end);
    }
    forall e | end < e <= |widths|
      ensures !Fits(widths, sep, term, start, e)
    {
      if e > stop + 1 {
        LeftDecreases(widths, sep, term, start, stop + 1, e);
      }
    }
  }

  /** Scrolling stops at the least offset that shows the cursor. */
  lemma {:induction false} ScrollLeast(widths: seq<int>, sep: int, term: int, start: nat, cursor: int)
    requires start < |widths| && start <= cursor < |widths|
    ensures var s := Scroll(widths, sep, term, start, cursor);
            && s <= cursor < WindowEnd(widths, sep, term, s)
            && forall t :: start <= t < s ==> cursor >= WindowEnd(widths, sep, term, t)
    decreases |widths| - start
  {
    var end := WindowEnd(widths, sep, term, start);
    if cursor >= end && end < |widths| {
      ScrollLeast(widths, sep, term, start + 1, cursor);
    }
  }

  /** A whole table that fits is one window without indicators. */
  lemma {:induction false} AllFits(widths: seq<int>, sep: int, term: int)
    requires |widths| > 0
    ensures TotalWidth(widths, sep) <= term <==> Fits(widths, sep, term, 0, |widths|)
  {
    assert widths[0..|widths|] == widths;
  }

  /** The main law of the viewport, for every layout and every offset at or left
      of the cursor: the cursor is inside the window, the indicators tell the
      truth, the window is a single column or fits together with its indicators,
      its right edge is the furthest that fits, and its left edge is the least
      one, from the old offset on, whose window shows the cursor. */
  lemma {:induction false} RangeShowsCursor(widths: seq<int>, sep: int, term: int, offset: int, cursor: int)
    requires Positive(widths) && sep >= 1
    requires 0 <= offset <= cursor < |widths|
    ensures var w := Range(widths, sep, term, offset, cursor);
            && 0 <= w.start <= cursor < w.end <= |widths|
            && (w.hasLeft <==> w.start > 0)
            && (w.hasRight <==> w.end < |widths|)
            && Furthest(widths, sep, term, w.start, w.end)
            && (!Fits(widths, sep, term, 0, |widths|) ==>
                 && offset <= w.start
                 && forall t: nat, e: nat :: offset <= t < w.start && Furthest(widths, sep, term, t, e) ==> e <= cursor)
            && (Fits(widths, sep, term, 0, |widths|) ==> w.start == 0 && w.end == |widths|)
  {
    AllFits(widths, sep, term);
    if TotalWidth(widths, sep) > term {
      ScrollLeast(widths, sep, term, offset, cursor);
      var s := Scroll(widths, sep, term, offset, cursor);
      WindowEndFurthest(widths, sep, term, s);
      forall t: nat, e: nat | offset <= t < s && Furthest(widths, sep, term, t, e)
        ensures e <= cursor
      {
        WindowEndFurthest(widths, sep, term, t);
      }
    }
  }

  /** Scrolling settles: the window's own start, fed back, gives the same window,
      whatever the offset and cursor were. */
  lemma {:induction false} RangeStable(widths: seq<int>, sep: int, term: int, offset: int, cursor: int)
    ensures var w := Range(widths, sep, term, offset, cursor);
            Range(widths, sep, term, w.start, cursor) == w
  {
    if |widths| > 0 && TotalWidth(widths, sep) > term {
      ScrollStable(widths, sep, term, Clamp(offset, |widths|), cursor);
    }
  }

  lemma {:induction false} ScrollStable(widths: seq<int>, sep: int, term: int, start: nat, cursor: int)
    requires start < |widths|
    ensures var s := Scroll(widths, sep, term, start, cursor);
            Scroll(widths, sep, term, s, cursor) == s
    decreases |widths| - start
  {
    var end := WindowEnd(widths, sep, term, start);
    if cursor >= end && end < |widths| {
      ScrollStable(widths, sep, term, start + 1, cursor);
    }
  }

  // ----- the vertical window -----

  /** The rows [start, end) shown out of `total`: as many as fit, around the
      cursor (clamped into the table), as centred as the edges allow. */
  function VisibleRange(total: nat, height: nat, cursor: int): (r: (nat, nat))
    ensures r.0 <= r.1 <= total && r.1 - r.0 == if total <= height then total else height
    ensures total > 0 && height > 0 ==> r.0 <= Clamp(cursor, total) < r.1
    ensures 0 < r.0 && r.1 < total ==> r.0 + height / 2 == Clamp(cursor, total)
  {
    if total <= height then
      (0, total)
    else
      var c := Clamp(cursor, total);
      var start := if c - height / 2 > 0 then c - height / 2 else 0;
      var end := start + height;
      if end > total then (if total - height > 0 then total - height else 0, total) else (start, end)
  }

  /** Near an edge the window stands at it: it starts at the first row as long as the cursor
      is in the upper half of the first window, and ends with the last row as soon as the
      rest of the rows fit below the middle. */
  lemma WindowAtEdges(total: nat, height: nat, cursor: int)
    requires total > height
    ensures var r, c := VisibleRange(total, height, cursor), Clamp(cursor, total);
            && (c <= height / 2 ==> r.0 == 0)
            && (c - height / 2 + height >= total ==> r.1 == total)
            && (c > height / 2 && c - height / 2 + height < total ==> r.0 == c - height / 2)
  {
  }
}
