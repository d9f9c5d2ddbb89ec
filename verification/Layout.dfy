/**
 Column widths: content-driven widths, the two round-robin allocators and the
 three regimes of `columnWidths` (natural, capped, shrunk).
 */
module Layout {
  import opened Schema
  import opened Sums
  import opened WaterFill

  // ----- limits of the allocators -----

  function GrowCap(spec: ColumnSpec, w: int): Cap
  {
    if spec.max > 0 then Limit(Max(spec.max - w, 0)) else Unlimited
  }

  function ShrinkCap(spec: ColumnSpec, w: int): Cap
  {
    Limit(Max(w - spec.min, 0))
  }

  function CapOf(spec: ColumnSpec, w: int, grow: bool): Cap
  {
    if grow then GrowCap(spec, w) else ShrinkCap(spec, w)
  }

  /** Which of `n` columns take part. */
  ghost function TakesPart(indices: seq<nat>, n: nat): (part: seq<bool>)
    ensures |part| == n
    ensures forall i :: 0 <= i < n ==> (part[i] <==> i in indices)
  {
    seq(n, i requires 0 <= i < n => i in indices)
  }

  /** Limits of `distribute`: a column that takes no part has no room. */
  ghost function DistributeCaps(widths: seq<int>, specs: seq<ColumnSpec>, part: seq<bool>, grow: bool): (caps: seq<Cap>)
    requires |specs| >= |widths| == |part|
    ensures |caps| == |widths|
    ensures forall i :: 0 <= i < |caps| ==> caps[i] == if part[i] then CapOf(specs[i], widths[i], grow) else Limit(0)
  {
    seq(|widths|, i requires 0 <= i < |widths| => if part[i] then CapOf(specs[i], widths[i], grow) else Limit(0))
  }

  /** Limits of `widenTruncated`: up to the natural width. */
  ghost function WidenCaps(widths: seq<int>, natural: seq<int>): (caps: seq<Cap>)
    requires |natural| >= |widths|
    ensures |caps| == |widths|
    ensures forall i :: 0 <= i < |caps| ==> caps[i] == Limit(Max(natural[i] - widths[i], 0))
  {
    seq(|widths|, i requires 0 <= i < |widths| => Limit(Max(natural[i] - widths[i], 0)))
  }

  ghost predicate Increasing(indices: seq<nat>)
  {
    forall i, j :: 0 <= i < j < |indices| ==> indices[i] < indices[j]
  }

  /** The column at position `p` of a round, or the end of the table. */
  ghost function Frontier(indices: seq<nat>, p: nat, n: nat): (f: nat)
    requires p <= |indices|
    ensures f <= n
  {
    if p < |indices| && indices[p] < n then indices[p] else n
  }

  ghost predicate NoneTakesPart(part: seq<bool>, lo: nat, hi: nat)
  {
    lo <= hi <= |part| && forall j :: lo <= j < hi ==> !part[j]
  }

  /** What a round does between position `p` and the next one: the column at `p`
      takes part, and then none does until the next position. */
  ghost predicate Position(indices: seq<nat>, p: nat, part: seq<bool>)
    requires p < |indices|
  {
    if indices[p] < |part| then
      part[indices[p]] && NoneTakesPart(part, indices[p] + 1, Frontier(indices, p + 1, |part|))
    else
      Frontier(indices, p + 1, |part|) == |part|
  }

  /** `indices` lists, from left to right, the columns that take part. */
  ghost predicate Lists(indices: seq<nat>, part: seq<bool>)
  {
    && NoneTakesPart(part, 0, Frontier(indices, 0, |part|))
    && forall p: nat :: p < |indices| ==> Position(indices, p, part)
  }

  lemma NotBefore(indices: seq<nat>, p: nat, j: nat)
    requires Increasing(indices) && p <= |indices|
    requires p > 0 ==> indices[p - 1] < j
    requires p < |indices| ==> j < indices[p]
    ensures j !in indices
  {
    forall q | 0 <= q < |indices|
      ensures indices[q] != j
    {
      if q < p {
        assert indices[q] <= indices[p - 1];
      } else {
        assert indices[p] <= indices[q];
      }
    }
  }

  lemma IncreasingLists(indices: seq<nat>, n: nat)
    requires Increasing(indices)
    ensures Lists(indices, TakesPart(indices, n))
  {
    var part := TakesPart(indices, n);
    forall j | 0 <= j < Frontier(indices, 0, n)
      ensures !part[j]
    {
      NotBefore(indices, 0, j);
    }
    forall p: nat | p < |indices|
      ensures Position(indices, p, part)
    {
      assert p + 1 < |indices| ==> indices[p] < indices[p + 1];
      if indices[p] < n {
        forall j | indices[p] < j < Frontier(indices, p + 1, n)
          ensures !part[j]
        {
          NotBefore(indices, p + 1, j);
        }
      }
    }
  }

  /** `distribute` gives (or takes) a unit at a column. */
  predicate HasRoom(spec: ColumnSpec, w: int, grow: bool)
  {
    if grow then !(spec.max > 0 && w >= spec.max) else w > spec.min
  }

  function OneUnit(w: int, grow: bool): int
  {
    if grow then w + 1 else w - 1
  }

  /** Having room is being short of the limit. */
  lemma RoomIsShort(spec: ColumnSpec, w: int, share: nat, grow: bool)
    ensures HasRoom(spec, if grow then w + share else w - share, grow) <==> Short(CapOf(spec, w, grow), share)
  {
  }

  /** Position `p` of a round: the column there changes exactly when it has room,
      and the round moves on to the next position. */
  lemma PositionStep(was: seq<int>, now: seq<int>, specs: seq<ColumnSpec>, indices: seq<nat>, part: seq<bool>,
                     caps: seq<Cap>, share: seq<int>, p: nat, left: nat, grow: bool)
    returns (now': seq<int>, share': seq<int>, left': nat)
    requires |specs| >= |was| == |part| && Lists(indices, part) && caps == DistributeCaps(was, specs, part, grow)
    requires Within(caps, share) && Moved(was, now, share, grow)
    requires p < |indices| && indices[p] < |was| && left > 0
    ensures var i := indices[p];
            if HasRoom(specs[i], now[i], grow) then now' == now[i := OneUnit(now[i], grow)] && left' == left - 1
            else now' == now && left' == left
    ensures Within(caps, share') && Moved(was, now', share', grow)
    ensures Round(caps, share', Frontier(indices, p + 1, |was|), left') == Round(caps, share, indices[p], left)
  {
    var i, next := indices[p], Frontier(indices, p + 1, |was|);
    assert Position(indices, p, part);
    RoomIsShort(specs[i], was[i], share[i], grow);
    now', share', left' := now, share, left;
    if HasRoom(specs[i], now[i], grow) {
      now', share', left' := now[i := OneUnit(now[i], grow)], share[i := share[i] + 1], left - 1;
    }
    RoundSkips(caps, share', i + 1, next, left');
  }

  /** Nothing changes before the first position. */
  lemma RoundBegins(was: seq<int>, specs: seq<ColumnSpec>, indices: seq<nat>, part: seq<bool>,
                    caps: seq<Cap>, share: seq<int>, left: nat, grow: bool)
    requires |specs| >= |was| == |part| && Lists(indices, part) && caps == DistributeCaps(was, specs, part, grow)
    requires Within(caps, share)
    ensures Round(caps, share, Frontier(indices, 0, |was|), left) == Round(caps, share, 0, left)
  {
    RoundSkips(caps, share, 0, Frontier(indices, 0, |was|), left);
  }

  /** One round of `distribute`, in place; stops as soon as nothing is left. */
  method DistributeRound(widths: array<int>, specs: seq<ColumnSpec>, indices: seq<nat>, amount: nat, grow: bool,
                         ghost was: seq<int>, ghost part: seq<bool>, ghost caps: seq<Cap>, ghost start: seq<int>)
    returns (left: nat, ghost share: seq<int>)
    requires |specs| >= widths.Length == |was| == |part| && Lists(indices, part)
    requires caps == DistributeCaps(was, specs, part, grow)
    requires Within(caps, start) && Moved(was, widths[..], start, grow)
    modifies widths
    ensures (share, left) == Round(caps, start, 0, amount)
    ensures Moved(was, widths[..], share, grow)
  {
    left, share := amount, start;
    ghost var now := widths[..];
    RoundBegins(was, specs, indices, part, caps, start, amount, grow);
    var p := 0;
    while p < |indices| && left > 0
      invariant p <= |indices|
      invariant widths[..] == now
      invariant Within(caps, share) && Moved(was, now, share, grow)
      invariant Round(caps, share, Frontier(indices, p, |was|), left) == Round(caps, start, 0, amount)
    {
      var idx := indices[p];
      if idx < widths.Length {
        ghost var now', share', left' := PositionStep(was, now, specs, indices, part, caps, share, p, left, grow);
        if HasRoom(specs[idx], widths[idx], grow) {
          widths[idx] := OneUnit(widths[idx], grow);
          left := left - 1;
        }
        now, share := now', share';
      } else {
        assert Position(indices, p, part);
      }
      p := p + 1;
    }
    assert Round(caps, share, Frontier(indices, p, |was|), left) == (share, left);
  }

  /** A column grows up to its maximum and shrinks down to its minimum, and one that takes
      no part stays. */
  lemma SplitBounds(was: seq<int>, now: seq<int>, specs: seq<ColumnSpec>, part: seq<bool>, amount: int, grow: bool)
    requires |specs| >= |was| == |part|
    requires FairSplit(was, now, DistributeCaps(was, specs, part, grow), amount, grow)
    ensures |now| == |was| && forall i :: 0 <= i < |was| && !part[i] ==> now[i] == was[i]
    ensures grow ==> forall i :: 0 <= i < |was| ==>
              was[i] <= now[i] && (specs[i].max > 0 ==> now[i] <= Max(was[i], specs[i].max))
    ensures !grow ==> forall i :: 0 <= i < |was| ==>
              now[i] <= was[i] && (now[i] == was[i] || now[i] >= specs[i].min)
  {
    var c := Changes(was, now, grow);
    assert Within(DistributeCaps(was, specs, part, grow), c);
  }

  /** Where the rounds end: a fair split within the bounds of each column. */
  lemma RoundsEnd(was: seq<int>, now: seq<int>, specs: seq<ColumnSpec>, indices: seq<nat>, caps: seq<Cap>, share: seq<int>,
                  level: nat, cut: nat, given: int, amount: int, grow: bool)
    requires |specs| >= |was| && caps == DistributeCaps(was, specs, TakesPart(indices, |was|), grow)
    requires Served(caps, share, level, cut, given) && Moved(was, now, share, grow)
    requires 0 <= given <= Max0(amount) && (given >= amount || AllFull(caps, share))
    ensures FairSplit(was, now, caps, amount, grow) && |now| == |was|
    ensures forall i :: 0 <= i < |was| && i !in indices ==> now[i] == was[i]
    ensures grow ==> forall i :: 0 <= i < |was| ==>
              was[i] <= now[i] && (specs[i].max > 0 ==> now[i] <= Max(was[i], specs[i].max))
    ensures !grow ==> forall i :: 0 <= i < |was| ==>
              now[i] <= was[i] && (now[i] == was[i] || now[i] >= specs[i].min)
  {
    ServedSplits(was, now, caps, share, grow, level, cut, given, amount);
    SplitBounds(was, now, specs, TakesPart(indices, |was|), amount, grow);
  }

  /** `distribute`: hands `amount` out (or takes it away) one unit at a time, round
      after round, in place. */
  method Distribute(widths: array<int>, specs: seq<ColumnSpec>, indices: seq<nat>, amount: int, grow: bool)
    requires |specs| >= widths.Length
    requires Increasing(indices)
    modifies widths
    ensures FairSplit(old(widths[..]), widths[..],
                      DistributeCaps(old(widths[..]), specs, TakesPart(indices, widths.Length), grow), amount, grow)
    ensures forall i :: 0 <= i < widths.Length && i !in indices ==> widths[i] == old(widths[i])
    ensures grow ==> forall i :: 0 <= i < widths.Length ==>
              widths[i] >= old(widths[i]) && (specs[i].max > 0 ==> widths[i] <= Max(old(widths[i]), specs[i].max))
    ensures !grow ==> forall i :: 0 <= i < widths.Length ==>
              widths[i] <= old(widths[i]) && (widths[i] == old(widths[i]) || widths[i] >= specs[i].min)
  {
    ghost var was := widths[..];
    ghost var part := TakesPart(indices, |was|);
    ghost var caps := DistributeCaps(was, specs, part, grow);
    IncreasingLists(indices, |was|);
    ghost var share, level, cut := Zeros(|was|), 0, 0;
    ServedNothing(caps);
    if amount <= 0 || |indices| == 0 {
      RoundsEnd(was, was, specs, indices, caps, share, level, cut, 0, amount, grow);
      return;
    }
    var left: nat := amount;
    while left > 0
      invariant left <= amount
      invariant Served(caps, share, level, cut, amount - left) && Moved(was, widths[..], share, grow)
      invariant left > 0 ==> cut == 0
    {
      var before := left;
      level, cut := RoundServed(caps, share, level, left, amount);
      left, share := DistributeRound(widths, specs, indices, left, grow, was, part, caps, share);
      if left == before {
        break;
      }
    }
    RoundsEnd(was, widths[..], specs, indices, caps, share, level, cut, amount - left, amount, grow);
  }

  /** One round of `widenTruncated`, in place. */
  method WidenRound(widths: array<int>, natural: seq<int>, extra: nat, ghost was: seq<int>, ghost caps: seq<Cap>, ghost start: seq<int>)
    returns (left: nat, ghost share: seq<int>)
    requires |natural| >= widths.Length == |was|
    requires caps == WidenCaps(was, natural)
    requires Within(caps, start) && Moved(was, widths[..], start, true)
    modifies widths
    ensures (share, left) == Round(caps, start, 0, extra)
    ensures Moved(was, widths[..], share, true)
  {
    left, share := extra, start;
    var i := 0;
    while i < widths.Length && left > 0
      invariant i <= widths.Length
      invariant Within(caps, share) && Moved(was, widths[..], share, true)
      invariant Round(caps, share, i, left) == Round(caps, start, 0, extra)
    {
      if widths[i] < natural[i] {
        widths[i] := widths[i] + 1;
        left, share := left - 1, share[i := share[i] + 1];
      }
      i := i + 1;
    }
  }

  /** `widenTruncated`: gives extra room, one unit at a time, to the columns that
      are narrower than their content. Returns what is left over. */
  method WidenTruncated(widths: array<int>, natural: seq<int>, extra: int) returns (left: int)
    requires |natural| >= widths.Length
    modifies widths
    ensures FairSplit(old(widths[..]), widths[..], WidenCaps(old(widths[..]), natural), extra, true)
    ensures left == extra - (Sum(widths[..]) - Sum(old(widths[..])))
  {
    ghost var was := widths[..];
    ghost var caps := WidenCaps(was, natural);
    ghost var share, level, cut := Zeros(|was|), 0, 0;
    ServedNothing(caps);
    left := extra;
    while left > 0
      invariant left == extra || 0 <= left < extra
      invariant Served(caps, share, level, cut, extra - left) && Moved(was, widths[..], share, true)
      invariant left > 0 ==> cut == 0
    {
      var before := left;
      level, cut := RoundServed(caps, share, level, left, extra);
      left, share := WidenRound(widths, natural, left, was, caps, share);
      if left == before {
        break;
      }
    }
    ServedSplits(was, widths[..], caps, share, true, level, cut, extra - left, extra);
  }

  // ----- content-driven widths -----

  /** The currency symbol and text measuring, which the terminal libraries provide. */
  datatype Metrics = Metrics(
    symbol: string,
    width: string -> nat,
    firstLine: string -> string,
    extraLines: string -> nat,
    digits: nat -> nat)

  const LINK_ARROW := "\U{2192}"
  const DRILLDOWN_ARROW := "\U{2198}"
  const OPS_ARROW := "{}"

  /** What follows a column's title in its header. */
  function HeaderMark(m: Metrics, spec: ColumnSpec): nat
  {
    if spec.linked || spec.kind == Entity then 1 + m.width(LINK_ARROW)
    else if spec.kind == Drilldown then 1 + m.width(DRILLDOWN_ARROW)
    else if spec.kind == Ops then 1 + m.width(OPS_ARROW)
    else if spec.kind == Money then 1 + m.width(m.symbol)
    else 0
  }

  /** Room for the widest sort indicator among `count` columns. */
  function SortIndicatorWidth(m: Metrics, count: nat): nat
  {
    if count <= 1 then 2 else 2 + m.digits(count)
  }

  /** `headerTitleWidth`. */
  function HeaderWidth(m: Metrics, spec: ColumnSpec, count: nat): nat
  {
    m.width(spec.title) + HeaderMark(m, spec) + SortIndicatorWidth(m, count)
  }

  /** Width of a sort indicator: an arrow after a blank, and the place of the entry in the
      stack if it is not the only one. */
  function IndicatorWidth(m: Metrics, place: nat, entries: nat): nat
  {
    if entries == 1 then 2 else 2 + m.digits(place + 1)
  }

  /** The room kept for the sort indicator is what the widest one needs: every indicator of
      a stack of at most `count` entries fits, and the last one of a full stack fills it. */
  lemma IndicatorRoom(m: Metrics, count: nat)
    requires count > 0 && forall i: nat, j: nat :: i <= j ==> m.digits(i) <= m.digits(j)
    ensures forall place: nat, entries: nat :: place < entries <= count ==>
              IndicatorWidth(m, place, entries) <= SortIndicatorWidth(m, count)
    ensures IndicatorWidth(m, count - 1, count) == SortIndicatorWidth(m, count)
  {
  }

  /** A column's header as it is drawn, without the sort indicator. */
  function HeaderText(m: Metrics, spec: ColumnSpec): string
  {
    if spec.linked || spec.kind == Entity then spec.title + " " + LINK_ARROW
    else match spec.kind
      case Drilldown => spec.title + " " + DRILLDOWN_ARROW
      case Ops => spec.title + " " + OPS_ARROW
      case Money => spec.title + " " + m.symbol
      case _ => spec.title
  }

  ghost predicate Additive(width: string -> nat)
  {
    width(" ") == 1 && forall a, b :: width(a + b) == width(a) + width(b)
  }

  /** What is measured is what is drawn: the header with its mark, and the widest sort
      indicator. */
  lemma HeaderHolds(m: Metrics, spec: ColumnSpec, count: nat)
    requires Additive(m.width)
    ensures HeaderWidth(m, spec, count) == m.width(HeaderText(m, spec)) + SortIndicatorWidth(m, count)
  {
    var mark := if spec.linked || spec.kind == Entity then LINK_ARROW
                else if spec.kind == Drilldown then DRILLDOWN_ARROW
                else if spec.kind == Ops then OPS_ARROW else m.symbol;
    assert m.width(spec.title + " ") == m.width(spec.title) + 1;
    assert m.width((spec.title + " ") + mark) == m.width(spec.title + " ") + m.width(mark);
  }

  /** The same with the symbol that `columnWidths` measures by when it is not given the
      natural widths. */
  function InDollars(m: Metrics): Metrics
  {
    m.(symbol := "$")
  }

  /** The header ends in the currency symbol. */
  predicate ShowsSymbol(spec: ColumnSpec)
  {
    spec.kind == Money && !spec.linked
  }

  /** Width of the "+N" mark of a note with `n` more lines. */
  function NoteSuffixWidth(m: Metrics, n: nat): int
  {
    if n == 0 then 0 else 1 + m.digits(n)
  }

  function CellWidth(m: Metrics, spec: ColumnSpec, c: Cell): int
    requires m.firstLine(c.value) != ""
  {
    var n := m.extraLines(c.value);
    m.width(m.firstLine(c.value)) + if spec.kind == Notes && n > 0 then 1 + 1 + NoteSuffixWidth(m, n) else 0
  }

  /** What is measured is what is drawn of a cell: its first line and, for a note with
      more lines, an ellipsis, a blank and "+" with their number. */
  lemma CellHolds(m: Metrics, spec: ColumnSpec, c: Cell, numeral: string)
    requires m.firstLine(c.value) != ""
    requires Additive(m.width) && m.width("+") == 1 && m.width("\U{2026}") == 1
    requires m.width(numeral) == m.digits(m.extraLines(c.value))
    ensures var first, more := m.firstLine(c.value), m.extraLines(c.value);
            var drawn := if spec.kind == Notes && more > 0 then (first + "\U{2026}") + (" " + ("+" + numeral)) else first;
            CellWidth(m, spec, c) == m.width(drawn)
  {
    var first := m.firstLine(c.value);
    assert m.width("+" + numeral) == 1 + m.width(numeral);
    assert m.width(" " + ("+" + numeral)) == 1 + m.width("+" + numeral);
    assert m.width(first + "\U{2026}") == m.width(first) + 1;
  }

  ghost predicate FixedDemand(m: Metrics, spec: ColumnSpec, d: int)
  {
    exists j :: 0 <= j < |spec.fixedValues| && m.width(spec.fixedValues[j]) == d
  }

  predicate HasContent(m: Metrics, r: seq<Cell>, ci: nat)
  {
    ci < |r| && m.firstLine(r[ci].value) != ""
  }

  ghost predicate CellDemand(m: Metrics, spec: ColumnSpec, rows: seq<seq<Cell>>, ci: nat, d: int)
  {
    exists k :: 0 <= k < |rows| && HasContent(m, rows[k], ci) && CellWidth(m, spec, rows[k][ci]) == d
  }

  /** What wants room in a column: its header, its minimum, its fixed values and
      its non-empty cells. */
  ghost predicate Demand(m: Metrics, spec: ColumnSpec, count: nat, rows: seq<seq<Cell>>, ci: nat, d: int)
  {
    d == HeaderWidth(m, spec, count) || d == spec.min || FixedDemand(m, spec, d) || CellDemand(m, spec, rows, ci, d)
  }

  /** The natural width meets every demand and is itself one of them; notes are
      cut at their maximum. */
  ghost predicate IsNatural(m: Metrics, spec: ColumnSpec, count: nat, rows: seq<seq<Cell>>, ci: nat, w: int)
  {
    exists most :: Demand(m, spec, count, rows, ci, most)
                && (forall d :: Demand(m, spec, count, rows, ci, d) ==> d <= most)
                && w == if spec.kind == Notes && spec.max > 0 && most > spec.max then spec.max else most
  }

  method WidestFixed(m: Metrics, spec: ColumnSpec, w0: int) returns (w: int)
    ensures w0 <= w && (w == w0 || FixedDemand(m, spec, w))
    ensures forall d :: FixedDemand(m, spec, d) ==> d <= w
  {
    w := w0;
    for k := 0 to |spec.fixedValues|
      invariant w0 <= w && (w == w0 || FixedDemand(m, spec, w))
      invariant forall j :: 0 <= j < k ==> m.width(spec.fixedValues[j]) <= w
    {
      var fw := m.width(spec.fixedValues[k]);
      if fw > w {
        w := fw;
      }
    }
  }

  method WidestCell(m: Metrics, spec: ColumnSpec, rows: seq<seq<Cell>>, ci: nat, w0: int) returns (w: int)
    ensures w0 <= w && (w == w0 || CellDemand(m, spec, rows, ci, w))
    ensures forall d :: CellDemand(m, spec, rows, ci, d) ==> d <= w
  {
    w := w0;
    for k := 0 to |rows|
      invariant w0 <= w && (w == w0 || CellDemand(m, spec, rows, ci, w))
      invariant forall j :: 0 <= j < k && HasContent(m, rows[j], ci) ==> CellWidth(m, spec, rows[j][ci]) <= w
    {
      if HasContent(m, rows[k], ci) {
        var cw := CellWidth(m, spec, rows[k][ci]);
        if cw > w {
          w := cw;
        }
      }
    }
  }

  lemma WidestIsNatural(m: Metrics, spec: ColumnSpec, count: nat, rows: seq<seq<Cell>>, ci: nat, fixed: int, most: int)
    requires HeaderWidth(m, spec, count) <= fixed <= most && spec.min <= most
    requires forall d :: FixedDemand(m, spec, d) ==> d <= fixed
    requires forall d :: CellDemand(m, spec, rows, ci, d) ==> d <= most
    requires Demand(m, spec, count, rows, ci, most)
    ensures IsNatural(m, spec, count, rows, ci,
                      if spec.kind == Notes && spec.max > 0 && most > spec.max then spec.max else most)
  {
  }

  method NaturalWidth(m: Metrics, spec: ColumnSpec, count: nat, rows: seq<seq<Cell>>, ci: nat) returns (w: int)
    ensures IsNatural(m, spec, count, rows, ci, w)
  {
    var fixed := WidestFixed(m, spec, HeaderWidth(m, spec, count));
    w := WidestCell(m, spec, rows, ci, fixed);
    if w < spec.min {
      w := spec.min;
    }
    WidestIsNatural(m, spec, count, rows, ci, fixed, w);
    if spec.kind == Notes && spec.max > 0 && w > spec.max {
      w := spec.max;
    }
  }

  /** `computeNaturalWidths`: `colIndex` maps a column to its cell in a row. */
  method ComputeNaturalWidths(m: Metrics, specs: seq<ColumnSpec>, rows: seq<seq<Cell>>, colIndex: seq<nat>) returns (widths: seq<int>)
    requires |colIndex| >= |specs|
    ensures |widths| == |specs|
    ensures forall i :: 0 <= i < |specs| ==> IsNatural(m, specs[i], |specs|, rows, colIndex[i], widths[i])
  {
    widths := [];
    for i := 0 to |specs|
      invariant |widths| == i
      invariant forall j :: 0 <= j < i ==> IsNatural(m, specs[j], |specs|, rows, colIndex[j], widths[j])
    {
      var w := NaturalWidth(m, specs[i], |specs|, rows, colIndex[i]);
      widths := widths + [w];
    }
  }

  /** A natural width is at least the column's minimum, unless the column holds
      notes whose maximum is below it. */
  lemma NaturalAtLeastMin(m: Metrics, spec: ColumnSpec, count: nat, rows: seq<seq<Cell>>, ci: nat, w: int)
    requires IsNatural(m, spec, count, rows, ci, w)
    requires spec.max > 0 ==> spec.min <= spec.max
    ensures spec.min <= w
  {
    assert Demand(m, spec, count, rows, ci, spec.min);
  }

  // ----- the three regimes -----

  /** A column has one natural width. */
  lemma NaturalUnique(m: Metrics, spec: ColumnSpec, count: nat, rows: seq<seq<Cell>>, ci: nat, a: int, b: int)
    requires IsNatural(m, spec, count, rows, ci, a) && IsNatural(m, spec, count, rows, ci, b)
    ensures a == b
  {
  }

  /** The symbol does not matter to a column whose header does not show it, nor does a
      symbol of the same width. */
  lemma {:induction false} DollarNatural(m: Metrics, spec: ColumnSpec, count: nat, rows: seq<seq<Cell>>, ci: nat, w: int)
    requires IsNatural(InDollars(m), spec, count, rows, ci, w)
    requires ShowsSymbol(spec) ==> m.width(m.symbol) == m.width("$")
    ensures IsNatural(m, spec, count, rows, ci, w)
  {
    var dollars := InDollars(m);
    forall d
      ensures Demand(dollars, spec, count, rows, ci, d) <==> Demand(m, spec, count, rows, ci, d)
    {
      DollarDemand(m, spec, count, rows, ci, d);
    }
  }

  lemma DollarDemand(m: Metrics, spec: ColumnSpec, count: nat, rows: seq<seq<Cell>>, ci: nat, d: int)
    requires ShowsSymbol(spec) ==> m.width(m.symbol) == m.width("$")
    ensures Demand(InDollars(m), spec, count, rows, ci, d) <==> Demand(m, spec, count, rows, ci, d)
  {
    var dollars := InDollars(m);
    assert FixedDemand(dollars, spec, d) <==> FixedDemand(m, spec, d);
    if CellDemand(dollars, spec, rows, ci, d) {
      var k :| 0 <= k < |rows| && HasContent(dollars, rows[k], ci) && CellWidth(dollars, spec, rows[k][ci]) == d;
      assert HasContent(m, rows[k], ci);
    }
    if CellDemand(m, spec, rows, ci, d) {
      var k :| 0 <= k < |rows| && HasContent(m, rows[k], ci) && CellWidth(m, spec, rows[k][ci]) == d;
      assert HasContent(dollars, rows[k], ci);
    }
  }

  method FlexColumns(specs: seq<ColumnSpec>) returns (indices: seq<nat>)
    ensures Increasing(indices)
    ensures forall i :: i in indices <==> 0 <= i < |specs| && specs[i].flex
  {
    indices := [];
    for i := 0 to |specs|
      invariant Increasing(indices)
      invariant forall k :: k in indices <==> 0 <= k < i && specs[k].flex
    {
      if specs[i].flex {
        assert forall j :: 0 <= j < |indices| ==> indices[j] in indices;
        indices := indices + [i];
      }
    }
  }

  method AllColumns(specs: seq<ColumnSpec>) returns (indices: seq<nat>)
    ensures Increasing(indices)
    ensures forall i :: i in indices <==> 0 <= i < |specs|
  {
    indices := [];
    for i := 0 to |specs|
      invariant Increasing(indices)
      invariant forall k :: k in indices <==> 0 <= k < i
    {
      assert forall j :: 0 <= j < |indices| ==> indices[j] in indices;
      indices := indices + [i];
    }
  }

  /** The columns that may grow or shrink: the flexible ones, or all of them when
      none is flexible. */
  ghost function Flexible(specs: seq<ColumnSpec>): (part: seq<bool>)
    ensures |part| == |specs|
    ensures forall i :: 0 <= i < |specs| ==> (part[i] <==> specs[i].flex || forall j :: 0 <= j < |specs| ==> !specs[j].flex)
  {
    seq(|specs|, i requires 0 <= i < |specs| => specs[i].flex || forall j :: 0 <= j < |specs| ==> !specs[j].flex)
  }

  method FlexOrAll(specs: seq<ColumnSpec>) returns (indices: seq<nat>)
    ensures Increasing(indices)
    ensures TakesPart(indices, |specs|) == Flexible(specs)
  {
    indices := FlexColumns(specs);
    if |indices| == 0 {
      assert forall j :: 0 <= j < |specs| ==> j !in indices;
      indices := AllColumns(specs);
    } else {
      assert indices[0] in indices;
    }
  }

  function Capped(specs: seq<ColumnSpec>, natural: seq<int>): (w: seq<int>)
    requires |specs| == |natural|
    ensures |w| == |natural|
    ensures forall i :: 0 <= i < |w| ==> w[i] == if specs[i].max > 0 && natural[i] > specs[i].max then specs[i].max else natural[i]
  {
    seq(|natural|, i requires 0 <= i < |natural| =>
      if specs[i].max > 0 && natural[i] > specs[i].max then specs[i].max else natural[i])
  }

  function Available(width: int, separatorWidth: int, count: nat): int
  {
    Max(width - separatorWidth * (count - 1), count)
  }

  ghost predicate GrownFlex(specs: seq<ColumnSpec>, was: seq<int>, now: seq<int>, extra: int)
    requires |was| == |specs|
  {
    FairSplit(was, now, DistributeCaps(was, specs, Flexible(specs), true), extra, true)
  }

  /** First the truncated columns are widened, then the rest is shared out. */
  ghost predicate Widened(specs: seq<ColumnSpec>, natural: seq<int>, capped: seq<int>, avail: int, widths: seq<int>)
    requires |natural| == |specs| == |capped|
  {
    exists mid: seq<int> ::
      && FairSplit(capped, mid, WidenCaps(capped, natural), avail - Sum(capped), true)
      && GrownFlex(specs, mid, widths, avail - Sum(mid))
  }

  /** How `columnWidths` lays columns out: natural widths and the rest shared out
      when the content fits; capped widths, then the truncated columns widened, and
      only then the rest shared out, when the capped widths fit; else capped widths
      with the deficit shared out. */
  ghost predicate Laid(specs: seq<ColumnSpec>, natural: seq<int>, avail: int, widths: seq<int>)
    requires |natural| == |specs|
  {
    var capped := Capped(specs, natural);
    if Sum(natural) <= avail then
      GrownFlex(specs, natural, widths, avail - Sum(natural))
    else if Sum(capped) <= avail then
      Widened(specs, natural, capped, avail, widths)
    else
      FairSplit(capped, widths, DistributeCaps(capped, specs, Flexible(specs), false), Sum(capped) - avail, false)
  }

  lemma NothingToGrow(specs: seq<ColumnSpec>, was: seq<int>)
    requires |was| == |specs|
    ensures GrownFlex(specs, was, was, 0)
  {
    SumChanges(was, was, true);
  }

  method Copy(s: seq<int>) returns (a: array<int>)
    ensures fresh(a) && a[..] == s
  {
    a := new int[|s|](i requires 0 <= i < |s| => s[i]);
  }

  /** `columnWidths`. Without precomputed natural widths they are measured here, with the
      dollar sign for the symbol. */
  method ColumnWidths(m: Metrics, specs: seq<ColumnSpec>, rows: seq<seq<Cell>>, width: int, separatorWidth: int,
                      precompNatural: Option<seq<int>>)
    returns (result: seq<int>, ghost natural: seq<int>)
    requires precompNatural.Some? ==> |precompNatural.value| == |specs|
    ensures |specs| == 0 ==> result == []
    ensures |natural| == |specs|
    ensures precompNatural.Some? ==> natural == precompNatural.value
    ensures precompNatural.None? ==> forall i :: 0 <= i < |specs| ==> IsNatural(InDollars(m), specs[i], |specs|, rows, i, natural[i])
    ensures |specs| > 0 ==> Laid(specs, natural, Available(width, separatorWidth, |specs|), result)
  {
    natural := if precompNatural.Some? then precompNatural.value else [];
    if |specs| == 0 {
      return [], [];
    }
    var content: seq<int>;
    if precompNatural.Some? {
      content := precompNatural.value;
    } else {
      content := ComputeNaturalWidths(InDollars(m), specs, rows, seq(|specs|, i requires 0 <= i => i));
    }
    natural := content;
    var avail := Available(width, separatorWidth, |specs|);
    result := LayOut(specs, content, avail);
  }

  /** The allocation part of `columnWidths`. */
  method LayOut(specs: seq<ColumnSpec>, natural: seq<int>, avail: int) returns (result: seq<int>)
    requires |natural| == |specs|
    ensures Laid(specs, natural, avail, result)
  {
    var total := SumInts(natural);
    if total <= avail {
      result := GrowFlex(specs, natural, avail - total);
      return;
    }
    var capped := Capped(specs, natural);
    total := SumInts(capped);
    if total <= avail {
      result := WidenCapped(specs, natural, capped, avail, avail - total);
      return;
    }
    result := ShrinkFlex(specs, capped, total - avail);
  }

  /** Shares extra room among the columns that may grow. */
  method GrowFlex(specs: seq<ColumnSpec>, was: seq<int>, extra: nat) returns (result: seq<int>)
    requires |was| == |specs|
    ensures GrownFlex(specs, was, result, extra)
  {
    if extra == 0 {
      NothingToGrow(specs, was);
      return was;
    }
    var widths := Copy(was);
    var flex := FlexOrAll(specs);
    Distribute(widths, specs, flex, extra, true);
    result := widths[..];
  }

  /** Widens the truncated columns first and shares what is left. */
  method WidenCapped(specs: seq<ColumnSpec>, natural: seq<int>, capped: seq<int>, ghost avail: int, extra: nat) returns (result: seq<int>)
    requires |natural| == |specs| == |capped| && Sum(capped) + extra == avail
    ensures Widened(specs, natural, capped, avail, result)
  {
    var widths := Copy(capped);
    var left := WidenTruncated(widths, natural, extra);
    ghost var mid := widths[..];
    WidenKeepsRoom(capped, mid, natural, extra);
    result := GrowFlex(specs, widths[..], left);
    assert FairSplit(capped, mid, WidenCaps(capped, natural), avail - Sum(capped), true);
  }

  /** Takes a deficit from the columns that may shrink. */
  method ShrinkFlex(specs: seq<ColumnSpec>, was: seq<int>, deficit: nat) returns (result: seq<int>)
    requires |was| == |specs|
    ensures FairSplit(was, result, DistributeCaps(was, specs, Flexible(specs), false), deficit, false)
  {
    var widths := Copy(was);
    var flex := FlexOrAll(specs);
    Distribute(widths, specs, flex, deficit, false);
    result := widths[..];
  }

  lemma WidenKeepsRoom(was: seq<int>, now: seq<int>, natural: seq<int>, extra: nat)
    requires |natural| >= |was|
    requires FairSplit(was, now, WidenCaps(was, natural), extra, true)
    ensures Sum(was) <= Sum(now) <= Sum(was) + extra
  {
    SumChanges(was, now, true);
    SumNonNegative(Changes(was, now, true));
  }

  /** Widening uses all the room when the content wants more than there is. */
  lemma {:induction false} WidenUsesAll(was: seq<int>, now: seq<int>, natural: seq<int>, extra: nat)
    requires |natural| == |was| && forall i :: 0 <= i < |was| ==> was[i] <= natural[i]
    requires FairSplit(was, now, WidenCaps(was, natural), extra, true)
    requires Sum(natural) > Sum(was) + extra
    ensures Sum(now) == Sum(was) + extra
    ensures forall i :: 0 <= i < |was| ==> was[i] <= now[i] <= natural[i]
  {
    var c := Changes(was, now, true);
    SumChanges(was, now, true);
    if Sum(c) < extra {
      assert forall i :: 0 <= i < |was| ==> c[i] == natural[i] - was[i];
      SumMonotone(natural, now);
    }
  }

  lemma {:induction false} NothingSplit(was: seq<int>, now: seq<int>, caps: seq<Cap>, grow: bool)
    requires FairSplit(was, now, caps, 0, grow)
    ensures now == was
  {
    SumNonNegative(Changes(was, now, grow));
    assert Sum(Changes(was, now, grow)) == 0;
  }

  // ----- what the layout promises -----

  lemma {:induction false} WidenedFills(specs: seq<ColumnSpec>, natural: seq<int>, capped: seq<int>, avail: int, widths: seq<int>)
    requires |natural| == |specs| == |capped| && forall i :: 0 <= i < |capped| ==> capped[i] <= natural[i]
    requires Sum(natural) > avail >= Sum(capped)
    requires Widened(specs, natural, capped, avail, widths)
    ensures Sum(widths) == avail
    ensures FairSplit(capped, widths, WidenCaps(capped, natural), avail - Sum(capped), true)
    ensures forall i :: 0 <= i < |specs| ==> capped[i] <= widths[i] <= natural[i]
  {
    var mid: seq<int> :| && FairSplit(capped, mid, WidenCaps(capped, natural), avail - Sum(capped), true)
                         && GrownFlex(specs, mid, widths, avail - Sum(mid));
    WidenUsesAll(capped, mid, natural, avail - Sum(capped));
    NothingSplit(mid, widths, DistributeCaps(mid, specs, Flexible(specs), true), true);
  }

  /** Widening truncated columns leaves nothing over when their content does not
      fit: the capped regime fills the available width exactly, every column ends
      between its cap and its content, and the flex columns get nothing more. */
  lemma {:induction false} CappedFillsExactly(specs: seq<ColumnSpec>, natural: seq<int>, avail: int, widths: seq<int>)
    requires |natural| == |specs|
    requires Sum(natural) > avail && Sum(Capped(specs, natural)) <= avail
    requires Laid(specs, natural, avail, widths)
    ensures Sum(widths) == avail
    ensures FairSplit(Capped(specs, natural), widths, WidenCaps(Capped(specs, natural), natural), avail - Sum(Capped(specs, natural)), true)
    ensures forall i :: 0 <= i < |specs| ==> Capped(specs, natural)[i] <= widths[i] <= natural[i]
  {
    var capped := Capped(specs, natural);
    assert Widened(specs, natural, capped, avail, widths);
    WidenedFills(specs, natural, capped, avail, widths);
  }

  /** The layout is determined by the columns, their content and the room. */
  lemma {:induction false} LaidUnique(specs: seq<ColumnSpec>, natural: seq<int>, avail: int, a: seq<int>, b: seq<int>)
    requires |natural| == |specs|
    requires Laid(specs, natural, avail, a) && Laid(specs, natural, avail, b)
    ensures a == b
  {
    var capped := Capped(specs, natural);
    if Sum(natural) <= avail {
      FairSplitUnique(natural, a, b, DistributeCaps(natural, specs, Flexible(specs), true), avail - Sum(natural), true);
    } else if Sum(capped) <= avail {
      CappedFillsExactly(specs, natural, avail, a);
      CappedFillsExactly(specs, natural, avail, b);
      FairSplitUnique(capped, a, b, WidenCaps(capped, natural), avail - Sum(capped), true);
    } else {
      FairSplitUnique(capped, a, b, DistributeCaps(capped, specs, Flexible(specs), false), Sum(capped) - avail, false);
    }
  }

  /** When the content fits nothing is truncated, and room is left over only if
      every column that may grow is at its maximum. */
  lemma {:induction false} NaturalNeverTruncates(specs: seq<ColumnSpec>, natural: seq<int>, avail: int, widths: seq<int>)
    requires |natural| == |specs|
    requires Sum(natural) <= avail && Laid(specs, natural, avail, widths)
    ensures forall i :: 0 <= i < |specs| ==> natural[i] <= widths[i]
    ensures Sum(widths) <= avail
    ensures Sum(widths) < avail ==> forall i :: 0 <= i < |specs| && Flexible(specs)[i] ==> 0 < specs[i].max <= widths[i]
  {
    SumChanges(natural, widths, true);
    var caps, c := DistributeCaps(natural, specs, Flexible(specs), true), Changes(natural, widths, true);
    if Sum(widths) < avail {
      forall i | 0 <= i < |specs| && Flexible(specs)[i]
        ensures 0 < specs[i].max <= widths[i]
      {
        assert !Short(caps[i], c[i]);
      }
    }
  }

  /** No column gets wider than its maximum, unless its content is; when the content fits,
      the columns that may not grow are as wide as their content. */
  lemma {:induction false} NeverAboveMax(specs: seq<ColumnSpec>, natural: seq<int>, avail: int, widths: seq<int>)
    requires |natural| == |specs| && Laid(specs, natural, avail, widths)
    ensures |widths| == |specs|
    ensures forall i :: 0 <= i < |specs| && specs[i].max > 0 ==> widths[i] <= Max(natural[i], specs[i].max)
    ensures Sum(natural) <= avail ==> forall i :: 0 <= i < |specs| && !Flexible(specs)[i] ==> widths[i] == natural[i]
  {
    LaidLength(specs, natural, avail, widths);
    if Sum(natural) <= avail {
      SplitBounds(natural, widths, specs, Flexible(specs), avail - Sum(natural), true);
    } else if Sum(Capped(specs, natural)) <= avail {
      CappedFillsExactly(specs, natural, avail, widths);
    } else {
      ShrinkHitsWidthOrFloor(specs, natural, avail, widths);
    }
  }

  /** What the separators leave: together with them exactly the width, unless that were
      less than one cell for every column. */
  lemma AvailableFills(width: int, separatorWidth: int, count: nat)
    requires count > 0
    ensures var a := Available(width, separatorWidth, count);
            && a >= count
            && (a > count ==> a + separatorWidth * (count - 1) == width)
            && (a == count ==> width <= count + separatorWidth * (count - 1))
  {
  }

  /** When even the capped widths do not fit, the width is hit exactly, or every
      column that may shrink is down to its minimum. */
  lemma {:induction false} ShrinkHitsWidthOrFloor(specs: seq<ColumnSpec>, natural: seq<int>, avail: int, widths: seq<int>)
    requires |natural| == |specs|
    requires Sum(natural) > avail && Sum(Capped(specs, natural)) > avail
    requires Laid(specs, natural, avail, widths)
    ensures forall i :: 0 <= i < |specs| ==> widths[i] <= Capped(specs, natural)[i]
    ensures forall i :: 0 <= i < |specs| && !Flexible(specs)[i] ==> widths[i] == Capped(specs, natural)[i]
    ensures Sum(widths) >= avail
    ensures Sum(widths) == avail || forall i :: 0 <= i < |specs| && Flexible(specs)[i] ==> widths[i] <= specs[i].min
  {
    var capped := Capped(specs, natural);
    SumChanges(capped, widths, false);
    var caps, c := DistributeCaps(capped, specs, Flexible(specs), false), Changes(capped, widths, false);
    if Sum(widths) != avail {
      forall i | 0 <= i < |specs| && Flexible(specs)[i]
        ensures widths[i] <= specs[i].min
      {
        assert !Short(caps[i], c[i]);
      }
    }
  }

  lemma LaidLength(specs: seq<ColumnSpec>, natural: seq<int>, avail: int, widths: seq<int>)
    requires |natural| == |specs| && Laid(specs, natural, avail, widths)
    ensures |widths| == |specs|
  {
  }

  /** Whatever the regime, no column is narrower than its minimum. */
  lemma {:induction false} NeverBelowMin(specs: seq<ColumnSpec>, natural: seq<int>, avail: int, widths: seq<int>)
    requires |natural| == |specs|
    requires forall i :: 0 <= i < |specs| ==> specs[i].min <= natural[i]
    requires forall i :: 0 <= i < |specs| && specs[i].max > 0 ==> specs[i].min <= specs[i].max
    requires Laid(specs, natural, avail, widths)
    ensures |widths| == |specs|
    ensures forall i :: 0 <= i < |specs| ==> specs[i].min <= widths[i]
  {
    if Sum(natural) <= avail {
      NaturalNeverTruncates(specs, natural, avail, widths);
    } else if Sum(Capped(specs, natural)) <= avail {
      CappedFillsExactly(specs, natural, avail, widths);
    } else {
      var capped := Capped(specs, natural);
      var c := Changes(capped, widths, false);
      assert forall i :: 0 <= i < |specs| ==> c[i] <= Max(capped[i] - specs[i].min, 0);
    }
  }

  // ----- laying out a part of the columns again -----

  /** In every regime a column that may not shrink keeps its capped width. */
  lemma {:induction false} FixedKeepsCap(specs: seq<ColumnSpec>, natural: seq<int>, avail: int, widths: seq<int>)
    requires |natural| == |specs| && Laid(specs, natural, avail, widths)
    ensures |widths| == |specs|
    ensures forall i :: 0 <= i < |specs| && !Flexible(specs)[i] ==> Capped(specs, natural)[i] <= widths[i]
  {
    LaidLength(specs, natural, avail, widths);
    if Sum(natural) <= avail {
      NaturalNeverTruncates(specs, natural, avail, widths);
    } else if Sum(Capped(specs, natural)) <= avail {
      CappedFillsExactly(specs, natural, avail, widths);
    } else {
      ShrinkHitsWidthOrFloor(specs, natural, avail, widths);
    }
  }

  /** A layout keeps to its room, or its columns cannot shrink any further. */
  lemma {:induction false} WithinOrFloored(specs: seq<ColumnSpec>, natural: seq<int>, avail: int, widths: seq<int>)
    requires |natural| == |specs| && Laid(specs, natural, avail, widths)
    ensures |widths| == |specs|
    ensures Sum(widths) <= avail || Floored(specs, natural, widths)
  {
    LaidLength(specs, natural, avail, widths);
    if Sum(natural) <= avail {
      NaturalNeverTruncates(specs, natural, avail, widths);
    } else if Sum(Capped(specs, natural)) <= avail {
      CappedFillsExactly(specs, natural, avail, widths);
    } else {
      ShrinkHitsWidthOrFloor(specs, natural, avail, widths);
    }
  }

  /** No column could be narrower: the ones that may shrink are at their minimum, the
      others at their cap. */
  ghost predicate Floored(specs: seq<ColumnSpec>, natural: seq<int>, widths: seq<int>)
    requires |natural| == |specs| == |widths|
  {
    forall i :: 0 <= i < |specs| ==> widths[i] <= if Flexible(specs)[i] then specs[i].min else Capped(specs, natural)[i]
  }

  /** No column of the part is wider than in the layout of all columns, once none of
      the part's columns can shrink further. */
  lemma {:induction false} FlooredPartIsNarrower(
    specs: seq<ColumnSpec>, natural: seq<int>, avail: int, widths: seq<int>, start: nat, end: nat, part: seq<int>)
    requires |natural| == |specs| && Laid(specs, natural, avail, widths) && start <= end <= |specs|
    requires forall i :: 0 <= i < |specs| ==> specs[i].min <= natural[i] && (specs[i].max > 0 ==> specs[i].min <= specs[i].max)
    requires |part| == end - start && Floored(specs[start..end], natural[start..end], part)
    ensures |widths| == |specs| && forall i :: 0 <= i < |part| ==> part[i] <= widths[start + i]
  {
    FixedKeepsCap(specs, natural, avail, widths);
    NeverBelowMin(specs, natural, avail, widths);
    forall i | 0 <= i < |part|
      ensures part[i] <= widths[start + i]
    {
      PartColumn(specs, natural, start, end, i);
    }
  }

  lemma PartColumn(specs: seq<ColumnSpec>, natural: seq<int>, start: nat, end: nat, i: nat)
    requires |natural| == |specs| && start <= end <= |specs| && i < end - start
    ensures Capped(specs[start..end], natural[start..end])[i] == Capped(specs, natural)[start + i]
    ensures !Flexible(specs[start..end])[i] ==> !Flexible(specs)[start + i]
  {
    var s := specs[start..end];
    if !Flexible(s)[i] {
      var j :| 0 <= j < |s| && s[j].flex;
      assert specs[start + j].flex && !specs[start + i].flex;
    }
  }

  /** Columns that fit some room in the layout of all columns fit it when they are laid
      out alone in that room, although the regime and the columns that may shrink can be
      different ones. */
  lemma {:induction false} PartFits(
    specs: seq<ColumnSpec>, natural: seq<int>, avail: int, widths: seq<int>, start: nat, end: nat, room: int, part: seq<int>)
    requires |natural| == |specs| && Laid(specs, natural, avail, widths) && start <= end <= |specs|
    requires forall i :: 0 <= i < |specs| ==> specs[i].min <= natural[i] && (specs[i].max > 0 ==> specs[i].min <= specs[i].max)
    requires Laid(specs[start..end], natural[start..end], room, part)
    requires |widths| == |specs| ==> Sum(widths[start..end]) <= room
    ensures |part| == end - start && Sum(part) <= room
  {
    LaidLength(specs, natural, avail, widths);
    WithinOrFloored(specs[start..end], natural[start..end], room, part);
    if Sum(part) > room {
      FlooredPartIsNarrower(specs, natural, avail, widths, start, end, part);
      SumMonotone(part, widths[start..end]);
    }
  }

  /** A single column is no wider than its room, or than its minimum. */
  lemma {:induction false} OneColumnWidth(spec: ColumnSpec, natural: int, room: int, widths: seq<int>)
    requires spec.max > 0 ==> spec.min <= spec.max
    requires Laid([spec], [natural], room, widths)
    ensures |widths| == 1 && (widths[0] <= room || widths[0] <= spec.min)
  {
    LaidLength([spec], [natural], room, widths);
    SumOne(natural);
    SumOne(widths[0]);
    assert widths == [widths[0]];
    var c := Capped([spec], [natural]);
    assert c == [c[0]];
    SumOne(c[0]);
    if natural <= room {
      NaturalNeverTruncates([spec], [natural], room, widths);
    } else if c[0] <= room {
      CappedFillsExactly([spec], [natural], room, widths);
    } else {
      ShrinkHitsWidthOrFloor([spec], [natural], room, widths);
      assert Flexible([spec])[0];
    }
  }

  lemma SumOne(x: int)
    ensures Sum([x]) == x
  {
    assert [x][..0] == [];
  }
}
