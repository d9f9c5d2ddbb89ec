/**
 Multi-column sorting: the sort stack, the comparator with its per-kind keys and
 NULL rule, and the stable reordering of a tab's three row arrays.
 */
module Sort {
  import opened Schema

  /** How cell text is read: trimmed, lower-cased, and parsed. `money` cannot fail. */
  datatype Reading = Reading(
    trim: string -> string,
    lower: string -> string,
    money: string -> real,
    date: string -> Option<int>,
    number: string -> Option<real>)

  const ZERO_CELL := Cell("", Text, false)

  // ----- the sort stack -----

  function EntryIndex(sorts: seq<SortEntry>, col: int): (k: nat)
    ensures k <= |sorts|
    ensures k < |sorts| ==> sorts[k].col == col
    ensures forall i :: 0 <= i < k ==> sorts[i].col != col
  {
    if sorts == [] || sorts[0].col == col then 0 else
      var k := EntryIndex(sorts[1..], col);
      assert forall i :: 1 <= i < k + 1 ==> sorts[i] == sorts[1..][i - 1];
      k + 1
  }

  /** none -> ascending -> descending -> none. */
  function ToggledSort(sorts: seq<SortEntry>, col: int): seq<SortEntry>
  {
    var k := EntryIndex(sorts, col);
    if k == |sorts| then sorts + [SortEntry(col, Asc)]
    else if sorts[k].dir == Asc then sorts[k := SortEntry(col, Desc)]
    else sorts[..k] + sorts[k + 1..]
  }

  method ToggleSort(tab: Tab, colIdx: int)
    modifies tab`Sorts
    ensures tab.Sorts == ToggledSort(old(tab.Sorts), colIdx)
  {
    for i := 0 to |tab.Sorts|
      invariant tab.Sorts == old(tab.Sorts)
      invariant forall j :: 0 <= j < i ==> tab.Sorts[j].col != colIdx
    {
      if tab.Sorts[i].col == colIdx {
        assert i == EntryIndex(tab.Sorts, colIdx);
        if tab.Sorts[i].dir == Asc {
          tab.Sorts := tab.Sorts[i := SortEntry(colIdx, Desc)];
        } else {
          tab.Sorts := tab.Sorts[..i] + tab.Sorts[i + 1..];
        }
        return;
      }
    }
    tab.Sorts := tab.Sorts + [SortEntry(colIdx, Asc)];
  }

  method ClearSorts(tab: Tab)
    modifies tab`Sorts
    ensures tab.Sorts == []
  {
    tab.Sorts := [];
  }

  ghost predicate OneEntryPerColumn(sorts: seq<SortEntry>)
  {
    forall i, j :: 0 <= i < j < |sorts| ==> sorts[i].col != sorts[j].col
  }

  /** The cycle: three toggles of a column that is not in the stack change nothing,
      and the stack never gets two entries for a column. */
  lemma {:induction false} ToggleCycle(sorts: seq<SortEntry>, col: int)
    requires OneEntryPerColumn(sorts)
    ensures OneEntryPerColumn(ToggledSort(sorts, col))
    ensures EntryIndex(sorts, col) == |sorts| ==>
              && ToggledSort(sorts, col) == sorts + [SortEntry(col, Asc)]
              && ToggledSort(ToggledSort(sorts, col), col) == sorts + [SortEntry(col, Desc)]
              && ToggledSort(ToggledSort(ToggledSort(sorts, col), col), col) == sorts
  {
    if EntryIndex(sorts, col) == |sorts| {
      var asc := sorts + [SortEntry(col, Asc)];
      EntryLast(asc, col);
      var desc := sorts + [SortEntry(col, Desc)];
      assert asc[|sorts| := SortEntry(col, Desc)] == desc;
      EntryLast(desc, col);
      assert desc[..|sorts|] + desc[|sorts| + 1..] == sorts;
    }
  }

  /** A column in the stack keeps its place when it turns to descending, and is taken out
      when it is toggled once more; the other entries and their order stay. */
  lemma {:induction false} ToggleInPlace(sorts: seq<SortEntry>, k: nat)
    requires k < |sorts| && OneEntryPerColumn(sorts)
    ensures var t := ToggledSort(sorts, sorts[k].col);
            if sorts[k].dir == Asc then
              && |t| == |sorts| && t[k] == SortEntry(sorts[k].col, Desc)
              && forall i :: 0 <= i < |t| && i != k ==> t[i] == sorts[i]
            else
              && |t| == |sorts| - 1
              && forall i :: 0 <= i < |t| ==> t[i] == sorts[if i < k then i else i + 1]
  {
    OnlyEntry(sorts, k);
    ToggledAt(sorts, sorts[k].col, k);
  }

  lemma ToggledAt(sorts: seq<SortEntry>, col: int, k: nat)
    requires k < |sorts| && EntryIndex(sorts, col) == k
    ensures var t := ToggledSort(sorts, col);
            if sorts[k].dir == Asc then
              && |t| == |sorts| && t[k] == SortEntry(sorts[k].col, Desc)
              && forall i :: 0 <= i < |t| && i != k ==> t[i] == sorts[i]
            else
              && |t| == |sorts| - 1
              && forall i :: 0 <= i < |t| ==> t[i] == sorts[if i < k then i else i + 1]
  {
    if sorts[k].dir == Desc {
      var t := sorts[..k] + sorts[k + 1..];
      assert ToggledSort(sorts, col) == t;
      assert forall i :: 0 <= i < k ==> t[i] == sorts[i];
      assert forall i :: k <= i < |t| ==> t[i] == sorts[k + 1..][i - k] == sorts[i + 1];
    }
  }

  lemma OnlyEntry(sorts: seq<SortEntry>, k: nat)
    requires k < |sorts| && OneEntryPerColumn(sorts)
    ensures EntryIndex(sorts, sorts[k].col) == k
  {
    var j := EntryIndex(sorts, sorts[k].col);
    assert !(j < k) && !(k < j);
  }

  lemma EntryLast(sorts: seq<SortEntry>, col: int)
    requires |sorts| > 0 && sorts[|sorts| - 1].col == col
    requires forall i :: 0 <= i < |sorts| - 1 ==> sorts[i].col != col
    ensures EntryIndex(sorts, col) == |sorts| - 1
  {
  }

  function WithPKTiebreaker(sorts: seq<SortEntry>): (s: seq<SortEntry>)
    ensures EntryIndex(s, 0) < |s| && sorts <= s
  {
    var k := EntryIndex(sorts, 0);
    if k < |sorts| then sorts else
      EntryLast(sorts + [SortEntry(0, Asc)], 0);
      sorts + [SortEntry(0, Asc)]
  }

  // ----- the comparator -----

  /** Strings in code point order. */
  function CompareStrings(a: string, b: string): int
  {
    if a == [] then (if b == [] then 0 else -1)
    else if b == [] then 1
    else if a[0] < b[0] then -1
    else if a[0] > b[0] then 1
    else CompareStrings(a[1..], b[1..])
  }

  function CompareReals(a: real, b: real): int
  {
    if a < b then -1 else if a > b then 1 else 0
  }

  function CompareInts(a: int, b: int): int
  {
    if a < b then -1 else if a > b then 1 else 0
  }

  function CellAt(row: CellRow, col: int): Cell
  {
    if 0 <= col < |row| then row[col] else ZERO_CELL
  }

  function KindOf(specs: seq<ColumnSpec>, col: int): CellKind
  {
    if 0 <= col < |specs| then specs[col].kind else Text
  }

  /** `compareCells` on the trimmed values of two cells. */
  function CompareValues(rd: Reading, kind: CellKind, va: string, vb: string): int
  {
    if va == vb then 0 else
      match kind
      case Money => CompareReals(rd.money(va), rd.money(vb))
      case Date | Urgency | Warranty =>
        if rd.date(va).None? || rd.date(vb).None? then CompareStrings(rd.lower(va), rd.lower(vb))
        else CompareInts(rd.date(va).value, rd.date(vb).value)
      case Readonly | Drilldown | Ops =>
        if rd.number(va).None? || rd.number(vb).None? then CompareStrings(rd.lower(va), rd.lower(vb))
        else CompareReals(rd.number(va).value, rd.number(vb).value)
      case Text | Status | Notes | Entity | TelephoneNumber => CompareStrings(rd.lower(va), rd.lower(vb))
  }

  /** One entry's verdict on two rows: negative when `a` goes first. NULL cells go
      last in either direction. */
  function CompareBy(rd: Reading, specs: seq<ColumnSpec>, entry: SortEntry, a: CellRow, b: CellRow): int
  {
    var ca, cb := CellAt(a, entry.col), CellAt(b, entry.col);
    if ca.isNull && cb.isNull then 0
    else if ca.isNull then 1
    else if cb.isNull then -1
    else
      var c := CompareValues(rd, KindOf(specs, entry.col), rd.trim(ca.value), rd.trim(cb.value));
      if entry.dir == Desc then -c else c
  }

  /** Row `a` goes before row `b`: the first entry that tells them apart decides. */
  predicate Before(rd: Reading, specs: seq<ColumnSpec>, sorts: seq<SortEntry>, a: CellRow, b: CellRow)
  {
    if sorts == [] then false
    else if CompareBy(rd, specs, sorts[0], a, b) == 0 then Before(rd, specs, sorts[1..], a, b)
    else CompareBy(rd, specs, sorts[0], a, b) < 0
  }

  /** The comparison closure of `applySorts`. */
  method Less(rd: Reading, specs: seq<ColumnSpec>, sorts: seq<SortEntry>, a: CellRow, b: CellRow) returns (less: bool)
    ensures less == Before(rd, specs, sorts, a, b)
  {
    for i := 0 to |sorts|
      invariant Before(rd, specs, sorts, a, b) == Before(rd, specs, sorts[i..], a, b)
    {
      assert sorts[i..][0] == sorts[i] && sorts[i..][1..] == sorts[i + 1..];
      var entry := sorts[i];
      var ca, cb := CellAt(a, entry.col), CellAt(b, entry.col);
      if ca.isNull && cb.isNull {
        continue;
      }
      if ca.isNull {
        return false;
      }
      if cb.isNull {
        return true;
      }
      var c := CompareValues(rd, KindOf(specs, entry.col), rd.trim(ca.value), rd.trim(cb.value));
      if c == 0 {
        continue;
      }
      if entry.dir == Desc {
        return c > 0;
      }
      return c < 0;
    }
    return false;
  }

  // ----- it is a strict weak order -----

  lemma {:induction false} StringsAntisymmetric(a: string, b: string)
    ensures CompareStrings(a, b) == -CompareStrings(b, a)
    ensures CompareStrings(a, b) == 0 <==> a == b
  {
    if a != [] && b != [] && a[0] == b[0] {
      StringsAntisymmetric(a[1..], b[1..]);
      assert a == [a[0]] + a[1..] && b == [b[0]] + b[1..];
    }
  }

  lemma {:induction false} StringsTransitive(a: string, b: string, c: string)
    requires CompareStrings(a, b) <= 0 && CompareStrings(b, c) <= 0
    ensures CompareStrings(a, c) <= 0
  {
    if a != [] && b != [] && c != [] && a[0] == b[0] == c[0] {
      StringsTransitive(a[1..], b[1..], c[1..]);
    }
  }

  /** The order of the dictionary: the first characters that differ decide, and a string
      comes after its beginnings. */
  lemma {:induction false} StringsLexicographic(a: string, b: string)
    ensures CompareStrings(a, b) < 0 <==> exists k: nat :: StandsBefore(a, b, k)
  {
    if a == [] {
      assert b != [] ==> StandsBefore(a, b, 0);
    } else if b == [] {
    } else if a[0] != b[0] {
      assert a[0] < b[0] ==> StandsBefore(a, b, 0);
    } else {
      StringsLexicographic(a[1..], b[1..]);
      if k: nat :| StandsBefore(a[1..], b[1..], k) {
        assert a[..k + 1] == [a[0]] + a[1..][..k] && b[..k + 1] == [b[0]] + b[1..][..k];
        assert StandsBefore(a, b, k + 1);
      }
      if k: nat :| StandsBefore(a, b, k) {
        assert k > 0;
        assert a[1..][..k - 1] == a[..k][1..] && b[1..][..k - 1] == b[..k][1..];
        assert StandsBefore(a[1..], b[1..], k - 1);
      }
    }
  }

  /** `a` and `b` agree up to `k`, where `a` ends or has the smaller character. */
  ghost predicate StandsBefore(a: string, b: string, k: nat)
  {
    k <= |a| && k < |b| && a[..k] == b[..k] && (k == |a| || a[k] < b[k])
  }

  predicate Parses(rd: Reading, kind: CellKind, v: string)
  {
    match kind
    case Date | Urgency | Warranty => rd.date(v).Some?
    case Readonly | Drilldown | Ops => rd.number(v).Some?
    case _ => true
  }

  function ValueAt(rd: Reading, row: CellRow, col: int): string
  {
    rd.trim(CellAt(row, col).value)
  }

  /** The lower-cased text of a cell, by which it is compared with a cell that does
      not parse. */
  function TextAt(rd: Reading, row: CellRow, col: int): string
  {
    rd.lower(ValueAt(rd, row, col))
  }

  /** Values that parse, with one that does not between them as text, are in that
      order as values too; if they are equal, all three are the same text. */
  predicate OrderlyValues(rd: Reading, kind: CellKind, va: string, vu: string, vb: string)
  {
    Parses(rd, kind, va) && Parses(rd, kind, vb) && !Parses(rd, kind, vu)
    && CompareStrings(rd.lower(va), rd.lower(vu)) <= 0 && CompareStrings(rd.lower(vu), rd.lower(vb)) <= 0 ==>
      CompareValues(rd, kind, va, vb) < 0
      || (CompareValues(rd, kind, va, vb) == 0 && rd.lower(va) == rd.lower(vu) == rd.lower(vb))
  }

  /** A column is orderly when the cells that parse agree, as values, with the cells
      that do not, as text. */
  ghost predicate Orderly(rd: Reading, specs: seq<ColumnSpec>, col: int, rows: set<CellRow>)
  {
    forall a, u, b :: (a in rows && u in rows && b in rows
                       && !CellAt(a, col).isNull && !CellAt(u, col).isNull && !CellAt(b, col).isNull) ==>
      OrderlyValues(rd, KindOf(specs, col), ValueAt(rd, a, col), ValueAt(rd, u, col), ValueAt(rd, b, col))
  }

  /** A column is homogeneous when its non-null cells all parse to its kind, or
      none does. */
  ghost predicate Homogeneous(rd: Reading, specs: seq<ColumnSpec>, col: int, rows: set<CellRow>)
  {
    forall a, b :: a in rows && b in rows && !CellAt(a, col).isNull && !CellAt(b, col).isNull ==>
      (Parses(rd, KindOf(specs, col), ValueAt(rd, a, col)) <==> Parses(rd, KindOf(specs, col), ValueAt(rd, b, col)))
  }

  lemma HomogeneousIsOrderly(rd: Reading, specs: seq<ColumnSpec>, col: int, rows: set<CellRow>)
    requires Homogeneous(rd, specs, col, rows)
    ensures Orderly(rd, specs, col, rows)
  {
  }

  /** A column with one parsing cell, such as the short IDs of a table of which one is
      all digits, is orderly if that cell is nobody's text. */
  lemma OneParsingIsOrderly(rd: Reading, specs: seq<ColumnSpec>, col: int, rows: set<CellRow>, one: CellRow)
    requires one in rows && !CellAt(one, col).isNull
    requires forall r :: r in rows && r != one && !CellAt(r, col).isNull ==>
               !Parses(rd, KindOf(specs, col), ValueAt(rd, r, col)) && TextAt(rd, r, col) != TextAt(rd, one, col)
    ensures Orderly(rd, specs, col, rows)
  {
    forall a, u, b | a in rows && u in rows && b in rows
      && !CellAt(a, col).isNull && !CellAt(u, col).isNull && !CellAt(b, col).isNull
      ensures OrderlyValues(rd, KindOf(specs, col), ValueAt(rd, a, col), ValueAt(rd, u, col), ValueAt(rd, b, col))
    {
      if a == b == one && u != one {
        StringsAntisymmetric(TextAt(rd, one, col), TextAt(rd, u, col));
      }
    }
  }

  lemma {:induction false} ValuesAntisymmetric(rd: Reading, kind: CellKind, va: string, vb: string)
    ensures CompareValues(rd, kind, va, vb) == -CompareValues(rd, kind, vb, va)
  {
    StringsAntisymmetric(rd.lower(va), rd.lower(vb));
  }

  lemma {:induction false} ValuesTransitive(rd: Reading, kind: CellKind, va: string, vb: string, vc: string)
    requires OrderlyValues(rd, kind, va, vb, vc) && OrderlyValues(rd, kind, vb, vc, va) && OrderlyValues(rd, kind, vc, va, vb)
    requires CompareValues(rd, kind, va, vb) <= 0 && CompareValues(rd, kind, vb, vc) <= 0
    ensures CompareValues(rd, kind, va, vc) <= 0
  {
    var ta, tb, tc := rd.lower(va), rd.lower(vb), rd.lower(vc);
    StringsAntisymmetric(ta, tb);
    StringsAntisymmetric(tb, tc);
    StringsAntisymmetric(ta, tc);
    if CompareStrings(ta, tb) <= 0 && CompareStrings(tb, tc) <= 0 {
      StringsTransitive(ta, tb, tc);
    } else if Parses(rd, kind, va) && Parses(rd, kind, vb) && !Parses(rd, kind, vc) {
      ParsedPairFirst(rd, kind, va, vb, vc);
    } else if !Parses(rd, kind, va) && Parses(rd, kind, vb) && Parses(rd, kind, vc) {
      ParsedPairLast(rd, kind, va, vb, vc);
    }
  }

  lemma ParsedPairFirst(rd: Reading, kind: CellKind, va: string, vb: string, vc: string)
    requires Parses(rd, kind, va) && Parses(rd, kind, vb) && !Parses(rd, kind, vc) && OrderlyValues(rd, kind, vb, vc, va)
    requires CompareValues(rd, kind, va, vb) <= 0 && CompareValues(rd, kind, vb, vc) <= 0
    ensures CompareValues(rd, kind, va, vc) <= 0
  {
    ValuesAntisymmetric(rd, kind, va, vb);
    StringsAntisymmetric(rd.lower(va), rd.lower(vc));
  }

  lemma ParsedPairLast(rd: Reading, kind: CellKind, va: string, vb: string, vc: string)
    requires !Parses(rd, kind, va) && Parses(rd, kind, vb) && Parses(rd, kind, vc) && OrderlyValues(rd, kind, vc, va, vb)
    requires CompareValues(rd, kind, va, vb) <= 0 && CompareValues(rd, kind, vb, vc) <= 0
    ensures CompareValues(rd, kind, va, vc) <= 0
  {
    ValuesAntisymmetric(rd, kind, vb, vc);
    StringsAntisymmetric(rd.lower(va), rd.lower(vc));
  }

  lemma {:induction false} EntryAntisymmetric(rd: Reading, specs: seq<ColumnSpec>, entry: SortEntry, a: CellRow, b: CellRow)
    ensures CompareBy(rd, specs, entry, a, b) == -CompareBy(rd, specs, entry, b, a)
  {
    ValuesAntisymmetric(rd, KindOf(specs, entry.col), ValueAt(rd, a, entry.col), ValueAt(rd, b, entry.col));
  }

  lemma {:induction false} EntryTransitive(rd: Reading, specs: seq<ColumnSpec>, entry: SortEntry, rows: set<CellRow>, a: CellRow, b: CellRow, c: CellRow)
    requires a in rows && b in rows && c in rows && Orderly(rd, specs, entry.col, rows)
    requires CompareBy(rd, specs, entry, a, b) <= 0 && CompareBy(rd, specs, entry, b, c) <= 0
    ensures CompareBy(rd, specs, entry, a, c) <= 0
  {
    var kind := KindOf(specs, entry.col);
    var va, vb, vc := ValueAt(rd, a, entry.col), ValueAt(rd, b, entry.col), ValueAt(rd, c, entry.col);
    if !CellAt(a, entry.col).isNull && !CellAt(b, entry.col).isNull && !CellAt(c, entry.col).isNull {
      ValuesAntisymmetric(rd, kind, va, vb);
      ValuesAntisymmetric(rd, kind, vb, vc);
      ValuesAntisymmetric(rd, kind, va, vc);
      if entry.dir == Asc {
        ValuesTransitive(rd, kind, va, vb, vc);
      } else {
        ValuesTransitive(rd, kind, vc, vb, va);
      }
    }
  }

  predicate TransitiveAt(rd: Reading, specs: seq<ColumnSpec>, entry: SortEntry, a: CellRow, b: CellRow, c: CellRow)
  {
    CompareBy(rd, specs, entry, a, b) <= 0 && CompareBy(rd, specs, entry, b, c) <= 0 ==>
      CompareBy(rd, specs, entry, a, c) <= 0
  }

  ghost predicate Transitive(rd: Reading, specs: seq<ColumnSpec>, entry: SortEntry, rows: set<CellRow>)
  {
    forall a, b, c :: a in rows && b in rows && c in rows ==> TransitiveAt(rd, specs, entry, a, b, c)
  }

  /** One sort entry orders the rows consistently, in either direction, if and only if
      its column is orderly. */
  lemma {:induction false} TransitiveExactly(rd: Reading, specs: seq<ColumnSpec>, entry: SortEntry, rows: set<CellRow>)
    ensures Transitive(rd, specs, entry, rows) <==> Orderly(rd, specs, entry.col, rows)
  {
    var col := entry.col;
    if Orderly(rd, specs, col, rows) {
      forall a, b, c | a in rows && b in rows && c in rows
        ensures TransitiveAt(rd, specs, entry, a, b, c)
      {
        if CompareBy(rd, specs, entry, a, b) <= 0 && CompareBy(rd, specs, entry, b, c) <= 0 {
          EntryTransitive(rd, specs, entry, rows, a, b, c);
        }
      }
    }
    if Transitive(rd, specs, entry, rows) {
      forall a, u, b | a in rows && u in rows && b in rows
        && !CellAt(a, col).isNull && !CellAt(u, col).isNull && !CellAt(b, col).isNull
        ensures OrderlyValues(rd, KindOf(specs, col), ValueAt(rd, a, col), ValueAt(rd, u, col), ValueAt(rd, b, col))
      {
        TransitiveOrders(rd, specs, entry, rows, a, u, b);
      }
    }
  }

  lemma TransitiveOrders(rd: Reading, specs: seq<ColumnSpec>, entry: SortEntry, rows: set<CellRow>, a: CellRow, u: CellRow, b: CellRow)
    requires Transitive(rd, specs, entry, rows) && a in rows && u in rows && b in rows
    requires !CellAt(a, entry.col).isNull && !CellAt(u, entry.col).isNull && !CellAt(b, entry.col).isNull
    ensures OrderlyValues(rd, KindOf(specs, entry.col), ValueAt(rd, a, entry.col), ValueAt(rd, u, entry.col), ValueAt(rd, b, entry.col))
  {
    assert TransitiveAt(rd, specs, entry, a, u, b) && TransitiveAt(rd, specs, entry, b, u, a);
    assert TransitiveAt(rd, specs, entry, b, a, u) && TransitiveAt(rd, specs, entry, u, b, a);
    assert TransitiveAt(rd, specs, entry, a, b, u) && TransitiveAt(rd, specs, entry, u, a, b);
    EntryAntisymmetric(rd, specs, entry, a, u);
    EntryAntisymmetric(rd, specs, entry, u, b);
    EntryAntisymmetric(rd, specs, entry, a, b);
    StringsAntisymmetric(TextAt(rd, a, entry.col), TextAt(rd, u, entry.col));
    StringsAntisymmetric(TextAt(rd, u, entry.col), TextAt(rd, b, entry.col));
  }

  ghost predicate AllOrderly(rd: Reading, specs: seq<ColumnSpec>, sorts: seq<SortEntry>, rows: set<CellRow>)
  {
    forall i :: 0 <= i < |sorts| ==> Orderly(rd, specs, sorts[i].col, rows)
  }

  /** Neither row goes before the other. */
  predicate Tied(rd: Reading, specs: seq<ColumnSpec>, sorts: seq<SortEntry>, a: CellRow, b: CellRow)
  {
    !Before(rd, specs, sorts, a, b) && !Before(rd, specs, sorts, b, a)
  }

  /** On orderly columns the comparator is a strict weak order: irreflexive,
      asymmetric, transitive, and "not after" is transitive too. */
  lemma {:induction false} StrictWeakOrder(rd: Reading, specs: seq<ColumnSpec>, sorts: seq<SortEntry>, rows: set<CellRow>,
                                           a: CellRow, b: CellRow, c: CellRow)
    requires a in rows && b in rows && c in rows && AllOrderly(rd, specs, sorts, rows)
    ensures !Before(rd, specs, sorts, a, a)
    ensures !(Before(rd, specs, sorts, a, b) && Before(rd, specs, sorts, b, a))
    ensures Before(rd, specs, sorts, a, b) && Before(rd, specs, sorts, b, c) ==> Before(rd, specs, sorts, a, c)
    ensures !Before(rd, specs, sorts, b, a) && !Before(rd, specs, sorts, c, b) ==> !Before(rd, specs, sorts, c, a)
    decreases |sorts|
  {
    if sorts != [] {
      var e, rest := sorts[0], sorts[1..];
      EntryAntisymmetric(rd, specs, e, a, a);
      EntryAntisymmetric(rd, specs, e, a, b);
      EntryAntisymmetric(rd, specs, e, b, c);
      EntryAntisymmetric(rd, specs, e, a, c);
      assert Orderly(rd, specs, e.col, rows);
      assert AllOrderly(rd, specs, rest, rows) by {
        assert forall i :: 0 <= i < |rest| ==> rest[i] == sorts[i + 1];
      }
      StrictWeakOrder(rd, specs, rest, rows, a, b, c);
      if CompareBy(rd, specs, e, a, b) <= 0 && CompareBy(rd, specs, e, b, c) <= 0 {
        EntryTransitive(rd, specs, e, rows, a, b, c);
        if CompareBy(rd, specs, e, c, a) <= 0 {
          EntryTransitive(rd, specs, e, rows, c, a, b);
          EntryTransitive(rd, specs, e, rows, b, c, a);
        }
      }
    }
  }

  /** An ascending column puts smaller values first: amounts, dates and numbers by
      value, everything else by its lower-case text. */
  lemma {:induction false} AscendingByValue(rd: Reading, specs: seq<ColumnSpec>, col: int, a: CellRow, b: CellRow)
    requires !CellAt(a, col).isNull && !CellAt(b, col).isNull
    ensures var va, vb := ValueAt(rd, a, col), ValueAt(rd, b, col);
            var kind := KindOf(specs, col);
            var before := Before(rd, specs, [SortEntry(col, Asc)], a, b);
            if !Parses(rd, kind, va) || !Parses(rd, kind, vb)
            then before <==> CompareStrings(rd.lower(va), rd.lower(vb)) < 0
            else match kind
              case Money => before <==> rd.money(va) < rd.money(vb)
              case Date | Urgency | Warranty => before <==> rd.date(va).value < rd.date(vb).value
              case Readonly | Drilldown | Ops => before <==> rd.number(va).value < rd.number(vb).value
              case _ => before <==> CompareStrings(rd.lower(va), rd.lower(vb)) < 0
  {
    var va, vb := ValueAt(rd, a, col), ValueAt(rd, b, col);
    StringsAntisymmetric(rd.lower(va), rd.lower(vb));
    assert [SortEntry(col, Asc)][1..] == [];
  }

  /** The first entry that tells two rows apart decides. */
  lemma {:induction false} FirstDecides(rd: Reading, specs: seq<ColumnSpec>, sorts: seq<SortEntry>, k: nat, a: CellRow, b: CellRow)
    requires k < |sorts| && CompareBy(rd, specs, sorts[k], a, b) != 0
    requires forall i :: 0 <= i < k ==> CompareBy(rd, specs, sorts[i], a, b) == 0
    ensures Before(rd, specs, sorts, a, b) <==> Before(rd, specs, [sorts[k]], a, b)
  {
    BeforeOne(rd, specs, sorts[k], a, b);
    if k > 0 {
      FirstDecides(rd, specs, sorts[1..], k - 1, a, b);
    }
  }

  /** The user's entries do not tell the rows apart. */
  ghost predicate TiedByUser(rd: Reading, specs: seq<ColumnSpec>, sorts: seq<SortEntry>, a: CellRow, b: CellRow)
  {
    forall i :: 0 <= i < |sorts| ==> CompareBy(rd, specs, sorts[i], a, b) == 0
  }

  /** Column 0 puts row `a` first: smaller values first, by what they parse to or by their
      lower-case text, and NULL last. */
  ghost predicate FirstByID(rd: Reading, specs: seq<ColumnSpec>, a: CellRow, b: CellRow)
  {
    if CellAt(a, 0).isNull then false
    else if CellAt(b, 0).isNull then true
    else
      var va, vb, kind := ValueAt(rd, a, 0), ValueAt(rd, b, 0), KindOf(specs, 0);
      if !Parses(rd, kind, va) || !Parses(rd, kind, vb) then CompareStrings(rd.lower(va), rd.lower(vb)) < 0
      else match kind
        case Money => rd.money(va) < rd.money(vb)
        case Date | Urgency | Warranty => rd.date(va).value < rd.date(vb).value
        case Readonly | Drilldown | Ops => rd.number(va).value < rd.number(vb).value
        case _ => CompareStrings(rd.lower(va), rd.lower(vb)) < 0
  }

  lemma FirstByColumn(rd: Reading, specs: seq<ColumnSpec>, a: CellRow, b: CellRow)
    ensures Before(rd, specs, [SortEntry(0, Asc)], a, b) <==> FirstByID(rd, specs, a, b)
  {
    if CellAt(a, 0).isNull || CellAt(b, 0).isNull {
      BeforeOne(rd, specs, SortEntry(0, Asc), a, b);
    } else {
      AscendingByValue(rd, specs, 0, a, b);
    }
  }

  /** What the completed stack does: if no entry of the user is on column 0, it follows the
      user's entries, and column 0, ascending, where they tie; else it is the user's. */
  lemma {:induction false} TiebreakerOrders(rd: Reading, specs: seq<ColumnSpec>, sorts: seq<SortEntry>, a: CellRow, b: CellRow)
    ensures var full := WithPKTiebreaker(sorts);
            if EntryIndex(sorts, 0) < |sorts| then full == sorts
            else if TiedByUser(rd, specs, sorts, a, b) then Before(rd, specs, full, a, b) <==> FirstByID(rd, specs, a, b)
            else Before(rd, specs, full, a, b) <==> Before(rd, specs, sorts, a, b)
  {
    if EntryIndex(sorts, 0) == |sorts| {
      BeforeAppended(rd, specs, sorts, SortEntry(0, Asc), a, b);
      FirstByColumn(rd, specs, a, b);
    }
  }

  lemma {:induction false} BeforeAppended(rd: Reading, specs: seq<ColumnSpec>, sorts: seq<SortEntry>, e: SortEntry, a: CellRow, b: CellRow)
    ensures if TiedByUser(rd, specs, sorts, a, b) then Before(rd, specs, sorts + [e], a, b) <==> Before(rd, specs, [e], a, b)
            else Before(rd, specs, sorts + [e], a, b) <==> Before(rd, specs, sorts, a, b)
  {
    if sorts == [] {
      assert sorts + [e] == [e];
    } else {
      assert (sorts + [e])[1..] == sorts[1..] + [e];
      BeforeAppended(rd, specs, sorts[1..], e, a, b);
      assert TiedByUser(rd, specs, sorts, a, b) <==>
             CompareBy(rd, specs, sorts[0], a, b) == 0 && TiedByUser(rd, specs, sorts[1..], a, b);
    }
  }

  /** A descending column reverses the order of its non-null cells. */
  lemma {:induction false} DescendingReverses(rd: Reading, specs: seq<ColumnSpec>, col: int, a: CellRow, b: CellRow)
    requires !CellAt(a, col).isNull && !CellAt(b, col).isNull
    ensures Before(rd, specs, [SortEntry(col, Desc)], a, b) <==> Before(rd, specs, [SortEntry(col, Asc)], b, a)
  {
    ValuesAntisymmetric(rd, KindOf(specs, col), ValueAt(rd, a, col), ValueAt(rd, b, col));
    assert [SortEntry(col, Asc)][1..] == [] && [SortEntry(col, Desc)][1..] == [];
  }

  /** Among rows that the entries before entry `k` do not tell apart, NULL cells of
      entry `k` go last, in both directions. */
  lemma {:induction false} NullsLast(rd: Reading, specs: seq<ColumnSpec>, sorts: seq<SortEntry>, k: nat, a: CellRow, b: CellRow)
    requires k < |sorts| && forall i :: 0 <= i < k ==> CompareBy(rd, specs, sorts[i], a, b) == 0
    requires !CellAt(a, sorts[k].col).isNull && CellAt(b, sorts[k].col).isNull
    ensures Before(rd, specs, sorts, a, b) && !Before(rd, specs, sorts, b, a)
  {
    EntryAntisymmetric(rd, specs, sorts[0], a, b);
    if k > 0 {
      assert forall i :: 0 <= i < |sorts[1..]| ==> sorts[1..][i] == sorts[i + 1];
      NullsLast(rd, specs, sorts[1..], k - 1, a, b);
    }
  }

  /** One entry alone is a strict weak order on the rows if and only if its column is
      orderly. */
  lemma {:induction false} StrictWeakExactly(rd: Reading, specs: seq<ColumnSpec>, entry: SortEntry, rows: set<CellRow>)
    ensures StrictWeak(rd, specs, [entry], rows) <==> Orderly(rd, specs, entry.col, rows)
  {
    TransitiveExactly(rd, specs, entry, rows);
    if Orderly(rd, specs, entry.col, rows) {
      forall a, b, c | a in rows && b in rows && c in rows
        ensures StrictWeakOn(rd, specs, [entry], a, b, c)
      {
        StrictWeakOrder(rd, specs, [entry], rows, a, b, c);
      }
    }
    if StrictWeak(rd, specs, [entry], rows) {
      forall a, b, c | a in rows && b in rows && c in rows
        ensures TransitiveAt(rd, specs, entry, a, b, c)
      {
        assert StrictWeakOn(rd, specs, [entry], a, b, c);
        StrictWeakIsTransitive(rd, specs, entry, a, b, c);
      }
    }
  }

  lemma StrictWeakIsTransitive(rd: Reading, specs: seq<ColumnSpec>, entry: SortEntry, a: CellRow, b: CellRow, c: CellRow)
    requires StrictWeakOn(rd, specs, [entry], a, b, c)
    ensures TransitiveAt(rd, specs, entry, a, b, c)
  {
    BeforeOne(rd, specs, entry, b, a);
    BeforeOne(rd, specs, entry, c, b);
    BeforeOne(rd, specs, entry, c, a);
    EntryAntisymmetric(rd, specs, entry, a, b);
    EntryAntisymmetric(rd, specs, entry, b, c);
    EntryAntisymmetric(rd, specs, entry, a, c);
  }

  lemma BeforeOne(rd: Reading, specs: seq<ColumnSpec>, entry: SortEntry, a: CellRow, b: CellRow)
    ensures Before(rd, specs, [entry], a, b) <==> CompareBy(rd, specs, entry, a, b) < 0
  {
    assert [entry][1..] == [];
  }

  ghost predicate StrictWeak(rd: Reading, specs: seq<ColumnSpec>, sorts: seq<SortEntry>, rows: set<CellRow>)
  {
    forall a, b, c {:trigger StrictWeakOn(rd, specs, sorts, a, b, c)} ::
      a in rows && b in rows && c in rows ==> StrictWeakOn(rd, specs, sorts, a, b, c)
  }

  /** The laws of a strict weak order, at three rows. */
  predicate StrictWeakOn(rd: Reading, specs: seq<ColumnSpec>, sorts: seq<SortEntry>, a: CellRow, b: CellRow, c: CellRow)
  {
    && !Before(rd, specs, sorts, a, a)
    && !(Before(rd, specs, sorts, a, b) && Before(rd, specs, sorts, b, a))
    && (Before(rd, specs, sorts, a, b) && Before(rd, specs, sorts, b, c) ==> Before(rd, specs, sorts, a, c))
    && (!Before(rd, specs, sorts, b, a) && !Before(rd, specs, sorts, c, b) ==> !Before(rd, specs, sorts, c, a))
  }

  /** A column that is not orderly: of three short IDs, two parse and are compared as
      numbers, the third one is compared as text with each of them, and the comparator
      runs in a circle. */
  lemma MixedColumnCycles(rd: Reading, specs: seq<ColumnSpec>)
    requires |specs| == 1 && specs[0].kind == Readonly
    requires rd.trim("9000000") == "9000000" && rd.trim("1E00008") == "1E00008" && rd.trim("5X00000") == "5X00000"
    requires rd.lower("9000000") == "9000000" && rd.lower("1E00008") == "1e00008" && rd.lower("5X00000") == "5x00000"
    requires rd.number("9000000") == Some(9000000.0) && rd.number("1E00008") == Some(100000000.0) && rd.number("5X00000") == None
    ensures var nine, one, five := [ShortID("9000000")], [ShortID("1E00008")], [ShortID("5X00000")];
            var sorts := [SortEntry(0, Asc)];
            && !Orderly(rd, specs, 0, {nine, one, five})
            && Before(rd, specs, sorts, nine, one)
            && Before(rd, specs, sorts, one, five)
            && Before(rd, specs, sorts, five, nine)
  {
    var nine, one, five := [ShortID("9000000")], [ShortID("1E00008")], [ShortID("5X00000")];
    var kind := KindOf(specs, 0);
    assert ValueAt(rd, nine, 0) == "9000000" && ValueAt(rd, one, 0) == "1E00008" && ValueAt(rd, five, 0) == "5X00000";
    FirstDiffers("1e00008", "5x00000");
    FirstDiffers("5x00000", "9000000");
    assert !OrderlyValues(rd, kind, "1E00008", "5X00000", "9000000");
    BeforeOne(rd, specs, SortEntry(0, Asc), nine, one);
    BeforeOne(rd, specs, SortEntry(0, Asc), one, five);
    BeforeOne(rd, specs, SortEntry(0, Asc), five, nine);
  }

  /** A cell of column 0: the end of a record's identifier. */
  function ShortID(id: string): Cell
  {
    Cell(id, Readonly, false)
  }

  lemma FirstDiffers(a: string, b: string)
    requires a != "" && b != "" && a[0] < b[0]
    ensures CompareStrings(a, b) < 0
  {
  }

  // ----- the stable order of a table -----

  ghost function RowSet(rows: seq<CellRow>): set<CellRow>
  {
    set r | r in rows
  }

  /** What the library's sort asks for: a comparator that is a strict weak order on the
      rows. */
  ghost predicate Sortable(rd: Reading, specs: seq<ColumnSpec>, sorts: seq<SortEntry>, rows: seq<CellRow>)
  {
    StrictWeak(rd, specs, sorts, RowSet(rows))
  }

  /** Rows can be sorted by orderly columns, and by a single column only if it is
      orderly. */
  lemma {:induction false} OrderlyIsSortable(rd: Reading, specs: seq<ColumnSpec>, sorts: seq<SortEntry>, rows: seq<CellRow>)
    ensures AllOrderly(rd, specs, sorts, RowSet(rows)) ==> Sortable(rd, specs, sorts, rows)
    ensures |sorts| == 1 ==> (Sortable(rd, specs, sorts, rows) <==> Orderly(rd, specs, sorts[0].col, RowSet(rows)))
  {
    if AllOrderly(rd, specs, sorts, RowSet(rows)) {
      forall a, b, c | a in RowSet(rows) && b in RowSet(rows) && c in RowSet(rows)
        ensures StrictWeakOn(rd, specs, sorts, a, b, c)
      {
        StrictWeakOrder(rd, specs, sorts, RowSet(rows), a, b, c);
      }
    }
    if |sorts| == 1 {
      assert sorts == [sorts[0]];
      StrictWeakExactly(rd, specs, sorts[0], RowSet(rows));
    }
  }

  /** Among rows that the head entry does not tell apart, the comparator of the other
      entries is a strict weak order. */
  ghost predicate StrictWeakWithin(rd: Reading, specs: seq<ColumnSpec>, head: SortEntry, rest: seq<SortEntry>, rows: set<CellRow>)
  {
    forall a, b, c {:trigger StrictWeakOn(rd, specs, rest, a, b, c)} ::
      (a in rows && b in rows && c in rows && AllTied(rd, specs, head, a, b, c)) ==> StrictWeakOn(rd, specs, rest, a, b, c)
  }

  predicate AllTied(rd: Reading, specs: seq<ColumnSpec>, e: SortEntry, a: CellRow, b: CellRow, c: CellRow)
  {
    CompareBy(rd, specs, e, a, b) == 0 && CompareBy(rd, specs, e, b, c) == 0 && CompareBy(rd, specs, e, a, c) == 0
  }

  /** The entry puts a not after b, b not after c, and c before a. */
  predicate Circle(rd: Reading, specs: seq<ColumnSpec>, e: SortEntry, a: CellRow, b: CellRow, c: CellRow)
  {
    CompareBy(rd, specs, e, a, b) <= 0 && CompareBy(rd, specs, e, b, c) <= 0 && CompareBy(rd, specs, e, c, a) < 0
  }

  /** The rest of the stack opens the circle: it turns round a pair of it that the head
      does not tell apart. */
  predicate Opened(rd: Reading, specs: seq<ColumnSpec>, e: SortEntry, rest: seq<SortEntry>, a: CellRow, b: CellRow, c: CellRow)
  {
    || (CompareBy(rd, specs, e, a, b) == 0 && Before(rd, specs, rest, b, a))
    || (CompareBy(rd, specs, e, b, c) == 0 && Before(rd, specs, rest, c, b))
  }

  ghost predicate CirclesOpened(rd: Reading, specs: seq<ColumnSpec>, e: SortEntry, rest: seq<SortEntry>, rows: set<CellRow>)
  {
    forall a, b, c {:trigger Circle(rd, specs, e, a, b, c)} ::
      (a in rows && b in rows && c in rows && Circle(rd, specs, e, a, b, c)) ==> Opened(rd, specs, e, rest, a, b, c)
  }

  /** For a stack of any height and any columns: the comparator is a strict weak order if
      and only if the rest of the stack is one among the rows that the head does not tell
      apart, and opens every circle that the head runs in. */
  lemma {:induction false} StackExactly(rd: Reading, specs: seq<ColumnSpec>, sorts: seq<SortEntry>, rows: set<CellRow>)
    requires sorts != []
    ensures StrictWeak(rd, specs, sorts, rows) <==>
              && StrictWeakWithin(rd, specs, sorts[0], sorts[1..], rows)
              && CirclesOpened(rd, specs, sorts[0], sorts[1..], rows)
  {
    var e, rest := sorts[0], sorts[1..];
    if StrictWeak(rd, specs, sorts, rows) {
      forall a, b, c | a in rows && b in rows && c in rows && AllTied(rd, specs, e, a, b, c)
        ensures StrictWeakOn(rd, specs, rest, a, b, c)
      {
        assert StrictWeakOn(rd, specs, sorts, a, b, c);
        TiedOnHead(rd, specs, sorts, a, b, c);
      }
      forall a, b, c | a in rows && b in rows && c in rows && Circle(rd, specs, e, a, b, c)
        ensures Opened(rd, specs, e, rest, a, b, c)
      {
        assert StrictWeakOn(rd, specs, sorts, a, b, c);
        TurnsExactly(rd, specs, sorts, a, b, c);
      }
    }
    if StrictWeakWithin(rd, specs, e, rest, rows) && CirclesOpened(rd, specs, e, rest, rows) {
      forall a, b, c | a in rows && b in rows && c in rows
        ensures StrictWeakOn(rd, specs, sorts, a, b, c)
      {
        NoTurn(rd, specs, sorts, rows, a, b, c);
        NoTurn(rd, specs, sorts, rows, c, a, b);
        BeforeAsymmetric(rd, specs, sorts, a, a);
        BeforeAsymmetric(rd, specs, sorts, a, b);
      }
    }
  }

  /** Three rows at which "not after" is not transitive. */
  predicate Turns(rd: Reading, specs: seq<ColumnSpec>, sorts: seq<SortEntry>, a: CellRow, b: CellRow, c: CellRow)
  {
    !Before(rd, specs, sorts, b, a) && !Before(rd, specs, sorts, c, b) && Before(rd, specs, sorts, c, a)
  }

  lemma TurnsExactly(rd: Reading, specs: seq<ColumnSpec>, sorts: seq<SortEntry>, a: CellRow, b: CellRow, c: CellRow)
    requires sorts != [] && Circle(rd, specs, sorts[0], a, b, c)
    ensures Turns(rd, specs, sorts, a, b, c) <==> !Opened(rd, specs, sorts[0], sorts[1..], a, b, c)
  {
    EntryAntisymmetric(rd, specs, sorts[0], a, b);
    EntryAntisymmetric(rd, specs, sorts[0], b, c);
  }

  /** Rows tied on the head are compared by the rest. */
  lemma TiedOnHead(rd: Reading, specs: seq<ColumnSpec>, sorts: seq<SortEntry>, a: CellRow, b: CellRow, c: CellRow)
    requires sorts != [] && AllTied(rd, specs, sorts[0], a, b, c)
    ensures StrictWeakOn(rd, specs, sorts, a, b, c) <==> StrictWeakOn(rd, specs, sorts[1..], a, b, c)
  {
    var e := sorts[0];
    EntryAntisymmetric(rd, specs, e, a, a);
    EntryAntisymmetric(rd, specs, e, a, b);
    EntryAntisymmetric(rd, specs, e, b, c);
    EntryAntisymmetric(rd, specs, e, a, c);
  }

  lemma NoTurn(rd: Reading, specs: seq<ColumnSpec>, sorts: seq<SortEntry>, rows: set<CellRow>, a: CellRow, b: CellRow, c: CellRow)
    requires sorts != [] && a in rows && b in rows && c in rows
    requires StrictWeakWithin(rd, specs, sorts[0], sorts[1..], rows) && CirclesOpened(rd, specs, sorts[0], sorts[1..], rows)
    ensures !Turns(rd, specs, sorts, a, b, c)
  {
    var e, rest := sorts[0], sorts[1..];
    if AllTied(rd, specs, e, a, b, c) {
      assert StrictWeakOn(rd, specs, rest, a, b, c);
      TiedOnHead(rd, specs, sorts, a, b, c);
    } else if Turns(rd, specs, sorts, a, b, c) {
      TurnCircles(rd, specs, sorts, a, b, c);
    }
  }

  /** A turn that the head has a part in goes round a circle of the head that stays closed. */
  lemma TurnCircles(rd: Reading, specs: seq<ColumnSpec>, sorts: seq<SortEntry>, a: CellRow, b: CellRow, c: CellRow)
    requires sorts != [] && Turns(rd, specs, sorts, a, b, c) && !AllTied(rd, specs, sorts[0], a, b, c)
    ensures var e, rest := sorts[0], sorts[1..];
            || (Circle(rd, specs, e, a, b, c) && !Opened(rd, specs, e, rest, a, b, c))
            || (Circle(rd, specs, e, b, c, a) && !Opened(rd, specs, e, rest, b, c, a))
            || (Circle(rd, specs, e, c, a, b) && !Opened(rd, specs, e, rest, c, a, b))
  {
    var e, rest := sorts[0], sorts[1..];
    EntryAntisymmetric(rd, specs, e, a, b);
    EntryAntisymmetric(rd, specs, e, b, c);
    EntryAntisymmetric(rd, specs, e, a, c);
    BeforeAsymmetric(rd, specs, rest, a, c);
  }

  /** An orderly column runs in no circle, so below an orderly head only the ties count. */
  lemma {:induction false} OrderlyHasNoCircle(rd: Reading, specs: seq<ColumnSpec>, e: SortEntry, rows: set<CellRow>)
    ensures Orderly(rd, specs, e.col, rows) <==>
            forall a, b, c :: a in rows && b in rows && c in rows ==> !Circle(rd, specs, e, a, b, c)
  {
    TransitiveExactly(rd, specs, e, rows);
    forall a, b, c
      ensures TransitiveAt(rd, specs, e, a, b, c) <==> !Circle(rd, specs, e, a, b, c)
    {
      EntryAntisymmetric(rd, specs, e, a, c);
    }
  }

  /** Whatever the columns, no two rows precede each other. */
  lemma {:induction false} BeforeAsymmetric(rd: Reading, specs: seq<ColumnSpec>, sorts: seq<SortEntry>, a: CellRow, b: CellRow)
    ensures !(Before(rd, specs, sorts, a, b) && Before(rd, specs, sorts, b, a))
    decreases |sorts|
  {
    if sorts != [] {
      EntryAntisymmetric(rd, specs, sorts[0], a, b);
      BeforeAsymmetric(rd, specs, sorts[1..], a, b);
    }
  }

  /** Row number `x` precedes row number `y`: the comparator says so, or they are
      tied and `x` was loaded first. */
  predicate Precedes(rd: Reading, specs: seq<ColumnSpec>, sorts: seq<SortEntry>, rows: seq<CellRow>, x: nat, y: nat)
    requires x < |rows| && y < |rows|
  {
    Before(rd, specs, sorts, rows[x], rows[y]) || (Tied(rd, specs, sorts, rows[x], rows[y]) && x < y)
  }

  /** `perm` lists row numbers in stable order. */
  ghost predicate InOrder(rd: Reading, specs: seq<ColumnSpec>, sorts: seq<SortEntry>, rows: seq<CellRow>, perm: seq<nat>)
  {
    && (forall i :: 0 <= i < |perm| ==> perm[i] < |rows|)
    && forall i, j :: 0 <= i < j < |perm| ==> Precedes(rd, specs, sorts, rows, perm[i], perm[j])
  }

  /** `perm` is the stable order of all the rows. */
  ghost predicate StableOrder(rd: Reading, specs: seq<ColumnSpec>, sorts: seq<SortEntry>, rows: seq<CellRow>, perm: seq<nat>)
  {
    && InOrder(rd, specs, sorts, rows, perm)
    && |perm| == |rows|
    && forall x: nat :: x < |rows| ==> x in perm
  }

  lemma {:induction false} PrecedesAsymmetric(rd: Reading, specs: seq<ColumnSpec>, sorts: seq<SortEntry>, rows: seq<CellRow>, x: nat, y: nat)
    requires x < |rows| && y < |rows|
    ensures !(Precedes(rd, specs, sorts, rows, x, y) && Precedes(rd, specs, sorts, rows, y, x))
  {
    BeforeAsymmetric(rd, specs, sorts, rows[x], rows[y]);
  }

  /** In the displayed order: of two rows that the entries before entry `k` do not tell
      apart, a later one is NULL in its column if an earlier one is. */
  lemma NullsShownLast(rd: Reading, specs: seq<ColumnSpec>, sorts: seq<SortEntry>, rows: seq<CellRow>, perm: seq<nat>,
                       k: nat, i: nat, j: nat)
    requires InOrder(rd, specs, sorts, rows, perm) && i < j < |perm| && k < |sorts|
    requires forall m :: 0 <= m < k ==> CompareBy(rd, specs, sorts[m], rows[perm[i]], rows[perm[j]]) == 0
    requires CellAt(rows[perm[i]], sorts[k].col).isNull
    ensures CellAt(rows[perm[j]], sorts[k].col).isNull
  {
    var a, b := rows[perm[i]], rows[perm[j]];
    assert Precedes(rd, specs, sorts, rows, perm[i], perm[j]);
    if !CellAt(b, sorts[k].col).isNull {
      forall m | 0 <= m < k
        ensures CompareBy(rd, specs, sorts[m], b, a) == 0
      {
        EntryAntisymmetric(rd, specs, sorts[m], a, b);
      }
      NullsLast(rd, specs, sorts, k, b, a);
    }
  }

  /** A row that is, or precedes, one the new row does not precede, precedes the new row. */
  lemma StaysBefore(rd: Reading, specs: seq<ColumnSpec>, sorts: seq<SortEntry>, rows: seq<CellRow>, x: nat, y: nat, key: nat)
    requires Sortable(rd, specs, sorts, rows) && x < key && y < key < |rows|
    requires x == y || Precedes(rd, specs, sorts, rows, x, y)
    requires !Before(rd, specs, sorts, rows[key], rows[y])
    ensures Precedes(rd, specs, sorts, rows, x, key)
  {
    BeforeAsymmetric(rd, specs, sorts, rows[x], rows[y]);
    assert StrictWeakOn(rd, specs, sorts, rows[x], rows[y], rows[key]);
  }

  /** Putting a later row where the comparator wants it keeps the order. */
  lemma {:induction false} InsertKeepsOrder(rd: Reading, specs: seq<ColumnSpec>, sorts: seq<SortEntry>, rows: seq<CellRow>,
                                            perm: seq<nat>, j: nat, key: nat)
    requires Sortable(rd, specs, sorts, rows) && InOrder(rd, specs, sorts, rows, perm)
    requires j <= |perm| && key < |rows|
    requires forall k :: 0 <= k < |perm| ==> perm[k] < key
    requires forall k :: j <= k < |perm| ==> Before(rd, specs, sorts, rows[key], rows[perm[k]])
    requires j > 0 ==> !Before(rd, specs, sorts, rows[key], rows[perm[j - 1]])
    ensures InOrder(rd, specs, sorts, rows, perm[..j] + [key] + perm[j..])
  {
    forall k | 0 <= k < j
      ensures Precedes(rd, specs, sorts, rows, perm[k], key)
    {
      assert k < j - 1 ==> Precedes(rd, specs, sorts, rows, perm[k], perm[j - 1]);
      StaysBefore(rd, specs, sorts, rows, perm[k], perm[j - 1], key);
    }
    InsertedInOrder(rd, specs, sorts, rows, perm, j, key);
  }

  lemma InsertedInOrder(rd: Reading, specs: seq<ColumnSpec>, sorts: seq<SortEntry>, rows: seq<CellRow>,
                        perm: seq<nat>, j: nat, key: nat)
    requires InOrder(rd, specs, sorts, rows, perm) && j <= |perm| && key < |rows|
    requires forall k :: 0 <= k < j ==> Precedes(rd, specs, sorts, rows, perm[k], key)
    requires forall k :: j <= k < |perm| ==> Precedes(rd, specs, sorts, rows, key, perm[k])
    ensures InOrder(rd, specs, sorts, rows, perm[..j] + [key] + perm[j..])
  {
    var next := perm[..j] + [key] + perm[j..];
    forall a, b | 0 <= a < b < |next|
      ensures Precedes(rd, specs, sorts, rows, next[a], next[b])
    {
      assert next[a] == if a < j then perm[a] else if a == j then key else perm[a - 1];
      assert next[b] == if b < j then perm[b] else if b == j then key else perm[b - 1];
    }
  }

  /** Where the comparator wants a later row: after the last row it does not precede. */
  method Slot(rd: Reading, specs: seq<ColumnSpec>, sorts: seq<SortEntry>, rows: seq<CellRow>, sorted: seq<nat>, key: nat)
    returns (j: nat)
    requires key < |rows| && forall k :: 0 <= k < |sorted| ==> sorted[k] < key
    ensures j <= |sorted|
    ensures Sortable(rd, specs, sorts, rows) && InOrder(rd, specs, sorts, rows, sorted) ==>
              InOrder(rd, specs, sorts, rows, sorted[..j] + [key] + sorted[j..])
  {
    j := |sorted|;
    while j > 0
      invariant j <= |sorted|
      invariant forall k :: j <= k < |sorted| ==> Before(rd, specs, sorts, rows[key], rows[sorted[k]])
    {
      var less := Less(rd, specs, sorts, rows[key], rows[sorted[j - 1]]);
      if !less {
        break;
      }
      j := j - 1;
    }
    if Sortable(rd, specs, sorts, rows) && InOrder(rd, specs, sorts, rows, sorted) {
      InsertKeepsOrder(rd, specs, sorts, rows, sorted, j, key);
    }
  }

  /** Moves the number at position `i` to position `j` and those between up. */
  method Insert(indices: array<nat>, j: nat, i: nat)
    requires j <= i < indices.Length
    modifies indices
    ensures forall k :: i < k < indices.Length ==> indices[k] == old(indices[k])
    ensures indices[..i + 1] == old(indices[..j]) + [old(indices[i])] + old(indices[j..i])
  {
    ghost var was := indices[..];
    var key := indices[i];
    var hole := i;
    while hole > j
      invariant j <= hole <= i
      invariant forall k :: 0 <= k < hole ==> indices[k] == was[k]
      invariant forall k :: hole < k <= i ==> indices[k] == was[k - 1]
      invariant forall k :: i < k < indices.Length ==> indices[k] == was[k]
    {
      indices[hole] := indices[hole - 1];
      hole := hole - 1;
    }
    indices[j] := key;
    assert indices[..i + 1] == was[..j] + [key] + was[j..i];
  }

  /** `perm` lists the numbers below `n`, each once. */
  ghost predicate Rearranges(perm: seq<nat>, n: nat)
  {
    && |perm| == n
    && (forall k :: 0 <= k < n ==> perm[k] < n)
    && forall x: nat :: x < n ==> x in perm
  }

  /** The stable sort that `applySorts` asks for, in place. Whatever the comparator does,
      no row number is lost. */
  method SliceStable(rd: Reading, specs: seq<ColumnSpec>, sorts: seq<SortEntry>, rows: seq<CellRow>, indices: array<nat>)
    requires indices.Length == |rows| && forall i :: 0 <= i < |rows| ==> indices[i] == i
    modifies indices
    ensures Rearranges(indices[..], |rows|)
    ensures Sortable(rd, specs, sorts, rows) ==> StableOrder(rd, specs, sorts, rows, indices[..])
  {
    var i := 0;
    while i < indices.Length
      invariant i <= indices.Length
      invariant Sortable(rd, specs, sorts, rows) ==> InOrder(rd, specs, sorts, rows, indices[..i])
      invariant forall k :: 0 <= k < i ==> indices[k] < i
      invariant forall x: nat :: x < i ==> x in indices[..i]
      invariant forall k :: i <= k < indices.Length ==> indices[k] == k
    {
      ghost var before := indices[..i];
      var j := Slot(rd, specs, sorts, rows, indices[..i], i);
      Insert(indices, j, i);
      assert indices[..i + 1] == before[..j] + [i] + before[j..];
      InsertedNumbers(before, j, i, indices[..i + 1]);
      i := i + 1;
    }
    assert indices[..indices.Length] == indices[..];
  }

  lemma InsertedNumbers(before: seq<nat>, j: nat, i: nat, after: seq<nat>)
    requires |before| == i && j <= i && after == before[..j] + [i] + before[j..]
    requires forall k :: 0 <= k < i ==> before[k] < i
    requires forall x: nat :: x < i ==> x in before
    ensures forall k :: 0 <= k < |after| ==> after[k] < i + 1
    ensures forall x: nat :: x < i + 1 ==> x in after
  {
    forall x: nat | x < i + 1
      ensures x in after
    {
      if x < i {
        assert x in before;
        var k :| 0 <= k < |before| && before[k] == x;
        assert after[if k < j then k else k + 1] == x;
      } else {
        assert after[j] == x;
      }
    }
  }

  ghost predicate Ordered<T(!new)>(less: (T, T) -> bool, s: seq<T>)
  {
    forall i, j :: 0 <= i < j < |s| ==> less(s[i], s[j])
  }

  /** A listing of given elements in an asymmetric order is unique. */
  lemma {:induction false} OrderUnique<T(!new)>(less: (T, T) -> bool, p: seq<T>, q: seq<T>)
    requires Ordered(less, p) && Ordered(less, q)
    requires forall x, y :: !(less(x, y) && less(y, x))
    requires forall x :: x in p <==> x in q
    ensures p == q
    decreases |p|
  {
    assert p != [] ==> p[0] in q;
    assert q != [] ==> q[0] in p;
    if p != [] && q != [] {
      var i :| 0 <= i < |q| && q[i] == p[0];
      var j :| 0 <= j < |p| && p[j] == q[0];
      assert p[0] == q[0];
      forall x
        ensures x in p[1..] <==> x in q[1..]
      {
        TailMembers(less, p, x);
        TailMembers(less, q, x);
      }
      OrderUnique(less, p[1..], q[1..]);
      assert p == [p[0]] + p[1..] && q == [q[0]] + q[1..];
    }
  }

  lemma {:induction false} TailMembers<T(!new)>(less: (T, T) -> bool, p: seq<T>, x: T)
    requires Ordered(less, p) && p != []
    requires forall x, y :: !(less(x, y) && less(y, x))
    ensures x in p[1..] <==> x in p && x != p[0]
  {
    if x in p[1..] {
      var k :| 0 <= k < |p[1..]| && p[1..][k] == x;
      assert p[k + 1] == x;
      assert less(p[0], p[k + 1]);
    }
    if x in p && x != p[0] {
      var k :| 0 <= k < |p| && p[k] == x;
      assert p[1..][k - 1] == x;
    }
  }

  /** The order of row numbers, as a relation. */
  ghost function RowOrder(rd: Reading, specs: seq<ColumnSpec>, sorts: seq<SortEntry>, rows: seq<CellRow>): (less: (nat, nat) -> bool)
    ensures forall x: nat, y: nat :: !(less(x, y) && less(y, x))
    ensures forall x: nat, y: nat :: less(x, y) <==> x < |rows| && y < |rows| && Precedes(rd, specs, sorts, rows, x, y)
  {
    var less := (x: nat, y: nat) => x < |rows| && y < |rows| && Precedes(rd, specs, sorts, rows, x, y);
    assert forall x: nat, y: nat :: !(less(x, y) && less(y, x)) by {
      forall x: nat, y: nat | x < |rows| && y < |rows|
        ensures !(less(x, y) && less(y, x))
      {
        PrecedesAsymmetric(rd, specs, sorts, rows, x, y);
      }
    }
    less
  }

  /** There is only one stable order: any sort that gives one gives the same. */
  lemma {:induction false} StableOrderUnique(rd: Reading, specs: seq<ColumnSpec>, sorts: seq<SortEntry>, rows: seq<CellRow>,
                                             p: seq<nat>, q: seq<nat>)
    requires InOrder(rd, specs, sorts, rows, p) && InOrder(rd, specs, sorts, rows, q)
    requires forall x :: x in p <==> x in q
    ensures p == q
  {
    OrderUnique<nat>(RowOrder(rd, specs, sorts, rows), p, q);
  }

  // ----- reordering the tab -----

  function Permuted<T>(s: seq<T>, perm: seq<nat>): (t: seq<T>)
    requires forall i :: 0 <= i < |perm| ==> perm[i] < |s|
    ensures |t| == |perm| && forall i :: 0 <= i < |perm| ==> t[i] == s[perm[i]]
  {
    seq(|perm|, i requires 0 <= i < |perm| => s[perm[i]])
  }

  /** The three arrays that describe the displayed rows have one length. */
  ghost predicate Aligned(tab: Tab)
    reads tab
  {
    |tab.CellRows| == |tab.Rows| == |tab.TableRows|
  }

  /** `reorderTab`: cells, metadata and widget rows move by one permutation. */
  method ReorderTab(tab: Tab, indices: seq<nat>)
    requires Aligned(tab) && forall i :: 0 <= i < |indices| ==> indices[i] < |tab.CellRows|
    modifies tab`CellRows, tab`Rows, tab`TableRows
    ensures tab.CellRows == Permuted(old(tab.CellRows), indices)
    ensures tab.Rows == Permuted(old(tab.Rows), indices)
    ensures tab.TableRows == Permuted(old(tab.TableRows), indices)
  {
    var cells, meta, rows := [], [], [];
    for i := 0 to |indices|
      invariant |cells| == |meta| == |rows| == i
      invariant forall k :: 0 <= k < i ==> cells[k] == tab.CellRows[indices[k]]
      invariant forall k :: 0 <= k < i ==> meta[k] == tab.Rows[indices[k]]
      invariant forall k :: 0 <= k < i ==> rows[k] == tab.TableRows[indices[k]]
    {
      cells := cells + [tab.CellRows[indices[i]]];
      meta := meta + [tab.Rows[indices[i]]];
      rows := rows + [tab.TableRows[indices[i]]];
    }
    tab.CellRows, tab.Rows, tab.TableRows := cells, meta, rows;
  }

  /** The tab shows the given rows, moved by one permutation. */
  ghost predicate ShowsMoved(tab: Tab, cells: seq<CellRow>, meta: seq<RowMeta>, rows: seq<TableRow>, perm: seq<nat>)
    reads tab
    requires |cells| == |meta| == |rows|
  {
    && Rearranges(perm, |cells|)
    && tab.CellRows == Permuted(cells, perm)
    && tab.Rows == Permuted(meta, perm)
    && tab.TableRows == Permuted(rows, perm)
  }

  /** `applySorts`. */
  method ApplySorts(rd: Reading, tab: Tab) returns (ghost perm: seq<nat>)
    requires Aligned(tab)
    modifies tab`CellRows, tab`Rows, tab`TableRows
    ensures ShowsMoved(tab, old(tab.CellRows), old(tab.Rows), old(tab.TableRows), perm)
    ensures var sorts := WithPKTiebreaker(tab.Sorts);
            Sortable(rd, tab.Specs, sorts, old(tab.CellRows)) ==> StableOrder(rd, tab.Specs, sorts, old(tab.CellRows), perm)
  {
    if |tab.CellRows| <= 1 {
      perm := seq(|tab.CellRows|, i => i);
      assert |perm| == 1 ==> perm[0] == 0;
      return;
    }
    var sorts := WithPKTiebreaker(tab.Sorts);
    var indices := new nat[|tab.CellRows|](i => i);
    SliceStable(rd, tab.Specs, sorts, tab.CellRows, indices);
    perm := indices[..];
    ReorderTab(tab, indices[..]);
  }
}
