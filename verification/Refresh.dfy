/**
 `refreshTable`: the row filter followed by the sort, and what the two of them
 promise together.
 */
module Refresh {
  import opened Schema
  import opened Pins
  import opened Sort

  /** One row of a tab: its cells, its metadata and its widget row. */
  datatype Record = Record(cells: CellRow, meta: RowMeta, row: TableRow)

  ghost function Zip(cells: seq<CellRow>, meta: seq<RowMeta>, rows: seq<TableRow>): (z: seq<Record>)
    requires |cells| == |meta| == |rows|
    ensures |z| == |cells|
    ensures forall i :: 0 <= i < |z| ==> z[i] == Record(cells[i], meta[i], rows[i])
  {
    seq(|cells|, i requires 0 <= i < |cells| => Record(cells[i], meta[i], rows[i]))
  }

  ghost function CellsOf(recs: seq<Record>): (c: seq<CellRow>)
    ensures |c| == |recs| && forall i :: 0 <= i < |c| ==> c[i] == recs[i].cells
  {
    seq(|recs|, i requires 0 <= i < |recs| => recs[i].cells)
  }

  datatype Filter = Filter(pins: seq<Pin>, active: bool, inverted: bool, magMode: bool)

  ghost function FilterOf(tab: Tab, magMode: bool): Filter
    reads tab
  {
    Filter(tab.Pins, tab.FilterActive, tab.FilterInverted, magMode)
  }

  ghost predicate Keeps(d: Display, f: Filter, r: Record)
  {
    Matches(d, r.cells, f.pins, f.magMode) != f.inverted
  }

  ghost function Flags(d: Display, f: Filter, recs: seq<Record>): (keep: seq<bool>)
    ensures |keep| == |recs| && forall i :: 0 <= i < |recs| ==> keep[i] == Keeps(d, f, recs[i])
  {
    seq(|recs|, i requires 0 <= i < |recs| => Keeps(d, f, recs[i]))
  }

  ghost function Dim(d: Display, f: Filter, r: Record): Record
  {
    if Keeps(d, f, r) then r else r.(meta := r.meta.(dimmed := true))
  }

  /** What the filter does to a list of rows. */
  ghost function Filtered(d: Display, f: Filter, recs: seq<Record>): (s: seq<Record>)
  {
    if f.pins == [] then recs
    else if f.active then Select(recs, Flags(d, f, recs))
    else seq(|recs|, i requires 0 <= i < |recs| => Dim(d, f, recs[i]))
  }

  /** `shown` is `recs` in the stable order of the sort stack. */
  ghost predicate Sorted(rd: Reading, specs: seq<ColumnSpec>, sorts: seq<SortEntry>, recs: seq<Record>, shown: seq<Record>)
  {
    exists perm :: StableOrder(rd, specs, WithPKTiebreaker(sorts), CellsOf(recs), perm) && shown == Permuted(recs, perm)
  }

  /** `shown` is `recs` in some order. */
  ghost predicate Moved(recs: seq<Record>, shown: seq<Record>)
  {
    exists perm :: Rearranges(perm, |recs|) && shown == Permuted(recs, perm)
  }

  ghost predicate CanSort(rd: Reading, specs: seq<ColumnSpec>, sorts: seq<SortEntry>, recs: seq<Record>)
  {
    Sortable(rd, specs, WithPKTiebreaker(sorts), CellsOf(recs))
  }

  // ----- selections -----

  lemma {:induction false} SelectMembers<T>(s: seq<T>, keep: seq<bool>, x: T)
    requires |keep| == |s|
    ensures x in Select(s, keep) <==> exists i :: 0 <= i < |s| && s[i] == x && keep[i]
  {
    if s != [] {
      var n := |s| - 1;
      SelectMembers(s[..n], keep[..n], x);
      if exists i :: 0 <= i < |s| && s[i] == x && keep[i] {
        var i :| 0 <= i < |s| && s[i] == x && keep[i];
        assert i < n ==> s[..n][i] == x && keep[..n][i];
      }
      if x in Select(s[..n], keep[..n]) {
        var i :| 0 <= i < n && s[..n][i] == x && keep[..n][i];
        assert s[i] == x && keep[i];
      }
    }
  }

  lemma {:induction false} SelectOrdered<T(!new)>(less: (T, T) -> bool, s: seq<T>, keep: seq<bool>)
    requires |keep| == |s| && Ordered(less, s)
    ensures Ordered(less, Select(s, keep))
  {
    if s != [] {
      var n := |s| - 1;
      SelectOrdered(less, s[..n], keep[..n]);
      var sel := Select(s[..n], keep[..n]);
      forall i | 0 <= i < |sel|
        ensures less(sel[i], s[n])
      {
        SelectMembers(s[..n], keep[..n], sel[i]);
      }
    }
  }

  /** The row numbers whose flag is set. */
  ghost function Picked(perm: seq<nat>, keep: seq<bool>): (p: seq<nat>)
    requires |keep| == |perm|
  {
    Select<nat>(perm, keep)
  }

  lemma {:induction false} PickedBelow(perm: seq<nat>, keep: seq<bool>, n: nat)
    requires |keep| == |perm| && forall i :: 0 <= i < |perm| ==> perm[i] < n
    ensures forall i :: 0 <= i < |Picked(perm, keep)| ==> Picked(perm, keep)[i] < n
  {
    forall i | 0 <= i < |Picked(perm, keep)|
      ensures Picked(perm, keep)[i] < n
    {
      SelectMembers<nat>(perm, keep, Picked(perm, keep)[i]);
    }
  }

  /** Selecting from a permuted list is permuting by the selected positions. */
  lemma {:induction false} SelectPermuted<T>(s: seq<T>, perm: seq<nat>, keep: seq<bool>)
    requires |keep| == |perm| && forall i :: 0 <= i < |perm| ==> perm[i] < |s|
    ensures forall i :: 0 <= i < |Picked(perm, keep)| ==> Picked(perm, keep)[i] < |s|
    ensures Select(Permuted(s, perm), keep) == Permuted(s, Picked(perm, keep))
  {
    PickedBelow(perm, keep, |s|);
    if perm != [] {
      var n := |perm| - 1;
      SelectPermuted(s, perm[..n], keep[..n]);
      assert Permuted(s, perm)[..n] == Permuted(s, perm[..n]);
      assert Picked(perm, keep) == Picked(perm[..n], keep[..n]) + if keep[n] then [perm[n]] else [];
    }
  }

  function Identity(n: nat): (p: seq<nat>)
    ensures |p| == n && forall i :: 0 <= i < n ==> p[i] == i
  {
    seq(n, i => i)
  }

  lemma PermutedIdentity<T>(s: seq<T>)
    ensures Permuted(s, Identity(|s|)) == s
  {
  }

  lemma PermutedTwice<T>(s: seq<T>, p: seq<nat>, q: seq<nat>)
    requires forall i :: 0 <= i < |p| ==> p[i] < |s|
    requires forall i :: 0 <= i < |q| ==> q[i] < |p|
    ensures Permuted(Permuted(s, p), q) == Permuted(s, Permuted(p, q))
  {
  }

  // ----- the refresh -----

  /** `refreshTable`, up to the layout of the columns. */
  method RefreshTable(d: Display, rd: Reading, tab: Tab, magMode: bool)
    requires Loaded(tab)
    modifies tab`CellRows, tab`Rows, tab`TableRows
    ensures Aligned(tab)
    ensures var loaded := Zip(tab.FullCellRows, tab.FullMeta, tab.FullRows);
            var kept, shown := Filtered(d, FilterOf(tab, magMode), loaded), Zip(tab.CellRows, tab.Rows, tab.TableRows);
            && Moved(kept, shown)
            && (CanSort(rd, tab.Specs, tab.Sorts, kept) ==> Sorted(rd, tab.Specs, tab.Sorts, kept, shown))
            && (CanSort(rd, tab.Specs, tab.Sorts, loaded) ==> CanSort(rd, tab.Specs, tab.Sorts, kept))
  {
    FilterRecords(d, tab, magMode);
    ghost var cells, meta, rows := tab.CellRows, tab.Rows, tab.TableRows;
    ghost var loaded := Zip(tab.FullCellRows, tab.FullMeta, tab.FullRows);
    if CanSort(rd, tab.Specs, tab.Sorts, loaded) {
      FilteredCanSort(d, rd, tab.Specs, tab.Sorts, FilterOf(tab, magMode), loaded);
    }
    assert CellsOf(Zip(cells, meta, rows)) == cells;
    ghost var perm := ApplySorts(rd, tab);
    PermutedZip(cells, meta, rows, perm);
  }

  method FilterRecords(d: Display, tab: Tab, magMode: bool)
    requires Loaded(tab)
    modifies tab`CellRows, tab`Rows, tab`TableRows
    ensures Aligned(tab)
    ensures Zip(tab.CellRows, tab.Rows, tab.TableRows)
         == Filtered(d, FilterOf(tab, magMode), Zip(tab.FullCellRows, tab.FullMeta, tab.FullRows))
  {
    ApplyRowFilter(d, tab, magMode);
    FilterZips(d, tab, magMode);
  }

  lemma PermutedZip(cells: seq<CellRow>, meta: seq<RowMeta>, rows: seq<TableRow>, perm: seq<nat>)
    requires |cells| == |meta| == |rows| && forall i :: 0 <= i < |perm| ==> perm[i] < |cells|
    ensures Zip(Permuted(cells, perm), Permuted(meta, perm), Permuted(rows, perm)) == Permuted(Zip(cells, meta, rows), perm)
  {
  }

  /** Filtering the three arrays in step is filtering the rows. */
  lemma FilterZips(d: Display, tab: Tab, magMode: bool)
    requires Loaded(tab)
    requires Displays(d, tab, magMode)
    ensures Aligned(tab)
    ensures Zip(tab.CellRows, tab.Rows, tab.TableRows)
         == Filtered(d, FilterOf(tab, magMode), Zip(tab.FullCellRows, tab.FullMeta, tab.FullRows))
  {
    var full := Zip(tab.FullCellRows, tab.FullMeta, tab.FullRows);
    var keep := KeepFlags(d, tab.FullCellRows, tab.Pins, tab.FilterInverted, magMode);
    assert Flags(d, FilterOf(tab, magMode), full) == keep;
    if tab.Pins != [] && tab.FilterActive {
      SelectZips(tab.FullCellRows, tab.FullMeta, tab.FullRows, keep);
    }
  }

  lemma {:induction false} SelectZips(cells: seq<CellRow>, meta: seq<RowMeta>, rows: seq<TableRow>, keep: seq<bool>)
    requires |cells| == |meta| == |rows| == |keep|
    ensures |Select(cells, keep)| == |Select(meta, keep)| == |Select(rows, keep)|
    ensures Zip(Select(cells, keep), Select(meta, keep), Select(rows, keep)) == Select(Zip(cells, meta, rows), keep)
  {
    if cells != [] {
      var n := |cells| - 1;
      SelectZips(cells[..n], meta[..n], rows[..n], keep[..n]);
      assert Zip(cells, meta, rows)[..n] == Zip(cells[..n], meta[..n], rows[..n]);
    }
  }

  lemma {:induction false} FilteredCanSort(d: Display, rd: Reading, specs: seq<ColumnSpec>, sorts: seq<SortEntry>, f: Filter, recs: seq<Record>)
    requires CanSort(rd, specs, sorts, recs)
    ensures CanSort(rd, specs, sorts, Filtered(d, f, recs))
  {
    var cells := CellsOf(Filtered(d, f, recs));
    forall c | c in cells
      ensures c in CellsOf(recs)
    {
      var i :| 0 <= i < |cells| && cells[i] == c;
      if f.pins != [] && f.active {
        SelectMembers(recs, Flags(d, f, recs), Filtered(d, f, recs)[i]);
        var k :| 0 <= k < |recs| && recs[k] == Filtered(d, f, recs)[i];
        assert CellsOf(recs)[k] == c;
      } else {
        assert CellsOf(recs)[i] == c;
      }
    }
    assert RowSet(cells) <= RowSet(CellsOf(recs));
  }

  // ----- laws of the refresh -----

  /** The display is determined by the loaded rows, the filter and the sort stack:
      refreshing again changes nothing. */
  lemma {:induction false} RefreshIdempotent(rd: Reading, specs: seq<ColumnSpec>, sorts: seq<SortEntry>, recs: seq<Record>,
                                             a: seq<Record>, b: seq<Record>)
    requires Sorted(rd, specs, sorts, recs, a) && Sorted(rd, specs, sorts, recs, b)
    ensures a == b
  {
    var p :| StableOrder(rd, specs, WithPKTiebreaker(sorts), CellsOf(recs), p) && a == Permuted(recs, p);
    var q :| StableOrder(rd, specs, WithPKTiebreaker(sorts), CellsOf(recs), q) && b == Permuted(recs, q);
    StableOrderUnique(rd, specs, WithPKTiebreaker(sorts), CellsOf(recs), p, q);
  }

  /** Pinning and unpinning a value restores the displayed rows exactly, order,
      dimming and all. */
  lemma {:induction false} PinUnpinRestores(d: Display, f: Filter, col: nat, key: string, recs: seq<Record>)
    requires PinsOk(f.pins)
    ensures Filtered(d, f.(pins := Toggled(Toggled(f.pins, col, key), col, key)), recs) == Filtered(d, f, recs)
  {
    var twice := Toggled(Toggled(f.pins, col, key), col, key);
    var g := f.(pins := twice);
    forall r: Record
      ensures Keeps(d, g, r) == Keeps(d, f, r)
    {
      ToggleTwice(d, r.cells, f.pins, col, key, f.magMode);
    }
    assert Flags(d, g, recs) == Flags(d, f, recs);
    TwiceKeepsSome(f.pins, col, key);
  }

  lemma {:induction false} TwiceKeepsSome(pins: seq<Pin>, col: nat, key: string)
    requires PinsOk(pins)
    ensures Toggled(Toggled(pins, col, key), col, key) == [] <==> pins == []
  {
    var once := Toggled(pins, col, key);
    var twice := Toggled(once, col, key);
    ToggledFlips(pins, col, key);
    ToggledFlips(once, col, key);
    if pins != [] {
      var k :| k in pins[0].values;
      assert Pinned(pins, pins[0].col, k);
      assert Pinned(twice, pins[0].col, k);
    }
    if twice != [] {
      var k :| k in twice[0].values;
      assert Pinned(twice, twice[0].col, k);
      assert Pinned(pins, twice[0].col, k);
    }
  }

  /** Filtering and then sorting shows the same rows in the same order as sorting
      and then filtering, ties included. */
  lemma {:induction false} FilterSortCommute(d: Display, rd: Reading, specs: seq<ColumnSpec>, sorts: seq<SortEntry>, f: Filter,
                                             recs: seq<Record>, sorted: seq<Record>, shown: seq<Record>)
    requires Sorted(rd, specs, sorts, recs, sorted)
    requires Sorted(rd, specs, sorts, Filtered(d, f, recs), shown)
    ensures shown == Filtered(d, f, sorted)
  {
    var s := WithPKTiebreaker(sorts);
    var perm :| StableOrder(rd, specs, s, CellsOf(recs), perm) && sorted == Permuted(recs, perm);
    var q :| StableOrder(rd, specs, s, CellsOf(Filtered(d, f, recs)), q) && shown == Permuted(Filtered(d, f, recs), q);
    if f.pins != [] && f.active {
      FilteredRecords(d, f, recs);
      SameNumbers(rd, specs, s, CellsOf(recs), Flags(d, f, recs), CellsOf(Filtered(d, f, recs)), perm, q);
      SortedThenFiltered(d, f, recs, perm);
      PermutedTwice(recs, Picked(Identity(|recs|), Flags(d, f, recs)), q);
    } else {
      assert CellsOf(Filtered(d, f, recs)) == CellsOf(recs);
      StableOrderUnique(rd, specs, s, CellsOf(recs), perm, q);
      assert Filtered(d, f, Permuted(recs, perm)) == Permuted(Filtered(d, f, recs), perm);
    }
  }

  /** The filtered rows, by number. */
  lemma FilteredRecords(d: Display, f: Filter, recs: seq<Record>)
    requires f.pins != [] && f.active
    ensures var kept := Picked(Identity(|recs|), Flags(d, f, recs));
            && (forall i :: 0 <= i < |kept| ==> kept[i] < |recs|)
            && Filtered(d, f, recs) == Permuted(recs, kept)
  {
    PermutedIdentity(recs);
    SelectPermuted(recs, Identity(|recs|), Flags(d, f, recs));
  }

  lemma SortedThenFiltered(d: Display, f: Filter, recs: seq<Record>, perm: seq<nat>)
    requires f.pins != [] && f.active && forall i :: 0 <= i < |perm| ==> perm[i] < |recs|
    ensures var picked := Picked(perm, Permuted(Flags(d, f, recs), perm));
            && (forall i :: 0 <= i < |picked| ==> picked[i] < |recs|)
            && Filtered(d, f, Permuted(recs, perm)) == Permuted(recs, picked)
  {
    assert Flags(d, f, Permuted(recs, perm)) == Permuted(Flags(d, f, recs), perm);
    SelectPermuted(recs, perm, Permuted(Flags(d, f, recs), perm));
  }

  /** The same row numbers in the same order, whether picked from the order of all
      rows or listed in the order of the kept ones. */
  lemma {:induction false} SameNumbers(rd: Reading, specs: seq<ColumnSpec>, s: seq<SortEntry>, cells: seq<CellRow>, flags: seq<bool>,
                                       few: seq<CellRow>, perm: seq<nat>, q: seq<nat>)
    requires |flags| == |cells|
    requires StableOrder(rd, specs, s, cells, perm)
    requires var kept := Picked(Identity(|flags|), flags);
             && |few| == |kept|
             && (forall i :: 0 <= i < |kept| ==> kept[i] < |cells| && few[i] == cells[kept[i]])
    requires StableOrder(rd, specs, s, few, q)
    ensures Picked(perm, Permuted(flags, perm)) == Permuted(Picked(Identity(|flags|), flags), q)
  {
    var picked, listed := Picked(perm, Permuted(flags, perm)), Permuted(Picked(Identity(|flags|), flags), q);
    SelectOrdered<nat>(RowOrder(rd, specs, s, cells), perm, Permuted(flags, perm));
    KeptOrder(rd, specs, s, cells, flags, few, q);
    forall x: nat
      ensures x in picked <==> x in listed
    {
      PickedMembers(perm, flags, x);
      ListedMembers(flags, q, x);
    }
    OrderUnique<nat>(RowOrder(rd, specs, s, cells), picked, listed);
  }

  lemma PickedMembers(perm: seq<nat>, flags: seq<bool>, x: nat)
    requires |perm| == |flags| && (forall i :: 0 <= i < |perm| ==> perm[i] < |flags|)
    requires forall y: nat :: y < |flags| ==> y in perm
    ensures x in Picked(perm, Permuted(flags, perm)) <==> x < |flags| && flags[x]
  {
    SelectMembers<nat>(perm, Permuted(flags, perm), x);
    if x < |flags| && flags[x] {
      assert x in perm;
      var i :| 0 <= i < |perm| && perm[i] == x;
      assert Permuted(flags, perm)[i];
    }
  }

  lemma ListedMembers(flags: seq<bool>, q: seq<nat>, x: nat)
    requires var kept := Picked(Identity(|flags|), flags);
             |q| == |kept| && (forall i :: 0 <= i < |q| ==> q[i] < |kept|) && forall y: nat :: y < |kept| ==> y in q
    ensures x in Permuted(Picked(Identity(|flags|), flags), q) <==> x < |flags| && flags[x]
  {
    var kept := Picked(Identity(|flags|), flags);
    SelectMembers<nat>(Identity(|flags|), flags, x);
    if x in kept {
      var k: nat :| k < |kept| && kept[k] == x;
      assert k in q;
      var i :| 0 <= i < |q| && q[i] == k;
      assert Permuted(kept, q)[i] == x;
    }
    if x in Permuted(kept, q) {
      var i :| 0 <= i < |q| && Permuted(kept, q)[i] == x;
      assert kept[q[i]] == x;
    }
    if x < |flags| && flags[x] {
      assert Identity(|flags|)[x] == x;
    }
  }

  /** The kept row numbers, listed in the order of the filtered rows, are in the
      order of all the rows. */
  lemma {:induction false} KeptOrder(rd: Reading, specs: seq<ColumnSpec>, s: seq<SortEntry>, cells: seq<CellRow>, flags: seq<bool>,
                                     few: seq<CellRow>, q: seq<nat>)
    requires |flags| == |cells|
    requires var kept := Picked(Identity(|flags|), flags);
             && |few| == |kept|
             && (forall i :: 0 <= i < |kept| ==> kept[i] < |cells| && few[i] == cells[kept[i]])
    requires InOrder(rd, specs, s, few, q)
    ensures forall i :: 0 <= i < |q| ==> q[i] < |few|
    ensures Ordered(RowOrder(rd, specs, s, cells), Permuted(Picked(Identity(|flags|), flags), q))
  {
    var kept := Picked(Identity(|flags|), flags);
    SelectOrdered<nat>((x: nat, y: nat) => x < y, Identity(|flags|), flags);
    var listed := Permuted(kept, q);
    forall i, j | 0 <= i < j < |listed|
      ensures Precedes(rd, specs, s, cells, listed[i], listed[j])
    {
      assert Precedes(rd, specs, s, few, q[i], q[j]);
      assert q[i] < q[j] ==> kept[q[i]] < kept[q[j]];
    }
  }

  /** When the first column tells all rows apart, the display does not depend on the
      order in which the rows were loaded. */
  lemma {:induction false} LoadOrderIrrelevant(rd: Reading, specs: seq<ColumnSpec>, sorts: seq<SortEntry>,
                                               recs: seq<Record>, other: seq<Record>, a: seq<Record>, b: seq<Record>)
    requires forall r :: r in recs <==> r in other
    requires DistinctKeys(rd, specs, recs) && DistinctKeys(rd, specs, other)
    requires Sorted(rd, specs, sorts, recs, a) && Sorted(rd, specs, sorts, other, b)
    ensures a == b
  {
    var less := RecordOrder(rd, specs, sorts, recs);
    SortedIsOrdered(rd, specs, sorts, recs, recs, a);
    SortedIsOrdered(rd, specs, sorts, recs, other, b);
    OrderUnique(less, a, b);
  }

  /** Column 0 gives no two rows the same key. */
  ghost predicate DistinctKeys(rd: Reading, specs: seq<ColumnSpec>, recs: seq<Record>)
  {
    forall i, j :: 0 <= i < |recs| && 0 <= j < |recs| && i != j ==>
      CompareBy(rd, specs, SortEntry(0, Asc), recs[i].cells, recs[j].cells) != 0
  }

  ghost function RecordOrder(rd: Reading, specs: seq<ColumnSpec>, sorts: seq<SortEntry>, recs: seq<Record>): (less: (Record, Record) -> bool)
    ensures forall x, y :: !(less(x, y) && less(y, x))
    ensures forall x, y :: less(x, y) <==> x in recs && y in recs && Before(rd, specs, WithPKTiebreaker(sorts), x.cells, y.cells)
  {
    var s := WithPKTiebreaker(sorts);
    var less := (x: Record, y: Record) => x in recs && y in recs && Before(rd, specs, s, x.cells, y.cells);
    assert forall x, y :: !(less(x, y) && less(y, x)) by {
      forall x, y | x in recs && y in recs
        ensures !(less(x, y) && less(y, x))
      {
        BeforeAsymmetric(rd, specs, s, x.cells, y.cells);
      }
    }
    less
  }

  /** Of two displayed records that the user's sort entries, none of them on column 0, do
      not tell apart, column 0 does not put the later one first; without user entries the
      whole display is in the order of column 0. */
  lemma {:induction false} ShownByID(rd: Reading, specs: seq<ColumnSpec>, sorts: seq<SortEntry>, recs: seq<Record>,
                                     shown: seq<Record>, i: nat, j: nat)
    requires Sorted(rd, specs, sorts, recs, shown) && i < j < |shown|
    requires EntryIndex(sorts, 0) == |sorts| && TiedByUser(rd, specs, sorts, shown[j].cells, shown[i].cells)
    ensures !FirstByID(rd, specs, shown[j].cells, shown[i].cells)
  {
    var s := WithPKTiebreaker(sorts);
    var perm :| StableOrder(rd, specs, s, CellsOf(recs), perm) && shown == Permuted(recs, perm);
    assert Precedes(rd, specs, s, CellsOf(recs), perm[i], perm[j]);
    BeforeAsymmetric(rd, specs, s, shown[i].cells, shown[j].cells);
    TiebreakerOrders(rd, specs, sorts, shown[j].cells, shown[i].cells);
  }

  /** Of two displayed records that the user's entries tell apart, the first entry that
      does decides. */
  lemma {:induction false} ShownByUser(rd: Reading, specs: seq<ColumnSpec>, sorts: seq<SortEntry>, recs: seq<Record>,
                                       shown: seq<Record>, i: nat, j: nat, k: nat)
    requires Sorted(rd, specs, sorts, recs, shown) && i < j < |shown| && k < |sorts|
    requires CompareBy(rd, specs, sorts[k], shown[j].cells, shown[i].cells) != 0
    requires forall m :: 0 <= m < k ==> CompareBy(rd, specs, sorts[m], shown[j].cells, shown[i].cells) == 0
    ensures !Before(rd, specs, [sorts[k]], shown[j].cells, shown[i].cells)
  {
    var s := WithPKTiebreaker(sorts);
    var perm :| StableOrder(rd, specs, s, CellsOf(recs), perm) && shown == Permuted(recs, perm);
    assert Precedes(rd, specs, s, CellsOf(recs), perm[i], perm[j]);
    BeforeAsymmetric(rd, specs, s, shown[i].cells, shown[j].cells);
    assert forall m :: 0 <= m <= k ==> s[m] == sorts[m];
    FirstDecides(rd, specs, s, k, shown[j].cells, shown[i].cells);
  }

  /** Rows with different first-column keys are never tied. */
  lemma {:induction false} KeysBreakTies(rd: Reading, specs: seq<ColumnSpec>, s: seq<SortEntry>, a: CellRow, b: CellRow)
    requires EntryIndex(s, 0) < |s|
    requires CompareBy(rd, specs, SortEntry(0, Asc), a, b) != 0
    ensures !Tied(rd, specs, s, a, b)
    decreases |s|
  {
    EntryAntisymmetric(rd, specs, s[0], a, b);
    if CompareBy(rd, specs, s[0], a, b) == 0 {
      assert s[0].col != 0;
      KeysBreakTies(rd, specs, s[1..], a, b);
    }
  }

  lemma {:induction false} SortedIsOrdered(rd: Reading, specs: seq<ColumnSpec>, sorts: seq<SortEntry>, all: seq<Record>,
                                           recs: seq<Record>, shown: seq<Record>)
    requires forall r :: r in recs <==> r in all
    requires DistinctKeys(rd, specs, recs) && Sorted(rd, specs, sorts, recs, shown)
    ensures Ordered(RecordOrder(rd, specs, sorts, all), shown)
    ensures forall r :: r in shown <==> r in all
  {
    var s := WithPKTiebreaker(sorts);
    var perm :| StableOrder(rd, specs, s, CellsOf(recs), perm) && shown == Permuted(recs, perm);
    forall i, j | 0 <= i < j < |shown|
      ensures RecordOrder(rd, specs, sorts, all)(shown[i], shown[j])
    {
      assert Precedes(rd, specs, s, CellsOf(recs), perm[i], perm[j]);
      assert shown[i] in recs && shown[j] in recs;
      if perm[i] != perm[j] {
        KeysBreakTies(rd, specs, s, recs[perm[i]].cells, recs[perm[j]].cells);
      }
    }
    forall r | r in all
      ensures r in shown
    {
      var k: nat :| k < |recs| && recs[k] == r;
      assert k in perm;
      var i :| 0 <= i < |perm| && perm[i] == k;
      assert shown[i] == r;
    }
  }
}
