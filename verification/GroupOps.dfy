/**
 The preview of extracted operations: operations are grouped into one
 rectangular table per database table (internal/app/extraction_render.go:712-912).

 Database tables and data keys are the named constants of the source. Formatting
 a value is a parameter, `render`.
 */
module GroupOps {
  import opened Schema

  datatype Table = Vendors | Documents | Quotes | MaintenanceItems | Appliances | OtherTable(name: string)

  datatype Key =
    | ColName | ColContactName | ColEmail | ColPhone | ColWebsite | ColLocale
    | ColTitle | ColMIMEType | ColNotes
    | ColProjectID | ColVendorID | ColTotalCents | ColLaborCents | ColMaterialsCents | ColOtherCents | ColReceivedDate
    | ColCategoryID | ColApplianceID | ColIntervalMonths
    | ColBrand | ColModelNumber | ColSerialNumber | ColLocation | ColPurchaseDate | ColWarrantyExpiry | ColCostCents
    | OtherKey(name: string)

  /** A decoded JSON value: a string, or anything else. */
  datatype Val = Str(s: string) | NotStr(id: int)

  datatype Op = Op(table: Table, data: map<Key, Val>)

  datatype Format = AnyText | FK | Cents | Interval | Phone | PhoneIn(locale: string)

  datatype Def = Def(key: Key, spec: ColumnSpec, format: Format)

  datatype Group = Group(name: string, table: Table, specs: seq<ColumnSpec>, cells: seq<seq<Cell>>, meta: seq<RowMeta>)

  function Spec(title: string, min: int, max: int, flex: bool, kind: CellKind): ColumnSpec
  {
    ColumnSpec(title, min, max, flex, kind, [], 0, false)
  }

  function LinkSpec(title: string, min: int, max: int, flex: bool, kind: CellKind): ColumnSpec
  {
    ColumnSpec(title, min, max, flex, kind, [], 0, true)
  }

  type Columns = Table -> seq<Def>

  /** How a value is shown. */
  type Render = (Format, Val) -> string

  /** The columns a preview knows for a table; none for an unknown table. For
      maintenance items the source takes columns 3 and 6 of its column list, which
      are Season and Next, for the appliance and the interval. */
  function PreviewColumns(t: Table): seq<Def>
  {
    match t
    case Vendors =>
      [ Def(ColName, Spec("Name", 14, 24, true, Text), AnyText),
        Def(ColContactName, Spec("Contact", 10, 20, true, Text), AnyText),
        Def(ColEmail, Spec("Email", 12, 24, true, Text), AnyText),
        Def(ColPhone, Spec("Phone", 12, 20, false, TelephoneNumber), Phone),
        Def(ColWebsite, Spec("Website", 12, 28, true, Text), AnyText) ]
    case Documents =>
      [ Def(ColTitle, Spec("Title", 14, 32, true, Text), AnyText),
        Def(ColMIMEType, Spec("Type", 8, 16, false, Text), AnyText),
        Def(ColNotes, Spec("Notes", 12, 40, true, Notes), AnyText) ]
    case Quotes =>
      [ Def(ColProjectID, LinkSpec("Project", 12, 24, true, Text), FK),
        Def(ColVendorID, LinkSpec("Vendor", 12, 20, true, Text), FK),
        Def(ColTotalCents, Spec("Total", 10, 14, false, Money), Cents),
        Def(ColLaborCents, Spec("Labor", 10, 14, false, Money), Cents),
        Def(ColMaterialsCents, Spec("Mat", 8, 12, false, Money), Cents),
        Def(ColOtherCents, Spec("Other", 8, 12, false, Money), Cents),
        Def(ColReceivedDate, Spec("Recv", 10, 12, false, Date), AnyText) ]
    case MaintenanceItems =>
      [ Def(ColName, Spec("Item", 12, 26, true, Text), AnyText),
        Def(ColCategoryID, Spec("Category", 10, 14, false, Text), FK),
        Def(ColApplianceID, Spec("Season", 6, 8, false, Status), FK),
        Def(ColIntervalMonths, Spec("Next", 10, 12, false, Urgency), Interval) ]
    case Appliances =>
      [ Def(ColName, Spec("Name", 12, 24, true, Text), AnyText),
        Def(ColBrand, Spec("Brand", 8, 16, true, Text), AnyText),
        Def(ColModelNumber, Spec("Model", 8, 16, false, Text), AnyText),
        Def(ColSerialNumber, Spec("Serial", 8, 14, false, Text), AnyText),
        Def(ColLocation, Spec("Location", 8, 14, false, Text), AnyText),
        Def(ColPurchaseDate, Spec("Purchased", 10, 12, false, Date), AnyText),
        Def(ColWarrantyExpiry, Spec("Warranty", 10, 12, false, Warranty), AnyText),
        Def(ColCostCents, Spec("Cost", 8, 12, false, Money), Cents) ]
    case OtherTable(_) => []
  }

  function PreviewTabName(t: Table): string
  {
    match t
    case Vendors => "Vendors"
    case Documents => "Docs"
    case Quotes => "Quotes"
    case MaintenanceItems => "Maintenance"
    case Appliances => "Appliances"
    case OtherTable(name) => name
  }

  /** No two columns of a table share a title or a data key. */
  predicate Distinct(ds: seq<Def>)
  {
    forall i, j :: 0 <= i < j < |ds| ==> ds[i].spec.title != ds[j].spec.title && ds[i].key != ds[j].key
  }

  lemma PreviewColumnsDistinct(t: Table)
    ensures Distinct(PreviewColumns(t))
  {
    match t
    case Quotes => QuoteColumnsDistinct();
    case Appliances => ApplianceColumnsDistinct();
    case _ =>
  }

  ghost predicate AllDistinct(cols: Columns)
  {
    forall t :: Distinct(cols(t))
  }

  lemma PreviewColumnsAllDistinct()
    ensures AllDistinct(PreviewColumns)
  {
    forall t ensures Distinct(PreviewColumns(t)) {
      PreviewColumnsDistinct(t);
    }
  }

  /** Titles with different initials are different. */
  lemma InitialsTell(ds: seq<Def>, initials: string)
    requires |initials| == |ds| && forall i, j :: 0 <= i < j < |ds| ==> initials[i] != initials[j] && ds[i].key != ds[j].key
    requires forall i :: 0 <= i < |ds| ==> ds[i].spec.title != "" && ds[i].spec.title[0] == initials[i]
    ensures Distinct(ds)
  {
  }

  lemma QuoteColumnsDistinct()
    ensures Distinct(PreviewColumns(Quotes))
  {
    InitialsTell(PreviewColumns(Quotes), "PVTLMOR");
  }

  lemma ApplianceColumnsDistinct()
    ensures Distinct(PreviewColumns(Appliances))
  {
    InitialsTell(PreviewColumns(Appliances), "NBMSLPWC");
  }

  // ----- what the groups are -----

  /** The operations that can open a group. */
  predicate Opens(cols: Columns, op: Op)
  {
    cols(op.table) != [] && |op.data| != 0
  }

  /** The tables of the opening operations, each once, in order of first sight. */
  function Order(cols: Columns, ops: seq<Op>): seq<Table>
  {
    if ops == [] then []
    else
      var order, op := Order(cols, ops[..|ops| - 1]), ops[|ops| - 1];
      if Opens(cols, op) && op.table !in order then order + [op.table] else order
  }

  function OpsOn(ops: seq<Op>, t: Table): (r: seq<Op>)
    ensures forall op :: op in r <==> op in ops && op.table == t
  {
    if ops == [] then []
    else
      var op := ops[|ops| - 1];
      OpsOn(ops[..|ops| - 1], t) + if op.table == t then [op] else []
  }

  predicate HasTitle(specs: seq<ColumnSpec>, title: string)
  {
    exists i :: 0 <= i < |specs| && specs[i].title == title
  }

  /** The columns of one operation that are not there yet are added at the end. */
  function Extended(specs: seq<ColumnSpec>, ds: seq<Def>, data: map<Key, Val>): seq<ColumnSpec>
  {
    if ds == [] then specs
    else
      var before, d := Extended(specs, ds[..|ds| - 1], data), ds[|ds| - 1];
      if d.key in data && !HasTitle(before, d.spec.title) then before + [d.spec] else before
  }

  function SpecsOn(cols: Columns, ops: seq<Op>, t: Table): seq<ColumnSpec>
  {
    if ops == [] then []
    else
      var before, op := SpecsOn(cols, ops[..|ops| - 1], t), ops[|ops| - 1];
      if op.table == t then Extended(before, cols(t), op.data) else before
  }

  /** Vendor phones are formatted for the locale of their own row when it has one. */
  function FormatOf(op: Op, d: Def): Format
  {
    if op.table == Vendors && d.key == ColPhone && ColLocale in op.data && op.data[ColLocale].Str?
       && op.data[ColLocale].s != ""
    then PhoneIn(op.data[ColLocale].s)
    else d.format
  }

  function CellOf(op: Op, d: Def, render: Render): Cell
  {
    if d.key in op.data then Cell(render(FormatOf(op, d), op.data[d.key]), d.spec.kind, false)
    else Cell("", d.spec.kind, true)
  }

  predicate IsCell(cols: Columns, cell: Cell, op: Op, spec: ColumnSpec, render: Render)
  {
    forall k :: 0 <= k < |cols(op.table)| && cols(op.table)[k].spec == spec ==>
      cell == CellOf(op, cols(op.table)[k], render)
  }

  /** A row has one cell per column, and the cell of a column is that of its key. */
  predicate IsRow(cols: Columns, row: seq<Cell>, op: Op, specs: seq<ColumnSpec>, render: Render)
  {
    && |row| == |specs|
    && forall c :: 0 <= c < |specs| ==> IsCell(cols, row[c], op, specs[c], render)
  }

  /** One row per operation, in order. */
  predicate AreRows(cols: Columns, rows: seq<seq<Cell>>, ops: seq<Op>, specs: seq<ColumnSpec>, render: Render)
  {
    && |rows| == |ops|
    && forall r :: 0 <= r < |rows| ==> IsRow(cols, rows[r], ops[r], specs, render)
  }

  /** The group of table t once the operations in `done` have their rows. The
      columns are settled beforehand, from all operations. */
  predicate Filled(cols: Columns, g: Group, ops: seq<Op>, done: seq<Op>, t: Table, render: Render)
  {
    && g.name == PreviewTabName(t) && g.table == t
    && g.specs == SpecsOn(cols, ops, t)
    && AreRows(cols, g.cells, OpsOn(done, t), g.specs, render)
    && |g.meta| == |g.cells| && forall m :: m in g.meta ==> m == RowMeta("", false, false)
  }

  predicate IsSection(cols: Columns, g: Group, ops: seq<Op>, t: Table, render: Render)
  {
    Filled(cols, g, ops, ops, t, render)
  }

  // ----- the two passes -----

  /** The inner loops of the first pass: adds the columns of one operation. */
  method ExtendSpecs(specs: seq<ColumnSpec>, ds: seq<Def>, data: map<Key, Val>) returns (r: seq<ColumnSpec>)
    ensures r == Extended(specs, ds, data)
  {
    r := specs;
    var k := 0;
    while k < |ds|
      invariant k <= |ds|
      invariant r == Extended(specs, ds[..k], data)
    {
      assert ds[..k + 1][..k] == ds[..k];
      var d := ds[k];
      if d.key in data {
        var found := false;
        var i := 0;
        while i < |r| && !found
          invariant i <= |r|
          invariant found <==> HasTitle(r[..i], d.spec.title)
        {
          assert r[..i + 1] == r[..i] + [r[i]];
          TitleAppend(r[..i], r[i], d.spec.title);
          found := r[i].title == d.spec.title;
          i := i + 1;
        }
        TitlePrefix(r, i, d.spec.title);
        assert r[..|r|] == r;
        if !found {
          r := r + [d.spec];
        }
      }
      k := k + 1;
    }
    assert ds[..k] == ds;
  }

  lemma TitleAppend(specs: seq<ColumnSpec>, spec: ColumnSpec, title: string)
    ensures HasTitle(specs + [spec], title) <==> HasTitle(specs, title) || spec.title == title
  {
    if HasTitle(specs, title) {
      var i :| 0 <= i < |specs| && specs[i].title == title;
      assert (specs + [spec])[i].title == title;
    }
    assert (specs + [spec])[|specs|] == spec;
  }

  lemma TitlePrefix(specs: seq<ColumnSpec>, n: nat, title: string)
    requires n <= |specs|
    ensures HasTitle(specs[..n], title) ==> HasTitle(specs, title)
  {
    if HasTitle(specs[..n], title) {
      var i :| 0 <= i < n && specs[..n][i].title == title;
      assert specs[i].title == title;
    }
  }

  lemma {:induction false} NothingOpened(cols: Columns, ops: seq<Op>, t: Table)
    requires t !in Order(cols, ops)
    ensures SpecsOn(cols, ops, t) == []
  {
    if ops != [] {
      var op := ops[|ops| - 1];
      NothingOpened(cols, ops[..|ops| - 1], t);
      if op.table == t {
        NothingAdded([], cols(t), op.data);
      }
    }
  }

  lemma {:induction false} NothingAdded(specs: seq<ColumnSpec>, ds: seq<Def>, data: map<Key, Val>)
    requires ds == [] || |data| == 0
    ensures Extended(specs, ds, data) == specs
  {
    if ds != [] {
      NothingAdded(specs, ds[..|ds| - 1], data);
    }
  }

  ghost predicate FirstPass(cols: Columns, order: seq<Table>, groups: map<Table, Group>, ops: seq<Op>)
  {
    && order == Order(cols, ops)
    && (forall t :: t in groups <==> t in order)
    && forall t :: t in groups ==> Opened(cols, groups[t], ops, t)
  }

  /** The group of table t before it has rows. */
  predicate Opened(cols: Columns, g: Group, ops: seq<Op>, t: Table)
  {
    g == Group(PreviewTabName(t), t, SpecsOn(cols, ops, t), [], [])
  }

  lemma StepsApart(cols: Columns, ops: seq<Op>, i: nat, t: Table)
    requires i < |ops|
    ensures SpecsOn(cols, ops[..i + 1], t) ==
            if ops[i].table == t then Extended(SpecsOn(cols, ops[..i], t), cols(t), ops[i].data)
            else SpecsOn(cols, ops[..i], t)
    ensures OpsOn(ops[..i + 1], t) == OpsOn(ops[..i], t) + if ops[i].table == t then [ops[i]] else []
  {
    assert ops[..i + 1][..i] == ops[..i];
  }

  method CollectColumns(cols: Columns, ops: seq<Op>) returns (order: seq<Table>, groups: map<Table, Group>)
    ensures FirstPass(cols, order, groups, ops)
  {
    order, groups := [], map[];
    var i := 0;
    while i < |ops|
      invariant i <= |ops|
      invariant FirstPass(cols, order, groups, ops[..i])
    {
      var op := ops[i];
      var allDefs := cols(op.table);
      ghost var order0, groups0 := order, groups;
      if |allDefs| > 0 && |op.data| > 0 {
        if op.table !in groups {
          NothingOpened(cols, ops[..i], op.table);
          groups := groups[op.table := Group(PreviewTabName(op.table), op.table, [], [], [])];
          order := order + [op.table];
        }
        var g := groups[op.table];
        assert Opened(cols, g, ops[..i], op.table);
        var specs := ExtendSpecs(g.specs, allDefs, op.data);
        groups := groups[op.table := g.(specs := specs)];
        assert groups == groups0[op.table := g.(specs := specs)];
      }
      ColumnsAfterOp(cols, order0, groups0, order, groups, ops, i);
      i := i + 1;
    }
    assert ops[..i] == ops;
  }

  lemma ColumnsAfterOp(
    cols: Columns, order0: seq<Table>, groups0: map<Table, Group>, order: seq<Table>, groups: map<Table, Group>,
    ops: seq<Op>, i: nat)
    requires i < |ops| && FirstPass(cols, order0, groups0, ops[..i])
    requires !Opens(cols, ops[i]) ==> order == order0 && groups == groups0
    requires Opens(cols, ops[i]) ==>
               var t := ops[i].table;
               var specs := Extended(SpecsOn(cols, ops[..i], t), cols(t), ops[i].data);
               && order == (if t in order0 then order0 else order0 + [t])
               && groups == groups0[t := Group(PreviewTabName(t), t, specs, [], [])]
    ensures FirstPass(cols, order, groups, ops[..i + 1])
  {
    assert ops[..i + 1][..i] == ops[..i];
    forall t | t in groups && t != ops[i].table ensures Opened(cols, groups[t], ops[..i + 1], t) {
      StepsApart(cols, ops, i, t);
    }
    var t := ops[i].table;
    StepsApart(cols, ops, i, t);
    if !Opens(cols, ops[i]) {
      NothingAdded(SpecsOn(cols, ops[..i], t), cols(t), ops[i].data);
    }
    assert t in groups ==> Opened(cols, groups[t], ops[..i + 1], t);
  }

  // ----- which columns a group has -----

  predicate Known(spec: ColumnSpec, ds: seq<Def>)
  {
    exists k :: 0 <= k < |ds| && ds[k].spec == spec
  }

  /** Some column with this spec has its key among the data. */
  predicate Gives(spec: ColumnSpec, ds: seq<Def>, data: map<Key, Val>)
  {
    exists k :: 0 <= k < |ds| && ds[k].spec == spec && ds[k].key in data
  }

  predicate AllKnown(specs: seq<ColumnSpec>, ds: seq<Def>)
  {
    forall c :: 0 <= c < |specs| ==> Known(specs[c], ds)
  }

  predicate DistinctTitles(specs: seq<ColumnSpec>)
  {
    forall i, j :: 0 <= i < j < |specs| ==> specs[i].title != specs[j].title
  }

  lemma {:induction false} ExtendedExactly(
    specs: seq<ColumnSpec>, all: seq<Def>, n: nat, data: map<Key, Val>, spec: ColumnSpec)
    requires n <= |all| && Distinct(all) && AllKnown(specs, all) && DistinctTitles(specs)
    ensures var r := Extended(specs, all[..n], data);
            && AllKnown(r, all) && DistinctTitles(r)
            && (spec in r <==> spec in specs || Gives(spec, all[..n], data))
  {
    if n > 0 {
      ExtendedExactly(specs, all, n - 1, data, spec);
      assert all[..n][..n - 1] == all[..n - 1];
      var before, d := Extended(specs, all[..n - 1], data), all[n - 1];
      GivesStep(spec, all, n - 1, data);
      if HasTitle(before, d.spec.title) {
        var i :| 0 <= i < |before| && before[i].title == d.spec.title;
        assert Known(before[i], all);
        assert before[i] == d.spec;
      }
    }
  }

  lemma GivesStep(spec: ColumnSpec, all: seq<Def>, n: nat, data: map<Key, Val>)
    requires n < |all|
    ensures Gives(spec, all[..n + 1], data) <==>
            Gives(spec, all[..n], data) || (all[n].spec == spec && all[n].key in data)
  {
    var more, less := all[..n + 1], all[..n];
    if Gives(spec, less, data) {
      var k :| 0 <= k < |less| && less[k].spec == spec && less[k].key in data;
      assert more[k] == less[k];
    }
    assert more[n] == all[n];
    assert forall k :: 0 <= k < n ==> more[k] == less[k];
  }

  /** Some operation on the table has this column's key. */
  predicate Populated(cols: Columns, spec: ColumnSpec, ops: seq<Op>, t: Table)
  {
    exists i :: 0 <= i < |ops| && ops[i].table == t && Gives(spec, cols(t), ops[i].data)
  }

  /** The columns of a group are exactly the known columns that some operation on
      its table fills, each once. */
  lemma {:induction false} ColumnsExactly(cols: Columns, ops: seq<Op>, t: Table, spec: ColumnSpec)
    requires AllDistinct(cols)
    ensures AllKnown(SpecsOn(cols, ops, t), cols(t)) && DistinctTitles(SpecsOn(cols, ops, t))
    ensures spec in SpecsOn(cols, ops, t) <==> Populated(cols, spec, ops, t)
  {
    if ops != [] {
      var n := |ops| - 1;
      ColumnsExactly(cols, ops[..n], t, spec);
      var ds := cols(t);
      assert ds[..|ds|] == ds;
      ExtendedExactly(SpecsOn(cols, ops[..n], t), ds, |ds|, ops[n].data, spec);
      PopulatedStep(cols, spec, ops, t);
    }
  }

  lemma PopulatedStep(cols: Columns, spec: ColumnSpec, ops: seq<Op>, t: Table)
    requires ops != []
    ensures var n := |ops| - 1;
            Populated(cols, spec, ops, t) <==>
            Populated(cols, spec, ops[..n], t) || (ops[n].table == t && Gives(spec, cols(t), ops[n].data))
  {
    var n := |ops| - 1;
    var less := ops[..n];
    if Populated(cols, spec, less, t) {
      var i :| 0 <= i < |less| && less[i].table == t && Gives(spec, cols(t), less[i].data);
      assert ops[i] == less[i];
    }
    if Populated(cols, spec, ops, t) {
      var i :| 0 <= i < |ops| && ops[i].table == t && Gives(spec, cols(t), ops[i].data);
      assert i < n ==> less[i] == ops[i];
    }
  }

  predicate OpensOn(cols: Columns, op: Op, t: Table)
  {
    op.table == t && Opens(cols, op)
  }

  /** The first operation that opens a group on t, or the number of operations. */
  function FirstSeen(cols: Columns, ops: seq<Op>, t: Table): (i: nat)
    ensures i <= |ops|
    ensures i < |ops| ==> OpensOn(cols, ops[i], t)
    ensures forall j :: 0 <= j < i ==> !OpensOn(cols, ops[j], t)
  {
    if ops == [] then 0
    else
      var n := |ops| - 1;
      var i := FirstSeen(cols, ops[..n], t);
      if i < n || OpensOn(cols, ops[n], t) then i else |ops|
  }

  /** A table is listed exactly when some operation opens it. */
  lemma {:induction false} OrderHas(cols: Columns, ops: seq<Op>, t: Table)
    ensures t in Order(cols, ops) <==> FirstSeen(cols, ops, t) < |ops|
  {
    if ops != [] {
      OrderHas(cols, ops[..|ops| - 1], t);
    }
  }

  /** No table is listed twice, and tables are listed in the order of their first
      opening operations. */
  lemma {:induction false} OrderIsFirstSeen(cols: Columns, ops: seq<Op>, a: nat, b: nat)
    requires a < b < |Order(cols, ops)|
    ensures FirstSeen(cols, ops, Order(cols, ops)[a]) < FirstSeen(cols, ops, Order(cols, ops)[b]) < |ops|
  {
    var n := |ops| - 1;
    var before := Order(cols, ops[..n]);
    OrderHas(cols, ops[..n], before[a]);
    assert before[a] in before;
    if b < |before| {
      OrderIsFirstSeen(cols, ops[..n], a, b);
    } else {
      OrderHas(cols, ops[..n], ops[n].table);
    }
  }

  // ----- the order of rows and columns -----

  ghost predicate Increasing(at: seq<nat>)
  {
    forall i, j :: 0 <= i < j < |at| ==> at[i] < at[j]
  }

  /** The places at which the picked operations stand. */
  ghost predicate Picks(ops: seq<Op>, picked: seq<Op>, at: seq<nat>)
  {
    && |at| == |picked| && Increasing(at)
    && forall i :: 0 <= i < |at| ==> at[i] < |ops| && ops[at[i]] == picked[i]
  }

  lemma PicksStep(ops: seq<Op>, op: Op, picked: seq<Op>, at: seq<nat>)
    requires Picks(ops, picked, at)
    ensures Picks(ops + [op], picked, at) && Picks(ops + [op], picked + [op], at + [|ops|])
  {
    var more, now := ops + [op], at + [|ops|];
    forall i | 0 <= i < |now| ensures now[i] < |more| && more[now[i]] == (picked + [op])[i] {
      if i < |at| {
        assert more[at[i]] == ops[at[i]];
      }
    }
  }

  /** The rows of a table are its operations, all of them and in their order. */
  lemma {:induction false} OpsOnInOrder(ops: seq<Op>, t: Table) returns (at: seq<nat>)
    ensures Picks(ops, OpsOn(ops, t), at)
    ensures forall j: nat :: j < |ops| && ops[j].table == t ==> j in at
  {
    if ops == [] {
      at := [];
    } else {
      var n := |ops| - 1;
      var before := OpsOnInOrder(ops[..n], t);
      assert ops == ops[..n] + [ops[n]];
      PicksStep(ops[..n], ops[n], OpsOn(ops[..n], t), before);
      at := if ops[n].table == t then before + [n] else before;
      PlacesStep(ops, t, before, at);
    }
  }

  lemma PlacesStep(ops: seq<Op>, t: Table, before: seq<nat>, at: seq<nat>)
    requires ops != [] && at == if ops[|ops| - 1].table == t then before + [|ops| - 1] else before
    requires forall j: nat :: j < |ops| - 1 && ops[..|ops| - 1][j].table == t ==> j in before
    ensures forall j: nat :: j < |ops| && ops[j].table == t ==> j in at
  {
    forall j: nat | j < |ops| && ops[j].table == t ensures j in at {
      if j < |ops| - 1 {
        assert ops[..|ops| - 1][j].table == t;
      }
    }
  }

  ghost predicate GivesOn(cols: Columns, op: Op, t: Table, spec: ColumnSpec)
  {
    op.table == t && Gives(spec, cols(t), op.data)
  }

  /** The first operation that fills the column, or the number of operations. */
  ghost function FirstGiven(cols: Columns, ops: seq<Op>, t: Table, spec: ColumnSpec): (i: nat)
    ensures i <= |ops|
    ensures i < |ops| ==> GivesOn(cols, ops[i], t, spec)
    ensures forall j :: 0 <= j < i ==> !GivesOn(cols, ops[j], t, spec)
  {
    if ops == [] then 0
    else
      var n := |ops| - 1;
      var i := FirstGiven(cols, ops[..n], t, spec);
      if i < n || GivesOn(cols, ops[n], t, spec) then i else |ops|
  }

  lemma GivenBefore(cols: Columns, ops: seq<Op>, t: Table, spec: ColumnSpec)
    requires AllDistinct(cols)
    ensures spec in SpecsOn(cols, ops, t) <==> FirstGiven(cols, ops, t, spec) < |ops|
  {
    ColumnsExactly(cols, ops, t, spec);
    if Populated(cols, spec, ops, t) {
      var i :| 0 <= i < |ops| && ops[i].table == t && Gives(spec, cols(t), ops[i].data);
      assert GivesOn(cols, ops[i], t, spec);
    }
  }

  /** One operation adds its columns at the end, in the order of the known ones. */
  lemma {:induction false} ExtendedTail(specs: seq<ColumnSpec>, all: seq<Def>, n: nat, data: map<Key, Val>) returns (at: seq<nat>)
    requires n <= |all|
    ensures Increasing(at) && forall i :: 0 <= i < |at| ==> at[i] < n
    ensures Extended(specs, all[..n], data) == specs + SpecsAt(all, at)
  {
    if n == 0 {
      at := [];
    } else {
      assert all[..n][..n - 1] == all[..n - 1];
      var before := ExtendedTail(specs, all, n - 1, data);
      var now := Extended(specs, all[..n - 1], data);
      if all[n - 1].key in data && !HasTitle(now, all[n - 1].spec.title) {
        at := before + [n - 1];
        assert SpecsAt(all, at) == SpecsAt(all, before) + [all[n - 1].spec];
      } else {
        at := before;
      }
    }
  }

  ghost function SpecsAt(all: seq<Def>, at: seq<nat>): (r: seq<ColumnSpec>)
    requires forall i :: 0 <= i < |at| ==> at[i] < |all|
    ensures |r| == |at| && forall i :: 0 <= i < |at| ==> r[i] == all[at[i]].spec
  {
    seq(|at|, i requires 0 <= i < |at| => all[at[i]].spec)
  }

  ghost predicate KnownInOrder(ds: seq<Def>, a: ColumnSpec, b: ColumnSpec)
  {
    exists k, l :: 0 <= k < l < |ds| && ds[k].spec == a && ds[l].spec == b
  }

  lemma TailInOrder(before: seq<ColumnSpec>, ds: seq<Def>, at: seq<nat>, a: nat, b: nat)
    requires Increasing(at) && forall i :: 0 <= i < |at| ==> at[i] < |ds|
    requires |before| <= a < b < |before| + |at|
    ensures var specs := before + SpecsAt(ds, at); KnownInOrder(ds, specs[a], specs[b])
  {
    assert ds[at[a - |before|]].spec == SpecsAt(ds, at)[a - |before|];
    assert ds[at[b - |before|]].spec == SpecsAt(ds, at)[b - |before|];
  }

  /** A column that was there before the last operation was first filled before it. */
  lemma EarlyColumn(cols: Columns, ops: seq<Op>, t: Table, spec: ColumnSpec)
    requires AllDistinct(cols) && ops != [] && spec in SpecsOn(cols, ops[..|ops| - 1], t)
    ensures FirstGiven(cols, ops, t, spec) == FirstGiven(cols, ops[..|ops| - 1], t, spec) < |ops| - 1
  {
    GivenBefore(cols, ops[..|ops| - 1], t, spec);
  }

  /** A column that the last operation brings is first filled by it. */
  lemma LateColumn(cols: Columns, ops: seq<Op>, t: Table, c: nat)
    requires AllDistinct(cols) && ops != [] && c < |SpecsOn(cols, ops, t)|
    requires SpecsOn(cols, ops[..|ops| - 1], t) <= SpecsOn(cols, ops, t)
    requires c >= |SpecsOn(cols, ops[..|ops| - 1], t)|
    ensures FirstGiven(cols, ops, t, SpecsOn(cols, ops, t)[c]) == |ops| - 1
  {
    var specs, before := SpecsOn(cols, ops, t), SpecsOn(cols, ops[..|ops| - 1], t);
    ColumnsExactly(cols, ops, t, specs[c]);
    assert forall i :: 0 <= i < |before| ==> specs[i].title != specs[c].title;
    assert specs[c] !in before;
    assert specs[c] in specs;
    GivenBefore(cols, ops, t, specs[c]);
    GivenBefore(cols, ops[..|ops| - 1], t, specs[c]);
  }

  /** Columns stand in the order in which operations first fill them; those that one
      operation brings stand in the order of the known columns. */
  lemma {:induction false} ColumnsInOrder(cols: Columns, ops: seq<Op>, t: Table, a: nat, b: nat)
    requires AllDistinct(cols)
    requires a < b < |SpecsOn(cols, ops, t)|
    ensures GivenInOrder(cols, ops, t, SpecsOn(cols, ops, t)[a], SpecsOn(cols, ops, t)[b])
  {
    var n := |ops| - 1;
    var specs, before := SpecsOn(cols, ops, t), SpecsOn(cols, ops[..n], t);
    var ds := cols(t);
    var at: seq<nat> := [];
    if ops[n].table == t {
      assert ds[..|ds|] == ds;
      at := ExtendedTail(before, ds, |ds|, ops[n].data);
    }
    assert specs == before + SpecsAt(ds, at);
    if a < |before| {
      assert specs[a] == before[a];
      EarlyColumn(cols, ops, t, specs[a]);
    } else {
      LateColumn(cols, ops, t, a);
      TailInOrder(before, ds, at, a, b);
    }
    if b < |before| {
      ColumnsInOrder(cols, ops[..n], t, a, b);
      assert specs[b] == before[b];
      EarlyColumn(cols, ops, t, specs[b]);
    } else {
      LateColumn(cols, ops, t, b);
    }
  }

  ghost predicate GivenInOrder(cols: Columns, ops: seq<Op>, t: Table, a: ColumnSpec, b: ColumnSpec)
  {
    var i, j := FirstGiven(cols, ops, t, a), FirstGiven(cols, ops, t, b);
    i < j < |ops| || (i == j < |ops| && KnownInOrder(cols(t), a, b))
  }

  // ----- the second pass and the whole operation -----

  predicate Indexed(keys: map<string, Key>, formats: map<string, Format>, ds: seq<Def>, n: nat)
    requires n <= |ds|
  {
    forall k :: 0 <= k < n ==>
      && ds[k].spec.title in keys && keys[ds[k].spec.title] == ds[k].key
      && ds[k].spec.title in formats && formats[ds[k].spec.title] == ds[k].format
  }

  /** The lookups from column title to data key and formatter. */
  method IndexByTitle(ds: seq<Def>) returns (keys: map<string, Key>, formats: map<string, Format>)
    requires Distinct(ds)
    ensures Indexed(keys, formats, ds, |ds|)
  {
    keys, formats := map[], map[];
    for k := 0 to |ds|
      invariant Indexed(keys, formats, ds, k)
    {
      keys := keys[ds[k].spec.title := ds[k].key];
      formats := formats[ds[k].spec.title := ds[k].format];
    }
  }

  method OverridePhone(op: Op, ds: seq<Def>, formats: map<string, Format>) returns (r: map<string, Format>)
    requires Distinct(ds) && forall k :: 0 <= k < |ds| ==> ds[k].spec.title in formats
    requires forall k :: 0 <= k < |ds| ==> formats[ds[k].spec.title] == ds[k].format
    ensures forall k :: 0 <= k < |ds| ==> ds[k].spec.title in r && r[ds[k].spec.title] == FormatOf(op, ds[k])
  {
    r := formats;
    if op.table == Vendors && ColLocale in op.data && op.data[ColLocale].Str? && op.data[ColLocale].s != "" {
      for k := 0 to |ds|
        invariant r == formats
        invariant forall i :: 0 <= i < k ==> ds[i].key != ColPhone
      {
        if ds[k].key == ColPhone {
          r := r[ds[k].spec.title := PhoneIn(op.data[ColLocale].s)];
          break;
        }
      }
    }
  }

  method BuildRow(cols: Columns, op: Op, specs: seq<ColumnSpec>, render: Render) returns (row: seq<Cell>)
    requires AllDistinct(cols)
    requires AllKnown(specs, cols(op.table))
    ensures IsRow(cols, row, op, specs, render)
  {
    var allDefs := cols(op.table);
    assert Distinct(allDefs);
    var keyByTitle, fmtByTitle := IndexByTitle(allDefs);
    fmtByTitle := OverridePhone(op, allDefs, fmtByTitle);
    row := [];
    for c := 0 to |specs|
      invariant |row| == c
      invariant forall i :: 0 <= i < c ==> IsCell(cols, row[i], op, specs[i], render)
    {
      var spec := specs[c];
      assert Known(spec, allDefs);
      var key := keyByTitle[spec.title];
      var cell;
      if key in op.data {
        cell := Cell(render(fmtByTitle[spec.title], op.data[key]), spec.kind, false);
      } else {
        cell := Cell("", spec.kind, true);
      }
      assert IsCell(cols, cell, op, spec, render);
      row := row + [cell];
    }
  }

  ghost predicate SecondPass(cols: Columns, groups: map<Table, Group>, ops: seq<Op>, done: seq<Op>, render: Render)
  {
    forall t :: t in groups ==> Filled(cols, groups[t], ops, done, t, render)
  }

  method AddRow(cols: Columns, g: Group, ops: seq<Op>, i: nat, render: Render) returns (r: Group)
    requires AllDistinct(cols)
    requires i < |ops| && Filled(cols, g, ops, ops[..i], ops[i].table, render)
    ensures Filled(cols, r, ops, ops[..i + 1], ops[i].table, render)
  {
    KnownColumns(cols, ops, ops[i].table);
    var row := BuildRow(cols, ops[i], g.specs, render);
    StepsApart(cols, ops, i, ops[i].table);
    r := g.(cells := g.cells + [row], meta := g.meta + [RowMeta("", false, false)]);
  }

  lemma NoRowsYet(cols: Columns, groups: map<Table, Group>, ops: seq<Op>, render: Render)
    requires forall t :: t in groups ==> Opened(cols, groups[t], ops, t)
    ensures SecondPass(cols, groups, ops, [], render)
  {
    forall t | t in groups ensures Filled(cols, groups[t], ops, [], t, render) {
      assert Opened(cols, groups[t], ops, t);
    }
  }

  lemma OtherGroupStays(cols: Columns, g: Group, ops: seq<Op>, i: nat, t: Table, render: Render)
    requires i < |ops| && t != ops[i].table && Filled(cols, g, ops, ops[..i], t, render)
    ensures Filled(cols, g, ops, ops[..i + 1], t, render)
  {
    StepsApart(cols, ops, i, t);
  }

  lemma RowAdded(cols: Columns, groups: map<Table, Group>, g: Group, ops: seq<Op>, i: nat, render: Render)
    requires i < |ops| && SecondPass(cols, groups, ops, ops[..i], render)
    requires ops[i].table in groups && Filled(cols, g, ops, ops[..i + 1], ops[i].table, render)
    ensures var after := groups[ops[i].table := g];
            after.Keys == groups.Keys && SecondPass(cols, after, ops, ops[..i + 1], render)
  {
    var after := groups[ops[i].table := g];
    assert after.Keys == groups.Keys;
    forall t | t in after ensures Filled(cols, after[t], ops, ops[..i + 1], t, render) {
      if t != ops[i].table {
        OtherGroupStays(cols, groups[t], ops, i, t, render);
      }
    }
  }

  lemma RowSkipped(cols: Columns, groups: map<Table, Group>, ops: seq<Op>, i: nat, render: Render)
    requires i < |ops| && SecondPass(cols, groups, ops, ops[..i], render)
    requires ops[i].table !in groups
    ensures SecondPass(cols, groups, ops, ops[..i + 1], render)
  {
    forall t | t in groups ensures Filled(cols, groups[t], ops, ops[..i + 1], t, render) {
      OtherGroupStays(cols, groups[t], ops, i, t, render);
    }
  }

  method FillRow(cols: Columns, ops: seq<Op>, i: nat, before: map<Table, Group>, render: Render)
    returns (groups: map<Table, Group>)
    requires AllDistinct(cols)
    requires i < |ops| && SecondPass(cols, before, ops, ops[..i], render)
    ensures groups.Keys == before.Keys
    ensures SecondPass(cols, groups, ops, ops[..i + 1], render)
  {
    groups := before;
    var t := ops[i].table;
    if t in before {
      var g := AddRow(cols, before[t], ops, i, render);
      RowAdded(cols, before, g, ops, i, render);
      groups := before[t := g];
    } else {
      RowSkipped(cols, before, ops, i, render);
    }
  }

  method FillRows(cols: Columns, ops: seq<Op>, start: map<Table, Group>, render: Render)
    returns (groups: map<Table, Group>)
    requires AllDistinct(cols)
    requires forall t :: t in start ==> Opened(cols, start[t], ops, t)
    ensures groups.Keys == start.Keys
    ensures SecondPass(cols, groups, ops, ops, render)
  {
    groups := start;
    NoRowsYet(cols, groups, ops, render);
    assert ops[..0] == [];
    var i := 0;
    while i < |ops|
      invariant i <= |ops|
      invariant groups.Keys == start.Keys
      invariant SecondPass(cols, groups, ops, ops[..i], render)
    {
      groups := FillRow(cols, ops, i, groups, render);
      i := i + 1;
    }
    assert ops[..i] == ops;
  }

  lemma KnownColumns(cols: Columns, ops: seq<Op>, t: Table)
    requires AllDistinct(cols)
    ensures AllKnown(SpecsOn(cols, ops, t), cols(t))
  {
    ColumnsExactly(cols, ops, t, Spec("", 0, 0, false, Text));
  }

  /** The groups in the order in which their tables came up. */
  method ListGroups(order: seq<Table>, groups: map<Table, Group>) returns (result: seq<Group>)
    requires forall t :: t in order ==> t in groups
    ensures |result| == |order| && forall k :: 0 <= k < |order| ==> order[k] in groups && result[k] == groups[order[k]]
  {
    result := [];
    for i := 0 to |order|
      invariant |result| == i
      invariant forall k :: 0 <= k < i ==> order[k] in groups && result[k] == groups[order[k]]
    {
      assert order[i] in order;
      result := result + [groups[order[i]]];
    }
  }

  lemma SectionsListed(cols: Columns, order: seq<Table>, groups: map<Table, Group>, ops: seq<Op>, result: seq<Group>, render: Render)
    requires SecondPass(cols, groups, ops, ops, render)
    requires |result| == |order| && forall k :: 0 <= k < |order| ==> order[k] in groups && result[k] == groups[order[k]]
    ensures forall k :: 0 <= k < |order| ==> IsSection(cols, result[k], ops, order[k], render)
  {
    forall k | 0 <= k < |order|
      ensures IsSection(cols, result[k], ops, order[k], render)
    {
      assert Filled(cols, groups[order[k]], ops, ops, order[k], render);
    }
  }

  method GroupOperationsBy(cols: Columns, ops: seq<Op>, render: Render) returns (result: seq<Group>)
    requires AllDistinct(cols)
    ensures |result| == |Order(cols, ops)|
    ensures forall i :: 0 <= i < |result| ==> IsSection(cols, result[i], ops, Order(cols, ops)[i], render)
  {
    var order, groups := CollectColumns(cols, ops);
    groups := FillRows(cols, ops, groups, render);
    result := ListGroups(order, groups);
    SectionsListed(cols, order, groups, ops, result, render);
  }

  /** The grouping with the columns the program knows. */
  method GroupOperationsByTable(ops: seq<Op>, render: Render) returns (result: seq<Group>)
    ensures |result| == |Order(PreviewColumns, ops)|
    ensures forall i :: 0 <= i < |result| ==>
              IsSection(PreviewColumns, result[i], ops, Order(PreviewColumns, ops)[i], render)
  {
    PreviewColumnsAllDistinct();
    result := GroupOperationsBy(PreviewColumns, ops, render);
  }

  /** No value is lost: whatever a known column has in an operation of a grouped
      table stands in that operation's row, under exactly one column. */
  lemma ValueIsShown(cols: Columns, g: Group, ops: seq<Op>, t: Table, r: nat, k: nat, render: Render)
    returns (c: nat)
    requires AllDistinct(cols)
    requires IsSection(cols, g, ops, t, render)
    requires r < |OpsOn(ops, t)| && k < |cols(t)| && cols(t)[k].key in OpsOn(ops, t)[r].data
    ensures |g.cells| == |OpsOn(ops, t)| && |g.cells[r]| == |g.specs|
    ensures c < |g.specs| && g.specs[c] == cols(t)[k].spec
    ensures forall e :: 0 <= e < |g.specs| && g.specs[e] == cols(t)[k].spec ==> e == c
    ensures var op, d := OpsOn(ops, t)[r], cols(t)[k];
            var localPhone := t == Vendors && d.key == ColPhone && ColLocale in op.data && op.data[ColLocale].Str?
                              && op.data[ColLocale].s != "";
            var format := if localPhone then PhoneIn(op.data[ColLocale].s) else d.format;
            g.cells[r][c] == Cell(render(format, op.data[d.key]), d.spec.kind, false)
  {
    var op, d := OpsOn(ops, t)[r], cols(t)[k];
    assert op in OpsOn(ops, t);
    var i :| 0 <= i < |ops| && ops[i] == op;
    assert Gives(d.spec, cols(t), ops[i].data);
    assert Populated(cols, d.spec, ops, t);
    ColumnsExactly(cols, ops, t, d.spec);
    c :| 0 <= c < |g.specs| && g.specs[c] == d.spec;
    assert IsRow(cols, g.cells[r], op, g.specs, render);
    assert IsCell(cols, g.cells[r][c], op, g.specs[c], render);
  }

  /** A cell is Null exactly when its operation lacks the column's key. */
  lemma NullExactly(cols: Columns, g: Group, ops: seq<Op>, t: Table, r: nat, c: nat, render: Render)
    requires AllDistinct(cols)
    requires IsSection(cols, g, ops, t, render)
    requires r < |g.cells| && c < |g.specs|
    ensures |g.cells[r]| == |g.specs|
    ensures g.cells[r][c].isNull <==> !Gives(g.specs[c], cols(t), OpsOn(ops, t)[r].data)
    ensures g.cells[r][c].isNull ==> g.cells[r][c] == Cell("", g.specs[c].kind, true)
  {
    var op := OpsOn(ops, t)[r];
    assert op in OpsOn(ops, t);
    KnownColumns(cols, ops, t);
    assert Known(g.specs[c], cols(t));
    assert IsRow(cols, g.cells[r], op, g.specs, render);
    assert IsCell(cols, g.cells[r][c], op, g.specs[c], render);
  }
}
