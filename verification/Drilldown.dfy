/**
 Tabs and the drilldown stack: which table the user looks at, and how fresh its
 rows are. A load is a function of the table and the store's version; a reload may
 fail, and then leaves the table as it was.
 */
module Drilldown {
  import opened Schema

  /** What a tab shows: the rows of its table at some store version, and the cursor's
      row and column. */
  datatype TabState = TabState(table: int, version: nat, stale: bool, rows: seq<string>, cursor: int, col: int)

  /** A drilldown and where it was opened from. */
  datatype Detail = Detail(parentTab: int, parentRow: string, tab: TabState, mutated: bool)

  datatype Nav = Nav(tabs: seq<TabState>, active: int, stack: seq<Detail>)

  /** The store: its version, the row identifiers of each table at each version, where
      the table widget puts its cursor when it gets new rows, and which tables are
      maintenance items or the service log of one. */
  datatype Store = Store(
    version: nat,
    load: (int, nat) -> seq<string>,
    settle: (int, seq<string>) -> int,
    isMaintenance: int -> bool,
    isServiceLog: int -> bool)

  // The column Last of the maintenance tables.
  const MAINTENANCE_LAST := 5

  function Reloaded(t: TabState, s: Store, ok: bool): TabState
  {
    if !ok then t else
      var rows := s.load(t.table, s.version);
      t.(version := s.version, stale := false, rows := rows, cursor := s.settle(t.cursor, rows))
  }

  /** `selectRowByID`: the cursor goes to the first row with the identifier. */
  function Selected(t: TabState, id: string): TabState
  {
    var k := IndexOf(t.rows, id);
    if k < |t.rows| then t.(cursor := k) else t
  }

  function IndexOf(rows: seq<string>, id: string): (k: nat)
    ensures k <= |rows| && (k < |rows| ==> rows[k] == id) && forall i :: 0 <= i < k ==> rows[i] != id
  {
    if rows == [] || rows[0] == id then 0 else
      var k := IndexOf(rows[1..], id);
      assert forall i :: 1 <= i < k + 1 ==> rows[i] == rows[1..][i - 1];
      k + 1
  }

  predicate HasActive(n: Nav)
  {
    0 <= n.active < |n.tabs|
  }

  function ReloadActive(n: Nav, s: Store, ok: bool): Nav
  {
    if HasActive(n) then n.(tabs := n.tabs[n.active := Reloaded(n.tabs[n.active], s, ok)]) else n
  }

  function SelectActive(n: Nav, id: string): Nav
  {
    if HasActive(n) then n.(tabs := n.tabs[n.active := Selected(n.tabs[n.active], id)]) else n
  }

  function Top(n: Nav): Detail
    requires n.stack != []
  {
    n.stack[|n.stack| - 1]
  }

  function WithTop(n: Nav, d: Detail): Nav
    requires n.stack != []
  {
    n.(stack := n.stack[|n.stack| - 1 := d])
  }

  function ReloadTop(n: Nav, s: Store, ok: bool): Nav
    requires n.stack != []
  {
    WithTop(n, Top(n).(tab := Reloaded(Top(n).tab, s, ok)))
  }

  function ReloadEffective(n: Nav, s: Store, ok: bool): Nav
  {
    if n.stack != [] then ReloadTop(n, s, ok) else ReloadActive(n, s, ok)
  }

  function MarkStale(tabs: seq<TabState>, active: int): (t: seq<TabState>)
    ensures |t| == |tabs|
    ensures forall i :: 0 <= i < |t| ==> t[i] == if i == active then tabs[i] else tabs[i].(stale := true)
  {
    seq(|tabs|, i requires 0 <= i < |tabs| => if i == active then tabs[i] else tabs[i].(stale := true))
  }

  /** `reloadAfterMutation`, once the store has changed. */
  function AfterMutation(n: Nav, s: Store, ok: bool): Nav
  {
    var m := if n.stack != [] then WithTop(n, Top(n).(mutated := true)) else n;
    var r := ReloadEffective(m, s, ok);
    r.(tabs := MarkStale(r.tabs, r.active))
  }

  function SwitchedTo(n: Nav, idx: int, s: Store, ok: bool): Nav
  {
    ReloadActive(n.(active := idx), s, ok)
  }

  /** `openDetailWith`: pushed, loaded, and popped again if it does not load. */
  function Opened(n: Nav, d: Detail, s: Store, ok: bool): Nav
  {
    var pushed := ReloadTop(n.(stack := n.stack + [d]), s, ok);
    if ok then pushed else Pop(pushed)
  }

  function Pop(n: Nav): Nav
    requires n.stack != []
  {
    n.(stack := n.stack[..|n.stack| - 1])
  }

  /** The popped drilldown's parent, reloaded, with the row it was opened from selected. */
  function Returned(n: Nav, s: Store, ok: bool): Nav
    requires n.stack != []
  {
    var top, m := Top(n), Pop(n);
    if m.stack != [] then
      var r := ReloadTop(m, s, ok);
      WithTop(r, Top(r).(tab := Selected(Top(r).tab, top.parentRow)))
    else
      SelectActive(ReloadActive(m.(active := top.parentTab), s, ok), top.parentRow)
  }

  /** The column cursor of a maintenance table jumps to Last. */
  function AtLast(t: TabState, s: Store): TabState
  {
    if s.isMaintenance(t.table) then t.(col := MAINTENANCE_LAST) else t
  }

  /** The jump on the table in view. */
  function Jumped(n: Nav, s: Store): Nav
  {
    if n.stack != [] then WithTop(n, Top(n).(tab := AtLast(Top(n).tab, s)))
    else if HasActive(n) then n.(tabs := n.tabs[n.active := AtLast(n.tabs[n.active], s)])
    else n
  }

  predicate ChangedLog(d: Detail, s: Store)
  {
    d.mutated && s.isServiceLog(d.tab.table)
  }

  /** `closeDetail`. A changed service log takes the column cursor to the date that was
      synced from it. */
  function Closed(n: Nav, s: Store, ok: bool): Nav
  {
    if n.stack == [] then n else
      var r := Returned(n, s, ok);
      if ChangedLog(Top(n), s) then Jumped(r, s) else r
  }

  /** `closeAllDetails`. */
  function AllClosed(n: Nav, s: Store, ok: bool): Nav
  {
    if n.stack == [] then n else
      var bottom := n.stack[0];
      SelectActive(ReloadActive(n.(stack := [], active := bottom.parentTab), s, ok), bottom.parentRow)
  }

  // ----- the program's methods -----

  class Model {
    var tabs: seq<TabState>
    var active: int
    var detailStack: seq<Detail>

    ghost function State(): Nav
      reads this
    {
      Nav(tabs, active, detailStack)
    }

    constructor (tabs: seq<TabState>)
      ensures State() == Nav(tabs, 0, [])
    {
      this.tabs, this.active, this.detailStack := tabs, 0, [];
    }

    method ReloadActiveTab(s: Store, ok: bool)
      modifies this`tabs
      ensures State() == ReloadActive(old(State()), s, ok)
    {
      if 0 <= active < |tabs| {
        tabs := tabs[active := Reloaded(tabs[active], s, ok)];
      }
    }

    method ReloadDetailTab(s: Store, ok: bool)
      modifies this`detailStack
      ensures State() == if old(detailStack) == [] then old(State()) else ReloadTop(old(State()), s, ok)
    {
      if |detailStack| > 0 {
        var k := |detailStack| - 1;
        detailStack := detailStack[k := detailStack[k].(tab := Reloaded(detailStack[k].tab, s, ok))];
      }
    }

    /** `reloadAfterMutation`: the table in view is reloaded, the others are marked
        stale. */
    method ReloadAfterMutation(s: Store, ok: bool)
      modifies this
      ensures State() == AfterMutation(old(State()), s, ok)
    {
      if |detailStack| > 0 {
        var k := |detailStack| - 1;
        detailStack := detailStack[k := detailStack[k].(mutated := true)];
        ReloadDetailTab(s, ok);
      } else {
        ReloadActiveTab(s, ok);
      }
      ghost var before := tabs;
      for i := 0 to |tabs|
        invariant |tabs| == |before| && active == old(active)
        invariant detailStack == AfterMutation(old(State()), s, ok).stack
        invariant forall j :: 0 <= j < i ==> tabs[j] == if j == active then before[j] else before[j].(stale := true)
        invariant forall j :: i <= j < |tabs| ==> tabs[j] == before[j]
      {
        if i != active {
          tabs := tabs[i := tabs[i].(stale := true)];
        }
      }
      assert tabs == MarkStale(before, active);
    }

    /** `switchToTab`: the tab is reloaded whether or not it is stale. */
    method SwitchToTab(idx: int, s: Store, ok: bool)
      modifies this`tabs, this`active
      ensures State() == SwitchedTo(old(State()), idx, s, ok)
    {
      active := idx;
      if 0 <= active < |tabs| && tabs[active].stale {
        tabs := tabs[active := Reloaded(tabs[active], s, ok)];
      } else {
        ReloadActiveTab(s, ok);
      }
    }

    method NextTab(s: Store, ok: bool)
      modifies this`tabs, this`active
      ensures State() == if old(active) + 1 < |old(tabs)| && |old(tabs)| > 0 then SwitchedTo(old(State()), old(active) + 1, s, ok) else old(State())
    {
      if |tabs| == 0 {
        return;
      }
      var next := active + 1;
      if next >= |tabs| {
        return;
      }
      SwitchToTab(next, s, ok);
    }

    method PrevTab(s: Store, ok: bool)
      modifies this`tabs, this`active
      ensures State() == if old(active) > 0 && |old(tabs)| > 0 then SwitchedTo(old(State()), old(active) - 1, s, ok) else old(State())
    {
      if |tabs| == 0 {
        return;
      }
      if active <= 0 {
        return;
      }
      SwitchToTab(active - 1, s, ok);
    }

    /** `openDetailWith`. */
    method OpenDetailWith(dc: Detail, s: Store, ok: bool)
      modifies this`detailStack
      ensures State() == Opened(old(State()), dc, s, ok)
    {
      detailStack := detailStack + [dc];
      ReloadDetailTab(s, ok);
      if !ok {
        detailStack := detailStack[..|detailStack| - 1];
        assert detailStack == old(detailStack);
      }
    }

    method SelectOnActive(id: string)
      modifies this`tabs
      ensures State() == SelectActive(old(State()), id)
    {
      if 0 <= active < |tabs| {
        tabs := tabs[active := Selected(tabs[active], id)];
      }
    }

    /** `closeDetail`. */
    method CloseDetail(s: Store, ok: bool)
      modifies this
      ensures State() == Closed(old(State()), s, ok)
    {
      if |detailStack| == 0 {
        return;
      }
      var top := detailStack[|detailStack| - 1];
      detailStack := detailStack[..|detailStack| - 1];
      if |detailStack| > 0 {
        ReloadDetailTab(s, ok);
        var k := |detailStack| - 1;
        detailStack := detailStack[k := detailStack[k].(tab := Selected(detailStack[k].tab, top.parentRow))];
      } else {
        active := top.parentTab;
        ReloadActiveTab(s, ok);
        SelectOnActive(top.parentRow);
      }
      if top.mutated && s.isServiceLog(top.tab.table) {
        JumpToLast(s);
      }
    }

    /** The column cursor of the table in view jumps to Last if that is a maintenance
        table. */
    method JumpToLast(s: Store)
      modifies this`tabs, this`detailStack
      ensures State() == Jumped(old(State()), s)
    {
      if |detailStack| > 0 {
        var k := |detailStack| - 1;
        if s.isMaintenance(detailStack[k].tab.table) {
          detailStack := detailStack[k := detailStack[k].(tab := detailStack[k].tab.(col := MAINTENANCE_LAST))];
        }
      } else if 0 <= active < |tabs| {
        if s.isMaintenance(tabs[active].table) {
          tabs := tabs[active := tabs[active].(col := MAINTENANCE_LAST)];
        }
      }
    }

    /** `closeAllDetails`: one reload, of the tab it returns to. */
    method CloseAllDetails(s: Store, ok: bool)
      modifies this
      ensures State() == AllClosed(old(State()), s, ok)
    {
      if |detailStack| == 0 {
        return;
      }
      var bottom := detailStack[0];
      detailStack := [];
      active := bottom.parentTab;
      ReloadActiveTab(s, ok);
      SelectOnActive(bottom.parentRow);
    }

    /** `navigateToLink`: to a row of another tab. */
    method NavigateToLink(target: int, id: string, s: Store, ok: bool)
      modifies this
      ensures State() == Linked(old(State()), target, id, s, ok)
    {
      CloseAllDetails(s, ok);
      SwitchToTab(target, s, ok);
      SelectOnActive(id);
    }
  }

  function Linked(n: Nav, target: int, id: string, s: Store, ok: bool): Nav
  {
    SelectActive(SwitchedTo(AllClosed(n, s, ok), target, s, ok), id)
  }

  // ----- closing one by one and closing all -----

  function CloseEach(n: Nav, s: Store, ok: bool): Nav
    decreases |n.stack|
  {
    if n.stack == [] then n else CloseEach(Closed(n, s, ok), s, ok)
  }

  /** Closing the bottom drilldown moves the column cursor of the tab below it. */
  predicate JumpsBelow(n: Nav, s: Store)
    requires n.stack != []
  {
    var bottom := n.stack[0];
    && ChangedLog(bottom, s)
    && 0 <= bottom.parentTab < |n.tabs|
    && s.isMaintenance(n.tabs[bottom.parentTab].table)
  }

  /** Closing the drilldowns one by one ends where closing everything at once does, with
      the same tab, rows and selected row and an empty stack, but for the jump of the
      column cursor after a changed service log at the bottom. */
  lemma {:induction false} CloseEachJumps(n: Nav, s: Store, ok: bool)
    ensures n.stack == [] ==> CloseEach(n, s, ok) == n
    ensures n.stack != [] ==>
              CloseEach(n, s, ok) == if ChangedLog(n.stack[0], s) then Jumped(AllClosed(n, s, ok), s) else AllClosed(n, s, ok)
    decreases |n.stack|
  {
    if |n.stack| == 1 {
      assert Pop(n).stack == [];
    } else if |n.stack| > 1 {
      var c := Closed(n, s, ok);
      assert c.tabs == n.tabs && c.active == n.active && |c.stack| == |n.stack| - 1;
      assert BelowSame(c.stack[0], n.stack[0]);
      CloseEachJumps(c, s, ok);
    }
  }

  predicate BelowSame(a: Detail, b: Detail)
  {
    a.parentTab == b.parentTab && a.parentRow == b.parentRow && a.mutated == b.mutated && a.tab.table == b.tab.table
  }

  /** Closing everything at once ends in the same state as closing the drilldowns one by
      one if and only if the bottom one is not a changed service log over a maintenance
      tab, or that tab's column cursor is at Last already. */
  lemma {:induction false} CloseAllIsCloseEach(n: Nav, s: Store, ok: bool)
    ensures CloseEach(n, s, ok) == AllClosed(n, s, ok) <==>
            n.stack == [] || !JumpsBelow(n, s) || n.tabs[n.stack[0].parentTab].col == MAINTENANCE_LAST
  {
    CloseEachJumps(n, s, ok);
    if n.stack != [] && 0 <= n.stack[0].parentTab < |n.tabs| {
      var p := n.stack[0].parentTab;
      var a := AllClosed(n, s, ok);
      assert a.active == p && a.tabs[p].col == n.tabs[p].col && a.tabs[p].table == n.tabs[p].table;
      if JumpsBelow(n, s) {
        assert Jumped(a, s).tabs[p].col == MAINTENANCE_LAST;
      }
    }
  }

  // ----- freshness over runs -----

  function Effective(n: Nav): TabState
    requires HasActive(n)
  {
    if n.stack != [] then Top(n).tab else n.tabs[n.active]
  }

  /** The table in view shows the store as it is. */
  ghost predicate Fresh(n: Nav, version: nat)
  {
    HasActive(n) && Effective(n).version == version
  }

  /** What every local step keeps: the table in view is fresh; every other tab is
      fresh or marked stale (except the one under an open drilldown, which is
      reloaded on return); and drilldowns belong to the active tab. */
  ghost predicate Inv(n: Nav, version: nat)
  {
    && Fresh(n, version)
    && (forall i :: 0 <= i < |n.stack| ==> n.stack[i].parentTab == n.active)
    && (forall i :: 0 <= i < |n.tabs| && !(n.stack != [] && i == n.active) ==>
          (n.tabs[i].stale <==> n.tabs[i].version != version))
    && (forall i :: 0 <= i < |n.tabs| ==> n.tabs[i].version <= version)
  }

  datatype Event =
    | Mutate                              // save, delete or restore
    | Switch(idx: int)                    // tab keys and tab clicks; not in a drilldown
    | Open(row: string, table: int)       // drill down
    | Close
    | CloseAll
    | Link(target: int, row: string)      // follow a link, or jump from the dashboard

  datatype World = World(nav: Nav, store: Store)

  /** What the program lets through: tabs are switched only outside drilldowns, and
      only to tabs there are. */
  predicate Allowed(w: World, e: Event)
  {
    match e
    case Switch(idx) => w.nav.stack == [] && 0 <= idx < |w.nav.tabs|
    case Link(target, _) => 0 <= target < |w.nav.tabs|
    case _ => true
  }

  function NewDetail(n: Nav, row: string, table: int): Detail
  {
    Detail(n.active, row, TabState(table, 0, false, [], 0, 0), false)
  }

  /** A step; `ok` tells whether its reloads succeed. */
  function Tried(w: World, e: Event, ok: bool): World
  {
    match e
    case Mutate =>
      var s := w.store.(version := w.store.version + 1);
      World(AfterMutation(w.nav, s, ok), s)
    case Switch(idx) => w.(nav := SwitchedTo(w.nav, idx, w.store, ok))
    case Open(row, table) => w.(nav := Opened(w.nav, NewDetail(w.nav, row, table), w.store, ok))
    case Close => w.(nav := Closed(w.nav, w.store, ok))
    case CloseAll => w.(nav := AllClosed(w.nav, w.store, ok))
    case Link(target, row) => w.(nav := Linked(w.nav, target, row, w.store, ok))
  }

  /** A step whose reloads succeed. */
  function Next(w: World, e: Event): World
  {
    Tried(w, e, true)
  }

  ghost predicate Good(w: World)
  {
    Inv(w.nav, w.store.version)
  }

  lemma ActiveReloaded(n: Nav, s: Store)
    requires HasActive(n) && n.stack == []
    requires forall i :: 0 <= i < |n.tabs| && i != n.active ==> (n.tabs[i].stale <==> n.tabs[i].version != s.version)
    requires forall i :: 0 <= i < |n.tabs| ==> n.tabs[i].version <= s.version
    ensures Inv(ReloadActive(n, s, true), s.version)
  {
  }

  lemma SelectKeeps(n: Nav, id: string, version: nat)
    requires Inv(n, version) && n.stack == []
    ensures Inv(SelectActive(n, id), version)
  {
  }

  lemma CloseAllGood(n: Nav, s: Store)
    requires Inv(n, s.version)
    ensures Inv(AllClosed(n, s, true), s.version) && AllClosed(n, s, true).stack == []
    ensures |AllClosed(n, s, true).tabs| == |n.tabs| && AllClosed(n, s, true).active == n.active
  {
    if n.stack != [] {
      var m := n.(stack := [], active := n.stack[0].parentTab);
      ActiveReloaded(m, s);
      SelectKeeps(ReloadActive(m, s, true), n.stack[0].parentRow, s.version);
    }
  }

  lemma ReturnedGood(n: Nav, s: Store)
    requires Inv(n, s.version) && n.stack != []
    ensures Inv(Returned(n, s, true), s.version) && |Returned(n, s, true).tabs| == |n.tabs|
  {
    if |n.stack| == 1 {
      assert Pop(n).stack == [];
      CloseAllGood(n, s);
    }
  }

  lemma JumpedGood(n: Nav, s: Store, version: nat)
    requires Inv(n, version)
    ensures Inv(Jumped(n, s), version) && |Jumped(n, s).tabs| == |n.tabs|
  {
  }

  lemma SwitchGood(n: Nav, idx: int, s: Store)
    requires Inv(n, s.version) && n.stack == [] && 0 <= idx < |n.tabs|
    ensures Inv(SwitchedTo(n, idx, s, true), s.version)
  {
    ActiveReloaded(n.(active := idx), s);
  }

  /** Every local step keeps the table in view at the store's version. */
  lemma {:induction false} NextGood(w: World, e: Event)
    requires Good(w) && Allowed(w, e)
    ensures Good(Next(w, e)) && |Next(w, e).nav.tabs| == |w.nav.tabs|
  {
    match e {
      case Mutate =>
      case Switch(idx) => SwitchGood(w.nav, idx, w.store);
      case Open(row, table) =>
      case Close =>
        if w.nav.stack != [] {
          ReturnedGood(w.nav, w.store);
          JumpedGood(Returned(w.nav, w.store, true), w.store, w.store.version);
        }
      case CloseAll => CloseAllGood(w.nav, w.store);
      case Link(target, row) =>
        CloseAllGood(w.nav, w.store);
        var c := AllClosed(w.nav, w.store, true);
        SwitchGood(c, target, w.store);
        SelectKeeps(SwitchedTo(c, target, w.store, true), row, w.store.version);
    }
  }

  /** A run of allowed local steps; None when a step is not allowed. */
  function Exec(w: World, events: seq<Event>): Option<World>
  {
    if events == [] then Some(w) else
      var before := Exec(w, events[..|events| - 1]);
      if before.Some? && Allowed(before.value, events[|events| - 1])
      then Some(Next(before.value, events[|events| - 1])) else None
  }

  /** Over any run of saves, deletes, tab switches, drilldowns and links, the table in
      view is fresh. */
  lemma {:induction false} RunFresh(w: World, events: seq<Event>)
    requires Good(w) && Exec(w, events).Some?
    ensures Good(Exec(w, events).value)
    ensures Fresh(Exec(w, events).value.nav, Exec(w, events).value.store.version)
  {
    if events != [] {
      RunFresh(w, events[..|events| - 1]);
      NextGood(Exec(w, events[..|events| - 1]).value, events[|events| - 1]);
    }
  }

  // ----- what a step shows and what it leaves alone -----

  /** A load that fails leaves the table as it was; one that succeeds shows the store. */
  lemma ReloadShows(t: TabState, s: Store)
    ensures Reloaded(t, s, false) == t
    ensures var r := Reloaded(t, s, true);
            && r.table == t.table && r.col == t.col && r.version == s.version && !r.stale
            && r.rows == s.load(t.table, s.version)
  {
  }

  /** A drilldown that loads is put on top of those that were open, and its own table is
      in view with the store's rows. */
  lemma OpenShows(n: Nav, d: Detail, s: Store)
    requires HasActive(n)
    ensures var o := Opened(n, d, s, true);
            && o.tabs == n.tabs && o.active == n.active
            && |o.stack| == |n.stack| + 1 && n.stack < o.stack
            && Top(o).parentTab == d.parentTab && Top(o).parentRow == d.parentRow && Top(o).mutated == d.mutated
            && Effective(o).table == d.tab.table && Effective(o).version == s.version
            && Effective(o).rows == s.load(d.tab.table, s.version)
  {
    var o := Opened(n, d, s, true);
    assert o.stack[..|n.stack|] == n.stack;
  }

  /** Closing leaves the drilldowns under the parent alone, and the tabs too if the
      parent is a drilldown. */
  lemma CloseKeepsBelow(n: Nav, s: Store, ok: bool)
    requires n.stack != []
    ensures var c, k := Closed(n, s, ok), |n.stack| - 1;
            && |c.stack| == k && |c.tabs| == |n.tabs|
            && (k > 0 ==> c.tabs == n.tabs && c.active == n.active && c.stack[..k - 1] == n.stack[..k - 1])
            && (k > 0 ==> Top(c).tab.table == n.stack[k - 1].tab.table && Top(c).parentRow == n.stack[k - 1].parentRow)
            && (k == 0 ==> c.active == n.stack[0].parentTab)
            && (k == 0 ==> forall i :: 0 <= i < |n.tabs| ==>
                  c.tabs[i].table == n.tabs[i].table && (i != c.active ==> c.tabs[i] == n.tabs[i]))
  {
  }

  /** Opening a drilldown and closing it again shows the table that was in view before,
      reloaded, with the cursor on the row it was opened from. */
  lemma OpenThenClose(n: Nav, row: string, table: int, s: Store)
    requires HasActive(n)
    ensures var c := Closed(Opened(n, NewDetail(n, row, table), s, true), s, true);
            && |c.stack| == |n.stack| && c.active == n.active && HasActive(c)
            && Effective(c).table == Effective(n).table && Effective(c).col == Effective(n).col
            && Effective(c).rows == s.load(Effective(n).table, s.version)
            && (row in Effective(c).rows ==>
                  0 <= Effective(c).cursor < |Effective(c).rows| && Effective(c).rows[Effective(c).cursor] == row)
  {
    var d := NewDetail(n, row, table);
    var o := Opened(n, d, s, true);
    OpenShows(n, d, s);
    assert o.stack[..|n.stack|] == n.stack;
    if row in Effective(Closed(o, s, true)).rows {
      CloseReturnsToRow(o, s);
    }
  }

  /** A mutation marks the drilldown in view as mutated and reloads its table, or the
      active tab; it marks the other tabs as stale and leaves the rest alone. */
  lemma MutationShows(n: Nav, s: Store, ok: bool)
    requires HasActive(n)
    ensures var m := AfterMutation(n, s, ok);
            && m.active == n.active && |m.tabs| == |n.tabs| && |m.stack| == |n.stack|
            && Effective(m) == Reloaded(Effective(n), s, ok)
            && (forall i :: 0 <= i < |n.tabs| && i != n.active ==> m.tabs[i] == n.tabs[i].(stale := true))
            && (n.stack != [] ==>
                  && Top(m).mutated && m.stack[..|n.stack| - 1] == n.stack[..|n.stack| - 1]
                  && Top(m).parentTab == Top(n).parentTab && Top(m).parentRow == Top(n).parentRow
                  && m.tabs[n.active] == n.tabs[n.active])
  {
  }

  /** The column cursor of the table below moves when a drilldown is closed if and only
      if that is a changed service log over a maintenance table, and then to Last. */
  lemma CloseMovesColumn(n: Nav, s: Store, ok: bool)
    requires n.stack != [] && 0 <= Top(n).parentTab < |n.tabs|
    ensures var below := if |n.stack| > 1 then n.stack[|n.stack| - 2].tab else n.tabs[Top(n).parentTab];
            var c := Closed(n, s, ok);
            && HasActive(c) == (|n.stack| > 1 ==> HasActive(n))
            && (HasActive(c) ==> Effective(c).table == below.table)
            && (HasActive(c) ==>
                  Effective(c).col == if ChangedLog(Top(n), s) && s.isMaintenance(below.table) then MAINTENANCE_LAST else below.col)
  {
    if |n.stack| > 1 {
      assert Top(Pop(n)) == n.stack[|n.stack| - 2];
    } else {
      assert Pop(n).stack == [];
    }
  }

  /** Switching shows the target tab, reloaded, and leaves the other tabs alone. */
  lemma SwitchShows(n: Nav, idx: int, s: Store, ok: bool)
    requires 0 <= idx < |n.tabs|
    ensures var t := SwitchedTo(n, idx, s, ok);
            && t.active == idx && t.stack == n.stack && |t.tabs| == |n.tabs|
            && t.tabs[idx] == Reloaded(n.tabs[idx], s, ok)
            && forall i :: 0 <= i < |n.tabs| && i != idx ==> t.tabs[i] == n.tabs[i]
  {
  }

  /** Closing a drilldown returns to the row it was opened from, if the reloaded
      table still has it. */
  lemma CloseReturnsToRow(n: Nav, s: Store)
    requires n.stack != [] && 0 <= Top(n).parentTab < |n.tabs|
    requires HasActive(Closed(n, s, true)) && Top(n).parentRow in Effective(Closed(n, s, true)).rows
    ensures var t := Effective(Closed(n, s, true));
            && t.rows == s.load(t.table, s.version)
            && 0 <= t.cursor < |t.rows| && t.rows[t.cursor] == Top(n).parentRow
  {
    var top, m := Top(n), Pop(n);
    if m.stack != [] {
      SelectedFinds(Top(ReloadTop(m, s, true)).tab, top.parentRow);
    } else {
      SelectedFinds(Reloaded(n.tabs[top.parentTab], s, true), top.parentRow);
    }
  }

  lemma SelectedFinds(t: TabState, id: string)
    ensures Selected(t, id).rows == t.rows && Selected(t, id).table == t.table
    ensures id in t.rows ==> 0 <= Selected(t, id).cursor < |t.rows| && t.rows[Selected(t, id).cursor] == id
    ensures id !in t.rows ==> Selected(t, id) == t
  {
    if id in t.rows {
      var k :| 0 <= k < |t.rows| && t.rows[k] == id;
    }
  }

  /** Following a link shows the linked row of the target table if it is there. */
  lemma LinkSelectsRow(n: Nav, target: int, id: string, s: Store)
    requires Inv(n, s.version) && 0 <= target < |n.tabs|
    ensures var l := Linked(n, target, id, s, true);
            && l.stack == [] && l.active == target && HasActive(l)
            && l.tabs[target].rows == s.load(n.tabs[target].table, s.version)
            && (id in l.tabs[target].rows ==>
                  0 <= l.tabs[target].cursor < |l.tabs[target].rows| && l.tabs[target].rows[l.tabs[target].cursor] == id)
  {
    CloseAllGood(n, s);
    var c := AllClosed(n, s, true);
    var w := SwitchedTo(c, target, s, true);
    SelectedFinds(w.tabs[target], id);
  }

  // ----- reloads that fail -----

  /** A step that tries no reload: there is no drilldown to close. */
  predicate Idle(w: World, e: Event)
  {
    (e.Close? || e.CloseAll?) && w.nav.stack == []
  }

  ghost predicate Sound(n: Nav)
  {
    HasActive(n) && forall i :: 0 <= i < |n.stack| ==> n.stack[i].parentTab == n.active
  }

  /** Steps with the outcomes of their reloads. */
  datatype Try = Try(event: Event, ok: bool)

  function ExecTries(w: World, tries: seq<Try>): Option<World>
  {
    if tries == [] then Some(w) else
      var before := ExecTries(w, tries[..|tries| - 1]);
      var last := tries[|tries| - 1];
      if before.Some? && Allowed(before.value, last.event) then Some(Tried(before.value, last.event, last.ok)) else None
  }

  /** The last reload that was tried, apart from undone openings, succeeded;
      `known` stands for the time before the run. */
  function LastSucceeded(w: World, tries: seq<Try>, known: bool): bool
    requires ExecTries(w, tries).Some?
  {
    if tries == [] then known else
      var before := tries[..|tries| - 1];
      var last := tries[|tries| - 1];
      if Idle(ExecTries(w, before).value, last.event) || (last.event.Open? && !last.ok)
      then LastSucceeded(w, before, known) else last.ok
  }

  lemma TriedSound(w: World, e: Event, ok: bool)
    requires Sound(w.nav) && Allowed(w, e)
    ensures Sound(Tried(w, e, ok).nav) && |Tried(w, e, ok).nav.tabs| == |w.nav.tabs|
  {
    if e.Open? && !ok {
      FailedOpenIsUndone(w.nav, NewDetail(w.nav, e.row, e.table), w.store);
    } else if e.Close? {
      ClosedSound(w.nav, w.store, ok);
    } else if e.Link? {
      AllClosedSound(w.nav, w.store, ok);
    }
  }

  lemma AllClosedSound(n: Nav, s: Store, ok: bool)
    requires Sound(n)
    ensures Sound(AllClosed(n, s, ok)) && |AllClosed(n, s, ok).tabs| == |n.tabs| && AllClosed(n, s, ok).stack == []
  {
  }

  lemma ClosedSound(n: Nav, s: Store, ok: bool)
    requires Sound(n)
    ensures Sound(Closed(n, s, ok)) && |Closed(n, s, ok).tabs| == |n.tabs|
  {
    if n.stack != [] {
      var r := Returned(n, s, ok);
      assert Sound(r) && |r.tabs| == |n.tabs|;
    }
  }

  lemma ClosedFresh(n: Nav, s: Store)
    requires Sound(n) && n.stack != []
    ensures Fresh(Closed(n, s, true), s.version)
  {
    var r := Returned(n, s, true);
    assert Fresh(r, s.version);
  }

  /** A drilldown that fails to load leaves everything as it was. */
  lemma FailedOpenIsUndone(n: Nav, d: Detail, s: Store)
    ensures Opened(n, d, s, false) == n
  {
    assert (n.stack + [d])[..|n.stack|] == n.stack;
  }

  lemma TriedFresh(w: World, e: Event)
    requires Sound(w.nav) && Allowed(w, e) && !Idle(w, e)
    ensures Fresh(Tried(w, e, true).nav, Tried(w, e, true).store.version)
  {
    if e.Close? {
      ClosedFresh(w.nav, w.store);
    } else if e.Link? {
      AllClosedSound(w.nav, w.store, true);
    }
  }

  /** Whatever failed before, the table in view is fresh as soon as a reload succeeds,
      and stays so until one fails; a drilldown that fails to open does not count. */
  lemma {:induction false} FreshAfterSuccess(w: World, tries: seq<Try>, known: bool)
    requires Sound(w.nav) && ExecTries(w, tries).Some?
    requires known ==> Fresh(w.nav, w.store.version)
    ensures var x := ExecTries(w, tries).value;
            Sound(x.nav) && (LastSucceeded(w, tries, known) ==> Fresh(x.nav, x.store.version))
  {
    if tries != [] {
      var before, last := tries[..|tries| - 1], tries[|tries| - 1];
      FreshAfterSuccess(w, before, known);
      var v := ExecTries(w, before).value;
      TriedSound(v, last.event, last.ok);
      if last.event.Open? && !last.ok {
        FailedOpenIsUndone(v.nav, NewDetail(v.nav, last.event.row, last.event.table), v.store);
      } else if !Idle(v, last.event) && last.ok {
        TriedFresh(v, last.event);
      }
    }
  }

  /** The step tries to load tab `i`. */
  predicate TriesTab(w: World, e: Event, i: nat)
  {
    var n := w.nav;
    match e
    case Mutate => n.stack == [] && i == n.active
    case Switch(idx) => i == idx
    case Open(_, _) => false
    case Close => |n.stack| == 1 && i == n.stack[0].parentTab
    case CloseAll => n.stack != [] && i == n.stack[0].parentTab
    case Link(target, _) => i == target || (n.stack != [] && i == n.stack[0].parentTab)
  }

  /** The last load of tab `i` that was tried failed; `known` stands for the time before
      the run. */
  function LastFailed(w: World, tries: seq<Try>, i: nat, known: bool): bool
    requires ExecTries(w, tries).Some?
  {
    if tries == [] then known else
      var before := tries[..|tries| - 1];
      var last := tries[|tries| - 1];
      if TriesTab(ExecTries(w, before).value, last.event, i) then !last.ok else LastFailed(w, before, i, known)
  }

  /** Tab `i` is marked only if it is old, and if it is old it is marked, or its last load
      failed, or it lies under the open drilldowns and is loaded on return. */
  ghost predicate MarkTells(n: Nav, version: nat, i: nat, failed: bool)
  {
    && i < |n.tabs| && n.tabs[i].version <= version
    && (n.tabs[i].stale ==> n.tabs[i].version < version)
    && (n.tabs[i].version < version ==> n.tabs[i].stale || failed || (n.stack != [] && i == n.active))
  }

  lemma MarkAfterReload(n: Nav, s: Store, i: nat, failed: bool, ok: bool)
    requires MarkTells(n, s.version, i, failed) && HasActive(n) && n.stack == []
    ensures MarkTells(ReloadActive(n, s, ok), s.version, i, if i == n.active then !ok else failed)
  {
  }

  lemma MarkAfterClose(n: Nav, s: Store, i: nat, failed: bool, ok: bool)
    requires Sound(n) && MarkTells(n, s.version, i, failed) && n.stack != []
    ensures MarkTells(Closed(n, s, ok), s.version, i, if |n.stack| == 1 && i == n.active then !ok else failed)
  {
    var r := Returned(n, s, ok);
    assert MarkTells(r, s.version, i, if |n.stack| == 1 && i == n.active then !ok else failed);
  }

  lemma MarkAfterCloseAll(n: Nav, s: Store, i: nat, failed: bool, ok: bool)
    requires Sound(n) && MarkTells(n, s.version, i, failed)
    ensures MarkTells(AllClosed(n, s, ok), s.version, i, if n.stack != [] && i == n.active then !ok else failed)
  {
  }

  lemma MarkAfterMutation(n: Nav, s: Store, i: nat, failed: bool, ok: bool)
    requires Sound(n) && s.version > 0 && MarkTells(n, s.version - 1, i, failed)
    ensures MarkTells(AfterMutation(n, s, ok), s.version, i, if n.stack == [] && i == n.active then !ok else failed)
  {
  }

  lemma MarkAfterLink(n: Nav, target: int, id: string, s: Store, i: nat, failed: bool, ok: bool)
    requires Sound(n) && 0 <= target < |n.tabs| && MarkTells(n, s.version, i, failed)
    ensures MarkTells(Linked(n, target, id, s, ok), s.version, i,
                      if i == target || (n.stack != [] && i == n.active) then !ok else failed)
  {
    MarkAfterCloseAll(n, s, i, failed, ok);
    AllClosedSound(n, s, ok);
    var c := AllClosed(n, s, ok);
    MarkAfterReload(c.(active := target), s, i, if n.stack != [] && i == n.active then !ok else failed, ok);
  }

  lemma TriedMarks(w: World, e: Event, ok: bool, i: nat, failed: bool)
    requires Sound(w.nav) && Allowed(w, e) && MarkTells(w.nav, w.store.version, i, failed)
    ensures var x := Tried(w, e, ok);
            MarkTells(x.nav, x.store.version, i, if TriesTab(w, e, i) then !ok else failed)
  {
    var n, s := w.nav, w.store;
    match e {
      case Mutate => MarkAfterMutation(n, s.(version := s.version + 1), i, failed, ok);
      case Switch(idx) => MarkAfterReload(n.(active := idx), s, i, failed, ok);
      case Open(row, table) =>
        if !ok {
          FailedOpenIsUndone(n, NewDetail(n, row, table), s);
        }
      case Close =>
        if n.stack != [] {
          MarkAfterClose(n, s, i, failed, ok);
        }
      case CloseAll => MarkAfterCloseAll(n, s, i, failed, ok);
      case Link(target, row) => MarkAfterLink(n, target, row, s, i, failed, ok);
    }
  }

  /** Over any run with failing and succeeding loads the stale marks tell the truth about
      every tab whose last load did not fail: such a tab, unless it lies under an open
      drilldown, is marked if and only if it is old. A mark is never wrong. */
  lemma {:induction false} MarksAfterFailures(w: World, tries: seq<Try>, i: nat, known: bool)
    requires Sound(w.nav) && ExecTries(w, tries).Some? && MarkTells(w.nav, w.store.version, i, known)
    ensures var x := ExecTries(w, tries).value;
            var isOld := i < |x.nav.tabs| && x.nav.tabs[i].version < x.store.version;
            && Sound(x.nav) && MarkTells(x.nav, x.store.version, i, LastFailed(w, tries, i, known))
            && (x.nav.tabs[i].stale ==> isOld)
            && (!LastFailed(w, tries, i, known) && (x.nav.stack == [] || i != x.nav.active) ==> (x.nav.tabs[i].stale <==> isOld))
  {
    if tries != [] {
      var before, last := tries[..|tries| - 1], tries[|tries| - 1];
      MarksAfterFailures(w, before, i, known);
      var v := ExecTries(w, before).value;
      TriedSound(v, last.event, last.ok);
      TriedMarks(v, last.event, last.ok, i, LastFailed(w, before, i, known));
    }
  }

  /** A tab whose load fails after a mutation is old and not marked, also when it has
      been left for another tab. */
  lemma FailedLoadIsUnmarked(n: Nav, s: Store, j: nat, ok: bool)
    requires n.stack == [] && HasActive(n) && j < |n.tabs| && j != n.active
    requires !n.tabs[n.active].stale && n.tabs[n.active].version == s.version
    ensures var w := World(n, s);
            var x := ExecTries(w, [Try(Mutate, false), Try(Switch(j), ok)]);
            && x.Some? && x.value.nav.active == j && |x.value.nav.tabs| == |n.tabs|
            && x.value.nav.tabs[n.active].version < x.value.store.version && !x.value.nav.tabs[n.active].stale
  {
    var a, b := Try(Mutate, false), Try(Switch(j), ok);
    assert [a][..0] == [] && [a, b][..1] == [a];
    assert ExecTries(World(n, s), [a]) == Some(Tried(World(n, s), Mutate, false));
  }

  // ----- the two ways out of freshness -----

  /** A sync pull reloads the tabs, up to the first one that fails, and not the
      drilldown. */
  function Pulled(n: Nav, s: Store, loads: nat): (m: Nav)
    ensures |m.tabs| == |n.tabs| && m.active == n.active && m.stack == n.stack
  {
    n.(tabs := seq(|n.tabs|, i requires 0 <= i < |n.tabs| => Reloaded(n.tabs[i], s, i < loads)))
  }

  /** After a pull the table in view is fresh if and only if no drilldown is open and its
      tab was loaded. */
  lemma PullFreshExactly(n: Nav, s: Store, loads: nat)
    requires Inv(n, s.version)
    ensures Fresh(Pulled(n, s.(version := s.version + 1), loads), s.version + 1) <==> n.stack == [] && n.active < loads
  {
  }

  /** `docSearchNavigate`: from a drilldown it returns to the documents tab without
      reloading it. */
  function SearchJump(n: Nav, docs: int, id: string, s: Store, ok: bool): Nav
  {
    var m := if n.stack == [] then n else AllClosed(n, s, ok).(active := docs);
    SelectActive(m, id)
  }

  /** After it the table in view is fresh if and only if it did not leave a drilldown, or
      left one over the documents tab, which was reloaded or fresh before, or left one for
      a documents tab that is not marked stale. */
  lemma SearchFreshExactly(n: Nav, docs: int, id: string, s: Store, ok: bool)
    requires Inv(n, s.version) && 0 <= docs < |n.tabs|
    ensures Fresh(SearchJump(n, docs, id, s, ok), s.version) <==>
              || n.stack == []
              || (docs == n.active && (ok || n.tabs[docs].version == s.version))
              || (docs != n.active && !n.tabs[docs].stale)
  {
  }
}
