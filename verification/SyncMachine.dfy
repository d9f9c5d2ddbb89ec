/**
 Background synchronisation: the message handler with its status, its debounce
 generations and its deferred reload, and the world of timers and running syncs
 around it.
 */
module SyncMachine {
  import opened Schema

  datatype Status = Idle | Synced | Syncing | Offline | Conflict

  datatype Mode = Normal | Edit | Form

  /** What a user message can do that matters here; a message can do several. `Load` is
      the load of one tab, after a mutation or a change of tabs; it can fail. */
  datatype Action = Mutate | OpenForm | ExitForm | EnterEdit | EnterNormal | Load(tab: nat, ok: bool)

  datatype Msg =
    | SyncDone(pulled: nat, conflicts: nat)
    | SyncError
    | SyncTick
    | SyncDebounce(gen: nat)
    | User(actions: seq<Action>)

  datatype Cmd = DoSync | StartTick | StartDebounce(gen: nat)

  /** The part of the application state that the sync messages touch. `seen` holds, for
      every tab, the store version it was last loaded from. */
  datatype Model = Model(
    engine: bool,
    status: Status,
    gen: nat,
    pendingReload: bool,
    mode: Mode,
    prevMode: Mode,
    seen: seq<nat>)

  // ----- the handler, on values -----

  /** `reloadAllTabs`: the tabs are loaded one after the other up to the first one that
      fails; `loads` of them succeed before. */
  function Reloaded(seen: seq<nat>, store: nat, loads: nat): (after: seq<nat>)
    ensures |after| == |seen|
    ensures forall i :: 0 <= i < |seen| ==> after[i] == if i < loads then store else seen[i]
  {
    seq(|seen|, i requires 0 <= i < |seen| => if i < loads then store else seen[i])
  }

  function Act(m: Model, a: Action, store: nat, loads: nat): Model
  {
    match a
    case Mutate => if m.engine then m.(gen := m.gen + 1) else m
    case OpenForm => m.(prevMode := m.mode, mode := Form)
    case ExitForm =>
      m.(mode := m.prevMode, pendingReload := false,
         seen := if m.pendingReload then Reloaded(m.seen, store, loads) else m.seen)
    case EnterEdit => if m.mode == Normal then m.(mode := Edit) else m
    case EnterNormal => if m.mode == Edit then m.(mode := Normal) else m
    case Load(tab, ok) => if ok && tab < |m.seen| then m.(seen := m.seen[tab := store]) else m
  }

  function ActAll(m: Model, actions: seq<Action>, store: nat, loads: nat): Model
  {
    if actions == [] then m else Act(ActAll(m, actions[..|actions| - 1], store, loads), actions[|actions| - 1], store, loads)
  }

  /** `loads` says how far the full reload gets, if the message comes to one. */
  function Handle(m: Model, msg: Msg, store: nat, loads: nat): (Model, seq<Cmd>)
  {
    match msg
    case SyncDone(pulled, conflicts) =>
      var n := m.(status := if conflicts > 0 then Conflict else Synced);
      (if pulled == 0 then n else if m.mode == Form then n.(pendingReload := true) else n.(seen := Reloaded(m.seen, store, loads)), [])
    case SyncError => (m.(status := Offline), [])
    case SyncTick =>
      if !m.engine || m.status == Syncing then (m, [StartTick])
      else (m.(status := Syncing), [DoSync, StartTick])
    case SyncDebounce(gen) =>
      if gen != m.gen || !m.engine || m.status == Syncing then (m, [])
      else (m.(status := Syncing), [DoSync])
    case User(actions) => (ActAll(m, actions, store, loads), [])
  }

  /** `Update`: the handler, plus one debounce timer if the message mutated data. */
  function Updated(m: Model, msg: Msg, store: nat, loads: nat): (Model, seq<Cmd>)
  {
    var (n, cmds) := Handle(m, msg, store, loads);
    (n, if m.engine && n.gen != m.gen then cmds + [StartDebounce(n.gen)] else cmds)
  }

  // ----- the handler, as the program runs it -----

  class App {
    var engine: bool
    var status: Status
    var gen: nat
    var pendingReload: bool
    var mode: Mode
    var prevMode: Mode
    var seen: seq<nat>

    ghost function State(): Model
      reads this
    {
      Model(engine, status, gen, pendingReload, mode, prevMode, seen)
    }

    /** A new application, its tabs loaded from the store. */
    constructor (engine: bool, tabs: nat, store: nat)
      ensures State() == Model(engine, if engine then Syncing else Idle, 0, false, Normal, Normal, seq(tabs, _ => store))
    {
      this.engine, this.gen, this.pendingReload := engine, 0, false;
      this.mode, this.prevMode, this.seen := Normal, Normal, seq(tabs, _ => store);
      this.status := if engine then Syncing else Idle;
    }

    /** `Init`: the first sync and the first tick. */
    method Init() returns (cmds: seq<Cmd>)
      modifies this`status
      ensures engine ==> status == Syncing && cmds == [DoSync, StartTick]
      ensures !engine ==> status == old(status) && cmds == []
    {
      cmds := [];
      if engine {
        status := Syncing;
        cmds := [DoSync, StartTick];
      }
    }

    /** `reloadTab`: a tab that fails to load stays as it is. */
    method ReloadTab(tab: nat, store: nat, ok: bool)
      requires tab < |seen|
      modifies this`seen
      ensures seen == if ok then old(seen)[tab := store] else old(seen)
    {
      if ok {
        seen := seen[tab := store];
      }
    }

    /** `reloadAllTabs`: stops at the first tab that fails. */
    method ReloadAllTabs(store: nat, loads: nat)
      modifies this`seen
      ensures seen == Reloaded(old(seen), store, loads)
    {
      for i := 0 to |seen|
        invariant |seen| == |old(seen)| && i <= loads
        invariant forall j :: 0 <= j < i ==> seen[j] == store
        invariant forall j :: i <= j < |seen| ==> seen[j] == old(seen)[j]
      {
        ReloadTab(i, store, i < loads);
        if i >= loads {
          return;
        }
      }
    }

    /** The generation part of `reloadAfterMutation`. */
    method ReloadAfterMutation()
      modifies this`gen
      ensures gen == if engine then old(gen) + 1 else old(gen)
    {
      if engine {
        gen := gen + 1;
      }
    }

    method ActivateForm()
      modifies this`mode, this`prevMode
      ensures mode == Form && prevMode == old(mode)
    {
      prevMode := mode;
      mode := Form;
    }

    /** `exitForm`: the previous mode, and the reload that the form held up. */
    method LeaveForm(store: nat, loads: nat)
      modifies this`mode, this`pendingReload, this`seen
      ensures State() == Act(old(State()), ExitForm, store, loads)
    {
      mode := prevMode;
      if pendingReload {
        pendingReload := false;
        ReloadAllTabs(store, loads);
      }
    }

    method Perform(a: Action, store: nat, loads: nat)
      modifies this
      ensures State() == Act(old(State()), a, store, loads)
    {
      match a {
        case Mutate => ReloadAfterMutation();
        case OpenForm => ActivateForm();
        case ExitForm => LeaveForm(store, loads);
        case EnterEdit =>
          if mode == Normal {
            mode := Edit;
          }
        case EnterNormal =>
          if mode == Edit {
            mode := Normal;
          }
        case Load(tab, ok) =>
          if tab < |seen| {
            ReloadTab(tab, store, ok);
          }
      }
    }

    /** The message cases of `update`. */
    method Dispatch(msg: Msg, store: nat, loads: nat) returns (cmds: seq<Cmd>)
      modifies this
      ensures (State(), cmds) == Handle(old(State()), msg, store, loads)
    {
      match msg {
        case SyncDone(pulled, conflicts) =>
          if conflicts > 0 {
            status := Conflict;
          } else {
            status := Synced;
          }
          if pulled > 0 {
            if mode == Form {
              pendingReload := true;
            } else {
              ReloadAllTabs(store, loads);
            }
          }
          return [];
        case SyncError =>
          status := Offline;
          return [];
        case SyncTick =>
          if !engine || status == Syncing {
            return [StartTick];
          }
          status := Syncing;
          return [DoSync, StartTick];
        case SyncDebounce(g) =>
          if g != gen || !engine || status == Syncing {
            return [];
          }
          status := Syncing;
          return [DoSync];
        case User(actions) =>
          for i := 0 to |actions|
            invariant State() == ActAll(old(State()), actions[..i], store, loads)
          {
            assert actions[..i + 1][..i] == actions[..i];
            Perform(actions[i], store, loads);
          }
          assert actions[..|actions|] == actions;
          return [];
      }
    }

    /** `Update`. */
    method Update(msg: Msg, store: nat, loads: nat) returns (cmds: seq<Cmd>)
      modifies this
      ensures (State(), cmds) == Updated(old(State()), msg, store, loads)
    {
      var prevGen := gen;
      GenOnlyGrows(State(), msg, store, loads);
      cmds := Dispatch(msg, store, loads);
      if engine && gen != prevGen {
        cmds := cmds + [StartDebounce(gen)];
      }
    }
  }

  lemma {:induction false} ActionsKeep(m: Model, actions: seq<Action>, store: nat, loads: nat)
    ensures var n := ActAll(m, actions, store, loads);
            && n.engine == m.engine && n.status == m.status && n.gen >= m.gen
            && (!m.engine ==> n.gen == m.gen)
            && (m.mode == Form || !m.pendingReload ==> n.mode == Form || !n.pendingReload)
            && (n.pendingReload <==> m.pendingReload && ExitForm !in actions)
  {
    if actions != [] {
      var k := |actions| - 1;
      ActionsKeep(m, actions[..k], store, loads);
      assert actions == actions[..k] + [actions[k]];
    }
  }

  /** Every tab is as it was or loaded from the present store; all of them are after a
      full reload. */
  lemma {:induction false} ActionsLoad(m: Model, actions: seq<Action>, store: nat, loads: nat)
    ensures var n := ActAll(m, actions, store, loads);
            && |n.seen| == |m.seen|
            && (forall i :: 0 <= i < |m.seen| ==> n.seen[i] == m.seen[i] || n.seen[i] == store)
            && (m.pendingReload && ExitForm in actions ==> forall i :: 0 <= i < |m.seen| && i < loads ==> n.seen[i] == store)
  {
    if actions != [] {
      var k := |actions| - 1;
      ActionsLoad(m, actions[..k], store, loads);
      ActionsKeep(m, actions[..k], store, loads);
      assert actions == actions[..k] + [actions[k]];
    }
  }

  lemma GenOnlyGrows(m: Model, msg: Msg, store: nat, loads: nat)
    ensures Handle(m, msg, store, loads).0.gen >= m.gen && Handle(m, msg, store, loads).0.engine == m.engine
  {
    if msg.User? {
      ActionsKeep(m, msg.actions, store, loads);
    }
  }

  // ----- the world around it -----

  /** A started sync: still running, or its answer on the way back. */
  datatype Flight = Running | Returned(pulled: nat, conflicts: nat, version: nat) | Failed

  /** The application and what is under way around it: syncs, tick timers, and
      debounce timers in the order they were started. `store` is the store's version,
      `delivered` the version of the latest pull the application was told about. */
  datatype World = World(app: Model, store: nat, delivered: nat, flights: seq<Flight>, ticks: nat, debounces: seq<nat>)

  // `loads`: how many tabs a full reload would load before the first that fails.
  datatype Event =
    | Completes(i: nat, pulled: nat, conflicts: nat)  // a running sync finishes
    | Breaks(i: nat)                                  // a running sync fails
    | Answers(i: nat, loads: nat)                     // a sync's result arrives
    | Ticks                                           // a tick arrives
    | Debounces(i: nat)                               // a debounce timer fires
    | Acts(actions: seq<Action>, loads: nat)          // the user does something

  /** Commands are started by the runtime. */
  function Issue(w: World, cmd: Cmd): World
  {
    match cmd
    case DoSync => w.(flights := w.flights + [Running])
    case StartTick => w.(ticks := w.ticks + 1)
    case StartDebounce(g) => w.(debounces := w.debounces + [g])
  }

  function IssueAll(w: World, cmds: seq<Cmd>): World
    decreases |cmds|
  {
    if cmds == [] then w else IssueAll(Issue(w, cmds[0]), cmds[1..])
  }

  function Deliver(w: World, msg: Msg, loads: nat): World
  {
    var (app, cmds) := Updated(w.app, msg, w.store, loads);
    IssueAll(w.(app := app), cmds)
  }

  function MessageOf(f: Flight): Msg
    requires !f.Running?
  {
    if f.Failed? then SyncError else SyncDone(f.pulled, f.conflicts)
  }

  predicate Enabled(w: World, e: Event)
  {
    match e
    case Completes(i, _, _) => i < |w.flights| && w.flights[i].Running?
    case Breaks(i) => i < |w.flights| && w.flights[i].Running?
    case Answers(i, _) => i < |w.flights| && !w.flights[i].Running?
    case Ticks => w.ticks > 0
    case Debounces(i) => i < |w.debounces|
    case Acts(_, _) => true
  }

  function Next(w: World, e: Event): World
    requires Enabled(w, e)
  {
    match e
    case Completes(i, pulled, conflicts) =>
      var store := if pulled > 0 then w.store + 1 else w.store;
      w.(store := store, flights := w.flights[i := Returned(pulled, conflicts, store)])
    case Breaks(i) => w.(flights := w.flights[i := Failed])
    case Answers(i, loads) =>
      var f := w.flights[i];
      var delivered := if f.Returned? && f.pulled > 0 then Max(f.version, w.delivered) else w.delivered;
      Deliver(w.(flights := Without(w.flights, i), delivered := delivered), MessageOf(f), loads)
    case Ticks => Deliver(w.(ticks := w.ticks - 1), SyncTick, 0)
    case Debounces(i) => Deliver(w.(debounces := Without(w.debounces, i)), SyncDebounce(w.debounces[i]), 0)
    case Acts(actions, loads) =>
      Deliver(w.(store := if Mutate in actions then w.store + 1 else w.store), User(actions), loads)
  }

  /** The world right after the start: tabs loaded, and, with an engine, the first
      sync and the first tick. */
  function Start(engine: bool, tabs: nat, store: nat): World
  {
    World(Model(engine, if engine then Syncing else Idle, 0, false, Normal, Normal, seq(tabs, _ => store)),
          store, 0, if engine then [Running] else [], if engine then 1 else 0, [])
  }

  /** A run: the events one after the other, each of which must be possible. */
  function Exec(w: World, events: seq<Event>): Option<World>
  {
    if events == [] then Some(w) else
      var before := Exec(w, events[..|events| - 1]);
      if before.Some? && Enabled(before.value, events[|events| - 1])
      then Some(Next(before.value, events[|events| - 1])) else None
  }

  // ----- what every run keeps -----

  ghost predicate DebouncesOk(debounces: seq<nat>, gen: nat)
  {
    && (forall i :: 0 <= i < |debounces| ==> 0 < debounces[i] <= gen)
    && forall i, j :: 0 <= i < j < |debounces| ==> debounces[i] < debounces[j]
  }

  /** One sync is in flight while the status says so, none otherwise; one tick is
      outstanding; each generation has at most one debounce, and none is from the
      future; a reload waits only behind a form. */
  ghost predicate Inv(w: World)
  {
    && |w.flights| == (if w.app.status == Syncing then 1 else 0)
    && w.ticks == (if w.app.engine then 1 else 0)
    && DebouncesOk(w.debounces, w.app.gen)
    && (!w.app.engine ==> w.app.gen == 0 && w.app.status == Idle)
    && (w.app.pendingReload ==> w.app.mode == Form)
    && w.delivered <= w.store && NoneAhead(w.app.seen, w.store)
    && forall i :: 0 <= i < |w.flights| && w.flights[i].Returned? ==> w.flights[i].version <= w.store
  }

  ghost predicate NoneAhead(seen: seq<nat>, store: nat)
  {
    forall i :: 0 <= i < |seen| ==> seen[i] <= store
  }

  ghost predicate AllSince(seen: seq<nat>, version: nat)
  {
    forall i :: 0 <= i < |seen| ==> seen[i] >= version
  }

  /** Every tab shows every delivered pull, or a reload waits behind a form. */
  ghost predicate Shown(w: World)
  {
    w.app.pendingReload || AllSince(w.app.seen, w.delivered)
  }

  lemma StartInv(engine: bool, tabs: nat, store: nat)
    ensures Inv(Start(engine, tabs, store)) && Shown(Start(engine, tabs, store))
  {
  }

  lemma IssueOne(w: World, a: Cmd)
    ensures IssueAll(w, []) == w
    ensures IssueAll(w, [a]) == Issue(w, a)
  {
  }

  lemma IssueTwo(w: World, a: Cmd, b: Cmd)
    ensures IssueAll(w, [a, b]) == Issue(Issue(w, a), b)
  {
    assert [a, b][1..] == [b];
    IssueOne(Issue(w, a), b);
  }

  lemma DebouncesWithout(debounces: seq<nat>, gen: nat, i: nat)
    requires DebouncesOk(debounces, gen) && i < |debounces|
    ensures DebouncesOk(Without(debounces, i), gen)
  {
  }

  lemma AnswersInv(w: World, i: nat, loads: nat)
    requires Inv(w) && Enabled(w, Answers(i, loads))
    ensures Inv(Next(w, Answers(i, loads)))
  {
    assert i == 0 && Without(w.flights, 0) == [];
    IssueOne(w, DoSync);
  }

  lemma TicksInv(w: World)
    requires Inv(w) && Enabled(w, Ticks)
    ensures Inv(Next(w, Ticks))
  {
    var v := w.(ticks := w.ticks - 1);
    var (app, cmds) := Updated(v.app, SyncTick, v.store, 0);
    IssueOne(v.(app := app), StartTick);
    IssueTwo(v.(app := app), DoSync, StartTick);
  }

  lemma DebounceInv(w: World, i: nat)
    requires Inv(w) && Enabled(w, Debounces(i))
    ensures Inv(Next(w, Debounces(i)))
  {
    DebouncesWithout(w.debounces, w.app.gen, i);
    var v := w.(debounces := Without(w.debounces, i));
    var (app, cmds) := Updated(v.app, SyncDebounce(w.debounces[i]), v.store, 0);
    IssueOne(v.(app := app), DoSync);
  }

  lemma ActsInv(w: World, actions: seq<Action>, loads: nat)
    requires Inv(w)
    ensures Inv(Next(w, Acts(actions, loads)))
  {
    var v := w.(store := if Mutate in actions then w.store + 1 else w.store);
    ActionsKeep(v.app, actions, v.store, loads);
    ActionsLoad(v.app, actions, v.store, loads);
    var (app, cmds) := Updated(v.app, User(actions), v.store, loads);
    assert cmds == if app.gen != v.app.gen then [StartDebounce(app.gen)] else [];
    IssueOne(v.(app := app), StartDebounce(app.gen));
  }

  /** Every possible step keeps the invariant. */
  lemma NextInv(w: World, e: Event)
    requires Inv(w) && Enabled(w, e)
    ensures Inv(Next(w, e))
  {
    match e {
      case Completes(i, _, _) =>
      case Breaks(i) =>
      case Answers(i, loads) => AnswersInv(w, i, loads);
      case Ticks => TicksInv(w);
      case Debounces(i) => DebounceInv(w, i);
      case Acts(actions, loads) => ActsInv(w, actions, loads);
    }
  }

  /** The step comes to a full reload: a pull is answered outside a form, or a form that
      held one up is closed. */
  predicate Reloads(w: World, e: Event)
    requires Enabled(w, e)
  {
    match e
    case Answers(i, _) => Pull(w.flights[i]) && w.app.mode != Form
    case Acts(actions, _) => w.app.pendingReload && ExitForm in actions
    case _ => false
  }

  predicate Pull(f: Flight)
  {
    f.Returned? && f.pulled > 0
  }

  /** The full reload loads every tab. */
  predicate LoadsAll(w: World, e: Event)
  {
    (e.Answers? || e.Acts?) && e.loads >= |w.app.seen|
  }

  /** A step keeps every delivered pull shown, unless its full reload fails; a full
      reload that succeeds shows them whatever was before. */
  lemma NextShown(w: World, e: Event)
    requires Inv(w) && Enabled(w, e)
    requires if Reloads(w, e) then LoadsAll(w, e) else Shown(w)
    ensures Shown(Next(w, e))
  {
    NextApp(w, e);
    if e.Acts? {
      var store := if Mutate in e.actions then w.store + 1 else w.store;
      ActionsKeep(w.app, e.actions, store, e.loads);
      ActionsLoad(w.app, e.actions, store, e.loads);
    }
  }

  /** What a step does to the application and to what was delivered to it. */
  lemma NextApp(w: World, e: Event)
    requires Enabled(w, e)
    ensures var x := Next(w, e);
            match e
            case Completes(_, _, _) => x.app == w.app && x.delivered == w.delivered
            case Breaks(_) => x.app == w.app && x.delivered == w.delivered
            case Answers(i, loads) =>
              && x.app == Handle(w.app, MessageOf(w.flights[i]), w.store, loads).0
              && x.delivered == if Pull(w.flights[i]) then Max(w.flights[i].version, w.delivered) else w.delivered
            case Ticks => x.app == Handle(w.app, SyncTick, w.store, 0).0 && x.delivered == w.delivered
            case Debounces(i) => x.app == Handle(w.app, SyncDebounce(w.debounces[i]), w.store, 0).0 && x.delivered == w.delivered
            case Acts(actions, loads) =>
              && x.app == ActAll(w.app, actions, if Mutate in actions then w.store + 1 else w.store, loads)
              && x.delivered == w.delivered
  {
    match e {
      case Completes(_, _, _) =>
      case Breaks(_) =>
      case Answers(i, loads) =>
        var f := w.flights[i];
        var delivered := if Pull(f) then Max(f.version, w.delivered) else w.delivered;
        DeliverApp(w.(flights := Without(w.flights, i), delivered := delivered), MessageOf(f), loads);
      case Ticks => DeliverApp(w.(ticks := w.ticks - 1), SyncTick, 0);
      case Debounces(i) => DeliverApp(w.(debounces := Without(w.debounces, i)), SyncDebounce(w.debounces[i]), 0);
      case Acts(actions, loads) =>
        DeliverApp(w.(store := if Mutate in actions then w.store + 1 else w.store), User(actions), loads);
    }
  }

  lemma DeliverApp(v: World, msg: Msg, loads: nat)
    ensures Deliver(v, msg, loads).app == Handle(v.app, msg, v.store, loads).0
    ensures Deliver(v, msg, loads).delivered == v.delivered
  {
    var (app, cmds) := Updated(v.app, msg, v.store, loads);
    IssueKeepsApp(v.(app := app), cmds);
  }

  lemma {:induction false} IssueKeepsApp(w: World, cmds: seq<Cmd>)
    ensures IssueAll(w, cmds).app == w.app && IssueAll(w, cmds).delivered == w.delivered
    decreases |cmds|
  {
    if cmds != [] {
      IssueKeepsApp(Issue(w, cmds[0]), cmds[1..]);
    }
  }

  /** The last full reload that the run came to loaded every tab; `known` stands for the
      time before the run. */
  function LastLoadedAll(w: World, events: seq<Event>, known: bool): bool
    requires Exec(w, events).Some?
  {
    if events == [] then known else
      var before, last := events[..|events| - 1], events[|events| - 1];
      var v := Exec(w, before).value;
      if Reloads(v, last) then LoadsAll(v, last) else LastLoadedAll(w, before, known)
  }

  /** Over every interleaving of ticks, debounces, mutations, forms, loads and sync
      results the invariant holds; and every delivered pull is shown, or its reload waits
      behind a form, whenever the last full reload loaded every tab. */
  lemma {:induction false} RunInv(engine: bool, tabs: nat, store: nat, events: seq<Event>)
    requires Exec(Start(engine, tabs, store), events).Some?
    ensures var start := Start(engine, tabs, store);
            var x := Exec(start, events).value;
            Inv(x) && (LastLoadedAll(start, events, true) ==> Shown(x))
  {
    StartInv(engine, tabs, store);
    if events != [] {
      var before, last := events[..|events| - 1], events[|events| - 1];
      RunInv(engine, tabs, store, before);
      var v := Exec(Start(engine, tabs, store), before).value;
      NextInv(v, last);
      if LastLoadedAll(Start(engine, tabs, store), events, true) {
        NextShown(v, last);
      }
    }
  }

  /** A debounce timer starts a sync exactly when it is the newest one and no sync is
      in flight; then it is the last timer in the queue. A superseded one changes
      nothing. */
  lemma DebounceStarts(w: World, i: nat)
    requires Inv(w) && i < |w.debounces|
    ensures var x := Next(w, Debounces(i));
            && (|x.flights| > |w.flights| <==> w.debounces[i] == w.app.gen && w.flights == [])
            && (w.debounces[i] == w.app.gen ==> i == |w.debounces| - 1)
            && (w.debounces[i] != w.app.gen ==> x == w.(debounces := Without(w.debounces, i)))
  {
    var v := w.(debounces := Without(w.debounces, i));
    var (app, cmds) := Updated(v.app, SyncDebounce(w.debounces[i]), v.store, 0);
    IssueOne(v.(app := app), DoSync);
    if i < |w.debounces| - 1 {
      assert w.debounces[i] < w.debounces[|w.debounces| - 1];
    }
  }

  // ----- an edit is synced -----

  lemma {:induction false} GenMoves(m: Model, actions: seq<Action>, store: nat, loads: nat)
    ensures ActAll(m, actions, store, loads).gen > m.gen <==> m.engine && Mutate in actions
  {
    if actions != [] {
      var k := |actions| - 1;
      GenMoves(m, actions[..k], store, loads);
      ActionsKeep(m, actions[..k], store, loads);
      assert actions == actions[..k] + [actions[k]];
    }
  }

  /** A step with an edit in it starts exactly one timer, of a generation newer than all
      others; no other step starts one. */
  lemma StepTimers(w: World, e: Event)
    requires Inv(w) && w.app.engine && Enabled(w, e)
    ensures var x := Next(w, e);
            && x.app.engine
            && (if e.Acts? && Mutate in e.actions then
                  && x.debounces == w.debounces + [x.app.gen] && x.app.gen > w.app.gen
                  && forall i :: 0 <= i < |w.debounces| ==> w.debounces[i] < x.app.gen
                else
                  && x.debounces == (if e.Debounces? then Without(w.debounces, e.i) else w.debounces)
                  && x.app.gen == w.app.gen)
  {
    match e {
      case Completes(_, _, _) =>
      case Breaks(_) =>
      case Answers(i, loads) => IssueOne(w, DoSync);
      case Ticks =>
        var v := w.(ticks := w.ticks - 1);
        var (app, cmds) := Updated(v.app, SyncTick, v.store, 0);
        IssueOne(v.(app := app), StartTick);
        IssueTwo(v.(app := app), DoSync, StartTick);
      case Debounces(i) =>
        var v := w.(debounces := Without(w.debounces, i));
        var (app, cmds) := Updated(v.app, SyncDebounce(w.debounces[i]), v.store, 0);
        IssueOne(v.(app := app), DoSync);
      case Acts(actions, loads) => ActsTimers(w, actions, loads);
    }
  }

  lemma ActsTimers(w: World, actions: seq<Action>, loads: nat)
    requires Inv(w) && w.app.engine
    ensures var x := Next(w, Acts(actions, loads));
            && x.app.engine
            && (if Mutate in actions then
                  && x.debounces == w.debounces + [x.app.gen] && x.app.gen > w.app.gen
                  && forall i :: 0 <= i < |w.debounces| ==> w.debounces[i] < x.app.gen
                else
                  x.debounces == w.debounces && x.app.gen == w.app.gen)
  {
    var v := w.(store := if Mutate in actions then w.store + 1 else w.store);
    ActionsKeep(v.app, actions, v.store, loads);
    GenMoves(v.app, actions, v.store, loads);
    var (app, cmds) := Updated(v.app, User(actions), v.store, loads);
    assert app.engine && cmds == if app.gen != v.app.gen then [StartDebounce(app.gen)] else [];
    IssueOne(v.(app := app), StartDebounce(app.gen));
  }

  /** The timer of the latest edit has not fired yet. */
  function Waiting(w: World, events: seq<Event>): bool
    requires Exec(w, events).Some?
  {
    if events == [] then false else
      var before, last := events[..|events| - 1], events[|events| - 1];
      var v := Exec(w, before).value;
      if last.Acts? && Mutate in last.actions then true
      else if last.Debounces? && v.debounces[last.i] == v.app.gen then false
      else Waiting(w, before)
  }

  /** Over any run with an engine, the timer of the latest edit is outstanding until it
      fires, and then none is of the present generation. */
  lemma {:induction false} EditTimerWaits(tabs: nat, store: nat, events: seq<Event>)
    requires Exec(Start(true, tabs, store), events).Some?
    ensures var x := Exec(Start(true, tabs, store), events).value;
            x.app.engine && (x.app.gen in x.debounces <==> Waiting(Start(true, tabs, store), events))
  {
    var w := Start(true, tabs, store);
    if events != [] {
      var before, last := events[..|events| - 1], events[|events| - 1];
      EditTimerWaits(tabs, store, before);
      RunInv(true, tabs, store, before);
      var v := Exec(w, before).value;
      StepTimers(v, last);
      if last.Debounces? {
        TimerTaken(v.debounces, v.app.gen, last.i);
      }
    }
  }

  lemma TimerTaken(debounces: seq<nat>, gen: nat, i: nat)
    requires DebouncesOk(debounces, gen) && i < |debounces|
    ensures gen in Without(debounces, i) <==> gen in debounces && debounces[i] != gen
  {
    var rest := Without(debounces, i);
    if gen in debounces && debounces[i] != gen {
      var k :| 0 <= k < |debounces| && debounces[k] == gen;
      assert rest[if k < i then k else k - 1] == gen;
    }
  }

  /** The timer of the latest edit starts a sync if none is in flight; if one is, the edit
      waits for the next tick or edit. */
  lemma EditTimerSyncs(w: World, i: nat)
    requires Inv(w) && i < |w.debounces| && w.debounces[i] == w.app.gen
    ensures var x := Next(w, Debounces(i));
            && x.app.status == Syncing
            && x.flights == if w.flights == [] then [Running] else w.flights
  {
    var v := w.(debounces := Without(w.debounces, i));
    var (app, cmds) := Updated(v.app, SyncDebounce(w.debounces[i]), v.store, 0);
    IssueOne(v.(app := app), DoSync);
  }

  /** A tick starts the next tick, and a sync if there is an engine that is not syncing. */
  lemma TickSyncs(w: World)
    requires Inv(w) && Enabled(w, Ticks)
    ensures var x := Next(w, Ticks);
            && x.ticks == w.ticks
            && x.app.status == Syncing
            && x.flights == if w.app.status == Syncing then w.flights else w.flights + [Running]
  {
    var v := w.(ticks := w.ticks - 1);
    var (app, cmds) := Updated(v.app, SyncTick, v.store, 0);
    IssueOne(v.(app := app), StartTick);
    IssueTwo(v.(app := app), DoSync, StartTick);
  }

  /** The first world is the one that `Init` starts: with an engine a sync is running and
      a tick is on its way. */
  lemma StartIsInit(engine: bool, tabs: nat, store: nat)
    ensures var idle := World(Start(engine, tabs, store).app, store, 0, [], 0, []);
            && Start(engine, tabs, store) == IssueAll(idle, if engine then [DoSync, StartTick] else [])
            && Start(engine, tabs, store).app.status == if engine then Syncing else Idle
  {
    var idle := World(Start(engine, tabs, store).app, store, 0, [], 0, []);
    IssueOne(idle, DoSync);
    IssueTwo(idle, DoSync, StartTick);
  }

  /** Edit mode is entered from normal mode and left for it; a form is closed by neither
      key. */
  lemma ModeKeys(m: Model, store: nat, loads: nat)
    ensures Act(m, EnterEdit, store, loads) == m.(mode := if m.mode == Form then Form else Edit)
    ensures Act(m, EnterNormal, store, loads) == m.(mode := if m.mode == Form then Form else Normal)
  {
  }

  /** Once a sync has answered, the status tells how it went. */
  lemma StatusReports(w: World, i: nat, loads: nat)
    requires Inv(w) && Enabled(w, Answers(i, loads))
    ensures var f, x := w.flights[i], Next(w, Answers(i, loads));
            && x.flights == []
            && (x.app.status == Offline <==> f.Failed?)
            && (x.app.status == Conflict <==> f.Returned? && f.conflicts > 0)
            && (x.app.status == Synced <==> f.Returned? && f.conflicts == 0)
  {
    assert i == 0 && Without(w.flights, 0) == [];
    IssueOne(w, DoSync);
  }

  /** Closing a form shows every delivered pull if and only if the tabs that its reload
      does not get to show them already; in any case nothing is pending any more. */
  lemma ExitShowsPulls(w: World, loads: nat)
    requires Inv(w) && Shown(w)
    ensures var x := Next(w, Acts([ExitForm], loads));
            && !x.app.pendingReload && x.delivered == w.delivered
            && (AllSince(x.app.seen, x.delivered) <==>
                  (w.app.pendingReload ==> forall i :: loads <= i < |w.app.seen| ==> w.app.seen[i] >= w.delivered))
            && |x.app.seen| == |w.app.seen|
            && forall i :: 0 <= i < |w.app.seen| ==>
                 x.app.seen[i] == if w.app.pendingReload && i < loads then w.store else w.app.seen[i]
  {
    NextApp(w, Acts([ExitForm], loads));
    ActOne(w.app, ExitForm, w.store, loads);
  }

  /** A pull that arrives while a form is open leaves the tabs alone and holds its reload
      back; outside a form the tabs are loaded at once, up to the first that fails. */
  lemma PullHeldBack(w: World, i: nat, loads: nat)
    requires Inv(w) && Enabled(w, Answers(i, loads)) && Pull(w.flights[i])
    ensures var x := Next(w, Answers(i, loads));
            && x.app.mode == w.app.mode && |x.app.seen| == |w.app.seen|
            && x.app.pendingReload == (w.app.mode == Form)
            && forall k :: 0 <= k < |w.app.seen| ==>
                 x.app.seen[k] == if w.app.mode != Form && k < loads then w.store else w.app.seen[k]
  {
    NextApp(w, Answers(i, loads));
  }

  lemma ActOne(m: Model, a: Action, store: nat, loads: nat)
    ensures ActAll(m, [a], store, loads) == Act(m, a, store, loads)
  {
    assert [a][..0] == [];
  }

  /** A sync pulls while a form is open; the reload at its exit fails at the second of two
      tabs; then that tab does not show the pull and nothing is pending. */
  lemma FailedExitHidesPull(store: nat)
    ensures var events := [Acts([OpenForm], 0), Completes(0, 1, 0), Answers(0, 0), Acts([ExitForm], 1)];
            var x := Exec(Start(true, 2, store), events);
            && x.Some? && !x.value.app.pendingReload
            && x.value.delivered == store + 1 && x.value.app.seen == [store + 1, store]
  {
    var a, b, c, d := Acts([OpenForm], 0), Completes(0, 1, 0), Answers(0, 0), Acts([ExitForm], 1);
    var w := Start(true, 2, store);
    var w1 := w.(app := w.app.(mode := Form));
    var w2 := w1.(store := store + 1, flights := [Returned(1, 0, store + 1)]);
    var w3 := w2.(flights := [], delivered := store + 1, app := w2.app.(status := Synced, pendingReload := true));
    ActOne(w.app, OpenForm, store, 0);
    ActOne(w3.app, ExitForm, store + 1, 1);
    assert Next(w, a) == w1 && Next(w1, b) == w2 && Next(w2, c) == w3;
    ExecFour(w, a, b, c, d);
  }

  lemma ExecFour(w: World, a: Event, b: Event, c: Event, d: Event)
    requires Enabled(w, a) && Enabled(Next(w, a), b) && Enabled(Next(Next(w, a), b), c)
    requires Enabled(Next(Next(Next(w, a), b), c), d)
    ensures Exec(w, [a, b, c, d]) == Some(Next(Next(Next(Next(w, a), b), c), d))
  {
    assert [a][..0] == [] && [a, b][..1] == [a] && [a, b, c][..2] == [a, b] && [a, b, c, d][..3] == [a, b, c];
    assert Exec(w, [a]) == Some(Next(w, a));
    assert Exec(w, [a, b]) == Some(Next(Next(w, a), b));
    assert Exec(w, [a, b, c]) == Some(Next(Next(Next(w, a), b), c));
  }

  /** The step neither answers a pull nor loads the tab. */
  predicate Passes(w: World, e: Event, tab: nat)
    requires Enabled(w, e)
  {
    match e
    case Answers(i, _) => !Pull(w.flights[i])
    case Acts(actions, _) => Load(tab, true) !in actions
    case _ => true
  }

  predicate AllPass(w: World, events: seq<Event>, tab: nat)
    requires Exec(w, events).Some?
  {
    events == [] ||
    var before, last := events[..|events| - 1], events[|events| - 1];
    AllPass(w, before, tab) && Passes(Exec(w, before).value, last, tab)
  }

  /** A tab that a failed reload left behind stays so, with nothing pending, over any run
      until the next pull or the next load of that tab. */
  lemma {:induction false} StaysBehind(w: World, events: seq<Event>, tab: nat)
    requires Exec(w, events).Some? && AllPass(w, events, tab)
    requires !w.app.pendingReload && tab < |w.app.seen| && w.app.seen[tab] < w.delivered
    ensures var x := Exec(w, events).value;
            && !x.app.pendingReload && x.delivered == w.delivered
            && |x.app.seen| == |w.app.seen| && x.app.seen[tab] == w.app.seen[tab]
  {
    if events != [] {
      var before, last := events[..|events| - 1], events[|events| - 1];
      StaysBehind(w, before, tab);
      var v := Exec(w, before).value;
      NextApp(v, last);
      if last.Acts? {
        ActionsPass(v.app, last.actions, if Mutate in last.actions then v.store + 1 else v.store, last.loads, tab);
      }
    }
  }

  lemma {:induction false} ActionsPass(m: Model, actions: seq<Action>, store: nat, loads: nat, tab: nat)
    requires !m.pendingReload && tab < |m.seen| && Load(tab, true) !in actions
    ensures var n := ActAll(m, actions, store, loads);
            !n.pendingReload && |n.seen| == |m.seen| && n.seen[tab] == m.seen[tab]
  {
    if actions != [] {
      var k := |actions| - 1;
      assert actions[k] in actions;
      ActionsPass(m, actions[..k], store, loads, tab);
    }
  }

  // ----- form mode over runs -----

  /** Everything the user does in a run, in order. */
  function ActionsOf(events: seq<Event>): seq<Action>
  {
    if events == [] then [] else
      ActionsOf(events[..|events| - 1]) + Does(events[|events| - 1])
  }

  /** The mode the last form was opened in; with none opened, the remembered mode. */
  function OpenedFrom(m: Model, actions: seq<Action>): Mode
  {
    if actions == [] then m.prevMode else
      var before := actions[..|actions| - 1];
      if actions[|actions| - 1].OpenForm? then ActAll(m, before, 0, 0).mode else OpenedFrom(m, before)
  }

  ghost predicate SameModes(m: Model, n: Model)
  {
    m.mode == n.mode && m.prevMode == n.prevMode
  }

  lemma {:induction false} ModesAlone(m: Model, n: Model, actions: seq<Action>, s: nat, sLoads: nat, t: nat, tLoads: nat)
    requires SameModes(m, n)
    ensures SameModes(ActAll(m, actions, s, sLoads), ActAll(n, actions, t, tLoads))
  {
    if actions != [] {
      var before, last := actions[..|actions| - 1], actions[|actions| - 1];
      ModesAlone(m, n, before, s, sLoads, t, tLoads);
      ModesAfter(ActAll(m, before, s, sLoads), ActAll(n, before, t, tLoads), last, s, sLoads, t, tLoads);
    }
  }

  lemma ModesAfter(m: Model, n: Model, a: Action, s: nat, sLoads: nat, t: nat, tLoads: nat)
    requires SameModes(m, n)
    ensures SameModes(Act(m, a, s, sLoads), Act(n, a, t, tLoads))
  {
  }

  lemma {:induction false} ActAllConcat(m: Model, a: seq<Action>, b: seq<Action>, store: nat, loads: nat)
    ensures ActAll(m, a + b, store, loads) == ActAll(ActAll(m, a, store, loads), b, store, loads)
  {
    if b == [] {
      assert a + b == a;
    } else {
      var n := |b| - 1;
      assert (a + b)[..|a + b| - 1] == a + b[..n];
      ActAllConcat(m, a, b[..n], store, loads);
    }
  }

  lemma NextModes(w: World, e: Event)
    requires Enabled(w, e)
    ensures SameModes(Next(w, e).app, ActAll(w.app, Does(e), 0, 0))
  {
    NextApp(w, e);
    if e.Acts? {
      ModesAlone(w.app, w.app, e.actions, if Mutate in e.actions then w.store + 1 else w.store, e.loads, 0, 0);
    }
  }

  function Does(e: Event): seq<Action>
  {
    if e.Acts? then e.actions else []
  }

  /** Only what the user does decides the mode. */
  lemma {:induction false} RunModes(w: World, events: seq<Event>)
    requires Exec(w, events).Some?
    ensures SameModes(Exec(w, events).value.app, ActAll(w.app, ActionsOf(events), 0, 0))
  {
    if events != [] {
      var before, last := events[..|events| - 1], events[|events| - 1];
      RunModes(w, before);
      var v := Exec(w, before).value;
      var m := ActAll(w.app, ActionsOf(before), 0, 0);
      NextModes(v, last);
      ModesAlone(v.app, m, Does(last), 0, 0, 0, 0);
      ActAllConcat(w.app, ActionsOf(before), Does(last), 0, 0);
    }
  }

  lemma {:induction false} RemembersOpening(m: Model, actions: seq<Action>)
    ensures ActAll(m, actions, 0, 0).prevMode == OpenedFrom(m, actions)
  {
    if actions != [] {
      RemembersOpening(m, actions[..|actions| - 1]);
    }
  }

  /** After any run, closing a form returns to the mode the last form was opened in: it
      leaves form mode if and only if that form was not opened from form mode. */
  lemma {:induction false} ExitLeavesFormMode(w: World, events: seq<Event>, loads: nat)
    requires Exec(w, events).Some?
    ensures var from := OpenedFrom(w.app, ActionsOf(events));
            var after := Next(Exec(w, events).value, Acts([ExitForm], loads)).app;
            after.mode == from && (after.mode != Form <==> from != Form)
  {
    var x := Exec(w, events).value;
    RunModes(w, events);
    RemembersOpening(w.app, ActionsOf(events));
    NextModes(x, Acts([ExitForm], loads));
    ActOne(x.app, ExitForm, 0, 0);
  }

  /** A form reopened from form mode (the house form, when it is aborted before there
      is a house) leaves the application in form mode however often forms are
      closed. */
  lemma {:induction false} ReopenedFormSticks(m: Model, store: nat, loads: nat, n: nat)
    ensures ActAll(m, [OpenForm, OpenForm] + seq(n, _ => ExitForm), store, loads).mode == Form
    ensures ActAll(m, [OpenForm, OpenForm] + seq(n, _ => ExitForm), store, loads).prevMode == Form
  {
    var actions := [OpenForm, OpenForm] + seq(n, _ => ExitForm);
    if n == 0 {
      assert actions == [OpenForm, OpenForm];
      assert actions[..1] == [OpenForm] && [OpenForm][..0] == [];
      assert ActAll(m, [OpenForm], store, loads) == Act(ActAll(m, [], store, loads), OpenForm, store, loads);
    } else {
      assert actions[..|actions| - 1] == [OpenForm, OpenForm] + seq(n - 1, _ => ExitForm);
      assert actions[|actions| - 1] == ExitForm;
      ReopenedFormSticks(m, store, loads, n - 1);
    }
  }
}
