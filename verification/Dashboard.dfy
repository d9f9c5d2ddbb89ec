/**
 The dashboard overlay: the flat navigation index, the renderer that numbers its
 rows on its own, the scroll window that follows the cursor, and the keys.
 */
module Dashboard {
  import opened Schema

  const INCIDENTS := "Incidents"
  const OVERDUE := "Overdue"
  const UPCOMING := "Upcoming"
  const SEASONAL := "Seasonal"
  const PROJECTS := "Active Projects"
  const EXPIRING := "Expiring Soon"

  datatype TabKind = NoTab | TabIncidents | TabMaintenance | TabProjects | TabAppliances

  /** Identifiers of the loaded dashboard items, by section. */
  datatype Data = Data(
    incidents: seq<string>,
    overdue: seq<string>,
    upcoming: seq<string>,
    seasonal: seq<string>,
    projects: seq<string>,
    warranties: seq<string>,
    insurance: bool)

  datatype NavEntry = NavEntry(tab: TabKind, id: string, section: string, isHeader: bool, infoOnly: bool)

  // ----- the navigation index -----

  datatype Group = Group(title: string, entries: seq<NavEntry>)

  function NavSection(ids: seq<string>, tab: TabKind, section: string): (e: seq<NavEntry>)
    ensures |e| == |ids|
    ensures forall i :: 0 <= i < |ids| ==> e[i] == NavEntry(tab, ids[i], section, false, false)
  {
    seq(|ids|, i requires 0 <= i < |ids| => NavEntry(tab, ids[i], section, false, false))
  }

  function Add(groups: seq<Group>, title: string, entries: seq<NavEntry>): seq<Group>
  {
    if entries == [] then groups else groups + [Group(title, entries)]
  }

  /** The non-empty sections with their entries, in display order. */
  function Groups(d: Data): seq<Group>
  {
    var g := Add([], INCIDENTS, NavSection(d.incidents, TabIncidents, INCIDENTS));
    var g := Add(g, OVERDUE, NavSection(d.overdue, TabMaintenance, OVERDUE));
    var g := Add(g, UPCOMING, NavSection(d.upcoming, TabMaintenance, UPCOMING));
    var g := Add(g, SEASONAL, NavSection(d.seasonal, TabMaintenance, SEASONAL));
    var g := Add(g, PROJECTS, NavSection(d.projects, TabProjects, PROJECTS));
    Add(g, EXPIRING, NavSection(d.warranties, TabAppliances, EXPIRING)
                     + if d.insurance then [NavEntry(NoTab, "", EXPIRING, false, true)] else [])
  }

  function HeaderEntry(title: string): NavEntry
  {
    NavEntry(NoTab, "", title, true, false)
  }

  function Block(g: Group, expanded: set<string>): seq<NavEntry>
  {
    [HeaderEntry(g.title)] + if g.title in expanded then g.entries else []
  }

  /** A header per section, followed by the section's entries when it is expanded. */
  function Nav(groups: seq<Group>, expanded: set<string>): seq<NavEntry>
  {
    if groups == [] then [] else Block(groups[0], expanded) + Nav(groups[1..], expanded)
  }

  /** In the index every section takes one stretch, in order: its header, and below
      it its entries if it is expanded. */
  lemma {:induction false} NavPositions(groups: seq<Group>, expanded: set<string>) returns (starts: seq<nat>)
    ensures |starts| == |groups| + 1 && starts[0] == 0 && starts[|groups|] == |Nav(groups, expanded)|
    ensures forall i :: 0 <= i < |groups| ==> Stretch(Nav(groups, expanded), groups[i], expanded, starts, i)
  {
    if groups == [] {
      starts := [0];
    } else {
      var below := NavPositions(groups[1..], expanded);
      var first, rest := Block(groups[0], expanded), Nav(groups[1..], expanded);
      starts := Shifted(|first|, below);
      forall i | 0 <= i < |groups| ensures Stretch(first + rest, groups[i], expanded, starts, i) {
        if i == 0 {
          assert (first + rest)[1..|first|] == first[1..];
        } else {
          StretchBelow(first, rest, groups[1..][i - 1], expanded, below, i - 1);
        }
      }
    }
  }

  ghost function Shifted(n: nat, starts: seq<nat>): (r: seq<nat>)
    ensures |r| == |starts| + 1 && r[0] == 0
    ensures forall i :: 0 <= i < |starts| ==> r[i + 1] == n + starts[i]
  {
    [0] + seq(|starts|, i requires 0 <= i < |starts| => n + starts[i])
  }

  lemma StretchBelow(first: seq<NavEntry>, rest: seq<NavEntry>, g: Group, expanded: set<string>, starts: seq<nat>, i: nat)
    requires i + 1 < |starts| && Stretch(rest, g, expanded, starts, i)
    ensures Stretch(first + rest, g, expanded, Shifted(|first|, starts), i + 1)
  {
    var nav, to := first + rest, Shifted(|first|, starts);
    assert to[i + 1] == |first| + starts[i] && to[i + 2] == |first| + starts[i + 1];
    assert nav[to[i + 1] + 1..to[i + 2]] == rest[starts[i] + 1..starts[i + 1]];
  }

  ghost predicate Stretch(nav: seq<NavEntry>, g: Group, expanded: set<string>, starts: seq<nat>, i: nat)
    requires i + 1 < |starts|
  {
    && starts[i] < starts[i + 1] <= |nav|
    && nav[starts[i]] == NavEntry(NoTab, "", g.title, true, false)
    && nav[starts[i] + 1..starts[i + 1]] == if g.title in expanded then g.entries else []
  }

  /** The six possible sections, in display order. */
  ghost function Rank(title: string): nat
  {
    if title == "Incidents" then 0 else
    if title == "Overdue" then 1 else
    if title == "Upcoming" then 2 else
    if title == "Seasonal" then 3 else
    if title == "Active Projects" then 4 else
    if title == "Expiring Soon" then 5 else 6
  }

  /** The groups hold a section exactly if it has items, and then with these. */
  ghost predicate Lists(groups: seq<Group>, title: string, entries: seq<NavEntry>)
  {
    if entries == [] then forall i :: 0 <= i < |groups| ==> groups[i].title != title
    else exists i :: 0 <= i < |groups| && groups[i] == Group(title, entries)
  }

  ghost predicate InDisplayOrder(groups: seq<Group>, below: nat)
  {
    && (forall i :: 0 <= i < |groups| ==> Rank(groups[i].title) < below)
    && forall i, j :: 0 <= i < j < |groups| ==> Rank(groups[i].title) < Rank(groups[j].title)
  }

  ghost predicate ListsAll(groups: seq<Group>, wanted: seq<Group>)
  {
    && InDisplayOrder(groups, |wanted|)
    && forall k :: 0 <= k < |wanted| ==> Rank(wanted[k].title) == k && Lists(groups, wanted[k].title, wanted[k].entries)
  }

  lemma AddLists(groups: seq<Group>, wanted: seq<Group>, title: string, entries: seq<NavEntry>)
    requires ListsAll(groups, wanted) && Rank(title) == |wanted|
    ensures ListsAll(Add(groups, title, entries), wanted + [Group(title, entries)])
  {
    var more, all := Add(groups, title, entries), wanted + [Group(title, entries)];
    forall k | 0 <= k < |all| ensures Rank(all[k].title) == k && Lists(more, all[k].title, all[k].entries) {
      if k < |wanted| {
        assert Lists(groups, wanted[k].title, wanted[k].entries);
        if wanted[k].entries != [] {
          var i :| 0 <= i < |groups| && groups[i] == Group(wanted[k].title, wanted[k].entries);
          assert more[i] == groups[i];
        }
      } else if entries != [] {
        assert more[|groups|] == Group(title, entries);
      }
    }
  }

  /** The dashboard lists a section exactly if it has items, in display order, each
      item with its own tab; the insurance comes after the warranties as a plain
      piece of information. */
  lemma GroupsExactly(d: Data)
    ensures ListsAll(Groups(d), [
              Group("Incidents", NavSection(d.incidents, TabIncidents, "Incidents")),
              Group("Overdue", NavSection(d.overdue, TabMaintenance, "Overdue")),
              Group("Upcoming", NavSection(d.upcoming, TabMaintenance, "Upcoming")),
              Group("Seasonal", NavSection(d.seasonal, TabMaintenance, "Seasonal")),
              Group("Active Projects", NavSection(d.projects, TabProjects, "Active Projects")),
              Group("Expiring Soon", NavSection(d.warranties, TabAppliances, "Expiring Soon")
                                     + if d.insurance then [NavEntry(NoTab, "", "Expiring Soon", false, true)] else [])])
  {
    RanksApart();
    var e0, e1, e2 := NavSection(d.incidents, TabIncidents, INCIDENTS), NavSection(d.overdue, TabMaintenance, OVERDUE),
                      NavSection(d.upcoming, TabMaintenance, UPCOMING);
    var e3, e4, e5 := NavSection(d.seasonal, TabMaintenance, SEASONAL), NavSection(d.projects, TabProjects, PROJECTS),
                      NavSection(d.warranties, TabAppliances, EXPIRING)
                      + if d.insurance then [NavEntry(NoTab, "", EXPIRING, false, true)] else [];
    FirstThree(e0, e1, e2);
    var g := Add(Add(Add([], INCIDENTS, e0), OVERDUE, e1), UPCOMING, e2);
    var w := [Group(INCIDENTS, e0), Group(OVERDUE, e1), Group(UPCOMING, e2)];
    AddLists(g, w, SEASONAL, e3);
    AddLists(Add(g, SEASONAL, e3), w + [Group(SEASONAL, e3)], PROJECTS, e4);
    AddLists(Add(Add(g, SEASONAL, e3), PROJECTS, e4), w + [Group(SEASONAL, e3)] + [Group(PROJECTS, e4)], EXPIRING, e5);
    assert w + [Group(SEASONAL, e3)] + [Group(PROJECTS, e4)] + [Group(EXPIRING, e5)]
        == [Group(INCIDENTS, e0), Group(OVERDUE, e1), Group(UPCOMING, e2), Group(SEASONAL, e3), Group(PROJECTS, e4), Group(EXPIRING, e5)];
  }

  lemma FirstThree(e0: seq<NavEntry>, e1: seq<NavEntry>, e2: seq<NavEntry>)
    ensures ListsAll(Add(Add(Add([], INCIDENTS, e0), OVERDUE, e1), UPCOMING, e2),
                     [Group(INCIDENTS, e0), Group(OVERDUE, e1), Group(UPCOMING, e2)])
  {
    RanksApart();
    AddLists([], [], INCIDENTS, e0);
    assert [] + [Group(INCIDENTS, e0)] == [Group(INCIDENTS, e0)];
    AddLists(Add([], INCIDENTS, e0), [Group(INCIDENTS, e0)], OVERDUE, e1);
    AddLists(Add(Add([], INCIDENTS, e0), OVERDUE, e1), [Group(INCIDENTS, e0)] + [Group(OVERDUE, e1)], UPCOMING, e2);
    assert [Group(INCIDENTS, e0)] + [Group(OVERDUE, e1)] + [Group(UPCOMING, e2)]
        == [Group(INCIDENTS, e0), Group(OVERDUE, e1), Group(UPCOMING, e2)];
  }

  lemma RanksApart()
    ensures Rank(INCIDENTS) == 0 && Rank(OVERDUE) == 1 && Rank(UPCOMING) == 2
    ensures Rank(SEASONAL) == 3 && Rank(PROJECTS) == 4 && Rank(EXPIRING) == 5
  {
    assert "Incidents"[0] == 'I' && "Overdue"[0] == 'O' && "Upcoming"[0] == 'U';
    assert "Seasonal"[0] == 'S' && "Active Projects"[0] == 'A' && "Expiring Soon"[0] == 'E';
  }

  method Flatten(groups: seq<Group>, expanded: set<string>) returns (nav: seq<NavEntry>)
    ensures nav == Nav(groups, expanded)
  {
    nav := [];
    for i := 0 to |groups|
      invariant nav + Nav(groups[i..], expanded) == Nav(groups, expanded)
    {
      NavStep(groups, expanded, i, nav);
      ghost var above := nav;
      nav := nav + [HeaderEntry(groups[i].title)];
      if groups[i].title in expanded {
        nav := nav + groups[i].entries;
        BlockOf(above, groups[i], expanded);
      }
      assert nav == above + Block(groups[i], expanded);
    }
  }

  lemma NavStep(groups: seq<Group>, expanded: set<string>, i: nat, acc: seq<NavEntry>)
    requires i < |groups|
    ensures acc + Nav(groups[i..], expanded) == (acc + Block(groups[i], expanded)) + Nav(groups[i + 1..], expanded)
  {
    assert groups[i..][0] == groups[i] && groups[i..][1..] == groups[i + 1..];
  }

  // ----- the renderer -----

  datatype Target = Target(tab: TabKind, id: string, infoOnly: bool)

  /** A row of a section; a row without target is not navigable. */
  datatype Row = Row(target: Option<Target>)

  datatype Section = Section(title: string, headers: seq<string>, rows: seq<Row>)

  function RowsFor(ids: seq<string>, tab: TabKind): (rows: seq<Row>)
    ensures |rows| == |ids|
    ensures forall i :: 0 <= i < |ids| ==> rows[i] == Row(Some(Target(tab, ids[i], false)))
  {
    seq(|ids|, i requires 0 <= i < |ids| => Row(Some(Target(tab, ids[i], false))))
  }

  function AddSection(sections: seq<Section>, title: string, headers: seq<string>, rows: seq<Row>): seq<Section>
  {
    if rows == [] then sections else sections + [Section(title, headers, rows)]
  }

  /** The sections the renderer collects from the same data. */
  function Sections(d: Data): seq<Section>
  {
    var s := AddSection([], INCIDENTS, ["", "prio", "reported"], RowsFor(d.incidents, TabIncidents));
    var s := AddSection(s, OVERDUE, ["", "overdue"], RowsFor(d.overdue, TabMaintenance));
    var s := AddSection(s, UPCOMING, ["", "due"], RowsFor(d.upcoming, TabMaintenance));
    var s := AddSection(s, SEASONAL, ["", "category"], RowsFor(d.seasonal, TabMaintenance));
    var s := AddSection(s, PROJECTS, ["", "status", "started"], RowsFor(d.projects, TabProjects));
    AddSection(s, EXPIRING, ["", "expires"],
               RowsFor(d.warranties, TabAppliances)
               + if d.insurance then [Row(Some(Target(NoTab, "", true)))] else [])
  }

  /** A rendered line; clickable lines carry the number of their zone. */
  datatype Line =
    | Blank
    | Header(title: string, count: nat, mark: nat)
    | Labels
    | Rule
    | Data_(section: string, target: Option<Target>, zone: Option<nat>)

  function MarkOf(l: Line): Option<nat>
  {
    match l
    case Header(_, _, k) => Some(k)
    case Data_(_, _, z) => z
    case _ => None
  }

  /** What a clickable line stands for. */
  function Entry(l: Line): NavEntry
    requires MarkOf(l).Some?
  {
    match l
    case Header(title, _, _) => HeaderEntry(title)
    case Data_(section, target, _) =>
      if target.Some? then NavEntry(target.value.tab, target.value.id, section, false, target.value.infoOnly)
      else HeaderEntry(section)
  }

  ghost predicate Labelled(s: Section)
  {
    s.rows != [] && exists j :: 0 <= j < |s.headers| && s.headers[j] != ""
  }

  /** `renderMiniTable`: labels and a rule if any label is set, then the rows; no
      line is numbered yet. */
  method RenderMiniTable(s: Section) returns (lines: seq<Line>)
    ensures |lines| == |s.rows| + if Labelled(s) then 2 else 0
    ensures TableShown(lines, s)
    ensures forall k :: 0 <= k < |s.rows| ==> lines[|lines| - |s.rows| + k] == Data_(s.title, s.rows[k].target, None)
    ensures forall j :: 0 <= j < |lines| ==> MarkOf(lines[j]).None?
  {
    lines := [];
    if |s.rows| == 0 {
      return;
    }
    var hasHeaders := false;
    for i := 0 to |s.headers|
      invariant hasHeaders <==> exists j :: 0 <= j < i && s.headers[j] != ""
    {
      if s.headers[i] != "" {
        hasHeaders := true;
        break;
      }
    }
    if hasHeaders {
      lines := [Labels, Rule];
    }
    var top := |lines|;
    for i := 0 to |s.rows|
      invariant |lines| == top + i
      invariant hasHeaders ==> lines[..2] == [Labels, Rule]
      invariant forall k :: 0 <= k < i ==> lines[top + k] == Data_(s.title, s.rows[k].target, None)
      invariant forall j :: 0 <= j < |lines| ==> MarkOf(lines[j]).None?
    {
      lines := lines + [Data_(s.title, s.rows[i].target, None)];
    }
    forall k | 0 <= k < |s.rows| ensures RowShown(lines, top, s, k) {
      assert lines[top + k] == Data_(s.title, s.rows[k].target, None);
    }
  }

  /** The entries of the clickable lines, top to bottom. */
  function Marked(lines: seq<Line>): seq<NavEntry>
  {
    if lines == [] then [] else
      var n := |lines| - 1;
      Marked(lines[..n]) + if MarkOf(lines[n]).Some? then [Entry(lines[n])] else []
  }

  /** Clickable lines are numbered from 0, top to bottom. */
  predicate Numbered(lines: seq<Line>)
  {
    lines == [] ||
    var n := |lines| - 1;
    Numbered(lines[..n]) && (MarkOf(lines[n]).Some? ==> MarkOf(lines[n]).value == |Marked(lines[..n])|)
  }

  lemma MarkedAppend(lines: seq<Line>, l: Line)
    ensures Marked(lines + [l]) == Marked(lines) + if MarkOf(l).Some? then [Entry(l)] else []
    ensures Numbered(lines) && (MarkOf(l).Some? ==> MarkOf(l).value == |Marked(lines)|) ==> Numbered(lines + [l])
  {
    assert (lines + [l])[..|lines|] == lines;
  }

  /** In numbered lines, the line with number k stands for entry k. */
  lemma {:induction false} MarkedEntry(lines: seq<Line>, l: nat)
    requires Numbered(lines) && l < |lines| && MarkOf(lines[l]).Some?
    ensures MarkOf(lines[l]).value < |Marked(lines)|
    ensures Marked(lines)[MarkOf(lines[l]).value] == Entry(lines[l])
  {
    var n := |lines| - 1;
    if l < n {
      MarkedEntry(lines[..n], l);
    }
  }

  function SectionEntries(s: Section): (e: seq<NavEntry>)
    ensures |e| == |s.rows|
    ensures forall i :: 0 <= i < |s.rows| && s.rows[i].target.Some? ==>
              e[i] == NavEntry(s.rows[i].target.value.tab, s.rows[i].target.value.id, s.title, false, s.rows[i].target.value.infoOnly)
  {
    seq(|s.rows|, i requires 0 <= i < |s.rows| => Entry(Data_(s.title, s.rows[i].target, Some(0))))
  }

  ghost predicate AllTargets(s: Section)
  {
    forall i :: 0 <= i < |s.rows| ==> s.rows[i].target.Some?
  }

  /** The renderer's sections and the index's groups describe the same things. */
  ghost predicate Matching(sections: seq<Section>, groups: seq<Group>)
  {
    && |sections| == |groups|
    && forall i :: 0 <= i < |sections| ==>
         AllTargets(sections[i]) && groups[i] == Group(sections[i].title, SectionEntries(sections[i]))
  }

  lemma AddMatches(sections: seq<Section>, groups: seq<Group>, title: string, headers: seq<string>, rows: seq<Row>, entries: seq<NavEntry>)
    requires Matching(sections, groups)
    requires |rows| == |entries| && AllTargets(Section(title, headers, rows))
    requires entries == SectionEntries(Section(title, headers, rows))
    ensures Matching(AddSection(sections, title, headers, rows), Add(groups, title, entries))
  {
  }

  lemma SectionsMatchGroups(d: Data)
    ensures Matching(Sections(d), Groups(d))
  {
    var s0, g0 := AddSection([], INCIDENTS, ["", "prio", "reported"], RowsFor(d.incidents, TabIncidents)),
                  Add([], INCIDENTS, NavSection(d.incidents, TabIncidents, INCIDENTS));
    AddMatches([], [], INCIDENTS, ["", "prio", "reported"], RowsFor(d.incidents, TabIncidents), NavSection(d.incidents, TabIncidents, INCIDENTS));
    var s1, g1 := AddSection(s0, OVERDUE, ["", "overdue"], RowsFor(d.overdue, TabMaintenance)),
                  Add(g0, OVERDUE, NavSection(d.overdue, TabMaintenance, OVERDUE));
    AddMatches(s0, g0, OVERDUE, ["", "overdue"], RowsFor(d.overdue, TabMaintenance), NavSection(d.overdue, TabMaintenance, OVERDUE));
    var s2, g2 := AddSection(s1, UPCOMING, ["", "due"], RowsFor(d.upcoming, TabMaintenance)),
                  Add(g1, UPCOMING, NavSection(d.upcoming, TabMaintenance, UPCOMING));
    AddMatches(s1, g1, UPCOMING, ["", "due"], RowsFor(d.upcoming, TabMaintenance), NavSection(d.upcoming, TabMaintenance, UPCOMING));
    var s3, g3 := AddSection(s2, SEASONAL, ["", "category"], RowsFor(d.seasonal, TabMaintenance)),
                  Add(g2, SEASONAL, NavSection(d.seasonal, TabMaintenance, SEASONAL));
    AddMatches(s2, g2, SEASONAL, ["", "category"], RowsFor(d.seasonal, TabMaintenance), NavSection(d.seasonal, TabMaintenance, SEASONAL));
    var s4, g4 := AddSection(s3, PROJECTS, ["", "status", "started"], RowsFor(d.projects, TabProjects)),
                  Add(g3, PROJECTS, NavSection(d.projects, TabProjects, PROJECTS));
    AddMatches(s3, g3, PROJECTS, ["", "status", "started"], RowsFor(d.projects, TabProjects), NavSection(d.projects, TabProjects, PROJECTS));
    AddMatches(s4, g4, EXPIRING, ["", "expires"],
               RowsFor(d.warranties, TabAppliances) + if d.insurance then [Row(Some(Target(NoTab, "", true)))] else [],
               NavSection(d.warranties, TabAppliances, EXPIRING)
               + if d.insurance then [NavEntry(NoTab, "", EXPIRING, false, true)] else []);
  }

  // ----- the scroll window -----

  function ScrolledTo(offset: int, target: int, viewportH: int, total: int): int
  {
    var moved := if target < offset then target
                 else if target >= offset + viewportH then target - viewportH + 1
                 else offset;
    var max := Max(total - viewportH, 0);
    var capped := if moved > max then max else moved;
    if capped < 0 then 0 else capped
  }

  /** An offset from which a window of `viewportH` lines shows `target` and, where
      there are enough lines, is full. */
  ghost predicate GoodOffset(offset: int, target: int, viewportH: int, total: int)
  {
    0 <= offset <= Max(total - viewportH, 0) && offset <= target < offset + viewportH
  }

  /** Scrolling goes to the nearest good offset; a good one stays. */
  lemma LeastScroll(offset: int, target: int, viewportH: int, total: int, other: int)
    requires viewportH >= 1 && 0 <= target < total
    requires GoodOffset(other, target, viewportH, total)
    ensures var to := ScrolledTo(offset, target, viewportH, total);
            && GoodOffset(to, target, viewportH, total)
            && Max(to - offset, offset - to) <= Max(other - offset, offset - other)
  {
  }

  function WindowHeight(budget: int, indicators: int): int
  {
    Max(budget - indicators, 1)
  }

  function WindowEnd(offset: int, budget: int, indicators: int, total: int): int
  {
    var end := offset + WindowHeight(budget, indicators);
    if end < total then end else total
  }

  /** Indicator lines a window needs: one per side with hidden lines. */
  function Needed(offset: int, budget: int, indicators: int, total: int): int
  {
    (if offset > 0 then 1 else 0) + if WindowEnd(offset, budget, indicators, total) < total then 1 else 0
  }

  /** Up to `rounds` rounds of scrolling and re-counting the indicators. */
  function Settle(offset: int, cursor: int, budget: int, total: int, indicators: int, rounds: nat): (int, int)
    decreases rounds
  {
    if rounds == 0 then (offset, indicators) else
      var o := ScrolledTo(offset, cursor, WindowHeight(budget, indicators), total);
      var needed := Needed(o, budget, indicators, total);
      if needed == indicators then (o, indicators) else Settle(o, cursor, budget, total, needed, rounds - 1)
  }

  /** Lines on screen: the window and its indicators. */
  function ShownLines(offset: int, budget: int, indicators: int, total: int): int
  {
    WindowEnd(offset, budget, indicators, total) - offset + Needed(offset, budget, indicators, total)
  }

  /** Three rounds are enough, from any earlier offset: the indicator count is a
      fixpoint, the output is exactly `budget` lines, and the cursor's line is in
      the window. */
  lemma SettlesInThree(offset: int, cursor: int, budget: int, total: int)
    requires budget >= 3 && total > budget && 0 <= cursor < total
    ensures var (o, ind) := Settle(offset, cursor, budget, total, 0, 3);
            && Needed(o, budget, ind, total) == ind
            && ShownLines(o, budget, ind, total) == budget
            && 0 <= o <= cursor < WindowEnd(o, budget, ind, total) <= total
  {
    var o1 := ScrolledTo(offset, cursor, budget, total);
    var n1 := Needed(o1, budget, 0, total);
    var o2 := ScrolledTo(o1, cursor, budget - n1, total);
    var n2 := Needed(o2, budget, n1, total);
    if n2 != n1 {
      var o3 := ScrolledTo(o2, cursor, budget - n2, total);
      assert Settle(offset, cursor, budget, total, 0, 3) == Settle(o2, cursor, budget, total, n2, 1);
    }
  }

  /** Whatever the budget, the cursor's line ends up in the window. */
  lemma CursorInWindow(offset: int, cursor: int, budget: int, total: int)
    requires budget >= 1 && total > budget && 0 <= cursor < total
    ensures var (o, ind) := Settle(offset, cursor, budget, total, 0, 3);
            && 0 <= o <= cursor < WindowEnd(o, budget, ind, total) <= total
            && WindowEnd(o, budget, ind, total) - o <= budget <= ShownLines(o, budget, ind, total)
            && (budget >= 3 ==> ShownLines(o, budget, ind, total) == budget)
  {
    if budget >= 3 {
      SettlesInThree(offset, cursor, budget, total);
    } else {
      var o1 := ScrolledTo(offset, cursor, budget, total);
      var n1 := Needed(o1, budget, 0, total);
      assert n1 >= 1;
      assert Settle(offset, cursor, budget, total, 0, 3) == Settle(o1, cursor, budget, total, n1, 2);
      assert ScrolledTo(o1, cursor, 1, total) == cursor == ScrolledTo(cursor, cursor, 1, total);
    }
  }

  /** The budget of three lines is needed: with one or two the window and its
      indicators can take more lines than there are. */
  lemma BudgetOfThree(budget: int)
    requires budget >= 1
    ensures (forall offset: int, cursor: int, total: int :: total > budget && 0 <= cursor < total ==>
               Overshoot(offset, cursor, budget, total) == 0)
       <==> budget >= 3
  {
    if budget >= 3 {
      forall offset: int, cursor: int, total: int | total > budget && 0 <= cursor < total
        ensures Overshoot(offset, cursor, budget, total) == 0
      {
        SettlesInThree(offset, cursor, budget, total);
      }
    } else {
      assert Settle(0, 5, budget, 10, 0, 3) == Settle(6 - budget, 5, budget, 10, 2, 2);
      assert Overshoot(0, 5, budget, 10) == 3 - budget;
    }
  }

  /** Lines shown beyond the budget. */
  function Overshoot(offset: int, cursor: int, budget: int, total: int): int
  {
    var (o, ind) := Settle(offset, cursor, budget, total, 0, 3);
    ShownLines(o, budget, ind, total) - budget
  }

  datatype Shown = More(up: bool, count: nat) | Content(line: Line)

  /** The output is the lines from `start` to `end` in order, between an indicator
      for the lines above and one for the lines below, each if there are any. */
  ghost predicate ShowsWindow(output: seq<Shown>, lines: seq<Line>, start: int, end: int)
  {
    && 0 <= start < end <= |lines|
    && var top := if start > 0 then 1 else 0;
    && |output| == top + (end - start) + (if end < |lines| then 1 else 0)
    && (start > 0 ==> output[0] == More(true, start))
    && (forall i :: start <= i < end ==> output[top + (i - start)] == Content(lines[i]))
    && (end < |lines| ==> output[|output| - 1] == More(false, |lines| - end))
  }

  /** The lines of an open section below its header: its labels, if any, and its rows. */
  ghost predicate TableShown(part: seq<Line>, s: Section)
  {
    var labels := if Labelled(s) then 2 else 0;
    && |part| == labels + |s.rows|
    && (Labelled(s) ==> part[0] == Labels && part[1] == Rule)
    && forall k :: 0 <= k < |s.rows| ==> RowShown(part, labels, s, k)
  }

  ghost predicate RowShown(part: seq<Line>, labels: nat, s: Section, k: nat)
    requires k < |s.rows| && labels + k < |part|
  {
    var l := part[labels + k];
    l.Data_? && l.section == s.title && l.target == s.rows[k].target
  }

  function Contents(lines: seq<Line>): (c: seq<Shown>)
    ensures |c| == |lines| && forall i :: 0 <= i < |c| ==> c[i] == Content(lines[i])
  {
    seq(|lines|, i requires 0 <= i < |lines| => Content(lines[i]))
  }

  lemma WindowAssembled(above: seq<Shown>, output: seq<Shown>, lines: seq<Line>, start: int, end: int)
    requires 0 <= start < end <= |lines|
    requires above == if start > 0 then [More(true, start)] else []
    requires output == above + Contents(lines[start..end]) + if end < |lines| then [More(false, |lines| - end)] else []
    ensures ShowsWindow(output, lines, start, end)
  {
    var top := if start > 0 then 1 else 0;
    var shown := Contents(lines[start..end]);
    forall i | start <= i < end ensures output[top + (i - start)] == Content(lines[i]) {
      assert output[top + (i - start)] == shown[i - start];
    }
  }

  /** What a section puts on screen: a blank line unless it is the first, its header
      with the number of its rows, and its table when it is open. */
  ghost predicate SectionShown(part: seq<Line>, s: Section, first: bool, open: bool)
  {
    var h := if first then 0 else 1;
    && |part| > h
    && (!first ==> part[0] == Blank)
    && part[h].Header? && part[h].title == s.title && part[h].count == |s.rows|
    && if open then TableShown(part[h + 1..], s) else |part| == h + 1
  }

  /** The lines are those of the sections one after the other; section `i` begins
      at line `starts[i]`. */
  ghost predicate AllShown(lines: seq<Line>, sections: seq<Section>, expanded: set<string>, starts: seq<nat>)
  {
    && |starts| == |sections| + 1 && starts[0] == 0 && starts[|sections|] == |lines|
    && forall i :: 0 <= i < |sections| ==> PartShown(lines, sections, expanded, starts, i)
  }

  ghost predicate PartShown(lines: seq<Line>, sections: seq<Section>, expanded: set<string>, starts: seq<nat>, i: nat)
    requires |starts| == |sections| + 1 && i < |sections|
  {
    && starts[i] <= starts[i + 1] <= |lines|
    && SectionShown(lines[starts[i]..starts[i + 1]], sections[i], i == 0, sections[i].title in expanded)
  }

  lemma ShownAppend(lines: seq<Line>, sections: seq<Section>, expanded: set<string>, starts: seq<nat>, s: Section, part: seq<Line>)
    requires AllShown(lines, sections, expanded, starts)
    requires SectionShown(part, s, |sections| == 0, s.title in expanded)
    ensures AllShown(lines + part, sections + [s], expanded, starts + [|lines + part|])
  {
    var more, all, marks := lines + part, sections + [s], starts + [|lines + part|];
    forall i | 0 <= i < |all| ensures PartShown(more, all, expanded, marks, i) {
      if i < |sections| {
        assert PartShown(lines, sections, expanded, starts, i);
        assert more[starts[i]..starts[i + 1]] == lines[starts[i]..starts[i + 1]];
      } else {
        assert more[marks[i]..marks[i + 1]] == part;
      }
    }
  }

  /** The lines are those of the table so far, whatever their numbers. */
  ghost predicate Copied(part: seq<Line>, tbl: seq<Line>)
  {
    |part| <= |tbl| && forall k :: 0 <= k < |part| ==> Alike(part[k], tbl[k])
  }

  ghost predicate Alike(a: Line, b: Line)
  {
    a == b || (a.Data_? && b.Data_? && a.section == b.section && a.target == b.target)
  }

  lemma CopiedMore(lines0: seq<Line>, lines: seq<Line>, more: seq<Line>, tbl: seq<Line>)
    requires lines0 <= lines && Copied(lines[|lines0|..], tbl)
    requires |more| == |lines| + 1 && more[..|lines|] == lines
    requires |lines| - |lines0| < |tbl| && Alike(more[|lines|], tbl[|lines| - |lines0|])
    ensures lines0 <= more && Copied(more[|lines0|..], tbl)
  {
    assert more[..|lines|][..|lines0|] == more[..|lines0|];
    var part := more[|lines0|..];
    forall k | 0 <= k < |part| ensures Alike(part[k], tbl[k]) {
      if |lines0| + k < |lines| {
        assert part[k] == more[..|lines|][|lines0| + k] == lines[|lines0|..][k];
      }
    }
  }

  ghost predicate HeaderShown(lines0: seq<Line>, lines: seq<Line>, s: Section, first: bool, mark: nat)
  {
    && lines0 <= lines && |lines| == |lines0| + (if first then 1 else 2)
    && (!first ==> lines[|lines0|] == Blank)
    && lines[|lines| - 1] == Header(s.title, |s.rows|, mark)
  }

  lemma BlockOf(done: seq<NavEntry>, g: Group, expanded: set<string>)
    requires g.title in expanded
    ensures done + [HeaderEntry(g.title)] + g.entries == done + Block(g, expanded)
  {
  }

  /** A header drawn on `lines0`, with a table below it if it is open, is a section. */
  lemma HeaderAndTable(lines0: seq<Line>, top: seq<Line>, lines: seq<Line>, s: Section, first: bool, mark: nat, open: bool)
    requires HeaderShown(lines0, top, s, first, mark)
    requires top <= lines && if open then TableShown(lines[|top|..], s) else lines == top
    ensures lines0 <= lines && SectionShown(lines[|lines0|..], s, first, open)
  {
    var h := if first then 0 else 1;
    assert lines[..|lines0|] == top[..|lines0|] == lines0;
    assert lines[|lines0| + h] == top[|lines0| + h];
    assert !first ==> lines[|lines0|] == top[|lines0|];
    assert lines[|lines0|..][h + 1..] == lines[|top|..];
  }

  lemma CopyIsShown(part: seq<Line>, tbl: seq<Line>, s: Section)
    requires Copied(part, tbl) && |part| == |tbl| && TableShown(tbl, s)
    ensures TableShown(part, s)
  {
    assert forall k :: 0 <= k < |part| ==> Alike(part[k], tbl[k]);
    var labels := if Labelled(s) then 2 else 0;
    forall k | 0 <= k < |s.rows| ensures RowShown(part, labels, s, k) {
      assert RowShown(tbl, labels, s, k);
      assert Alike(part[labels + k], tbl[labels + k]);
    }
    if Labelled(s) {
      assert Alike(part[0], tbl[0]) && Alike(part[1], tbl[1]);
    }
  }

  /** The line numbered `k` is on screen and stands for the entry. */
  ghost predicate ShowsEntry(output: seq<Shown>, k: int, e: NavEntry)
  {
    exists i :: 0 <= i < |output| && output[i].Content? && MarkOf(output[i].line) == Some(k) && Entry(output[i].line) == e
  }

  /** How far the rows of a section are rendered: the lines so far, the number of
      the next entry, and the cursor's line if it has come by. */
  ghost predicate Rendering(s: Section, cursor: int, lines0: seq<Line>, nav0: nat, line0: int,
                            lines: seq<Line>, nav: nat, line: int)
  {
    && lines0 <= lines && Numbered(lines) && nav0 <= nav <= nav0 + |s.rows|
    && nav0 == |Marked(lines0)| && Marked(lines) == Marked(lines0) + SectionEntries(s)[..nav - nav0]
    && if nav0 <= cursor < nav then 0 <= line < |lines| && MarkOf(lines[line]) == Some(cursor) else line == line0
  }

  lemma PlainLine(s: Section, cursor: int, lines0: seq<Line>, nav0: nat, line0: int, lines: seq<Line>, nav: nat, line: int, l: Line)
    requires Rendering(s, cursor, lines0, nav0, line0, lines, nav, line) && MarkOf(l).None?
    ensures Rendering(s, cursor, lines0, nav0, line0, lines + [l], nav, line)
  {
    MarkedAppend(lines, l);
  }

  /** `line` is the cursor's line already if the cursor is on the coming entry. */
  lemma DataLine(s: Section, cursor: int, lines0: seq<Line>, nav0: nat, line0: int, lines: seq<Line>, nav: nat, line: int)
    requires nav0 <= nav < nav0 + |s.rows| && s.rows[nav - nav0].target.Some?
    requires Rendering(s, cursor, lines0, nav0, line0, lines, nav, if cursor == nav then line0 else line)
    requires cursor == nav ==> line == |lines|
    ensures Rendering(s, cursor, lines0, nav0, line0,
                      lines + [Data_(s.title, s.rows[nav - nav0].target, Some(nav))], nav + 1, line)
  {
    var l := Data_(s.title, s.rows[nav - nav0].target, Some(nav));
    MarkedAppend(lines, l);
    var entries := SectionEntries(s);
    assert entries[..nav + 1 - nav0] == entries[..nav - nav0] + [entries[nav - nav0]];
  }

  // ----- the overlay -----

  class Dash {
    var data: Data
    var expanded: set<string>
    var nav: seq<NavEntry>
    var cursor: int
    var scrollOffset: int
    var totalLines: nat

    constructor (d: Data)
      ensures data == d && expanded == {INCIDENTS} && nav == [] && cursor == 0 && scrollOffset == 0 && totalLines == 0
    {
      data, expanded, nav, cursor, scrollOffset, totalLines := d, {INCIDENTS}, [], 0, 0, 0;
    }

    /** The index is up to date and the cursor is on one of its entries. */
    ghost predicate Prepared()
      reads this
    {
      && nav == Nav(Groups(data), expanded)
      && 0 <= cursor && (cursor < |nav| || (nav == [] && cursor == 0))
    }

    /** `buildDashNav`: rebuilds the index and pulls the cursor back into it. */
    method BuildDashNav()
      modifies this`nav, this`cursor
      ensures nav == Nav(Groups(data), expanded)
      ensures cursor == if old(cursor) >= |nav| then Max(0, |nav| - 1) else old(cursor)
      ensures old(cursor) >= 0 ==> Prepared()
    {
      var groups := Groups(data);
      nav := Flatten(groups, expanded);
      if cursor >= |nav| {
        cursor := Max(0, |nav| - 1);
      }
    }

    /** One row of the mini table: the row of an entry is numbered, and becomes the
        cursor's line if the cursor is on its entry. */
    method RenderRow(s: Section, row0: Line, dataIdx: int, localCursor: int,
                     ghost lines0: seq<Line>, ghost navIdx0: nat, ghost cursorLine0: int,
                     lines1: seq<Line>, navIdx1: nat, cursorLine1: int)
      returns (lines: seq<Line>, navIdx: nat, cursorLine: int)
      requires AllTargets(s) && MarkOf(row0).None?
      requires localCursor == cursor - navIdx0 && dataIdx < |s.rows|
      requires dataIdx >= 0 ==> row0 == Data_(s.title, s.rows[dataIdx].target, None)
      requires navIdx1 == navIdx0 + if dataIdx < 0 then 0 else dataIdx
      requires Rendering(s, cursor, lines0, navIdx0, cursorLine0, lines1, navIdx1, cursorLine1)
      ensures navIdx == navIdx1 + if dataIdx < 0 then 0 else 1
      ensures |lines| == |lines1| + 1 && lines[..|lines1|] == lines1 && Alike(lines[|lines1|], row0)
      ensures Rendering(s, cursor, lines0, navIdx0, cursorLine0, lines, navIdx, cursorLine)
    {
      lines, navIdx, cursorLine := lines1, navIdx1, cursorLine1;
      var row := row0;
      if localCursor >= 0 && dataIdx == localCursor {
        cursorLine := |lines|;
      }
      if 0 <= dataIdx < |s.rows| && s.rows[dataIdx].target.Some? {
        row := Data_(s.title, s.rows[dataIdx].target, Some(navIdx));
        DataLine(s, cursor, lines0, navIdx0, cursorLine0, lines, navIdx, cursorLine);
        navIdx := navIdx + 1;
      } else {
        PlainLine(s, cursor, lines0, navIdx0, cursorLine0, lines, navIdx, cursorLine, row);
      }
      lines := lines + [row];
    }

    /** The rows of one expanded section; `navIdx` numbers them. Tells where the
        cursor's line is if it is among them. */
    method RenderRows(s: Section, lines0: seq<Line>, navIdx0: nat, cursorLine0: int)
      returns (lines: seq<Line>, navIdx: nat, cursorLine: int)
      requires AllTargets(s) && Numbered(lines0) && navIdx0 == |Marked(lines0)|
      ensures Numbered(lines) && Marked(lines) == Marked(lines0) + SectionEntries(s) && navIdx == navIdx0 + |s.rows|
      ensures if navIdx0 <= cursor < navIdx then 0 <= cursorLine < |lines| && MarkOf(lines[cursorLine]) == Some(cursor)
              else cursorLine == cursorLine0
      ensures lines0 <= lines && TableShown(lines[|lines0|..], s)
    {
      lines, navIdx, cursorLine := lines0, navIdx0, cursorLine0;
      var localCursor := cursor - navIdx;
      var tbl := RenderMiniTable(s);
      var headerOffset := |tbl| - |s.rows|;
      assert SectionEntries(s)[..0] == [];
      for j := 0 to |tbl|
        invariant navIdx == navIdx0 + if j < headerOffset then 0 else j - headerOffset
        invariant lines0 <= lines && |lines| == |lines0| + j
        invariant Copied(lines[|lines0|..], tbl)
        invariant Rendering(s, cursor, lines0, navIdx0, cursorLine0, lines, navIdx, cursorLine)
      {
        ghost var above := lines;
        lines, navIdx, cursorLine := RenderRow(s, tbl[j], j - headerOffset, localCursor, lines0, navIdx0, cursorLine0,
                                               lines, navIdx, cursorLine);
        CopiedMore(lines0, above, lines, tbl);
      }
      CopyIsShown(lines[|lines0|..], tbl, s);
      assert SectionEntries(s)[..|s.rows|] == SectionEntries(s);
    }

    /** The header of a section, after a blank line unless the section is the first. */
    method RenderHeader(s: Section, first: bool, lines0: seq<Line>, navIdx0: nat, cursorLine0: int)
      returns (lines: seq<Line>, navIdx: nat, cursorLine: int)
      requires Numbered(lines0) && navIdx0 == |Marked(lines0)|
      requires 0 <= cursor < navIdx0 ==> 0 <= cursorLine0 < |lines0| && MarkOf(lines0[cursorLine0]) == Some(cursor)
      ensures Numbered(lines) && Marked(lines) == Marked(lines0) + [HeaderEntry(s.title)] && navIdx == |Marked(lines)|
      ensures HeaderShown(lines0, lines, s, first, navIdx0)
      ensures 0 <= cursor < navIdx ==> 0 <= cursorLine < |lines| && MarkOf(lines[cursorLine]) == Some(cursor)
    {
      lines, navIdx, cursorLine := lines0, navIdx0, cursorLine0;
      if !first {
        MarkedAppend(lines, Blank);
        lines := lines + [Blank];
      }
      var hdr := Header(s.title, |s.rows|, navIdx);
      if navIdx == cursor {
        cursorLine := |lines|;
      }
      MarkedAppend(lines, hdr);
      navIdx := navIdx + 1;
      lines := lines + [hdr];
    }

    /** One section: a blank line before all but the first, the header, and the rows
        when it is expanded. */
    method RenderSection(s: Section, first: bool, lines0: seq<Line>, navIdx0: nat, cursorLine0: int)
      returns (lines: seq<Line>, navIdx: nat, cursorLine: int)
      requires AllTargets(s) && Numbered(lines0) && navIdx0 == |Marked(lines0)|
      requires 0 <= cursor < navIdx0 ==> 0 <= cursorLine0 < |lines0| && MarkOf(lines0[cursorLine0]) == Some(cursor)
      ensures Numbered(lines) && navIdx == |Marked(lines)|
      ensures Marked(lines) == Marked(lines0) + Block(Group(s.title, SectionEntries(s)), expanded)
      ensures lines0 <= lines && SectionShown(lines[|lines0|..], s, first, s.title in expanded)
      ensures 0 <= cursor < navIdx ==> 0 <= cursorLine < |lines| && MarkOf(lines[cursorLine]) == Some(cursor)
    {
      lines, navIdx, cursorLine := RenderHeader(s, first, lines0, navIdx0, cursorLine0);
      ghost var top := lines;
      if s.title in expanded {
        lines, navIdx, cursorLine := RenderRows(s, lines, navIdx, cursorLine);
        BlockOf(Marked(lines0), Group(s.title, SectionEntries(s)), expanded);
      }
      HeaderAndTable(lines0, top, lines, s, first, navIdx0, s.title in expanded);
    }

    /** The line-building part of `dashboardView`. */
    method RenderLines(sections: seq<Section>) returns (lines: seq<Line>, cursorLine: int, ghost starts: seq<nat>)
      requires forall i :: 0 <= i < |sections| ==> AllTargets(sections[i])
      ensures Numbered(lines)
      ensures Marked(lines) == Nav(SectionGroups(sections), expanded)
      ensures AllShown(lines, sections, expanded, starts)
      ensures 0 <= cursor < |Marked(lines)| ==> 0 <= cursorLine < |lines| && MarkOf(lines[cursorLine]) == Some(cursor)
    {
      lines, cursorLine, starts := [], 0, [0];
      var navIdx := 0;
      ghost var groups := SectionGroups(sections);
      ghost var done: seq<NavEntry> := [];
      for i := 0 to |sections|
        invariant Numbered(lines) && Marked(lines) == done && navIdx == |done|
        invariant done + Nav(groups[i..], expanded) == Nav(groups, expanded)
        invariant AllShown(lines, sections[..i], expanded, starts)
        invariant 0 <= cursor < navIdx ==> 0 <= cursorLine < |lines| && MarkOf(lines[cursorLine]) == Some(cursor)
      {
        NavStep(groups, expanded, i, done);
        ghost var above := lines;
        lines, navIdx, cursorLine := RenderSection(sections[i], i == 0, lines, navIdx, cursorLine);
        done := done + Block(groups[i], expanded);
        ShownAppend(above, sections[..i], expanded, starts, sections[i], lines[|above|..]);
        assert lines == above + lines[|above|..];
        assert sections[..i + 1] == sections[..i] + [sections[i]];
        starts := starts + [|lines|];
      }
      assert sections[..|sections|] == sections;
    }

    method ScrollDashTo(target: int, viewportH: int, total: int)
      modifies this`scrollOffset
      ensures scrollOffset == ScrolledTo(old(scrollOffset), target, viewportH, total)
    {
      if target < scrollOffset {
        scrollOffset := target;
      } else if target >= scrollOffset + viewportH {
        scrollOffset := target - viewportH + 1;
      }
      var maxOffset := Max(total - viewportH, 0);
      if scrollOffset > maxOffset {
        scrollOffset := maxOffset;
      }
      if scrollOffset < 0 {
        scrollOffset := 0;
      }
    }

    /** One round of the indicator loop: scrolls, and counts the indicators needed. */
    method SettleRound(cursorLine: int, budget: int, total: int, indicators: int) returns (needed: int)
      modifies this`scrollOffset
      ensures scrollOffset == ScrolledTo(old(scrollOffset), cursorLine, WindowHeight(budget, indicators), total)
      ensures needed == Needed(scrollOffset, budget, indicators, total)
    {
      var viewportH := WindowHeight(budget, indicators);
      ScrollDashTo(cursorLine, viewportH, total);
      var end := WindowEnd(scrollOffset, budget, indicators, total);
      needed := 0;
      if scrollOffset > 0 {
        needed := needed + 1;
      }
      if end < total {
        needed := needed + 1;
      }
    }

    /** The indicator loop: three rounds at most. */
    method SettleScroll(cursorLine: int, budget: int, total: int) returns (indicators: int)
      modifies this`scrollOffset
      ensures (scrollOffset, indicators) == Settle(old(scrollOffset), cursorLine, budget, total, 0, 3)
    {
      indicators := 0;
      for round := 0 to 3
        invariant Settle(scrollOffset, cursorLine, budget, total, indicators, 3 - round)
               == Settle(old(scrollOffset), cursorLine, budget, total, 0, 3)
      {
        var needed := SettleRound(cursorLine, budget, total, indicators);
        if needed == indicators {
          break;
        }
        indicators := needed;
      }
    }

    /** `dashboardView`. The selected entry is always among the lines shown; with a
        budget of at least three lines (the overlay's floor) the output fits it. */
    method DashboardView(budget: int)
      returns (output: seq<Shown>, ghost lines: seq<Line>, ghost starts: seq<nat>, ghost end: int)
      requires Prepared()
      modifies this`scrollOffset, this`totalLines
      ensures totalLines == |lines| || (lines == [] && totalLines == old(totalLines))
      ensures Numbered(lines) && Marked(lines) == nav
      ensures AllShown(lines, Sections(data), expanded, starts)
      ensures 0 < budget < |lines| ==> ShowsWindow(output, lines, scrollOffset, end) && end - scrollOffset <= budget <= |output|
      ensures budget >= 3 && |lines| > budget ==> |output| == budget
      ensures budget <= 0 || |lines| <= budget ==>
                && |output| == |lines| && (forall i :: 0 <= i < |lines| ==> output[i] == Content(lines[i]))
                && scrollOffset == (if lines == [] then old(scrollOffset) else 0)
      ensures |nav| > 0 ==> ShowsEntry(output, cursor, nav[cursor])
    {
      SectionsMatchGroups(data);
      var sections := Sections(data);
      assert SectionGroups(sections) == Groups(data);
      if |sections| == 0 {
        return [], [], [0], 0;
      }
      var all, cursorLine, begins := RenderLines(sections);
      lines, starts, end := all, begins, |all|;
      totalLines := |all|;
      assert |nav| > 0;
      MarkedEntry(all, cursorLine);
      if budget > 0 && |all| > budget {
        output, end := ScrollWindow(all, budget, cursorLine);
      } else {
        scrollOffset := 0;
        output := Contents(all);
        assert output[cursorLine] == Content(all[cursorLine]);
      }
    }

    /** Too many lines: scrolls to the cursor's line and shows the window there. */
    method ScrollWindow(lines: seq<Line>, budget: int, cursorLine: nat) returns (output: seq<Shown>, ghost end: int)
      requires 0 < budget < |lines| && cursorLine < |lines|
      modifies this`scrollOffset
      ensures ShowsWindow(output, lines, scrollOffset, end) && end - scrollOffset <= budget <= |output|
      ensures budget >= 3 ==> |output| == budget
      ensures exists i :: 0 <= i < |output| && output[i] == Content(lines[cursorLine])
    {
      CursorInWindow(scrollOffset, cursorLine, budget, |lines|);
      var indicators := SettleScroll(cursorLine, budget, |lines|);
      end := WindowEnd(scrollOffset, budget, indicators, |lines|);
      output := Visible(lines, budget, indicators, cursorLine);
    }

    /** The window's lines between its indicators. */
    method Visible(lines: seq<Line>, budget: int, indicators: int, ghost cursorLine: int) returns (output: seq<Shown>)
      requires 0 <= scrollOffset <= cursorLine < WindowEnd(scrollOffset, budget, indicators, |lines|) <= |lines|
      ensures |output| == ShownLines(scrollOffset, budget, indicators, |lines|)
      ensures ShowsWindow(output, lines, scrollOffset, WindowEnd(scrollOffset, budget, indicators, |lines|))
      ensures exists i :: 0 <= i < |output| && output[i] == Content(lines[cursorLine])
    {
      var start, end := scrollOffset, WindowEnd(scrollOffset, budget, indicators, |lines|);
      output := [];
      if start > 0 {
        output := output + [More(true, start)];
      }
      ghost var above := output;
      output := output + Contents(lines[start..end]);
      if end < |lines| {
        output := output + [More(false, |lines| - end)];
      }
      WindowAssembled(above, output, lines, start, end);
      assert output[(if start > 0 then 1 else 0) + (cursorLine - start)] == Content(lines[cursorLine]);
    }

    // ----- keys -----

    method DashDown()
      modifies this`cursor
      ensures nav == [] ==> cursor == old(cursor)
      ensures nav != [] ==> cursor == if old(cursor) + 1 >= |nav| then |nav| - 1 else old(cursor) + 1
    {
      var n := |nav|;
      if n == 0 {
        return;
      }
      cursor := cursor + 1;
      if cursor >= n {
        cursor := n - 1;
      }
    }

    method DashUp()
      modifies this`cursor
      ensures cursor == Max(old(cursor) - 1, 0)
    {
      cursor := cursor - 1;
      if cursor < 0 {
        cursor := 0;
      }
    }

    method DashTop()
      modifies this`cursor, this`scrollOffset
      ensures cursor == 0 && scrollOffset == 0
    {
      cursor, scrollOffset := 0, 0;
    }

    method DashBottom()
      modifies this`cursor
      ensures cursor == if nav == [] then old(cursor) else |nav| - 1
    {
      var n := |nav|;
      if n == 0 {
        return;
      }
      cursor := n - 1;
    }

    /** The nearest header below the cursor, if there is one. */
    method DashNextSection()
      requires cursor >= 0
      modifies this`cursor
      ensures cursor == old(cursor) || (old(cursor) < cursor < |nav| && nav[cursor].isHeader)
      ensures forall i :: old(cursor) < i < (if cursor == old(cursor) then |nav| else cursor) ==> !nav[i].isHeader
    {
      var i := cursor + 1;
      while i < |nav|
        invariant cursor == old(cursor) < i
        invariant forall j :: cursor < j < i && j < |nav| ==> !nav[j].isHeader
      {
        if nav[i].isHeader {
          cursor := i;
          return;
        }
        i := i + 1;
      }
    }

    /** The nearest header above the cursor, if there is one. */
    method DashPrevSection()
      requires cursor <= |nav|
      modifies this`cursor
      ensures cursor == old(cursor) || (0 <= cursor < old(cursor) && nav[cursor].isHeader)
      ensures forall i :: (if cursor == old(cursor) then 0 else cursor + 1) <= i < old(cursor) ==> !nav[i].isHeader
    {
      var i := cursor - 1;
      while i >= 0
        invariant cursor == old(cursor) && i < cursor
        invariant forall j :: i < j < cursor && 0 <= j ==> !nav[j].isHeader
      {
        if nav[i].isHeader {
          cursor := i;
          return;
        }
        i := i - 1;
      }
    }

    /** Toggles the section the cursor is in. */
    method DashToggleCurrent()
      modifies this`expanded
      ensures expanded == if 0 <= cursor < |nav| && nav[cursor].section != ""
                          then ToggledSections(old(expanded), nav[cursor].section) else old(expanded)
    {
      if cursor < 0 || cursor >= |nav| {
        return;
      }
      var section := nav[cursor].section;
      if section == "" {
        return;
      }
      expanded := ToggledSections(expanded, section);
    }

    /** Expands every section if any is collapsed, otherwise collapses them all. */
    method DashToggleAll()
      modifies this`expanded
      ensures var titles := HeaderTitles(nav);
              expanded == if titles <= old(expanded) then old(expanded) - titles else old(expanded) + titles
    {
      var allExpanded := AllSectionsExpanded();
      assert nav[..|nav|] == nav;
      for i := 0 to |nav|
        invariant expanded == if allExpanded then old(expanded) - HeaderTitles(nav[..i]) else old(expanded) + HeaderTitles(nav[..i])
      {
        assert nav[..i + 1] == nav[..i] + [nav[i]];
        HeaderTitlesAppend(nav[..i], nav[i]);
        if nav[i].isHeader {
          expanded := if allExpanded then expanded - {nav[i].section} else expanded + {nav[i].section};
        }
      }
    }

    method AllSectionsExpanded() returns (all: bool)
      ensures all <==> HeaderTitles(nav) <= expanded
    {
      all := true;
      for i := 0 to |nav|
        invariant all && HeaderTitles(nav[..i]) <= expanded
      {
        assert nav[..i + 1] == nav[..i] + [nav[i]];
        HeaderTitlesAppend(nav[..i], nav[i]);
        if nav[i].isHeader && nav[i].section !in expanded {
          assert nav[i].section in HeaderTitles(nav);
          return false;
        }
      }
      assert nav[..|nav|] == nav;
    }
  }

  function SectionGroups(sections: seq<Section>): (g: seq<Group>)
    ensures |g| == |sections|
    ensures forall i :: 0 <= i < |g| ==> g[i] == Group(sections[i].title, SectionEntries(sections[i]))
  {
    seq(|sections|, i requires 0 <= i < |sections| => Group(sections[i].title, SectionEntries(sections[i])))
  }

  function ToggledSections(expanded: set<string>, section: string): (r: set<string>)
    ensures section in r <==> section !in expanded
    ensures forall other :: other != section ==> (other in r <==> other in expanded)
  {
    if section in expanded then expanded - {section} else expanded + {section}
  }

  ghost function HeaderTitles(nav: seq<NavEntry>): set<string>
  {
    set e | e in nav && e.isHeader :: e.section
  }

  lemma HeaderTitlesAppend(nav: seq<NavEntry>, e: NavEntry)
    ensures HeaderTitles(nav + [e]) == HeaderTitles(nav) + if e.isHeader then {e.section} else {}
  {
    assert forall x :: x in nav + [e] <==> x in nav || x == e;
  }

  // ----- laws of toggling -----

  ghost predicate DistinctTitles(groups: seq<Group>)
  {
    forall i, j :: 0 <= i < j < |groups| ==> groups[i].title != groups[j].title
  }

  ghost predicate PlainEntries(groups: seq<Group>)
  {
    forall i, k :: 0 <= i < |groups| && 0 <= k < |groups[i].entries| ==>
      !groups[i].entries[k].isHeader && groups[i].entries[k].section == groups[i].title
  }

  lemma {:induction false} HeaderIsOneOf(groups: seq<Group>, expanded: set<string>, k: nat) returns (i: nat)
    requires PlainEntries(groups)
    requires k < |Nav(groups, expanded)| && Nav(groups, expanded)[k].isHeader
    ensures i < |groups| && Nav(groups, expanded)[k] == HeaderEntry(groups[i].title)
  {
    var first := Block(groups[0], expanded);
    if k < |first| {
      i := 0;
    } else {
      assert forall j, l :: 0 <= j < |groups[1..]| && 0 <= l < |groups[1..][j].entries| ==>
               groups[1..][j].entries[l] == groups[j + 1].entries[l];
      var j := HeaderIsOneOf(groups[1..], expanded, k - |first|);
      i := j + 1;
    }
  }

  /** Toggling a section on its header leaves the cursor on that header. */
  lemma {:induction false} ToggleKeepsHeader(groups: seq<Group>, expanded: set<string>, k: nat)
    requires DistinctTitles(groups) && PlainEntries(groups)
    requires k < |Nav(groups, expanded)| && Nav(groups, expanded)[k].isHeader
    ensures var after := Nav(groups, ToggledSections(expanded, Nav(groups, expanded)[k].section));
            k < |after| && after[k] == Nav(groups, expanded)[k]
  {
    var first := Block(groups[0], expanded);
    if k >= |first| {
      var rest := groups[1..];
      assert DistinctTitles(rest) by {
        assert forall j :: 0 <= j < |rest| ==> rest[j] == groups[j + 1];
      }
      assert PlainEntries(rest) by {
        assert forall j, l :: 0 <= j < |rest| && 0 <= l < |rest[j].entries| ==> rest[j].entries[l] == groups[j + 1].entries[l];
      }
      ToggleKeepsHeader(rest, expanded, k - |first|);
      var i := HeaderIsOneOf(rest, expanded, k - |first|);
      assert rest[i] == groups[i + 1];
      assert Block(groups[0], ToggledSections(expanded, Nav(groups, expanded)[k].section)) == first;
    }
  }

  ghost predicate WellFormed(groups: seq<Group>, titles: set<string>)
  {
    && DistinctTitles(groups) && PlainEntries(groups)
    && forall i :: 0 <= i < |groups| ==> groups[i].title in titles
  }

  lemma AddKeepsForm(groups: seq<Group>, titles: set<string>, title: string, entries: seq<NavEntry>)
    requires WellFormed(groups, titles) && title !in titles
    requires forall k :: 0 <= k < |entries| ==> !entries[k].isHeader && entries[k].section == title
    ensures WellFormed(Add(groups, title, entries), titles + {title})
  {
  }

  /** The dashboard's own groups have distinct titles and plain entries, so the
      law of toggling applies to them. */
  lemma GroupsWellFormed(d: Data)
    ensures DistinctTitles(Groups(d)) && PlainEntries(Groups(d))
  {
    assert INCIDENTS[0] == 'I' && OVERDUE[0] == 'O' && UPCOMING[0] == 'U';
    assert SEASONAL[0] == 'S' && PROJECTS[0] == 'A' && EXPIRING[0] == 'E';
    var g0 := Add([], INCIDENTS, NavSection(d.incidents, TabIncidents, INCIDENTS));
    AddKeepsForm([], {}, INCIDENTS, NavSection(d.incidents, TabIncidents, INCIDENTS));
    var g1 := Add(g0, OVERDUE, NavSection(d.overdue, TabMaintenance, OVERDUE));
    AddKeepsForm(g0, {} + {INCIDENTS}, OVERDUE, NavSection(d.overdue, TabMaintenance, OVERDUE));
    var g2 := Add(g1, UPCOMING, NavSection(d.upcoming, TabMaintenance, UPCOMING));
    AddKeepsForm(g1, {INCIDENTS, OVERDUE}, UPCOMING, NavSection(d.upcoming, TabMaintenance, UPCOMING));
    var g3 := Add(g2, SEASONAL, NavSection(d.seasonal, TabMaintenance, SEASONAL));
    AddKeepsForm(g2, {INCIDENTS, OVERDUE, UPCOMING}, SEASONAL, NavSection(d.seasonal, TabMaintenance, SEASONAL));
    var g4 := Add(g3, PROJECTS, NavSection(d.projects, TabProjects, PROJECTS));
    AddKeepsForm(g3, {INCIDENTS, OVERDUE, UPCOMING, SEASONAL}, PROJECTS, NavSection(d.projects, TabProjects, PROJECTS));
    AddKeepsForm(g4, {INCIDENTS, OVERDUE, UPCOMING, SEASONAL, PROJECTS}, EXPIRING,
                 NavSection(d.warranties, TabAppliances, EXPIRING)
                 + if d.insurance then [NavEntry(NoTab, "", EXPIRING, false, true)] else []);
  }
}
