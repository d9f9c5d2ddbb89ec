/**
 A value with a dotted key, {"a": {"b": [1]}, "a.b": [1]}: two nodes of its tree have
 the path operations.0.a.b, and the keys that toggle and collapse confuse them.
 */
module OpsClash {
  import opened Schema
  import opened OpsTree
  import opened OpsView

  const ONE := Arr([Leaf("1")])
  const INNER := Obj([("b", ONE)])
  const DOC := Obj([("a", INNER), ("a.b", ONE)])

  // Its nodes, bottom up.
  const LEAF_IN: Node :=
    Node(["operations", "0", "a", "b", "0"], "operations.0.a.b.0", "[0]", "1", [], 4, false, TreePrefix([false, true, false], true))
  const LEAF_OUT: Node :=
    Node(["operations", "0", "a.b", "0"], "operations.0.a.b.0", "[0]", "1", [], 3, false, TreePrefix([false, false], true))
  const B: Node :=
    Node(["operations", "0", "a", "b"], "operations.0.a.b", "b", "", [LEAF_IN], 3, true, TreePrefix([false, true], true))
  const A: Node :=
    Node(["operations", "0", "a"], "operations.0.a", "a", "", [B], 2, false, TreePrefix([false], false))
  const AB: Node :=
    Node(["operations", "0", "a.b"], "operations.0.a.b", "a.b", "", [LEAF_OUT], 2, true, TreePrefix([false], true))
  const ITEM: Node :=
    Node(["operations", "0"], "operations.0", "[0]", "", [A, AB], 1, false, TreePrefix([], true))
  const TOP: Node :=
    Node(["operations"], "operations", "operations", "", [ITEM], 0, true, "")

  lemma LeavesAreBuilt()
    ensures BuildNode(["operations", "0", "a", "b", "0"], "operations.0.a.b.0", "[0]", Leaf("1"), 4, [false, true, false], true) == LEAF_IN
    ensures BuildNode(["operations", "0", "a.b", "0"], "operations.0.a.b.0", "[0]", Leaf("1"), 3, [false, false], true) == LEAF_OUT
  {
  }

  lemma OneItem(at: seq<string>, path: string, v: Json, depth: nat, guides: seq<bool>)
    ensures BuildItems(at, path, [v], 0, depth, guides)
         == [BuildNode(at + ["0"], path + "." + "0", "[" + "0" + "]", v, depth, guides, true)]
  {
    assert Digits(0) == "0";
    assert [v][1..] == [];
  }

  lemma ListsAreBuilt()
    ensures BuildNode(["operations", "0", "a", "b"], "operations.0.a.b", "b", ONE, 3, [false, true], true) == B
    ensures BuildNode(["operations", "0", "a.b"], "operations.0.a.b", "a.b", ONE, 2, [false], true) == AB
  {
    LeavesAreBuilt();
    OneItem(B.at, B.path, Leaf("1"), 4, [false, true, false]);
    OneItem(AB.at, AB.path, Leaf("1"), 3, [false, false]);
    assert B.at + ["0"] == LEAF_IN.at && AB.at + ["0"] == LEAF_OUT.at;
    assert B.path + "." + "0" == LEAF_IN.path && AB.path + "." + "0" == LEAF_OUT.path;
    assert "[" + "0" + "]" == "[0]";
    assert [false, true] + [false] == [false, true, false] && [false] + [false] == [false, false];
  }

  lemma OneField(at: seq<string>, path: string, v: Json, f: (string, Json), depth: nat, guides: seq<bool>)
    requires v.Obj? && f in v.fields
    ensures BuildFields(at, path, v, [f], depth, guides)
         == [BuildNode(at + [f.0], path + "." + f.0, f.0, f.1, depth, guides, true)]
  {
    assert [f][1..] == [];
  }

  lemma TwoFields(at: seq<string>, path: string, v: Json, f: (string, Json), g: (string, Json), depth: nat, guides: seq<bool>)
    requires v.Obj? && f in v.fields && g in v.fields
    ensures BuildFields(at, path, v, [f, g], depth, guides)
         == [BuildNode(at + [f.0], path + "." + f.0, f.0, f.1, depth, guides, false)]
            + [BuildNode(at + [g.0], path + "." + g.0, g.0, g.1, depth, guides, true)]
  {
    assert [f, g][1..] == [g];
    OneField(at, path, v, g, depth, guides);
  }

  lemma AIsBuilt()
    ensures BuildNode(["operations", "0", "a"], "operations.0.a", "a", INNER, 2, [false], false) == A
  {
    ListsAreBuilt();
    var f := ("b", ONE);
    assert INNER.fields == [f] && f in INNER.fields;
    assert [f][1..] == [];
    assert SortFields([f]) == [f];
    assert A.at + ["b"] == B.at && A.path + "." + "b" == B.path;
    assert [false] + [true] == [false, true];
    OneField(A.at, A.path, INNER, f, 3, [false, true]);
  }

  lemma FieldsInOrder()
    ensures SortFields(DOC.fields) == DOC.fields
  {
    var first, second := ("a", INNER), ("a.b", ONE);
    assert DOC.fields[1..] == [second] && [second][1..] == [];
    assert SortFields([second]) == [second];
    assert "a"[1..] == "" && "a.b"[1..] == ".b";
    assert |"a"| == 1 && |"a.b"| == 3 && |"action"| == 6 && |"table"| == 5;
    assert KeyCmp("a", "a.b") <= 0;
  }

  lemma ItemsPaths()
    ensures ITEM.at + ["a"] == A.at && ITEM.at + ["a.b"] == AB.at
    ensures ITEM.path + "." + "a" == A.path && ITEM.path + "." + "a.b" == AB.path
  {
  }

  lemma ItemIsBuilt()
    ensures BuildNode(["operations", "0"], "operations.0", "[0]", DOC, 1, [], true) == ITEM
  {
    AIsBuilt();
    ListsAreBuilt();
    FieldsInOrder();
    var first, second := ("a", INNER), ("a.b", ONE);
    assert DOC.fields == [first, second] && first in DOC.fields && second in DOC.fields;
    ItemsPaths();
    assert [] + [false] == [false];
    TwoFields(ITEM.at, ITEM.path, DOC, first, second, 2, [false]);
  }

  lemma DocIsDecoded()
    ensures Decoded(DOC)
  {
    assert |"a"| != |"a.b"|;
    assert Decoded(ONE) && Decoded(INNER);
  }

  lemma TreeIsBuilt()
    ensures BuildTree(Some(DOC)) == [TOP]
  {
    ItemIsBuilt();
    OneItem([ROOT], ROOT, DOC, 1, []);
    assert [ROOT] + ["0"] == ITEM.at && ROOT + "." + "0" == ITEM.path && "[" + "0" + "]" == "[0]";
  }

  lemma Single(n: Node, e: set<string>)
    ensures Visible([n], e) == [n] + if Open(n, e) then Visible(n.children, e) else []
  {
    assert [n][1..] == [];
  }

  lemma Pair(m: Node, n: Node, e: set<string>)
    ensures Visible([m, n], e) == [m] + (if Open(m, e) then Visible(m.children, e) else []) + Visible([n], e)
  {
    assert [m, n][1..] == [n];
  }

  lemma PathLengths()
    ensures |TOP.path| == 10 && |ITEM.path| == 12 && |A.path| == 14 && |B.path| == |AB.path| == 16
  {
  }

  // Everything open but the two nodes with the path operations.0.a.b.
  const OPENED := {"operations", "operations.0", "operations.0.a"}

  lemma RowsOpened()
    ensures Visible([TOP], OPENED) == [TOP, ITEM, A, B, AB]
  {
    PathLengths();
    Single(TOP, OPENED);
    Single(ITEM, OPENED);
    Pair(A, AB, OPENED);
    Single(B, OPENED);
    Single(AB, OPENED);
  }

  lemma RowsAllOpen()
    ensures Visible([TOP], OPENED + {"operations.0.a.b"}) == [TOP, ITEM, A, B, LEAF_IN, AB, LEAF_OUT]
  {
    var e := OPENED + {"operations.0.a.b"};
    Single(TOP, e);
    Single(ITEM, e);
    Pair(A, AB, e);
    Single(B, e);
    Single(AB, e);
    Single(LEAF_IN, e);
    Single(LEAF_OUT, e);
  }

  lemma RowsWithoutA()
    ensures Visible([TOP], OPENED - {"operations.0.a"}) == [TOP, ITEM, A, AB]
  {
    var e := OPENED - {"operations.0.a"};
    PathLengths();
    Single(TOP, e);
    Single(ITEM, e);
    Pair(A, AB, e);
    Single(AB, e);
  }

  function At(cursor: int, expanded: set<string>): State
  {
    State(BuildTree(Some(DOC)), expanded, cursor, 0, 0)
  }

  lemma CollapseFrom(s: State, rows: seq<Node>, p: string, j: nat)
    requires rows == Visible(s.root, s.expanded) && 0 <= s.cursor < |rows| && !Open(rows[s.cursor], s.expanded)
    requires p != "" && ParentPath(rows[s.cursor].path) == p && NearestAbove(rows, s.cursor, p) == j
    ensures Step(s, Collapse) == Reclamped(s.(expanded := s.expanded - {p}, cursor := j))
  {
  }

  /** Toggling the node a.b opens the node b above it too, and a leaf comes under the
      cursor. */
  lemma DottedKeysClash()
    ensures Decoded(DOC)
    ensures var s, t := At(4, OPENED), Step(At(4, OPENED), Expand);
            && Visible(s.root, s.expanded) == [TOP, ITEM, A, B, AB]
            && t.cursor == 4 && Visible(t.root, t.expanded) == [TOP, ITEM, A, B, LEAF_IN, AB, LEAF_OUT]
  {
    DocIsDecoded();
    TreeIsBuilt();
    RowsOpened();
    RowsAllOpen();
    PathLengths();
    assert ToggledPath(OPENED, AB.path) == OPENED + {"operations.0.a.b"};
  }

  lemma ParentOfAB()
    ensures ParentOf(ITEM, AB) && ParentPath(AB.path) == A.path
    ensures NearestAbove([TOP, ITEM, A, B, AB], 4, A.path) == 2
  {
    PathLengths();
    assert AB.at[..|AB.at| - 1] == ITEM.at;
    var p := AB.path;
    assert p[14] == '.' && p[15] == 'b';
    assert LastDot(p) == 14;
    assert p[..14] == A.path;
    var rows := [TOP, ITEM, A, B, AB];
    assert NearestFrom(rows, 4, 4, A.path) == NearestFrom(rows, 4, 3, A.path) == 2;
  }

  /** Collapsing from the node a.b, whose parent is in row 1, closes the node a and goes
      there: the key has a dot. */
  lemma DottedKeyMissesParent()
    ensures Decoded(DOC)
    ensures var s, t := At(4, OPENED), Step(At(4, OPENED), Collapse);
            && Visible(s.root, s.expanded) == [TOP, ITEM, A, B, AB] && ParentOf(ITEM, AB)
            && t.cursor == 2 && Visible(t.root, t.expanded) == [TOP, ITEM, A, AB] && !OnClosed(t, ITEM)
  {
    DocIsDecoded();
    TreeIsBuilt();
    RowsOpened();
    RowsWithoutA();
    PathLengths();
    ParentOfAB();
    CollapseFrom(At(4, OPENED), [TOP, ITEM, A, B, AB], A.path, 2);
  }

  lemma ParentOfLeafOut()
    ensures ParentOf(AB, LEAF_OUT) && ParentPath(LEAF_OUT.path) == AB.path && '.' !in LastKey(LEAF_OUT)
    ensures NearestAbove([TOP, ITEM, A, B, LEAF_IN, AB, LEAF_OUT], 6, AB.path) == 5
  {
    assert LEAF_OUT.at[..|LEAF_OUT.at| - 1] == AB.at;
    ParentOfChild(AB.path, "0");
    assert AB.path + "." + "0" == LEAF_OUT.path;
  }

  /** With everything open, collapsing from the leaf below a.b closes both nodes with its
      parent's path. The parent moves up, but it is the last row, and clamping the cursor
      lands on it: no other node with its path above is not necessary. */
  lemma ClampingCatchesParent()
    ensures Decoded(DOC)
    ensures var s := At(6, OPENED + {"operations.0.a.b"});
            var rows, t := Visible(s.root, s.expanded), Step(s, Collapse);
            && rows == [TOP, ITEM, A, B, LEAF_IN, AB, LEAF_OUT] && ParentOf(AB, LEAF_OUT) && '.' !in LastKey(LEAF_OUT)
            && Hit(rows[..5], AB.path)
            && t.cursor == 4 && OnClosed(t, AB)
  {
    DocIsDecoded();
    TreeIsBuilt();
    RowsOpened();
    RowsAllOpen();
    PathLengths();
    ParentOfLeafOut();
    var e := OPENED + {"operations.0.a.b"};
    var rows := [TOP, ITEM, A, B, LEAF_IN, AB, LEAF_OUT];
    assert B in rows[..5] && Affected(B, AB.path) by {
      assert rows[..5][3] == B;
    }
    CollapseFrom(At(6, e), rows, AB.path, 5);
    assert e - {AB.path} == OPENED;
  }
}
