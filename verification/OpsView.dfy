/**
 The interactive state of the JSON tree overlay: the visible nodes, the cursor
 among them, and the keys that expand, collapse and move.
 */
module OpsView {
  import opened Schema
  import opened OpsTree

  predicate Open(n: Node, expanded: set<string>)
  {
    Expandable(n) && n.path in expanded
  }

  /** The visible nodes, top to bottom. */
  function Visible(ns: seq<Node>, expanded: set<string>): seq<Node>
  {
    if ns == [] then [] else
      [ns[0]] + (if Open(ns[0], expanded) then Visible(ns[0].children, expanded) else []) + Visible(ns[1..], expanded)
  }

  function CountAll(ns: seq<Node>): nat
  {
    if ns == [] then 0 else 1 + CountAll(ns[0].children) + CountAll(ns[1..])
  }

  method CountAllNodes(ns: seq<Node>) returns (count: nat)
    ensures count == CountAll(ns)
    decreases ns
  {
    count := 0;
    for i := 0 to |ns|
      invariant count + CountAll(ns[i..]) == CountAll(ns)
    {
      assert ns[i..][0] == ns[i] && ns[i..][1..] == ns[i + 1..];
      var c := CountAllNodes(ns[i].children);
      count := count + 1 + c;
    }
  }

  lemma VisibleFrom(ns: seq<Node>, i: nat, expanded: set<string>)
    requires i < |ns|
    ensures Visible(ns[i..], expanded)
         == [ns[i]] + (if Open(ns[i], expanded) then Visible(ns[i].children, expanded) else []) + Visible(ns[i + 1..], expanded)
  {
    assert ns[i..][0] == ns[i] && ns[i..][1..] == ns[i + 1..];
  }

  lemma Assoc(a: seq<Node>, b: seq<Node>, c: seq<Node>, d: seq<Node>)
    ensures (a + b + c) + d == a + (b + c + d)
  {
  }

  /** The walk of `visibleNodes`, which appends to `nodes`. */
  method Walk(children: seq<Node>, expanded: set<string>, nodes0: seq<Node>) returns (nodes: seq<Node>)
    ensures nodes == nodes0 + Visible(children, expanded)
    decreases children
  {
    nodes := nodes0;
    for i := 0 to |children|
      invariant nodes + Visible(children[i..], expanded) == nodes0 + Visible(children, expanded)
    {
      ghost var kids := if Open(children[i], expanded) then Visible(children[i].children, expanded) else [];
      VisibleFrom(children, i, expanded);
      Assoc(nodes, [children[i]], kids, Visible(children[i + 1..], expanded));
      nodes := nodes + [children[i]];
      if Open(children[i], expanded) {
        nodes := Walk(children[i].children, expanded, nodes);
      }
    }
  }

  // ----- visible means that all ancestors are expanded -----

  /** All nodes in display order, each with the paths of its ancestors. */
  ghost function Preorder(ns: seq<Node>, above: set<string>): seq<(Node, set<string>)>
  {
    if ns == [] then [] else
      [(ns[0], above)] + Preorder(ns[0].children, above + {ns[0].path}) + Preorder(ns[1..], above)
  }

  ghost function Revealed(all: seq<(Node, set<string>)>, expanded: set<string>): seq<Node>
  {
    if all == [] then [] else (if all[0].1 <= expanded then [all[0].0] else []) + Revealed(all[1..], expanded)
  }

  lemma {:induction false} RevealedConcat(a: seq<(Node, set<string>)>, b: seq<(Node, set<string>)>, expanded: set<string>)
    ensures Revealed(a + b, expanded) == Revealed(a, expanded) + Revealed(b, expanded)
  {
    if a == [] {
      assert a + b == b;
    } else {
      RevealedConcat(a[1..], b, expanded);
      var head := if a[0].1 <= expanded then [a[0].0] else [];
      assert (a + b)[0] == a[0] && (a + b)[1..] == a[1..] + b;
      assert Revealed(a + b, expanded) == head + Revealed(a[1..] + b, expanded);
      assert Revealed(a, expanded) == head + Revealed(a[1..], expanded);
    }
  }

  lemma {:induction false} RevealedParts(ns: seq<Node>, above: set<string>, expanded: set<string>)
    requires ns != []
    ensures Revealed(Preorder(ns, above), expanded)
         == (if above <= expanded then [ns[0]] else [])
            + Revealed(Preorder(ns[0].children, above + {ns[0].path}), expanded)
            + Revealed(Preorder(ns[1..], above), expanded)
  {
    var head := [(ns[0], above)];
    var kids := Preorder(ns[0].children, above + {ns[0].path});
    var rest := Preorder(ns[1..], above);
    RevealedConcat(head + kids, rest, expanded);
    RevealedConcat(head, kids, expanded);
    assert head[1..] == [];
  }

  lemma {:induction false} HiddenBelow(ns: seq<Node>, above: set<string>, expanded: set<string>)
    requires !(above <= expanded)
    ensures Revealed(Preorder(ns, above), expanded) == []
    decreases ns
  {
    if ns != [] {
      RevealedParts(ns, above, expanded);
      HiddenBelow(ns[0].children, above + {ns[0].path}, expanded);
      HiddenBelow(ns[1..], above, expanded);
    }
  }

  /** The visible nodes are exactly, and in the same order, the nodes of the whole
      tree all of whose ancestors are expanded. */
  lemma {:induction false} VisibleIsRevealed(ns: seq<Node>, above: set<string>, expanded: set<string>)
    requires above <= expanded
    ensures Visible(ns, expanded) == Revealed(Preorder(ns, above), expanded)
    decreases ns
  {
    if ns != [] {
      var n := ns[0];
      RevealedParts(ns, above, expanded);
      VisibleIsRevealed(ns[1..], above, expanded);
      if n.path in expanded {
        VisibleIsRevealed(n.children, above + {n.path}, expanded);
      } else {
        HiddenBelow(n.children, above + {n.path}, expanded);
      }
    }
  }

  lemma {:induction false} VisibleAtMostAll(ns: seq<Node>, expanded: set<string>)
    ensures |Visible(ns, expanded)| <= CountAll(ns)
    decreases ns
  {
    if ns != [] {
      VisibleAtMostAll(ns[0].children, expanded);
      VisibleAtMostAll(ns[1..], expanded);
    }
  }

  // ----- the rows of a list, from the rows of its parts -----

  ghost function Kids(ns: seq<Node>, e: set<string>): seq<Node>
    requires ns != []
  {
    if Open(ns[0], e) then Visible(ns[0].children, e) else []
  }

  /** A node, the rows below it and the rows of the later nodes. */
  ghost function Block(first: Node, kids: seq<Node>, rest: seq<Node>): seq<Node>
  {
    [first] + kids + rest
  }

  lemma Unfold(ns: seq<Node>, e: set<string>)
    requires ns != []
    ensures Visible(ns, e) == Block(ns[0], Kids(ns, e), Visible(ns[1..], e))
  {
  }

  // ----- what changes when one path is toggled -----

  ghost predicate SameBut(a: set<string>, b: set<string>, x: string)
  {
    forall p :: p != x ==> (p in a <==> p in b)
  }

  /** A node that the toggling of `x` affects. */
  predicate Affected(n: Node, x: string)
  {
    Expandable(n) && n.path == x
  }

  /** Some node of the list is affected. */
  ghost predicate Hit(ns: seq<Node>, x: string)
  {
    exists n :: n in ns && Affected(n, x)
  }

  lemma HitConcat(a: seq<Node>, b: seq<Node>, x: string)
    ensures Hit(a + b, x) <==> Hit(a, x) || Hit(b, x)
  {
    if Hit(a, x) {
      var n :| n in a && Affected(n, x);
      assert n in a + b;
    }
    if Hit(b, x) {
      var n :| n in b && Affected(n, x);
      assert n in a + b;
    }
  }

  lemma HitOne(n: Node, x: string)
    ensures Hit([n], x) <==> Affected(n, x)
    ensures !Hit([], x)
  {
    assert n in [n];
  }

  lemma HitAbove(first: Node, kids: seq<Node>, rest: seq<Node>, x: string, i: nat)
    requires 0 < i <= 1 + |kids| + |rest|
    ensures i <= |kids| ==>
              (Hit(Block(first, kids, rest)[..i], x) <==> Affected(first, x) || Hit(kids[..i - 1], x))
    ensures i > |kids| ==>
              (Hit(Block(first, kids, rest)[..i], x) <==>
                 Affected(first, x) || Hit(kids, x) || Hit(rest[..i - 1 - |kids|], x))
  {
    var all := Block(first, kids, rest);
    HitOne(first, x);
    if i <= |kids| {
      assert all[..i] == [first] + kids[..i - 1];
      HitConcat([first], kids[..i - 1], x);
    } else {
      var tail := rest[..i - 1 - |kids|];
      assert all[..i] == [first] + kids + tail;
      HitConcat([first] + kids, tail, x);
      HitConcat([first], kids, x);
    }
  }

  lemma {:induction false} NothingAffected(ns: seq<Node>, a: set<string>, b: set<string>, x: string)
    requires SameBut(a, b, x) && !Hit(Visible(ns, a), x)
    ensures Visible(ns, b) == Visible(ns, a)
    decreases ns
  {
    if ns != [] {
      Unfold(ns, a);
      Unfold(ns, b);
      var kids, rest := Kids(ns, a), Visible(ns[1..], a);
      HitAbove(ns[0], kids, rest, x, 1 + |kids| + |rest|);
      assert Block(ns[0], kids, rest)[..1 + |kids| + |rest|] == Block(ns[0], kids, rest);
      assert rest[..|rest|] == rest;
      NothingAffected(ns[1..], a, b, x);
      if Open(ns[0], a) {
        NothingAffected(ns[0].children, a, b, x);
      }
    }
  }

  lemma {:induction false} KidsStay(ns: seq<Node>, a: set<string>, b: set<string>, x: string)
    requires ns != [] && SameBut(a, b, x) && !Affected(ns[0], x) && !Hit(Kids(ns, a), x)
    ensures Kids(ns, b) == Kids(ns, a)
  {
    if Open(ns[0], a) {
      NothingAffected(ns[0].children, a, b, x);
    }
  }

  /** Two lists of rows agree up to row i. */
  ghost predicate Agree(rows: seq<Node>, rows': seq<Node>, i: nat)
  {
    i < |rows| && i < |rows'| && rows'[..i + 1] == rows[..i + 1]
  }

  lemma AgreeInKids(first: Node, kids: seq<Node>, kids': seq<Node>, rest: seq<Node>, rest': seq<Node>, i: nat)
    requires Agree(kids, kids', i)
    ensures Agree(Block(first, kids, rest), Block(first, kids', rest'), i + 1)
  {
    var all, all' := Block(first, kids, rest), Block(first, kids', rest');
    assert all[..i + 2] == [first] + kids[..i + 1];
    assert all'[..i + 2] == [first] + kids'[..i + 1];
  }

  lemma AgreeInRest(first: Node, kids: seq<Node>, rest: seq<Node>, rest': seq<Node>, i: nat)
    requires Agree(rest, rest', i)
    ensures Agree(Block(first, kids, rest), Block(first, kids, rest'), 1 + |kids| + i)
  {
    var all, all' := Block(first, kids, rest), Block(first, kids, rest');
    var n := 2 + |kids| + i;
    assert all[..n] == [first] + kids + rest[..i + 1];
    assert all'[..n] == [first] + kids + rest'[..i + 1];
  }

  /** Everything up to and including a node stays put when no node above it is affected. */
  lemma {:induction false} PrefixStays(ns: seq<Node>, a: set<string>, b: set<string>, x: string, i: nat)
    requires SameBut(a, b, x) && i < |Visible(ns, a)|
    requires !Hit(Visible(ns, a)[..i], x)
    ensures Agree(Visible(ns, a), Visible(ns, b), i)
    decreases ns
  {
    Unfold(ns, a);
    Unfold(ns, b);
    var kids, kids' := Kids(ns, a), Kids(ns, b);
    var rest, rest' := Visible(ns[1..], a), Visible(ns[1..], b);
    if i > 0 {
      HitAbove(ns[0], kids, rest, x, i);
      if i <= |kids| {
        PrefixStays(ns[0].children, a, b, x, i - 1);
        AgreeInKids(ns[0], kids, kids', rest, rest', i - 1);
      } else {
        KidsStay(ns, a, b, x);
        PrefixStays(ns[1..], a, b, x, i - 1 - |kids|);
        AgreeInRest(ns[0], kids, rest, rest', i - 1 - |kids|);
      }
    }
  }

  /** The rows after opening `x`: what is below each affected row follows it. */
  ghost function Spread(rows: seq<Node>, e: set<string>, x: string): seq<Node>
  {
    if rows == [] then [] else
      [rows[0]] + (if Affected(rows[0], x) then Visible(rows[0].children, e + {x}) else []) + Spread(rows[1..], e, x)
  }

  lemma {:induction false} SpreadConcat(a: seq<Node>, b: seq<Node>, e: set<string>, x: string)
    ensures Spread(a + b, e, x) == Spread(a, e, x) + Spread(b, e, x)
  {
    if a == [] {
      assert a + b == b;
    } else {
      assert (a + b)[1..] == a[1..] + b;
      SpreadConcat(a[1..], b, e, x);
      var head := [a[0]] + if Affected(a[0], x) then Visible(a[0].children, e + {x}) else [];
      assert head + (Spread(a[1..], e, x) + Spread(b, e, x)) == (head + Spread(a[1..], e, x)) + Spread(b, e, x);
    }
  }

  lemma SpreadOne(n: Node, e: set<string>, x: string)
    ensures Spread([n], e, x) == [n] + if Affected(n, x) then Visible(n.children, e + {x}) else []
  {
    assert [n][1..] == [];
  }

  lemma {:induction false} OpeningSpreads(ns: seq<Node>, e: set<string>, x: string)
    requires x !in e
    ensures Visible(ns, e + {x}) == Spread(Visible(ns, e), e, x)
    decreases ns
  {
    if ns != [] {
      Unfold(ns, e);
      Unfold(ns, e + {x});
      var kids, rest := Kids(ns, e), Visible(ns[1..], e);
      OpeningSpreads(ns[1..], e, x);
      SpreadConcat([ns[0]] + kids, rest, e, x);
      SpreadConcat([ns[0]], kids, e, x);
      SpreadOne(ns[0], e, x);
      if Open(ns[0], e) {
        OpeningSpreads(ns[0].children, e, x);
      }
    }
  }

  lemma SpreadAt(rows: seq<Node>, e: set<string>, x: string, c: nat)
    requires c < |rows|
    ensures Spread(rows, e, x)
         == Spread(rows[..c], e, x)
            + ([rows[c]] + if Affected(rows[c], x) then Visible(rows[c].children, e + {x}) else [])
            + Spread(rows[c + 1..], e, x)
  {
    assert rows == rows[..c] + ([rows[c]] + rows[c + 1..]);
    SpreadConcat(rows[..c], [rows[c]] + rows[c + 1..], e, x);
    SpreadConcat([rows[c]], rows[c + 1..], e, x);
    SpreadOne(rows[c], e, x);
    var a, b, d := Spread(rows[..c], e, x), Spread([rows[c]], e, x), Spread(rows[c + 1..], e, x);
    assert a + (b + d) == a + b + d;
  }

  lemma {:induction false} SpreadSize(rows: seq<Node>, e: set<string>, x: string)
    ensures |Spread(rows, e, x)| >= |rows|
    ensures |Spread(rows, e, x)| > |rows| <==> Hit(rows, x)
  {
    if rows == [] {
    } else {
      SpreadSize(rows[1..], e, x);
      assert rows == [rows[0]] + rows[1..];
      HitConcat([rows[0]], rows[1..], x);
      HitOne(rows[0], x);
    }
  }

  /** Row `i` is row `k` after opening `x`: it moves down, and strictly so exactly
      when some affected node is above it. */
  lemma MovesDown(rows: seq<Node>, e: set<string>, x: string, i: nat) returns (k: nat)
    requires i < |rows|
    ensures i <= k < |Spread(rows, e, x)| && Spread(rows, e, x)[k] == rows[i]
    ensures k > i <==> Hit(rows[..i], x)
  {
    k := |Spread(rows[..i], e, x)|;
    SpreadAt(rows, e, x, i);
    SpreadSize(rows[..i], e, x);
  }

  // ----- nodes are told apart -----

  lemma {:induction false} SiblingsTail(base: seq<string>, ns: seq<Node>)
    requires ns != [] && Siblings(base, ns) && AllGrown(ns)
    ensures Siblings(base, ns[1..]) && AllGrown(ns[1..])
    ensures Siblings(ns[0].at, ns[0].children) && AllGrown(ns[0].children)
  {
    assert forall i :: 0 <= i < |ns[1..]| ==> ns[1..][i] == ns[i + 1];
  }

  ghost predicate Apart(rows: seq<Node>)
  {
    forall i, j :: 0 <= i < j < |rows| ==> rows[i].at != rows[j].at
  }

  ghost predicate Under(n: Node, base: seq<string>)
  {
    |n.at| > |base| && n.at[..|base|] == base
  }

  ghost predicate Beneath(rows: seq<Node>, base: seq<string>)
  {
    forall i :: 0 <= i < |rows| ==> Under(rows[i], base)
  }

  ghost predicate Avoids(rows: seq<Node>, base: seq<string>, seg: string)
  {
    forall i :: 0 <= i < |rows| ==> |rows[i].at| > |base| && rows[i].at[|base|] != seg
  }

  lemma DeeperUnder(n: Node, base: seq<string>, seg: string)
    requires Under(n, base + [seg])
    ensures Under(n, base) && n.at[|base|] == seg
  {
    assert n.at[..|base|] == n.at[..|base| + 1][..|base|];
    assert n.at[|base|] == n.at[..|base| + 1][|base|];
  }

  /** Every visible node is a listed node or lies below one. */
  lemma {:induction false} RowsBeneath(ns: seq<Node>, e: set<string>, base: seq<string>)
    requires Siblings(base, ns) && AllGrown(ns)
    ensures Beneath(Visible(ns, e), base)
    decreases ns
  {
    if ns != [] {
      Unfold(ns, e);
      SiblingsTail(base, ns);
      RowsBeneath(ns[1..], e, base);
      var kids := Kids(ns, e);
      if Open(ns[0], e) {
        RowsBeneath(ns[0].children, e, ns[0].at);
      }
      KidsBeneath(ns[0], kids, base);
      BlockBeneath(ns[0], kids, Visible(ns[1..], e), base);
    }
  }

  lemma KidsBeneath(first: Node, kids: seq<Node>, base: seq<string>)
    requires Under(first, base) && |first.at| == |base| + 1 && Beneath(kids, first.at)
    ensures Beneath(kids, base)
    ensures forall i :: 0 <= i < |kids| ==> kids[i].at[|base|] == first.at[|base|]
  {
    assert first.at == base + [first.at[|base|]];
    forall i | 0 <= i < |kids|
      ensures Under(kids[i], base) && kids[i].at[|base|] == first.at[|base|]
    {
      DeeperUnder(kids[i], base, first.at[|base|]);
    }
  }

  lemma BlockBeneath(first: Node, kids: seq<Node>, rest: seq<Node>, base: seq<string>)
    requires Under(first, base) && Beneath(kids, base) && Beneath(rest, base)
    ensures Beneath(Block(first, kids, rest), base)
  {
  }

  /** A key that no listed node has is on no row. */
  lemma {:induction false} RowsAvoid(ns: seq<Node>, e: set<string>, base: seq<string>, seg: string)
    requires Siblings(base, ns) && AllGrown(ns) && Avoids(ns, base, seg)
    ensures Avoids(Visible(ns, e), base, seg)
    decreases ns
  {
    if ns != [] {
      Unfold(ns, e);
      SiblingsTail(base, ns);
      assert Avoids(ns[1..], base, seg);
      RowsAvoid(ns[1..], e, base, seg);
      var kids := Kids(ns, e);
      if Open(ns[0], e) {
        RowsBeneath(ns[0].children, e, ns[0].at);
      }
      KidsBeneath(ns[0], kids, base);
      BlockAvoids(ns[0], kids, Visible(ns[1..], e), base, seg);
    }
  }

  lemma BlockAvoids(first: Node, kids: seq<Node>, rest: seq<Node>, base: seq<string>, seg: string)
    requires Avoids([first], base, seg) && Avoids(kids, base, seg) && Avoids(rest, base, seg)
    ensures Avoids(Block(first, kids, rest), base, seg)
  {
    assert [first][0] == first;
  }

  /** No two visible nodes have the same key path. */
  lemma {:induction false} RowsApart(ns: seq<Node>, e: set<string>, base: seq<string>)
    requires Siblings(base, ns) && AllGrown(ns)
    ensures Apart(Visible(ns, e))
    decreases ns
  {
    if ns != [] {
      Unfold(ns, e);
      SiblingsTail(base, ns);
      RowsApart(ns[1..], e, base);
      var seg := ns[0].at[|base|];
      OthersAvoid(ns, base);
      RowsAvoid(ns[1..], e, base, seg);
      var kids := Kids(ns, e);
      if Open(ns[0], e) {
        RowsBeneath(ns[0].children, e, ns[0].at);
        RowsApart(ns[0].children, e, ns[0].at);
      }
      KidsBeneath(ns[0], kids, base);
      BlockApart(ns[0], kids, Visible(ns[1..], e), base);
    }
  }

  lemma OthersAvoid(ns: seq<Node>, base: seq<string>)
    requires ns != [] && Siblings(base, ns)
    ensures Under(ns[0], base) && Avoids(ns[1..], base, ns[0].at[|base|])
  {
    forall i | 0 <= i < |ns[1..]|
      ensures ns[1..][i].at[|base|] != ns[0].at[|base|]
    {
      var m, n := ns[0], ns[i + 1];
      assert ns[1..][i] == n;
      assert m.at == base + [m.at[|base|]] && n.at == base + [n.at[|base|]];
    }
  }

  lemma BlockApart(first: Node, kids: seq<Node>, rest: seq<Node>, base: seq<string>)
    requires Under(first, base) && Beneath(kids, first.at) && Apart(kids) && Apart(rest)
    requires forall i :: 0 <= i < |kids| ==> |kids[i].at| > |base| && kids[i].at[|base|] == first.at[|base|]
    requires Avoids(rest, base, first.at[|base|])
    ensures Apart(Block(first, kids, rest))
  {
    var all := Block(first, kids, rest);
    forall i, j | 0 <= i < j < |all|
      ensures all[i].at != all[j].at
    {
      if j > |kids| {
        assert all[j] == rest[j - 1 - |kids|];
        assert i > |kids| ==> all[i] == rest[i - 1 - |kids|];
        assert 0 < i <= |kids| ==> all[i] == kids[i - 1];
      } else {
        assert all[j] == kids[j - 1];
        assert i > 0 ==> all[i] == kids[i - 1];
      }
    }
  }

  lemma {:induction false} RowsGrown(ns: seq<Node>, e: set<string>)
    requires AllGrown(ns)
    ensures AllGrown(Visible(ns, e))
    decreases ns
  {
    if ns != [] {
      Unfold(ns, e);
      assert AllGrown(ns[1..]);
      RowsGrown(ns[1..], e);
      if Open(ns[0], e) {
        RowsGrown(ns[0].children, e);
      }
    }
  }

  lemma {:induction false} RowsClean(ns: seq<Node>, e: set<string>)
    requires AllClean(ns)
    ensures AllClean(Visible(ns, e))
    decreases ns
  {
    if ns != [] {
      Unfold(ns, e);
      assert AllClean(ns[1..]);
      RowsClean(ns[1..], e);
      if Open(ns[0], e) {
        RowsClean(ns[0].children, e);
      }
    }
  }

  /** A tree as the overlay holds it: well grown, with named roots. */
  ghost predicate Rooted(root: seq<Node>)
  {
    AllGrown(root) && Siblings([], root) && forall i :: 0 <= i < |root| ==> root[i].path != ""
  }

  /** Whatever value is decoded, its tree is rooted. */
  lemma TreeIsRooted(parsed: Option<Json>)
    requires parsed.Some? ==> Decoded(parsed.value)
    ensures Rooted(BuildTree(parsed))
  {
    TreeIsGrown(parsed);
  }

  /** A rooted tree in which no key contains a dot. */
  ghost predicate Tidy(root: seq<Node>)
  {
    Rooted(root) && AllClean(root)
  }

  /** The tree of a decoded value with dot-free keys is tidy. */
  lemma TreeIsTidy(parsed: Option<Json>)
    requires parsed.Some? ==> Decoded(parsed.value) && DotFreeKeys(parsed.value)
    ensures Tidy(BuildTree(parsed))
  {
    TreeIsRooted(parsed);
    TreeIsClean(parsed);
  }

  /** In a tidy tree no two visible nodes share a path. */
  lemma {:induction false} PathsDistinct(root: seq<Node>, e: set<string>, i: nat, j: nat)
    requires Tidy(root) && i < j < |Visible(root, e)|
    ensures Visible(root, e)[i].path != Visible(root, e)[j].path
  {
    var a, b := Visible(root, e)[i], Visible(root, e)[j];
    RowsApart(root, e, []);
    RowsGrown(root, e);
    RowsClean(root, e);
    if a.path == b.path {
      JoinInjective(a.at, b.at);
    }
  }

  lemma NoneAbove(root: seq<Node>, e: set<string>, i: nat)
    requires Tidy(root) && i < |Visible(root, e)|
    ensures !Hit(Visible(root, e)[..i], Visible(root, e)[i].path)
  {
    forall n | n in Visible(root, e)[..i]
      ensures n.path != Visible(root, e)[i].path
    {
      var j :| 0 <= j < i && Visible(root, e)[j] == n;
      PathsDistinct(root, e, j, i);
    }
  }

  function ToggledPath(e: set<string>, p: string): (r: set<string>)
    ensures p in r <==> p !in e
    ensures forall q :: q != p ==> (q in r <==> q in e)
  {
    if p in e then e - {p} else e + {p}
  }

  /** Toggling a node leaves it in its row if and only if no expandable node above it
      has the same path; then every row above stays as well. */
  lemma {:induction false} ToggleKeepsNodeExactly(root: seq<Node>, e: set<string>, i: nat)
    requires AllGrown(root) && Siblings([], root) && i < |Visible(root, e)|
    ensures var rows, p := Visible(root, e), Visible(root, e)[i].path;
            var after := Visible(root, ToggledPath(e, p));
            && (i < |after| && after[i] == rows[i] <==> !Hit(rows[..i], p))
            && (!Hit(rows[..i], p) ==> Agree(rows, after, i))
  {
    var rows, p := Visible(root, e), Visible(root, e)[i].path;
    var after := Visible(root, ToggledPath(e, p));
    if !Hit(rows[..i], p) {
      PrefixStays(root, e, ToggledPath(e, p), p, i);
      AgreeAbove(rows, after, i);
    } else if p in e {
      if i < |after| && after[i] == rows[i] {
        ClosingStays(root, e, p, i);
      }
    } else {
      OpeningMoves(root, e, p, i);
    }
  }

  lemma {:induction false} OpeningMoves(root: seq<Node>, e: set<string>, p: string, i: nat)
    requires AllGrown(root) && Siblings([], root) && p !in e
    requires i < |Visible(root, e)| && Hit(Visible(root, e)[..i], p)
    ensures i < |Visible(root, e + {p})| && Visible(root, e + {p})[i] != Visible(root, e)[i]
  {
    OpeningSpreads(root, e, p);
    RowsApart(root, e + {p}, []);
    var k := MovesDown(Visible(root, e), e, p, i);
  }

  lemma {:induction false} ClosingStays(root: seq<Node>, e: set<string>, p: string, i: nat)
    requires AllGrown(root) && Siblings([], root) && p in e
    requires i < |Visible(root, e)| && i < |Visible(root, e - {p})| && Visible(root, e - {p})[i] == Visible(root, e)[i]
    ensures !Hit(Visible(root, e)[..i], p)
  {
    var rows, after := Visible(root, e), Visible(root, e - {p});
    assert !Hit(after[..i], p) by {
      assert e - {p} + {p} == e;
      OpeningSpreads(root, e - {p}, p);
      RowsApart(root, e, []);
      var k := MovesDown(after, e - {p}, p, i);
    }
    assert rows[..i] == after[..i] by {
      PrefixStays(root, e - {p}, e, p, i);
      AgreeAbove(after, rows, i);
    }
  }

  lemma AgreeAbove(rows: seq<Node>, rows': seq<Node>, i: nat)
    requires Agree(rows, rows', i)
    ensures rows'[..i] == rows[..i] && rows'[i] == rows[i]
  {
    assert rows'[..i] == rows'[..i + 1][..i] == rows[..i + 1][..i] == rows[..i];
    assert rows'[i] == rows'[..i + 1][i] == rows[..i + 1][i] == rows[i];
  }

  /** In a tidy tree no other node has the toggled path, so it always stays. */
  lemma {:induction false} ToggleKeepsNode(root: seq<Node>, e: set<string>, i: nat)
    requires Tidy(root) && i < |Visible(root, e)|
    ensures Agree(Visible(root, e), Visible(root, ToggledPath(e, Visible(root, e)[i].path)), i)
  {
    NoneAbove(root, e, i);
    ToggleKeepsNodeExactly(root, e, i);
  }

  // ----- collapsing from a child -----

  ghost predicate ParentOf(parent: Node, n: Node)
  {
    |n.at| > 0 && parent.at == n.at[..|n.at| - 1]
  }

  /** Row `i` is one of the listed nodes, or a child of the open row `j` above it. */
  ghost predicate Hangs(rows: seq<Node>, ns: seq<Node>, e: set<string>, i: nat, j: nat)
  {
    && j <= i < |rows|
    && if j < i then Open(rows[j], e) && rows[i] in rows[j].children else rows[i] in ns
  }

  ghost predicate HasParent(rows: seq<Node>, ns: seq<Node>, e: set<string>, i: nat)
  {
    exists j: nat :: Hangs(rows, ns, e, i, j)
  }

  ghost predicate AllHang(rows: seq<Node>, ns: seq<Node>, e: set<string>)
  {
    forall i: nat :: i < |rows| ==> HasParent(rows, ns, e, i)
  }

  lemma {:induction false} RowsHang(ns: seq<Node>, e: set<string>)
    ensures AllHang(Visible(ns, e), ns, e)
    decreases ns
  {
    if ns != [] {
      Unfold(ns, e);
      RowsHang(ns[1..], e);
      if Open(ns[0], e) {
        RowsHang(ns[0].children, e);
      }
      BlockHangs(ns, Kids(ns, e), Visible(ns[1..], e), e);
    }
  }

  lemma BlockHangs(ns: seq<Node>, kids: seq<Node>, rest: seq<Node>, e: set<string>)
    requires ns != [] && AllHang(rest, ns[1..], e)
    requires kids == [] || (Open(ns[0], e) && AllHang(kids, ns[0].children, e))
    ensures AllHang(Block(ns[0], kids, rest), ns, e)
  {
    var all := Block(ns[0], kids, rest);
    forall i: nat | i < |all|
      ensures HasParent(all, ns, e, i)
    {
      if i == 0 {
        assert Hangs(all, ns, e, 0, 0);
      } else if i <= |kids| {
        HangsInKids(ns, kids, rest, e, i - 1);
      } else {
        HangsInRest(ns, kids, rest, e, i - 1 - |kids|);
      }
    }
  }

  lemma HangsInKids(ns: seq<Node>, kids: seq<Node>, rest: seq<Node>, e: set<string>, i: nat)
    requires ns != [] && Open(ns[0], e) && HasParent(kids, ns[0].children, e, i)
    ensures HasParent(Block(ns[0], kids, rest), ns, e, i + 1)
  {
    var m: nat :| Hangs(kids, ns[0].children, e, i, m);
    var j := if m == i then 0 else 1 + m;
    var all := Block(ns[0], kids, rest);
    assert all[i + 1] == kids[i] && all[m + 1] == kids[m] && all[0] == ns[0];
    assert Hangs(all, ns, e, i + 1, j);
  }

  lemma HangsInRest(ns: seq<Node>, kids: seq<Node>, rest: seq<Node>, e: set<string>, i: nat)
    requires ns != [] && HasParent(rest, ns[1..], e, i)
    ensures HasParent(Block(ns[0], kids, rest), ns, e, 1 + |kids| + i)
  {
    var m: nat :| Hangs(rest, ns[1..], e, i, m);
    var all := Block(ns[0], kids, rest);
    assert all[1 + |kids| + i] == rest[i] && all[1 + |kids| + m] == rest[m];
    assert Hangs(all, ns, e, 1 + |kids| + i, 1 + |kids| + m);
  }

  /** A visible node that is not at the top has its parent above it, expanded. */
  lemma {:induction false} ParentAbove(root: seq<Node>, e: set<string>, i: nat) returns (j: nat)
    requires Siblings([], root) && AllGrown(root) && i < |Visible(root, e)| && |Visible(root, e)[i].at| >= 2
    ensures j < i && Open(Visible(root, e)[j], e) && ParentOf(Visible(root, e)[j], Visible(root, e)[i])
    ensures Visible(root, e)[i] in Visible(root, e)[j].children
  {
    RowsHang(root, e);
    assert HasParent(Visible(root, e), root, e, i);
    j :| Hangs(Visible(root, e), root, e, i, j);
    RowsGrown(root, e);
  }

  /** The nearest row above `i` with the given path, or `i` itself. */
  function NearestAbove(rows: seq<Node>, i: nat, p: string): (j: nat)
    requires i < |rows|
    ensures j <= i && (j < i ==> rows[j].path == p)
    ensures forall k :: j < k < i ==> rows[k].path != p
    ensures j == i ==> forall k :: 0 <= k < i ==> rows[k].path != p
  {
    NearestFrom(rows, i, i, p)
  }

  function NearestFrom(rows: seq<Node>, i: nat, from: nat, p: string): (j: nat)
    requires from <= i < |rows|
    ensures j == i || (j < from && rows[j].path == p)
    ensures forall k :: (if j == i then 0 else j + 1) <= k < from ==> rows[k].path != p
  {
    if from == 0 then i else if rows[from - 1].path == p then from - 1 else NearestFrom(rows, i, from - 1, p)
  }

  // ----- the state of the overlay -----

  datatype State = State(root: seq<Node>, expanded: set<string>, cursor: int, groups: nat, previewTab: int)

  datatype Key = Down | Up | Expand | Collapse | TabPrev | TabNext | Top | Bottom

  function Clamped(cursor: int, n: nat): int
  {
    if n == 0 then 0 else
      var c := if cursor >= n then n - 1 else cursor;
      if c < 0 then 0 else c
  }

  function Reclamped(s: State): State
  {
    s.(cursor := Clamped(s.cursor, |Visible(s.root, s.expanded)|))
  }

  /** What collapsing does on a row: an open node closes; on any other node its
      parent closes and the cursor goes to it. */
  function CollapseAt(s: State, rows: seq<Node>): State
    requires 0 <= s.cursor < |rows|
  {
    var n := rows[s.cursor];
    if Open(n, s.expanded) then Reclamped(s.(expanded := s.expanded - {n.path}))
    else
      var p := ParentPath(n.path);
      if p == "" then s
      else Reclamped(s.(expanded := s.expanded - {p}, cursor := NearestAbove(rows, s.cursor, p)))
  }

  function Step(s: State, k: Key): State
  {
    var rows := Visible(s.root, s.expanded);
    match k
    case Down => Reclamped(s.(cursor := s.cursor + 1))
    case Up => Reclamped(s.(cursor := s.cursor - 1))
    case Expand =>
      if 0 <= s.cursor < |rows| && Expandable(rows[s.cursor])
      then Reclamped(s.(expanded := ToggledPath(s.expanded, rows[s.cursor].path))) else s
    case Collapse => if 0 <= s.cursor < |rows| then CollapseAt(s, rows) else s
    case TabPrev => if s.groups > 1 && s.previewTab > 0 then s.(previewTab := s.previewTab - 1) else s
    case TabNext => if s.groups > 1 && s.previewTab < s.groups - 1 then s.(previewTab := s.previewTab + 1) else s
    case Top => s.(cursor := 0)
    case Bottom => if rows != [] then s.(cursor := |rows| - 1) else s
  }

  function Run(s: State, keys: seq<Key>): State
  {
    if keys == [] then s else Step(Run(s, keys[..|keys| - 1]), keys[|keys| - 1])
  }

  /** The cursor is on a visible node, and the preview tab on one of the groups. */
  ghost predicate InRange(s: State)
  {
    && s.root != []
    && 0 <= s.cursor < |Visible(s.root, s.expanded)|
    && 0 <= s.previewTab && (s.previewTab < s.groups || s.previewTab == 0)
  }

  lemma StepInRange(s: State, k: Key)
    requires InRange(s)
    ensures InRange(Step(s, k)) && Step(s, k).root == s.root
  {
    Unfold(s.root, Step(s, k).expanded);
  }

  /** Down and up move by one row and stop at the ends; top and bottom go there. */
  lemma ArrowsByRow(s: State)
    requires InRange(s)
    ensures var last := |Visible(s.root, s.expanded)| - 1;
            && Step(s, Down) == s.(cursor := if s.cursor < last then s.cursor + 1 else last)
            && Step(s, Up) == s.(cursor := if s.cursor > 0 then s.cursor - 1 else 0)
            && Step(s, Top) == s.(cursor := 0) && Step(s, Bottom) == s.(cursor := last)
  {
  }

  /** The preview tabs move by one and stop at the ends. */
  lemma TabsByOne(s: State)
    requires InRange(s)
    ensures Step(s, TabNext) == s.(previewTab := if s.previewTab + 1 < s.groups then s.previewTab + 1 else s.previewTab)
    ensures Step(s, TabPrev) == s.(previewTab := if s.previewTab > 0 then s.previewTab - 1 else 0)
  {
  }

  /** On an open node the collapse key does what the toggle key does; nothing happens
      when a leaf is toggled or, in a tidy tree, a closed root is collapsed. */
  lemma {:induction false} KeysOnOpenAndLeaf(s: State)
    requires InRange(s)
    ensures var n := Visible(s.root, s.expanded)[s.cursor];
            && (Open(n, s.expanded) ==> Step(s, Collapse) == Step(s, Expand))
            && (n.children == [] ==> Step(s, Expand) == s)
            && (Tidy(s.root) && |n.at| == 1 && !Open(n, s.expanded) ==> Step(s, Collapse) == s)
  {
    var n := Visible(s.root, s.expanded)[s.cursor];
    if Tidy(s.root) && |n.at| == 1 {
      RowsGrown(s.root, s.expanded);
      RowsClean(s.root, s.expanded);
      assert n.path == n.at[0] && DotFree(n.at);
      assert ParentPath(n.path) == "";
    }
  }

  /** The cursor is in range after every key of every run. */
  lemma {:induction false} RunInRange(s: State, keys: seq<Key>)
    requires InRange(s)
    ensures InRange(Run(s, keys)) && Run(s, keys).root == s.root
  {
    if keys != [] {
      RunInRange(s, keys[..|keys| - 1]);
      StepInRange(Run(s, keys[..|keys| - 1]), keys[|keys| - 1]);
    }
  }

  /** The toggle key leaves the cursor on the node it toggled if and only if no
      expandable node above it has the same path; then a second time undoes the first. */
  lemma {:induction false} ExpandKeepsCursorExactly(s: State)
    requires InRange(s) && AllGrown(s.root) && Siblings([], s.root)
    requires Expandable(Visible(s.root, s.expanded)[s.cursor])
    ensures var rows, t := Visible(s.root, s.expanded), Step(s, Expand);
            var n := rows[s.cursor];
            && (t.cursor == s.cursor && Visible(t.root, t.expanded)[t.cursor] == n <==> !Hit(rows[..s.cursor], n.path))
            && (!Hit(rows[..s.cursor], n.path) ==> Step(t, Expand) == s)
  {
    var n := Visible(s.root, s.expanded)[s.cursor];
    ToggleKeepsNodeExactly(s.root, s.expanded, s.cursor);
    StepInRange(s, Expand);
    assert ToggledPath(ToggledPath(s.expanded, n.path), n.path) == s.expanded;
  }

  /** In a tidy tree toggling leaves the cursor on the node it toggled; twice changes
      nothing. */
  lemma {:induction false} ExpandKeepsCursor(s: State)
    requires InRange(s) && Tidy(s.root)
    ensures var t := Step(s, Expand);
            && t.cursor == s.cursor
            && Visible(t.root, t.expanded)[t.cursor] == Visible(s.root, s.expanded)[s.cursor]
    ensures Step(Step(s, Expand), Expand) == s
  {
    if Expandable(Visible(s.root, s.expanded)[s.cursor]) {
      NoneAbove(s.root, s.expanded, s.cursor);
      ExpandKeepsCursorExactly(s);
    }
  }

  /** Deeper nodes have longer paths, and no path is empty. */
  lemma {:induction false} LongerPath(base: seq<string>, at: seq<string>)
    requires base != [] && |at| > |base| && at[..|base|] == base
    ensures |Join(at)| > |Join(base)|
    decreases |at|
  {
    var init := at[..|at| - 1];
    if |init| > |base| {
      assert init[..|base|] == base;
      LongerPath(base, init);
    } else {
      assert init == base;
    }
  }

  lemma UnderPath(n: Node, m: Node)
    requires Grown(n) && Grown(m) && Under(n, m.at)
    ensures |n.path| > |m.path|
  {
    LongerPath(m.at, n.at);
  }

  lemma {:induction false} NamedPath(root: seq<Node>, e: set<string>, i: nat)
    requires Rooted(root) && i < |Visible(root, e)|
    ensures Visible(root, e)[i].path != ""
  {
    var n := Visible(root, e)[i];
    RowsGrown(root, e);
    if |n.at| == 1 {
      RowsHang(root, e);
      assert HasParent(Visible(root, e), root, e, i);
      var h: nat :| Hangs(Visible(root, e), root, e, i, h);
      assert Grown(Visible(root, e)[h]);
    }
  }

  /** The path of a child is its parent's path and its key; it leads back to the parent
      if and only if the key has no dot. */
  lemma ChildPath(parent: Node, n: Node)
    requires Grown(parent) && Grown(n) && |n.at| >= 2 && ParentOf(parent, n)
    ensures ParentPath(n.path) == parent.path <==> '.' !in LastKey(n)
  {
    ParentOfChild(parent.path, LastKey(n));
  }

  function LastKey(n: Node): string
  {
    if n.at == [] then "" else n.at[|n.at| - 1]
  }

  // The rows around a node, from the rows when its path is closed.

  /** A spread row was there, or lies below an affected row that was there. */
  lemma {:induction false} SpreadMember(rows: seq<Node>, e: set<string>, x: string, y: Node)
    requires y in Spread(rows, e, x)
    ensures y in rows || exists r :: r in rows && Affected(r, x) && y in Visible(r.children, e + {x})
  {
    if y != rows[0] && !(Affected(rows[0], x) && y in Visible(rows[0].children, e + {x})) {
      SpreadMember(rows[1..], e, x, y);
    }
  }

  lemma {:induction false} SpreadHits(rows: seq<Node>, e: set<string>, x: string)
    ensures Hit(Spread(rows, e, x), x) <==> Hit(rows, x)
  {
    if Hit(Spread(rows, e, x), x) {
      var y :| y in Spread(rows, e, x) && Affected(y, x);
      SpreadMember(rows, e, x, y);
    }
    if Hit(rows, x) {
      var y :| y in rows && Affected(y, x);
      var i :| 0 <= i < |rows| && rows[i] == y;
      SpreadAt(rows, e, x, i);
    }
  }

  /** A node stays visible when its own path is closed. */
  lemma {:induction false} StaysVisible(root: seq<Node>, e: set<string>, j: nat)
    requires AllGrown(root) && Siblings([], root) && j < |Visible(root, e)| && Open(Visible(root, e)[j], e)
    ensures Visible(root, e)[j] in Visible(root, e - {Visible(root, e)[j].path})
  {
    var parent := Visible(root, e)[j];
    var p := parent.path;
    var after := Visible(root, e - {p});
    assert e - {p} + {p} == e;
    OpeningSpreads(root, e - {p}, p);
    SpreadMember(after, e - {p}, p, parent);
    if parent !in after {
      var r :| r in after && Affected(r, p) && parent in Visible(r.children, e);
      RowsGrown(root, e - {p});
      RowsGrown(root, e);
      RowsBeneath(r.children, e, r.at);
      UnderPath(parent, r);
    }
  }

  /** Where an open node is once its path is closed: in row `c`, above its old row j if
      and only if an expandable node above it has the same path. Until then its rows
      follow it, and it becomes the last row if and only if they reach the end. */
  lemma {:induction false} ClosingPlaces(root: seq<Node>, e: set<string>, j: nat) returns (c: nat)
    requires AllGrown(root) && Siblings([], root) && j < |Visible(root, e)| && Open(Visible(root, e)[j], e)
    ensures var rows := Visible(root, e);
            var after, below := Visible(root, e - {rows[j].path}), Visible(rows[j].children, e);
            && c < |after| && after[c] == rows[j] && c <= j
            && (c < j <==> Hit(rows[..j], rows[j].path))
            && j + 1 + |below| <= |rows| && rows[j + 1..j + 1 + |below|] == below
            && (c + 1 == |after| <==> j + 1 + |below| == |rows|)
  {
    var rows, parent := Visible(root, e), Visible(root, e)[j];
    var p := parent.path;
    var closed := e - {p};
    var after, below := Visible(root, closed), Visible(parent.children, e);
    assert closed + {p} == e;
    OpeningSpreads(root, closed, p);
    StaysVisible(root, e, j);
    c :| 0 <= c < |after| && after[c] == parent;
    SpreadAt(after, closed, p, c);
    RowsApart(root, e, []);
    PlaceInSpread(rows, Spread(after[..c], closed, p), parent, below, Spread(after[c + 1..], closed, p), j);
    SpreadSize(after[..c], closed, p);
    SpreadHits(after[..c], closed, p);
    SpreadSize(after[c + 1..], closed, p);
  }

  lemma PlaceInSpread(rows: seq<Node>, head: seq<Node>, n: Node, below: seq<Node>, tail: seq<Node>, j: nat)
    requires rows == head + ([n] + below) + tail && Apart(rows) && j < |rows| && rows[j] == n
    ensures j == |head| && rows[..j] == head && rows[j + 1..j + 1 + |below|] == below
    ensures |rows| == j + 1 + |below| + |tail|
  {
    assert rows[|head|] == n;
  }

  /** A listed node is visible. */
  lemma {:induction false} ListedVisible(ns: seq<Node>, e: set<string>, n: Node)
    requires n in ns
    ensures n in Visible(ns, e)
  {
    Unfold(ns, e);
    if n != ns[0] {
      ListedVisible(ns[1..], e, n);
    }
  }

  /** The nearest row above a child that has its parent's path is the parent. */
  lemma {:induction false} NearestIsParent(root: seq<Node>, e: set<string>, i: nat, j: nat)
    requires AllGrown(root) && Siblings([], root) && j < i < |Visible(root, e)|
    requires Open(Visible(root, e)[j], e) && Visible(root, e)[i] in Visible(root, e)[j].children
    ensures NearestAbove(Visible(root, e), i, Visible(root, e)[j].path) == j
  {
    var rows := Visible(root, e);
    ChildRow(root, e, i, j);
    forall m | j < m < i
      ensures rows[m].path != rows[j].path
    {
      BelowApart(root, e, j, m);
    }
  }

  /** A child of an open row stands among the rows of its subtree. */
  lemma ChildRow(root: seq<Node>, e: set<string>, i: nat, j: nat)
    requires AllGrown(root) && Siblings([], root) && j < i < |Visible(root, e)|
    requires Open(Visible(root, e)[j], e) && Visible(root, e)[i] in Visible(root, e)[j].children
    ensures i <= j + |Visible(Visible(root, e)[j].children, e)| < |Visible(root, e)|
  {
    var rows := Visible(root, e);
    var below := Visible(rows[j].children, e);
    var c := ClosingPlaces(root, e, j);
    RowsApart(root, e, []);
    ListedVisible(rows[j].children, e, rows[i]);
    WithinBlock(rows, below, j + 1, i);
  }

  /** A row that occurs in a block of rows stands in it. */
  lemma WithinBlock(rows: seq<Node>, block: seq<Node>, from: nat, i: nat)
    requires Apart(rows) && i < |rows| && from + |block| <= |rows| && rows[from..from + |block|] == block
    requires rows[i] in block
    ensures from <= i < from + |block|
  {
    var r :| 0 <= r < |block| && block[r] == rows[i];
    assert rows[from..from + |block|][r] == rows[from + r];
  }

  /** The rows of an open row's subtree do not have its path. */
  lemma BelowApart(root: seq<Node>, e: set<string>, j: nat, m: nat)
    requires AllGrown(root) && Siblings([], root) && j < m < |Visible(root, e)|
    requires Open(Visible(root, e)[j], e) && m <= j + |Visible(Visible(root, e)[j].children, e)|
    ensures Visible(root, e)[m].path != Visible(root, e)[j].path
  {
    var rows := Visible(root, e);
    var below := Visible(rows[j].children, e);
    var c := ClosingPlaces(root, e, j);
    RowsGrown(root, e);
    RowsBeneath(rows[j].children, e, rows[j].at);
    assert rows[j + 1..j + 1 + |below|][m - j - 1] == rows[m];
    assert Under(below[m - j - 1], rows[j].at);
    UnderPath(rows[m], rows[j]);
  }

  /** The cursor is on the node, which is closed. */
  ghost predicate OnClosed(t: State, n: Node)
  {
    && 0 <= t.cursor < |Visible(t.root, t.expanded)|
    && Visible(t.root, t.expanded)[t.cursor] == n && !Open(n, t.expanded)
  }

  /** The collapse key on a child (or a closed node) leaves the cursor on its parent,
      now closed, if and only if the node's key has no dot and the parent keeps its row,
      no expandable node above it having its path, or ends up in the last row, its own
      rows being the last ones: then clamping the cursor catches it. */
  lemma {:induction false} CollapseGoesToParentExactly(s: State, j: nat)
    requires InRange(s) && Rooted(s.root) && j < s.cursor
    requires var rows := Visible(s.root, s.expanded);
             var n := rows[s.cursor];
             !Open(n, s.expanded) && |n.at| >= 2 && ParentOf(rows[j], n)
    ensures var rows := Visible(s.root, s.expanded);
            var n, parent := rows[s.cursor], rows[j];
            OnClosed(Step(s, Collapse), parent) <==>
              && '.' !in LastKey(n)
              && (!Hit(rows[..j], parent.path) || |rows| == j + 1 + |Visible(parent.children, s.expanded)|)
  {
    var rows := Visible(s.root, s.expanded);
    var n, parent := rows[s.cursor], rows[j];
    var above := ParentAbove(s.root, s.expanded, s.cursor);
    assert above == j by {
      RowsApart(s.root, s.expanded, []);
    }
    assert Grown(n) && Grown(parent) by {
      RowsGrown(s.root, s.expanded);
    }
    ChildPath(parent, n);
    NamedPath(s.root, s.expanded, j);
    if '.' !in LastKey(n) {
      NearestIsParent(s.root, s.expanded, s.cursor, j);
      ClosingParent(s, j);
    }
  }

  /** Closing the node in row j and putting the cursor in that row, as far as there are
      rows, leaves the cursor on the node under the condition above. */
  lemma {:induction false} ClosingParent(s: State, j: nat)
    requires AllGrown(s.root) && Siblings([], s.root)
    requires j < |Visible(s.root, s.expanded)| && Open(Visible(s.root, s.expanded)[j], s.expanded)
    ensures var rows := Visible(s.root, s.expanded);
            var parent := rows[j];
            OnClosed(Reclamped(s.(expanded := s.expanded - {parent.path}, cursor := j)), parent) <==>
              !Hit(rows[..j], parent.path) || |rows| == j + 1 + |Visible(parent.children, s.expanded)|
  {
    var parent := Visible(s.root, s.expanded)[j];
    var after := Visible(s.root, s.expanded - {parent.path});
    var c := ClosingPlaces(s.root, s.expanded, j);
    assert forall i :: 0 <= i < |after| && after[i] == parent ==> i == c by {
      RowsApart(s.root, s.expanded - {parent.path}, []);
    }
  }

  /** In a tidy tree, collapsing from a child (or a closed node) leaves the cursor on its
      parent, which is in its row and now collapsed. */
  lemma {:induction false} CollapseGoesToParent(s: State)
    requires InRange(s) && Tidy(s.root)
    requires var n := Visible(s.root, s.expanded)[s.cursor]; !Open(n, s.expanded) && |n.at| >= 2
    ensures var rows, t := Visible(s.root, s.expanded), Step(s, Collapse);
            && 0 <= t.cursor < s.cursor && OnClosed(t, rows[t.cursor])
            && ParentOf(rows[t.cursor], rows[s.cursor]) && Open(rows[t.cursor], s.expanded)
            && Step(t, Expand) == s.(cursor := t.cursor)
  {
    var rows := Visible(s.root, s.expanded);
    var n := rows[s.cursor];
    var j := ParentAbove(s.root, s.expanded, s.cursor);
    RowsGrown(s.root, s.expanded);
    RowsClean(s.root, s.expanded);
    assert DotFree(n.at);
    NoneAbove(s.root, s.expanded, j);
    CollapseGoesToParentExactly(s, j);
    ChildPath(rows[j], n);
    NamedPath(s.root, s.expanded, j);
    NearestIsParent(s.root, s.expanded, s.cursor, j);
    var c := ClosingPlaces(s.root, s.expanded, j);
  }

  class Overlay {
    var root: seq<Node>
    var expanded: set<string>
    var cursor: int
    var groups: nat
    var previewTab: int

    constructor (root: seq<Node>, expanded: set<string>, groups: nat)
      ensures Snapshot() == State(root, expanded, 0, groups, 0)
    {
      this.root, this.expanded, this.cursor, this.groups, this.previewTab := root, expanded, 0, groups, 0;
    }

    ghost function Snapshot(): State
      reads this
    {
      State(root, expanded, cursor, groups, previewTab)
    }

    method VisibleNodes() returns (nodes: seq<Node>)
      ensures nodes == Visible(root, expanded)
    {
      nodes := Walk(root, expanded, []);
    }

    method ClampCursor()
      modifies this`cursor
      ensures Snapshot() == Reclamped(old(Snapshot()))
    {
      var nodes := VisibleNodes();
      var n := |nodes|;
      if n == 0 {
        cursor := 0;
        return;
      }
      if cursor >= n {
        cursor := n - 1;
      }
      if cursor < 0 {
        cursor := 0;
      }
    }

    method CollapseRow(nodes: seq<Node>)
      requires nodes == Visible(root, expanded) && 0 <= cursor < |nodes|
      modifies this`cursor, this`expanded
      ensures Snapshot() == CollapseAt(old(Snapshot()), nodes)
    {
      var node := nodes[cursor];
      if Expandable(node) && node.path in expanded {
        expanded := expanded - {node.path};
        ClampCursor();
        return;
      }
      var pp := ParentPath(node.path);
      if pp == "" {
        return;
      }
      expanded := expanded - {pp};
      var i := cursor - 1;
      while i >= 0
        invariant cursor == old(cursor) && -1 <= i < cursor
        invariant expanded == old(expanded) - {pp}
        invariant NearestAbove(nodes, cursor, pp) == NearestFrom(nodes, cursor, i + 1, pp)
      {
        if nodes[i].path == pp {
          cursor := i;
          break;
        }
        i := i - 1;
      }
      ClampCursor();
    }

    /** `handleOpsTreeKey`, for the keys that keep the overlay open. */
    method HandleKey(k: Key)
      modifies this
      ensures Snapshot() == Step(old(Snapshot()), k)
    {
      match k {
        case Down =>
          cursor := cursor + 1;
          ClampCursor();
        case Up =>
          cursor := cursor - 1;
          ClampCursor();
        case Expand =>
          var nodes := VisibleNodes();
          if 0 <= cursor < |nodes| {
            var node := nodes[cursor];
            if Expandable(node) {
              expanded := ToggledPath(expanded, node.path);
              ClampCursor();
            }
          }
        case Collapse =>
          var nodes := VisibleNodes();
          if 0 <= cursor < |nodes| {
            CollapseRow(nodes);
          }
        case TabPrev =>
          if groups > 1 && previewTab > 0 {
            previewTab := previewTab - 1;
          }
        case TabNext =>
          if groups > 1 && previewTab < groups - 1 {
            previewTab := previewTab + 1;
          }
        case Top =>
          cursor := 0;
        case Bottom =>
          var nodes := VisibleNodes();
          if |nodes| > 0 {
            cursor := |nodes| - 1;
          }
      }
    }
  }
}
