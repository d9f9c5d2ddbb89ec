/**
 What the JSON tree shows of the parsed value: every field, item and leaf has its
 node, in its place, and the guides drawn beside a node tell its ancestors.
 */
module OpsShown {
  import opened Schema
  import opened OpsTree

  /** The number that a decimal numeral names. */
  ghost function Read(s: string): int
  {
    if s == "" then 0 else 10 * Read(s[..|s| - 1]) + (s[|s| - 1] as int - '0' as int)
  }

  /** Items are numbered with decimal numerals. */
  lemma {:induction false} DigitsRead(n: nat)
    ensures Read(Digits(n)) == n
    ensures forall i :: 0 <= i < |Digits(n)| ==> '0' <= Digits(n)[i] <= '9'
    ensures n > 0 ==> Digits(n)[0] != '0'
  {
    DigitsNonEmpty(n);
    var s := Digits(n);
    if n < 10 {
      assert s[..|s| - 1] == "";
    } else {
      DigitsRead(n / 10);
      assert s[..|s| - 1] == Digits(n / 10);
      assert s[|s| - 1] == DigitChar(n % 10);
    }
  }

  /** The node shows the value: the text of a leaf; the items of an array in order,
      numbered from 0; the fields of an object in key order, each under its key. */
  ghost predicate Shows(n: Node, v: Json)
    decreases v
  {
    match v
    case Leaf(text) => n.value == text && n.children == [] && !n.isArray
    case Arr(items) =>
      && n.value == "" && n.isArray && |n.children| == |items|
      && forall i :: 0 <= i < |items| ==>
           && n.children[i].key == "[" + Digits(i) + "]" && n.children[i].path == n.path + "." + Digits(i)
           && Shows(n.children[i], items[i])
    case Obj(fields) =>
      && n.value == "" && !n.isArray && |n.children| == |fields|
      && (forall i, j :: 0 <= i < j < |n.children| ==> KeyCmp(n.children[i].key, n.children[j].key) <= 0)
      && forall f :: 0 <= f < |fields| ==>
           exists c :: 0 <= c < |n.children| && Named(n, n.children[c], fields[f].0) && Shows(n.children[c], fields[f].1)
  }

  ghost predicate Named(parent: Node, child: Node, key: string)
  {
    child.key == key && child.path == parent.path + "." + key
  }

  /** The guides beside a node: one column per ancestor below the root, with a line
      where that ancestor has later siblings, and the node's own corner or branch. */
  ghost predicate Drawn(n: Node, guides: seq<bool>, isLast: bool)
  {
    && n.depth == |guides| + 1
    && n.prefix == TreePrefix(guides, isLast)
    && forall c :: 0 <= c < |n.children| ==> Drawn(n.children[c], guides + [!isLast], c == |n.children| - 1)
  }

  lemma {:induction false} FieldAt(at: seq<string>, path: string, v: Json, fields: seq<(string, Json)>, depth: nat, guides: seq<bool>, k: nat)
    requires v.Obj? && forall i :: 0 <= i < |fields| ==> fields[i] in multiset(v.fields)
    requires k < |fields|
    ensures var c := BuildFields(at, path, v, fields, depth, guides);
            && |c| == |fields|
            && c[k] == BuildNode(at + [fields[k].0], path + "." + fields[k].0, fields[k].0, fields[k].1, depth, guides, k == |fields| - 1)
    decreases |fields|
  {
    assert forall i :: 0 <= i < |fields[1..]| ==> fields[1..][i] == fields[i + 1];
    if |fields| > 1 {
      FieldAt(at, path, v, fields[1..], depth, guides, if k == 0 then 0 else k - 1);
    }
  }

  lemma {:induction false} ItemAt(at: seq<string>, path: string, items: seq<Json>, i: nat, depth: nat, guides: seq<bool>, k: nat)
    requires k < |items|
    ensures |BuildItems(at, path, items, i, depth, guides)| == |items|
    ensures var seg := Digits(i + k);
            BuildItems(at, path, items, i, depth, guides)[k] == BuildNode(at + [seg], path + "." + seg, "[" + seg + "]", items[k], depth, guides, k == |items| - 1)
    decreases |items|
  {
    ItemCount(at, path, items, i, depth, guides);
    if k > 0 {
      ItemAt(at, path, items[1..], i + 1, depth, guides, k - 1);
      assert items[1..][k - 1] == items[k] && i + 1 + (k - 1) == i + k;
    }
  }

  lemma {:induction false} ItemCount(at: seq<string>, path: string, items: seq<Json>, i: nat, depth: nat, guides: seq<bool>)
    ensures |BuildItems(at, path, items, i, depth, guides)| == |items|
    decreases |items|
  {
    if items != [] {
      ItemCount(at, path, items[1..], i + 1, depth, guides);
    }
  }

  /** A built node shows its value, and so do all nodes below it. */
  lemma {:induction false} NodeShows(at: seq<string>, path: string, key: string, v: Json, guides: seq<bool>, isLast: bool)
    ensures var n := BuildNode(at, path, key, v, |guides| + 1, guides, isLast);
            n.path == path && n.key == key && Shows(n, v) && Drawn(n, guides, isLast)
    decreases v, 3
  {
    match v {
      case Obj(fields) => FieldsShow(at, path, key, v, guides, isLast);
      case Arr(items) => ItemsShow(at, path, items, guides + [!isLast]);
      case Leaf(_) =>
    }
  }

  lemma {:induction false} ItemsShow(at: seq<string>, path: string, items: seq<Json>, guides: seq<bool>)
    ensures var c := BuildItems(at, path, items, 0, |guides| + 1, guides);
            && |c| == |items|
            && forall i :: 0 <= i < |items| ==>
                 && c[i].key == "[" + Digits(i) + "]" && c[i].path == path + "." + Digits(i)
                 && Shows(c[i], items[i]) && Drawn(c[i], guides, i == |items| - 1)
    decreases items, 0
  {
    var c := BuildItems(at, path, items, 0, |guides| + 1, guides);
    ItemCount(at, path, items, 0, |guides| + 1, guides);
    forall i | 0 <= i < |items|
      ensures c[i].key == "[" + Digits(i) + "]" && c[i].path == path + "." + Digits(i)
      ensures Shows(c[i], items[i]) && Drawn(c[i], guides, i == |items| - 1)
    {
      ItemAt(at, path, items, 0, |guides| + 1, guides, i);
      NodeShows(at + [Digits(i)], path + "." + Digits(i), "[" + Digits(i) + "]", items[i], guides, i == |items| - 1);
    }
  }

  /** The node of the k-th field in key order. */
  lemma {:induction false} FieldShows(at: seq<string>, path: string, v: Json, guides: seq<bool>, k: nat)
    requires v.Obj? && k < |v.fields|
    ensures |SortFields(v.fields)| == |v.fields|
    ensures var (sorted, c) := (SortFields(v.fields), FieldNodes(at, path, v, guides));
            && |c| == |sorted|
            && c[k].key == sorted[k].0 && c[k].path == path + "." + sorted[k].0
            && Shows(c[k], sorted[k].1) && Drawn(c[k], guides, k == |c| - 1)
    decreases v, 0
  {
    var sorted := SortFields(v.fields);
    assert |multiset(sorted)| == |sorted| && |multiset(v.fields)| == |v.fields|;
    assert sorted[k] in multiset(v.fields);
    assert sorted[k] in v.fields;
    FieldAt(at, path, v, sorted, |guides| + 1, guides, k);
    NodeShows(at + [sorted[k].0], path + "." + sorted[k].0, sorted[k].0, sorted[k].1, guides, k == |sorted| - 1);
  }

  ghost function FieldNodes(at: seq<string>, path: string, v: Json, guides: seq<bool>): seq<Node>
    requires v.Obj?
  {
    BuildFields(at, path, v, SortFields(v.fields), |guides| + 1, guides)
  }

  lemma {:induction false} FieldsShow(at: seq<string>, path: string, key: string, v: Json, guides: seq<bool>, isLast: bool)
    requires v.Obj?
    ensures var n := BuildNode(at, path, key, v, |guides| + 1, guides, isLast);
            Shows(n, v) && Drawn(n, guides, isLast)
    decreases v, 2
  {
    var n := BuildNode(at, path, key, v, |guides| + 1, guides, isLast);
    var sorted, below := SortFields(v.fields), guides + [!isLast];
    var c := FieldNodes(at, path, v, below);
    assert n.children == c;
    AllFieldsShow(at, path, v, below);
    assert forall k :: 0 <= k < |c| ==> Named(n, c[k], sorted[k].0);
    ObjectShown(n, v, sorted);
  }

  lemma {:induction false} AllFieldsShow(at: seq<string>, path: string, v: Json, guides: seq<bool>)
    requires v.Obj?
    ensures var (sorted, c) := (SortFields(v.fields), FieldNodes(at, path, v, guides));
            && |c| == |sorted| == |v.fields|
            && forall k :: 0 <= k < |c| ==>
                 && c[k].key == sorted[k].0 && c[k].path == path + "." + sorted[k].0
                 && Shows(c[k], sorted[k].1) && Drawn(c[k], guides, k == |c| - 1)
    decreases v, 1
  {
    var sorted, c := SortFields(v.fields), FieldNodes(at, path, v, guides);
    assert |multiset(sorted)| == |sorted| && |multiset(v.fields)| == |v.fields|;
    if sorted != [] {
      FieldShows(at, path, v, guides, 0);
    }
    forall k | 0 <= k < |c|
      ensures c[k].key == sorted[k].0 && c[k].path == path + "." + sorted[k].0
      ensures Shows(c[k], sorted[k].1) && Drawn(c[k], guides, k == |c| - 1)
    {
      FieldShows(at, path, v, guides, k);
    }
  }

  lemma ObjectShown(n: Node, v: Json, sorted: seq<(string, Json)>)
    requires v.Obj? && sorted == SortFields(v.fields) && |n.children| == |sorted|
    requires n.value == "" && !n.isArray
    requires forall k :: 0 <= k < |sorted| ==> Named(n, n.children[k], sorted[k].0) && Shows(n.children[k], sorted[k].1)
    ensures Shows(n, v)
  {
    assert |multiset(sorted)| == |sorted| && |multiset(v.fields)| == |v.fields|;
    FieldsSorted(v.fields);
    forall f | 0 <= f < |v.fields|
      ensures exists c :: 0 <= c < |n.children| && Named(n, n.children[c], v.fields[f].0) && Shows(n.children[c], v.fields[f].1)
    {
      assert v.fields[f] in multiset(sorted);
      var c :| 0 <= c < |sorted| && sorted[c] == v.fields[f];
      assert Named(n, n.children[c], v.fields[f].0);
    }
    forall i, j | 0 <= i < j < |n.children|
      ensures KeyCmp(n.children[i].key, n.children[j].key) <= 0
    {
      assert Named(n, n.children[i], sorted[i].0) && Named(n, n.children[j], sorted[j].0);
    }
  }

  /** The opened tree: a root "operations" that shows the list, a single object being
      a list of one; nothing for an unreadable text or an empty list. */
  lemma TreeShows(parsed: Option<Json>)
    ensures BuildTree(parsed) == [] <==> parsed.None? || parsed == Some(Arr([]))
    ensures BuildTree(parsed) != [] ==>
              var root := BuildTree(parsed)[0];
              && |BuildTree(parsed)| == 1
              && root.path == "operations" && root.key == "operations" && root.depth == 0 && root.prefix == ""
              && Shows(root, if parsed.value.Arr? then parsed.value else Arr([parsed.value]))
              && forall c :: 0 <= c < |root.children| ==> Drawn(root.children[c], [], c == |root.children| - 1)
  {
    if BuildTree(parsed) != [] {
      var items := if parsed.value.Arr? then parsed.value.items else [parsed.value];
      ItemsShow([ROOT], ROOT, items, []);
    }
  }
}
