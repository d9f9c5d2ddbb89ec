/**
 The JSON tree overlay: how a parsed value becomes a tree, which of its nodes are
 visible under a set of expanded paths, and what the keys do to the cursor.
 */
module OpsTree {
  import opened Schema
  import S = Sort

  // ----- paths -----

  /** Key paths joined with dots. */
  function Join(at: seq<string>): string
    requires at != []
  {
    if |at| == 1 then at[0] else Join(at[..|at| - 1]) + "." + at[|at| - 1]
  }

  function LastDot(p: string): (i: int)
    ensures -1 <= i < |p|
    ensures i >= 0 ==> p[i] == '.'
    ensures forall j :: i < j < |p| ==> p[j] != '.'
  {
    if p == [] then -1 else if p[|p| - 1] == '.' then |p| - 1 else LastDot(p[..|p| - 1])
  }

  /** `parentPath`: the path without its last segment. */
  function ParentPath(p: string): string
  {
    var i := LastDot(p);
    if i < 0 then "" else p[..i]
  }

  /** It undoes the appending of a segment exactly when the segment has no dot. */
  lemma {:induction false} ParentOfChild(p: string, k: string)
    ensures ParentPath(p + "." + k) == p <==> '.' !in k
  {
    var path := p + "." + k;
    var i := LastDot(path);
    assert path[|p|] == '.';
    assert forall j :: |p| < j < |path| ==> path[j] == k[j - |p| - 1];
    if '.' !in k {
      assert i == |p|;
    } else {
      var m :| 0 <= m < |k| && k[m] == '.';
      assert path[|p| + 1 + m] == '.';
      assert i > |p|;
    }
  }

  ghost predicate DotFree(at: seq<string>)
  {
    forall i :: 0 <= i < |at| ==> '.' !in at[i]
  }

  /** With dot-free segments the path tells the segments. */
  lemma {:induction false} JoinInjective(a: seq<string>, b: seq<string>)
    requires a != [] && b != [] && DotFree(a) && DotFree(b)
    requires Join(a) == Join(b)
    ensures a == b
    decreases |a|
  {
    if |a| > 1 && |b| > 1 {
      var a', b' := a[..|a| - 1], b[..|b| - 1];
      ParentOfChild(Join(a'), a[|a| - 1]);
      ParentOfChild(Join(b'), b[|b| - 1]);
      JoinInjective(a', b');
      assert Join(a)[|Join(a')| + 1..] == a[|a| - 1];
      assert Join(b)[|Join(b')| + 1..] == b[|b| - 1];
      assert a == a' + [a[|a| - 1]] && b == b' + [b[|b| - 1]];
    }
  }

  // ----- building the tree -----

  /** A parsed JSON value; the fields of an object are in no particular order. */
  datatype Json = Obj(fields: seq<(string, Json)>) | Arr(items: seq<Json>) | Leaf(text: string)

  /** A tree node. `at` lists the keys from the root down: it stands for the node's
      identity, which the path, being joined with dots, may not. */
  datatype Node = Node(
    at: seq<string>,
    path: string,
    key: string,
    value: string,
    children: seq<Node>,
    depth: nat,
    isArray: bool,
    prefix: string)

  predicate Expandable(n: Node)
  {
    |n.children| > 0
  }

  const PIPE := "\U{2502}  "
  const BLANK := "   "
  const CORNER := "\U{2514}\U{2500} "
  const BRANCH := "\U{251C}\U{2500} "

  /** `buildTreePrefix`. */
  function TreePrefix(guides: seq<bool>, isLast: bool): string
  {
    Guides(guides) + if isLast then CORNER else BRANCH
  }

  function Guides(guides: seq<bool>): string
  {
    if guides == [] then "" else Guides(guides[..|guides| - 1]) + if guides[|guides| - 1] then PIPE else BLANK
  }

  /** Every prefix is made of three-character columns: one per guide, a line where
      the ancestor has later siblings, and a last one for the node itself. */
  lemma PrefixColumns(guides: seq<bool>, isLast: bool)
    ensures |TreePrefix(guides, isLast)| == 3 * |guides| + 3
    ensures forall k :: 0 <= k < |guides| ==> TreePrefix(guides, isLast)[3 * k..3 * k + 3] == if guides[k] then PIPE else BLANK
    ensures TreePrefix(guides, isLast)[3 * |guides|..] == if isLast then CORNER else BRANCH
  {
    var g := Guides(guides);
    var all := TreePrefix(guides, isLast);
    GuidesLength(guides);
    forall k | 0 <= k < |guides|
      ensures all[3 * k..3 * k + 3] == if guides[k] then PIPE else BLANK
    {
      GuideColumn(guides, k);
      assert all[3 * k..3 * k + 3] == g[3 * k..3 * k + 3];
    }
  }

  lemma {:induction false} GuidesLength(guides: seq<bool>)
    ensures |Guides(guides)| == 3 * |guides|
  {
    if guides != [] {
      GuidesLength(guides[..|guides| - 1]);
    }
  }

  lemma {:induction false} GuideColumn(guides: seq<bool>, k: nat)
    requires k < |guides|
    ensures |Guides(guides)| == 3 * |guides|
    ensures Guides(guides)[3 * k..3 * k + 3] == if guides[k] then PIPE else BLANK
  {
    var n := |guides| - 1;
    var before := Guides(guides[..n]);
    GuidesLength(guides);
    GuidesLength(guides[..n]);
    if k < n {
      GuideColumn(guides[..n], k);
      assert Guides(guides)[3 * k..3 * k + 3] == before[3 * k..3 * k + 3];
    }
  }

  function KeyPriority(key: string): int
  {
    if key == "action" then 0 else if key == "table" then 1 else 2
  }

  /** `opsKeyCmp`: "action" and "table" first, then alphabetically. */
  function KeyCmp(a: string, b: string): int
  {
    if KeyPriority(a) != KeyPriority(b) then S.CompareInts(KeyPriority(a), KeyPriority(b)) else S.CompareStrings(a, b)
  }

  function InsertField(f: (string, Json), sorted: seq<(string, Json)>): (r: seq<(string, Json)>)
    ensures multiset(r) == multiset{f} + multiset(sorted)
  {
    if sorted == [] then [f]
    else if KeyCmp(f.0, sorted[0].0) <= 0 then [f] + sorted
    else
      assert sorted == [sorted[0]] + sorted[1..];
      [sorted[0]] + InsertField(f, sorted[1..])
  }

  function SortFields(fields: seq<(string, Json)>): (r: seq<(string, Json)>)
    ensures multiset(r) == multiset(fields)
  {
    if fields == [] then [] else
      assert fields == [fields[0]] + fields[1..];
      InsertField(fields[0], SortFields(fields[1..]))
  }

  ghost predicate KeysInOrder(fields: seq<(string, Json)>)
  {
    forall i, j :: 0 <= i < j < |fields| ==> KeyCmp(fields[i].0, fields[j].0) <= 0
  }

  /** "action" comes before every other key and "table" before the rest. */
  lemma LeadingKeys(k: string)
    ensures k != "action" ==> KeyCmp("action", k) < 0
    ensures k != "action" && k != "table" ==> KeyCmp("table", k) < 0
  {
    if k == "table" {
      assert |"table"| != |"action"|;
    }
  }

  /** Keys other than these come in the order of the dictionary. */
  lemma OtherKeys(a: string, b: string)
    requires a != "action" && a != "table" && b != "action" && b != "table"
    ensures KeyCmp(a, b) < 0 <==> exists k: nat :: S.StandsBefore(a, b, k)
  {
    S.StringsLexicographic(a, b);
  }

  lemma {:induction false} KeyCmpOrder(a: string, b: string, c: string)
    ensures KeyCmp(a, b) == -KeyCmp(b, a)
    ensures KeyCmp(a, b) <= 0 && KeyCmp(b, c) <= 0 ==> KeyCmp(a, c) <= 0
  {
    S.StringsAntisymmetric(a, b);
    if S.CompareStrings(a, b) <= 0 && S.CompareStrings(b, c) <= 0 {
      S.StringsTransitive(a, b, c);
    }
  }

  lemma {:induction false} InsertKeepsOrder(f: (string, Json), sorted: seq<(string, Json)>)
    requires KeysInOrder(sorted)
    ensures KeysInOrder(InsertField(f, sorted))
  {
    if sorted != [] {
      var r := InsertField(f, sorted);
      if KeyCmp(f.0, sorted[0].0) <= 0 {
        forall j | 0 <= j < |sorted|
          ensures KeyCmp(f.0, sorted[j].0) <= 0
        {
          if j > 0 {
            KeyCmpOrder(f.0, sorted[0].0, sorted[j].0);
          }
        }
      } else {
        InsertKeepsOrder(f, sorted[1..]);
        KeyCmpOrder(f.0, sorted[0].0, f.0);
        var tail := InsertField(f, sorted[1..]);
        forall j | 0 <= j < |tail|
          ensures KeyCmp(sorted[0].0, tail[j].0) <= 0
        {
          assert tail[j] in multiset(tail);
          if tail[j] != f {
            assert tail[j] in sorted[1..];
            var k :| 0 <= k < |sorted[1..]| && sorted[1..][k] == tail[j];
            assert sorted[k + 1] == tail[j];
          }
        }
      }
    }
  }

  /** Object fields are shown in key order, none lost and none added. */
  lemma {:induction false} FieldsSorted(fields: seq<(string, Json)>)
    ensures KeysInOrder(SortFields(fields)) && multiset(SortFields(fields)) == multiset(fields)
  {
    if fields != [] {
      FieldsSorted(fields[1..]);
      InsertKeepsOrder(fields[0], SortFields(fields[1..]));
    }
  }

  function Digits(n: nat): string
  {
    if n < 10 then [DigitChar(n)] else Digits(n / 10) + [DigitChar(n % 10)]
  }

  function DigitChar(d: nat): char
    requires d < 10
  {
    "0123456789"[d]
  }

  lemma {:induction false} DigitsDotFree(n: nat)
    ensures '.' !in Digits(n)
  {
    if n >= 10 {
      DigitsDotFree(n / 10);
    }
  }

  lemma {:induction false} DigitsInjective(m: nat, n: nat)
    requires Digits(m) == Digits(n)
    ensures m == n
  {
    var a, b := Digits(m), Digits(n);
    DigitsNonEmpty(m);
    DigitsNonEmpty(n);
    assert a[|a| - 1] == DigitChar(m % 10) && b[|b| - 1] == DigitChar(n % 10);
    if m >= 10 && n >= 10 {
      assert a[..|a| - 1] == Digits(m / 10) && b[..|b| - 1] == Digits(n / 10);
      DigitsInjective(m / 10, n / 10);
    }
  }

  lemma DigitsNonEmpty(n: nat)
    ensures |Digits(n)| >= 1 && (n >= 10 ==> |Digits(n)| >= 2)
  {
    if n >= 10 {
      DigitsNonEmpty(n / 10);
    }
  }

  /** `buildNode`. */
  function BuildNode(at: seq<string>, path: string, key: string, v: Json, depth: nat, guides: seq<bool>, isLast: bool): Node
    decreases v, 1, 0
  {
    var childGuides := guides + [!isLast];
    var children :=
      match v
      case Obj(fields) => BuildFields(at, path, v, SortFields(fields), depth + 1, childGuides)
      case Arr(items) => BuildItems(at, path, items, 0, depth + 1, childGuides)
      case Leaf(_) => [];
    Node(at, path, key, if v.Leaf? then v.text else "", children, depth, v.Arr?, TreePrefix(guides, isLast))
  }

  /** The children of an object, one per field. */
  function BuildFields(at: seq<string>, path: string, v: Json, fields: seq<(string, Json)>, depth: nat, guides: seq<bool>): (c: seq<Node>)
    requires v.Obj? && forall i :: 0 <= i < |fields| ==> fields[i] in multiset(v.fields)
    decreases v, 0, |fields|
  {
    if fields == [] then [] else
      assert fields[0] in v.fields;
      assert forall i :: 0 <= i < |fields[1..]| ==> fields[1..][i] == fields[i + 1];
      [BuildNode(at + [fields[0].0], path + "." + fields[0].0, fields[0].0, fields[0].1, depth, guides, |fields| == 1)]
      + BuildFields(at, path, v, fields[1..], depth, guides)
  }

  /** The children of an array, one per element. */
  function BuildItems(at: seq<string>, path: string, items: seq<Json>, i: nat, depth: nat, guides: seq<bool>): (c: seq<Node>)
    decreases items, 0, 0
  {
    if items == [] then [] else
      [BuildNode(at + [Digits(i)], path + "." + Digits(i), "[" + Digits(i) + "]", items[0], depth, guides, |items| == 1)]
      + BuildItems(at, path, items[1..], i + 1, depth, guides)
  }

  /** `buildJSONTree`, from the parsed value: a single object is treated as a list
      of one, and an unreadable or empty list has no tree. */
  function BuildTree(parsed: Option<Json>): seq<Node>
  {
    if parsed.None? then [] else
      var items := if parsed.value.Arr? then parsed.value.items else [parsed.value];
      if items == [] then [] else
        [Node([ROOT], ROOT, ROOT, "", BuildItems([ROOT], ROOT, items, 0, 1, []), 0, true, "")]
  }

  const ROOT := "operations"

  // ----- well-grown trees -----

  /** Sibling nodes below the node at `base`: each extends it by one segment, and
      the segments differ. */
  ghost predicate Siblings(base: seq<string>, ns: seq<Node>)
  {
    && (forall i :: 0 <= i < |ns| ==> |ns[i].at| == |base| + 1 && ns[i].at[..|base|] == base)
    && (forall i, j :: 0 <= i < j < |ns| ==> ns[i].at != ns[j].at)
  }

  ghost predicate Grown(n: Node)
  {
    && n.at != [] && n.path == Join(n.at)
    && Siblings(n.at, n.children)
    && forall i :: 0 <= i < |n.children| ==> Grown(n.children[i])
  }

  ghost predicate AllGrown(ns: seq<Node>)
  {
    forall i :: 0 <= i < |ns| ==> Grown(ns[i])
  }

  /** Go maps have distinct keys. */
  ghost predicate DistinctFields(fields: seq<(string, Json)>)
  {
    forall i, j :: 0 <= i < j < |fields| ==> fields[i].0 != fields[j].0
  }

  ghost predicate Decoded(v: Json)
  {
    match v
    case Obj(fields) => DistinctFields(fields) && forall i :: 0 <= i < |fields| ==> Decoded(fields[i].1)
    case Arr(items) => forall i :: 0 <= i < |items| ==> Decoded(items[i])
    case Leaf(_) => true
  }

  lemma {:induction false} ChildAt(at: seq<string>, seg: string)
    requires at != []
    ensures Join(at + [seg]) == Join(at) + "." + seg
    ensures (at + [seg])[..|at|] == at
  {
    assert (at + [seg])[..|at|] == at;
  }

  lemma {:induction false} InsertDistinct(f: (string, Json), sorted: seq<(string, Json)>)
    requires DistinctFields(sorted) && forall i :: 0 <= i < |sorted| ==> sorted[i].0 != f.0
    ensures DistinctFields(InsertField(f, sorted))
  {
    if sorted != [] && KeyCmp(f.0, sorted[0].0) > 0 {
      var rest := sorted[1..];
      assert forall i :: 0 <= i < |rest| ==> rest[i] == sorted[i + 1];
      InsertDistinct(f, rest);
      var tail := InsertField(f, rest);
      forall j | 0 <= j < |tail|
        ensures tail[j].0 != sorted[0].0
      {
        InsertedFrom(f, rest, j);
      }
    }
  }

  lemma InsertedFrom(f: (string, Json), sorted: seq<(string, Json)>, j: nat)
    requires j < |InsertField(f, sorted)|
    ensures InsertField(f, sorted)[j] == f || InsertField(f, sorted)[j] in sorted
  {
    assert InsertField(f, sorted)[j] in multiset(InsertField(f, sorted));
  }

  lemma {:induction false} SortedDistinct(fields: seq<(string, Json)>)
    requires DistinctFields(fields)
    ensures DistinctFields(SortFields(fields))
  {
    if fields != [] {
      var rest := fields[1..];
      SortedDistinct(rest);
      var sorted := SortFields(rest);
      forall i | 0 <= i < |sorted|
        ensures sorted[i].0 != fields[0].0
      {
        assert sorted[i] in multiset(sorted);
        assert sorted[i] in rest;
        var k :| 0 <= k < |rest| && rest[k] == sorted[i];
        assert fields[k + 1] == sorted[i];
      }
      InsertDistinct(fields[0], sorted);
    }
  }

  /** Every node of a built tree knows its path, and siblings have different keys. */
  lemma {:induction false} BuiltIsGrown(at: seq<string>, path: string, key: string, v: Json, depth: nat, guides: seq<bool>, isLast: bool)
    requires at != [] && path == Join(at) && Decoded(v)
    ensures Grown(BuildNode(at, path, key, v, depth, guides, isLast))
    decreases v, 1, 0
  {
    var childGuides := guides + [!isLast];
    match v {
      case Obj(fields) =>
        SortedDistinct(fields);
        forall i | 0 <= i < |SortFields(fields)|
          ensures Decoded(SortFields(fields)[i].1)
        {
          assert SortFields(fields)[i] in multiset(fields);
        }
        FieldsGrown(at, path, v, SortFields(fields), depth + 1, childGuides);
      case Arr(items) => ItemsGrown(at, path, items, 0, depth + 1, childGuides);
      case Leaf(_) =>
    }
  }

  lemma {:induction false} FieldsGrown(at: seq<string>, path: string, v: Json, fields: seq<(string, Json)>, depth: nat, guides: seq<bool>)
    requires v.Obj? && forall i :: 0 <= i < |fields| ==> fields[i] in multiset(v.fields)
    requires at != [] && path == Join(at) && DistinctFields(fields)
    requires forall i :: 0 <= i < |fields| ==> Decoded(fields[i].1)
    ensures var c := BuildFields(at, path, v, fields, depth, guides);
            AllGrown(c) && Siblings(at, c) && Placed(at, c, FieldKeys(fields))
    decreases v, 0, |fields|
  {
    if fields != [] {
      var rest, seg := fields[1..], fields[0].0;
      assert fields[0] in v.fields;
      assert forall i :: 0 <= i < |rest| ==> rest[i] == fields[i + 1];
      ChildAt(at, seg);
      BuiltIsGrown(at + [seg], path + "." + seg, seg, fields[0].1, depth, guides, |fields| == 1);
      FieldsGrown(at, path, v, rest, depth, guides);
      assert FieldKeys(fields)[1..] == FieldKeys(rest);
      var head := BuildNode(at + [seg], path + "." + seg, seg, fields[0].1, depth, guides, |fields| == 1);
      ConsGrown(at, head, BuildFields(at, path, v, rest, depth, guides), FieldKeys(fields));
    }
  }

  function FieldKeys(fields: seq<(string, Json)>): (segs: seq<string>)
    ensures |segs| == |fields| && forall i :: 0 <= i < |segs| ==> segs[i] == fields[i].0
  {
    seq(|fields|, i requires 0 <= i < |fields| => fields[i].0)
  }

  /** The nodes in c are the children of the node at `at` along `segs`. */
  ghost predicate Placed(at: seq<string>, c: seq<Node>, segs: seq<string>)
  {
    |c| == |segs| && forall i :: 0 <= i < |c| ==> c[i].at == at + [segs[i]]
  }

  lemma ConsGrown(at: seq<string>, head: Node, tail: seq<Node>, segs: seq<string>)
    requires segs != [] && Grown(head) && AllGrown(tail)
    requires head.at == at + [segs[0]] && Placed(at, tail, segs[1..])
    requires forall i, j :: 0 <= i < j < |segs| ==> segs[i] != segs[j]
    ensures var c := [head] + tail; AllGrown(c) && Siblings(at, c) && Placed(at, c, segs)
  {
    var c := [head] + tail;
    forall i | 0 <= i < |c|
      ensures Grown(c[i]) && c[i].at == at + [segs[i]]
    {
      if i > 0 {
        assert c[i] == tail[i - 1] && segs[i] == segs[1..][i - 1];
      }
    }
    SegmentsApart(at, c, segs);
  }

  lemma {:induction false} ItemsGrown(at: seq<string>, path: string, items: seq<Json>, i: nat, depth: nat, guides: seq<bool>)
    requires at != [] && path == Join(at)
    requires forall k :: 0 <= k < |items| ==> Decoded(items[k])
    ensures var c := BuildItems(at, path, items, i, depth, guides);
            AllGrown(c) && Siblings(at, c) && Placed(at, c, DigitRun(i, |items|))
    decreases items, 0, 0
  {
    if items != [] {
      var rest, seg := items[1..], Digits(i);
      ChildAt(at, seg);
      BuiltIsGrown(at + [seg], path + "." + seg, "[" + seg + "]", items[0], depth, guides, |items| == 1);
      ItemsGrown(at, path, rest, i + 1, depth, guides);
      DigitsApart(i, |items|);
      assert DigitRun(i, |items|)[1..] == DigitRun(i + 1, |rest|);
      var head := BuildNode(at + [seg], path + "." + seg, "[" + seg + "]", items[0], depth, guides, |items| == 1);
      ConsGrown(at, head, BuildItems(at, path, rest, i + 1, depth, guides), DigitRun(i, |items|));
    }
  }

  function DigitRun(i: nat, n: nat): (segs: seq<string>)
    ensures |segs| == n && forall k :: 0 <= k < n ==> segs[k] == Digits(i + k)
  {
    seq(n, k requires 0 <= k < n => Digits(i + k))
  }

  lemma DigitsApart(i: nat, n: nat)
    ensures forall j, k :: 0 <= j < k < n ==> DigitRun(i, n)[j] != DigitRun(i, n)[k]
  {
    var run := DigitRun(i, n);
    forall j, k | 0 <= j < k < n
      ensures run[j] != run[k]
    {
      DigitsDiffer(i + j, i + k);
    }
  }

  lemma DigitsDiffer(m: nat, n: nat)
    requires m != n
    ensures Digits(m) != Digits(n)
  {
    if Digits(m) == Digits(n) {
      DigitsInjective(m, n);
    }
  }

  lemma SegmentsApart(at: seq<string>, c: seq<Node>, segs: seq<string>)
    requires Placed(at, c, segs)
    requires forall i, j :: 0 <= i < j < |segs| ==> segs[i] != segs[j]
    ensures Siblings(at, c)
  {
    forall i, j | 0 <= i < j < |c|
      ensures c[i].at != c[j].at
    {
      assert c[i].at[|at|] == segs[i] && c[j].at[|at|] == segs[j];
    }
  }

  /** The tree that is opened is well grown. */
  lemma TreeIsGrown(parsed: Option<Json>)
    requires parsed.Some? ==> Decoded(parsed.value)
    ensures AllGrown(BuildTree(parsed)) && Siblings([], BuildTree(parsed)) && |BuildTree(parsed)| <= 1
  {
    if BuildTree(parsed) != [] {
      var items := if parsed.value.Arr? then parsed.value.items else [parsed.value];
      ItemsGrown([ROOT], ROOT, items, 0, 1, []);
    }
  }

  // ----- dot-free keys -----

  ghost predicate DotFreeKeys(v: Json)
  {
    match v
    case Obj(fields) => forall i :: 0 <= i < |fields| ==> '.' !in fields[i].0 && DotFreeKeys(fields[i].1)
    case Arr(items) => forall i :: 0 <= i < |items| ==> DotFreeKeys(items[i])
    case Leaf(_) => true
  }

  /** No segment of any node's key path contains a dot. */
  ghost predicate Clean(n: Node)
  {
    DotFree(n.at) && forall i :: 0 <= i < |n.children| ==> Clean(n.children[i])
  }

  ghost predicate AllClean(ns: seq<Node>)
  {
    forall i :: 0 <= i < |ns| ==> Clean(ns[i])
  }

  lemma {:induction false} BuiltIsClean(at: seq<string>, path: string, key: string, v: Json, depth: nat, guides: seq<bool>, isLast: bool)
    requires DotFree(at) && DotFreeKeys(v)
    ensures Clean(BuildNode(at, path, key, v, depth, guides, isLast))
    decreases v, 1, 0
  {
    var childGuides := guides + [!isLast];
    match v {
      case Obj(fields) =>
        forall i | 0 <= i < |SortFields(fields)|
          ensures '.' !in SortFields(fields)[i].0 && DotFreeKeys(SortFields(fields)[i].1)
        {
          assert SortFields(fields)[i] in multiset(fields);
        }
        FieldsClean(at, path, v, SortFields(fields), depth + 1, childGuides);
      case Arr(items) => ItemsClean(at, path, items, 0, depth + 1, childGuides);
      case Leaf(_) =>
    }
  }

  lemma {:induction false} FieldsClean(at: seq<string>, path: string, v: Json, fields: seq<(string, Json)>, depth: nat, guides: seq<bool>)
    requires v.Obj? && forall i :: 0 <= i < |fields| ==> fields[i] in multiset(v.fields)
    requires DotFree(at) && forall i :: 0 <= i < |fields| ==> '.' !in fields[i].0 && DotFreeKeys(fields[i].1)
    ensures AllClean(BuildFields(at, path, v, fields, depth, guides))
    decreases v, 0, |fields|
  {
    if fields != [] {
      assert fields[0] in v.fields;
      assert forall i :: 0 <= i < |fields[1..]| ==> fields[1..][i] == fields[i + 1];
      BuiltIsClean(at + [fields[0].0], path + "." + fields[0].0, fields[0].0, fields[0].1, depth, guides, |fields| == 1);
      FieldsClean(at, path, v, fields[1..], depth, guides);
    }
  }

  lemma {:induction false} ItemsClean(at: seq<string>, path: string, items: seq<Json>, i: nat, depth: nat, guides: seq<bool>)
    requires DotFree(at) && forall k :: 0 <= k < |items| ==> DotFreeKeys(items[k])
    ensures AllClean(BuildItems(at, path, items, i, depth, guides))
    decreases items, 0, 0
  {
    if items != [] {
      DigitsDotFree(i);
      BuiltIsClean(at + [Digits(i)], path + "." + Digits(i), "[" + Digits(i) + "]", items[0], depth, guides, |items| == 1);
      ItemsClean(at, path, items[1..], i + 1, depth, guides);
    }
  }

  lemma TreeIsClean(parsed: Option<Json>)
    requires parsed.Some? ==> DotFreeKeys(parsed.value)
    ensures AllClean(BuildTree(parsed))
  {
    if BuildTree(parsed) != [] {
      var items := if parsed.value.Arr? then parsed.value.items else [parsed.value];
      ItemsClean([ROOT], ROOT, items, 0, 1, []);
    }
  }
}
