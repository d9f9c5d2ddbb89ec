/** The fuzzy column finder: its ranked list and the jump to a column. */
module Finder {
  import opened Schema
  import opened Fuzzy
  import C = Columns
  import T = TableView
  import L = Layout

  datatype Entry = Entry(fullIndex: nat, title: string, hidden: bool)

  datatype Found = Found(entry: Entry, positions: seq<nat>)

  type Match = Scored<Found>

  /** Text functions of the matcher. */
  datatype Text = Text(lower: string -> string, isLetter: char -> bool)

  ghost predicate Hits(tx: Text, query: string, e: Entry)
  {
    Subsequence(tx.lower(query), tx.lower(e.title))
  }

  /** `m` is the scored match of the entry. */
  ghost predicate MatchOf(tx: Text, query: string, e: Entry, m: Match)
  {
    && m.item.entry == e && m.index == e.fullIndex && m.score > 0
    && IsMatch(tx.lower(query), tx.lower(e.title), tx.isLetter, m.score, m.item.positions)
  }

  /** `hits` holds, in order, the scored match of every entry the query hits. */
  ghost predicate ListsHits(tx: Text, query: string, all: seq<Entry>, hits: seq<Match>)
  {
    if all == [] then hits == [] else
      var n := |all| - 1;
      if Hits(tx, query, all[n]) then
        hits != [] && MatchOf(tx, query, all[n], hits[|hits| - 1]) && ListsHits(tx, query, all[..n], hits[..|hits| - 1])
      else
        ListsHits(tx, query, all[..n], hits)
  }

  lemma {:induction false} HitsAreListed(tx: Text, query: string, all: seq<Entry>, hits: seq<Match>)
    requires ListsHits(tx, query, all, hits)
    ensures forall m :: m in hits ==> exists e :: e in all && Hits(tx, query, e) && MatchOf(tx, query, e, m)
    ensures forall e :: e in all && Hits(tx, query, e) ==> exists m :: m in hits && MatchOf(tx, query, e, m)
  {
    if all != [] {
      var n := |all| - 1;
      if Hits(tx, query, all[n]) {
        var k := |hits| - 1;
        HitsAreListed(tx, query, all[..n], hits[..k]);
        assert hits == hits[..k] + [hits[k]];
        forall m | m in hits
          ensures exists e :: e in all && Hits(tx, query, e) && MatchOf(tx, query, e, m)
        {
          if m in hits[..k] {
            var e :| e in all[..n] && Hits(tx, query, e) && MatchOf(tx, query, e, m);
            assert e in all;
          } else {
            assert all[n] in all && MatchOf(tx, query, all[n], m);
          }
        }
      } else {
        HitsAreListed(tx, query, all[..n], hits);
      }
    }
  }

  /** The list the finder shows: with an empty query every column in table order,
      otherwise the hits, best first. */
  ghost predicate Shows(tx: Text, query: string, all: seq<Entry>, matches: seq<Match>)
  {
    if query == "" then
      |matches| == |all| && forall i :: 0 <= i < |all| ==> matches[i] == Scored(0, all[i].fullIndex, Found(all[i], []))
    else
      && Ranked(matches)
      && exists hits :: ListsHits(tx, query, all, hits) && multiset(matches) == multiset(hits)
  }

  ghost predicate DistinctColumns(all: seq<Entry>)
  {
    forall i, j :: 0 <= i < j < |all| ==> all[i].fullIndex != all[j].fullIndex
  }

  lemma {:induction false} HitsUnique(tx: Text, query: string, all: seq<Entry>, a: seq<Match>, b: seq<Match>)
    requires ListsHits(tx, query, all, a) && ListsHits(tx, query, all, b)
    ensures a == b
  {
    if all != [] {
      var e := all[|all| - 1];
      if Hits(tx, query, e) {
        var j, k := |a| - 1, |b| - 1;
        HitsUnique(tx, query, all[..|all| - 1], a[..j], b[..k]);
        MatchUnique(tx.lower(query), tx.lower(e.title), tx.isLetter, a[j].score, a[j].item.positions, b[k].score, b[k].item.positions);
        assert a == a[..j] + [a[j]] && b == b[..k] + [b[k]];
      } else {
        HitsUnique(tx, query, all[..|all| - 1], a, b);
      }
    }
  }

  lemma {:induction false} HitsDistinct(tx: Text, query: string, all: seq<Entry>, hits: seq<Match>)
    requires DistinctColumns(all) && ListsHits(tx, query, all, hits)
    ensures forall i, j :: 0 <= i < j < |hits| ==> hits[i].index != hits[j].index
  {
    if all != [] {
      var n := |all| - 1;
      if Hits(tx, query, all[n]) {
        var k := |hits| - 1;
        HitsDistinct(tx, query, all[..n], hits[..k]);
        HitsAreListed(tx, query, all[..n], hits[..k]);
        forall i | 0 <= i < k
          ensures hits[i].index != hits[k].index
        {
          assert hits[i] in hits[..k] by {
            assert hits[..k][i] == hits[i];
          }
        }
      } else {
        HitsDistinct(tx, query, all[..n], hits);
      }
    }
  }

  /** The list is determined by the query and the columns. */
  lemma {:induction false} ListUnique(tx: Text, query: string, all: seq<Entry>, a: seq<Match>, b: seq<Match>)
    requires DistinctColumns(all) && Shows(tx, query, all, a) && Shows(tx, query, all, b)
    ensures a == b
  {
    if query != "" {
      var ha :| ListsHits(tx, query, all, ha) && multiset(a) == multiset(ha);
      var hb :| ListsHits(tx, query, all, hb) && multiset(b) == multiset(hb);
      HitsUnique(tx, query, all, ha, hb);
      HitsDistinct(tx, query, all, ha);
      SameIndices(ha, a);
      RankingUnique(a, b);
    }
  }

  /** In every title of the list the highlighted characters spell the query. */
  lemma TitlesSpellQuery(tx: Text, low: char -> char, query: string, all: seq<Entry>, matches: seq<Match>, m: Match, runs: seq<TextRun>)
    requires CharWise(tx.lower, low)
    requires Shows(tx, query, all, matches) && m in matches
    requires MarkedAt(runs, m.item.entry.title, m.item.positions)
    ensures tx.lower(Highlighted(runs)) == tx.lower(query)
  {
    if query == "" {
      HighlightedIsPicked(runs);
      PickedAt(m.item.entry.title, Marks(runs), []);
    } else {
      var hits :| ListsHits(tx, query, all, hits) && multiset(matches) == multiset(hits);
      assert m in multiset(matches) && m in multiset(hits) && m in hits;
      HitsAreListed(tx, query, all, hits);
      var e :| e in all && Hits(tx, query, e) && MatchOf(tx, query, e, m);
      HighlightSpellsQuery(query, e.title, tx.lower, low, tx.isLetter, m.score, m.item.positions, runs);
    }
  }

  /** A rearrangement of matches with distinct indices has distinct indices. */
  lemma {:induction false} SameIndices(hits: seq<Match>, a: seq<Match>)
    requires forall i, j :: 0 <= i < j < |hits| ==> hits[i].index != hits[j].index
    requires multiset(a) == multiset(hits)
    ensures forall i, j :: 0 <= i < j < |a| ==> a[i].index != a[j].index
  {
    forall i, j | 0 <= i < j < |a|
      ensures a[i].index != a[j].index
    {
      assert a[i] in multiset(hits) && a[j] in multiset(hits);
      if a[i].index == a[j].index {
        SameIndexSame(hits, a[i], a[j]);
        TwiceIn(a, i, j);
        OnceIn(hits, a[i]);
      }
    }
  }

  lemma TwiceIn<T>(s: seq<T>, i: nat, j: nat)
    requires i < j < |s| && s[i] == s[j]
    ensures multiset(s)[s[i]] >= 2
  {
    assert s == s[..j] + [s[j]] + s[j + 1..];
    assert s[..j][i] == s[i];
    assert s[i] in multiset(s[..j]);
  }

  lemma {:induction false} OnceIn(hits: seq<Match>, m: Match)
    requires forall i, j :: 0 <= i < j < |hits| ==> hits[i].index != hits[j].index
    ensures multiset(hits)[m] <= 1
  {
    if hits != [] {
      assert hits == [hits[0]] + hits[1..];
      OnceIn(hits[1..], m);
      assert forall k :: 0 <= k < |hits[1..]| ==> hits[1..][k].index != hits[0].index;
    }
  }

  datatype FinderKey = Up | Down | Backspace | Clear | Type(text: string)

  class ColumnFinder {
    var Query: string
    var Matches: seq<Match>
    var Cursor: int
    var All: seq<Entry>

    /** `openColumnFinder`: every column of the tab, hidden ones included. */
    constructor (tx: Text, tab: Tab)
      ensures Query == "" && Valid(tx) && For(tab)
    {
      Query, Matches, Cursor := "", [], 0;
      All := seq(|tab.Specs|, i requires 0 <= i < |tab.Specs| reads tab =>
                 Entry(i, tab.Specs[i].title, tab.Specs[i].hideOrder > 0));
      new;
      Refilter(tx);
    }

    ghost predicate Valid(tx: Text)
      reads this
    {
      && Shows(tx, Query, All, Matches)
      && 0 <= Cursor && (Cursor < |Matches| || (Matches == [] && Cursor == 0))
    }

    /** The entries are the columns of the tab. */
    ghost predicate For(tab: Tab)
      reads this, tab
    {
      |All| == |tab.Specs| && forall i :: 0 <= i < |All| ==>
        All[i].fullIndex == i && All[i].title == tab.Specs[i].title && (All[i].hidden <==> tab.Specs[i].hideOrder > 0)
    }

    method ClampCursor()
      modifies this`Cursor
      ensures Cursor == if Matches == [] then 0 else if old(Cursor) >= |Matches| then |Matches| - 1 else Max(old(Cursor), 0)
    {
      if Cursor >= |Matches| {
        Cursor := |Matches| - 1;
      }
      if Cursor < 0 {
        Cursor := 0;
      }
    }

    /** `refilter`: recomputes the matches from the query. */
    method Refilter(tx: Text)
      modifies this`Matches, this`Cursor
      ensures Valid(tx)
      ensures Cursor == if Matches == [] then 0 else if old(Cursor) >= |Matches| then |Matches| - 1 else Max(old(Cursor), 0)
    {
      if Query == "" {
        Matches := seq(|All|, i requires 0 <= i < |All| reads this => Scored(0, All[i].fullIndex, Found(All[i], [])));
        ClampCursor();
        return;
      }
      var hits := CollectHits(tx);
      var ranked := Rank(hits);
      Matches := ranked;
      ClampCursor();
    }

    method CollectHits(tx: Text) returns (hits: seq<Match>)
      ensures ListsHits(tx, Query, All, hits)
    {
      hits := [];
      for i := 0 to |All|
        invariant ListsHits(tx, Query, All[..i], hits)
      {
        var entry := All[i];
        assert All[..i + 1][..i] == All[..i];
        var score, positions := FuzzyMatch(Query, entry.title, tx.lower, tx.isLetter);
        if score > 0 {
          ghost var before := hits;
          hits := hits + [Scored(score, entry.fullIndex, Found(entry, positions))];
          assert hits[..|hits| - 1] == before;
        }
      }
      assert All[..|All|] == All;
    }

    method Rank(hits: seq<Match>) returns (ranked: seq<Match>)
      ensures Ranked(ranked) && multiset(ranked) == multiset(hits)
    {
      var a := new Match[|hits|](i requires 0 <= i < |hits| => hits[i]);
      assert a[..] == hits;
      SortFuzzyScored(a);
      ranked := a[..];
    }

    /** `handleColumnFinderKey`, but for the keys that close the finder: whatever the key,
        the list stays that of the query, with the cursor on it. */
    method HandleKey(tx: Text, k: FinderKey)
      requires Valid(tx)
      modifies this`Query, this`Matches, this`Cursor
      ensures Valid(tx)
      ensures k.Type? ==> Query == old(Query) + k.text
      ensures k.Backspace? && old(Query) != "" ==> exists last :: old(Query) == Query + [last]
      ensures k.Clear? ==> Query == ""
      ensures k.Up? || k.Down? || (k.Backspace? && old(Query) == "") ==> Query == old(Query)
      ensures Query == old(Query) && !k.Clear? ==> Matches == old(Matches)
      ensures k.Up? ==> Cursor == Max(old(Cursor) - 1, 0)
      ensures k.Down? ==> Cursor == if old(Cursor) < |Matches| - 1 then old(Cursor) + 1 else old(Cursor)
    {
      match k {
        case Up =>
          if Cursor > 0 {
            Cursor := Cursor - 1;
          }
        case Down =>
          if Cursor < |Matches| - 1 {
            Cursor := Cursor + 1;
          }
        case Backspace =>
          if |Query| > 0 {
            Query := Query[..|Query| - 1];
            assert old(Query) == Query + [old(Query)[|Query|]];
            Refilter(tx);
          }
        case Clear =>
          Query := "";
          Refilter(tx);
        case Type(text) =>
          if text != "" {
            Query := Query + text;
            Refilter(tx);
          }
      }
    }

    /** `columnFinderJump`: the tab's cursor goes to the selected column, which is
        shown if it was hidden and whose title the query spells out. */
    method ColumnFinderJump(tx: Text, tab: Tab, m: L.Metrics, width: int, sepW: int)
      requires Valid(tx) && For(tab)
      modifies tab`Specs, tab`ColCursor, tab`ViewOffset
      ensures Matches == [] ==> T.ColsOf(tab) == old(T.ColsOf(tab))
      ensures Matches != [] ==>
                var col := Matches[Cursor].item.entry.fullIndex;
                && T.ColsOf(tab) == C.Step(old(T.ColsOf(tab)), C.Jump(col))
                && T.OnScreen(tab) && tab.ColCursor == col < |tab.Specs|
                && (Query != "" ==> Subsequence(tx.lower(Query), tx.lower(old(tab.Specs)[col].title)))
    {
      if |Matches| == 0 {
        return;
      }
      SelectedEntry(tx);
      T.JumpTo(tab, Matches[Cursor].item.entry.fullIndex, m, width, sepW);
    }

    /** The selected match belongs to one of the entries. */
    lemma SelectedEntry(tx: Text)
      requires Valid(tx) && Matches != []
      ensures exists i :: 0 <= i < |All| && Matches[Cursor].item.entry == All[i]
      ensures Query != "" ==> Hits(tx, Query, Matches[Cursor].item.entry)
    {
      if Query == "" {
        assert Matches[Cursor].item.entry == All[Cursor];
      } else {
        var hits :| ListsHits(tx, Query, All, hits) && multiset(Matches) == multiset(hits);
        HitsAreListed(tx, Query, All, hits);
        assert Matches[Cursor] in multiset(Matches);
        assert Matches[Cursor] in hits;
        var e :| e in All && Hits(tx, Query, e) && MatchOf(tx, Query, e, Matches[Cursor]);
      }
    }
  }
}
