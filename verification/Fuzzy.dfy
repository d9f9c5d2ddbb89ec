/**
 Fuzzy matching: a greedy subsequence search with a score, the in-place ranking of
 scored matches, and the splitting of a title into highlighted runs.
 */
module Fuzzy {
  import opened Schema

  // ----- matching -----

  /** `pos` places the characters of `q`, in order, in `t`. */
  ghost predicate Embeds(q: string, t: string, pos: seq<nat>)
  {
    && |pos| == |q|
    && (forall i :: 0 <= i < |pos| ==> pos[i] < |t| && t[pos[i]] == q[i])
    && forall i, j :: 0 <= i < j < |pos| ==> pos[i] < pos[j]
  }

  ghost predicate Subsequence(q: string, t: string)
  {
    exists pos :: Embeds(q, t, pos)
  }

  /** Points for placing query character `i` at `at`, the one before it at `prev`. */
  function Points(t: string, isLetter: char -> bool, i: nat, at: nat, prev: int): nat
    requires at < |t|
  {
    10 + (if prev == at - 1 then 15 else 0) + (if at == 0 || !isLetter(t[at - 1]) then 20 else 0) + if at == i then 25 else 0
  }

  function Previous(pos: seq<nat>, i: nat): int
    requires i <= |pos|
  {
    if i == 0 then -1 else pos[i - 1]
  }

  function PlacePoints(t: string, isLetter: char -> bool, pos: seq<nat>): nat
    requires forall i :: 0 <= i < |pos| ==> pos[i] < |t|
  {
    if pos == [] then 0 else
      var n := |pos| - 1;
      PlacePoints(t, isLetter, pos[..n]) + Points(t, isLetter, n, pos[n], Previous(pos, n))
  }

  /** Bonus for covering a larger part of the target. */
  function Share(n: nat, total: nat): nat
    requires total > 0
  {
    n * 10 / total
  }

  /** The score of placing a query of `|pos|` characters at `pos`. */
  function Score(t: string, isLetter: char -> bool, pos: seq<nat>): nat
    requires t != [] && forall i :: 0 <= i < |pos| ==> pos[i] < |t|
  {
    PlacePoints(t, isLetter, pos) + Share(|pos|, |t|)
  }

  /** A greedy search that has scanned `t[..ti]`: the positions found so far are at
      or left of those of any placing, and the next one cannot be before `ti`. */
  ghost predicate Leftmost(q: string, t: string, positions: seq<nat>, ti: nat)
  {
    && |positions| <= |q| && ti <= |t|
    && Embeds(q[..|positions|], t, positions)
    && (forall i :: 0 <= i < |positions| ==> positions[i] < ti)
    && forall pos :: Embeds(q, t, pos) ==> NotBefore(positions, pos) && (|positions| < |q| ==> ti <= pos[|positions|])
  }

  ghost predicate NotBefore(positions: seq<nat>, pos: seq<nat>)
  {
    |positions| <= |pos| && forall i :: 0 <= i < |positions| ==> positions[i] <= pos[i]
  }

  lemma LeftmostStart(q: string, t: string)
    ensures Leftmost(q, t, [], 0)
  {
  }

  lemma LeftmostTake(q: string, t: string, positions: seq<nat>, ti: nat)
    requires Leftmost(q, t, positions, ti) && |positions| < |q| && ti < |t| && t[ti] == q[|positions|]
    ensures Leftmost(q, t, positions + [ti], ti + 1)
  {
    var n := |positions|;
    assert q[..n + 1] == q[..n] + [q[n]];
    forall pos | Embeds(q, t, pos)
      ensures NotBefore(positions + [ti], pos) && (n + 1 < |q| ==> ti + 1 <= pos[n + 1])
    {
      assert NotBefore(positions, pos);
    }
  }

  lemma LeftmostSkip(q: string, t: string, positions: seq<nat>, ti: nat)
    requires Leftmost(q, t, positions, ti) && |positions| < |q| && ti < |t| && t[ti] != q[|positions|]
    ensures Leftmost(q, t, positions, ti + 1)
  {
  }

  lemma LeftmostDone(q: string, t: string, positions: seq<nat>, ti: nat)
    requires Leftmost(q, t, positions, ti) && (ti == |t| || |positions| == |q|)
    ensures |positions| == |q| <==> Subsequence(q, t)
    ensures |positions| == |q| ==> Embeds(q, t, positions) && forall pos :: Embeds(q, t, pos) ==> NotBefore(positions, pos)
  {
    if |positions| == |q| {
      assert q[..|q|] == q;
    } else {
      forall pos
        ensures !Embeds(q, t, pos)
      {
      }
    }
  }

  lemma PlaceStep(t: string, isLetter: char -> bool, pos: seq<nat>, at: nat)
    requires at < |t| && forall i :: 0 <= i < |pos| ==> pos[i] < |t|
    ensures PlacePoints(t, isLetter, pos + [at])
         == PlacePoints(t, isLetter, pos) + Points(t, isLetter, |pos|, at, Previous(pos, |pos|))
  {
    assert (pos + [at])[..|pos|] == pos;
  }

  /** The points of one more character. */
  method AddPoints(before: nat, t: string, isLetter: char -> bool, qi: nat, at: nat, prevMatchIdx: int) returns (score: nat)
    requires at < |t|
    ensures score == before + Points(t, isLetter, qi, at, prevMatchIdx)
  {
    score := before + 10;
    if prevMatchIdx == at - 1 {
      score := score + 15;
    }
    if at == 0 || !isLetter(t[at - 1]) {
      score := score + 20;
    }
    if at == qi {
      score := score + 25;
    }
  }

  /** The scanning loop of `fuzzyMatch`. */
  method Scan(q: string, t: string, isLetter: char -> bool) returns (score: nat, positions: seq<nat>, ghost ti: nat)
    ensures Leftmost(q, t, positions, ti) && (ti == |t| || |positions| == |q|)
    ensures score == PlacePoints(t, isLetter, positions)
  {
    positions := [];
    score := 0;
    var qi, prevMatchIdx := 0, -1;
    var at := 0;
    LeftmostStart(q, t);
    while at < |t| && qi < |q|
      invariant qi == |positions| && prevMatchIdx == Previous(positions, qi)
      invariant Leftmost(q, t, positions, at)
      invariant score == PlacePoints(t, isLetter, positions)
    {
      if t[at] == q[qi] {
        LeftmostTake(q, t, positions, at);
        PlaceStep(t, isLetter, positions, at);
        score := AddPoints(score, t, isLetter, qi, at, prevMatchIdx);
        positions := positions + [at];
        prevMatchIdx := at;
        qi := qi + 1;
      } else {
        LeftmostSkip(q, t, positions, at);
      }
      at := at + 1;
    }
    ti := at;
  }

  /** What a match is: an empty query matches with score 1; otherwise the score is
      positive exactly when the query is a subsequence of the target, and then the
      positions spell the query, every other placing is pointwise at or right of
      them, and the score is that of the positions. */
  ghost predicate IsMatch(q: string, t: string, isLetter: char -> bool, score: nat, positions: seq<nat>)
  {
    && (q == [] ==> score == 1 && positions == [])
    && (score > 0 <==> Subsequence(q, t))
    && (score == 0 ==> positions == [])
    && (score > 0 && q != [] ==>
          && t != [] && Embeds(q, t, positions) && score == Score(t, isLetter, positions)
          && forall pos :: Embeds(q, t, pos) ==> NotBefore(positions, pos))
  }

  lemma NoRoom(q: string, t: string)
    requires |q| > |t|
    ensures !Subsequence(q, t)
  {
    if pos :| Embeds(q, t, pos) {
      EmbeddingIsShort(q, t, pos);
    }
  }

  lemma ScanIsMatch(q: string, t: string, isLetter: char -> bool, positions: seq<nat>, ti: nat)
    requires q != [] && t != []
    requires Leftmost(q, t, positions, ti) && (ti == |t| || |positions| == |q|)
    ensures |positions| < |q| ==> IsMatch(q, t, isLetter, 0, [])
    ensures |positions| == |q| ==> IsMatch(q, t, isLetter, Score(t, isLetter, positions), positions)
  {
    LeftmostDone(q, t, positions, ti);
    if |positions| == |q| {
      ScorePositive(t, isLetter, positions);
    }
  }

  lemma ScorePositive(t: string, isLetter: char -> bool, pos: seq<nat>)
    requires t != [] && pos != [] && forall i :: 0 <= i < |pos| ==> pos[i] < |t|
    ensures Score(t, isLetter, pos) > 0
  {
    PointsArePositive(t, isLetter, pos);
  }

  /** `fuzzyMatch`: case-insensitive, on the lower-cased query and target. */
  method FuzzyMatch(query: string, target: string, lower: string -> string, isLetter: char -> bool)
    returns (score: nat, positions: seq<nat>)
    ensures IsMatch(lower(query), lower(target), isLetter, score, positions)
  {
    var q, t := lower(query), lower(target);
    if |q| == 0 {
      assert Embeds(q, t, []);
      return 1, [];
    }
    if |q| > |t| {
      NoRoom(q, t);
      return 0, [];
    }
    ghost var ti;
    score, positions, ti := Scan(q, t, isLetter);
    ScanIsMatch(q, t, isLetter, positions, ti);
    if |positions| < |q| {
      return 0, [];
    }
    score := score + Share(|q|, |t|);
  }

  lemma {:induction false} EmbeddingIsShort(q: string, t: string, pos: seq<nat>)
    requires Embeds(q, t, pos)
    ensures |q| <= |t|
    ensures forall i :: 0 <= i < |pos| ==> i <= pos[i]
  {
    for k := 0 to |pos|
      invariant forall i :: 0 <= i < k ==> i <= pos[i]
    {
      if k > 0 {
        assert pos[k - 1] < pos[k];
      }
    }
    if |pos| > 0 {
      assert |pos| - 1 <= pos[|pos| - 1];
    }
  }

  lemma {:induction false} PointsArePositive(t: string, isLetter: char -> bool, pos: seq<nat>)
    requires forall i :: 0 <= i < |pos| ==> pos[i] < |t|
    ensures PlacePoints(t, isLetter, pos) >= 10 * |pos|
  {
    if pos != [] {
      PointsArePositive(t, isLetter, pos[..|pos| - 1]);
    }
  }

  /** A match is determined by the query and the target. */
  lemma MatchUnique(q: string, t: string, isLetter: char -> bool, s1: nat, p1: seq<nat>, s2: nat, p2: seq<nat>)
    requires IsMatch(q, t, isLetter, s1, p1) && IsMatch(q, t, isLetter, s2, p2)
    ensures s1 == s2 && p1 == p2
  {
    if q != [] && s1 > 0 {
      assert NotBefore(p1, p2) && NotBefore(p2, p1);
      assert p1 == p2;
    }
  }

  // ----- what the score counts -----

  /** The placed characters that follow their predecessor directly; the first one
      does if it is at the start of the target. */
  ghost function Following(pos: seq<nat>): set<nat>
  {
    set i: nat | i < |pos| && pos[i] == Previous(pos, i) + 1
  }

  /** The placed characters at the start of a word. */
  ghost function WordStarts(t: string, isLetter: char -> bool, pos: seq<nat>): set<nat>
  {
    set i: nat | i < |pos| && StartsWord(t, isLetter, pos[i])
  }

  ghost predicate StartsWord(t: string, isLetter: char -> bool, at: nat)
  {
    at == 0 || (at <= |t| && !isLetter(t[at - 1]))
  }

  /** The placed characters at their own place of the query. */
  ghost function InPlace(pos: seq<nat>): set<nat>
  {
    set i: nat | i < |pos| && pos[i] == i
  }

  lemma FollowingStep(pos: seq<nat>, at: nat)
    ensures |Following(pos + [at])| == |Following(pos)| + if at == Previous(pos, |pos|) + 1 then 1 else 0
  {
    var now := pos + [at];
    assert forall i :: 0 <= i <= |pos| ==> Previous(now, i) == Previous(pos, i);
    assert Following(now) == Following(pos) + if at == Previous(pos, |pos|) + 1 then {|pos|} else {};
  }

  lemma WordStartsStep(t: string, isLetter: char -> bool, pos: seq<nat>, at: nat)
    ensures |WordStarts(t, isLetter, pos + [at])|
         == |WordStarts(t, isLetter, pos)| + if StartsWord(t, isLetter, at) then 1 else 0
  {
    var now := pos + [at];
    assert forall i :: 0 <= i < |pos| ==> now[i] == pos[i];
    if StartsWord(t, isLetter, at) {
      assert WordStarts(t, isLetter, now) == WordStarts(t, isLetter, pos) + {|pos|};
    } else {
      assert WordStarts(t, isLetter, now) == WordStarts(t, isLetter, pos);
    }
  }

  lemma InPlaceStep(pos: seq<nat>, at: nat)
    ensures |InPlace(pos + [at])| == |InPlace(pos)| + if at == |pos| then 1 else 0
  {
    assert InPlace(pos + [at]) == InPlace(pos) + if at == |pos| then {|pos|} else {};
  }

  lemma {:induction false} PointsCount(t: string, isLetter: char -> bool, pos: seq<nat>)
    requires forall i :: 0 <= i < |pos| ==> pos[i] < |t|
    ensures PlacePoints(t, isLetter, pos)
         == 10 * |pos| + 15 * |Following(pos)| + 20 * |WordStarts(t, isLetter, pos)| + 25 * |InPlace(pos)|
  {
    if pos == [] {
      assert Following(pos) == {} && WordStarts(t, isLetter, pos) == {} && InPlace(pos) == {};
    } else {
      var before, at := pos[..|pos| - 1], pos[|pos| - 1];
      PointsCount(t, isLetter, before);
      assert pos == before + [at];
      PlaceStep(t, isLetter, before, at);
      FollowingStep(before, at);
      WordStartsStep(t, isLetter, before, at);
      InPlaceStep(before, at);
    }
  }

  /** The score: 10 for every character, 15 for every one that follows its
      predecessor directly, 20 for every start of a word, 25 for every one at its
      own place, and the tenths of the target that are covered, rounded down. */
  lemma ScoreCounts(t: string, isLetter: char -> bool, pos: seq<nat>)
    requires t != [] && forall i :: 0 <= i < |pos| ==> pos[i] < |t|
    ensures var counted := 10 * |pos| + 15 * |Following(pos)| + 20 * |WordStarts(t, isLetter, pos)| + 25 * |InPlace(pos)|;
            var share := Score(t, isLetter, pos) - counted;
            share * |t| <= 10 * |pos| < (share + 1) * |t|
  {
    PointsCount(t, isLetter, pos);
    Divided(10 * |pos|, |t|);
  }

  lemma Divided(n: nat, d: nat)
    requires d > 0
    ensures n / d * d <= n < (n / d + 1) * d
  {
    assert n == n / d * d + n % d;
  }

  // ----- ranking -----

  datatype Scored<T> = Scored(score: int, index: int, item: T)

  /** `fuzzyLessScored`: higher scores first, then lower indices. */
  predicate Less<T>(a: Scored<T>, b: Scored<T>)
  {
    if a.score != b.score then a.score > b.score else a.index < b.index
  }

  /** Best score first, and among equal scores the smaller index first. */
  ghost predicate Ranked<T>(s: seq<Scored<T>>)
  {
    forall i, j :: 0 <= i < j < |s| ==>
      s[i].score > s[j].score || (s[i].score == s[j].score && s[i].index <= s[j].index)
  }

  /** `sortFuzzyScored`: insertion sort, in place. */
  method SortFuzzyScored<T>(matches: array<Scored<T>>)
    modifies matches
    ensures Ranked(matches[..])
    ensures multiset(matches[..]) == multiset(old(matches[..]))
  {
    var i := 1;
    while i < matches.Length
      invariant 1 <= i && (i <= matches.Length || matches.Length == 0)
      invariant matches.Length > 0 ==> Ranked(matches[..i])
      invariant multiset(matches[..]) == multiset(old(matches[..]))
    {
      InsertScored(matches, i);
      i := i + 1;
    }
    if matches.Length > 0 {
      assert matches[..i] == matches[..];
    }
  }

  /** The inner loop: moves the elements before `i` that the key beats one to the right. */
  method ShiftWorse<T>(matches: array<Scored<T>>, i: nat, key: Scored<T>) returns (j: nat)
    requires i < matches.Length
    modifies matches
    ensures j <= i && (j > 0 ==> !Less(key, old(matches[j - 1])))
    ensures forall k :: j <= k < i ==> Less(key, old(matches[k]))
    ensures forall k :: 0 <= k < j ==> matches[k] == old(matches[k])
    ensures forall k :: j < k <= i ==> matches[k] == old(matches[k - 1])
    ensures forall k :: i < k < matches.Length ==> matches[k] == old(matches[k])
  {
    j := i;
    while j > 0
      invariant 0 <= j <= i
      invariant forall k :: 0 <= k <= j && k < i ==> matches[k] == old(matches[k])
      invariant forall k :: j < k <= i ==> matches[k] == old(matches[k - 1])
      invariant forall k :: i < k < matches.Length ==> matches[k] == old(matches[k])
      invariant forall k :: j <= k < i ==> Less(key, old(matches[k]))
    {
      if !Less(key, matches[j - 1]) {
        break;
      }
      matches[j] := matches[j - 1];
      j := j - 1;
    }
  }

  /** Moves the element at `i` left to its place among the ranked ones before it. */
  method InsertScored<T>(matches: array<Scored<T>>, i: nat)
    requires 0 < i < matches.Length && Ranked(matches[..i])
    modifies matches
    ensures Ranked(matches[..i + 1])
    ensures multiset(matches[..]) == multiset(old(matches[..]))
  {
    ghost var was := matches[..];
    var key := matches[i];
    var j := ShiftWorse(matches, i, key);
    matches[j] := key;
    InsertedRanked(was[..i], j, key);
    assert matches[..i + 1] == was[..i][..j] + [key] + was[..i][j..];
    assert matches[..] == was[..j] + [key] + was[j..i] + was[i + 1..];
    InsertedMultiset(was, i, j, matches[..]);
  }

  lemma InsertedMultiset<T>(was: seq<T>, i: nat, j: nat, now: seq<T>)
    requires j <= i < |was| && now == was[..j] + [was[i]] + was[j..i] + was[i + 1..]
    ensures multiset(now) == multiset(was)
  {
    assert was == was[..j] + was[j..i] + [was[i]] + was[i + 1..];
  }

  lemma InsertedRanked<T>(s: seq<Scored<T>>, j: nat, key: Scored<T>)
    requires j <= |s| && Ranked(s)
    requires forall k :: j <= k < |s| ==> Less(key, s[k])
    requires j > 0 ==> !Less(key, s[j - 1])
    ensures Ranked(s[..j] + [key] + s[j..])
  {
    forall k | 0 <= k < j
      ensures !Less(key, s[k])
    {
      if k < j - 1 {
        assert !Less(s[j - 1], s[k]);
      }
    }
  }

  lemma HeadRemoved<T>(s: seq<T>)
    requires s != []
    ensures multiset(s[1..]) == multiset(s) - multiset{s[0]}
  {
    assert s == [s[0]] + s[1..];
  }

  /** The first of a ranking comes before, or is, every other element. */
  lemma FirstIsBest<T>(a: seq<Scored<T>>, x: Scored<T>)
    requires Ranked(a) && a != [] && x in multiset(a)
    ensures x == a[0] || !Less(x, a[0])
  {
    var i :| 0 <= i < |a| && a[i] == x;
  }

  lemma {:induction false} SameIndexSame<T>(a: seq<Scored<T>>, x: Scored<T>, y: Scored<T>)
    requires forall i, j :: 0 <= i < j < |a| ==> a[i].index != a[j].index
    requires x in multiset(a) && y in multiset(a) && x.index == y.index
    ensures x == y
  {
    var i :| 0 <= i < |a| && a[i] == x;
    var j :| 0 <= j < |a| && a[j] == y;
  }

  lemma FirstSame<T>(a: seq<Scored<T>>, b: seq<Scored<T>>)
    requires Ranked(a) && Ranked(b) && multiset(a) == multiset(b) && a != [] && b != []
    requires forall i, j :: 0 <= i < j < |a| ==> a[i].index != a[j].index
    ensures a[0] == b[0]
  {
    assert b[0] in multiset(b) && a[0] in multiset(a);
    FirstIsBest(a, b[0]);
    FirstIsBest(b, a[0]);
    assert a[0].score == b[0].score && a[0].index == b[0].index;
    SameIndexSame(a, a[0], b[0]);
  }

  lemma TailsMatch<T>(a: seq<T>, b: seq<T>)
    requires a != [] && b != [] && a[0] == b[0] && multiset(a) == multiset(b)
    ensures multiset(a[1..]) == multiset(b[1..])
  {
    HeadRemoved(a);
    HeadRemoved(b);
  }

  /** With distinct indices there is only one ranking of given matches. */
  lemma {:induction false} RankingUnique<T>(a: seq<Scored<T>>, b: seq<Scored<T>>)
    requires Ranked(a) && Ranked(b) && multiset(a) == multiset(b)
    requires forall i, j :: 0 <= i < j < |a| ==> a[i].index != a[j].index
    ensures a == b
    decreases |a|
  {
    assert |multiset(a)| == |a| && |multiset(b)| == |b|;
    if a != [] {
      FirstSame(a, b);
      TailsMatch(a, b);
      RankingUnique(a[1..], b[1..]);
      assert a == [a[0]] + a[1..] && b == [b[0]] + b[1..];
    }
  }

  // ----- highlighting -----

  datatype TextRun = TextRun(matched: bool, text: string)

  function Concat(runs: seq<TextRun>): string
  {
    if runs == [] then [] else Concat(runs[..|runs| - 1]) + runs[|runs| - 1].text
  }

  /** For every character of the runs, whether it is highlighted. */
  function Marks(runs: seq<TextRun>): seq<bool>
  {
    if runs == [] then [] else
      var last := runs[|runs| - 1];
      Marks(runs[..|runs| - 1]) + seq(|last.text|, _ => last.matched)
  }

  /** The runs are the text, highlighted exactly at the positions. */
  ghost predicate MarkedAt(runs: seq<TextRun>, text: string, positions: seq<nat>)
  {
    && Concat(runs) == text
    && |Marks(runs)| == |text| && forall i :: 0 <= i < |text| ==> (Marks(runs)[i] <==> i in positions)
  }

  ghost predicate Alternating(runs: seq<TextRun>)
  {
    && (forall i :: 0 <= i < |runs| ==> runs[i].text != [])
    && forall i :: 0 < i < |runs| ==> Switches(runs, i)
  }

  predicate Switches(runs: seq<TextRun>, i: nat)
    requires 0 < i < |runs|
  {
    runs[i].matched != runs[i - 1].matched
  }

  /** The runs so far and the open run cover `text[..i]` with the right marks. */
  ghost predicate Covers(text: string, positions: seq<nat>, i: nat, runs: seq<TextRun>, run: string, inMatch: bool)
  {
    && i <= |text|
    && Concat(runs) + run == text[..i]
    && |Marks(runs)| + |run| == i
    && (forall k :: 0 <= k < |Marks(runs)| ==> (Marks(runs)[k] <==> k in positions))
    && forall k :: |Marks(runs)| <= k < i ==> (inMatch <==> k in positions)
  }

  ghost predicate Proper(runs: seq<TextRun>, run: string, inMatch: bool)
  {
    && Alternating(runs)
    && (run == [] ==> runs == [] && !inMatch)
    && (runs != [] ==> runs[|runs| - 1].matched != inMatch)
  }

  lemma AppendRun(runs: seq<TextRun>, r: TextRun)
    ensures Concat(runs + [r]) == Concat(runs) + r.text
    ensures Marks(runs + [r]) == Marks(runs) + seq(|r.text|, _ => r.matched)
  {
    assert (runs + [r])[..|runs|] == runs;
  }

  lemma FlushCovers(text: string, positions: seq<nat>, i: nat, runs: seq<TextRun>, run: string, inMatch: bool, next: bool)
    requires Covers(text, positions, i, runs, run, inMatch)
    ensures Covers(text, positions, i, runs + [TextRun(inMatch, run)], "", next)
  {
    AppendRun(runs, TextRun(inMatch, run));
    var after := runs + [TextRun(inMatch, run)];
    assert Concat(after) + "" == Concat(after);
    forall k | 0 <= k < |Marks(after)|
      ensures Marks(after)[k] <==> k in positions
    {
    }
  }

  lemma ExtendCovers(text: string, positions: seq<nat>, i: nat, runs: seq<TextRun>, run: string, inMatch: bool)
    requires Covers(text, positions, i, runs, run, inMatch) && i < |text|
    requires inMatch <==> i in positions
    ensures Covers(text, positions, i + 1, runs, run + [text[i]], inMatch)
  {
    assert Concat(runs) + (run + [text[i]]) == (Concat(runs) + run) + [text[i]];
  }

  /** Where the loop stands after i characters. */
  ghost predicate Splitting(text: string, positions: seq<nat>, i: nat, runs: seq<TextRun>, run: string, inMatch: bool)
  {
    && Covers(text, positions, i, runs, run, inMatch)
    && if i == 0 then run == [] && runs == [] && !inMatch else run != [] && Proper(runs, run, inMatch)
  }

  lemma SplitStep(text: string, positions: seq<nat>, i: nat, runs: seq<TextRun>, run: string, inMatch: bool)
    requires i < |text| && Splitting(text, positions, i, runs, run, inMatch)
    ensures var matched := i in positions;
            if matched == inMatch then Splitting(text, positions, i + 1, runs, run + [text[i]], inMatch)
            else Splitting(text, positions, i + 1, Flushed(runs, run, inMatch), [text[i]], matched)
  {
    var matched := i in positions;
    if matched == inMatch {
      ExtendCovers(text, positions, i, runs, run, inMatch);
    } else if run == [] {
      ExtendCovers(text, positions, i, runs, run, matched);
      assert [] + [text[i]] == [text[i]];
    } else {
      SplitFlush(text, positions, i, runs, run, inMatch);
    }
  }

  lemma SplitFlush(text: string, positions: seq<nat>, i: nat, runs: seq<TextRun>, run: string, inMatch: bool)
    requires i < |text| && Splitting(text, positions, i, runs, run, inMatch)
    requires run != [] && inMatch != (i in positions)
    ensures Splitting(text, positions, i + 1, Flushed(runs, run, inMatch), [text[i]], i in positions)
  {
    var after := runs + [TextRun(inMatch, run)];
    FlushCovers(text, positions, i, runs, run, inMatch, !inMatch);
    ExtendCovers(text, positions, i, after, [], !inMatch);
    assert [] + [text[i]] == [text[i]];
    FlushAlternates(runs, run, inMatch);
  }

  lemma FlushAlternates(runs: seq<TextRun>, run: string, inMatch: bool)
    requires run != [] && Proper(runs, run, inMatch)
    ensures Alternating(runs + [TextRun(inMatch, run)])
  {
    var after := runs + [TextRun(inMatch, run)];
    forall i | 0 < i < |after|
      ensures Switches(after, i)
    {
      assert i < |runs| ==> Switches(runs, i);
    }
  }

  lemma SplitEnd(text: string, positions: seq<nat>, runs: seq<TextRun>, run: string, inMatch: bool)
    requires Splitting(text, positions, |text|, runs, run, inMatch)
    ensures var all := Flushed(runs, run, inMatch);
            MarkedAt(all, text, positions) && Alternating(all)
  {
    assert text[..|text|] == text;
    if run != [] {
      FlushCovers(text, positions, |text|, runs, run, inMatch, inMatch);
      FlushAlternates(runs, run, inMatch);
    }
    var all := Flushed(runs, run, inMatch);
    assert Concat(all) + "" == Concat(all);
  }

  /** `flush`: an open run is added, an empty one is not. */
  function Flushed(runs: seq<TextRun>, run: string, inMatch: bool): seq<TextRun>
  {
    if run == [] then runs else runs + [TextRun(inMatch, run)]
  }

  /** The run splitting of `highlightFuzzyPositions`: the runs are the text, a
      character is highlighted exactly when its position is listed, and no two
      neighbouring runs could be joined. */
  method HighlightRuns(text: string, positions: seq<nat>) returns (runs: seq<TextRun>)
    ensures MarkedAt(runs, text, positions)
    ensures positions == [] ==> runs == [TextRun(false, text)]
    ensures positions != [] ==> Alternating(runs)
  {
    if |positions| == 0 {
      runs := [TextRun(false, text)];
      assert runs[..0] == [];
      return;
    }
    runs := [];
    var inMatch, run := false, "";
    for i := 0 to |text|
      invariant Splitting(text, positions, i, runs, run, inMatch)
    {
      SplitStep(text, positions, i, runs, run, inMatch);
      var matched := i in positions;
      if matched != inMatch {
        runs := Flushed(runs, run, inMatch);
        run := "";
        inMatch := matched;
      }
      run := run + [text[i]];
    }
    SplitEnd(text, positions, runs, run, inMatch);
    runs := Flushed(runs, run, inMatch);
  }

  // ----- what the highlighting shows -----

  /** The highlighted characters of the runs. */
  function Highlighted(runs: seq<TextRun>): string
  {
    if runs == [] then "" else
      var last := runs[|runs| - 1];
      Highlighted(runs[..|runs| - 1]) + if last.matched then last.text else ""
  }

  /** The characters of `s` that are marked. */
  function Picked(s: string, marks: seq<bool>): string
    requires |marks| == |s|
  {
    if s == "" then "" else
      var n := |s| - 1;
      Picked(s[..n], marks[..n]) + if marks[n] then [s[n]] else ""
  }

  lemma {:induction false} PickedRun(s: string, marks: seq<bool>, t: string, matched: bool)
    requires |marks| == |s|
    ensures Picked(s + t, marks + seq(|t|, _ => matched)) == Picked(s, marks) + if matched then t else ""
  {
    var all, flags := s + t, marks + seq(|t|, _ => matched);
    if t == "" {
      assert all == s && flags == marks;
    } else {
      var n := |t| - 1;
      assert all[..|all| - 1] == s + t[..n];
      assert flags[..|all| - 1] == marks + seq(n, _ => matched);
      PickedRun(s, marks, t[..n], matched);
      assert t == t[..n] + [t[n]];
    }
  }

  lemma {:induction false} HighlightedIsPicked(runs: seq<TextRun>)
    ensures |Marks(runs)| == |Concat(runs)|
    ensures Highlighted(runs) == Picked(Concat(runs), Marks(runs))
  {
    if runs != [] {
      var n := |runs| - 1;
      HighlightedIsPicked(runs[..n]);
      PickedRun(Concat(runs[..n]), Marks(runs[..n]), runs[n].text, runs[n].matched);
    }
  }

  ghost predicate Ascending(pos: seq<nat>)
  {
    forall i, j :: 0 <= i < j < |pos| ==> pos[i] < pos[j]
  }

  /** The characters at the places `pos`, in that order. */
  function At(s: string, pos: seq<nat>): string
    requires forall i :: 0 <= i < |pos| ==> pos[i] < |s|
  {
    seq(|pos|, i requires 0 <= i < |pos| => s[pos[i]])
  }

  lemma LastPlace(pos: seq<nat>, n: nat)
    requires Ascending(pos) && n in pos && forall i :: 0 <= i < |pos| ==> pos[i] <= n
    ensures pos[|pos| - 1] == n && Ascending(pos[..|pos| - 1])
    ensures forall i :: i in pos[..|pos| - 1] <==> i in pos && i != n
    ensures forall i :: 0 <= i < |pos| - 1 ==> pos[i] < n
  {
    var last := |pos| - 1;
    var k :| 0 <= k < |pos| && pos[k] == n;
    assert forall i :: 0 <= i < last ==> pos[i] < pos[last];
    assert pos == pos[..last] + [n];
  }

  lemma {:induction false} PickedAt(s: string, marks: seq<bool>, pos: seq<nat>)
    requires |marks| == |s| && Ascending(pos) && forall i :: 0 <= i < |pos| ==> pos[i] < |s|
    requires forall i :: 0 <= i < |s| ==> (marks[i] <==> i in pos)
    ensures Picked(s, marks) == At(s, pos)
  {
    if s != "" {
      var n := |s| - 1;
      if marks[n] {
        var last := |pos| - 1;
        LastPlace(pos, n);
        PickedAt(s[..n], marks[..n], pos[..last]);
        assert At(s, pos) == At(s[..n], pos[..last]) + [s[n]];
      } else {
        assert forall i :: 0 <= i < |pos| ==> pos[i] in pos;
        PickedAt(s[..n], marks[..n], pos);
      }
    }
  }

  /** `lower` maps character by character. */
  ghost predicate CharWise(lower: string -> string, low: char -> char)
  {
    forall s :: lower(s) == Each(low, s)
  }

  function Each(low: char -> char, s: string): string
  {
    seq(|s|, i requires 0 <= i < |s| => low(s[i]))
  }

  /** The highlighted characters spell the query: matching and highlighting agree. */
  lemma HighlightSpellsQuery(query: string, target: string, lower: string -> string, low: char -> char, isLetter: char -> bool,
                             score: nat, positions: seq<nat>, runs: seq<TextRun>)
    requires CharWise(lower, low)
    requires IsMatch(lower(query), lower(target), isLetter, score, positions) && score > 0
    requires MarkedAt(runs, target, positions)
    ensures lower(Highlighted(runs)) == lower(query)
  {
    assert |lower(target)| == |target| && |lower(query)| == |query|;
    assert Embeds(lower(query), lower(target), positions);
    HighlightedIsPicked(runs);
    PickedAt(target, Marks(runs), positions);
    assert Each(low, At(target, positions)) == lower(query);
  }
}
