/**
 Word wrapping of plain text (internal/app/view.go:1115-1148).

 `isSpace` stands for unicode.IsSpace and `width` for the visible width of a
 word. A line is as wide as its words plus one column for each gap.
 */
module WordWrap {

  // ----- the two library splits, and the joins that undo them -----

  function IndexOf(s: string, c: char): (k: nat)
    ensures k <= |s|
    ensures forall i :: 0 <= i < k ==> s[i] != c
    ensures k < |s| ==> s[k] == c
  {
    if s == "" || s[0] == c then 0 else 1 + IndexOf(s[1..], c)
  }

  /** strings.SplitSeq(s, "\n") */
  function Split(s: string): (lines: seq<string>)
    ensures |lines| > 0
    ensures forall line :: line in lines ==> '\n' !in line
    decreases |s|
  {
    var k := IndexOf(s, '\n');
    if k == |s| then [s] else [s[..k]] + Split(s[k + 1..])
  }

  function WordEnd(s: string, isSpace: char -> bool): (k: nat)
    ensures k <= |s|
    ensures forall i :: 0 <= i < k ==> !isSpace(s[i])
    ensures k < |s| ==> isSpace(s[k])
  {
    if s == "" || isSpace(s[0]) then 0 else 1 + WordEnd(s[1..], isSpace)
  }

  predicate IsWord(w: string, isSpace: char -> bool)
  {
    w != "" && forall i :: 0 <= i < |w| ==> !isSpace(w[i])
  }

  predicate AreWords(words: seq<string>, isSpace: char -> bool)
  {
    forall i :: 0 <= i < |words| ==> IsWord(words[i], isSpace)
  }

  /** strings.Fields(s) */
  function Fields(s: string, isSpace: char -> bool): (words: seq<string>)
    ensures AreWords(words, isSpace)
    decreases |s|
  {
    if s == "" then []
    else if isSpace(s[0]) then Fields(s[1..], isSpace)
    else
      var k := WordEnd(s, isSpace);
      [s[..k]] + Fields(s[k..], isSpace)
  }

  function Joined(parts: seq<string>, sep: string): string
  {
    if |parts| == 0 then ""
    else if |parts| == 1 then parts[0]
    else Joined(parts[..|parts| - 1], sep) + sep + parts[|parts| - 1]
  }

  function FieldsOfAll(lines: seq<string>, isSpace: char -> bool): seq<string>
  {
    if lines == [] then []
    else FieldsOfAll(lines[..|lines| - 1], isSpace) + Fields(lines[|lines| - 1], isSpace)
  }

  lemma {:induction false} JoinedConcat(a: seq<string>, b: seq<string>, sep: string)
    requires a != [] && b != []
    ensures Joined(a + b, sep) == Joined(a, sep) + sep + Joined(b, sep)
  {
    var n := |b| - 1;
    assert (a + b)[..|a + b| - 1] == a + b[..n];
    if n == 0 {
      assert a + b[..n] == a;
    } else {
      JoinedConcat(a, b[..n], sep);
    }
  }

  lemma {:induction false} FieldsOfAllConcat(a: seq<string>, b: seq<string>, isSpace: char -> bool)
    ensures FieldsOfAll(a + b, isSpace) == FieldsOfAll(a, isSpace) + FieldsOfAll(b, isSpace)
  {
    if b == [] {
      assert a + b == a;
    } else {
      var n := |b| - 1;
      assert (a + b)[..|a + b| - 1] == a + b[..n];
      FieldsOfAllConcat(a, b[..n], isSpace);
      var fa, fb := FieldsOfAll(a, isSpace), FieldsOfAll(b[..n], isSpace);
      var last := Fields(b[n], isSpace);
      assert (a + b)[|a + b| - 1] == b[n];
      assert (fa + fb) + last == fa + (fb + last);
    }
  }

  lemma {:induction false} SplitOfJoin(lines: seq<string>)
    requires lines != [] && forall line :: line in lines ==> '\n' !in line
    ensures Split(Joined(lines, "\n")) == lines
    decreases |lines|
  {
    var s := Joined(lines, "\n");
    if |lines| == 1 {
      assert s in lines;
      assert lines == [s];
    } else {
      var head, rest := lines[0], lines[1..];
      assert lines == [head] + rest;
      JoinedConcat([head], rest, "\n");
      assert s == head + "\n" + Joined(rest, "\n");
      assert head in lines;
      IndexAfter(head, '\n', Joined(rest, "\n"));
      assert s[..|head|] == head && s[|head| + 1..] == Joined(rest, "\n");
      forall line | line in rest ensures '\n' !in line {
        assert line in lines;
      }
      SplitOfJoin(rest);
    }
  }

  lemma IndexAfter(head: string, c: char, tail: string)
    requires c !in head
    ensures IndexOf(head + [c] + tail, c) == |head|
  {
    var s := head + [c] + tail;
    assert s[|head|] == c;
    assert forall i :: 0 <= i < |head| ==> s[i] == head[i] && head[i] in head;
  }

  lemma {:induction false} JoinOfSplit(s: string)
    ensures Joined(Split(s), "\n") == s
    decreases |s|
  {
    var k := IndexOf(s, '\n');
    if k < |s| {
      var head, rest := s[..k], Split(s[k + 1..]);
      JoinOfSplit(s[k + 1..]);
      JoinedConcat([head], rest, "\n");
      JoinedOne(head, "\n");
      AroundNewline(s, k);
    } else {
      JoinedOne(s, "\n");
    }
  }

  lemma JoinedOne(s: string, sep: string)
    ensures Joined([s], sep) == s
  {
  }

  lemma AroundNewline(s: string, k: nat)
    requires k < |s| && s[k] == '\n'
    ensures s == s[..k] + "\n" + s[k + 1..]
  {
  }

  /** White space separates words, whatever stands on either side of it. */
  lemma {:induction false} FieldsAroundSpace(a: string, c: char, b: string, isSpace: char -> bool)
    requires isSpace(c)
    ensures Fields(a + [c] + b, isSpace) == Fields(a, isSpace) + Fields(b, isSpace)
    decreases |a|
  {
    var s := a + [c] + b;
    if a == "" {
      assert s[1..] == b;
    } else if isSpace(a[0]) {
      assert s[1..] == a[1..] + [c] + b;
      FieldsAroundSpace(a[1..], c, b, isSpace);
    } else {
      var k := WordEnd(a, isSpace);
      WordEndsAtSpace(a, [c] + b, isSpace);
      assert s == a + ([c] + b);
      assert s[..k] == a[..k] && s[k..] == a[k..] + [c] + b;
      FieldsAroundSpace(a[k..], c, b, isSpace);
    }
  }

  lemma WordEndsAtSpace(a: string, rest: string, isSpace: char -> bool)
    requires rest != "" && isSpace(rest[0])
    ensures WordEnd(a + rest, isSpace) == WordEnd(a, isSpace)
  {
    var s := a + rest;
    assert s[|a|] == rest[0];
    assert forall i :: 0 <= i < |a| ==> s[i] == a[i];
  }

  lemma {:induction false} FieldsOfJoin(parts: seq<string>, c: char, isSpace: char -> bool)
    requires isSpace(c)
    ensures Fields(Joined(parts, [c]), isSpace) == FieldsOfAll(parts, isSpace)
  {
    if |parts| == 1 {
      assert FieldsOfAll(parts[..0], isSpace) == [];
    } else if |parts| > 1 {
      var n := |parts| - 1;
      FieldsOfJoin(parts[..n], c, isSpace);
      FieldsAroundSpace(Joined(parts[..n], [c]), c, parts[n], isSpace);
    }
  }

  lemma FieldsOfWord(w: string, isSpace: char -> bool)
    requires IsWord(w, isSpace)
    ensures Fields(w, isSpace) == [w]
  {
    var k := WordEnd(w, isSpace);
    assert k == |w|;
    assert w[..k] == w && w[k..] == "";
  }

  lemma {:induction false} FieldsOfWords(words: seq<string>, isSpace: char -> bool)
    requires AreWords(words, isSpace)
    ensures FieldsOfAll(words, isSpace) == words
  {
    if words != [] {
      var n := |words| - 1;
      FieldsOfWords(words[..n], isSpace);
      FieldsOfWord(words[n], isSpace);
    }
  }

  // ----- the lines of one paragraph -----

  function LineWidth(line: seq<string>, width: string -> nat): nat
  {
    if |line| == 0 then 0
    else if |line| == 1 then width(line[0])
    else LineWidth(line[..|line| - 1], width) + 1 + width(line[|line| - 1])
  }

  /** A line may be too wide only if it is one word. */
  predicate Fits(line: seq<string>, maxW: int, width: string -> nat)
  {
    |line| <= 1 || LineWidth(line, width) <= maxW
  }

  /** Words go on the last line while they fit. */
  function Greedy(words: seq<string>, maxW: int, width: string -> nat): (lines: seq<seq<string>>)
    ensures words == [] <==> lines == []
    ensures forall i :: 0 <= i < |lines| ==> lines[i] != []
  {
    if words == [] then []
    else
      var n := |words| - 1;
      var lines := Greedy(words[..n], maxW, width);
      if lines == [] then [[words[n]]]
      else
        var last := lines[|lines| - 1];
        if LineWidth(last, width) + 1 + width(words[n]) > maxW then lines + [[words[n]]]
        else lines[..|lines| - 1] + [last + [words[n]]]
  }

  function Flat(lines: seq<seq<string>>): seq<string>
  {
    if lines == [] then [] else Flat(lines[..|lines| - 1]) + lines[|lines| - 1]
  }

  lemma {:induction false} GreedyKeepsWords(words: seq<string>, maxW: int, width: string -> nat)
    ensures Flat(Greedy(words, maxW, width)) == words
  {
    if words != [] {
      var n := |words| - 1;
      var before, after := Greedy(words[..n], maxW, width), Greedy(words, maxW, width);
      GreedyKeepsWords(words[..n], maxW, width);
      assert words == words[..n] + [words[n]];
      if before == [] {
        assert after[..0] == [];
      } else if |after| > |before| {
        assert after[..|before|] == before;
      } else {
        assert after[..|after| - 1] == before[..|after| - 1];
      }
    }
  }

  lemma {:induction false} GreedyFits(words: seq<string>, maxW: int, width: string -> nat)
    ensures forall i :: 0 <= i < |Greedy(words, maxW, width)| ==> Fits(Greedy(words, maxW, width)[i], maxW, width)
  {
    if words != [] {
      var n := |words| - 1;
      var before := Greedy(words[..n], maxW, width);
      GreedyFits(words[..n], maxW, width);
      if before != [] {
        var last := before[|before| - 1];
        assert (last + [words[n]])[..|last|] == last;
      }
    }
  }

  /** A grouping of some words into lines that all fit. */
  ghost predicate Wraps(lines: seq<seq<string>>, words: seq<string>, maxW: int, width: string -> nat)
  {
    && Flat(lines) == words
    && forall i :: 0 <= i < |lines| ==> lines[i] != [] && Fits(lines[i], maxW, width)
  }

  /** A line that starts earlier and ends at the same word is no narrower. */
  lemma {:induction false} EarlierIsWider(words: seq<string>, a: nat, b: nat, width: string -> nat)
    requires a <= b < |words|
    ensures LineWidth(words[b..], width) <= LineWidth(words[a..], width)
  {
    var n := |words| - 1;
    if a < b {
      assert words[a..][..n - a] == words[..n][a..];
      if b < n {
        EarlierIsWider(words[..n], a, b, width);
        assert words[b..][..n - b] == words[..n][b..];
      }
    }
  }

  function WithoutLast(lines: seq<seq<string>>): seq<seq<string>>
    requires lines != [] && lines[|lines| - 1] != []
  {
    var k := |lines| - 1;
    if |lines[k]| == 1 then lines[..k] else lines[..k] + [lines[k][..|lines[k]| - 1]]
  }

  lemma WithoutLastWraps(lines: seq<seq<string>>, words: seq<string>, maxW: int, width: string -> nat)
    requires lines != [] && Wraps(lines, words, maxW, width)
    ensures words != [] && Wraps(WithoutLast(lines), words[..|words| - 1], maxW, width)
  {
    var k := |lines| - 1;
    var last := lines[k];
    assert words == Flat(lines[..k]) + last;
    if |last| > 1 {
      var shorter := lines[..k] + [last[..|last| - 1]];
      assert shorter[..|shorter| - 1] == lines[..k];
      assert words[..|words| - 1] == Flat(lines[..k]) + last[..|last| - 1];
    } else {
      assert words[..|words| - 1] == Flat(lines[..k]);
    }
  }

  lemma LastLineIsSuffix(lines: seq<seq<string>>, words: seq<string>)
    requires lines != [] && Flat(lines) == words
    ensures var m := |lines[|lines| - 1]|; m <= |words| && words[|words| - m..] == lines[|lines| - 1]
  {
  }

  /** Greedy filling stays ahead of every other wrapping of the same words: it
      has fewer lines, or as many and a last line that starts no earlier. */
  lemma {:induction false} GreedyStaysAhead(
    words: seq<string>, other: seq<seq<string>>, maxW: int, width: string -> nat)
    requires words != [] && Wraps(other, words, maxW, width)
    ensures var g := Greedy(words, maxW, width);
            |g| < |other| || (|g| == |other| && |g[|g| - 1]| <= |other[|other| - 1]|)
    decreases |words|
  {
    var n := |words| - 1;
    WithoutLastWraps(other, words, maxW, width);
    if n > 0 {
      var others := WithoutLast(other);
      var g := Greedy(words[..n], maxW, width);
      assert others != [];
      GreedyStaysAhead(words[..n], others, maxW, width);
      var breaks := LineWidth(g[|g| - 1], width) + 1 + width(words[n]) > maxW;
      if breaks && |others| == |other| == |g| {
        OtherMustBreak(words, g, other, maxW, width);
      }
    }
  }

  /** Where the greedy line is full, a line that starts no later is full as well. */
  lemma OtherMustBreak(
    words: seq<string>, g: seq<seq<string>>, other: seq<seq<string>>, maxW: int, width: string -> nat)
    requires |words| > 1 && Wraps(other, words, maxW, width)
    requires g == Greedy(words[..|words| - 1], maxW, width)
    requires LineWidth(g[|g| - 1], width) + 1 + width(words[|words| - 1]) > maxW
    ensures |other[|other| - 1]| <= |g[|g| - 1]|
  {
    var n := |words| - 1;
    var mine, theirs := g[|g| - 1], other[|other| - 1];
    GreedyKeepsWords(words[..n], maxW, width);
    LastLineIsSuffix(g, words[..n]);
    LastLineIsSuffix(other, words);
    if |theirs| > |mine| {
      var a, b := |words| - |theirs|, n - |mine|;
      assert words[b..] == mine + [words[n]];
      assert (mine + [words[n]])[..|mine|] == mine;
      EarlierIsWider(words, a, b, width);
      assert false;
    }
  }

  // ----- the whole text -----

  function Line(words: seq<string>): string
  {
    Joined(words, " ")
  }

  /** The finished lines of some groups of words. */
  function LinesOf(groups: seq<seq<string>>): (lines: seq<string>)
    ensures |lines| == |groups|
    ensures forall i :: 0 <= i < |lines| ==> lines[i] == Line(groups[i])
  {
    seq(|groups|, i requires 0 <= i < |groups| => Line(groups[i]))
  }

  /** A blank paragraph is one empty line. */
  function Paragraph(p: string, maxW: int, isSpace: char -> bool, width: string -> nat): (lines: seq<string>)
    ensures lines != []
  {
    var words := Fields(p, isSpace);
    if words == [] then [""] else LinesOf(Greedy(words, maxW, width))
  }

  /** The paragraphs that reach the output: blank ones before the first word are
      dropped, because a line break is only written after something else. */
  function Survivors(ps: seq<string>, isSpace: char -> bool): seq<string>
  {
    if ps == [] then []
    else if Fields(ps[0], isSpace) == [] then Survivors(ps[1..], isSpace)
    else ps
  }

  function AllLines(ps: seq<string>, maxW: int, isSpace: char -> bool, width: string -> nat): (lines: seq<string>)
    ensures lines == [] <==> ps == []
  {
    if ps == [] then []
    else AllLines(ps[..|ps| - 1], maxW, isSpace, width) + Paragraph(ps[|ps| - 1], maxW, isSpace, width)
  }

  /** The text of some paragraphs. */
  function Written(ps: seq<string>, maxW: int, isSpace: char -> bool, width: string -> nat): string
  {
    Joined(AllLines(Survivors(ps, isSpace), maxW, isSpace, width), "\n")
  }

  function Wrapped(text: string, maxW: int, isSpace: char -> bool, width: string -> nat): string
  {
    if maxW <= 0 || text == "" then text else Written(Split(text), maxW, isSpace, width)
  }

  lemma {:induction false} SurvivorsGrow(ps: seq<string>, p: string, isSpace: char -> bool)
    ensures Survivors(ps + [p], isSpace) ==
            if Survivors(ps, isSpace) != [] then Survivors(ps, isSpace) + [p]
            else if Fields(p, isSpace) == [] then []
            else [p]
  {
    if ps != [] {
      assert (ps + [p])[1..] == ps[1..] + [p];
      if Fields(ps[0], isSpace) == [] {
        SurvivorsGrow(ps[1..], p, isSpace);
      }
    } else {
      assert (ps + [p])[1..] == [];
    }
  }

  lemma {:induction false} LineNotEmpty(words: seq<string>, isSpace: char -> bool)
    requires words != [] && AreWords(words, isSpace)
    ensures Line(words) != ""
  {
    if |words| > 1 {
      LineNotEmpty(words[..|words| - 1], isSpace);
    }
  }

  lemma {:induction false} SomethingWritten(lines: seq<string>)
    requires lines != [] && lines[0] != ""
    ensures Joined(lines, "\n") != ""
  {
    if |lines| > 1 {
      SomethingWritten(lines[..|lines| - 1]);
    }
  }

  /** Words of a grouping are the words it came from. */
  lemma {:induction false} GroupsAreWords(groups: seq<seq<string>>, isSpace: char -> bool)
    requires AreWords(Flat(groups), isSpace)
    ensures forall i :: 0 <= i < |groups| ==> AreWords(groups[i], isSpace)
  {
    if groups != [] {
      var k := |groups| - 1;
      var init, last := Flat(groups[..k]), groups[k];
      assert forall i :: 0 <= i < |init| ==> (init + last)[i] == init[i];
      assert forall i :: 0 <= i < |last| ==> (init + last)[|init| + i] == last[i];
      GroupsAreWords(groups[..k], isSpace);
    }
  }

  lemma {:induction false} StartsWithText(ps: seq<string>, maxW: int, isSpace: char -> bool, width: string -> nat)
    requires ps != [] && Fields(ps[0], isSpace) != []
    ensures AllLines(ps, maxW, isSpace, width)[0] != ""
  {
    if |ps| == 1 {
      var words := Fields(ps[0], isSpace);
      var groups := Greedy(words, maxW, width);
      GreedyKeepsWords(words, maxW, width);
      GroupsAreWords(groups, isSpace);
      LineNotEmpty(groups[0], isSpace);
      assert AllLines(ps[..0], maxW, isSpace, width) == [];
    } else {
      StartsWithText(ps[..|ps| - 1], maxW, isSpace, width);
    }
  }

  lemma SurvivorsStart(ps: seq<string>, isSpace: char -> bool)
    ensures var kept := Survivors(ps, isSpace); kept == [] || Fields(kept[0], isSpace) != []
  {
  }

  lemma JoinedAppend(lines: seq<string>, x: string)
    requires lines != []
    ensures Joined(lines + [x], "\n") == Joined(lines, "\n") + ("\n" + x)
  {
    assert (lines + [x])[..|lines|] == lines;
    assert Joined(lines, "\n") + "\n" + x == Joined(lines, "\n") + ("\n" + x);
  }

  lemma JoinedExtend(lines: seq<string>, tail: string)
    requires lines != []
    ensures Joined(lines[..|lines| - 1] + [lines[|lines| - 1] + tail], "\n") == Joined(lines, "\n") + tail
  {
    var k := |lines| - 1;
    var longer := lines[..k] + [lines[k] + tail];
    assert longer[..k] == lines[..k];
    if k > 0 {
      var head := Joined(lines[..k], "\n") + "\n";
      assert head + (lines[k] + tail) == (head + lines[k]) + tail;
    }
  }

  /** The text of one paragraph's lines. */
  function TextOf(words: seq<string>, maxW: int, width: string -> nat): string
  {
    Joined(LinesOf(Greedy(words, maxW, width)), "\n")
  }

  function LastWidth(words: seq<string>, maxW: int, width: string -> nat): nat
    requires words != []
  {
    var g := Greedy(words, maxW, width);
    LineWidth(g[|g| - 1], width)
  }

  lemma FirstWord(w: string, maxW: int, width: string -> nat)
    ensures TextOf([w], maxW, width) == w && LastWidth([w], maxW, width) == width(w)
  {
    assert [w][..0] == [];
    assert Greedy([w], maxW, width) == [[w]];
  }

  /** Another word extends the text by a line break or a blank, then the word. */
  lemma NextWord(words: seq<string>, w: string, maxW: int, width: string -> nat)
    requires words != []
    ensures var breaks := LastWidth(words, maxW, width) + 1 + width(w) > maxW;
            && TextOf(words + [w], maxW, width) == TextOf(words, maxW, width) + ((if breaks then "\n" else " ") + w)
            && LastWidth(words + [w], maxW, width) ==
               (if breaks then width(w) else LastWidth(words, maxW, width) + 1 + width(w))
  {
    var g, h := Greedy(words, maxW, width), Greedy(words + [w], maxW, width);
    var last := g[|g| - 1];
    GreedyNext(words, w, maxW, width);
    if LineWidth(last, width) + 1 + width(w) > maxW {
      NewLineText(g, w);
      assert h == g + [[w]] && h[|h| - 1] == [w];
    } else {
      SameLineText(g, w);
      assert h == g[..|g| - 1] + [last + [w]] && h[|h| - 1] == last + [w];
      LineGrows(last, w, width);
    }
  }

  lemma GreedyNext(words: seq<string>, w: string, maxW: int, width: string -> nat)
    requires words != []
    ensures var g := Greedy(words, maxW, width);
            var last := g[|g| - 1];
            Greedy(words + [w], maxW, width) ==
            if LineWidth(last, width) + 1 + width(w) > maxW then g + [[w]] else g[..|g| - 1] + [last + [w]]
  {
    assert (words + [w])[..|words|] == words;
  }

  lemma LineGrows(line: seq<string>, w: string, width: string -> nat)
    requires line != []
    ensures LineWidth(line + [w], width) == LineWidth(line, width) + 1 + width(w)
  {
    assert (line + [w])[..|line|] == line;
  }

  lemma NewLineText(g: seq<seq<string>>, w: string)
    requires g != []
    ensures Joined(LinesOf(g + [[w]]), "\n") == Joined(LinesOf(g), "\n") + ("\n" + w)
  {
    assert LinesOf(g + [[w]]) == LinesOf(g) + [w];
    JoinedAppend(LinesOf(g), w);
  }

  lemma SameLineText(g: seq<seq<string>>, w: string)
    requires g != [] && g[|g| - 1] != []
    ensures Joined(LinesOf(g[..|g| - 1] + [g[|g| - 1] + [w]]), "\n") == Joined(LinesOf(g), "\n") + (" " + w)
  {
    var k := |g| - 1;
    var lines := LinesOf(g);
    assert (g[k] + [w])[..|g[k]|] == g[k];
    assert Line(g[k] + [w]) == Line(g[k]) + (" " + w);
    assert LinesOf(g[..k] + [g[k] + [w]]) == lines[..k] + [lines[k] + (" " + w)];
    JoinedExtend(lines, " " + w);
  }

  /** What one more paragraph adds to the text written so far. */
  lemma NextParagraph(ps: seq<string>, p: string, maxW: int, isSpace: char -> bool, width: string -> nat)
    ensures Written(ps + [p], maxW, isSpace, width) ==
            Break(Written(ps, maxW, isSpace, width)) + TextOf(Fields(p, isSpace), maxW, width)
  {
    if Survivors(ps, isSpace) != [] {
      NextAfterText(ps, p, maxW, isSpace, width);
    } else {
      NextAtStart(ps, p, maxW, isSpace, width);
    }
  }

  function Break(before: string): string
  {
    if |before| > 0 then before + "\n" else before
  }

  lemma NextAfterText(ps: seq<string>, p: string, maxW: int, isSpace: char -> bool, width: string -> nat)
    requires Survivors(ps, isSpace) != []
    ensures Written(ps + [p], maxW, isSpace, width) ==
            Break(Written(ps, maxW, isSpace, width)) + TextOf(Fields(p, isSpace), maxW, width)
  {
    var kept := Survivors(ps, isSpace);
    var lines, more := AllLines(kept, maxW, isSpace, width), Paragraph(p, maxW, isSpace, width);
    assert Survivors(ps + [p], isSpace) == kept + [p] by { SurvivorsGrow(ps, p, isSpace); }
    assert AllLines(kept + [p], maxW, isSpace, width) == lines + more by { OneMore(kept, p, maxW, isSpace, width); }
    assert Joined(lines + more, "\n") == Joined(lines, "\n") + "\n" + Joined(more, "\n") by {
      JoinedConcat(lines, more, "\n");
    }
    assert Joined(lines, "\n") != "" by {
      SurvivorsStart(ps, isSpace);
      StartsWithText(kept, maxW, isSpace, width);
      SomethingWritten(lines);
    }
    BlankText(p, maxW, isSpace, width);
  }

  lemma NextAtStart(ps: seq<string>, p: string, maxW: int, isSpace: char -> bool, width: string -> nat)
    requires Survivors(ps, isSpace) == []
    ensures Written(ps + [p], maxW, isSpace, width) ==
            Break(Written(ps, maxW, isSpace, width)) + TextOf(Fields(p, isSpace), maxW, width)
  {
    assert Written(ps, maxW, isSpace, width) == "";
    BlankText(p, maxW, isSpace, width);
    var kept := if Fields(p, isSpace) == [] then [] else [p];
    assert Survivors(ps + [p], isSpace) == kept by { SurvivorsGrow(ps, p, isSpace); }
    assert kept != [] ==> AllLines(kept, maxW, isSpace, width) == Paragraph(p, maxW, isSpace, width) by {
      OneParagraph(p, maxW, isSpace, width);
    }
  }

  lemma OneParagraph(p: string, maxW: int, isSpace: char -> bool, width: string -> nat)
    ensures AllLines([p], maxW, isSpace, width) == Paragraph(p, maxW, isSpace, width)
  {
    assert [p][..0] == [];
  }

  lemma OneMore(ps: seq<string>, p: string, maxW: int, isSpace: char -> bool, width: string -> nat)
    ensures AllLines(ps + [p], maxW, isSpace, width) ==
            AllLines(ps, maxW, isSpace, width) + Paragraph(p, maxW, isSpace, width)
  {
    assert (ps + [p])[..|ps|] == ps;
  }

  lemma BlankText(p: string, maxW: int, isSpace: char -> bool, width: string -> nat)
    ensures Joined(Paragraph(p, maxW, isSpace, width), "\n") == TextOf(Fields(p, isSpace), maxW, width)
    ensures Fields(p, isSpace) == [] ==> TextOf(Fields(p, isSpace), maxW, width) == ""
  {
  }

  lemma ParagraphStep(ps: seq<string>, j: nat, maxW: int, isSpace: char -> bool, width: string -> nat)
    requires j < |ps|
    ensures Written(ps[..j + 1], maxW, isSpace, width) ==
            Break(Written(ps[..j], maxW, isSpace, width)) + TextOf(Fields(ps[j], isSpace), maxW, width)
  {
    assert ps[..j + 1] == ps[..j] + [ps[j]];
    NextParagraph(ps[..j], ps[j], maxW, isSpace, width);
  }

  method WordWrap(text: string, maxW: int, isSpace: char -> bool, width: string -> nat) returns (result: string)
    ensures result == Wrapped(text, maxW, isSpace, width)
  {
    if maxW <= 0 || text == "" {
      return text;
    }
    result := "";
    var paragraphs := Split(text);
    var j := 0;
    assert paragraphs[..0] == [];
    while j < |paragraphs|
      invariant j <= |paragraphs|
      invariant result == Written(paragraphs[..j], maxW, isSpace, width)
    {
      ParagraphStep(paragraphs, j, maxW, isSpace, width);
      if |result| > 0 {
        result := result + "\n";
      }
      var words := Fields(paragraphs[j], isSpace);
      result := WriteParagraph(words, maxW, width, result);
      j := j + 1;
    }
    assert paragraphs[..j] == paragraphs;
  }

  lemma WordStep(words: seq<string>, i: nat, maxW: int, width: string -> nat, base: string)
    requires i < |words|
    ensures i == 0 ==>
              && base + TextOf(words[..i + 1], maxW, width) == base + words[i]
              && LastWidth(words[..i + 1], maxW, width) == width(words[i])
    ensures i > 0 ==>
              var breaks := LastWidth(words[..i], maxW, width) + 1 + width(words[i]) > maxW;
              && base + TextOf(words[..i + 1], maxW, width) ==
                 base + TextOf(words[..i], maxW, width) + ((if breaks then "\n" else " ") + words[i])
              && LastWidth(words[..i + 1], maxW, width) ==
                 (if breaks then width(words[i]) else LastWidth(words[..i], maxW, width) + 1 + width(words[i]))
  {
    var w := words[i];
    assert words[..i + 1] == words[..i] + [w];
    if i == 0 {
      assert words[..1] == [w];
      FirstWord(w, maxW, width);
    } else {
      NextWord(words[..i], w, maxW, width);
      var before := TextOf(words[..i], maxW, width);
      var sep := if LastWidth(words[..i], maxW, width) + 1 + width(w) > maxW then "\n" else " ";
      assert base + (before + (sep + w)) == (base + before) + (sep + w);
    }
  }

  /** The inner loop: the words of one paragraph, written after `base`. */
  method WriteParagraph(words: seq<string>, maxW: int, width: string -> nat, base: string) returns (result: string)
    ensures result == base + TextOf(words, maxW, width)
  {
    result := base;
    var lineW := 0;
    var i := 0;
    while i < |words|
      invariant i <= |words|
      invariant result == base + TextOf(words[..i], maxW, width)
      invariant i > 0 ==> lineW == LastWidth(words[..i], maxW, width)
    {
      var word := words[i];
      var ww := width(word);
      WordStep(words, i, maxW, width, base);
      if i == 0 {
        result := result + word;
        lineW := ww;
      } else if lineW + 1 + ww > maxW {
        result := result + ("\n" + word);
        lineW := ww;
      } else {
        result := result + (" " + word);
        lineW := lineW + 1 + ww;
      }
      i := i + 1;
    }
    assert words[..i] == words;
  }

  // ----- what a reader of the wrapped text can rely on -----

  /** The visible lines are exactly the lines of the surviving paragraphs. */
  lemma WrappedLines(text: string, maxW: int, isSpace: char -> bool, width: string -> nat)
    requires maxW > 0 && text != "" && isSpace('\n')
    ensures var kept := Survivors(Split(text), isSpace);
            Split(Wrapped(text, maxW, isSpace, width)) ==
            if kept == [] then [""] else AllLines(kept, maxW, isSpace, width)
  {
    var kept := Survivors(Split(text), isSpace);
    if kept != [] {
      var lines := AllLines(kept, maxW, isSpace, width);
      AllLinesUnbroken(kept, maxW, isSpace, width);
      forall line | line in lines ensures '\n' !in line {
        var i :| 0 <= i < |lines| && lines[i] == line;
      }
      SplitOfJoin(lines);
    } else {
      assert Split("") == [""];
    }
  }

  lemma {:induction false} AllLinesUnbroken(ps: seq<string>, maxW: int, isSpace: char -> bool, width: string -> nat)
    requires isSpace('\n')
    ensures forall i :: 0 <= i < |AllLines(ps, maxW, isSpace, width)| ==>
              '\n' !in AllLines(ps, maxW, isSpace, width)[i]
  {
    if ps != [] {
      AllLinesUnbroken(ps[..|ps| - 1], maxW, isSpace, width);
      ParagraphUnbroken(ps[|ps| - 1], maxW, isSpace, width);
    }
  }

  lemma ParagraphUnbroken(p: string, maxW: int, isSpace: char -> bool, width: string -> nat)
    requires isSpace('\n')
    ensures forall i :: 0 <= i < |Paragraph(p, maxW, isSpace, width)| ==>
              '\n' !in Paragraph(p, maxW, isSpace, width)[i]
  {
    var words := Fields(p, isSpace);
    var groups := Greedy(words, maxW, width);
    GreedyKeepsWords(words, maxW, width);
    GroupsAreWords(groups, isSpace);
    forall i | 0 <= i < |groups| ensures '\n' !in Line(groups[i]) {
      LineUnbroken(groups[i], isSpace);
    }
  }

  lemma {:induction false} LineUnbroken(words: seq<string>, isSpace: char -> bool)
    requires AreWords(words, isSpace) && isSpace('\n')
    ensures '\n' !in Line(words)
  {
    if |words| > 1 {
      LineUnbroken(words[..|words| - 1], isSpace);
    }
  }

  /** A line is read back as the words it was made of. */
  lemma FieldsOfLine(words: seq<string>, isSpace: char -> bool)
    requires AreWords(words, isSpace) && isSpace(' ')
    ensures Fields(Line(words), isSpace) == words
  {
    FieldsOfJoin(words, ' ', isSpace);
    FieldsOfWords(words, isSpace);
  }

  lemma {:induction false} FieldsOfLines(groups: seq<seq<string>>, isSpace: char -> bool)
    requires AreWords(Flat(groups), isSpace) && isSpace(' ')
    ensures FieldsOfAll(LinesOf(groups), isSpace) == Flat(groups)
  {
    if groups != [] {
      var k := |groups| - 1;
      GroupsAreWords(groups, isSpace);
      var init, last := Flat(groups[..k]), groups[k];
      assert forall i :: 0 <= i < |init| ==> (init + last)[i] == init[i];
      FieldsOfLines(groups[..k], isSpace);
      assert LinesOf(groups)[..k] == LinesOf(groups[..k]);
      FieldsOfLine(last, isSpace);
    }
  }

  lemma ParagraphKeepsWords(p: string, maxW: int, isSpace: char -> bool, width: string -> nat)
    requires isSpace(' ')
    ensures FieldsOfAll(Paragraph(p, maxW, isSpace, width), isSpace) == Fields(p, isSpace)
  {
    var words := Fields(p, isSpace);
    if words == [] {
      assert FieldsOfAll([""][..0], isSpace) == [];
    } else {
      GreedyKeepsWords(words, maxW, width);
      FieldsOfLines(Greedy(words, maxW, width), isSpace);
    }
  }

  lemma {:induction false} AllLinesKeepWords(ps: seq<string>, maxW: int, isSpace: char -> bool, width: string -> nat)
    requires isSpace(' ')
    ensures FieldsOfAll(AllLines(ps, maxW, isSpace, width), isSpace) == FieldsOfAll(ps, isSpace)
  {
    if ps != [] {
      var init, p := ps[..|ps| - 1], ps[|ps| - 1];
      AllLinesKeepWords(init, maxW, isSpace, width);
      ParagraphKeepsWords(p, maxW, isSpace, width);
      FieldsOfAllConcat(AllLines(init, maxW, isSpace, width), Paragraph(p, maxW, isSpace, width), isSpace);
    }
  }

  lemma {:induction false} SurvivorsKeepWords(ps: seq<string>, isSpace: char -> bool)
    ensures FieldsOfAll(Survivors(ps, isSpace), isSpace) == FieldsOfAll(ps, isSpace)
  {
    if ps != [] && Fields(ps[0], isSpace) == [] {
      SurvivorsKeepWords(ps[1..], isSpace);
      assert ps == ps[..1] + ps[1..];
      FieldsOfAllConcat(ps[..1], ps[1..], isSpace);
      assert FieldsOfAll(ps[..1][..0], isSpace) == [];
    }
  }

  /** Wrapping keeps every word of the text, in order. */
  lemma WrapKeepsWords(text: string, maxW: int, isSpace: char -> bool, width: string -> nat)
    requires isSpace(' ') && isSpace('\n')
    ensures Fields(Wrapped(text, maxW, isSpace, width), isSpace) == Fields(text, isSpace)
  {
    var ps := Split(text);
    var kept := Survivors(ps, isSpace);
    FieldsOfJoin(AllLines(kept, maxW, isSpace, width), '\n', isSpace);
    AllLinesKeepWords(kept, maxW, isSpace, width);
    SurvivorsKeepWords(ps, isSpace);
    JoinOfSplit(text);
    FieldsOfJoin(ps, '\n', isSpace);
  }

  /** Every visible line fits, or is a single word. */
  predicate LineFits(line: string, maxW: int, isSpace: char -> bool, width: string -> nat)
  {
    Fits(Fields(line, isSpace), maxW, width)
  }

  lemma WrapFits(text: string, maxW: int, isSpace: char -> bool, width: string -> nat)
    requires maxW > 0 && isSpace(' ') && isSpace('\n')
    ensures forall line :: line in Split(Wrapped(text, maxW, isSpace, width)) ==>
              LineFits(line, maxW, isSpace, width)
  {
    if text != "" {
      WrappedLines(text, maxW, isSpace, width);
      AllLinesFit(Survivors(Split(text), isSpace), maxW, isSpace, width);
    }
  }

  lemma {:induction false} AllLinesFit(ps: seq<string>, maxW: int, isSpace: char -> bool, width: string -> nat)
    requires isSpace(' ')
    ensures forall line :: line in AllLines(ps, maxW, isSpace, width) ==> LineFits(line, maxW, isSpace, width)
  {
    if ps != [] {
      var p := ps[|ps| - 1];
      AllLinesFit(ps[..|ps| - 1], maxW, isSpace, width);
      var words := Fields(p, isSpace);
      var groups := Greedy(words, maxW, width);
      GreedyFits(words, maxW, width);
      GreedyKeepsWords(words, maxW, width);
      GroupsAreWords(groups, isSpace);
      forall i | 0 <= i < |groups| ensures LineFits(LinesOf(groups)[i], maxW, isSpace, width) {
        FieldsOfLine(groups[i], isSpace);
      }
    }
  }

  /** No other text with the words of a paragraph, all of whose lines fit, has
      fewer lines than the paragraph's wrapping. */
  lemma FewestLines(p: string, other: string, maxW: int, isSpace: char -> bool, width: string -> nat)
    requires isSpace(' ') && isSpace('\n')
    requires Fields(other, isSpace) == Fields(p, isSpace)
    requires forall line :: line in Split(other) ==> LineFits(line, maxW, isSpace, width)
    ensures |Paragraph(p, maxW, isSpace, width)| <= |Split(other)|
  {
    var words := Fields(p, isSpace);
    if words != [] {
      var lines := Split(other);
      JoinOfSplit(other);
      FieldsOfJoin(lines, '\n', isSpace);
      NonBlankWraps(lines, maxW, isSpace, width);
      GreedyStaysAhead(words, NonBlank(lines, isSpace), maxW, width);
    }
  }

  /** The word groups of the lines that have words. */
  function NonBlank(lines: seq<string>, isSpace: char -> bool): seq<seq<string>>
  {
    if lines == [] then []
    else
      var words := Fields(lines[|lines| - 1], isSpace);
      NonBlank(lines[..|lines| - 1], isSpace) + if words == [] then [] else [words]
  }

  lemma {:induction false} NonBlankWraps(
    lines: seq<string>, maxW: int, isSpace: char -> bool, width: string -> nat)
    requires forall line :: line in lines ==> LineFits(line, maxW, isSpace, width)
    ensures Wraps(NonBlank(lines, isSpace), FieldsOfAll(lines, isSpace), maxW, width)
    ensures |NonBlank(lines, isSpace)| <= |lines|
  {
    if lines != [] {
      var k := |lines| - 1;
      NonBlankWraps(lines[..k], maxW, isSpace, width);
      assert lines[k] in lines;
      var groups, words := NonBlank(lines[..k], isSpace), Fields(lines[k], isSpace);
      if words != [] {
        assert (groups + [words])[..|groups|] == groups;
      } else {
        assert NonBlank(lines, isSpace) == groups;
        assert FieldsOfAll(lines, isSpace) == FieldsOfAll(lines[..k], isSpace);
      }
    }
  }
}
