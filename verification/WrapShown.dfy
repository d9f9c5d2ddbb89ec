/**
 What stands in word-wrapped text: every paragraph in its place, its words in
 order and single-spaced, and no line broken too early or too late.
 */
module WrapShown {
  import opened WordWrap

  /** The line is the words with single spaces between them. */
  ghost predicate Spaced(line: string, words: seq<string>)
    decreases |words|
  {
    words != [] &&
    if |words| == 1 then line == words[0] else
      var n := |words| - 1;
      exists head :: Spaced(head, words[..n]) && line == head + " " + words[n]
  }

  lemma {:induction false} LineIsSpaced(words: seq<string>)
    requires words != []
    ensures Spaced(Line(words), words)
  {
    if |words| > 1 {
      LineIsSpaced(words[..|words| - 1]);
    }
  }

  /** For a width that adds up and gives a space one column, the loop's count is the
      width of the line. */
  lemma {:induction false} CountIsWidth(words: seq<string>, width: string -> nat)
    requires words != []
    requires width(" ") == 1 && forall a, b :: width(a + b) == width(a) + width(b)
    ensures LineWidth(words, width) == width(Line(words))
  {
    if |words| > 1 {
      var n := |words| - 1;
      CountIsWidth(words[..n], width);
      assert width(Line(words[..n]) + " ") == width(Line(words[..n])) + 1;
    }
  }

  /** Lines break only where the next word does not fit any more. */
  ghost predicate BreaksLate(groups: seq<seq<string>>, maxW: int, width: string -> nat)
  {
    forall i :: 0 <= i && i + 1 < |groups| ==> BreakNeeded(groups, i, maxW, width)
  }

  ghost predicate BreakNeeded(groups: seq<seq<string>>, i: nat, maxW: int, width: string -> nat)
    requires i + 1 < |groups|
  {
    groups[i + 1] != [] && LineWidth(groups[i], width) + 1 + width(groups[i + 1][0]) > maxW
  }

  lemma {:induction false} GreedyBreaksLate(words: seq<string>, maxW: int, width: string -> nat)
    ensures BreaksLate(Greedy(words, maxW, width), maxW, width)
  {
    if words != [] {
      var n := |words| - 1;
      GreedyBreaksLate(words[..n], maxW, width);
      var before, after := Greedy(words[..n], maxW, width), Greedy(words, maxW, width);
      forall i | 0 <= i && i + 1 < |after| ensures BreakNeeded(after, i, maxW, width) {
        if i + 1 < |before| {
          assert BreakNeeded(before, i, maxW, width);
          assert before[i + 1] != [];
        }
      }
    }
  }

  /** The lines of a paragraph: one empty line if it is blank; otherwise its words in
      order, each line single-spaced, fitting unless it is one word, and broken only
      where the next word does not fit. */
  ghost predicate ParagraphShown(part: seq<string>, words: seq<string>, maxW: int, width: string -> nat)
  {
    if words == [] then part == [""] else
      exists groups: seq<seq<string>> ::
        && Wraps(groups, words, maxW, width) && BreaksLate(groups, maxW, width)
        && AllSpaced(part, groups)
  }

  ghost predicate AllSpaced(part: seq<string>, groups: seq<seq<string>>)
  {
    |part| == |groups| && forall i :: 0 <= i < |part| ==> Spaced(part[i], groups[i])
  }

  lemma ParagraphIsShown(p: string, maxW: int, isSpace: char -> bool, width: string -> nat)
    ensures ParagraphShown(Paragraph(p, maxW, isSpace, width), Fields(p, isSpace), maxW, width)
  {
    var words := Fields(p, isSpace);
    if words != [] {
      var groups := Greedy(words, maxW, width);
      GreedyKeepsWords(words, maxW, width);
      GreedyFits(words, maxW, width);
      GreedyBreaksLate(words, maxW, width);
      forall i | 0 <= i < |groups| ensures Spaced(LinesOf(groups)[i], groups[i]) {
        LineIsSpaced(groups[i]);
      }
      assert AllSpaced(LinesOf(groups), groups);
      assert Wraps(groups, words, maxW, width);
    }
  }

  /** The lines are those of the paragraphs one after the other, the last from line
      `k` on. */
  ghost predicate InTurn(lines: seq<string>, ps: seq<string>, maxW: int, isSpace: char -> bool, width: string -> nat)
    decreases |ps|
  {
    if ps == [] then lines == [] else
      exists k :: 0 <= k <= |lines| && LastFrom(lines, ps, k, maxW, isSpace, width)
                  && InTurn(lines[..k], ps[..|ps| - 1], maxW, isSpace, width)
  }

  ghost predicate LastFrom(lines: seq<string>, ps: seq<string>, k: nat, maxW: int, isSpace: char -> bool, width: string -> nat)
    requires ps != [] && k <= |lines|
  {
    ParagraphShown(lines[k..], Fields(ps[|ps| - 1], isSpace), maxW, width)
  }

  lemma {:induction false} LinesInTurn(ps: seq<string>, maxW: int, isSpace: char -> bool, width: string -> nat)
    ensures InTurn(AllLines(ps, maxW, isSpace, width), ps, maxW, isSpace, width)
  {
    if ps != [] {
      var n := |ps| - 1;
      LinesInTurn(ps[..n], maxW, isSpace, width);
      var above, part := AllLines(ps[..n], maxW, isSpace, width), Paragraph(ps[n], maxW, isSpace, width);
      var lines := AllLines(ps, maxW, isSpace, width);
      assert lines[..|above|] == above && lines[|above|..] == part;
      ParagraphIsShown(ps[n], maxW, isSpace, width);
      assert LastFrom(lines, ps, |above|, maxW, isSpace, width);
    }
  }

  lemma {:induction false} SurvivorsFrom(ps: seq<string>, isSpace: char -> bool) returns (d: nat)
    ensures d <= |ps| && Survivors(ps, isSpace) == ps[d..]
    ensures forall i :: 0 <= i < d ==> Fields(ps[i], isSpace) == []
    ensures d < |ps| ==> Fields(ps[d], isSpace) != []
  {
    if ps == [] || Fields(ps[0], isSpace) != [] {
      d := 0;
    } else {
      var rest := SurvivorsFrom(ps[1..], isSpace);
      d := rest + 1;
      assert forall i :: 1 <= i < d ==> ps[i] == ps[1..][i - 1];
    }
  }

  /** The whole output: the `d` blank paragraphs at the beginning are gone, and below
      them every paragraph stands in its place; a text without words becomes empty. */
  lemma WrapShowsAll(text: string, maxW: int, isSpace: char -> bool, width: string -> nat) returns (d: nat)
    requires maxW > 0 && text != "" && isSpace('\n')
    ensures var ps := Split(text);
            && d <= |ps| && (forall i :: 0 <= i < d ==> Fields(ps[i], isSpace) == [])
            && (d < |ps| ==> Fields(ps[d], isSpace) != [])
            && if d == |ps| then Wrapped(text, maxW, isSpace, width) == ""
               else InTurn(Split(Wrapped(text, maxW, isSpace, width)), ps[d..], maxW, isSpace, width)
  {
    var ps := Split(text);
    d := SurvivorsFrom(ps, isSpace);
    LinesInTurn(ps[d..], maxW, isSpace, width);
    WrappedLines(text, maxW, isSpace, width);
  }
}
