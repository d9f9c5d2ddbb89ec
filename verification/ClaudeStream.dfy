/**
 The claude command-line client: its standard output is a stream of JSON
 objects, and a goroutine turns that stream into content chunks followed by
 one terminal chunk (internal/claudecli/client.go).

 A run is given by what the decoder returns, one item at a time, and by the
 facts the goroutine reads off its surroundings: when the caller's context was
 cancelled, which way a send raced with a cancellation, whether the command's
 own context has ended, and how the process ended.
 */
module ClaudeStream {
  /** One round of the decoding loop. `dec.More()` answers false where the list of items
      ends, and at a closing bracket that closes nothing. */
  datatype Item =
    | Unrelated                              // any event that is not a stream_event
    | BadEvent                               // a stream_event whose payload does not parse
    | Delta(kind: string, partial: string)   // a content_block_delta
    | BadDelta                               // a content_block_delta whose delta does not parse
    | MessageStop
    | OtherEvent                             // any other stream_event
    | Unreadable                             // the decoder fails, other than with io.EOF
    | PipeClosed                             // the decoder fails with io.EOF
    | StrayBracket                           // a `}` or `]` between the objects

  datatype Failure = Context | Malformed | Process | NoCompletion

  datatype Chunk = Content(text: string) | Done | Failed(why: Failure)

  /** `ctxDone` is the first item that finds the caller's context cancelled and
      `picksSend(k)` is the choice `select` makes at item k when both of its
      branches are open. */
  datatype Surroundings = Surroundings(ctxDone: nat, picksSend: nat -> bool, cmdCtxEnded: bool, processFailed: bool)

  predicate Terminal(c: Chunk)
  {
    !c.Content?
  }

  /** Items that end the decoding loop. */
  predicate Bad(item: Item)
  {
    item.BadEvent? || item.BadDelta? || item.Unreadable?
  }

  predicate Ends(item: Item)
  {
    item.MessageStop? || item.PipeClosed? || item.StrayBracket? || Bad(item)
  }

  /** Structured output with text in it; the model's prose is not forwarded. */
  predicate Carries(item: Item)
  {
    item.Delta? && item.kind == "input_json_delta" && item.partial != ""
  }

  predicate Sent(w: Surroundings, k: nat)
  {
    k < w.ctxDone || w.picksSend(k)
  }

  // ----- what the channel carries -----

  function EndOf(items: seq<Item>): (k: nat)
    ensures k <= |items|
    ensures forall j :: 0 <= j < k ==> !Ends(items[j])
    ensures k < |items| ==> Ends(items[k])
  {
    if items == [] || Ends(items[0]) then 0 else 1 + EndOf(items[1..])
  }

  function Contents(items: seq<Item>, w: Surroundings): seq<Chunk>
  {
    if items == [] then []
    else
      var k := |items| - 1;
      Contents(items[..k], w) + if Carries(items[k]) && Sent(w, k) then [Content(items[k].partial)] else []
  }

  function LastWord(items: seq<Item>, w: Surroundings): Chunk
  {
    var k := EndOf(items);
    if k < |items| && items[k].MessageStop? then Done
    else if k < |items| && Bad(items[k]) then Failed(Malformed)
    else if w.cmdCtxEnded then Failed(Context)
    else if w.processFailed then Failed(Process)
    else Failed(NoCompletion)
  }

  function Transcript(items: seq<Item>, w: Surroundings): seq<Chunk>
  {
    Contents(items[..EndOf(items)], w) + [LastWord(items, w)]
  }

  /** What one stream_event does: the chunk it sends, whether to stop, whether it
      was malformed, and the completion flag it may raise. */
  method HandleStreamEvent(item: Item, k: nat, w: Surroundings, out: seq<Chunk>, completionSeen: bool)
    returns (sent: seq<Chunk>, stop: bool, malformed: bool, seen: bool)
    requires !item.Unrelated? && !item.Unreadable? && !item.PipeClosed? && !item.StrayBracket?
    ensures sent == out + if Carries(item) && Sent(w, k) then [Content(item.partial)] else []
    ensures stop == item.MessageStop? && malformed == Bad(item)
    ensures seen == (completionSeen || stop)
  {
    sent, stop, malformed, seen := out, false, false, completionSeen;
    match item {
      case BadEvent =>
        malformed := true;
      case BadDelta =>
        malformed := true;
      case Delta(kind, partial) =>
        if kind == "input_json_delta" && partial != "" {
          if k < w.ctxDone || w.picksSend(k) {
            sent := sent + [Content(partial)];
          }
        }
      case MessageStop =>
        seen := true;
        stop := true;
      case OtherEvent =>
    }
  }

  /** The goroutine: the decoding loop with its three flags, then the switch that
      picks the terminal chunk. */
  method Pump(items: seq<Item>, w: Surroundings) returns (out: seq<Chunk>)
    ensures out == Transcript(items, w)
  {
    out := [];
    var completionSeen, stoppedEarly, malformed := false, false, false;
    var k := 0;
    while k < |items| && !items[k].StrayBracket?
      invariant k <= EndOf(items)
      invariant out == Contents(items[..k], w)
      invariant !completionSeen && !stoppedEarly && !malformed
    {
      assert items[..k + 1][..k] == items[..k];
      var item := items[k];
      if item.PipeClosed? {
        break;
      }
      if item.Unreadable? {
        malformed := true;
        break;
      }
      if !item.Unrelated? {
        var stop, bad;
        out, stop, bad, completionSeen := HandleStreamEvent(item, k, w, out, completionSeen);
        if bad {
          malformed := true;
          break;
        }
        if stop {
          stoppedEarly := true;
          break;
        }
      }
      k := k + 1;
    }
    // Killing the process also ends the command's context.
    var cmdCtxEnded := w.cmdCtxEnded || malformed || stoppedEarly;
    if stoppedEarly && completionSeen {
      out := out + [Done];
    } else if !malformed && cmdCtxEnded {
      out := out + [Failed(Context)];
    } else if malformed {
      out := out + [Failed(Malformed)];
    } else if w.processFailed {
      out := out + [Failed(Process)];
    } else if completionSeen {
      out := out + [Done];
    } else {
      out := out + [Failed(NoCompletion)];
    }
  }

  // ----- what a consumer of the channel can rely on -----

  lemma {:induction false} ContentsAreContent(items: seq<Item>, w: Surroundings)
    ensures forall c :: c in Contents(items, w) ==> c.Content? && c.text != ""
  {
    if items != [] {
      ContentsAreContent(items[..|items| - 1], w);
    }
  }

  /** Content chunks, then exactly one terminal chunk, whatever the stream held. */
  lemma OneTerminalLast(items: seq<Item>, w: Surroundings)
    ensures var out := Transcript(items, w);
            |out| > 0 && forall i :: 0 <= i < |out| ==> (Terminal(out[i]) <==> i == |out| - 1)
  {
    ContentsAreContent(items[..EndOf(items)], w);
  }

  /** Items after which the reading goes on. */
  ghost predicate Quiet(item: Item)
  {
    item.Unrelated? || item.Delta? || item.OtherEvent?
  }

  /** The reading ends at the first item that is not of these. */
  lemma QuietUntilEnd(items: seq<Item>)
    ensures forall j :: 0 <= j < EndOf(items) ==> Quiet(items[j])
    ensures EndOf(items) < |items| ==> !Quiet(items[EndOf(items)])
  {
  }

  /** Some stop was decoded and nothing before it ended the stream. */
  ghost predicate Completed(items: seq<Item>)
  {
    exists k :: 0 <= k < |items| && items[k].MessageStop? && forall j :: 0 <= j < k ==> Quiet(items[j])
  }

  ghost predicate Broken(items: seq<Item>)
  {
    exists k :: 0 <= k < |items| && (items[k].BadEvent? || items[k].BadDelta? || items[k].Unreadable?)
                && forall j :: 0 <= j < k ==> Quiet(items[j])
  }

  /** The verdict is Done exactly when message_stop was decoded before any error,
      malformed exactly when an error of the decoder came first, and the context is
      blamed only when neither happened: such a stream is never reported as cancelled. */
  lemma VerdictExactly(items: seq<Item>, w: Surroundings)
    ensures LastWord(items, w) == Done <==> Completed(items)
    ensures LastWord(items, w) == Failed(Malformed) <==> Broken(items)
    ensures LastWord(items, w) == Failed(Context) <==> !Completed(items) && !Broken(items) && w.cmdCtxEnded
    ensures LastWord(items, w) == Failed(Process) <==>
            !Completed(items) && !Broken(items) && !w.cmdCtxEnded && w.processFailed
  {
    var e := EndOf(items);
    if Completed(items) {
      var k :| 0 <= k < |items| && items[k].MessageStop? && forall j :: 0 <= j < k ==> Quiet(items[j]);
      assert k == e;
    }
    if Broken(items) {
      var k :| 0 <= k < |items| && (items[k].BadEvent? || items[k].BadDelta? || items[k].Unreadable?)
               && forall j :: 0 <= j < k ==> Quiet(items[j]);
      assert k == e;
    }
  }

  /** A stray closing bracket ends the reading without an error: the verdict is then up
      to the process alone, and a process that stalls after it is reported as cancelled
      or timed out. */
  lemma StrayBracketUnnoticed(items: seq<Item>, w: Surroundings, k: nat)
    requires k < |items| && items[k].StrayBracket? && forall j :: 0 <= j < k ==> Quiet(items[j])
    ensures EndOf(items) == k
    ensures LastWord(items, w) ==
            if w.cmdCtxEnded then Failed(Context) else if w.processFailed then Failed(Process) else Failed(NoCompletion)
    ensures !Broken(items) && !Completed(items)
  {
    VerdictExactly(items, w);
  }

  function Joined(chunks: seq<Chunk>): string
  {
    if chunks == [] then ""
    else Joined(chunks[..|chunks| - 1]) + match chunks[|chunks| - 1] case Content(text) => text case _ => ""
  }

  /** The text of every structured-output delta, in order. */
  function Deltas(items: seq<Item>): string
  {
    if items == [] then ""
    else
      var last := items[|items| - 1];
      Deltas(items[..|items| - 1]) + if last.Delta? && last.kind == "input_json_delta" then last.partial else ""
  }

  lemma {:induction false} JoinedAppend(chunks: seq<Chunk>, more: seq<Chunk>)
    requires |more| <= 1
    ensures Joined(chunks + more) == Joined(chunks) + Joined(more)
  {
    if more == [] {
      assert chunks + more == chunks;
    } else {
      assert (chunks + more)[..|chunks + more| - 1] == chunks;
      assert more[..0] == [];
    }
  }

  lemma {:induction false} NothingDropped(items: seq<Item>, w: Surroundings)
    requires |items| <= w.ctxDone
    ensures Joined(Contents(items, w)) == Deltas(items)
  {
    if items != [] {
      var k := |items| - 1;
      NothingDropped(items[..k], w);
      var more := if Carries(items[k]) && Sent(w, k) then [Content(items[k].partial)] else [];
      JoinedAppend(Contents(items[..k], w), more);
      if more != [] {
        assert more[..0] == [];
        assert Joined(more) == items[k].partial;
      }
    }
  }

  /** While the caller does not cancel, what comes through is exactly the
      structured output that preceded the end of the stream. */
  lemma WholeOutput(items: seq<Item>, w: Surroundings)
    requires EndOf(items) <= w.ctxDone
    ensures Joined(Transcript(items, w)) == Deltas(items[..EndOf(items)])
  {
    var seen := items[..EndOf(items)];
    NothingDropped(seen, w);
    var end := [LastWord(items, w)];
    JoinedAppend(Contents(seen, w), end);
    assert end[..0] == [];
    assert Joined(end) == "";
  }

  /** A caller who cancels still gets an unbroken head of the output first: the
      chunks up to the cancellation are those of a run nobody cancelled. */
  lemma {:induction false} CancelledKeepsHead(items: seq<Item>, w: Surroundings, calm: Surroundings)
    requires w.ctxDone <= |items| <= calm.ctxDone
    ensures Contents(items[..w.ctxDone], calm) <= Contents(items, w)
  {
    var k := |items| - 1;
    if w.ctxDone == |items| {
      SameBeforeCancel(items, w, calm);
      assert items[..w.ctxDone] == items;
    } else {
      CancelledKeepsHead(items[..k], w, calm);
      assert items[..k][..w.ctxDone] == items[..w.ctxDone];
    }
  }

  /** What follows the cancellation is some of the later deltas, in their order. */
  lemma {:induction false} CancelledThins(items: seq<Item>, w: Surroundings, calm: Surroundings)
    requires |items| <= calm.ctxDone
    ensures IsThinning(Contents(items, w), Contents(items, calm))
  {
    if items != [] {
      var k := |items| - 1;
      CancelledThins(items[..k], w, calm);
      var a, b := Contents(items[..k], w), Contents(items[..k], calm);
      if !Carries(items[k]) {
        assert Contents(items, w) == a && Contents(items, calm) == b;
      } else {
        var chunk := Content(items[k].partial);
        ThinningGrows(a, b, chunk);
        assert Contents(items, calm) == b + [chunk];
        assert Contents(items, w) == if Sent(w, k) then a + [chunk] else a;
      }
    }
  }

  lemma ThinningGrows<T>(a: seq<T>, b: seq<T>, x: T)
    requires IsThinning(a, b)
    ensures IsThinning(a, b + [x]) && IsThinning(a + [x], b + [x])
  {
    assert (b + [x])[..|b + [x]| - 1] == b;
    assert (a + [x])[..|a + [x]| - 1] == a;
  }

  lemma {:induction false} SameBeforeCancel(items: seq<Item>, w: Surroundings, calm: Surroundings)
    requires |items| <= w.ctxDone && |items| <= calm.ctxDone
    ensures Contents(items, w) == Contents(items, calm)
  {
    if items != [] {
      SameBeforeCancel(items[..|items| - 1], w, calm);
    }
  }

  /** `a` is `b` with some elements left out. */
  ghost predicate IsThinning<T>(a: seq<T>, b: seq<T>)
  {
    if b == [] then a == []
    else
      || IsThinning(a, b[..|b| - 1])
      || (a != [] && a[|a| - 1] == b[|b| - 1] && IsThinning(a[..|a| - 1], b[..|b| - 1]))
  }

  /** The chunks are the texts of the deltas at the places `at`, in order. */
  ghost predicate TextsAt(items: seq<Item>, chunks: seq<Chunk>, at: seq<nat>)
  {
    && |at| == |chunks| && (forall i, j :: 0 <= i < j < |at| ==> at[i] < at[j])
    && forall i :: 0 <= i < |at| ==> at[i] < |items| && items[at[i]].Delta? && chunks[i] == Content(items[at[i]].partial)
  }

  /** Structured output with text in it that came before the cancellation, or that the
      choice was to send. */
  ghost predicate ComesThrough(items: seq<Item>, w: Surroundings, k: nat)
    requires k < |items|
  {
    items[k].Delta? && items[k].kind == "input_json_delta" && items[k].partial != "" && (k < w.ctxDone || w.picksSend(k))
  }

  lemma TextsAtStep(items: seq<Item>, item: Item, chunks: seq<Chunk>, at: seq<nat>)
    requires TextsAt(items, chunks, at)
    ensures TextsAt(items + [item], chunks, at)
    ensures item.Delta? ==> TextsAt(items + [item], chunks + [Content(item.partial)], at + [|items|])
  {
    var more, now := items + [item], at + [|items|];
    assert forall i :: 0 <= i < |at| ==> more[at[i]] == items[at[i]];
    assert more[|items|] == item;
  }

  ghost predicate AllPlaced(items: seq<Item>, w: Surroundings, at: seq<nat>)
  {
    forall k :: 0 <= k < |items| ==> (k in at <==> ComesThrough(items, w, k))
  }

  lemma AllPlacedStep(items: seq<Item>, item: Item, w: Surroundings, at: seq<nat>)
    requires AllPlaced(items, w, at) && forall k :: k in at ==> k < |items|
    ensures var more := items + [item];
            AllPlaced(more, w, if ComesThrough(more, w, |items|) then at + [|items|] else at)
  {
    var more := items + [item];
    forall k | 0 <= k < |items| ensures k in at <==> ComesThrough(more, w, k) {
      assert more[k] == items[k];
      assert ComesThrough(items, w, k) <==> ComesThrough(more, w, k);
    }
    assert |items| !in at;
  }

  lemma ContentsStep(items: seq<Item>, item: Item, w: Surroundings)
    ensures var more := items + [item];
            Contents(more, w) == Contents(items, w)
                                 + if ComesThrough(more, w, |items|) then [Content(item.partial)] else []
  {
    assert (items + [item])[..|items|] == items;
  }

  lemma OneMoreItem(items: seq<Item>, item: Item, w: Surroundings, before: seq<nat>) returns (at: seq<nat>)
    requires TextsAt(items, Contents(items, w), before) && AllPlaced(items, w, before)
    ensures TextsAt(items + [item], Contents(items + [item], w), at) && AllPlaced(items + [item], w, at)
  {
    TextsAtStep(items, item, Contents(items, w), before);
    AllPlacedStep(items, item, w, before);
    ContentsStep(items, item, w);
    at := if ComesThrough(items + [item], w, |items|) then before + [|items|] else before;
    assert Contents(items, w) + [] == Contents(items, w);
  }

  /** Exactly these come through, each as its text and in order; `at` are their
      places. */
  lemma {:induction false} ContentsExactly(items: seq<Item>, w: Surroundings) returns (at: seq<nat>)
    ensures TextsAt(items, Contents(items, w), at) && AllPlaced(items, w, at)
  {
    if items == [] {
      at := [];
    } else {
      var n := |items| - 1;
      var before := ContentsExactly(items[..n], w);
      at := OneMoreItem(items[..n], items[n], w, before);
      assert items[..n] + [items[n]] == items;
    }
  }

  /** Nothing that the process writes after message_stop, or after the first
      malformed event, can change what the consumer sees. */
  lemma {:induction false} RestIgnored(items: seq<Item>, rest: seq<Item>, w: Surroundings)
    requires EndOf(items) < |items|
    ensures Transcript(items + rest, w) == Transcript(items, w)
  {
    EndStays(items, rest);
    var k := EndOf(items);
    assert (items + rest)[..k] == items[..k];
  }

  lemma {:induction false} EndStays(items: seq<Item>, rest: seq<Item>)
    requires EndOf(items) < |items|
    ensures EndOf(items + rest) == EndOf(items)
  {
    if !Ends(items[0]) {
      EndStays(items[1..], rest);
      assert (items + rest)[1..] == items[1..] + rest;
    }
  }

  // ----- the messages a single-turn call accepts -----

  datatype Message = Message(role: string, content: string)

  datatype Refusal = EmptySlice | NoUser | Unexpected(role: string) | TooMany(count: nat)

  datatype Turn = Turn(system: string, user: string) | Refused(why: Refusal)

  /** Accepts a user message alone or after a system message, and nothing else. */
  function ValidateSingleTurn(messages: seq<Message>): (t: Turn)
    ensures t.Turn? <==>
            || (|messages| == 1 && messages[0].role == "user")
            || (|messages| == 2 && messages[0].role == "system" && messages[1].role == "user")
    ensures t.Turn? ==> t.user == messages[|messages| - 1].content
    ensures t.Turn? ==> t.system == if |messages| == 2 then messages[0].content else ""
    ensures t == Refused(EmptySlice) <==> messages == []
    ensures t == Refused(NoUser) <==> |messages| == 1 && messages[0].role == "system"
  {
    if messages == [] then Refused(EmptySlice)
    else
      var idx := if messages[0].role == "system" then 1 else 0;
      if idx >= |messages| then Refused(NoUser)
      else if messages[idx].role != "user" then Refused(Unexpected(messages[idx].role))
      else if idx + 1 < |messages| then Refused(TooMany(|messages|))
      else Turn(if idx == 1 then messages[0].content else "", messages[idx].content)
  }
}
