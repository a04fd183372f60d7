/** The body of the `POST /chat` handler from the moment the streamed run
    is open: the events of the run are read in order, the text of every
    message delta is reassembled into words that end with a space, each
    word is written as one server-sent event, the residual text is written
    at the end unless it is only whitespace, and a `[DONE]` frame closes
    the stream. */
module ChatStream {

  import opened Wrappers
  import opened WordSplit
  import opened ServerSentEvents
  import opened JsText

  /** The event name whose text parts are relayed. */
  const MessageDelta: string := "thread.message.delta"

  /** One event of the upstream run: its name and, when present and truthy,
      the `data.delta.content` array, each part given by its text (the
      empty string stands for a part whose text is missing or empty). */
  datatype Event = Event(name: string, content: Option<seq<string>>)

  /** The part texts of an event that the handler reads; none for any other
      event and for a delta without content. */
  function PartTexts(ev: Event): (texts: seq<string>)
    ensures ev.name != MessageDelta || ev.content.None? ==> texts == []
  {
    if ev.name == MessageDelta && ev.content.Some? then ev.content.value else []
  }

  /** All text the run delivers, in arrival order. */
  function Received(events: seq<Event>): string {
    if events == [] then ""
    else Received(events[..|events| - 1]) + Concat(PartTexts(events[|events| - 1]))
  }

  /** The text of a run is the text of its first events followed by that
      of the rest. */
  lemma {:induction false} ReceivedAppend(a: seq<Event>, b: seq<Event>)
    ensures Received(a + b) == Received(a) + Received(b)
    decreases |b|
  {
    if b == [] {
      assert a + b == a;
    } else {
      assert (a + b)[..|a + b| - 1] == a + b[..|b| - 1];
      ReceivedAppend(a, b[..|b| - 1]);
    }
  }

  /** A run none of whose events is a message delta with parts delivers no
      text. */
  lemma {:induction false} TextlessRun(events: seq<Event>)
    requires forall k :: 0 <= k < |events| ==> PartTexts(events[k]) == []
    ensures Received(events) == ""
    decreases |events|
  {
    if events != [] {
      var front := events[..|events| - 1];
      assert forall k :: 0 <= k < |front| ==> front[k] == events[k];
      TextlessRun(front);
      assert Concat([]) == "";
    }
  }

  /** The words written while the text `s` streams in. */
  function Emitted(s: string): seq<string> {
    var pieces := SplitAfterSpaces(s);
    pieces[..|pieces| - 1]
  }

  /** What is left in the buffer once all of `s` has arrived. */
  function Residual(s: string): string {
    var pieces := SplitAfterSpaces(s);
    pieces[|pieces| - 1]
  }

  /** The payloads of all frames before the sentinel: the emitted words,
      then the residual when `trim` leaves something of it. */
  function Payloads(s: string): seq<string> {
    Emitted(s) + (if Trim(Residual(s)) != "" then [Residual(s)] else [])
  }

  /** Everything the handler writes on the response for the text `s`. */
  function StreamFrames(s: string): seq<string> {
    Frames(Payloads(s)) + [DoneFrame]
  }

  /** What one push of text makes of the buffer `s`: every word it writes
      is non-empty and ends with its only space; it writes one word per
      space of `s` other than a final one; what it keeps has no space before
      its final character, and is non-empty when `s` is. */
  lemma Reassembly(s: string)
    ensures forall k :: 0 <= k < |Emitted(s)| ==> IsWord(Emitted(s)[k])
    ensures |Emitted(s)| == SpacesBeforeLast(s)
    ensures SpaceFreeBeforeLast(Residual(s))
    ensures s != "" ==> Residual(s) != ""
  {
    var pieces := SplitAfterSpaces(s);
    SplitIsSplit(s);
    SplitCount(pieces, s);
    if s != "" {
      LastPieceNotEmpty(pieces, s);
    }
  }

  /** The text is preserved: the payloads, followed by the residual exactly
      when that residual is dropped for being whitespace only, spell out
      everything received, in order and untrimmed. */
  lemma StreamContent(s: string)
    ensures s == Concat(Emitted(s)) + Residual(s)
    ensures !AllWhitespace(Residual(s)) ==> Concat(Payloads(s)) == s
    ensures AllWhitespace(Residual(s)) ==> Concat(Payloads(s)) + Residual(s) == s
  {
    var words, rest := Emitted(s), Residual(s);
    SplitIsSplit(s);
    assert SplitAfterSpaces(s) == words + [rest];
    ConcatAppend(words, [rest]);
    assert Concat([rest]) == rest;
    if Trim(rest) != "" {
      assert Payloads(s) == words + [rest];
    } else {
      assert Payloads(s) == words;
    }
  }

  /** The shape of the response: one frame per payload, then the sentinel
      last; every payload is non-empty, every payload but the residual is a
      word ending in its only space, and the residual has no space before
      its final character. */
  lemma StreamShape(s: string)
    ensures var frames, payloads := StreamFrames(s), Payloads(s);
      && |frames| == |payloads| + 1
      && frames[|frames| - 1] == DoneFrame
      && (forall k :: 0 <= k < |payloads| ==> frames[k] == Frame(payloads[k]) && payloads[k] != "")
      && (forall k :: 0 <= k < |Emitted(s)| ==> IsWord(payloads[k]))
      && SpaceFreeBeforeLast(Residual(s))
  {
    Reassembly(s);
    forall k | 0 <= k < |Payloads(s)|
      ensures StreamFrames(s)[k] == Frame(Payloads(s)[k])
    {
      FramesAt(Payloads(s), k);
    }
  }

  /** The sentinel appears only at the end, unless the residual text is
      itself `[DONE]`. */
  lemma DoneOnlyAtEnd(s: string)
    requires Residual(s) != "[DONE]"
    ensures var frames := StreamFrames(s);
      forall k :: 0 <= k < |frames| - 1 ==> frames[k] != DoneFrame
  {
    var payloads := Payloads(s);
    var frames := StreamFrames(s);
    forall k | 0 <= k < |frames| - 1
      ensures frames[k] != DoneFrame
    {
      assert frames[k] == Frames(payloads)[k];
      FramesAt(payloads, k);
      FrameInjective(payloads[k], "[DONE]");
      if k < |Emitted(s)| {
        Reassembly(s);
        assert IsWord(payloads[k]);
      } else {
        assert payloads[k] == Residual(s);
      }
    }
  }

  /** Conversely, when the residual text is `[DONE]` the frame written for
      it, just before the sentinel, equals the sentinel. */
  lemma DoneCollision(s: string)
    requires Residual(s) == "[DONE]"
    ensures var frames := StreamFrames(s);
      |frames| >= 2 && frames[|frames| - 2] == DoneFrame
  {
    var payloads := Payloads(s);
    assert !IsWhitespace(Residual(s)[0]);
    assert payloads == Emitted(s) + [Residual(s)];
    FramesAt(payloads, |payloads| - 1);
    assert StreamFrames(s)[|payloads| - 1] == Frames(payloads)[|payloads| - 1];
  }

  /** The reply "Hello world" streamed as the fragments "Hel", "lo " and
      "wor", "ld" in two message deltas, with an unrelated event between
      them. */
  const HelloWorldRun: seq<Event> := [
    Event(MessageDelta, Some(["Hel", "lo "])),
    Event("thread.run.step.created", None),
    Event(MessageDelta, Some(["wor", "ld"]))]

  /** The run delivers the text "Hello world". */
  lemma HelloWorldText()
    ensures Received(HelloWorldRun) == "Hello world"
  {
    var events := HelloWorldRun;
    assert Concat(["Hel", "lo "]) == "Hello " by {
      assert ["Hel", "lo "][1..] == ["lo "];
    }
    assert Concat(["wor", "ld"]) == "world" by {
      assert ["wor", "ld"][1..] == ["ld"];
    }
    assert PartTexts(events[1]) == [] && Concat([]) == "";
    assert events[..2][..1] == events[..1] && events[..1][..0] == [];
    assert Received(events[..1]) == "Hello ";
    assert Received(events[..2]) == "Hello ";
    assert Received(events) == "Hello " + "world";
  }

  /** "Hello world" gives the word "Hello " and the residual "world". */
  lemma HelloWorldPayloads()
    ensures Payloads("Hello world") == ["Hello ", "world"]
  {
    HeldWordReleased("Hello ", "world");
    assert "Hello " + "world" == "Hello world";
    assert Residual("Hello world") == "world";
    assert Trim("world") != "" by {
      assert !IsWhitespace("world"[0]);
    }
  }

  /** That run is written as two words and the sentinel: "Hello " once the
      second delta cuts it, "world" at the close. */
  lemma HelloWorldResponse()
    ensures StreamFrames(Received(HelloWorldRun)) == [Frame("Hello "), Frame("world"), DoneFrame]
  {
    var payloads := ["Hello ", "world"];
    HelloWorldText();
    HelloWorldPayloads();
    assert Frames(payloads) == [Frame("Hello "), Frame("world")] by {
      FramesAt(payloads, 0);
      FramesAt(payloads, 1);
    }
  }

  /** The reassembly state of one response: the text held back and the
      frames written so far. `received` and `sent` are the text received
      and the words written, kept for the proofs only. */
  class Reassembler {
    var buffer: string
    var out: seq<string>
    ghost var received: string
    ghost var sent: seq<string>

    /** The words written and the buffer are the split of all text received,
        and one frame has been written per word. */
    ghost predicate Valid()
      reads this
    {
      && sent + [buffer] == SplitAfterSpaces(received)
      && out == Frames(sent)
    }

    constructor ()
      ensures Valid()
      ensures buffer == "" && out == [] && received == "" && sent == []
    {
      buffer := "";
      out := [];
      received := "";
      sent := [];
      assert SplitAfterSpaces("") == [""] by {
        SplitSingle("");
      }
    }

    /** One part's text: append it, write every complete word, keep the
        last piece. */
    method Push(text: string)
      requires Valid()
      modifies this
      ensures Valid()
      ensures received == old(received) + text
      ensures text == "" ==> buffer == old(buffer) && out == old(out) && sent == old(sent)
      ensures text != "" ==>
        && sent == old(sent) + Emitted(old(buffer) + text)
        && buffer == Residual(old(buffer) + text)
      ensures out == old(out) + Frames(sent[|old(sent)|..])
    {
      if text == "" {
        assert received + text == received;
        assert sent[|sent|..] == [];
        return;
      }
      buffer := buffer + text;
      received := received + text;
      var words := SplitAfterSpaces(buffer);
      ghost var pieces := words;
      buffer := WriteWords(words);
      assert pieces == pieces[..|pieces| - 1] + [buffer];
      SplitExtend(old(received), text, old(sent), old(buffer));
      assert sent[|old(sent)|..] == pieces[..|pieces| - 1];
      FramesAppend(old(sent), pieces[..|pieces| - 1]);
    }

    /** The `while (words.length > 1)` loop: shift off and write every piece
        but the last, which is returned to become the buffer
        (`words[0] || ""`; the split never yields an empty array). */
    method WriteWords(words: seq<string>) returns (rest: string)
      requires |words| > 0
      modifies this`out, this`sent
      ensures sent == old(sent) + words[..|words| - 1]
      ensures out == old(out) + Frames(words[..|words| - 1])
      ensures rest == words[|words| - 1]
    {
      var ws := words;
      while |ws| > 1
        invariant 1 <= |ws| <= |words|
        invariant ws == words[|words| - |ws|..]
        invariant sent == old(sent) + words[..|words| - |ws|]
        invariant out == old(out) + Frames(words[..|words| - |ws|])
      {
        var word := ws[0];
        ws := ws[1..];
        out := out + [Frame(word)];
        sent := sent + [word];
        assert words[..|words| - |ws|] == words[..|words| - |ws| - 1] + [word];
      }
      rest := ws[0];
    }

    /** One event of the run: the text of each part of a message delta is
        pushed in order; any other event changes nothing. */
    method Feed(ev: Event)
      requires Valid()
      modifies this
      ensures Valid()
      ensures received == old(received) + Concat(PartTexts(ev))
      ensures Concat(PartTexts(ev)) == "" ==>
        buffer == old(buffer) && out == old(out) && sent == old(sent)
      ensures old(out) <= out
    {
      if ev.name == MessageDelta && ev.content.Some? {
        var parts := ev.content.value;
        for i := 0 to |parts|
          invariant Valid()
          invariant received == old(received) + Concat(parts[..i])
          invariant Concat(parts[..i]) == "" ==>
            buffer == old(buffer) && out == old(out) && sent == old(sent)
          invariant old(out) <= out
        {
          ghost var before := Concat(parts[..i]);
          Push(parts[i]);
          assert parts[..i + 1] == parts[..i] + [parts[i]];
          ConcatAppend(parts[..i], [parts[i]]);
          assert Concat([parts[i]]) == parts[i];
          assert Concat(parts[..i + 1]) == before + parts[i];
          assert received == old(received) + (before + parts[i]);
        }
        assert parts[..|parts|] == parts;
      } else {
        assert Concat([]) == "";
      }
    }

    /** End of stream: the residual buffer, untrimmed, when `trim` leaves
        something of it, then the sentinel. */
    method Close()
      requires Valid()
      modifies this`out
      ensures out == old(out) + (if Trim(buffer) != "" then [Frame(buffer)] else []) + [DoneFrame]
    {
      if Trim(buffer) != "" {
        out := out + [Frame(buffer)];
      }
      out := out + [DoneFrame];
    }
  }

  /** Closing a state whose words and buffer are the split of `s` writes
      exactly the response for `s`. */
  lemma CloseWrites(s: string, sent: seq<string>, buffer: string)
    requires sent + [buffer] == SplitAfterSpaces(s)
    ensures Frames(sent) + (if Trim(buffer) != "" then [Frame(buffer)] else []) + [DoneFrame]
      == StreamFrames(s)
  {
    assert sent == Emitted(s) && buffer == Residual(s);
    FramesAppend(sent, [buffer]);
    assert Frames([buffer]) == [Frame(buffer)] by {
      var none: seq<string> := [];
      assert [buffer][..0] == none;
    }
    assert sent + [] == sent;
  }

  /** The whole response for the events of one run. */
  method HandleChat(events: seq<Event>) returns (frames: seq<string>)
    ensures frames == StreamFrames(Received(events))
  {
    var r := new Reassembler();
    for i := 0 to |events|
      invariant r.Valid()
      invariant r.received == Received(events[..i])
    {
      r.Feed(events[i]);
      assert events[..i + 1][..i] == events[..i];
    }
    assert events[..|events|] == events;
    r.Close();
    frames := r.out;
    CloseWrites(Received(events), r.sent, r.buffer);
  }
}
