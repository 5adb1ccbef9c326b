/**
 Message framing of the Networking class: the receive-side framer that cuts
 complete, terminator-ended messages off an accumulating backlog, and the
 send-side normalisation that makes every outgoing text end with exactly one
 terminator.
 */
module Framing {
  import opened Text

  /** A complete wire message: it ends with the terminator `d` and holds no
      other occurrence of it. */
  predicate IsMessage(m: string, d: char)
  {
    |m| > 0 && m[|m| - 1] == d && d !in m[..|m| - 1]
  }

  /** What the framer leaves behind: the messages dispatched, in order, and the
      unterminated tail that stays in the backlog. */
  datatype Framed = Framed(messages: seq<string>, rest: string)

  /** `f` is a correct framing of `backlog`: only complete messages are
      dispatched, together with the tail they give back the backlog exactly,
      and no terminator is left behind. */
  predicate WellFramed(f: Framed, backlog: string, d: char)
  {
    && (forall i :: 0 <= i < |f.messages| ==> IsMessage(f.messages[i], d))
    && Flatten(f.messages) + f.rest == backlog
    && d !in f.rest
  }

  /** Cutting the backlog after its first terminator and putting that message
      in front of a correct framing of the rest gives a correct framing. */
  lemma WellFramedCut(backlog: string, p: int, f: Framed, d: char)
    requires 0 <= p == IndexOf(backlog, d)
    requires WellFramed(f, backlog[p + 1..], d)
    ensures WellFramed(Framed([backlog[..p + 1]] + f.messages, f.rest), backlog, d)
  {
    var m := backlog[..p + 1];
    assert m[..p] == backlog[..p];
    assert IsMessage(m, d);
    var ms := [m] + f.messages;
    FlattenCons(m, f.messages);
    calc {
      Flatten(ms) + f.rest;
      m + (Flatten(f.messages) + f.rest);
      backlog[..p + 1] + backlog[p + 1..];
      backlog;
    }
    forall i | 0 <= i < |ms|
      ensures IsMessage(ms[i], d)
    {
      if i > 0 {
        assert ms[i] == f.messages[i - 1];
      }
    }
  }

  /** The framer of CheckForMessage as a function: repeatedly cut the prefix up
      to and including the first terminator. */
  function Frame(backlog: string, d: char): Framed
    decreases |backlog|
  {
    var p := IndexOf(backlog, d);
    if p < 0 then Framed([], backlog)
    else
      var tail := Frame(backlog[p + 1..], d);
      Framed([backlog[..p + 1]] + tail.messages, tail.rest)
  }

  /** The framer is correct: every dispatched message is complete, nothing is
      lost, duplicated or reordered, and no terminator stays in the backlog. */
  lemma {:induction false} FrameWellFramed(backlog: string, d: char)
    ensures WellFramed(Frame(backlog, d), backlog, d)
    decreases |backlog|
  {
    var p := IndexOf(backlog, d);
    if p >= 0 {
      FrameWellFramed(backlog[p + 1..], d);
      WellFramedCut(backlog, p, Frame(backlog[p + 1..], d), d);
    }
  }

  /** After framing, the backlog holds no terminator. */
  lemma FrameRestClean(backlog: string, d: char)
    ensures d !in Frame(backlog, d).rest
  {
    FrameWellFramed(backlog, d);
  }

  /** CheckForMessage as the source writes it: look up the first terminator,
      and while there is one, cut the message off the backlog, dispatch it, and
      look again. */
  method CheckForMessage(data: string, d: char) returns (dispatched: seq<string>, backlog: string)
    ensures Framed(dispatched, backlog) == Frame(data, d)
    ensures WellFramed(Framed(dispatched, backlog), data, d)
  {
    dispatched := [];
    backlog := data;
    ghost var consumed := 0;
    var position := IndexOf(backlog, d);
    while position >= 0
      invariant position == IndexOf(backlog, d)
      invariant Dispatching(data, dispatched, consumed, backlog, d)
      decreases |backlog|
    {
      var message := backlog[..position + 1];
      DispatchOne(data, dispatched, consumed, backlog, d);
      backlog := backlog[position + 1..];
      dispatched := dispatched + [message];
      consumed := consumed + position + 1;
      position := IndexOf(backlog, d);
    }
    DispatchedAll(data, dispatched, consumed, backlog, d);
  }

  /** What CheckForMessage keeps while it loops: the first `consumed`
      characters of the data have been dispatched as complete messages and the
      backlog is the rest. */
  ghost predicate Dispatching(data: string, dispatched: seq<string>, consumed: nat, backlog: string, d: char)
  {
    && consumed <= |data|
    && backlog == data[consumed..]
    && Flatten(dispatched) == data[..consumed]
    && forall i :: 0 <= i < |dispatched| ==> IsMessage(dispatched[i], d)
  }

  /** The text up to and including the first terminator is one message. */
  lemma FirstMessage(backlog: string, d: char)
    requires 0 <= IndexOf(backlog, d)
    ensures IsMessage(backlog[..IndexOf(backlog, d) + 1], d)
  {
    var p := IndexOf(backlog, d);
    assert backlog[..p + 1][..p] == backlog[..p];
  }

  /** Appending one message to a sequence of messages. */
  lemma MessagesSnoc(ms: seq<string>, m: string, d: char)
    requires forall i :: 0 <= i < |ms| ==> IsMessage(ms[i], d)
    requires IsMessage(m, d)
    ensures forall i :: 0 <= i < |ms + [m]| ==> IsMessage((ms + [m])[i], d)
  {
  }

  /** Cutting `n` more characters off the unconsumed part of `data`. */
  lemma ConsumeMore(data: string, consumed: nat, n: nat)
    requires consumed + n <= |data|
    ensures data[..consumed] + data[consumed..][..n] == data[..consumed + n]
    ensures data[consumed..][n..] == data[consumed + n..]
  {
  }

  /** Loop step of CheckForMessage: dispatching the first message of the
      backlog keeps the loop's invariant. */
  lemma DispatchOne(data: string, dispatched: seq<string>, consumed: nat, backlog: string, d: char)
    requires Dispatching(data, dispatched, consumed, backlog, d)
    requires 0 <= IndexOf(backlog, d)
    ensures var p := IndexOf(backlog, d);
            Dispatching(data, dispatched + [backlog[..p + 1]], consumed + p + 1, backlog[p + 1..], d)
  {
    var p := IndexOf(backlog, d);
    var message := backlog[..p + 1];
    FirstMessage(backlog, d);
    MessagesSnoc(dispatched, message, d);
    FlattenSnoc(dispatched, message);
    ConsumeMore(data, consumed, p + 1);
  }

  /** Loop exit of CheckForMessage: with no terminator left, the dispatched
      messages and the backlog are the framing of the data. */
  lemma DispatchedAll(data: string, dispatched: seq<string>, consumed: nat, backlog: string, d: char)
    requires Dispatching(data, dispatched, consumed, backlog, d)
    requires d !in backlog
    ensures Framed(dispatched, backlog) == Frame(data, d)
    ensures WellFramed(Framed(dispatched, backlog), data, d)
  {
    assert data == data[..consumed] + data[consumed..];
    FrameUnique(Framed(dispatched, backlog), data, d);
  }

  /** The framing is determined by its specification: any split of a backlog
      into complete messages and a terminator-free tail is the framer's. */
  lemma {:induction false} FrameUnique(f: Framed, backlog: string, d: char)
    requires WellFramed(f, backlog, d)
    ensures f == Frame(backlog, d)
    decreases |f.messages|
  {
    if |f.messages| == 0 {
      assert backlog == f.rest;
    } else {
      var m := f.messages[0];
      var more := Framed(f.messages[1..], f.rest);
      var after := Flatten(more.messages) + more.rest;
      assert f.messages == [m] + more.messages;
      FlattenCons(m, more.messages);
      assert backlog == m + after;
      var k := |m| - 1;
      assert backlog[..k] == m[..k];
      IndexOfIsFirst(backlog, d, k);
      assert backlog[..k + 1] == m;
      assert backlog[k + 1..] == after;
      forall i | 0 <= i < |more.messages|
        ensures IsMessage(more.messages[i], d)
      {
        assert more.messages[i] == f.messages[i + 1];
      }
      FrameUnique(more, after, d);
    }
  }

  /** Complete messages sent back to back are framed back into exactly those
      messages, with nothing left over. */
  lemma FrameMessages(ms: seq<string>, d: char)
    requires forall i :: 0 <= i < |ms| ==> IsMessage(ms[i], d)
    ensures Frame(Flatten(ms), d) == Framed(ms, [])
  {
    assert Flatten(ms) + [] == Flatten(ms);
    FrameUnique(Framed(ms, []), Flatten(ms), d);
  }

  /** Reference definition of the framed stream: split the text on the
      terminator, give every piece but the last its terminator back, and keep
      the last piece as the unterminated remainder. */
  function SplitFrame(s: string, d: char): Framed
  {
    var parts := Split(s, d);
    Framed(seq(|parts| - 1, i requires 0 <= i < |parts| - 1 => parts[i] + [d]), parts[|parts| - 1])
  }

  lemma {:induction false} TerminatedJoin(parts: seq<string>, d: char)
    requires |parts| >= 1
    ensures Flatten(seq(|parts| - 1, i requires 0 <= i < |parts| - 1 => parts[i] + [d])) + parts[|parts| - 1]
            == Join(parts, d)
    decreases |parts|
  {
    var ms := seq(|parts| - 1, i requires 0 <= i < |parts| - 1 => parts[i] + [d]);
    if |parts| > 1 {
      var tail := parts[1..];
      var ms' := seq(|tail| - 1, i requires 0 <= i < |tail| - 1 => tail[i] + [d]);
      assert ms == [parts[0] + [d]] + ms';
      TerminatedJoin(tail, d);
      assert parts[|parts| - 1] == tail[|tail| - 1];
    }
  }

  /** The framer agrees with the reference: the messages dispatched are exactly
      the text split after each terminator, and the remainder is the final,
      unterminated piece. */
  lemma FrameIsSplit(s: string, d: char)
    ensures Frame(s, d) == SplitFrame(s, d)
  {
    var parts := Split(s, d);
    var f := SplitFrame(s, d);
    TerminatedJoin(parts, d);
    forall i | 0 <= i < |f.messages|
      ensures IsMessage(f.messages[i], d)
    {
      assert f.messages[i][..|f.messages[i]| - 1] == parts[i];
    }
    FrameUnique(f, s, d);
  }

  /** Two correct framings in a row, the second continuing from the first's
      tail, make a correct framing of the grown backlog. */
  lemma WellFramedConcat(f: Framed, g: Framed, x: string, y: string, d: char)
    requires WellFramed(f, x, d) && WellFramed(g, f.rest + y, d)
    ensures WellFramed(Framed(f.messages + g.messages, g.rest), x + y, d)
  {
    var ms := f.messages + g.messages;
    FlattenAppend(f.messages, g.messages);
    assert Flatten(ms) + g.rest == Flatten(f.messages) + (f.rest + y);
    forall i | 0 <= i < |ms|
      ensures IsMessage(ms[i], d)
    {
      if i < |f.messages| {
        assert ms[i] == f.messages[i];
      } else {
        assert ms[i] == g.messages[i - |f.messages|];
      }
    }
  }

  /** Framing a backlog that grew by `y` is framing the old backlog and then
      framing its tail together with `y`. */
  lemma FrameAppend(x: string, y: string, d: char)
    ensures Frame(x + y, d).messages == Frame(x, d).messages + Frame(Frame(x, d).rest + y, d).messages
    ensures Frame(x + y, d).rest == Frame(Frame(x, d).rest + y, d).rest
  {
    var f := Frame(x, d);
    var g := Frame(f.rest + y, d);
    FrameWellFramed(x, d);
    FrameWellFramed(f.rest + y, d);
    WellFramedConcat(f, g, x, y, d);
    FrameUnique(Framed(f.messages + g.messages, g.rest), x + y, d);
  }

  lemma FrameAfter(x: string, y: string, g: Framed, d: char)
    requires g == Frame(Frame(x, d).rest + y, d)
    ensures Framed(Frame(x, d).messages + g.messages, g.rest) == Frame(x + y, d)
  {
    FrameAppend(x, y, d);
  }

  /** The framer applied after each of several reads, as the receive loop does:
      append the chunk to the backlog, then frame the backlog. */
  function FrameChunks(backlog: string, chunks: seq<string>, d: char): Framed
    decreases |chunks|
  {
    if |chunks| == 0 then Framed([], backlog)
    else
      var f := Frame(backlog + chunks[0], d);
      var g := FrameChunks(f.rest, chunks[1..], d);
      Framed(f.messages + g.messages, g.rest)
  }

  /** However the stream is cut into reads, the messages dispatched are those of
      the whole concatenated stream, and so is the remainder (starting from a
      backlog with no terminator, as between two reads). */
  lemma {:induction false} FrameChunksIsFrame(backlog: string, chunks: seq<string>, d: char)
    requires d !in backlog
    ensures FrameChunks(backlog, chunks, d) == Frame(backlog + Flatten(chunks), d)
    decreases |chunks|
  {
    if |chunks| == 0 {
      assert backlog + Flatten(chunks) == backlog;
      assert IndexOf(backlog, d) < 0;
    } else {
      var x := backlog + chunks[0];
      FrameRestClean(x, d);
      FrameChunksIsFrame(Frame(x, d).rest, chunks[1..], d);
      FrameAfter(x, Flatten(chunks[1..]), FrameChunks(Frame(x, d).rest, chunks[1..], d), d);
      assert backlog + Flatten(chunks) == x + Flatten(chunks[1..]);
    }
  }

  /** The send-side normalisation of Send: the shortest extension of a
      non-empty text that ends with the terminator. */
  function FrameOutgoing(text: string, d: char): (r: string)
    requires |text| > 0
    ensures |text| <= |r| <= |text| + 1
    ensures r[..|text|] == text
    ensures r[|r| - 1] == d
  {
    if text[|text| - 1] != d then text + [d] else text
  }

  /** Framing a text already ending with the terminator leaves it unchanged. */
  lemma FrameOutgoingFixes(text: string, d: char)
    requires |text| > 0 && text[|text| - 1] == d
    ensures FrameOutgoing(text, d) == text
  {
  }

  /** Framing a text not ending with the terminator appends exactly one. */
  lemma FrameOutgoingAppends(text: string, d: char)
    requires |text| > 0 && text[|text| - 1] != d
    ensures FrameOutgoing(text, d) == text + [d]
    ensures Count(FrameOutgoing(text, d), d) == Count(text, d) + 1
  {
    CountAppend(text, [d], d);
  }

  /** Framing is idempotent. */
  lemma FrameOutgoingIdempotent(text: string, d: char)
    requires |text| > 0
    ensures FrameOutgoing(FrameOutgoing(text, d), d) == FrameOutgoing(text, d)
  {
  }

  /** A caller may leave the terminator out or put it in: the bytes are the same. */
  lemma FrameOutgoingAbsorbs(text: string, d: char)
    requires |text| > 0 && text[|text| - 1] != d
    ensures FrameOutgoing(text + [d], d) == FrameOutgoing(text, d)
  {
  }

  /** A text with no terminator except possibly a final one crosses the wire as
      exactly one message: the framer on the other side dispatches the framed
      text and keeps nothing. */
  lemma SendThenFrame(text: string, d: char)
    requires |text| > 0
    requires d !in text[..|text| - 1]
    ensures IsMessage(FrameOutgoing(text, d), d)
    ensures Frame(FrameOutgoing(text, d), d) == Framed([FrameOutgoing(text, d)], [])
  {
    var w := FrameOutgoing(text, d);
    if text[|text| - 1] != d {
      assert w[..|w| - 1] == text;
    }
    var f := Framed([w], []);
    assert Flatten(f.messages) == w;
    FrameUnique(f, w, d);
  }
}
