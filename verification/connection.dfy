/**
 One Networking connection: its receive loop (AwaitMessagesAsync) reduced to a
 sequential state machine over the reads the transport delivers, its send
 path (Send) and its caller-initiated close (Disconnect). Callbacks become
 entries of an event trace.
 */
module Connection {
  import opened Text
  import opened Framing

  /** The outcome of one ReadAsync: the characters it delivered (an empty text
      is a zero-length read, the peer closing the stream), or an I/O failure. */
  datatype Read = Data(text: string) | Fault

  /** A read that ends the loop: a failure or a zero-length read. */
  predicate Terminal(r: Read)
  {
    r.Fault? || |r.text| == 0
  }

  /** Callback invocations as they happen, in order. */
  datatype Event = Message(text: string) | Disconnected

  /** How a receive loop stands after the given reads: still blocked in a read,
      returned after its single iteration, or ended with onDisconnect. */
  datatype Status = Waiting | Returned | Ended

  datatype Run = Run(events: seq<Event>, backlog: string, consumed: nat, status: Status)

  /** One onMessage event per dispatched message, in order. */
  function MessageEvents(ms: seq<string>): (r: seq<Event>)
    ensures |r| == |ms|
    ensures forall i :: 0 <= i < |ms| ==> r[i] == Message(ms[i])
  {
    seq(|ms|, i requires 0 <= i < |ms| => Message(ms[i]))
  }

  lemma MessageEventsAppend(a: seq<string>, b: seq<string>)
    ensures MessageEvents(a + b) == MessageEvents(a) + MessageEvents(b)
  {
  }

  /** Number of onDisconnect events in a trace. */
  function Disconnects(events: seq<Event>): nat
  {
    if |events| == 0 then 0
    else (if events[0].Disconnected? then 1 else 0) + Disconnects(events[1..])
  }

  lemma {:induction false} DisconnectsAppend(a: seq<Event>, b: seq<Event>)
    ensures Disconnects(a + b) == Disconnects(a) + Disconnects(b)
    decreases |a|
  {
    if |a| == 0 {
      assert a + b == b;
    } else {
      assert (a + b)[1..] == a[1..] + b;
      DisconnectsAppend(a[1..], b);
    }
  }

  lemma {:induction false} MessageEventsNoDisconnect(ms: seq<string>)
    ensures Disconnects(MessageEvents(ms)) == 0
    decreases |ms|
  {
    if |ms| > 0 {
      assert MessageEvents(ms)[1..] == MessageEvents(ms[1..]);
      MessageEventsNoDisconnect(ms[1..]);
    }
  }

  /** The characters of each read, a failure contributing none. */
  function Chunks(input: seq<Read>): (r: seq<string>)
    ensures |r| == |input|
  {
    seq(|input|, i requires 0 <= i < |input| => if input[i].Data? then input[i].text else [])
  }

  lemma ChunksCons(input: seq<Read>, k: nat)
    requires 0 < k <= |input| && input[0].Data?
    ensures Chunks(input[..k]) == [input[0].text] + Chunks(input[1..][..k - 1])
  {
    assert input[..k][1..] == input[1..][..k - 1];
  }

  /** Index of the first read that ends the loop, or the number of reads when
      none does. */
  function FirstTerminal(input: seq<Read>): (k: nat)
    ensures k <= |input|
    ensures forall i :: 0 <= i < k ==> !Terminal(input[i])
    ensures k < |input| ==> Terminal(input[k])
  {
    if |input| == 0 then 0
    else if Terminal(input[0]) then 0
    else 1 + FirstTerminal(input[1..])
  }

  /** The do-while loop of AwaitMessagesAsync from a given backlog: read, end
      with onDisconnect on a zero-length read or an error, otherwise append the
      text to the backlog and frame it; go round again only when `infinite`.
      When the reads run out the loop is still blocked in its next read. */
  function Loop(backlog: string, input: seq<Read>, d: char, infinite: bool): Run
    decreases |input|
  {
    if |input| == 0 then Run([], backlog, 0, Waiting)
    else if Terminal(input[0]) then Run([Disconnected], backlog, 1, Ended)
    else
      var f := Frame(backlog + input[0].text, d);
      if !infinite then Run(MessageEvents(f.messages), f.rest, 1, Returned)
      else
        var r := Loop(f.rest, input[1..], d, infinite);
        Run(MessageEvents(f.messages) + r.events, r.backlog, r.consumed + 1, r.status)
  }

  /** AwaitMessagesAsync: the loop starts with an empty backlog. */
  function AwaitMessages(input: seq<Read>, d: char, infinite: bool): Run
  {
    Loop([], input, d, infinite)
  }

  /** The continuous loop reads up to and including the first terminal read;
      everything before it is framed exactly as the framer frames those chunks
      one after another, the pending tail stays undispatched, and a terminal
      read adds one onDisconnect and nothing else. */
  lemma {:induction false} LoopContinuous(backlog: string, input: seq<Read>, d: char)
    ensures var k := FirstTerminal(input);
            var f := FrameChunks(backlog, Chunks(input[..k]), d);
            var r := Loop(backlog, input, d, true);
            && r.status == (if k < |input| then Ended else Waiting)
            && r.consumed == (if k < |input| then k + 1 else k)
            && r.events == MessageEvents(f.messages) + (if k < |input| then [Disconnected] else [])
            && r.backlog == f.rest
    decreases |input|
  {
    var k := FirstTerminal(input);
    if |input| == 0 || Terminal(input[0]) {
      assert Chunks(input[..k]) == [];
    } else {
      var f := Frame(backlog + input[0].text, d);
      var k' := FirstTerminal(input[1..]);
      var g := FrameChunks(f.rest, Chunks(input[1..][..k']), d);
      LoopContinuous(f.rest, input[1..], d);
      LoopStep(backlog, input, d);
      EventsAfter(f.messages, g.messages, if k' < |input[1..]| then [Disconnected] else []);
    }
  }

  /** One non-terminal read of the continuous loop: its messages come first,
      then whatever the rest of the reads yield from the new backlog. */
  lemma LoopStep(backlog: string, input: seq<Read>, d: char)
    requires |input| > 0 && !Terminal(input[0])
    ensures var f := Frame(backlog + input[0].text, d);
            var k := FirstTerminal(input);
            var k' := FirstTerminal(input[1..]);
            && k == k' + 1
            && FrameChunks(backlog, Chunks(input[..k]), d).messages
               == f.messages + FrameChunks(f.rest, Chunks(input[1..][..k']), d).messages
            && FrameChunks(backlog, Chunks(input[..k]), d).rest
               == FrameChunks(f.rest, Chunks(input[1..][..k']), d).rest
            && var r := Loop(f.rest, input[1..], d, true);
               Loop(backlog, input, d, true)
               == Run(MessageEvents(f.messages) + r.events, r.backlog, r.consumed + 1, r.status)
  {
    var k := FirstTerminal(input);
    ChunksCons(input, k);
  }

  /** Messages dispatched before the remaining events. */
  lemma EventsAfter(a: seq<string>, b: seq<string>, rest: seq<Event>)
    ensures MessageEvents(a) + (MessageEvents(b) + rest) == MessageEvents(a + b) + rest
  {
    MessageEventsAppend(a, b);
  }

  /** With `infinite == false` the loop performs exactly one read (when there
      is one): a terminal read yields only onDisconnect, any other read is
      appended to the empty backlog and framed, and the loop returns. */
  lemma LoopOnce(input: seq<Read>, d: char)
    ensures var r := AwaitMessages(input, d, false);
            && r.consumed == (if |input| == 0 then 0 else 1)
            && (|input| == 0 ==> r.status == Waiting && r.events == [])
            && (|input| > 0 && Terminal(input[0]) ==> r.status == Ended && r.events == [Disconnected])
            && (|input| > 0 && !Terminal(input[0]) ==>
                 && r.status == Returned
                 && r.events == MessageEvents(Frame(input[0].text, d).messages)
                 && r.backlog == Frame(input[0].text, d).rest)
  {
    if |input| > 0 && !Terminal(input[0]) {
      assert [] + input[0].text == input[0].text;
    }
  }

  /** For all reads fed to the continuous loop, the messages dispatched are the
      concatenated text of the reads before the first terminal one, split after
      each terminator, with the final unterminated remainder dropped (kept as
      the backlog). */
  lemma AwaitMessagesIsSplit(input: seq<Read>, d: char)
    ensures var k := FirstTerminal(input);
            var whole := Flatten(Chunks(input[..k]));
            var r := AwaitMessages(input, d, true);
            && r.events == MessageEvents(SplitFrame(whole, d).messages) + (if k < |input| then [Disconnected] else [])
            && r.backlog == SplitFrame(whole, d).rest
  {
    var k := FirstTerminal(input);
    var whole := Flatten(Chunks(input[..k]));
    LoopContinuous([], input, d);
    FrameChunksIsFrame([], Chunks(input[..k]), d);
    assert [] + whole == whole;
    FrameIsSplit(whole, d);
  }

  /** A trace of messages, optionally closed by onDisconnect, holds exactly one
      onDisconnect when closed (as its last event) and none otherwise. */
  lemma TraceDisconnects(ms: seq<string>, ended: bool)
    ensures var events := MessageEvents(ms) + (if ended then [Disconnected] else []);
            && Disconnects(events) == (if ended then 1 else 0)
            && (ended ==> events[|events| - 1] == Disconnected)
  {
    MessageEventsNoDisconnect(ms);
    DisconnectsAppend(MessageEvents(ms), if ended then [Disconnected] else []);
  }

  /** A receive loop invokes onDisconnect exactly once when it ends on a
      zero-length read or an error, never otherwise, and as its last event. */
  lemma DisconnectExactlyOnce(input: seq<Read>, d: char, infinite: bool)
    ensures var r := AwaitMessages(input, d, infinite);
            && Disconnects(r.events) == (if r.status == Ended then 1 else 0)
            && (r.status == Ended ==> r.events[|r.events| - 1] == Disconnected)
            && r.consumed <= |input|
            && (r.status == Ended <==> r.consumed > 0 && Terminal(input[r.consumed - 1]))
  {
    var r := AwaitMessages(input, d, infinite);
    if infinite {
      var k := FirstTerminal(input);
      LoopContinuous([], input, d);
      TraceDisconnects(FrameChunks([], Chunks(input[..k]), d).messages, k < |input|);
    } else {
      LoopOnce(input, d);
      if |input| == 0 {
        TraceDisconnects([], false);
      } else if Terminal(input[0]) {
        TraceDisconnects([], true);
      } else {
        var ms := Frame(input[0].text, d).messages;
        TraceDisconnects(ms, false);
        assert r.events == MessageEvents(ms) + [];
      }
    }
  }

  /** A zero-length read with a partial message pending dispatches nothing for
      it: the events are the messages already complete, then onDisconnect. */
  lemma PartialThenClose(partial: string, d: char)
    requires |partial| > 0 && d !in partial
    ensures AwaitMessages([Data(partial), Data([])], d, true).events == [Disconnected]
  {
    LoopContinuous([], [Data(partial), Data([])], d);
    assert [Data(partial), Data([])][..1] == [Data(partial)];
    assert Chunks([Data(partial)]) == [partial];
    assert [] + partial == partial;
    assert IndexOf(partial, d) < 0;
  }

  /** Complete messages arriving together in one read (as "hello\n" and
      "world\n" arriving as "hello\nworld\n") are dispatched separately and in
      order, and nothing is left in the backlog. */
  lemma OneReadManyMessages(ms: seq<string>, d: char)
    requires |ms| > 0
    requires forall i :: 0 <= i < |ms| ==> IsMessage(ms[i], d)
    ensures AwaitMessages([Data(Flatten(ms))], d, false).events == MessageEvents(ms)
    ensures AwaitMessages([Data(Flatten(ms))], d, false).backlog == []
  {
    FrameMessages(ms, d);
    FlattenCons(ms[0], ms[1..]);
    assert ms == [ms[0]] + ms[1..];
    LoopOnce([Data(Flatten(ms))], d);
  }

  /** The transport handle a connection holds: none yet (never connected),
      open, or closed. */
  datatype Transport = NoClient | Open | Closed

  /** A Networking object: identity (reference equality in the source), its
      mutable ID, its terminator and its transport. */
  datatype Connection = Connection(handle: nat, id: string, terminator: char, transport: Transport)

  /** What one call of Send does: throw IndexOutOfRangeException for an empty
      text (before anything is written), write the framed text, or fail to
      write and report onDisconnect. */
  datatype SendOutcome = IndexOutOfRange | Written(wire: string) | WriteFailed

  /** Send on connection `c`; `writable` says whether the transport accepts the
      write. */
  function Send(c: Connection, text: string, writable: bool): (r: SendOutcome)
    ensures r == IndexOutOfRange <==> |text| == 0
    ensures r.Written? <==> |text| > 0 && c.transport == Open && writable
    ensures r.Written? ==> IsMessage(r.wire, c.terminator) || c.terminator in text[..|text| - 1]
    ensures r.Written? ==> |text| <= |r.wire| <= |text| + 1 && r.wire[..|text|] == text
    ensures r.Written? ==> r.wire[|r.wire| - 1] == c.terminator
    ensures r.Written? ==> (|r.wire| == |text| <==> text[|text| - 1] == c.terminator)
  {
    if |text| == 0 then IndexOutOfRange
    else
      var wire := FrameOutgoing(text, c.terminator);
      if c.transport == Open && writable then
        assert wire[..|wire| - 1] == text[..|text| - 1] || wire[..|wire| - 1] == text;
        Written(wire)
      else WriteFailed
  }

  /** The callbacks a send causes: a failed write reports onDisconnect. */
  function SendEvents(o: SendOutcome): seq<Event>
  {
    if o.WriteFailed? then [Disconnected] else []
  }

  /** Sending the same text with or without its terminator writes the same
      characters. */
  lemma SendIgnoresTerminator(c: Connection, text: string, writable: bool)
    requires |text| > 0 && text[|text| - 1] != c.terminator
    ensures Send(c, text + [c.terminator], writable) == Send(c, text, writable)
  {
  }

  /** The result of Disconnect: the connection with its transport closed, or a
      NullReferenceException when there was never a transport. */
  datatype CloseResult = ClosedConnection(conn: Connection) | NullReference

  /** Disconnect closes the transport and changes nothing else; it invokes no
      callback. */
  function Disconnect(c: Connection): (r: CloseResult)
    ensures r.NullReference? <==> c.transport == NoClient
    ensures r.ClosedConnection? ==> r.conn.transport == Closed && r.conn.(transport := c.transport) == c
  {
    if c.transport == NoClient then NullReference else ClosedConnection(c.(transport := Closed))
  }

  /** Disconnecting an already closed connection neither fails nor changes it. */
  lemma DisconnectIdempotent(c: Connection)
    requires c.transport != NoClient
    ensures Disconnect(c).ClosedConnection?
    ensures Disconnect(Disconnect(c).conn) == Disconnect(c)
  {
  }

  /** onDisconnect is not reported only once per connection: a failed send
      reports it, and the receive loop, ending on the closed stream, reports it
      again. */
  lemma DisconnectCanFireTwice()
    ensures var c := Connection(0, [], '\n', Open);
            Disconnects(SendEvents(Send(c, "hi", false)) + AwaitMessages([Data([])], '\n', true).events) == 2
  {
    var c := Connection(0, [], '\n', Open);
    assert SendEvents(Send(c, "hi", false)) == [Disconnected];
    assert AwaitMessages([Data([])], '\n', true).events == [Disconnected];
    DisconnectsAppend([Disconnected], [Disconnected]);
  }
}
