/**
 The chat server's handlers (ChatServer MainPage): the participant list kept
 by onConnect and onDisconnect, the classification of an incoming message
 into a rename, a participants request or a chat line, the replies and
 broadcasts each produces, and shutdown. Every text a handler hands to Send
 becomes a Delivery; the GUI panels and the logger are not modelled.
 */
module ChatServer {
  import opened Text
  import opened Framing
  import opened Connection

  /** The request tokens, searched for in the lower-cased message. */
  const NameTag: string := "command name "
  const RosterTag: string := "command participants"

  /** What OnMessage does with a message, tested in this order. */
  datatype Kind = Rename | RosterRequest | Chat

  /** A text handed to Send on the connection with the given handle. */
  datatype Delivery = Delivery(to: nat, text: string)

  /** serverConnected and the list of connected clients. */
  datatype Server = Server(connected: bool, clients: seq<Connection>)

  /** The new state of the server and what it sent. */
  datatype Step = Step(server: Server, sent: seq<Delivery>)

  /** The new state of the server, the sending channel as it now is (its ID
      may have changed) and what was sent. */
  datatype Handled = Handled(server: Server, channel: Connection, sent: seq<Delivery>)

  /** OnMessage's classification: a rename when the lower-cased message
      contains "command name ", otherwise a participants request when it
      contains "command participants", otherwise a chat line. */
  function Classify(message: string): (k: Kind)
    ensures k == Rename <==> Contains(ToLower(message), NameTag)
    ensures k == RosterRequest <==> !Contains(ToLower(message), NameTag) && Contains(ToLower(message), RosterTag)
    ensures k == Chat <==> !Contains(ToLower(message), NameTag) && !Contains(ToLower(message), RosterTag)
  {
    var lower := ToLower(message);
    if Contains(lower, NameTag) then Rename
    else if Contains(lower, RosterTag) then RosterRequest
    else Chat
  }

  /** Classification ignores case: a message and its lower case are handled
      the same way. */
  lemma ClassifyIgnoresCase(message: string)
    ensures Classify(ToLower(message)) == Classify(message)
  {
    ToLowerIdempotent(message);
  }

  /** The ID ChangeName assigns: the text of the message after the first
      "command name " in its lower case (the same position in the message,
      since lower-casing keeps the length), with every newline removed. */
  function NewName(message: string): (id: string)
    requires Contains(ToLower(message), NameTag)
    ensures '\n' !in id
    ensures forall i :: 0 <= i < |id| ==> id[i] in message
  {
    var k := IndexOfToken(ToLower(message), NameTag);
    RemoveAll(message[k + 13..], '\n')
  }

  /** When the message starts with the token, the new ID is the rest of the
      message without its newlines. */
  lemma NewNameAtStart(message: string)
    requires IndexOfToken(ToLower(message), NameTag) == 0
    ensures Classify(message) == Rename
    ensures NewName(message) == RemoveAll(message[13..], '\n')
  {
  }

  /** Wherever the first token stands, in any case, the new ID is the text
      after it with its newlines removed: "please Command Name Bob\n" renames
      its sender to "Bob". */
  lemma NewNameAfterFirstToken(before: string, token: string, rest: string)
    requires |token| == 13 && ToLower(token) == NameTag
    requires forall i :: 0 <= i < |before| ==> !OccursAt(ToLower(before + token + rest), NameTag, i)
    ensures Classify(before + token + rest) == Rename
    ensures NewName(before + token + rest) == RemoveAll(rest, '\n')
  {
    var message := before + token + rest;
    var lower := ToLower(message);
    assert lower[|before|..|before| + 13] == ToLower(token) by {
      forall j | 0 <= j < 13
        ensures lower[|before|..|before| + 13][j] == ToLower(token)[j]
      {
        assert message[|before| + j] == token[j];
      }
    }
    IndexOfTokenIsFirst(lower, NameTag, |before|);
    assert message[|before| + 13..] == rest;
  }

  /** The server's announcements and the chat line it relays. */
  function Joined(id: string): string
  {
    id + " joined the server\n"
  }

  function Left(id: string): string
  {
    id + " left the server"
  }

  function Renamed(oldId: string, newId: string): string
  {
    oldId + " changed name to " + newId + "\n"
  }

  function ChatLine(id: string, message: string): string
  {
    id + ": " + message
  }

  /** The IDs of the clients, in list order. */
  function Ids(clients: seq<Connection>): (r: seq<string>)
    ensures |r| == |clients|
    ensures forall i :: 0 <= i < |r| ==> r[i] == clients[i].id
  {
    seq(|clients|, i requires 0 <= i < |clients| => clients[i].id)
  }

  /** ",id" for each ID in turn. */
  function RosterTail(ids: seq<string>): string
  {
    if |ids| == 0 then [] else [','] + ids[0] + RosterTail(ids[1..])
  }

  /** SendParticipants' reply: "command participants" followed by ",ID" for
      every client. */
  function RosterReply(ids: seq<string>): string
  {
    RosterTag + RosterTail(ids)
  }

  /** SendMessageBack: the same text to every client, in list order. */
  function Broadcast(clients: seq<Connection>, text: string): (r: seq<Delivery>)
    ensures |r| == |clients|
    ensures forall i :: 0 <= i < |r| ==> r[i] == Delivery(clients[i].handle, text)
  {
    seq(|clients|, i requires 0 <= i < |clients| => Delivery(clients[i].handle, text))
  }

  /** Position of the first client with the given handle, or -1. */
  function Find(clients: seq<Connection>, handle: nat): (r: int)
    ensures -1 <= r < |clients|
    ensures r < 0 <==> forall i :: 0 <= i < |clients| ==> clients[i].handle != handle
    ensures 0 <= r ==> clients[r].handle == handle
    ensures 0 <= r ==> forall i :: 0 <= i < r ==> clients[i].handle != handle
    decreases |clients|
  {
    if |clients| == 0 then -1
    else if clients[0].handle == handle then 0
    else
      var k := Find(clients[1..], handle);
      if k < 0 then -1 else k + 1
  }

  /** List.Remove: drops the first client with the handle (the same object)
      and keeps the others in order. */
  function RemoveFirst(clients: seq<Connection>, handle: nat): (r: seq<Connection>)
    ensures Find(clients, handle) < 0 ==> r == clients
    ensures 0 <= Find(clients, handle) ==> |r| == |clients| - 1
  {
    var k := Find(clients, handle);
    if k < 0 then clients else clients[..k] + clients[k + 1..]
  }

  /** Writes the new ID into every list entry for the channel (all entries
      are the same object). */
  function SetId(clients: seq<Connection>, handle: nat, id: string): (r: seq<Connection>)
    ensures |r| == |clients|
    ensures forall i :: 0 <= i < |r| ==>
              r[i] == if clients[i].handle == handle then clients[i].(id := id) else clients[i]
  {
    seq(|clients|, i requires 0 <= i < |clients| =>
          if clients[i].handle == handle then clients[i].(id := id) else clients[i])
  }

  /** StartServer: the server is marked connected; the list is kept. */
  function StartServer(s: Server): (r: Server)
    ensures r.connected && r.clients == s.clients
  {
    s.(connected := true)
  }

  /** OnConnect: announce the new client to those already listed, then list
      it. */
  function OnConnect(s: Server, c: Connection): (r: Step)
    ensures r.server.clients == s.clients + [c]
    ensures r.server.connected == s.connected
    ensures r.sent == Broadcast(s.clients, Joined(c.id))
  {
    Step(s.(clients := s.clients + [c]), Broadcast(s.clients, Joined(c.id)))
  }

  /** OnDisconnect: unlist the client, then announce its leaving to those
      still listed. */
  function OnDisconnect(s: Server, c: Connection): (r: Step)
    ensures r.server.clients == RemoveFirst(s.clients, c.handle)
    ensures r.server.connected == s.connected
    ensures |r.sent| == |r.server.clients|
    ensures forall i :: 0 <= i < |r.sent| ==> r.sent[i].to == r.server.clients[i].handle && r.sent[i].text == Left(c.id)
  {
    var clients := RemoveFirst(s.clients, c.handle);
    Step(s.(clients := clients), Broadcast(clients, Left(c.id)))
  }

  /** OnMessage from `channel`: a rename updates the channel's ID and
      announces it to everyone; a participants request answers the channel
      alone with the roster; anything else is relayed to everyone prefixed by
      the sender's ID. */
  function OnMessage(s: Server, channel: Connection, message: string): (r: Handled)
    ensures r.server.connected == s.connected
    ensures r.channel.(id := channel.id) == channel
    ensures Classify(message) != Rename ==> r.server == s && r.channel == channel
    ensures Classify(message) == RosterRequest ==> r.sent == [Delivery(channel.handle, RosterReply(Ids(s.clients)))]
    ensures Classify(message) == Chat ==> r.sent == Broadcast(s.clients, ChatLine(channel.id, message))
    ensures Classify(message) == Rename ==>
              && r.channel.id == NewName(message)
              && r.server.clients == SetId(s.clients, channel.handle, r.channel.id)
              && r.sent == Broadcast(r.server.clients, Renamed(channel.id, r.channel.id))
  {
    match Classify(message)
    case Rename =>
      var id := NewName(message);
      var clients := SetId(s.clients, channel.handle, id);
      Handled(s.(clients := clients), channel.(id := id), Broadcast(clients, Renamed(channel.id, id)))
    case RosterRequest =>
      Handled(s, channel, [Delivery(channel.handle, RosterReply(Ids(s.clients)))])
    case Chat =>
      Handled(s, channel, Broadcast(s.clients, ChatLine(channel.id, message)))
  }

  /** The result of ShutdownServer: every client closed and the list
      cleared, or a NullReferenceException from a client never connected,
      which leaves the list uncleared with the clients before it closed. */
  datatype Shutdown = ShutDown(server: Server, closed: seq<Connection>) | ShutdownFailed(server: Server, closed: seq<Connection>)

  /** Disconnect on each client in list order, stopping at the first failure. */
  function CloseAll(clients: seq<Connection>): (r: (seq<Connection>, bool))
    ensures |r.0| <= |clients|
    ensures forall i :: 0 <= i < |r.0| ==> clients[i].transport != NoClient && r.0[i] == clients[i].(transport := Closed)
    ensures r.1 <==> |r.0| == |clients|
    ensures !r.1 ==> clients[|r.0|].transport == NoClient
    decreases |clients|
  {
    if |clients| == 0 then ([], true)
    else match Disconnect(clients[0])
      case NullReference => ([], false)
      case ClosedConnection(c) =>
        var rest := CloseAll(clients[1..]);
        ([c] + rest.0, rest.1)
  }

  /** ShutdownServer: mark the server disconnected (the listener is
      cancelled separately), disconnect every client, clear the list. */
  function ShutdownServer(s: Server): (r: Shutdown)
    ensures !r.server.connected
    ensures r.ShutDown? ==> r.server.clients == []
  {
    var closing := CloseAll(s.clients);
    if closing.1 then ShutDown(Server(false, []), closing.0)
    else
      var n := |closing.0|;
      ShutdownFailed(Server(false, closing.0 + s.clients[n..]), closing.0)
  }

  /** A client that was not listed and is then listed and unlisted leaves the
      list as it was. */
  lemma ConnectThenDisconnect(s: Server, c: Connection)
    requires forall i :: 0 <= i < |s.clients| ==> s.clients[i].handle != c.handle
    ensures OnDisconnect(OnConnect(s, c).server, c).server == s
  {
    var cs := s.clients + [c];
    assert cs[|s.clients|].handle == c.handle;
    assert forall i :: 0 <= i < |s.clients| ==> cs[i] == s.clients[i];
    assert Find(cs, c.handle) == |s.clients|;
    assert cs[..|s.clients|] == s.clients;
  }

  /** OnDisconnect drops exactly the first entry of the client: the entries
      before it and after it stay, in order; a client not listed changes
      nothing. */
  lemma DisconnectRemovesFirst(s: Server, c: Connection)
    ensures var k := Find(s.clients, c.handle);
            var r := OnDisconnect(s, c).server.clients;
            && (k < 0 ==> r == s.clients)
            && (0 <= k ==> r[..k] == s.clients[..k] && r[k..] == s.clients[k + 1..])
            && (0 <= k ==> multiset(r) + multiset{s.clients[k]} == multiset(s.clients))
  {
    var k := Find(s.clients, c.handle);
    if 0 <= k {
      var r := OnDisconnect(s, c).server.clients;
      assert s.clients == s.clients[..k] + [s.clients[k]] + s.clients[k + 1..];
      assert r == s.clients[..k] + s.clients[k + 1..];
    }
  }

  /** When every listed client was connected, shutdown closes them all, in
      order, keeping their handles and IDs, and leaves an empty list. */
  lemma ShutdownClosesAll(s: Server)
    requires forall i :: 0 <= i < |s.clients| ==> s.clients[i].transport != NoClient
    ensures ShutdownServer(s).ShutDown?
    ensures ShutdownServer(s).server == Server(false, [])
    ensures |ShutdownServer(s).closed| == |s.clients|
    ensures forall i :: 0 <= i < |s.clients| ==>
              ShutdownServer(s).closed[i] == s.clients[i].(transport := Closed)
  {
  }

  /** Shutdown fails exactly when some listed client never connected, and
      then at the first such client. */
  lemma ShutdownFailsAtFirstUnconnected(s: Server)
    ensures ShutdownServer(s).ShutdownFailed? <==> exists i :: 0 <= i < |s.clients| && s.clients[i].transport == NoClient
    ensures ShutdownServer(s).ShutdownFailed? ==>
              var n := |ShutdownServer(s).closed|;
              && n < |s.clients| && s.clients[n].transport == NoClient
              && (forall i :: 0 <= i < n ==> s.clients[i].transport != NoClient)
              && ShutdownServer(s).server.clients[n..] == s.clients[n..]
  {
  }

  /** The roster reply is the IDs joined by commas behind the tag. */
  lemma {:induction false} RosterReplyIsJoin(ids: seq<string>)
    ensures RosterReply(ids) == Join([RosterTag] + ids, ',')
  {
    RosterTailIsJoin(ids);
    if |ids| > 0 {
      var parts := [RosterTag] + ids;
      assert parts[1..] == ids;
    }
  }

  lemma {:induction false} RosterTailIsJoin(ids: seq<string>)
    ensures RosterTail(ids) == if |ids| == 0 then [] else [','] + Join(ids, ',')
    decreases |ids|
  {
    if |ids| > 1 {
      RosterTailIsJoin(ids[1..]);
    }
  }

  /** Splitting the roster reply at its commas gives back the tag and the
      IDs, when no ID holds a comma; it therefore holds exactly one comma per
      client. */
  lemma RosterReplySplit(ids: seq<string>)
    requires forall i :: 0 <= i < |ids| ==> ',' !in ids[i]
    ensures Split(RosterReply(ids), ',') == [RosterTag] + ids
    ensures Count(RosterReply(ids), ',') == |ids|
  {
    var parts := [RosterTag] + ids;
    RosterReplyIsJoin(ids);
    assert forall i :: 0 < i < |parts| ==> parts[i] == ids[i - 1];
    SplitJoin(parts, ',');
    SplitLength(RosterReply(ids), ',');
  }

  /** No listed ID holds a newline. */
  predicate CleanIds(s: Server)
  {
    forall i :: 0 <= i < |s.clients| ==> '\n' !in s.clients[i].id
  }

  /** The handlers keep every listed ID free of newlines, given that a new
      client and the sending channel have such IDs (as accepted connections,
      whose ID is empty, do). */
  lemma HandlersKeepIdsClean(s: Server, c: Connection, message: string)
    requires CleanIds(s) && '\n' !in c.id
    ensures CleanIds(OnConnect(s, c).server)
    ensures CleanIds(OnDisconnect(s, c).server)
    ensures CleanIds(OnMessage(s, c, message).server)
    ensures '\n' !in OnMessage(s, c, message).channel.id
    ensures CleanIds(StartServer(s))
    ensures CleanIds(ShutdownServer(s).server)
  {
    RemoveFirstKeepsClean(s.clients, c.handle);
    OnMessageKeepsClean(s, c, message);
    ShutdownKeepsClean(s);
  }

  lemma RemoveFirstKeepsClean(clients: seq<Connection>, handle: nat)
    requires forall i :: 0 <= i < |clients| ==> '\n' !in clients[i].id
    ensures var r := RemoveFirst(clients, handle);
            forall i :: 0 <= i < |r| ==> '\n' !in r[i].id
  {
    var k := Find(clients, handle);
    if 0 <= k {
      var a, b := clients[..k], clients[k + 1..];
      var r := a + b;
      assert r == RemoveFirst(clients, handle);
      forall i | 0 <= i < |r|
        ensures '\n' !in r[i].id
      {
        if i < k {
          assert r[i] == clients[i];
        } else {
          assert r[i] == b[i - k] == clients[i + 1];
        }
      }
    }
  }

  lemma OnMessageKeepsClean(s: Server, c: Connection, message: string)
    requires CleanIds(s) && '\n' !in c.id
    ensures CleanIds(OnMessage(s, c, message).server)
    ensures '\n' !in OnMessage(s, c, message).channel.id
  {
  }

  lemma ShutdownKeepsClean(s: Server)
    requires CleanIds(s)
    ensures CleanIds(ShutdownServer(s).server)
  {
    var t := ShutdownServer(s).server.clients;
    assert forall i :: 0 <= i < |t| ==> t[i].id == s.clients[i].id;
  }

  /** A text that Send turns into exactly one message: non-empty, with no
      newline before its last character. */
  predicate OneLine(text: string)
  {
    |text| > 0 && '\n' !in text[..|text| - 1]
  }

  lemma JoinedOneLine(id: string)
    requires '\n' !in id
    ensures OneLine(Joined(id))
  {
    var t := Joined(id);
    assert t[..|t| - 1] == id + " joined the server";
  }

  lemma LeftOneLine(id: string)
    requires '\n' !in id
    ensures OneLine(Left(id))
  {
    var t := Left(id);
    // The leave text carries no terminator: its last character is the 'r'
    // of "server", and everything before it is newline-free.
    assert t[..|t| - 1] == id + " left the serve";
  }

  lemma RenamedOneLine(oldId: string, newId: string)
    requires '\n' !in oldId && '\n' !in newId
    ensures OneLine(Renamed(oldId, newId))
  {
    var t := Renamed(oldId, newId);
    assert t[..|t| - 1] == oldId + " changed name to " + newId;
  }

  lemma RosterOneLine(ids: seq<string>)
    requires forall i :: 0 <= i < |ids| ==> '\n' !in ids[i]
    ensures OneLine(RosterReply(ids))
  {
    RosterTailNoNewline(ids);
    var t := RosterReply(ids);
    assert '\n' !in t;
  }

  lemma ChatLineOneLine(id: string, message: string)
    requires '\n' !in id && IsMessage(message, '\n')
    ensures OneLine(ChatLine(id, message))
  {
    var t := ChatLine(id, message);
    assert t[..|t| - 1] == id + ": " + message[..|message| - 1];
  }

  /** With newline-free IDs, every text a handler sends reaches the client as
      exactly one message once Send has framed it with the '\n' terminator,
      and none is empty, so Send never fails on its length; a relayed chat
      line does so when the relayed text was itself one message. */
  lemma {:induction false} DeliveriesArriveWhole(s: Server, c: Connection, message: string)
    requires CleanIds(s) && '\n' !in c.id
    ensures forall x :: x in OnConnect(s, c).sent ==> OneLine(x.text)
    ensures forall x :: x in OnDisconnect(s, c).sent ==> OneLine(x.text)
    ensures IsMessage(message, '\n') ==> forall x :: x in OnMessage(s, c, message).sent ==> OneLine(x.text)
  {
    JoinedOneLine(c.id);
    LeftOneLine(c.id);
    if IsMessage(message, '\n') {
      match Classify(message)
      case Rename => RenamedOneLine(c.id, NewName(message));
      case RosterRequest => RosterOneLine(Ids(s.clients));
      case Chat => ChatLineOneLine(c.id, message);
    }
  }

  /** What OneLine promises: Send writes the text, framed, and the framer at
      the other end dispatches it as one message with nothing left over. */
  lemma OneLineArrivesWhole(c: Connection, text: string)
    requires OneLine(text) && c.transport == Open && c.terminator == '\n'
    ensures Send(c, text, true).Written?
    ensures Frame(Send(c, text, true).wire, '\n') == Framed([Send(c, text, true).wire], [])
  {
    SendThenFrame(text, '\n');
  }

  lemma {:induction false} RosterTailNoNewline(ids: seq<string>)
    requires forall i :: 0 <= i < |ids| ==> '\n' !in ids[i]
    ensures '\n' !in RosterTail(ids)
    decreases |ids|
  {
    if |ids| > 0 {
      RosterTailNoNewline(ids[1..]);
    }
  }
}
