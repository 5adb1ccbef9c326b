/**
 The protocol between the chat client and the chat server, end to end: a
 request sent by the client is framed by Send, dispatched by the server's
 framer and classified by the server's onMessage; the server's participants
 reply travels back and is read by the client's onMessage.
 */
module Protocol {
  import opened Text
  import opened Framing
  import opened Connection
  import S = ChatServer
  import C = ChatClient

  /** Lower-casing the name request on the wire yields the rename token
      followed by the lower-cased name. */
  lemma LowerNameRequest(name: string)
    ensures ToLower(C.NameRequest(name) + "\n") == S.NameTag + ToLower(name + "\n")
  {
    assert C.NameRequest(name) + "\n" == "Command Name " + (name + "\n");
    ToLowerAppend("Command Name ", name + "\n");
    assert ToLower("Command Name ") == S.NameTag;
  }

  /** Removing the newlines from a newline-free name and its terminator
      gives back the name. */
  lemma StripTerminator(name: string)
    requires '\n' !in name
    ensures RemoveAll(name + "\n", '\n') == name
  {
    RemoveAllAppend(name, "\n", '\n');
    RemoveAllAbsent(name, '\n');
  }

  /** The name request gains a terminator from Send and crosses the wire as
      one message. */
  lemma NameRequestWire(name: string)
    requires '\n' !in name
    ensures var wire := FrameOutgoing(C.NameRequest(name), '\n');
            && wire == C.NameRequest(name) + "\n"
            && Frame(wire, '\n') == Framed([wire], [])
  {
    var request := C.NameRequest(name);
    assert '\n' !in request;
    FrameOutgoingAppends(request, '\n');
    SendThenFrame(request, '\n');
  }

  /** The rename token stands at the very start of the name request. */
  lemma NameRequestTokenFirst(name: string)
    ensures IndexOfToken(ToLower(C.NameRequest(name) + "\n"), S.NameTag) == 0
  {
    LowerNameRequest(name);
    PrefixToken(S.NameTag, ToLower(name + "\n"));
  }

  /** The server classifies the name request as a rename and takes the rest,
      without the terminator, as the name. */
  lemma NameRequestParsed(name: string)
    requires '\n' !in name
    ensures var wire := C.NameRequest(name) + "\n";
            && S.Classify(wire) == S.Rename
            && S.NewName(wire) == name
  {
    var wire := C.NameRequest(name) + "\n";
    NameRequestTokenFirst(name);
    S.NewNameAtStart(wire);
    assert wire[13..] == name + "\n";
    StripTerminator(name);
  }

  /** The request a client sends once connected reaches the server as one
      message, is classified as a rename, and sets the sender's ID to exactly
      the name the client asked for, when the name holds no newline. */
  lemma NameRequestRenames(s: S.Server, channel: Connection, name: string)
    requires '\n' !in name
    ensures var wire := FrameOutgoing(C.NameRequest(name), '\n');
            && Frame(wire, '\n') == Framed([wire], [])
            && S.Classify(wire) == S.Rename
            && S.OnMessage(s, channel, wire).channel.id == name
  {
    NameRequestWire(name);
    NameRequestParsed(name);
  }

  /** A 21-character text whose ninth character is no 'n' and with no 'c'
      among its second to ninth characters holds no rename token: "name"
      cannot line up at the start, and nothing else can start the token. */
  lemma NameTagAbsent(s: string)
    requires |s| == 21 && s[8] != 'n'
    requires s[1] != 'c' && s[2] != 'c' && s[3] != 'c' && s[4] != 'c'
    requires s[5] != 'c' && s[6] != 'c' && s[7] != 'c' && s[8] != 'c'
    ensures !Contains(s, S.NameTag)
  {
    var p := S.NameTag;
    assert p[0] == 'c' && p[8] == 'n';
    forall i | 0 <= i && i + |p| <= |s|
      ensures !OccursAt(s, p, i)
    {
      if i == 0 {
        Mismatch(s, p, 0, 8);
      } else {
        Mismatch(s, p, i, 0);
      }
    }
    ContainsIff(s, p);
  }

  /** The lower case of the participants request holds no rename token. */
  lemma ParticipantsRequestNotRename()
    ensures !Contains("command participants\n", S.NameTag)
  {
    NameTagAbsent("command participants\n");
  }

  /** The participants request gains a terminator from Send and crosses
      the wire as one message. */
  lemma ParticipantsRequestWire()
    ensures FrameOutgoing(C.ParticipantsRequest, '\n') == "Command Participants\n"
    ensures Frame("Command Participants\n", '\n') == Framed(["Command Participants\n"], [])
  {
    SendThenFrame(C.ParticipantsRequest, '\n');
  }

  /** The server classifies the participants request as such. */
  lemma ParticipantsRequestParsed()
    ensures S.Classify("Command Participants\n") == S.RosterRequest
  {
    assert ToLower("Command Participants\n") == "command participants\n";
    ParticipantsRequestNotRename();
    PrefixToken(S.RosterTag, "\n");
  }

  /** The "Retrieve participants" request reaches the server as one message,
      is classified as a participants request, and is answered on the
      requesting channel alone with the roster of the listed clients. */
  lemma ParticipantsRequestAnswered(s: S.Server, channel: Connection)
    ensures var wire := FrameOutgoing(C.ParticipantsRequest, '\n');
            && Frame(wire, '\n') == Framed([wire], [])
            && S.Classify(wire) == S.RosterRequest
            && S.OnMessage(s, channel, wire).sent == [S.Delivery(channel.handle, S.RosterReply(S.Ids(s.clients)))]
  {
    ParticipantsRequestWire();
    ParticipantsRequestParsed();
  }

  /** A text that starts with the roster mark is read as a roster, whatever
      follows it. */
  lemma MarkedIsRoster(rest: string)
    ensures C.IsRoster(C.RosterMark + rest)
  {
    ToLowerAppend(C.RosterMark, rest);
    assert ToLower(C.RosterMark) == C.RosterMark;
    PrefixToken(C.RosterMark, ToLower(rest));
  }

  /** A roster reply for at least one client starts with the roster mark. */
  lemma ReplyStartsWithMark(ids: seq<string>)
    requires |ids| > 0
    ensures var wire := FrameOutgoing(S.RosterReply(ids), '\n');
            wire == C.RosterMark + wire[|C.RosterMark|..]
  {
    var reply := S.RosterReply(ids);
    assert reply == C.RosterMark + (ids[0] + S.RosterTail(ids[1..]));
    var wire := FrameOutgoing(reply, '\n');
    assert wire[..|reply|] == reply;
    assert wire[..|C.RosterMark|] == C.RosterMark;
  }

  /** A text as long as the roster mark that does not end in a comma does
      not contain it. */
  lemma MarkAbsent(s: string)
    requires |s| == |C.RosterMark| && s[|s| - 1] != ','
    ensures !Contains(s, C.RosterMark)
  {
    Mismatch(s, C.RosterMark, 0, |s| - 1);
    ContainsIff(s, C.RosterMark);
  }

  /** The reply for an empty list, as it crosses the wire. */
  lemma EmptyReplyNotRoster()
    ensures !C.IsRoster(FrameOutgoing(S.RosterReply([]), '\n'))
  {
    var wire := FrameOutgoing(S.RosterReply([]), '\n');
    assert wire == "command participants\n";
    assert ToLower(wire) == wire;
    MarkAbsent(wire);
  }

  /** The client recognises the server's reply as a roster exactly when some
      client is listed: the reply for an empty list carries no comma. */
  lemma RosterRecognisedIff(ids: seq<string>)
    ensures C.IsRoster(FrameOutgoing(S.RosterReply(ids), '\n')) <==> |ids| > 0
  {
    if |ids| > 0 {
      var wire := FrameOutgoing(S.RosterReply(ids), '\n');
      ReplyStartsWithMark(ids);
      MarkedIsRoster(wire[|C.RosterMark|..]);
    } else {
      EmptyReplyNotRoster();
    }
  }

  /** The roster reply gains a terminator from Send and crosses the wire as
      one message, when no ID holds a newline. */
  lemma RosterWire(ids: seq<string>)
    requires forall i :: 0 <= i < |ids| ==> '\n' !in ids[i]
    ensures var wire := FrameOutgoing(S.RosterReply(ids), '\n');
            && wire == S.RosterReply(ids) + "\n"
            && Frame(wire, '\n') == Framed([wire], [])
  {
    var reply := S.RosterReply(ids);
    S.RosterTailNoNewline(ids);
    assert '\n' !in reply;
    FrameOutgoingAppends(reply, '\n');
    SendThenFrame(reply, '\n');
  }

  /** Splitting the received roster at its commas gives the tag and the IDs,
      the last one still carrying the message terminator. */
  lemma RosterSplit(ids: seq<string>)
    requires |ids| > 0
    requires forall i :: 0 <= i < |ids| ==> ',' !in ids[i]
    ensures Split(S.RosterReply(ids) + "\n", ',')
            == [S.RosterTag] + ids[..|ids| - 1] + [ids[|ids| - 1] + "\n"]
  {
    var n := |ids|;
    var parts := [S.RosterTag] + ids;
    S.RosterReplyIsJoin(ids);
    JoinAppendLast(parts, ',', "\n");
    var moved := parts[..n] + [ids[n - 1] + "\n"];
    assert moved == [S.RosterTag] + ids[..n - 1] + [ids[n - 1] + "\n"];
    assert forall i :: 1 <= i < n ==> moved[i] == ids[i - 1];
    SplitJoin(moved, ',');
  }

  /** The panel lines for a message that splits into the tag and the given
      parts: the header, then each part followed by a newline. */
  lemma LinesOfSplit(wire: string, ids: seq<string>)
    requires |ids| > 0
    requires Split(wire, ',') == [S.RosterTag] + ids[..|ids| - 1] + [ids[|ids| - 1] + "\n"]
    ensures var lines := C.RosterLines(wire);
            && |lines| == |ids| + 1
            && lines[0] == C.RosterHeader + "\n"
            && (forall i :: 0 <= i < |ids| - 1 ==> lines[i + 1] == ids[i] + "\n")
            && lines[|ids|] == ids[|ids| - 1] + "\n\n"
  {
    var parts := Split(wire, ',');
    var n := |ids|;
    assert forall i :: 0 <= i < n - 1 ==> parts[i + 1] == ids[i];
    assert parts[n] == ids[n - 1] + "\n";
  }

  /** The roster reply, framed by Send, reaches the client as one message;
      splitting it at the commas gives back the server's ID list, so the
      panel shows the header and then one line per client in list order, the
      last one followed by an extra blank line (the message's own
      terminator). IDs must hold no comma and no newline. */
  lemma RosterRoundTrip(ids: seq<string>)
    requires |ids| > 0
    requires forall i :: 0 <= i < |ids| ==> ',' !in ids[i] && '\n' !in ids[i]
    ensures var wire := FrameOutgoing(S.RosterReply(ids), '\n');
            var lines := C.RosterLines(wire);
            && Frame(wire, '\n') == Framed([wire], [])
            && C.IsRoster(wire)
            && |lines| == |ids| + 1
            && lines[0] == C.RosterHeader + "\n"
            && (forall i :: 0 <= i < |ids| - 1 ==> lines[i + 1] == ids[i] + "\n")
            && lines[|ids|] == ids[|ids| - 1] + "\n\n"
  {
    RosterWire(ids);
    RosterRecognisedIff(ids);
    RosterSplit(ids);
    LinesOfSplit(S.RosterReply(ids) + "\n", ids);
  }

  /** Lower-casing a relayed chat line lower-cases the ID and the text and
      keeps the ": " between them. */
  lemma LowerChatLine(id: string, message: string)
    ensures ToLower(S.ChatLine(id, message)) == ToLower(id) + [':'] + ([' '] + ToLower(message))
  {
    assert S.ChatLine(id, message) == id + [':'] + ([' '] + message);
    ToLowerAppend(id + [':'], [' '] + message);
    ToLowerAppend(id, [':']);
    ToLowerAppend([' '], message);
  }

  /** A text classified as a chat line holds no roster mark, even behind the
      space the server puts in front of it. */
  lemma ChatTextNoMark(message: string)
    requires S.Classify(message) == S.Chat
    ensures !Contains([' '] + ToLower(message), C.RosterMark)
  {
    assert S.RosterTag + [','] == C.RosterMark;
    NotContainsExtension(ToLower(message), S.RosterTag, [',']);
    NotContainsPrepend(' ', ToLower(message), C.RosterMark);
  }

  /** A chat line the server relays is never read as a roster by the
      clients, unless the sender's own ID carries the roster mark: the
      relayed text holds no "command participants" (or it would have been a
      participants request) and the ": " after the ID cannot complete the
      mark. */
  lemma ChatNeverReadAsRoster(id: string, message: string)
    requires !Contains(ToLower(id), C.RosterMark)
    requires IsMessage(message, '\n') && S.Classify(message) == S.Chat
    ensures !C.IsRoster(FrameOutgoing(S.ChatLine(id, message), '\n'))
  {
    FrameOutgoingFixes(S.ChatLine(id, message), '\n');
    LowerChatLine(id, message);
    ChatTextNoMark(message);
    assert ':' !in C.RosterMark;
    NotContainsAround(ToLower(id), ':', [' '] + ToLower(message), C.RosterMark);
  }
}
