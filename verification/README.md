# Chat network: message framing and chat sub-protocol

This project models the core of a small TCP chat system: a `Networking`
class, a chat server and a chat client.

**Networking.** A `Networking` object wraps one TCP connection. Messages
are delimited by one termination character (`'\n'` in both applications).
- **Receive.** The receive loop (`AwaitMessagesAsync`) appends each read to a
  backlog. `CheckForMessage` then cuts every complete message, terminator
  included, off the front of the backlog and hands it to `onMessage`. A
  zero-length read or an error ends the loop with `onDisconnect`.
- **Send.** `Send` appends the terminator unless the text already ends with
  it.
- **Accept.** On the server, `WaitForClients` accepts clients. It builds one
  `Networking` object per client and hands each to `onConnect`, until
  cancellation or an error.

**Chat server.** The server keeps a list of connected clients. Each
incoming message is classified:
- it is a rename (`command name `) when its lower case contains that token;
- otherwise it is a participants request (`command participants`) when it
  contains that one;
- otherwise it is a chat line, which is relayed to everyone as
  `"{ID}: {message}"`.

**Chat client.** The client sends `Command Name {name}` once connected, and
`Command Participants` on request. It shows a reply containing
`command participants,` as the participants panel: the reply is split at its
commas and the first part is replaced by a header.

## Modules
- `Text` (`text.dfy`): ordinal character and token search, ASCII
  lower-casing, character removal, `Split`/`Join` with their round trip,
  and occurrence lemmas for concatenations.
- `Framing` (`framing.dfy`): the framer. `Frame` is the recursive
  definition and `CheckForMessage` is the loop as written. The module also
  holds the uniqueness of a framing, the reference definition through
  `Split`, framing over several reads, and Send's terminator normalisation
  (`FrameOutgoing`).
- `Connection` (`connection.dfy`):
  - the receive loop as a function of the reads the transport delivers,
    producing a trace of `onMessage` and `onDisconnect` events;
  - `Send` with its three outcomes;
  - `Disconnect`.
- `Listener` (`listener.dfy`): the accept loop as a function of the
  outcomes of successive accepts.
- `ChatServer` (`chat_server.dfy`):
  - classification and name extraction;
  - the announcements, the roster reply and the broadcasts, as deliveries
    handed to `Send`;
  - the client list kept by `OnConnect`, `OnDisconnect` and
    `ShutdownServer`.
- `ChatClient` (`chat_client.dfy`): the two requests, roster recognition,
  the panel lines, and the client's `OnMessage`.
- `Protocol` (`protocol.dfy`): end-to-end statements across the client, the
  wire and the server.

Three behaviours of the code are easy to misread, and the model keeps them
as written:
- **onDisconnect can fire twice.** `Send` reports `onDisconnect` when its
  write fails (Communications/Networking.cs:216-219). The receive loop
  reports it again when its next read fails (lines 125-128). Nothing
  guards against the second report. `DisconnectCanFireTwice` exhibits a
  trace with two.
- **An accepted connection has no ID.** The comment on `ID`
  (Communications/Networking.cs:46-48) calls the remote endpoint the
  default, but `WaitForClients` never assigns one, so the ID is null. C#
  string interpolation prints null as the empty text, so the model uses
  `""`.
- **`Send("")` throws.** For an empty text, `text[text.Length - 1]` throws
  `IndexOutOfRangeException` before the `try` is reached
  (Communications/Networking.cs:205). The model makes this an outcome of
  `Send`.

## Model

| member | source | states |
|---|---|---|
| Framing.CheckForMessage | Communications/Networking.cs:136-150 | The loop dispatches exactly the framing of the backlog. Every message ends with the terminator and holds no other one. Messages followed by what is left give back the input. What is left holds no terminator. |
| Framing.FrameWellFramed | Communications/Networking.cs:139-148 | The framing cuts the backlog into complete messages in order, plus a remainder without a terminator; their concatenation is the backlog. |
| Framing.FrameUnique | Communications/Networking.cs:141-149 | Any cut of a backlog into complete messages and a terminator-free remainder is the one the framer produces: nothing can be dispatched differently. |
| Framing.FrameIsSplit | Communications/Networking.cs:136-150 | Reference definition: split the backlog at every terminator, give every part but the last its terminator back; the last part is the remainder. |
| Framing.FrameMessages | Communications/Networking.cs:141-149 | A backlog made of complete messages is dispatched as exactly those messages and leaves nothing. |
| Framing.FrameAppend | Communications/Networking.cs:119-121 | Framing a longer backlog first dispatches what the shorter one did, then frames the shorter one's remainder followed by the new text. |
| Framing.FrameChunksIsFrame | Communications/Networking.cs:108-122 | Framing after each read, as the loop does, dispatches the same messages and leaves the same remainder as framing the concatenated reads at once. |
| Framing.FrameOutgoing | Communications/Networking.cs:205-208 | Send's normalisation of a non-empty text: the result starts with the text, ends with the terminator, and is at most one character longer. |
| Framing.FrameOutgoingFixes | Communications/Networking.cs:205-208 | A text ending with the terminator is sent unchanged. |
| Framing.FrameOutgoingAppends | Communications/Networking.cs:205-208 | Otherwise exactly one terminator is appended. |
| Framing.FrameOutgoingIdempotent | Communications/Networking.cs:205-208 | Normalising twice is normalising once. |
| Framing.FrameOutgoingAbsorbs | Communications/Networking.cs:205-208 | A text with or without its final terminator is sent the same way. |
| Framing.SendThenFrame | Communications/Networking.cs:205-208 | A text with no terminator before its last character is sent as one message, which the receiving framer dispatches whole with nothing left over. |
| Connection.LoopContinuous | Communications/Networking.cs:108-128 | The continuous loop frames every read up to the first zero-length or failed read, as the framer frames those reads in turn. It uses that read and then stops with one onDisconnect. Without such a read it is still waiting. |
| Connection.AwaitMessagesIsSplit | Communications/Networking.cs:108-122 | Over any reads, the messages dispatched are the concatenated text before the first terminal read, split after each terminator. The unterminated tail stays in the backlog. |
| Connection.LoopOnce | Communications/Networking.cs:108-123 | With `infinite` false the loop makes exactly one read. A terminal read yields only onDisconnect; any other read is framed and the loop returns. |
| Connection.DisconnectExactlyOnce | Communications/Networking.cs:110-128 | A receive loop reports onDisconnect exactly once, as its last event, when it ended on a zero-length or failed read, and never otherwise. |
| Connection.PartialThenClose | Communications/Networking.cs:110-128 | A pending partial message is never dispatched when the peer closes; the only event is onDisconnect. |
| Connection.OneReadManyMessages | Communications/Networking.cs:117-121 | Complete messages that arrive in one read are dispatched separately and in order, with nothing left over. |
| Connection.Send | Communications/Networking.cs:203-220 | An empty text fails with IndexOutOfRange. A non-empty text is written exactly when the transport is open and accepts the write; otherwise the write fails. The text written starts with the text, ends with the terminator, and is one character longer exactly when the text did not already end with the terminator. |
| Connection.SendIgnoresTerminator | Communications/Networking.cs:205-208 | Sending a text with its final terminator writes the same as sending it without. |
| Connection.Disconnect | Communications/Networking.cs:194-197 | Disconnect closes the transport and changes nothing else. It fails with NullReference only when there never was a transport. |
| Connection.DisconnectIdempotent | Communications/Networking.cs:194-197 | Disconnecting a closed connection succeeds and changes nothing. |
| Connection.DisconnectCanFireTwice | Communications/Networking.cs:216-219 | A failed send and the loop's failed read each report onDisconnect, so one connection can report it twice. |
| Listener.WaitForClientsContinuous | Communications/Networking.cs:158-181 | The continuous accept loop calls onConnect once per client accepted before the first cancellation or failure, in order, and for no other. It then stops. |
| Listener.WaitForClientsOnce | Communications/Networking.cs:166-175 | With `infinite` false, at most one client is accepted. The listener stops only when that accept failed. |
| Listener.ConnectionsInheritTerminator | Communications/Networking.cs:168-173 | Every connection handed to onConnect is open and carries the listener's terminator and the accepted client's handle. After a stop no further accept is used. |
| ChatServer.Classify | ChatServer/MainPage.xaml.cs:202-221 | Rename when the lower case contains `command name `, even if it also asks for participants. Otherwise roster request when it contains `command participants`. Otherwise chat. |
| ChatServer.ClassifyIgnoresCase | ChatServer/MainPage.xaml.cs:202-208 | A message and its lower case are classified alike. |
| ChatServer.NewName | ChatServer/MainPage.xaml.cs:233 | The new ID holds no newline and only characters of the message. |
| ChatServer.NewNameAtStart | ChatServer/MainPage.xaml.cs:233 | When the token starts the message, the ID is the rest of the message without its newlines. |
| ChatServer.NewNameAfterFirstToken | ChatServer/MainPage.xaml.cs:233 | Wherever the first token stands, in any letter case, the message is a rename and the new ID is the text after that token with every newline removed. |
| ChatServer.StartServer | ChatServer/MainPage.xaml.cs:74-95 | Starting marks the server connected and leaves the client list as it was. |
| ChatServer.Broadcast | ChatServer/MainPage.xaml.cs:294-315 | One delivery of the same text per listed client, in list order, to that client's handle. |
| ChatServer.OnConnect | ChatServer/MainPage.xaml.cs:139-149 | The new client is appended to the list; the join announcement goes to the clients already listed. |
| ChatServer.OnDisconnect | ChatServer/MainPage.xaml.cs:173-184 | The client's first entry is removed and the leave announcement goes to each client still listed. |
| ChatServer.OnMessage | ChatServer/MainPage.xaml.cs:198-222 | Rename: the sender gets the new ID everywhere, announced to all. Roster request: the reply goes to the sender alone. Chat: it is relayed to all as `ID: message`. Only a rename changes any state. |
| ChatServer.ConnectThenDisconnect | ChatServer/MainPage.xaml.cs:177 | Connecting and then disconnecting a client that was not listed leaves the list as it was. |
| ChatServer.DisconnectRemovesFirst | ChatServer/MainPage.xaml.cs:177 | Removal drops exactly the first entry with that handle and keeps the others in order. An unlisted client changes nothing. |
| ChatServer.ShutdownServer | ChatServer/MainPage.xaml.cs:102-122 | Shutdown marks the server disconnected and, when it completes, leaves an empty list. |
| ChatServer.ShutdownClosesAll | ChatServer/MainPage.xaml.cs:113-121 | When every client was connected, all of them are closed in order, keeping handle and ID, and the list is emptied. |
| ChatServer.ShutdownFailsAtFirstUnconnected | ChatServer/MainPage.xaml.cs:115-120 | Shutdown fails exactly when a listed client never had a transport. It fails at the first such client, and the list is not cleared. |
| ChatServer.RosterReplyIsJoin | ChatServer/MainPage.xaml.cs:251-266 | The roster reply is the tag and the IDs joined by commas, in list order. |
| ChatServer.RosterReplySplit | ChatServer/MainPage.xaml.cs:251-267 | With comma-free IDs, splitting the reply at its commas gives back the tag and the IDs, and it holds one comma per client. |
| ChatServer.HandlersKeepIdsClean | ChatServer/MainPage.xaml.cs:233 | Every handler keeps all listed IDs free of newlines. |
| ChatServer.DeliveriesArriveWhole | ChatServer/MainPage.xaml.cs:141-236 | With newline-free IDs, every announcement, roster reply and relayed chat line is non-empty and reaches the client as exactly one message. |
| ChatServer.OneLineArrivesWhole | ChatServer/MainPage.xaml.cs:294-313 | A non-empty text with no newline before its last character, sent on an open newline-terminated connection, is written and dispatched whole at the other end. |
| ChatClient.RosterLines | ChatClient/MainPage.xaml.cs:158-163 | One line per comma-separated part: the header first, then each later part, every line ending with a newline. |
| ChatClient.OnMessage | ChatClient/MainPage.xaml.cs:153-170 | A message whose lower case contains `command participants,` replaces the panel and notes the update. Any other message is appended verbatim to the chat display. |
| Protocol.NameRequestRenames | ChatClient/MainPage.xaml.cs:94 | The connect-time request with a newline-free name arrives as one message. The server classifies it as a rename and sets the sender's ID to exactly that name. |
| Protocol.ParticipantsRequestAnswered | ChatClient/MainPage.xaml.cs:117 | The participants request arrives as one message, is classified as a roster request, and is answered on the requester's connection alone. |
| Protocol.RosterRecognisedIff | ChatClient/MainPage.xaml.cs:154 | The client reads the server's reply as a roster exactly when at least one client is listed. |
| Protocol.RosterRoundTrip | ChatClient/MainPage.xaml.cs:158-163 | With comma- and newline-free IDs the reply arrives as one message. The panel shows the header, then one line per ID in list order; the last line carries the message's terminator as an extra newline. |
| Protocol.ChatNeverReadAsRoster | ChatServer/MainPage.xaml.cs:214 | A relayed chat line is never read as a roster by the clients unless the sender's ID itself carries `command participants,`. |
| Text.SplitJoin | ChatClient/MainPage.xaml.cs:158 | Splitting undoes joining when no part holds the separator. |
| Text.SplitLength | ChatClient/MainPage.xaml.cs:158 | Splitting yields one more part than there are separators. |

## Left out
- Sockets are not modelled: `TcpClient`, `TcpListener`, `NetworkStream` and `Connect`, including its `SocketException` path. Reads are given as a sequence of `Read` outcomes, accepts as a sequence of `Accept` outcomes, and writes become `Send` outcomes and deliveries.
- Bytes and encoding are not modelled. The model works on characters, not the UTF-8 bytes of 4096-byte buffers; a read that splits a multi-byte character is library behaviour.
- Concurrency is not modelled: threads, `async void`, `Dispatcher.Dispatch` and the `lock` blocks. Each handler runs atomically.
  - Within each handler, the client list is read at the point where the code makes the call.
  - `OnConnect`'s dispatched broadcast could in practice run after the new client is added.
- Cancellation is an input. `StopWaitingForClients` cancels a token; the model represents this as the `Cancelled` outcome of the next accept. Calling it before `WaitForClients` would fail on a null token, which is not modelled.
- An exception thrown by the `onConnect` callback would also end the accept loop. The server's callback has no such path in the model.
- The `stream == null` early return in `AwaitMessagesAsync` cannot happen for a connected client and is not modelled.
- The GUI and logging are not modelled: GUI layout and panel updates (`UpdateParticipants`, the display boxes), the `Dns` lookup in `StartServer`, the logger and the `FileLogger` project, and `MauiProgram`. `ChatClient.OnMessage` keeps the two editors it writes as plain text.
- Case folding is ASCII only (`A`–`Z`) and keeps the length, instead of culture-specific `ToLower`. Token search is ordinal.
- ChatServer.NewName: finds the token by ordinal search. The source's `ToLower().IndexOf("command name ")` compares by culture, unlike `Contains`, so it can ignore characters such as `'\0'`. For `"c\0ommand name a command name b"` the source therefore matches at position 0 and sets the ID to `" a command name b"`, while the model gives `"b"`. The comparison rules of a culture are outside the model.
- Object identity becomes a `handle` number. An ID is a field of the connection value, so the server writes a new ID into every list entry with the sender's handle.
- The client's `OnDisconnect` just calls `Disconnect`, which is modelled in `Connection.Disconnect`. Its `connected` flag is GUI state.
- Connection.Send: whether the transport accepts a write is a parameter, standing in for the network.
