/**
 The chat client's handlers (ChatClient MainPage): the two requests it sends
 and its onMessage, which turns a participants reply into the participants
 panel and appends anything else to the chat display.
 */
module ChatClient {
  import opened Text

  /** The token that marks a participants reply, searched for in the
      lower-cased message. */
  const RosterMark: string := "command participants,"

  /** The first line of the participants panel. */
  const RosterHeader: string := "Current Participants:\n---------------------------------"

  /** The line added to the chat display when the panel is refreshed. */
  const RosterNotice: string := "Updated list of participants\n"

  /** The two editors the handler writes: the participants panel and the
      chat display. */
  datatype View = View(participants: string, chat: string)

  /** The request sent once connected, asking the server to take `name` as
      this client's ID. */
  function NameRequest(name: string): string
  {
    "Command Name " + name
  }

  /** The request sent by the "Retrieve participants" button. */
  const ParticipantsRequest: string := "Command Participants"

  /** A message is a participants reply when its lower case contains
      "command participants,". */
  predicate IsRoster(message: string)
  {
    Contains(ToLower(message), RosterMark)
  }

  /** The panel lines of a participants reply: split at every comma, the
      first part replaced by the header, each part followed by a newline. */
  function RosterLines(message: string): (r: seq<string>)
    ensures |r| == |Split(message, ',')|
    ensures r[0] == RosterHeader + "\n"
    ensures forall i :: 1 <= i < |r| ==> r[i] == Split(message, ',')[i] + "\n"
  {
    var parts := Split(message, ',');
    var named := [RosterHeader] + parts[1..];
    seq(|named|, i requires 0 <= i < |named| => named[i] + "\n")
  }

  /** onMessage: a participants reply replaces the panel with its lines and
      notes the update in the chat display; any other message is appended to
      the chat display as it is. */
  function OnMessage(v: View, message: string): (r: View)
    ensures IsRoster(message) ==> r.participants == Flatten(RosterLines(message)) && r.chat == v.chat + RosterNotice
    ensures !IsRoster(message) ==> r.participants == v.participants && r.chat == v.chat + message
  {
    if IsRoster(message) then View(Flatten(RosterLines(message)), v.chat + RosterNotice)
    else View(v.participants, v.chat + message)
  }
}
