/**
 The accept loop of Networking.WaitForClients as a sequential state machine
 over the outcomes of successive AcceptTcpClientAsync calls. Each accepted
 client becomes a new connection carrying the listener's terminator and is
 handed to onConnect; a cancellation or an accept failure stops the listener.
 */
module Listener {
  import opened Connection

  /** The outcome of one AcceptTcpClientAsync: a client (identified by a fresh
      handle), the cancellation requested by StopWaitingForClients, or any
      other failure. */
  datatype Accept = Incoming(handle: nat) | Cancelled | AcceptFault

  /** How the accept loop stands: still blocked in an accept, returned after
      its single iteration (with the listener left started), or stopped. */
  datatype ListenStatus = Accepting | ReturnedOnce | Stopped

  /** The onConnect calls made, in order, how many accepts were used, and the
      loop's status. */
  datatype AcceptRun = AcceptRun(connected: seq<Connection>, consumed: nat, status: ListenStatus)

  /** The connection built for an accepted client: same terminator as the
      listener, open transport, and an ID never assigned (the empty text is
      how it prints). */
  function Accepted(handle: nat, d: char): Connection
  {
    Connection(handle, [], d, Open)
  }

  /** The do-while loop of WaitForClients: accept, build the connection, call
      onConnect; go round again only when `infinite`. Any exception ends the
      loop and stops the listener. */
  function WaitForClients(accepts: seq<Accept>, d: char, infinite: bool): AcceptRun
    decreases |accepts|
  {
    if |accepts| == 0 then AcceptRun([], 0, Accepting)
    else if !accepts[0].Incoming? then AcceptRun([], 1, Stopped)
    else
      var c := Accepted(accepts[0].handle, d);
      if !infinite then AcceptRun([c], 1, ReturnedOnce)
      else
        var r := WaitForClients(accepts[1..], d, true);
        AcceptRun([c] + r.connected, r.consumed + 1, r.status)
  }

  /** Index of the first accept that stops the loop, or the number of accepts
      when none does. */
  function FirstStop(accepts: seq<Accept>): (k: nat)
    ensures k <= |accepts|
    ensures forall i :: 0 <= i < k ==> accepts[i].Incoming?
    ensures k < |accepts| ==> !accepts[k].Incoming?
  {
    if |accepts| == 0 || !accepts[0].Incoming? then 0 else 1 + FirstStop(accepts[1..])
  }

  /** The connections for the accepted clients, one per handle, in order. */
  function AcceptedAll(accepts: seq<Accept>, d: char): (r: seq<Connection>)
    requires forall i :: 0 <= i < |accepts| ==> accepts[i].Incoming?
    ensures |r| == |accepts|
    ensures forall i :: 0 <= i < |r| ==> r[i] == Accepted(accepts[i].handle, d)
  {
    seq(|accepts|, i requires 0 <= i < |accepts| => Accepted(accepts[i].handle, d))
  }

  /** The continuous loop calls onConnect once for every client accepted
      before the first cancellation or failure, in order, and for no other;
      it uses up that accept and stops, or is still accepting when there is
      none. */
  lemma {:induction false} WaitForClientsContinuous(accepts: seq<Accept>, d: char)
    ensures var k := FirstStop(accepts);
            var r := WaitForClients(accepts, d, true);
            && r.connected == AcceptedAll(accepts[..k], d)
            && r.consumed == (if k < |accepts| then k + 1 else k)
            && r.status == (if k < |accepts| then Stopped else Accepting)
    decreases |accepts|
  {
    var k := FirstStop(accepts);
    if |accepts| > 0 && accepts[0].Incoming? {
      var tail := accepts[1..];
      WaitForClientsContinuous(tail, d);
      assert accepts[..k][1..] == tail[..k - 1];
      assert AcceptedAll(accepts[..k], d)[1..] == AcceptedAll(tail[..k - 1], d);
    }
  }

  /** With `infinite == false` at most one client is accepted; the loop
      returns without stopping the listener when it accepted one. */
  lemma WaitForClientsOnce(accepts: seq<Accept>, d: char)
    ensures var r := WaitForClients(accepts, d, false);
            && |r.connected| <= 1
            && r.consumed == (if |accepts| == 0 then 0 else 1)
            && (|r.connected| == 1 <==> |accepts| > 0 && accepts[0].Incoming?)
            && (r.status == Stopped <==> |accepts| > 0 && !accepts[0].Incoming?)
  {
  }

  /** Whatever the accepts, every connection handed to onConnect is open,
      carries the listener's terminator and the handle of an accepted client,
      and once the listener has stopped no accept is used after the one that
      stopped it. */
  lemma {:induction false} ConnectionsInheritTerminator(accepts: seq<Accept>, d: char, infinite: bool)
    ensures var r := WaitForClients(accepts, d, infinite);
            && r.consumed <= |accepts|
            && |r.connected| <= r.consumed
            && (forall i :: 0 <= i < |r.connected| ==>
                  && r.connected[i].terminator == d
                  && r.connected[i].transport == Open
                  && r.connected[i].id == []
                  && accepts[i] == Incoming(r.connected[i].handle))
            && (r.status == Stopped <==> r.consumed > 0 && !accepts[r.consumed - 1].Incoming?)
    decreases |accepts|
  {
    if |accepts| > 0 && accepts[0].Incoming? && infinite {
      ConnectionsInheritTerminator(accepts[1..], d, infinite);
      var r := WaitForClients(accepts, d, infinite);
      var t := WaitForClients(accepts[1..], d, infinite);
      assert r.connected[1..] == t.connected;
      forall i | 0 < i < |r.connected|
        ensures accepts[i] == Incoming(r.connected[i].handle)
      {
        assert accepts[i] == accepts[1..][i - 1];
      }
    }
  }
}
