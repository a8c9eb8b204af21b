/** Attempts to hand a message to a named node: each is one connection and one run of the paged sender. */
module Delivery {
  import opened Bytes
  import opened Messages
  import NodeNetwork

  datatype Send = Send(target: string, payload: seq<byte>, kind: int)

  /** Something that holds or does not of attempt n, when it is for a message of this type and length. */
  type Outcome = (nat, int, nat) -> bool

  /** What the attempts meet: no connection at all, or a socket whose k-th non-empty write takes step(k) bytes. */
  type Reach = nat -> Option<nat -> int>

  /** The whole frame of attempt n goes out to its peer. A payload that no int can measure goes nowhere. */
  function Arrives(reach: Reach): (o: Outcome) {
    (n: nat, kind: int, length: nat) =>
      && reach(n).Some? && NodeNetwork.IsType(kind) && length <= INT_MAX
      && NodeNetwork.GoesOut(reach(n).value, kind, length)
  }

  /** What sendNodeMessage reports of an attempt: the page loop turns some arrivals into failures. */
  function Reported(arrives: Outcome): (o: Outcome) {
    (n: nat, kind: int, length: nat) => arrives(n, kind, length) && NodeNetwork.ReportsSuccess(kind, length)
  }

  /** The outcomes of one message, whichever attempt it is sent with. */
  function OfMessage(o: Outcome, kind: int, length: nat): (f: nat -> bool) {
    (n: nat) => o(n, kind, length)
  }

  /** The items that the service's coordinator, whose buffers are shorter than INT_MAX, gets to queue from
      these attempts, the first of which is attempt number `at`. */
  function Arrivals(self: string, arrives: Outcome, sends: seq<Send>, at: nat): (r: seq<Item>) {
    if sends == [] then []
    else
      (if sends[0].target == self && 0 < |sends[0].payload| < INT_MAX && sends[0].kind != KILL_MESSAGE
          && arrives(at, sends[0].kind, |sends[0].payload|)
       then [Item(sends[0].payload, 0, sends[0].kind)] else [])
      + Arrivals(self, arrives, sends[1..], at + 1)
  }

  class Network {
    const reach: Reach
    var sends: seq<Send>

    constructor (reach: Reach)
      ensures this.reach == reach && sends == []
    {
      this.reach, sends := reach, [];
    }

    function Delivers(): (o: Outcome) {
      Reported(Arrives(reach))
    }

    /** Connects, sends the frame page by page, and remembers the attempt; `wire` is what the peer gets. */
    method SendNodeMessage(target: string, payload: seq<byte>, kind: int) returns (r: int, ghost wire: seq<byte>)
      modifies this`sends
      ensures sends == old(sends) + [Send(target, payload, kind)]
      ensures r == if Delivers()(old(|sends|), kind, |payload|) then 0 else -1
      ensures NodeNetwork.IsType(kind) && |payload| <= INT_MAX ==>
        && wire <= NodeNetwork.Frame(kind, payload) && NodeNetwork.CutAtWord(|wire|)
        && (Arrives(reach)(old(|sends|), kind, |payload|) <==> wire == NodeNetwork.Frame(kind, payload))
        && (r == 0 ==> wire == NodeNetwork.Frame(kind, payload))
      ensures !(NodeNetwork.IsType(kind) && |payload| <= INT_MAX) ==>
        wire == [] && !Arrives(reach)(old(|sends|), kind, |payload|)
    {
      var n := |sends|;
      sends := sends + [Send(target, payload, kind)];
      wire := [];
      if reach(n).None? || !NodeNetwork.IsType(kind) || |payload| > INT_MAX {
        return -1, [];
      }
      var sock := new NodeNetwork.Socket(reach(n).value);
      r := NodeNetwork.SendNodeMessage(sock, payload, kind);
      wire := sock.wire;
    }
  }

  /** Arrivals are what the receiver at the service's end makes of the wires: of a frame cut at a word or in its data
      nothing, and of a whole one the message that its coordinator queues. */
  lemma ArrivalIsReceived(self: string, arrives: Outcome, s: Send, at: nat, wire: seq<byte>, stale: seq<byte>)
    requires NodeNetwork.IsType(s.kind) && |s.payload| < INT_MAX && s.kind != KILL_MESSAGE && |stale| == 4
    requires wire <= NodeNetwork.Frame(s.kind, s.payload) && NodeNetwork.CutAtWord(|wire|)
    requires arrives(at, s.kind, |s.payload|) <==> wire == NodeNetwork.Frame(s.kind, s.payload)
    ensures var calls, items := NodeNetwork.Received(wire, stale).Calls(), Arrivals(self, arrives, [s], at);
      && (s.target != self ==> items == [])
      && (s.target == self ==>
            && |items| == |calls|
            && forall i :: 0 <= i < |calls| ==> items[i] == Item(calls[i].payload, 0, calls[i].kind))
  {
    NodeNetwork.WireReceived(wire, s.kind, s.payload, stale);
    assert [s][1..] == [];
  }
}
