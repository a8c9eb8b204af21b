/** From the TCP stream of the server to the default node: what NodePort::listen queues, DefaultService::processMessage
    forwards (service/NodePort.cpp:99-231, service/DefaultService.cpp:700-713). */
module Forwarding {
  import opened Bytes
  import opened Messages
  import opened CmdQueue
  import opened Delivery
  import opened NodePort
  import opened ServiceTable
  import NodeNetwork
  import Packet
  import Service

  function Offers(ps: seq<seq<byte>>): (items: seq<Item>)
    ensures |items| == |ps|
  {
    seq(|ps|, i requires 0 <= i < |ps| => Offer(ps[i]))
  }

  /** Each of these packets is sent to n, in order and as it is. */
  predicate SentOn(sends: seq<Send>, n: string, ps: seq<seq<byte>>) {
    |sends| == |ps| && forall i :: 0 <= i < |ps| ==> sends[i] == Send(n, ps[i], GLOBAL_MESSAGE)
  }

  /** Packets that are handled in one go all go to the default node, if there is one, and nothing else happens. */
  lemma {:induction false} DrainForwards(w: World, s: ServiceTable.Service, ps: seq<seq<byte>>)
    requires forall i :: 0 <= i < |ps| ==> ps[i] != []
    ensures var r := Drain(w, s, Offers(ps));
      && r.rest == [] && r.outcome == Continue && r.service == s.(sends := r.service.sends)
      && (s.sends <= r.service.sends)
      && if s.default == "" then r.service == s else SentOn(r.service.sends[|s.sends|..], s.default, ps)
    decreases |ps|
  {
    if ps != [] {
      assert Offers(ps)[1..] == Offers(ps[1..]);
      var t := Handle(w, s, Offer(ps[0])).0;
      DrainForwards(w, t, ps[1..]);
      if s.default != "" {
        var sends := Drain(w, s, Offers(ps)).service.sends;
        assert sends[|s.sends|..] == [sends[|s.sends|]] + sends[|t.sends|..];
      }
    }
  }

  /** An empty queue takes the first packets that fit. */
  lemma {:induction false} EnqueuedFirst(q: seq<Item>, capacity: nat, ps: seq<seq<byte>>)
    requires |q| <= capacity
    ensures var room := capacity - |q|;
      EnqueuedAll(q, capacity, ps) == q + Offers(if |ps| <= room then ps else ps[..room])
    decreases |ps|
  {
    if ps != [] {
      var next := Enqueued(q, capacity, Offer(ps[0]));
      EnqueuedFirst(next, capacity, ps[1..]);
      var room := capacity - |q|;
      if room > 0 {
        var k := if |ps| <= room then |ps| else room;
        assert ps[..k] == [ps[0]] + ps[1..][..k - 1];
      }
    }
  }

  lemma FramedPacketsHaveBytes(parse: Packet.Parser, luck: Luck, at: Place, i: nat)
    requires i < |Framed(parse, luck, at).packets|
    ensures Framed(parse, luck, at).packets[i] != []
  {
    var p := FramedPacketsAreWellFormed(parse, luck, at, i);
  }

  /** The packets of a stream that an empty queue of this size has room for. */
  function Fitting(ps: seq<seq<byte>>, capacity: nat): (r: seq<seq<byte>>) {
    if |ps| <= capacity then ps else ps[..capacity]
  }

  /** A whole stream is queued and then handled: the default node is sent the packets that fit into the queue, in order
      and byte for byte, and nobody else is sent anything. */
  method ListenAndServe(service: Service.DefaultService, luck: Luck, conn: NodeNetwork.Connection)
    requires service.Valid() && service.q.contents == [] && conn.pos == 0
    requires conn !in service.q.Repr && conn !in service.registry.Repr
    modifies conn, service`calls, service.registry.Repr, service.net`sends, service.q.Repr, service.looper
    ensures service.Valid() && service.q.contents == []
    ensures var ps := Fitting(Framed(service.codec.parse, luck, Place(conn.input, 0)).packets, service.q.qSize);
      && old(service.net.sends) <= service.net.sends
      && (if old(service.State()).default == "" then service.net.sends == old(service.net.sends)
          else SentOn(service.net.sends[|old(service.net.sends)|..], old(service.State()).default, ps))
    ensures service.State() == old(service.State()).(sends := service.net.sends)
  {
    var _ := Listen(service.codec.parse, luck, conn, service.q, service.looper);
    assert conn.input[0..] == conn.input;
    ghost var packets := Framed(service.codec.parse, luck, Place(conn.input, 0)).packets;
    ghost var ps := Fitting(packets, service.q.qSize);
    EnqueuedFirst([], service.q.qSize, packets);
    forall i | 0 <= i < |ps|
      ensures ps[i] != []
    {
      FramedPacketsHaveBytes(service.codec.parse, luck, Place(conn.input, 0), i);
    }
    DrainForwards(service.Surroundings(), service.State(), ps);
    assert service.q.contents == Offers(ps);
    var _ := service.ProcessMessage();
  }

  lemma WholeStream(parse: Packet.Parser, luck: Luck, pieces: seq<Piece>)
    requires (forall i :: 0 <= i < |pieces| ==> Proper(parse, pieces[i])) && ReadsHeaders(luck, 0, pieces)
    ensures Framed(parse, luck, Place(StreamOf(pieces), 0)).packets == PacketsAmong(pieces)
  {
    PacketsAmongNoise(parse, luck, pieces, [], 0);
    assert StreamOf(pieces) + [] == StreamOf(pieces);
    assert Framed(parse, luck, Place([], 0 + HeadersAmong(pieces))) == Stream([], Closed);
  }

  /** What the server has put into the stream as packets, between whatever noise and unparsable headers, reaches the
      default node. */
  method ForwardStream(service: Service.DefaultService, luck: Luck, pieces: seq<Piece>, chunk: nat -> nat)
    requires service.Valid() && service.q.contents == []
    requires forall i :: 0 <= i < |pieces| ==> Proper(service.codec.parse, pieces[i])
    requires ReadsHeaders(luck, 0, pieces)
    modifies service`calls, service.registry.Repr, service.net`sends, service.q.Repr, service.looper
    ensures service.Valid() && service.q.contents == []
    ensures old(service.net.sends) <= service.net.sends
    ensures old(service.State()).default != "" && |PacketsAmong(pieces)| <= service.q.qSize ==>
      SentOn(service.net.sends[|old(service.net.sends)|..], old(service.State()).default, PacketsAmong(pieces))
  {
    var conn := new NodeNetwork.Connection(StreamOf(pieces), chunk);
    WholeStream(service.codec.parse, luck, pieces);
    ListenAndServe(service, luck, conn);
  }
}
