/** A client of the service (service/INodeBusService.cpp): it sends to a node, and has the node dropped
    when that fails. */
module Client {
  import opened Bytes
  import opened Messages
  import opened Xml
  import opened Delivery
  import opened NodeTable
  import opened ServiceTable
  import NodeNetwork

  function DropRequest(name: string): (d: Document) {
    Bus(NBUS_TYPE_REQUEST, NBUS_CMD_DROP, name, -1, "", [])
  }

  function DropText(codec: Codec, name: string): (text: seq<byte>) {
    codec.render(DropRequest(name))
  }

  /** The attempts that a cast makes: the message, and if it is reported lost, a DROP request to the service. */
  function CastSends(service: string, codec: Codec, delivers: Outcome, at: nat,
                     name: string, manifest: seq<byte>, kind: int): (s: seq<Send>) {
    [Send(name, manifest, kind)] +
    if delivers(at, kind, |manifest|) then [] else [Send(service, DropText(codec, name), LOCAL_MESSAGE)]
  }

  class NodeBusService {
    const service: string
    const codec: Codec
    const net: Network

    constructor (service: string, codec: Codec, net: Network)
      ensures this.service == service && this.codec == codec && this.net == net
    {
      this.service, this.codec, this.net := service, codec, net;
    }

    /** Whatever becomes of the request, 0 is returned. */
    method Drop(name: Option<string>) returns (r: int)
      modifies net`sends
      ensures r == if name.None? then -1 else 0
      ensures net.sends == old(net.sends) +
        if name.None? then [] else [Send(service, DropText(codec, name.value), LOCAL_MESSAGE)]
    {
      if name.None? {
        return -1;
      }
      var _, _ := net.SendNodeMessage(service, DropText(codec, name.value), LOCAL_MESSAGE);
      r := 0;
    }

    method Cast(name: Option<string>, manifest: Option<seq<byte>>, kind: int) returns (r: int)
      modifies net`sends
      ensures r == if name.None? || manifest.None? then -1 else 0
      ensures net.sends == old(net.sends) +
        if name.None? || manifest.None? then []
        else CastSends(service, codec, net.Delivers(), old(|net.sends|), name.value, manifest.value, kind)
      ensures name.Some? && manifest.Some? ==>
        |net.sends| > old(|net.sends|) && net.sends[old(|net.sends|)] == Send(name.value, manifest.value, kind)
    {
      if name.None? {
        return -1;
      }
      if manifest.None? {
        return -1;
      }
      var sent, _ := net.SendNodeMessage(name.value, manifest.value, kind);
      if sent < 0 {
        var _ := this.Drop(name);
      }
      r := 0;
    }
  }

  /** The node that a cast names gets exactly the message, with its bytes and type, if the first attempt arrives. */
  lemma CastReachesNode(service: string, codec: Codec, delivers: Outcome, arrives: Outcome, at: nat,
                        name: string, manifest: seq<byte>, kind: int)
    requires name != service && kind != KILL_MESSAGE && 0 < |manifest| < INT_MAX
    ensures Arrivals(name, arrives, CastSends(service, codec, delivers, at, name, manifest, kind), at)
      == if arrives(at, kind, |manifest|) then [Item(manifest, 0, kind)] else []
  {
    var cast, request := Send(name, manifest, kind), Send(service, DropText(codec, name), LOCAL_MESSAGE);
    assert [cast][1..] == [] && [cast, request][1..] == [request] && [request][1..] == [];
    assert Arrivals(name, arrives, [request], at + 1) == [];
  }

  /** The registry after the service has handled what a cast asks of it. */
  function AfterCast(w: World, s: Service, service: string, arrives: Outcome, at: nat,
                     name: string, manifest: seq<byte>, kind: int): (r: Service) {
    var sends := CastSends(service, w.codec, Reported(arrives), at, name, manifest, kind);
    Handled(w, s, Arrivals(service, arrives, sends[1..], at + 1))
  }

  /** A cast unregisters its node, and nobody else, exactly when it is reported lost and the service hears of that. */
  lemma CastDropsIff(w: World, s: Service, service: string, arrives: Outcome, at: nat,
                     name: string, manifest: seq<byte>, kind: int)
    requires Unique(s.nodes) && 0 < |DropText(w.codec, name)| < INT_MAX
    requires w.codec.parse(DropText(w.codec, name)) == Some(DropRequest(name))
    ensures forall n :: n in AfterCast(w, s, service, arrives, at, name, manifest, kind).nodes <==>
      n in s.nodes &&
        (|| n.name != name || Reported(arrives)(at, kind, |manifest|)
         || !arrives(at + 1, LOCAL_MESSAGE, |DropText(w.codec, name)|))
  {
    if !Reported(arrives)(at, kind, |manifest|) {
      var request := Send(service, DropText(w.codec, name), LOCAL_MESSAGE);
      assert [Send(name, manifest, kind), request][1..] == [request];
      OneRequest(w, s, service, arrives, at + 1, name);
      DropFilters(s.nodes, name);
    }
  }

  lemma OneRequest(w: World, s: Service, service: string, arrives: Outcome, at: nat, name: string)
    requires 0 < |DropText(w.codec, name)| < INT_MAX
    requires w.codec.parse(DropText(w.codec, name)) == Some(DropRequest(name))
    ensures var text := DropText(w.codec, name);
      Handled(w, s, Arrivals(service, arrives, [Send(service, text, LOCAL_MESSAGE)], at))
        == if arrives(at, LOCAL_MESSAGE, |text|) then DropNode(s, name) else s
  {
    var text := DropText(w.codec, name);
    var request, item := Send(service, text, LOCAL_MESSAGE), Item(text, 0, LOCAL_MESSAGE);
    assert [request][1..] == [];
    assert [item][..0] == [];
    if arrives(at, LOCAL_MESSAGE, |text|) {
      assert Arrivals(service, arrives, [request], at) == [item];
      assert Handled(w, s, [item]) == Handle(w, s, item).0;
    }
  }

  /** So a node that got the message whole stays registered exactly if the message does not fill whole pages. */
  lemma WholePageCastDrops(w: World, s: Service, service: string, arrives: Outcome, at: nat, n: Node,
                           manifest: seq<byte>, kind: int)
    requires Unique(s.nodes) && n in s.nodes && 0 < |DropText(w.codec, n.name)| < INT_MAX
    requires w.codec.parse(DropText(w.codec, n.name)) == Some(DropRequest(n.name))
    requires arrives(at, kind, |manifest|) && arrives(at + 1, LOCAL_MESSAGE, |DropText(w.codec, n.name)|)
    ensures n in AfterCast(w, s, service, arrives, at, n.name, manifest, kind).nodes <==>
      kind == KILL_MESSAGE || |manifest| % NodeNetwork.SOCK_PAGE_SIZE != 0
  {
    CastDropsIff(w, s, service, arrives, at, n.name, manifest, kind);
  }
}
