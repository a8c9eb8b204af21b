/** The bus service: registry, queue and the message loop of service/DefaultService.cpp. */
module Service {
  import opened Bytes
  import opened Messages
  import opened Xml
  import opened CmdQueue
  import opened Looper
  import opened Delivery
  import opened NodeTable
  import opened Registry
  import opened ServiceTable
  import Packet
  import ServiceLaws
  import XmlLists

  class DefaultService {
    const codec: Codec
    const registry: NodeRegistry
    const q: NbusCmdQueue
    const looper: NodeLooper
    const net: Network
    const outside: nat -> bool
    var calls: nat
    var initialized: bool

    ghost predicate Valid()
      reads this, registry, registry.Repr, q, q.Repr
    {
      && ReadyParses(codec)
      && registry.Valid() && q.Valid() && registry.Repr !! q.Repr
      && this !in registry.Repr + q.Repr && net !in registry.Repr + q.Repr && looper !in registry.Repr + q.Repr
    }

    ghost function State(): (s: ServiceTable.Service)
      reads this, registry, net
    {
      ServiceTable.Service(registry.Nodes(), registry.defaultNode, net.sends, calls)
    }

    ghost function Surroundings(): (w: World) {
      World(codec, Arrives(net.reach), outside)
    }

    constructor (codec: Codec, capacity: nat, reach: Reach, outside: nat -> bool)
      requires capacity > 0 && ReadyParses(codec)
      ensures Valid() && State() == ServiceTable.Service([], "", [], 0) && q.contents == [] && !initialized
    {
      this.codec := codec;
      registry := new NodeRegistry();
      q := new NbusCmdQueue(capacity);
      looper := new NodeLooper();
      net := new Network(reach);
      this.outside, calls := outside, 0;
      initialized := false;
    }

    /** Coordinator::localAction: unlike a node's, it never queues SETUP, which comes without data. */
    method LocalAction(data: Option<seq<byte>>, length: nat, kind: int) returns (r: int)
      requires Valid() && (data.Some? ==> |data.value| == length)
      modifies this`initialized, q.Repr, looper
      ensures Valid() && fresh(q.Repr - old(q.Repr)) && State() == old(State())
      ensures initialized == (old(initialized) || kind == SETUP_MESSAGE)
      ensures if data.None? || length == 0
              then r == -1 && q.contents == old(q.contents) && looper.pipe == old(looper.pipe)
              else r == 0 && q.contents == Enqueued(old(q.contents), q.qSize, Item(data.value, 0, kind))
                   && looper.pipe == old(looper.pipe) + [Wake]
    {
      if kind == SETUP_MESSAGE {
        initialized := true;
      }
      var item := new NbusCmd.Sized(length);
      if data.None? {
        return -1;
      }
      if length == 0 {
        return -1;
      }
      forall i | 0 <= i < length { item.data[i] := data.value[i]; }
      assert item.data[..] == data.value;
      item.kind := kind;
      var _ := q.Push(item);
      looper.Wakeup();
      r := 0;
    }

    /** The start of run: the service registers itself as a local node. */
    method Run(serviceName: string)
      requires Valid()
      modifies registry.Repr
      ensures Valid() && q.contents == old(q.contents)
      ensures State() == JoinNode(old(State()), serviceName)
    {
      JoinLocal(serviceName);
    }

    method JoinLocal(name: string)
      requires Valid()
      modifies registry.Repr
      ensures Valid() && fresh(registry.Repr - old(registry.Repr))
      ensures State() == JoinNode(old(State()), name)
    {
      var _ := registry.Join(Some(name), NODE_ENTRY_LOCAL);
    }

    method SetDefaultNode(name: string)
      requires Valid()
      modifies registry`defaultNode
      ensures Valid() && State() == old(State()).(default := name)
    {
      registry.defaultNode := name;
    }

    /** The reply to a LIST request, or None where toXML would walk the null list of an empty reply. */
    method MakeReply(d: Document) returns (text: Option<Document>)
      requires Valid() && d.Bus? && d.id == NBUS_CMD_LIST
      ensures text == if State().nodes == [] then None else Some(ListReply(State(), d))
    {
      var nbusXml := new XmlLists.NbusXml();
      nbusXml.kind, nbusXml.syncId, nbusXml.id := NBUS_TYPE_RESPONSE, d.syncId, d.id;
      nbusXml.buffer, nbusXml.node := d.buffer, d.node;
      registry.ListNodes(nbusXml);
      if nbusXml.list.head == null {
        return None;
      }
      var reply := nbusXml.ToXml();
      text := Some(reply);
    }

    /** A LIST request: the reply is sent to the named node, which is dropped if it cannot be reached. */
    method List(d: Document) returns (outcome: Ending)
      requires Valid() && d.Bus? && d.kind == NBUS_TYPE_REQUEST && d.id == NBUS_CMD_LIST
      modifies this`calls, registry.Repr, net`sends
      ensures Valid() && registry.Repr == old(registry.Repr)
      ensures (State(), outcome) == HandleList(Surroundings(), old(State()), d)
    {
      var text := MakeReply(d);
      if text.None? {
        return Fault;
      }
      var res, _ := net.SendNodeMessage(d.node, codec.render(text.value), LOCAL_MESSAGE);
      if res < 0 {
        var _ := registry.Drop(Some(d.node));
      }
      outcome := Continue;
    }

    /** Something asked of the outside world. */
    method CallOutside() returns (works: bool)
      modifies this`calls
      ensures calls == old(calls) + 1 && works == outside(old(calls))
    {
      works := outside(calls);
      calls := calls + 1;
    }

    /** The READY event as a packet without data. */
    method MakeReady() returns (bytes: seq<byte>)
      requires ReadyParses(codec)
      ensures bytes == ReadyPacket(codec)
    {
      var packet := new Packet.NbusPacket(codec.parse);
      var _, _ := packet.CopyHeader(codec.ready);
      packet.CompletedIsWhole(StrNCpy(codec.ready), []);
      bytes := packet.packet[..];
    }

    /** REGISTER: with a connection to the server, the router and the default node join; READY goes to the router. */
    method Register()
      requires Valid()
      modifies this`calls, registry.Repr, net`sends
      ensures Valid() && fresh(registry.Repr - old(registry.Repr))
      ensures State() == HandleRegister(Surroundings(), old(State()))
    {
      var connected := CallOutside();
      if connected {
        JoinLocal(LOCAL_ROUTER_NAME);
        JoinLocal(DEFAULT_NODE_NAME);
        SetDefaultNode(DEFAULT_NODE_NAME);
        var ready := MakeReady();
        var _, _ := net.SendNodeMessage(LOCAL_ROUTER_NAME, ready, LOCAL_MESSAGE);
      }
    }

    /** SAVE_USB and LOGCAT_USB: without a storage device every local node gets a notice. */
    method UsbRequest()
      requires Valid()
      modifies this`calls, registry.Repr, net`sends
      ensures Valid() && registry.Repr == old(registry.Repr)
      ensures State() == HandleUsb(Surroundings(), old(State()))
    {
      var ready := CallOutside();
      if !ready {
        var _ := registry.Broadcast(Some(Ascii(USB_NOT_READY_TEXT)), NODE_ENTRY_LOCAL, JSON_MESSAGE, net);
      }
    }

    method BusMessage(d: Document) returns (outcome: Ending)
      requires Valid() && d.Bus?
      modifies this`calls, registry.Repr, net`sends
      ensures Valid() && fresh(registry.Repr - old(registry.Repr))
      ensures (State(), outcome) == HandleBus(Surroundings(), old(State()), d)
    {
      outcome := Continue;
      if d.kind == NBUS_TYPE_REQUEST {
        if d.id == NBUS_CMD_JOIN {
          JoinLocal(d.node);
        } else if d.id == NBUS_CMD_LIST {
          outcome := List(d);
        } else if d.id == NBUS_CMD_DROP {
          var _ := registry.Drop(Some(d.node));
        } else if d.id == NBUS_CMD_REGISTER {
          Register();
        } else if d.id == NBUS_CMD_SAVE_USB || d.id == NBUS_CMD_LOGCAT_USB {
          UsbRequest();
        }
      } else if d.kind == NBUS_TYPE_EVENT && d.id == NBUS_EVENT_SET_DEFAULT_NODE {
        SetDefaultNode(d.node);
      }
    }

    /** One item of the loop. */
    method ProcessItem(item: NbusCmd) returns (outcome: Ending)
      requires Valid() && item.Valid()
      modifies this`calls, registry.Repr, net`sends
      ensures Valid() && fresh(registry.Repr - old(registry.Repr))
      ensures (State(), outcome) == Handle(Surroundings(), old(State()), old(item.Value()))
      ensures old(net.sends) <= net.sends
      ensures ServiceLaws.Adds(Surroundings(), old(State()), old(item.Value()), net.sends[|old(net.sends)|..])
    {
      ghost var added := ServiceLaws.SendsOfItem(Surroundings(), State(), item.Value());
      assert (net.sends + added)[|net.sends|..] == added;
      var valid := item.IsValid();
      if !valid {
        return Return;
      }
      var payload := item.data[..];
      outcome := Continue;
      if item.kind == LOCAL_MESSAGE {
        var pXml := codec.parse(payload);
        if pXml.None? {
          return Return;
        }
        if pXml.value.Bus? {
          outcome := BusMessage(pXml.value);
        }
      } else if item.kind == GLOBAL_MESSAGE {
        if registry.defaultNode != "" {
          var _, _ := net.SendNodeMessage(registry.defaultNode, payload, GLOBAL_MESSAGE);
        }
      } else if IsBroadcastKind(item.kind) {
        var _ := registry.Broadcast(Some(payload), NODE_ENTRY_LOCAL, item.kind, net);
      }
    }

    /** processMessage while nobody else pushes: the loop over the queue with its early returns. */
    method ProcessMessage() returns (outcome: Ending)
      requires Valid()
      modifies this`calls, registry.Repr, net`sends, q.Repr
      ensures Valid()
      ensures Drained(State(), q.contents, outcome) == Drain(Surroundings(), old(State()), old(q.contents))
    {
      outcome := Continue;
      var size := q.GetSize();
      while size > 0
        invariant Valid() && fresh(registry.Repr - old(registry.Repr)) && fresh(q.Repr - old(q.Repr))
        invariant size == |q.contents| && outcome == Continue
        invariant Drain(Surroundings(), State(), q.contents)
               == Drain(Surroundings(), old(State()), old(q.contents))
        decreases size
      {
        var pItem := q.Pop();
        outcome := ProcessItem(pItem);
        if outcome != Continue {
          return;
        }
        size := q.GetSize();
      }
    }
  }
}
