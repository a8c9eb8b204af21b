/** What DefaultService::processMessage does to the service's state, one queue item at a time. */
module ServiceTable {
  import opened Bytes
  import opened Messages
  import opened Xml
  import opened Delivery
  import opened NodeTable
  import Packet
  import XmlLists

  const LOCAL_ROUTER_NAME := "nodebus.local.router.defaultrouter"
  const DEFAULT_NODE_NAME := "nodebus.local.node.default"
  const USB_NOT_READY_TEXT := "{\"id\":\"2\",\"text\":\"No USB Storage Device\"}"

  /** The text format, which send attempts arrive, and whether the n-th thing asked of the outside
      world (connecting to the server, opening a file on the USB storage) works. */
  datatype World = World(codec: Codec, arrives: Outcome, outside: nat -> bool)

  function Delivers(w: World): (o: Outcome) { Reported(w.arrives) }

  /** The registry, the default node ("" for none), the send attempts and the outside calls so far. */
  datatype Service = Service(nodes: seq<Node>, default: string, sends: seq<Send>, calls: nat)

  /** After an item: go on with the next one, return early, or run into the null list of an empty LIST reply. */
  datatype Ending = Continue | Return | Fault

  function SendTo(s: Service, target: string, payload: seq<byte>, kind: int): (r: Service) {
    s.(sends := s.sends + [Send(target, payload, kind)])
  }

  function DropNode(s: Service, name: string): (r: Service) {
    s.(nodes := Dropped(s.nodes, name),
       default := if HasName(s.nodes, name) && s.default == name then "" else s.default)
  }

  /** join of a local node: the same name is dropped first, also as the default node. */
  function JoinNode(s: Service, name: string): (r: Service) {
    var d := DropNode(s, name);
    d.(nodes := [Node(name, NODE_ENTRY_LOCAL)] + d.nodes)
  }

  function BroadcastLocal(w: World, s: Service, payload: seq<byte>, kind: int): (r: Service) {
    s.(nodes := Survivors(s.nodes, NODE_ENTRY_LOCAL, OfMessage(Delivers(w), kind, |payload|), |s.sends|),
       sends := s.sends + Attempts(Targets(s.nodes, NODE_ENTRY_LOCAL), payload, kind))
  }

  /** The reply to a LIST request; its list was filled at the front, so it runs backwards. */
  function ListReply(s: Service, d: Document): (r: Document)
    requires d.Bus?
  {
    Bus(NBUS_TYPE_RESPONSE, d.id, d.node, d.syncId, d.buffer, XmlLists.Reverse(Names(s.nodes)))
  }

  function HandleList(w: World, s: Service, d: Document): (r: (Service, Ending))
    requires d.Bus?
  {
    if s.nodes == [] then (s, Fault)
    else
      var text := w.codec.render(ListReply(s, d));
      var sent := SendTo(s, d.node, text, LOCAL_MESSAGE);
      (if Delivers(w)(|s.sends|, LOCAL_MESSAGE, |text|) then sent else DropNode(sent, d.node), Continue)
  }

  /** The packet that reports READY to the server; its header announces no data. */
  function ReadyPacket(codec: Codec): (p: seq<byte>) {
    if |codec.ready| <= INT_MAX then Packet.PacketBytes(StrNCpy(codec.ready), []) else []
  }

  predicate ReadyParses(codec: Codec) {
    |codec.ready| <= INT_MAX && codec.parse(StrNCpy(codec.ready)) == Some(Event(0))
  }

  /** REGISTER: once connected, the router and the default node join, and READY goes to the router. */
  function HandleRegister(w: World, s: Service): (r: Service) {
    var t := s.(calls := s.calls + 1);
    if !w.outside(s.calls) then t
    else
      var joined := JoinNode(JoinNode(t, LOCAL_ROUTER_NAME), DEFAULT_NODE_NAME);
      SendTo(joined.(default := DEFAULT_NODE_NAME), LOCAL_ROUTER_NAME, ReadyPacket(w.codec), LOCAL_MESSAGE)
  }

  /** SAVE_USB and LOGCAT_USB: without a storage device a notice is broadcast; with one a process is forked. */
  function HandleUsb(w: World, s: Service): (r: Service) {
    var t := s.(calls := s.calls + 1);
    if w.outside(s.calls) then t else BroadcastLocal(w, t, Ascii(USB_NOT_READY_TEXT), JSON_MESSAGE)
  }

  function HandleBus(w: World, s: Service, d: Document): (r: (Service, Ending))
    requires d.Bus?
  {
    if d.kind == NBUS_TYPE_REQUEST then
      if d.id == NBUS_CMD_JOIN then (JoinNode(s, d.node), Continue)
      else if d.id == NBUS_CMD_LIST then HandleList(w, s, d)
      else if d.id == NBUS_CMD_DROP then (DropNode(s, d.node), Continue)
      else if d.id == NBUS_CMD_REGISTER then (HandleRegister(w, s), Continue)
      else if d.id == NBUS_CMD_SAVE_USB || d.id == NBUS_CMD_LOGCAT_USB then (HandleUsb(w, s), Continue)
      else (s, Continue)
    else if d.kind == NBUS_TYPE_EVENT && d.id == NBUS_EVENT_SET_DEFAULT_NODE then (s.(default := d.node), Continue)
    else (s, Continue)
  }

  function Handle(w: World, s: Service, item: Item): (r: (Service, Ending)) {
    if !item.HasData() then (s, Return)
    else if item.kind == LOCAL_MESSAGE then
      match w.codec.parse(item.payload)
      case None => (s, Return)
      case Some(d) => if d.Bus? then HandleBus(w, s, d) else (s, Continue)
    else if item.kind == GLOBAL_MESSAGE then
      (if s.default != "" then SendTo(s, s.default, item.payload, GLOBAL_MESSAGE) else s, Continue)
    else if IsBroadcastKind(item.kind) then (BroadcastLocal(w, s, item.payload, item.kind), Continue)
    else (s, Continue)
  }

  /** The state, the items left in the queue and the outcome of one processMessage that nobody interferes with. */
  datatype Drained = Drained(service: Service, rest: seq<Item>, outcome: Ending)

  function Drain(w: World, s: Service, items: seq<Item>): (r: Drained)
    decreases |items|
  {
    if items == [] then Drained(s, [], Continue)
    else
      var (t, outcome) := Handle(w, s, items[0]);
      if outcome == Continue then Drain(w, t, items[1..]) else Drained(t, items[1..], outcome)
  }

  // ----- names stay distinct -----

  lemma JoinNodeKeepsUnique(s: Service, name: string)
    requires Unique(s.nodes)
    ensures Unique(JoinNode(s, name).nodes) && JoinNode(s, name).nodes == Joined(s.nodes, Node(name, NODE_ENTRY_LOCAL))
  {
    JoinPutsFirst(s.nodes, Node(name, NODE_ENTRY_LOCAL));
  }

  lemma BroadcastKeepsUnique(w: World, s: Service, payload: seq<byte>, kind: int)
    requires Unique(s.nodes)
    ensures Unique(BroadcastLocal(w, s, payload, kind).nodes)
  {
    SurvivorsUnique(s.nodes, NODE_ENTRY_LOCAL, OfMessage(Delivers(w), kind, |payload|), |s.sends|);
  }

  lemma RegisterKeepsUnique(w: World, s: Service)
    requires Unique(s.nodes)
    ensures Unique(HandleRegister(w, s).nodes) && s.sends <= HandleRegister(w, s).sends
  {
    var t := s.(calls := s.calls + 1);
    JoinNodeKeepsUnique(t, LOCAL_ROUTER_NAME);
    JoinNodeKeepsUnique(JoinNode(t, LOCAL_ROUTER_NAME), DEFAULT_NODE_NAME);
  }

  lemma HandleBusKeepsUnique(w: World, s: Service, d: Document)
    requires Unique(s.nodes) && d.Bus?
    ensures Unique(HandleBus(w, s, d).0.nodes)
    ensures s.sends <= HandleBus(w, s, d).0.sends
  {
    DropFilters(s.nodes, d.node);
    if d.kind == NBUS_TYPE_REQUEST {
      if d.id == NBUS_CMD_JOIN {
        JoinNodeKeepsUnique(s, d.node);
      } else if d.id == NBUS_CMD_REGISTER {
        RegisterKeepsUnique(w, s);
      } else if d.id == NBUS_CMD_SAVE_USB || d.id == NBUS_CMD_LOGCAT_USB {
        BroadcastKeepsUnique(w, s.(calls := s.calls + 1), Ascii(USB_NOT_READY_TEXT), JSON_MESSAGE);
      }
    }
  }

  /** Whatever the item, names stay unique and the attempts are only added to. */
  lemma HandleKeepsUnique(w: World, s: Service, item: Item)
    requires Unique(s.nodes)
    ensures Unique(Handle(w, s, item).0.nodes)
    ensures s.sends <= Handle(w, s, item).0.sends
  {
    if item.kind == LOCAL_MESSAGE {
      match w.codec.parse(item.payload)
      case None =>
      case Some(d) => if d.Bus? { HandleBusKeepsUnique(w, s, d); }
    } else {
      BroadcastKeepsUnique(w, s, item.payload, item.kind);
    }
  }

  /** One processMessage keeps names unique and consumes a front part of the queue: all of it, unless it stops early. */
  lemma {:induction false} DrainKeepsUnique(w: World, s: Service, items: seq<Item>)
    requires Unique(s.nodes)
    ensures var r := Drain(w, s, items);
      && Unique(r.service.nodes) && s.sends <= r.service.sends
      && |r.rest| <= |items| && r.rest == items[|items| - |r.rest|..]
      && (r.outcome == Continue ==> r.rest == [])
      && (items != [] ==> |r.rest| < |items|)
    decreases |items|
  {
    if items != [] {
      HandleKeepsUnique(w, s, items[0]);
      var (t, outcome) := Handle(w, s, items[0]);
      if outcome == Continue {
        DrainKeepsUnique(w, t, items[1..]);
      }
    }
  }

  // ----- the life of a service as a run of registry operations -----

  function BusOps(w: World, s: Service, d: Document): (ops: seq<Op>)
    requires d.Bus?
  {
    if d.kind != NBUS_TYPE_REQUEST then []
    else if d.id == NBUS_CMD_JOIN then [Op.Join(d.node, NODE_ENTRY_LOCAL)]
    else if d.id == NBUS_CMD_LIST then
      (if s.nodes == [] then [] else [Op.Reply(d.node, LOCAL_MESSAGE, |w.codec.render(ListReply(s, d))|)])
    else if d.id == NBUS_CMD_DROP then [Op.Drop(d.node)]
    else if d.id == NBUS_CMD_REGISTER && w.outside(s.calls) then
      [Op.Join(LOCAL_ROUTER_NAME, NODE_ENTRY_LOCAL), Op.Join(DEFAULT_NODE_NAME, NODE_ENTRY_LOCAL), Forward]
    else if (d.id == NBUS_CMD_SAVE_USB || d.id == NBUS_CMD_LOGCAT_USB) && !w.outside(s.calls) then
      [Broadcast(NODE_ENTRY_LOCAL, JSON_MESSAGE, |Ascii(USB_NOT_READY_TEXT)|)]
    else []
  }

  /** What an item amounts to for the registry. */
  function OpsOf(w: World, s: Service, item: Item): (ops: seq<Op>) {
    if !item.HasData() then []
    else if item.kind == LOCAL_MESSAGE then
      match w.codec.parse(item.payload)
      case None => []
      case Some(d) => if d.Bus? then BusOps(w, s, d) else []
    else if item.kind == GLOBAL_MESSAGE then (if s.default != "" then [Forward] else [])
    else if IsBroadcastKind(item.kind) then [Broadcast(NODE_ENTRY_LOCAL, item.kind, |item.payload|)]
    else []
  }

  /** The service after these items, whichever calls of processMessage have popped them. */
  function Handled(w: World, s: Service, items: seq<Item>): (r: Service) {
    if items == [] then s
    else Handle(w, Handled(w, s, items[..|items| - 1]), items[|items| - 1]).0
  }

  function Started(self: string): (s: Service) { JoinNode(Service([], "", [], 0), self) }

  /** A service that starts with its own registration, followed by what the items amount to. */
  function Ops(w: World, self: string, items: seq<Item>): (ops: seq<Op>) {
    if items == [] then [Op.Join(self, NODE_ENTRY_LOCAL)]
    else
      var front := items[..|items| - 1];
      Ops(w, self, front) + OpsOf(w, Handled(w, Started(self), front), items[|items| - 1])
  }

  /** The part of the service's state that the registry operations speak of. */
  function Table(s: Service): (t: State) { State(s.nodes, |s.sends|) }

  lemma ApplyOne(t: State, op: Op, delivers: Outcome)
    ensures ApplyAll(t, [op], delivers) == Apply(t, op, delivers)
  {
    assert [op][1..] == [];
  }

  lemma RegisterIsOps(w: World, s: Service)
    requires w.outside(s.calls)
    ensures Table(HandleRegister(w, s)) == ApplyAll(Table(s),
      [Op.Join(LOCAL_ROUTER_NAME, NODE_ENTRY_LOCAL), Op.Join(DEFAULT_NODE_NAME, NODE_ENTRY_LOCAL), Forward],
      Delivers(w))
  {
    var a, b := Op.Join(LOCAL_ROUTER_NAME, NODE_ENTRY_LOCAL), Op.Join(DEFAULT_NODE_NAME, NODE_ENTRY_LOCAL);
    assert [a, b, Forward][1..] == [b, Forward] && [b, Forward][1..] == [Forward];
    ApplyOne(Apply(Apply(Table(s), a, Delivers(w)), b, Delivers(w)), Forward, Delivers(w));
  }

  lemma HandleBusIsOps(w: World, s: Service, d: Document)
    requires d.Bus?
    ensures Table(HandleBus(w, s, d).0) == ApplyAll(Table(s), BusOps(w, s, d), Delivers(w))
  {
    var ops := BusOps(w, s, d);
    if d.kind == NBUS_TYPE_REQUEST && d.id == NBUS_CMD_REGISTER && w.outside(s.calls) {
      RegisterIsOps(w, s);
    } else if ops != [] {
      ApplyOne(Table(s), ops[0], Delivers(w));
      assert ops == [ops[0]];
    }
  }

  lemma HandleIsOps(w: World, s: Service, item: Item)
    ensures Table(Handle(w, s, item).0) == ApplyAll(Table(s), OpsOf(w, s, item), Delivers(w))
  {
    var ops := OpsOf(w, s, item);
    if item.kind == LOCAL_MESSAGE {
      match w.codec.parse(item.payload)
      case None =>
      case Some(d) => if d.Bus? { HandleBusIsOps(w, s, d); }
    } else if ops != [] {
      ApplyOne(Table(s), ops[0], Delivers(w));
      assert ops == [ops[0]];
    }
  }

  /** Whatever is sent to a service, its registry is that of a run of registry operations. */
  lemma {:induction false} ServiceLifeIsRun(w: World, self: string, items: seq<Item>)
    ensures Table(Handled(w, Started(self), items)) == Run(Ops(w, self, items), Delivers(w))
  {
    if items == [] {
      var op := Op.Join(self, NODE_ENTRY_LOCAL);
      assert Run([], Delivers(w)) == State([], 0);
      RunConcat([], [op], Delivers(w));
      ApplyOne(State([], 0), op, Delivers(w));
      assert [] + [op] == [op];
      assert Dropped([], self) == [];
    } else {
      var front := items[..|items| - 1];
      var s := Handled(w, Started(self), front);
      ServiceLifeIsRun(w, self, front);
      HandleIsOps(w, s, items[|items| - 1]);
      RunConcat(Ops(w, self, front), OpsOf(w, s, items[|items| - 1]), Delivers(w));
    }
  }

  /** So a node is registered exactly when its last join has not been undone by a drop,
      a failed broadcast attempt or a failed reply. */
  lemma RegisteredForLife(w: World, self: string, items: seq<Item>, n: Node)
    ensures var ops := Ops(w, self, items);
      n in Handled(w, Started(self), items).nodes <==> exists k :: 0 <= k < |ops| && JoinedAt(ops, Delivers(w), k, n)
  {
    ServiceLifeIsRun(w, self, items);
    RegisteredIffJoined(Ops(w, self, items), Delivers(w), n);
  }

  // ----- one call of processMessage -----

  lemma {:induction false} HandledConcat(w: World, s: Service, a: seq<Item>, b: seq<Item>)
    ensures Handled(w, s, a + b) == Handled(w, Handled(w, s, a), b)
    decreases |b|
  {
    if b == [] {
      assert a + b == a;
    } else {
      assert (a + b)[..|a + b| - 1] == a + b[..|b| - 1];
      HandledConcat(w, s, a, b[..|b| - 1]);
    }
  }

  lemma HandledFirst(w: World, s: Service, items: seq<Item>, k: nat)
    requires k < |items|
    ensures Handled(w, s, items[..k + 1]) == Handled(w, Handle(w, s, items[0]).0, items[1..][..k])
  {
    assert [items[0]][..0] == [];
    assert Handled(w, s, [items[0]]) == Handle(w, s, items[0]).0;
    assert items[..k + 1] == [items[0]] + items[1..][..k];
    HandledConcat(w, s, [items[0]], items[1..][..k]);
  }

  /** One processMessage handles exactly the items it takes off the queue. */
  lemma {:induction false} DrainHandlesWhatItTakes(w: World, s: Service, items: seq<Item>)
    requires Unique(s.nodes)
    ensures var r := Drain(w, s, items);
      |r.rest| <= |items| && r.service == Handled(w, s, items[..|items| - |r.rest|])
    decreases |items|
  {
    DrainKeepsUnique(w, s, items);
    if items != [] {
      var (t, outcome) := Handle(w, s, items[0]);
      if outcome == Continue {
        HandleKeepsUnique(w, s, items[0]);
        DrainHandlesWhatItTakes(w, t, items[1..]);
        HandledFirst(w, s, items, |items[1..]| - |Drain(w, t, items[1..]).rest|);
      } else {
        HandledFirst(w, s, items, 0);
      }
    }
  }

  // ----- the null list of an empty LIST reply -----

  predicate IsListRequest(codec: Codec, item: Item) {
    && item.HasData() && item.kind == LOCAL_MESSAGE
    && match codec.parse(item.payload)
       case Some(Bus(kind, id, _, _, _, _)) => kind == NBUS_TYPE_REQUEST && id == NBUS_CMD_LIST
       case _ => false
  }

  /** Items that end a processMessage early without a fault. */
  predicate StopsEarly(codec: Codec, item: Item) {
    !item.HasData() || (item.kind == LOCAL_MESSAGE && codec.parse(item.payload).None?)
  }

  /** The loop reaches item k, which is a LIST request, when the registry is empty. */
  ghost predicate FaultsAt(w: World, s: Service, items: seq<Item>, k: nat)
    requires k < |items|
  {
    && IsListRequest(w.codec, items[k]) && Handled(w, s, items[..k]).nodes == []
    && forall j :: 0 <= j < k ==> Passes(w, s, items, j)
  }

  predicate Passes(w: World, s: Service, items: seq<Item>, j: nat)
    requires j < |items|
  {
    !StopsEarly(w.codec, items[j]) && !(IsListRequest(w.codec, items[j]) && Handled(w, s, items[..j]).nodes == [])
  }

  lemma OutcomeOf(w: World, s: Service, item: Item)
    ensures Handle(w, s, item).1 == Return <==> StopsEarly(w.codec, item)
    ensures Handle(w, s, item).1 == Fault <==> IsListRequest(w.codec, item) && s.nodes == []
  {
  }

  /** processMessage runs into the null list exactly when it gets to a LIST request while the registry is empty. */
  lemma {:induction false} FaultIffEmptyList(w: World, s: Service, items: seq<Item>)
    ensures Drain(w, s, items).outcome == Fault <==> exists k :: 0 <= k < |items| && FaultsAt(w, s, items, k)
    decreases |items|
  {
    if items != [] {
      var (t, outcome) := Handle(w, s, items[0]);
      var rest := items[1..];
      OutcomeOf(w, s, items[0]);
      assert items[..0] == [];
      if outcome == Continue {
        FaultIffEmptyList(w, t, rest);
        forall j | 0 <= j < |rest|
          ensures Handled(w, s, items[..j + 1]) == Handled(w, t, rest[..j])
        {
          HandledFirst(w, s, items, j);
        }
        assert forall j :: 0 <= j < |rest| ==> Passes(w, s, items, j + 1) == Passes(w, t, rest, j);
        if k :| 0 <= k < |rest| && FaultsAt(w, t, rest, k) {
          FaultShift(w, s, items, k);
        }
        if k :| 0 <= k < |items| && FaultsAt(w, s, items, k) {
          assert k > 0;
          FaultShift(w, s, items, k - 1);
        }
      } else {
        assert outcome == Fault ==> FaultsAt(w, s, items, 0);
        assert forall k :: 0 < k < |items| && FaultsAt(w, s, items, k) ==> Passes(w, s, items, 0);
      }
    }
  }

  lemma FaultShift(w: World, s: Service, items: seq<Item>, k: nat)
    requires k + 1 < |items| && Handle(w, s, items[0]).1 == Continue
    ensures FaultsAt(w, s, items, k + 1) <==> FaultsAt(w, Handle(w, s, items[0]).0, items[1..], k)
  {
    var t, rest := Handle(w, s, items[0]).0, items[1..];
    OutcomeOf(w, s, items[0]);
    forall j | 0 <= j < |rest|
      ensures Handled(w, s, items[..j + 1]) == Handled(w, t, rest[..j])
    {
      HandledFirst(w, s, items, j);
    }
    assert items[..0] == [];
    assert Passes(w, s, items, 0);
    assert forall j :: 0 <= j < |rest| ==> Passes(w, s, items, j + 1) == Passes(w, t, rest, j);
    assert forall j :: 0 < j < k + 1 ==> Passes(w, s, items, j) == Passes(w, t, rest, j - 1);
  }

  /** It does happen: a service that is asked to drop itself and then to list its nodes. */
  lemma EmptyListIsReachable(w: World, self: string, drop: Item, list: Item)
    requires drop.kind == LOCAL_MESSAGE && drop.HasData()
    requires match w.codec.parse(drop.payload)
      case Some(Bus(kind, id, node, _, _, _)) => kind == NBUS_TYPE_REQUEST && id == NBUS_CMD_DROP && node == self
      case _ => false
    requires IsListRequest(w.codec, list)
    ensures Drain(w, Started(self), [drop, list]).outcome == Fault
  {
    var s := Started(self);
    assert s.nodes == [Node(self, NODE_ENTRY_LOCAL)] + Dropped([], self);
    assert [drop, list][1..] == [list];
    var t := Handle(w, s, drop).0;
    assert t.nodes == [];
    OutcomeOf(w, t, list);
  }
}
