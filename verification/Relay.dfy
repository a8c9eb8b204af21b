/** The service as a node of its own bus (service/DefaultService.cpp:126): a relayed broadcast comes back to it. */
module Relay {
  import opened Bytes
  import opened Messages
  import opened Xml
  import opened CmdQueue
  import opened Delivery
  import opened NodeTable
  import opened ServiceTable
  import NodeAdapter
  import NodeNetwork
  import Rendezvous
  import ServiceLaws
  import XmlLists

  // ----- a LIST request from the service to the waiting caller -----

  /** The text in the caller's buffer names the registered nodes in registry order: the reply is built by
      front insertion at the service and parsed by front insertion at the caller. */
  lemma ListTextIsRegistryOrder(codec: Codec, s: Service, d: Document)
    requires d.Bus? && d.id == NBUS_CMD_LIST && d.syncId > 0 && s.nodes != []
    requires codec.parse(codec.render(ListReply(s, d))) == Some(ListReply(s, d))
    requires NodeAdapter.XML_START <= codec.render(ListReply(s, d))
    ensures var text := codec.render(ListReply(s, d).(nodes := Names(s.nodes)));
      && NodeAdapter.EffectOf(codec, Item(codec.render(ListReply(s, d)), 0, LOCAL_MESSAGE))
           == NodeAdapter.Reply(d.syncId, d.buffer, text)
      && forall serial ::
           text == Rendezvous.ListText(codec, d.syncId, Rendezvous.Call(serial, d.buffer, d.node), s.nodes)
  {
    var reply := ListReply(s, d);
    XmlLists.ReverseTwice(Names(s.nodes));
    assert NodeAdapter.Reprinted(reply) == reply.(nodes := Names(s.nodes));
  }

  /** So the one attempt that answers a LIST request is on the node it names, and there it yields the caller's reply:
      the names of the registered nodes in registry order, in the buffer and for the call that the request names. */
  lemma ListReachesCaller(w: World, s: Service, item: Item)
    requires ServiceLaws.IsRequest(w.codec, item, NBUS_CMD_LIST) && s.nodes != []
    requires var d := ServiceLaws.DocOf(w.codec, item); var text := w.codec.render(ListReply(s, d));
      d.syncId > 0 && w.codec.parse(text) == Some(ListReply(s, d)) && NodeAdapter.XML_START <= text
    ensures var d, sends := ServiceLaws.DocOf(w.codec, item), Handle(w, s, item).0.sends;
      var answer := Bus(NBUS_TYPE_RESPONSE, NBUS_CMD_LIST, d.node, d.syncId, d.buffer, Names(s.nodes));
      && |sends| == |s.sends| + 1 && s.sends <= sends
      && sends[|s.sends|].target == d.node && sends[|s.sends|].kind == LOCAL_MESSAGE
      && NodeAdapter.Yields(w.codec, Item(sends[|s.sends|].payload, 0, LOCAL_MESSAGE),
                            NodeAdapter.Reply(d.syncId, d.buffer, w.codec.render(answer)))
  {
    var d := ServiceLaws.DocOf(w.codec, item);
    var added := ServiceLaws.SendsOfItem(w, s, item);
    ServiceLaws.ListAnswer(w.codec, d, s);
    ServiceLaws.AnswerIsUnique(w.codec, d, s.nodes, added[0].payload, w.codec.render(ListReply(s, d)));
    ListTextIsRegistryOrder(w.codec, s, d);
    NodeAdapter.EffectYields(w.codec, Item(w.codec.render(ListReply(s, d)), 0, LOCAL_MESSAGE));
  }

  // ----- the page loop and the registry -----

  predicate FillsPages(payload: seq<byte>) {
    |payload| % NodeNetwork.SOCK_PAGE_SIZE == 0
  }

  /** An attempt of a broadcast is reported a success when it arrives and the payload does not fill whole pages. */
  lemma OutcomeOfBroadcast(w: World, payload: seq<byte>, kind: int)
    requires IsBroadcastKind(kind)
    ensures forall n: nat ::
      OfMessage(Delivers(w), kind, |payload|)(n) == (w.arrives(n, kind, |payload|) && !FillsPages(payload))
  {
  }

  /** Whatever the network does, a broadcast that fills whole pages unregisters every local node and nobody else. */
  lemma WholePagesUnregisterAll(w: World, s: Service, payload: seq<byte>, kind: int)
    requires IsBroadcastKind(kind) && FillsPages(payload) && Unique(s.nodes)
    ensures var r := BroadcastLocal(w, s, payload, kind);
      && Targets(r.nodes, NODE_ENTRY_LOCAL) == []
      && forall n :: n in r.nodes <==> n in s.nodes && n.kind != NODE_ENTRY_LOCAL
  {
    var delivers := OfMessage(Delivers(w), kind, |payload|);
    OutcomeOfBroadcast(w, payload, kind);
    SurvivorsUniform(s.nodes, NODE_ENTRY_LOCAL, delivers, |s.sends|, false);
    SurvivorsUnique(s.nodes, NODE_ENTRY_LOCAL, delivers, |s.sends|);
    forall n | n in BroadcastLocal(w, s, payload, kind).nodes
      ensures n.kind != NODE_ENTRY_LOCAL
    {
      TargetsMeaning(BroadcastLocal(w, s, payload, kind).nodes, NODE_ENTRY_LOCAL, n.name);
    }
  }

  /** Where every one of its attempts arrives, a broadcast leaves the registry alone exactly when its payload
      does not fill whole pages or nobody is addressed. */
  lemma BroadcastOnHealthyNetwork(w: World, s: Service, payload: seq<byte>, kind: int)
    requires IsBroadcastKind(kind) && Unique(s.nodes)
    requires forall n :: |s.sends| <= n < |s.sends| + |Targets(s.nodes, NODE_ENTRY_LOCAL)| ==>
      w.arrives(n, kind, |payload|)
    ensures BroadcastLocal(w, s, payload, kind).nodes == s.nodes
      <==> !FillsPages(payload) || Targets(s.nodes, NODE_ENTRY_LOCAL) == []
  {
    var delivers := OfMessage(Delivers(w), kind, |payload|);
    OutcomeOfBroadcast(w, payload, kind);
    if !FillsPages(payload) || Targets(s.nodes, NODE_ENTRY_LOCAL) == [] {
      SurvivorsUniform(s.nodes, NODE_ENTRY_LOCAL, delivers, |s.sends|, true);
    } else {
      WholePagesUnregisterAll(w, s, payload, kind);
    }
  }

  // ----- the bus with its own messages in flight -----

  datatype Env = Env(w: World, self: string, capacity: nat)

  /** The service, its queue, and the messages to itself that its coordinator has yet to post. */
  datatype BusState = BusState(service: Service, queue: seq<Item>, flight: seq<Item>)

  datatype Step = HandleNext | Post(i: nat)

  predicate Enabled(s: BusState, t: Step) {
    match t case HandleNext => s.queue != [] case Post(i) => i < |s.flight|
  }

  function Do(env: Env, s: BusState, t: Step): (r: BusState)
    requires Enabled(s, t)
  {
    match t
    case HandleNext =>
      var after := Handle(env.w, s.service, s.queue[0]).0;
      var sent := if s.service.sends <= after.sends then after.sends[|s.service.sends|..] else [];
      BusState(after, Dequeued(s.queue), s.flight + Arrivals(env.self, env.w.arrives, sent, |s.service.sends|))
    case Post(i) =>
      BusState(s.service, Enqueued(s.queue, env.capacity, s.flight[i]), s.flight[..i] + s.flight[i + 1..])
  }

  ghost predicate IsRun(env: Env, from: BusState, steps: seq<Step>)
    decreases |steps|
  {
    steps == [] || (Enabled(from, steps[0]) && IsRun(env, Do(env, from, steps[0]), steps[1..]))
  }

  function After(env: Env, from: BusState, steps: seq<Step>): (s: BusState)
    requires IsRun(env, from, steps)
    decreases |steps|
  {
    if steps == [] then from else After(env, Do(env, from, steps[0]), steps[1..])
  }

  /** A broadcast as a coordinator posts it. */
  predicate Relayable(item: Item) {
    IsBroadcastKind(item.kind) && 0 < |item.payload| < INT_MAX && item.cmd == 0
  }

  ghost predicate Relaying(s: BusState) {
    && Unique(s.service.nodes)
    && (forall x :: x in s.queue ==> Relayable(x)) && forall x :: x in s.flight ==> Relayable(x)
  }

  predicate SelfRegistered(env: Env, s: BusState) {
    Node(env.self, NODE_ENTRY_LOCAL) in s.service.nodes
  }

  /** The number of the attempt by which the next handled broadcast addresses the service itself. */
  function SelfAttempt(env: Env, s: BusState): (n: nat) {
    |s.service.sends| + Index(Targets(s.service.nodes, NODE_ENTRY_LOCAL), env.self)
  }

  function Index(t: seq<string>, name: string): (i: nat)
    ensures i <= |t| && (i < |t| ==> t[i] == name) && (name in t ==> i < |t|)
  {
    if t == [] || t[0] == name then 0 else 1 + Index(t[1..], name)
  }

  // ----- one pass, seen from the service -----

  lemma {:induction false} TargetsMeaning(s: seq<Node>, kind: int, name: string)
    ensures name in Targets(s, kind) <==> Node(name, kind) in s
  {
    if s != [] {
      TargetsMeaning(s[1..], kind, name);
      assert s == [s[0]] + s[1..];
    }
  }

  predicate AllDifferent(t: seq<string>) {
    forall i, j :: 0 <= i < j < |t| ==> t[i] != t[j]
  }

  lemma {:induction false} TargetsDistinct(s: seq<Node>, kind: int)
    requires Unique(s)
    ensures AllDifferent(Targets(s, kind))
  {
    if s != [] {
      TargetsDistinct(s[1..], kind);
      TargetsMeaning(s[1..], kind, s[0].name);
      var rest := Targets(s[1..], kind);
      assert s[0].kind == kind ==> s[0].name !in rest;
      assert forall i :: 0 <= i < |rest| ==> rest[i] in rest;
    }
  }

  /** The service gets its own copy of a pass by the one attempt that addresses it, if that arrives. */
  lemma {:induction false} ArrivalsOfPass(self: string, arrives: Outcome, targets: seq<string>, x: Item, at: nat)
    requires Relayable(x) && AllDifferent(targets)
    ensures Arrivals(self, arrives, Attempts(targets, x.payload, x.kind), at)
      == if self in targets && arrives(at + Index(targets, self), x.kind, |x.payload|) then [x] else []
  {
    if targets != [] {
      var rest := targets[1..];
      ArrivalsOfPass(self, arrives, rest, x, at + 1);
      FirstArrival(self, arrives, targets, x, at);
      if targets[0] == self {
        assert forall i :: 0 <= i < |rest| ==> rest[i] == targets[i + 1] != self;
      } else {
        assert self in targets <==> self in rest;
        assert Index(targets, self) == 1 + Index(rest, self);
      }
    }
  }

  lemma FirstArrival(self: string, arrives: Outcome, targets: seq<string>, x: Item, at: nat)
    requires Relayable(x) && targets != []
    ensures Arrivals(self, arrives, Attempts(targets, x.payload, x.kind), at)
      == (if targets[0] == self && arrives(at, x.kind, |x.payload|) then [x] else [])
         + Arrivals(self, arrives, Attempts(targets[1..], x.payload, x.kind), at + 1)
  {
    var sends := Attempts(targets, x.payload, x.kind);
    assert sends[0] == Send(targets[0], x.payload, x.kind) && sends[1..] == Attempts(targets[1..], x.payload, x.kind);
  }

  /** And it stays registered by the success of that same attempt. */
  lemma {:induction false} SelfSurvives(nodes: seq<Node>, self: string, delivers: nat -> bool, at: nat)
    requires Unique(nodes)
    ensures var targets, me := Targets(nodes, NODE_ENTRY_LOCAL), Node(self, NODE_ENTRY_LOCAL);
      me in Survivors(nodes, NODE_ENTRY_LOCAL, delivers, at) <==> self in targets && delivers(at + Index(targets, self))
  {
    if nodes != [] {
      var first, rest, me := nodes[0], nodes[1..], Node(self, NODE_ENTRY_LOCAL);
      var next := if first.kind == NODE_ENTRY_LOCAL then at + 1 else at;
      SelfSurvives(rest, self, delivers, next);
      FirstSurvivor(nodes, delivers, at, me);
      FirstTarget(nodes, self);
      if first == me {
        SurvivorsUnique(rest, NODE_ENTRY_LOCAL, delivers, next);
      }
    }
  }

  lemma FirstSurvivor(nodes: seq<Node>, delivers: nat -> bool, at: nat, me: Node)
    requires nodes != []
    ensures var next := if nodes[0].kind == NODE_ENTRY_LOCAL then at + 1 else at;
      (me in Survivors(nodes, NODE_ENTRY_LOCAL, delivers, at))
        == ((nodes[0] == me && (me.kind == NODE_ENTRY_LOCAL ==> delivers(at)))
            || me in Survivors(nodes[1..], NODE_ENTRY_LOCAL, delivers, next))
  {
  }

  lemma FirstTarget(nodes: seq<Node>, self: string)
    requires nodes != []
    ensures var targets, rest := Targets(nodes, NODE_ENTRY_LOCAL), Targets(nodes[1..], NODE_ENTRY_LOCAL);
      && targets == (if nodes[0].kind == NODE_ENTRY_LOCAL then [nodes[0].name] + rest else rest)
      && Index(targets, self) ==
           (if nodes[0].kind != NODE_ENTRY_LOCAL then Index(rest, self)
            else if nodes[0].name == self then 0 else 1 + Index(rest, self))
  {
    var rest := Targets(nodes[1..], NODE_ENTRY_LOCAL);
    assert ([nodes[0].name] + rest)[1..] == rest;
  }

  /** Handling a broadcast on any network: the service's copy comes back exactly if the attempt on the service
      itself arrives, and the service stays registered exactly if that attempt is reported a success. */
  lemma SelfRelayStep(env: Env, s: BusState)
    requires Relaying(s) && s.queue != []
    ensures var x, n, r := s.queue[0], SelfAttempt(env, s), Do(env, s, HandleNext);
      && Relaying(r) && r.queue == s.queue[1..]
      && r.flight == s.flight + (if SelfRegistered(env, s) && env.w.arrives(n, x.kind, |x.payload|) then [x] else [])
      && (SelfRegistered(env, r) <==> SelfRegistered(env, s) && Delivers(env.w)(n, x.kind, |x.payload|))
  {
    HandledBroadcast(env, s);
    SelfFlight(env, s, s.queue[0]);
    SelfStays(env, s, s.queue[0]);
  }

  lemma SelfFlight(env: Env, s: BusState, x: Item)
    requires Unique(s.service.nodes) && Relayable(x)
    ensures var targets := Targets(s.service.nodes, NODE_ENTRY_LOCAL);
      Arrivals(env.self, env.w.arrives, Attempts(targets, x.payload, x.kind), |s.service.sends|)
        == if SelfRegistered(env, s) && env.w.arrives(SelfAttempt(env, s), x.kind, |x.payload|) then [x] else []
  {
    var targets, n := Targets(s.service.nodes, NODE_ENTRY_LOCAL), SelfAttempt(env, s);
    TargetsDistinct(s.service.nodes, NODE_ENTRY_LOCAL);
    TargetsMeaning(s.service.nodes, NODE_ENTRY_LOCAL, env.self);
    ArrivalsOfPass(env.self, env.w.arrives, targets, x, |s.service.sends|);
    assert n == |s.service.sends| + Index(targets, env.self);
  }

  lemma SelfStays(env: Env, s: BusState, x: Item)
    requires Unique(s.service.nodes)
    ensures var r := BroadcastLocal(env.w, s.service, x.payload, x.kind).nodes;
      && Unique(r)
      && (Node(env.self, NODE_ENTRY_LOCAL) in r
          <==> SelfRegistered(env, s) && Delivers(env.w)(SelfAttempt(env, s), x.kind, |x.payload|))
  {
    var nodes, at := s.service.nodes, |s.service.sends|;
    var delivers := OfMessage(Delivers(env.w), x.kind, |x.payload|);
    TargetsMeaning(nodes, NODE_ENTRY_LOCAL, env.self);
    SelfSurvives(nodes, env.self, delivers, at);
    SurvivorsUnique(nodes, NODE_ENTRY_LOCAL, delivers, at);
  }

  lemma HandledBroadcast(env: Env, s: BusState)
    requires Relaying(s) && s.queue != []
    ensures var x, r := s.queue[0], Do(env, s, HandleNext);
      && Relayable(x)
      && r.service == BroadcastLocal(env.w, s.service, x.payload, x.kind) && r.queue == s.queue[1..]
      && r.flight == s.flight + Arrivals(env.self, env.w.arrives,
           Attempts(Targets(s.service.nodes, NODE_ENTRY_LOCAL), x.payload, x.kind), |s.service.sends|)
  {
    var x, service := s.queue[0], s.service;
    var attempts := Attempts(Targets(service.nodes, NODE_ENTRY_LOCAL), x.payload, x.kind);
    assert x in s.queue;
    assert (service.sends + attempts)[|service.sends|..] == attempts;
  }

  lemma PostMoves(env: Env, s: BusState, i: nat)
    requires Relaying(s) && i < |s.flight|
    ensures var r := Do(env, s, Post(i));
      && Relaying(r) && r.service == s.service
      && |r.flight| == |s.flight| - 1 && |r.queue| <= |s.queue| + 1 && s.queue <= r.queue
      && (|s.queue| < env.capacity ==> All(r) == All(s))
  {
    assert s.flight == s.flight[..i] + [s.flight[i]] + s.flight[i + 1..];
  }

  /** The broadcasts that are on the bus. */
  function All(s: BusState): (m: multiset<Item>)
    ensures |m| == |s.queue| + |s.flight|
  {
    multiset(s.queue) + multiset(s.flight)
  }

  /** Every handling that is still possible counts; one that comes back counts twice more. */
  function Weight(s: BusState): (n: nat) {
    2 * |s.flight| + |s.queue|
  }

  lemma StepWeighs(env: Env, s: BusState, t: Step)
    requires Relaying(s) && Enabled(s, t)
    ensures var r := Do(env, s, t);
      && Relaying(r)
      && Weight(r) < Weight(s) + (if t.HandleNext? && SelfRegistered(env, s) then 2 else 0)
      && (!SelfRegistered(env, s) ==> !SelfRegistered(env, r))
  {
    match t
    case HandleNext => SelfRelayStep(env, s);
    case Post(i) => PostMoves(env, s, i);
  }

  // ----- nobody routes back: the bus drains -----

  /** With no local entry of the service every run ends, and where it is stuck nothing is left. */
  lemma {:induction false} WithoutSelfRunsEnd(env: Env, from: BusState, steps: seq<Step>)
    requires Relaying(from) && !SelfRegistered(env, from) && IsRun(env, from, steps)
    ensures var s := After(env, from, steps);
      && |steps| + Weight(s) <= Weight(from)
      && !SelfRegistered(env, s)
      && ((forall t :: !Enabled(s, t)) ==> s.queue == [] && s.flight == [])
    decreases |steps|
  {
    if steps == [] {
      if forall t :: !Enabled(from, t) {
        assert !Enabled(from, HandleNext) && !Enabled(from, Post(0));
      }
    } else {
      StepWeighs(env, from, steps[0]);
      WithoutSelfRunsEnd(env, Do(env, from, steps[0]), steps[1..]);
    }
  }

  // ----- the service routes to itself -----

  /** Whenever a broadcast is handled in the run, the attempt on the service itself is reported a success.
      Nothing is said of the attempts on other nodes. */
  ghost predicate SelfAttemptsSucceed(env: Env, from: BusState, steps: seq<Step>)
    requires IsRun(env, from, steps)
    decreases |steps|
  {
    steps != [] ==>
      && (steps[0].HandleNext? ==>
            Delivers(env.w)(SelfAttempt(env, from), from.queue[0].kind, |from.queue[0].payload|))
      && SelfAttemptsSucceed(env, Do(env, from, steps[0]), steps[1..])
  }

  /** The service remains registered exactly as long as it reaches itself. */
  lemma {:induction false} RegisteredIffSelfReached(env: Env, from: BusState, steps: seq<Step>)
    requires Relaying(from) && SelfRegistered(env, from) && IsRun(env, from, steps)
    ensures SelfRegistered(env, After(env, from, steps)) <==> SelfAttemptsSucceed(env, from, steps)
    decreases |steps|
  {
    if steps != [] {
      var next := Do(env, from, steps[0]);
      StepWeighs(env, from, steps[0]);
      if steps[0].HandleNext? {
        SelfRelayStep(env, from);
      }
      if SelfRegistered(env, next) {
        RegisteredIffSelfReached(env, next, steps[1..]);
      } else {
        WithoutSelfRunsEnd(env, next, steps[1..]);
      }
    }
  }

  /** As long as the service reaches itself it relays for ever, whatever becomes of the other nodes: the broadcasts
      on the bus stay the same ones, and as long as there is one some step is enabled. */
  lemma {:induction false} SelfRelayConserves(env: Env, from: BusState, steps: seq<Step>)
    requires Relaying(from) && SelfRegistered(env, from) && |from.queue| + |from.flight| <= env.capacity
    requires IsRun(env, from, steps) && SelfAttemptsSucceed(env, from, steps)
    ensures var s := After(env, from, steps);
      && All(s) == All(from) && SelfRegistered(env, s)
      && (from.queue != [] || from.flight != [] ==> exists t :: Enabled(s, t))
    decreases |steps|
  {
    if steps == [] {
      assert from.queue != [] ==> Enabled(from, HandleNext);
      assert from.flight != [] ==> Enabled(from, Post(0));
    } else {
      var next := Do(env, from, steps[0]);
      SelfRelayKeepsAll(env, from, steps[0]);
      SelfRelayConserves(env, next, steps[1..]);
      assert |All(next)| == |All(from)|;
    }
  }

  lemma SelfRelayKeepsAll(env: Env, s: BusState, t: Step)
    requires Relaying(s) && SelfRegistered(env, s) && |s.queue| + |s.flight| <= env.capacity && Enabled(s, t)
    requires t.HandleNext? ==> Delivers(env.w)(SelfAttempt(env, s), s.queue[0].kind, |s.queue[0].payload|)
    ensures var r := Do(env, s, t); Relaying(r) && SelfRegistered(env, r) && All(r) == All(s)
  {
    match t
    case HandleNext =>
      SelfRelayStep(env, s);
      assert s.queue == [s.queue[0]] + s.queue[1..];
    case Post(i) =>
      PostMoves(env, s, i);
  }

  /** Where the attempts on the service itself arrive, they are reported successes as long as no broadcast
      on the bus fills whole pages, of whatever lengths they are. */
  lemma {:induction false} PartialPagesCirculate(env: Env, from: BusState, steps: seq<Step>)
    requires Relaying(from) && SelfRegistered(env, from) && |from.queue| + |from.flight| <= env.capacity
    requires IsRun(env, from, steps) && SelfAttemptsArrive(env, from, steps)
    requires forall x :: x in All(from) ==> !FillsPages(x.payload)
    ensures All(After(env, from, steps)) == All(from) && SelfAttemptsSucceed(env, from, steps)
    decreases |steps|
  {
    if steps != [] {
      var next := Do(env, from, steps[0]);
      if steps[0].HandleNext? {
        assert from.queue[0] in All(from) && Relayable(from.queue[0]);
      }
      SelfRelayKeepsAll(env, from, steps[0]);
      assert |All(next)| == |All(from)|;
      PartialPagesCirculate(env, next, steps[1..]);
    }
  }

  ghost predicate SelfAttemptsArrive(env: Env, from: BusState, steps: seq<Step>)
    requires IsRun(env, from, steps)
    decreases |steps|
  {
    steps != [] ==>
      && (steps[0].HandleNext? ==>
            env.w.arrives(SelfAttempt(env, from), from.queue[0].kind, |from.queue[0].payload|))
      && SelfAttemptsArrive(env, Do(env, from, steps[0]), steps[1..])
  }

  /** But one queued broadcast that fills whole pages ends the relaying of all of them, on any network: every run
      is bounded, and where it is stuck nothing is left. */
  lemma {:induction false} WholePagesEndRelay(env: Env, from: BusState, steps: seq<Step>, k: nat)
    requires Relaying(from) && k < |from.queue| && FillsPages(from.queue[k].payload) && IsRun(env, from, steps)
    ensures var s := After(env, from, steps);
      && |steps| + Weight(s) <= Weight(from) + 2 * (k + 1)
      && ((forall t :: !Enabled(s, t)) ==> s.queue == [] && s.flight == [])
    decreases |steps|
  {
    if !SelfRegistered(env, from) {
      WithoutSelfRunsEnd(env, from, steps);
    } else if steps == [] {
      assert Enabled(from, HandleNext);
    } else {
      var next := Do(env, from, steps[0]);
      StepWeighs(env, from, steps[0]);
      LinePosition(env, from, steps[0], k);
      if steps[0].HandleNext? && k == 0 {
        WithoutSelfRunsEnd(env, next, steps[1..]);
      } else {
        WholePagesEndRelay(env, next, steps[1..], if steps[0].HandleNext? then k - 1 else k);
      }
    }
  }

  /** A whole-page broadcast moves up the line, and unregisters the service when its turn comes. */
  lemma LinePosition(env: Env, s: BusState, t: Step, k: nat)
    requires Relaying(s) && k < |s.queue| && FillsPages(s.queue[k].payload) && Enabled(s, t)
    ensures var r := Do(env, s, t);
      if t.HandleNext? && k == 0 then !SelfRegistered(env, r)
      else
        var k' := if t.HandleNext? then k - 1 else k;
        k' < |r.queue| && r.queue[k'] == s.queue[k]
  {
    match t
    case Post(i) => PostMoves(env, s, i);
    case HandleNext => SelfRelayStep(env, s);
  }
}
