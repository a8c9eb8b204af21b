/** What every item does to a service, said of the item and not of the code that handles it
    (service/DefaultService.cpp:389-738). */
module ServiceLaws {
  import opened Bytes
  import opened Messages
  import opened Xml
  import opened Delivery
  import opened NodeTable
  import opened ServiceTable
  import Packet

  // ----- kinds of items -----

  predicate IsGlobal(item: Item) { item.HasData() && item.kind == GLOBAL_MESSAGE }

  predicate IsRelayed(item: Item) {
    && item.HasData()
    && (item.kind == BC_LOCAL_MESSAGE || item.kind == BC_JSON_MESSAGE || item.kind == BC_MICOM_MESSAGE)
  }

  /** A LOCAL message whose text is a nodebus document. */
  predicate IsBus(codec: Codec, item: Item) {
    && item.HasData() && item.kind == LOCAL_MESSAGE
    && codec.parse(item.payload).Some? && codec.parse(item.payload).value.Bus?
  }

  function DocOf(codec: Codec, item: Item): (d: Document)
    requires IsBus(codec, item)
    ensures d.Bus?
  {
    codec.parse(item.payload).value
  }

  predicate IsRequest(codec: Codec, item: Item, id: int) {
    IsBus(codec, item) && DocOf(codec, item).kind == NBUS_TYPE_REQUEST && DocOf(codec, item).id == id
  }

  predicate IsUsb(codec: Codec, item: Item) {
    IsRequest(codec, item, NBUS_CMD_SAVE_USB) || IsRequest(codec, item, NBUS_CMD_LOGCAT_USB)
  }

  predicate SetsDefault(codec: Codec, item: Item) {
    && IsBus(codec, item)
    && DocOf(codec, item).kind == NBUS_TYPE_EVENT && DocOf(codec, item).id == NBUS_EVENT_SET_DEFAULT_NODE
  }

  /** Whether the item asks something of the outside world. */
  predicate AsksOutside(codec: Codec, item: Item) {
    IsRequest(codec, item, NBUS_CMD_REGISTER) || IsUsb(codec, item)
  }

  function Asked(codec: Codec, items: seq<Item>): (n: nat) {
    if items == [] then 0
    else Asked(codec, items[..|items| - 1]) + if AsksOutside(codec, items[|items| - 1]) then 1 else 0
  }

  /** The text that answers a LIST request, for a registry of these nodes: their names from the last to the first. */
  ghost predicate IsListAnswer(codec: Codec, d: Document, nodes: seq<Node>, text: seq<byte>)
    requires d.Bus?
  {
    exists names: seq<string> ::
      && |names| == |nodes| && (forall i :: 0 <= i < |nodes| ==> names[i] == nodes[|nodes| - 1 - i].name)
      && text == codec.render(Bus(NBUS_TYPE_RESPONSE, d.id, d.node, d.syncId, d.buffer, names))
  }

  lemma ListAnswer(codec: Codec, d: Document, s: Service)
    requires d.Bus?
    ensures IsListAnswer(codec, d, s.nodes, codec.render(ListReply(s, d)))
  {
    var names := ListReply(s, d).nodes;
    assert forall i :: 0 <= i < |names| ==> names[i] == s.nodes[|names| - 1 - i].name;
  }

  // ----- what is sent -----

  /** Each of these names is sent the same message, in order. */
  predicate ToAll(added: seq<Send>, names: seq<string>, payload: seq<byte>, kind: int) {
    |added| == |names| && forall i :: 0 <= i < |names| ==> added[i] == Send(names[i], payload, kind)
  }

  ghost predicate Adds(w: World, s: Service, item: Item, added: seq<Send>) {
    && (IsGlobal(item) ==>
          added == if s.default != "" then [Send(s.default, item.payload, GLOBAL_MESSAGE)] else [])
    && (IsRelayed(item) ==> ToAll(added, Targets(s.nodes, NODE_ENTRY_LOCAL), item.payload, item.kind))
    && (IsRequest(w.codec, item, NBUS_CMD_LIST) && s.nodes != [] ==>
          var d := DocOf(w.codec, item);
          |added| == 1 && added[0].target == d.node && added[0].kind == LOCAL_MESSAGE
          && IsListAnswer(w.codec, d, s.nodes, added[0].payload))
    && (IsRequest(w.codec, item, NBUS_CMD_REGISTER) && w.outside(s.calls) ==>
          added == [Send(LOCAL_ROUTER_NAME, ReadyPacket(w.codec), LOCAL_MESSAGE)])
    && (IsUsb(w.codec, item) && !w.outside(s.calls) ==>
          ToAll(added, Targets(s.nodes, NODE_ENTRY_LOCAL), Ascii(USB_NOT_READY_TEXT), JSON_MESSAGE))
    && (SendsNothing(w, s, item) ==> added == [])
  }

  predicate SendsNothing(w: World, s: Service, item: Item) {
    && !IsGlobal(item) && !IsRelayed(item)
    && !(IsRequest(w.codec, item, NBUS_CMD_LIST) && s.nodes != [])
    && !(IsRequest(w.codec, item, NBUS_CMD_REGISTER) && w.outside(s.calls))
    && !(IsUsb(w.codec, item) && !w.outside(s.calls))
  }

  /** Every item adds exactly the attempts that its kind calls for. */
  lemma SendsOfItem(w: World, s: Service, item: Item) returns (added: seq<Send>)
    ensures Handle(w, s, item).0.sends == s.sends + added && Adds(w, s, item, added)
  {
    var r := Handle(w, s, item).0;
    var targets := Targets(s.nodes, NODE_ENTRY_LOCAL);
    assert s.sends + [] == s.sends;
    if IsRelayed(item) {
      added := Attempts(targets, item.payload, item.kind);
    } else if IsGlobal(item) {
      added := if s.default != "" then [Send(s.default, item.payload, GLOBAL_MESSAGE)] else [];
    } else if IsRequest(w.codec, item, NBUS_CMD_LIST) && s.nodes != [] {
      var d := DocOf(w.codec, item);
      ListAnswer(w.codec, d, s);
      added := [Send(d.node, w.codec.render(ListReply(s, d)), LOCAL_MESSAGE)];
    } else if IsRequest(w.codec, item, NBUS_CMD_REGISTER) && w.outside(s.calls) {
      added := [Send(LOCAL_ROUTER_NAME, ReadyPacket(w.codec), LOCAL_MESSAGE)];
    } else if IsUsb(w.codec, item) && !w.outside(s.calls) {
      added := Attempts(targets, Ascii(USB_NOT_READY_TEXT), JSON_MESSAGE);
    } else {
      added := [];
    }
  }

  /** READY is a packet that its receiver recognises as an event without data, unless its header is too long for it. */
  lemma ReadyIsEvent(codec: Codec)
    requires ReadyParses(codec)
    ensures Packet.ParsePacket(codec.parse, ReadyPacket(codec)) ==
      if |codec.ready| <= INT_MAX - Packet.PREFIX_LENGTH
      then Packet.Recognised(Packet.Parsed(StrNCpy(codec.ready), [], Event(0)))
      else Packet.Undefined
  {
    StrNCpyTwice(codec.ready);
    Packet.PacketOutcome(codec.parse, StrNCpy(codec.ready), [], []);
    assert ReadyPacket(codec) + [] == ReadyPacket(codec);
  }

  // ----- the default node -----

  /** REGISTER, with a server that can be reached, makes the default node the default. */
  predicate Registers(w: World, calls: nat, item: Item) {
    IsRequest(w.codec, item, NBUS_CMD_REGISTER) && w.outside(calls)
  }

  predicate MakesDefault(w: World, calls: nat, item: Item, n: string) {
    || (SetsDefault(w.codec, item) && DocOf(w.codec, item).node == n)
    || (Registers(w, calls, item) && n == DEFAULT_NODE_NAME)
  }

  /** The item drops the name n: a JOIN or DROP request for it, or a LIST request whose answer does not reach it. */
  ghost predicate DropsName(w: World, t: State, item: Item, n: string) {
    || (IsRequest(w.codec, item, NBUS_CMD_JOIN) && DocOf(w.codec, item).node == n)
    || (IsRequest(w.codec, item, NBUS_CMD_DROP) && DocOf(w.codec, item).node == n)
    || (IsRequest(w.codec, item, NBUS_CMD_LIST) && DocOf(w.codec, item).node == n && t.nodes != []
        && exists text: seq<byte> :: IsListAnswer(w.codec, DocOf(w.codec, item), t.nodes, text)
             && !Delivers(w)(t.sent, LOCAL_MESSAGE, |text|))
  }

  /** What an item does to the default node n of a service with these nodes and so many attempts and calls behind it. */
  ghost predicate EndsDefault(w: World, t: State, calls: nat, item: Item, n: string) {
    || SetsDefault(w.codec, item) || Registers(w, calls, item)
    || (HasName(t.nodes, n) && DropsName(w, t, item, n))
  }

  lemma AnswerIsUnique(codec: Codec, d: Document, nodes: seq<Node>, a: seq<byte>, b: seq<byte>)
    requires d.Bus? && IsListAnswer(codec, d, nodes, a) && IsListAnswer(codec, d, nodes, b)
    ensures a == b
  {
    var m: seq<string> :| |m| == |nodes| && (forall i :: 0 <= i < |nodes| ==> m[i] == nodes[|nodes| - 1 - i].name)
      && a == codec.render(Bus(NBUS_TYPE_RESPONSE, d.id, d.node, d.syncId, d.buffer, m));
    var n: seq<string> :| |n| == |nodes| && (forall i :: 0 <= i < |nodes| ==> n[i] == nodes[|nodes| - 1 - i].name)
      && b == codec.render(Bus(NBUS_TYPE_RESPONSE, d.id, d.node, d.syncId, d.buffer, n));
    assert m == n;
  }

  lemma ListDrops(w: World, s: Service, item: Item)
    requires IsRequest(w.codec, item, NBUS_CMD_LIST) && s.nodes != []
    ensures var d := DocOf(w.codec, item);
      DropsName(w, Table(s), item, d.node)
      <==> !Delivers(w)(|s.sends|, LOCAL_MESSAGE, |w.codec.render(ListReply(s, d))|)
  {
    var d := DocOf(w.codec, item);
    var answer := w.codec.render(ListReply(s, d));
    ListAnswer(w.codec, d, s);
    forall text: seq<byte> | IsListAnswer(w.codec, d, s.nodes, text)
      ensures text == answer
    {
      AnswerIsUnique(w.codec, d, s.nodes, text, answer);
    }
  }

  /** After an item n is the default node iff the item makes it so, or it was and the item does not end that. */
  lemma DefaultOfItem(w: World, s: Service, item: Item, n: string)
    requires n != ""
    ensures Handle(w, s, item).0.default == n <==>
      MakesDefault(w, s.calls, item, n) || (s.default == n && !EndsDefault(w, Table(s), s.calls, item, n))
  {
    if IsRequest(w.codec, item, NBUS_CMD_LIST) && s.nodes != [] {
      ListDrops(w, s, item);
    }
  }

  /** Each thing asked of the outside counts once. */
  lemma CallsOfItem(w: World, s: Service, item: Item)
    ensures Handle(w, s, item).0.calls == s.calls + if AsksOutside(w.codec, item) then 1 else 0
  {
  }

  lemma {:induction false} CallsAreAsked(w: World, self: string, items: seq<Item>)
    ensures Handled(w, Started(self), items).calls == Asked(w.codec, items)
  {
    if items != [] {
      var front := items[..|items| - 1];
      CallsAreAsked(w, self, front);
      CallsOfItem(w, Handled(w, Started(self), front), items[|items| - 1]);
    }
  }

  /** The registry before item k of a life, and how many attempts have been made, as the run of registry operations
      tells them. */
  function Before(w: World, self: string, items: seq<Item>, k: nat): (t: State)
    requires k <= |items|
  {
    Run(Ops(w, self, items[..k]), Delivers(w))
  }

  /** Item k makes n the default node. */
  predicate MadeDefault(w: World, items: seq<Item>, k: nat, n: string)
    requires k < |items|
  {
    MakesDefault(w, Asked(w.codec, items[..k]), items[k], n)
  }

  /** Item k makes another node the default, or drops n while n is registered. */
  ghost predicate Unmade(w: World, self: string, items: seq<Item>, k: nat, n: string)
    requires k < |items|
  {
    EndsDefault(w, Before(w, self, items, k), Asked(w.codec, items[..k]), items[k], n)
  }

  /** Item k has made n the default node, and nothing has changed that since. */
  ghost predicate LastMade(w: World, self: string, items: seq<Item>, k: nat, n: string)
    requires k < |items|
  {
    MadeDefault(w, items, k, n) && forall m :: k < m < |items| ==> !Unmade(w, self, items, m, n)
  }

  /** What holds after a sequence of events, each of which may make it so and may undo it, holds by the last that has
      made it so. */
  ghost predicate Follows(holds: nat -> bool, made: nat -> bool, unmade: nat -> bool, k: nat) {
    holds(k + 1) <==> made(k) || (holds(k) && !unmade(k))
  }

  lemma {:induction false} LastEvent(holds: nat -> bool, made: nat -> bool, unmade: nat -> bool, n: nat)
    requires !holds(0) && forall k :: 0 <= k < n ==> Follows(holds, made, unmade, k)
    ensures holds(n) <==> exists k :: 0 <= k < n && made(k) && forall m :: k < m < n ==> !unmade(m)
  {
    if n > 0 {
      LastEvent(holds, made, unmade, n - 1);
      assert Follows(holds, made, unmade, n - 1);
      if k: nat :| k < n - 1 && made(k) && forall m :: k < m < n - 1 ==> !unmade(m) {
        assert holds(n - 1);
      }
    }
  }

  lemma DefaultAfter(w: World, self: string, items: seq<Item>, k: nat, n: string)
    requires k < |items| && n != ""
    ensures Handled(w, Started(self), items[..k + 1]).default == n
      <==> (MadeDefault(w, items, k, n)
            || (Handled(w, Started(self), items[..k]).default == n && !Unmade(w, self, items, k, n)))
  {
    var s := Handled(w, Started(self), items[..k]);
    assert items[..k + 1][..k] == items[..k];
    DefaultOfItem(w, s, items[k], n);
    ServiceLifeIsRun(w, self, items[..k]);
    CallsAreAsked(w, self, items[..k]);
  }

  /** In every life of a service, n is the default node exactly if a SET_DEFAULT_NODE event or a REGISTER has made it so
      that no later one and no drop or re-join of n has undone. */
  lemma DefaultIff(w: World, self: string, items: seq<Item>, n: string)
    requires n != ""
    ensures Handled(w, Started(self), items).default == n
      <==> exists k :: 0 <= k < |items| && LastMade(w, self, items, k, n)
  {
    ghost var holds := (k: nat) => k <= |items| && Handled(w, Started(self), items[..k]).default == n;
    ghost var made := (k: nat) => k < |items| && MadeDefault(w, items, k, n);
    ghost var unmade := (k: nat) => k < |items| && Unmade(w, self, items, k, n);
    forall k | 0 <= k < |items|
      ensures Follows(holds, made, unmade, k)
    {
      DefaultAfter(w, self, items, k, n);
    }
    LastEvent(holds, made, unmade, |items|);
    assert items[..0] == [] && items[..|items|] == items;
    forall k | 0 <= k < |items|
      ensures LastMade(w, self, items, k, n) <==> made(k) && forall m :: k < m < |items| ==> !unmade(m)
    {
      assert forall m :: k < m < |items| ==> unmade(m) == Unmade(w, self, items, m, n);
    }
  }

  // ----- forwarding -----

  /** Item k of a life is forwarded to n: it is a packet from the network, and n is the default node by then. */
  ghost predicate ForwardedTo(w: World, self: string, items: seq<Item>, k: nat, n: string)
    requires k < |items|
  {
    && IsGlobal(items[k]) && n != ""
    && exists j :: 0 <= j < k && LastMade(w, self, items[..k], j, n)
  }

  /** Every GLOBAL item adds exactly one attempt, with its bytes and on the node that is the default by then, and none
      if there is no such node. */
  lemma GlobalIsForwarded(w: World, self: string, items: seq<Item>, k: nat)
    requires k < |items| && IsGlobal(items[k])
    ensures var before := Handled(w, Started(self), items[..k]).sends;
      var after := Handled(w, Started(self), items[..k + 1]).sends;
      && (forall n :: ForwardedTo(w, self, items, k, n) ==>
            after == before + [Send(n, items[k].payload, GLOBAL_MESSAGE)])
      && ((forall n :: !ForwardedTo(w, self, items, k, n)) ==> after == before)
  {
    var s := Handled(w, Started(self), items[..k]);
    assert items[..k + 1][..k] == items[..k];
    var added := SendsOfItem(w, s, items[k]);
    forall n
      ensures ForwardedTo(w, self, items, k, n) <==> n != "" && s.default == n
    {
      if n != "" {
        DefaultIff(w, self, items[..k], n);
      }
    }
    if s.default != "" {
      assert ForwardedTo(w, self, items, k, s.default);
    }
    assert s.sends + [] == s.sends;
  }

  /** The attempts on behalf of the network. */
  function GlobalSends(sends: seq<Send>): (r: seq<Send>) {
    if sends == [] then []
    else
      var last := |sends| - 1;
      GlobalSends(sends[..last]) + if sends[last].kind == GLOBAL_MESSAGE then [sends[last]] else []
  }

  lemma {:induction false} GlobalSendsConcat(a: seq<Send>, b: seq<Send>)
    ensures GlobalSends(a + b) == GlobalSends(a) + GlobalSends(b)
    decreases |b|
  {
    if b == [] {
      assert a + b == a;
    } else {
      assert (a + b)[..|a + b| - 1] == a + b[..|b| - 1];
      GlobalSendsConcat(a, b[..|b| - 1]);
    }
  }

  lemma {:induction false} NoGlobalSends(sends: seq<Send>)
    requires forall i :: 0 <= i < |sends| ==> sends[i].kind != GLOBAL_MESSAGE
    ensures GlobalSends(sends) == []
  {
    if sends != [] {
      NoGlobalSends(sends[..|sends| - 1]);
    }
  }

  /** The packets of a life that find a default node, each with the node it finds. */
  ghost predicate AreForwards(w: World, self: string, items: seq<Item>, sends: seq<Send>)
    decreases |items|
  {
    if items == [] then sends == []
    else
      var last := |items| - 1;
      if exists n :: ForwardedTo(w, self, items, last, n) then
        && sends != [] && AreForwards(w, self, items[..last], sends[..|sends| - 1])
        && ForwardedTo(w, self, items, last, sends[|sends| - 1].target)
        && sends[|sends| - 1] == Send(sends[|sends| - 1].target, items[last].payload, GLOBAL_MESSAGE)
      else AreForwards(w, self, items[..last], sends)
  }

  /** In every life, the attempts with GLOBAL messages are the packets from the network that found a default node: once
      each, in order, byte for byte, and on the node that was the default by then. */
  lemma {:induction false} LifeForwards(w: World, self: string, items: seq<Item>)
    ensures AreForwards(w, self, items, GlobalSends(Handled(w, Started(self), items).sends))
    decreases |items|
  {
    if items != [] {
      var last := |items| - 1;
      var front := items[..last];
      var s := Handled(w, Started(self), front);
      LifeForwards(w, self, front);
      var added := SendsOfItem(w, s, items[last]);
      GlobalSendsConcat(s.sends, added);
      if IsGlobal(items[last]) {
        GlobalIsForwarded(w, self, items, last);
        assert items[..last + 1] == items;
        assert added == [] || (added[..0] == [] && GlobalSends(added) == [added[0]]);
        ForwardsStep(w, self, items, GlobalSends(s.sends), added);
      } else {
        NoGlobalSends(added);
        assert GlobalSends(s.sends) + [] == GlobalSends(s.sends);
      }
    }
  }

  lemma ForwardsStep(w: World, self: string, items: seq<Item>, sends: seq<Send>, added: seq<Send>)
    requires items != [] && AreForwards(w, self, items[..|items| - 1], sends)
    requires var last := |items| - 1;
      && (forall n :: ForwardedTo(w, self, items, last, n) ==> added == [Send(n, items[last].payload, GLOBAL_MESSAGE)])
      && ((forall n :: !ForwardedTo(w, self, items, last, n)) ==> added == [])
    ensures AreForwards(w, self, items, sends + added)
  {
    var last := |items| - 1;
    if n :| ForwardedTo(w, self, items, last, n) {
      assert (sends + added)[..|sends + added| - 1] == sends;
    } else {
      assert sends + added == sends;
    }
  }

  // ----- the registry -----

  /** A broadcast of this message has an attempt on n that fails. */
  ghost predicate LostBy(w: World, s: Service, payload: seq<byte>, kind: int, n: Node) {
    Loses(s.nodes, NODE_ENTRY_LOCAL, OfMessage(Delivers(w), kind, |payload|), |s.sends|, n)
  }

  /** No request for the registry, and no broadcast. */
  predicate LeavesNodes(w: World, s: Service, item: Item) {
    && !IsRequest(w.codec, item, NBUS_CMD_JOIN) && !IsRequest(w.codec, item, NBUS_CMD_DROP)
    && !IsRequest(w.codec, item, NBUS_CMD_LIST) && !Registers(w, s.calls, item)
    && !IsRelayed(item) && !(IsUsb(w.codec, item) && !w.outside(s.calls))
  }

  /** Which entries an item leaves, brings and takes. */
  lemma NodesOfItem(w: World, s: Service, item: Item, n: Node)
    requires Unique(s.nodes)
    ensures var r := Handle(w, s, item).0.nodes;
      && (IsRequest(w.codec, item, NBUS_CMD_JOIN) ==>
            var name := DocOf(w.codec, item).node;
            && r[..1] == [Node(name, NODE_ENTRY_LOCAL)]
            && (n in r[1..] <==> n in s.nodes && n.name != name))
      && (IsRequest(w.codec, item, NBUS_CMD_DROP) ==> (n in r <==> n in s.nodes && n.name != DocOf(w.codec, item).node))
      && (Registers(w, s.calls, item) ==>
            && r[..2] == [Node(DEFAULT_NODE_NAME, NODE_ENTRY_LOCAL), Node(LOCAL_ROUTER_NAME, NODE_ENTRY_LOCAL)]
            && (n in r[2..] <==> n in s.nodes && n.name != DEFAULT_NODE_NAME && n.name != LOCAL_ROUTER_NAME))
      && (IsRelayed(item) ==> (n in r <==> n in s.nodes && !LostBy(w, s, item.payload, item.kind, n)))
      && (IsUsb(w.codec, item) && !w.outside(s.calls) ==>
            (n in r <==> n in s.nodes && !LostBy(w, s, Ascii(USB_NOT_READY_TEXT), JSON_MESSAGE, n)))
      && (IsRequest(w.codec, item, NBUS_CMD_LIST) ==>
            (n in r <==> n in s.nodes && !DropsName(w, Table(s), item, n.name)))
      && (LeavesNodes(w, s, item) ==> r == s.nodes)
  {
    if IsRequest(w.codec, item, NBUS_CMD_JOIN) {
      JoinPutsFirst(s.nodes, Node(DocOf(w.codec, item).node, NODE_ENTRY_LOCAL));
    } else if IsRequest(w.codec, item, NBUS_CMD_DROP) {
      DropFilters(s.nodes, DocOf(w.codec, item).node);
    } else if Registers(w, s.calls, item) {
      assert |LOCAL_ROUTER_NAME| != |DEFAULT_NODE_NAME|;
      JoinedTwice(s.(calls := s.calls + 1), LOCAL_ROUTER_NAME, DEFAULT_NODE_NAME, n);
    } else if IsRelayed(item) {
      SurvivesUnlessLost(s.nodes, NODE_ENTRY_LOCAL, OfMessage(Delivers(w), item.kind, |item.payload|), |s.sends|, n);
    } else if IsUsb(w.codec, item) {
      SurvivesUnlessLost(s.nodes, NODE_ENTRY_LOCAL,
                         OfMessage(Delivers(w), JSON_MESSAGE, |Ascii(USB_NOT_READY_TEXT)|), |s.sends|, n);
    } else if IsRequest(w.codec, item, NBUS_CMD_LIST) && s.nodes != [] {
      ListDrops(w, s, item);
      DropFilters(s.nodes, DocOf(w.codec, item).node);
    }
  }

  lemma JoinedTwice(s: Service, a: string, b: string, n: Node)
    requires Unique(s.nodes) && a != b
    ensures var r := JoinNode(JoinNode(s, a), b).nodes;
      && r[..2] == [Node(b, NODE_ENTRY_LOCAL), Node(a, NODE_ENTRY_LOCAL)]
      && (n in r[2..] <==> n in s.nodes && n.name != a && n.name != b)
  {
    var first, rest := Node(a, NODE_ENTRY_LOCAL), Dropped(s.nodes, a);
    DropFilters(s.nodes, a);
    DropFilters(rest, b);
    assert ([first] + rest)[1..] == rest;
    assert JoinNode(JoinNode(s, a), b).nodes == [Node(b, NODE_ENTRY_LOCAL), first] + Dropped(rest, b);
  }
}
