/** From the senders of a list of messages, over the node's socket, coordinator, queue and dispatcher,
    to what the node does. */
module EndToEnd {
  import opened Bytes
  import opened Messages
  import opened Xml
  import opened CmdQueue
  import opened Looper
  import opened NodeNetwork
  import opened NodeAdapter
  import Dispatcher
  import KillBarrier

  /** A message with the ways its socket takes the writes and its reader is given the bytes. */
  datatype Outgoing = Outgoing(kind: int, data: seq<byte>, step: nat -> int, chunk: nat -> nat)

  predicate Sendable(m: Outgoing) {
    IsType(m.kind) && m.kind != KILL_MESSAGE && |m.data| < INT_MAX
  }

  const KILLED := Callback(KILL_MESSAGE, [])
  const SET_UP := Callback(SETUP_MESSAGE, [])

  /** What the node is called back with for a message: nothing if it is cut on its way, or empty. */
  function Heard(m: Outgoing): (calls: seq<Callback>)
    ensures |calls| <= 1
  {
    if GoesOut(m.step, m.kind, |m.data|) then Message(m.kind, m.data) else []
  }

  function AllHeard(ms: seq<Outgoing>): (calls: seq<Callback>)
    ensures |calls| <= |ms|
  {
    if ms == [] then [] else Heard(ms[0]) + AllHeard(ms[1..])
  }

  /** What a coordinator posts before the KILL, when these messages are sent to it. */
  function CallsBeforeKill(ms: seq<Outgoing>): (calls: seq<Callback>) {
    [SET_UP] + AllHeard(ms)
  }

  lemma {:induction false} HeardCallbacks(ms: seq<Outgoing>)
    requires forall i :: 0 <= i < |ms| ==> Sendable(ms[i])
    ensures forall c :: c in AllHeard(ms) ==> c.kind != KILL_MESSAGE && c.payload != []
  {
    if ms != [] {
      HeardCallbacks(ms[1..]);
    }
  }

  /** The item that the coordinator queues for a callback. */
  function ItemOf(c: Callback): (item: Item) {
    Item(if c.kind == SETUP_MESSAGE then seq(|c.payload|, _ => 0) else c.payload, 0, c.kind)
  }

  function ItemsOf(calls: seq<Callback>): (items: seq<Item>)
    ensures |items| == |calls|
  {
    seq(|calls|, i requires 0 <= i < |calls| => ItemOf(calls[i]))
  }

  // ----- sender to coordinator -----

  /** The connection's bytes are what the sender got out of one message: a front part of its frame. */
  predicate Carries(input: seq<byte>, m: Outgoing) {
    && Sendable(m) && input <= Frame(m.kind, m.data) && CutAtWord(|input|)
    && (input == Frame(m.kind, m.data) <==> GoesOut(m.step, m.kind, |m.data|))
  }

  /** The report is a success exactly if the node hears of the message and that does not fill whole pages. */
  predicate Reports(r: int, m: Outgoing) {
    r == 0 <==> Heard(m) != [] && |m.data| % SOCK_PAGE_SIZE != 0
  }

  method SendOne(m: Outgoing) returns (r: int, peer: Peer)
    requires Sendable(m)
    ensures Carries(peer.input, m) && Reports(r, m)
  {
    var sock := new Socket(m.step);
    r := SendNodeMessage(sock, m.data, m.kind);
    peer := Peer(sock.wire, m.chunk);
  }

  /** Every message on its own connection. */
  method SendAll(ms: seq<Outgoing>) returns (reports: seq<int>, peers: seq<Option<Peer>>)
    requires forall i :: 0 <= i < |ms| ==> Sendable(ms[i])
    ensures |reports| == |peers| == |ms|
    ensures forall i :: 0 <= i < |ms| ==> Reports(reports[i], ms[i])
    ensures forall i :: 0 <= i < |ms| ==> peers[i].Some? && Carries(peers[i].value.input, ms[i])
  {
    reports, peers := [], [];
    for k := 0 to |ms|
      invariant |reports| == |peers| == k
      invariant forall i :: 0 <= i < k ==> Reports(reports[i], ms[i])
      invariant forall i :: 0 <= i < k ==> peers[i].Some? && Carries(peers[i].value.input, ms[i])
    {
      var r, peer := SendOne(ms[k]);
      reports, peers := reports + [r], peers + [Some(peer)];
    }
  }

  /** What the messages from number k on, and the KILL behind them, lead to. */
  function LifeFrom(ms: seq<Outgoing>, k: nat): (l: Life)
    requires k <= |ms|
  {
    Life(AllHeard(ms[k..]) + [KILLED], false)
  }

  lemma LifeStep(ms: seq<Outgoing>, k: nat)
    requires k < |ms|
    ensures LifeFrom(ms, k) == InFront(Heard(ms[k]), LifeFrom(ms, k + 1))
  {
    assert ms[k..][1..] == ms[k + 1..];
    assert Heard(ms[k]) + (AllHeard(ms[k + 1..]) + [KILLED]) == AllHeard(ms[k..]) + [KILLED];
  }

  lemma KillServed(stale: seq<byte>)
    requires |stale| == 4
    ensures Served([Some(Frame(KILL_MESSAGE, []))], stale) == Life([KILLED], false)
  {
    var f := Frame(KILL_MESSAGE, []);
    FramingRoundTrip(KILL_MESSAGE, [], 4, stale);
    assert f[..4] == f;
  }

  lemma OneServed(inputs: seq<Option<seq<byte>>>, k: nat, m: Outgoing, stale: seq<byte>)
    requires k < |inputs| && inputs[k].Some? && |stale| == 4 && Carries(inputs[k].value, m)
    ensures Served(inputs[k..], stale) == InFront(Heard(m), Served(inputs[k + 1..], Left(inputs[k].value, stale)))
  {
    var input := inputs[k].value;
    assert inputs[k..][1..] == inputs[k + 1..];
    WireReceived(input, m.kind, m.data, stale);
    InFrontTwice([], Heard(m), Served(inputs[k + 1..], Left(input, stale)));
  }

  lemma {:induction false} ServedIsHeard(inputs: seq<Option<seq<byte>>>, ms: seq<Outgoing>, k: nat, stale: seq<byte>)
    requires |inputs| == |ms| + 1 && k <= |ms| && |stale| == 4
    requires forall i :: 0 <= i < |ms| ==> inputs[i].Some? && Carries(inputs[i].value, ms[i])
    requires inputs[|ms|] == Some(Frame(KILL_MESSAGE, []))
    ensures Served(inputs[k..], stale) == LifeFrom(ms, k)
    decreases |ms| - k
  {
    if k == |ms| {
      KillServed(stale);
      assert inputs[k..] == [inputs[k]] && ms[k..] == [];
    } else {
      OneServed(inputs, k, ms[k], stale);
      LifeStep(ms, k);
      ServedIsHeard(inputs, ms, k + 1, Left(inputs[k].value, stale));
    }
  }

  lemma AllServed(inputs: seq<Option<seq<byte>>>, ms: seq<Outgoing>)
    requires |inputs| == |ms| + 1
    requires forall i :: 0 <= i < |ms| ==> inputs[i].Some? && Carries(inputs[i].value, ms[i])
    requires inputs[|ms|] == Some(Frame(KILL_MESSAGE, []))
    ensures Served(inputs, ZEROES) == LifeFrom(ms, 0) == Life(AllHeard(ms) + [KILLED], false)
  {
    ServedIsHeard(inputs, ms, 0, ZEROES);
    assert inputs[0..] == inputs && ms[0..] == ms;
  }

  /** What the node's coordinator is called back with over these connections and a KILL behind them. */
  method Host(ms: seq<Outgoing>, peers: seq<Option<Peer>>) returns (calls: seq<Callback>)
    requires |peers| == |ms|
    requires forall i :: 0 <= i < |ms| ==> peers[i].Some? && Carries(peers[i].value.input, ms[i])
    ensures calls == CallsBeforeKill(ms) + [KILLED]
  {
    var all := peers + [Some(Peer(Frame(KILL_MESSAGE, []), (n: nat) => n))];
    var node := new NodeCallback();
    AllServed(Inputs(all), ms);
    var _, _ := SetupLocalNode(true, true, all, node);
    calls := node.calls;
    assert [SET_UP] + (AllHeard(ms) + [KILLED]) == CallsBeforeKill(ms) + [KILLED];
  }

  /** The senders' reports, and what the node's coordinator is called back with. */
  method Collect(ms: seq<Outgoing>) returns (reports: seq<int>, calls: seq<Callback>)
    requires forall i :: 0 <= i < |ms| ==> Sendable(ms[i])
    ensures |reports| == |ms|
    ensures forall i :: 0 <= i < |ms| ==> Reports(reports[i], ms[i])
    ensures calls == CallsBeforeKill(ms) + [KILLED]
  {
    var peers;
    reports, peers := SendAll(ms);
    calls := Host(ms, peers);
  }

  // ----- coordinator to node, with the dispatcher running in between -----

  /** The callbacks that meet room, and how many of their items are queued, after the first n. The dispatcher
      runs after callback i if turns(i). */
  datatype Filled = Filled(kept: seq<Callback>, queued: nat)

  function Fill(calls: seq<Callback>, turns: nat -> bool, capacity: nat, n: nat): (f: Filled)
    requires n <= |calls|
  {
    if n == 0 then Filled([], 0)
    else
      var before := Fill(calls, turns, capacity, n - 1);
      var room := before.queued < capacity;
      Filled(if room then before.kept + [calls[n - 1]] else before.kept,
             if turns(n - 1) then 0 else if room then before.queued + 1 else before.queued)
  }

  function Kept(calls: seq<Callback>, turns: nat -> bool, capacity: nat): (kept: seq<Callback>) {
    Fill(calls, turns, capacity, |calls|).kept
  }

  /** None of the first n callbacks meets a full queue. */
  ghost predicate RoomFor(calls: seq<Callback>, turns: nat -> bool, capacity: nat, n: nat)
    requires n <= |calls|
  {
    forall k :: 0 <= k < n ==> Fill(calls, turns, capacity, k).queued < capacity
  }

  lemma {:induction false} FillKeeps(calls: seq<Callback>, turns: nat -> bool, capacity: nat, n: nat)
    requires n <= |calls|
    ensures var f := Fill(calls, turns, capacity, n);
      && |f.kept| <= n && f.queued <= n
      && (|f.kept| == n <==> RoomFor(calls, turns, capacity, n))
      && (|f.kept| == n ==> f.kept == calls[..n])
  {
    if n > 0 {
      FillKeeps(calls, turns, capacity, n - 1);
      assert calls[..n] == calls[..n - 1] + [calls[n - 1]];
      RoomForOneMore(calls, turns, capacity, n - 1);
    }
  }

  lemma RoomForOneMore(calls: seq<Callback>, turns: nat -> bool, capacity: nat, n: nat)
    requires n < |calls|
    ensures RoomFor(calls, turns, capacity, n + 1)
      <==> RoomFor(calls, turns, capacity, n) && Fill(calls, turns, capacity, n).queued < capacity
  {
  }

  /** All are kept exactly if no callback meets a full queue; a queue with a slot for each is enough for that,
      and so is one slot if the dispatcher keeps up. */
  lemma KeptAllIff(calls: seq<Callback>, turns: nat -> bool, capacity: nat)
    ensures Kept(calls, turns, capacity) == calls <==> RoomFor(calls, turns, capacity, |calls|)
    ensures |calls| <= capacity ==> RoomFor(calls, turns, capacity, |calls|)
    ensures capacity > 0 && (forall n: nat :: turns(n)) ==> RoomFor(calls, turns, capacity, |calls|)
  {
    FillKeeps(calls, turns, capacity, |calls|);
    assert calls[..|calls|] == calls;
    forall n | 0 <= n < |calls|
      ensures |calls| <= capacity ==> Fill(calls, turns, capacity, n).queued < capacity
      ensures capacity > 0 && (forall k: nat :: turns(k)) ==> Fill(calls, turns, capacity, n).queued < capacity
    {
      FillKeeps(calls, turns, capacity, n);
      if n > 0 {
        assert turns(n - 1) ==> Fill(calls, turns, capacity, n).queued == 0;
      }
    }
  }

  /** The node has been given these items: the last ones are queued, the others have taken effect. */
  ghost predicate Given(codec: Codec, items: seq<Item>, now: Snapshot) {
    Progress(codec, Snapshot(items, [], false), now)
  }

  lemma GiveOne(codec: Codec, items: seq<Item>, now: Snapshot, item: Item)
    requires Given(codec, items, now)
    ensures Given(codec, items + [item], now.(q := now.q + [item]))
  {
    var n := |items| - |now.q|;
    assert (items + [item])[..n] == items[..n] && (items + [item])[n..] == items[n..] + [item];
  }

  /** One callback of the coordinator that is not a KILL. */
  method PostOne(adapter: Adapter, c: Callback, ghost items: seq<Item>)
    requires adapter.Valid() && Given(adapter.codec, items, adapter.Now())
    requires Postable(c)
    requires |adapter.q.contents| <= CountWakes(adapter.looper.pipe) && Exit !in adapter.looper.pipe
    modifies adapter.q.Repr, adapter.looper
    ensures adapter.Valid() && fresh(adapter.q.Repr - old(adapter.q.Repr))
    ensures |adapter.q.contents| <= CountWakes(adapter.looper.pipe) && Exit !in adapter.looper.pipe
    ensures var room := old(|adapter.q.contents|) < adapter.q.qSize;
      && |adapter.q.contents| == old(|adapter.q.contents|) + (if room then 1 else 0)
      && Given(adapter.codec, if room then items + [ItemOf(c)] else items, adapter.Now())
  {
    GiveOne(adapter.codec, items, adapter.Now(), ItemOf(c));
    CountWakesConcat(adapter.looper.pipe, [Wake]);
    var data := if c.payload == [] then None else Some(c.payload);
    var _ := adapter.NodeCallback(data, |c.payload|, c.kind);
  }

  /** The dispatcher works on what there is; without an exit token that empties the queue. */
  method RunDispatcher(adapter: Adapter, sizes: nat -> nat, ghost items: seq<Item>)
    requires adapter.Valid() && !adapter.exited && Given(adapter.codec, items, adapter.Now())
    requires |adapter.q.contents| <= CountWakes(adapter.looper.pipe)
    requires Exit !in adapter.looper.pipe || ExitLast(adapter.looper.pipe)
    modifies adapter, adapter.q.Repr, adapter.looper
    ensures adapter.Valid() && adapter.q.Repr == old(adapter.q.Repr)
    ensures adapter.q.contents == [] && adapter.looper.pipe == []
    ensures adapter.exited <==> Exit in old(adapter.looper.pipe)
    ensures Given(adapter.codec, items, adapter.Now())
  {
    ghost var before := adapter.Now();
    ghost var drains := DrainsOf(sizes, 0, adapter.looper.pipe);
    adapter.Thread(sizes);
    WorkedProgress(adapter.codec, before, drains);
    ProgressTrans(adapter.codec, Snapshot(items, [], false), before, adapter.Now());
  }

  /** One callback of the coordinator, and a run of the dispatcher if it has a turn. */
  method PostAndTurn(adapter: Adapter, c: Callback, turn: bool, sizes: nat -> nat, ghost items: seq<Item>)
    requires adapter.Valid() && !adapter.exited && Given(adapter.codec, items, adapter.Now())
    requires Postable(c)
    requires |adapter.q.contents| <= CountWakes(adapter.looper.pipe) && Exit !in adapter.looper.pipe
    modifies adapter, adapter.q.Repr, adapter.looper
    ensures adapter.Valid() && !adapter.exited && fresh(adapter.q.Repr - old(adapter.q.Repr))
    ensures |adapter.q.contents| <= CountWakes(adapter.looper.pipe) && Exit !in adapter.looper.pipe
    ensures var room := old(|adapter.q.contents|) < adapter.q.qSize;
      && |adapter.q.contents| == (if turn then 0 else old(|adapter.q.contents|) + if room then 1 else 0)
      && Given(adapter.codec, if room then items + [ItemOf(c)] else items, adapter.Now())
  {
    ghost var room := |adapter.q.contents| < adapter.q.qSize;
    PostOne(adapter, c, items);
    if turn {
      RunDispatcher(adapter, sizes, if room then items + [ItemOf(c)] else items);
    }
  }

  predicate Postable(c: Callback) {
    c.kind != KILL_MESSAGE && (c.payload == [] ==> c.kind == SETUP_MESSAGE)
  }

  lemma FillOne(calls: seq<Callback>, turns: nat -> bool, capacity: nat, n: nat)
    requires n < |calls|
    ensures var before, after := Fill(calls, turns, capacity, n), Fill(calls, turns, capacity, n + 1);
      var room := before.queued < capacity;
      && ItemsOf(after.kept) == (if room then ItemsOf(before.kept) + [ItemOf(calls[n])] else ItemsOf(before.kept))
      && after.queued == (if turns(n) then 0 else before.queued + if room then 1 else 0)
  {
  }

  /** The coordinator posts what it is called back with, up to the KILL, and the dispatcher has its turns. */
  method PostAll(adapter: Adapter, calls: seq<Callback>, turns: nat -> bool, sizes: nat -> nat)
    requires adapter.Valid() && !adapter.exited && adapter.Now() == Snapshot([], [], false) && adapter.looper.pipe == []
    requires forall i :: 0 <= i < |calls| ==> Postable(calls[i])
    modifies adapter, adapter.q.Repr, adapter.looper
    ensures adapter.Valid() && !adapter.exited && fresh(adapter.q.Repr - old(adapter.q.Repr))
    ensures |adapter.q.contents| <= CountWakes(adapter.looper.pipe) && Exit !in adapter.looper.pipe
    ensures Given(adapter.codec, ItemsOf(Kept(calls, turns, adapter.q.qSize)), adapter.Now())
  {
    ghost var items := [];
    for i := 0 to |calls|
      invariant adapter.Valid() && !adapter.exited && fresh(adapter.q.Repr - old(adapter.q.Repr))
      invariant |adapter.q.contents| <= CountWakes(adapter.looper.pipe) && Exit !in adapter.looper.pipe
      invariant PostedSoFar(calls, turns, adapter.q.qSize, i, items, |adapter.q.contents|)
      invariant Given(adapter.codec, items, adapter.Now())
    {
      ghost var room := |adapter.q.contents| < adapter.q.qSize;
      PostedOneMore(calls, turns, adapter.q.qSize, i, items, |adapter.q.contents|);
      PostAndTurn(adapter, calls[i], turns(i), sizes, items);
      items := if room then items + [ItemOf(calls[i])] else items;
    }
  }

  /** The items and the queue size that n posted callbacks lead to. */
  predicate PostedSoFar(calls: seq<Callback>, turns: nat -> bool, capacity: nat, n: nat, items: seq<Item>, queued: nat)
    requires n <= |calls|
  {
    var f := Fill(calls, turns, capacity, n);
    items == ItemsOf(f.kept) && queued == f.queued
  }

  lemma PostedOneMore(calls: seq<Callback>, turns: nat -> bool, capacity: nat, n: nat, items: seq<Item>, queued: nat)
    requires n < |calls| && PostedSoFar(calls, turns, capacity, n, items, queued)
    ensures var room := queued < capacity;
      PostedSoFar(calls, turns, capacity, n + 1, if room then items + [ItemOf(calls[n])] else items,
                  if turns(n) then 0 else queued + if room then 1 else 0)
  {
    FillOne(calls, turns, capacity, n);
  }

  lemma SetupFirst(codec: Codec, calls: seq<Callback>)
    ensures Effects(codec, ItemsOf([SET_UP] + calls)) == [SetUp] + Effects(codec, ItemsOf(calls))
  {
    assert ItemsOf([SET_UP] + calls) == [ItemOf(SET_UP)] + ItemsOf(calls);
  }

  lemma ThenExit(pipe: seq<Token>)
    requires Exit !in pipe
    ensures CountWakes(pipe + [Exit]) == CountWakes(pipe) && ExitLast(pipe + [Exit])
  {
    CountWakesConcat(pipe, [Exit]);
    assert (pipe + [Exit])[..|pipe|] == pipe;
  }

  /** What a node goes through that is called back with SETUP and then with `heard`: each message that is neither a
      SETUP nor a reply is handed to its callbacks with the bytes and the type it was sent with. */
  ghost predicate GoesThrough(codec: Codec, heard: seq<Callback>, effects: seq<Effect>) {
    && |effects| == 1 + |heard| && effects[0] == SetUp
    && forall i :: 0 <= i < |heard| ==> HandedOver(codec, heard[i], effects[1 + i])
  }

  ghost predicate HandedOver(codec: Codec, c: Callback, e: Effect) {
    var item := Item(c.payload, 0, c.kind);
    && Yields(codec, item, e)
    && (c.kind != SETUP_MESSAGE && c.payload != [] && !IsReply(codec, item) ==> e == Deliver(item))
  }

  lemma EffectsAreHandedOver(codec: Codec, heard: seq<Callback>)
    ensures GoesThrough(codec, heard, [SetUp] + Effects(codec, ItemsOf(heard)))
  {
    forall i | 0 <= i < |heard|
      ensures HandedOver(codec, heard[i], EffectOf(codec, ItemOf(heard[i])))
    {
      EffectYields(codec, ItemOf(heard[i]));
    }
  }

  /** If every message has data and goes out, each is heard, in order. */
  lemma {:induction false} AllAreHeard(ms: seq<Outgoing>)
    requires forall i :: 0 <= i < |ms| ==>
      Sendable(ms[i]) && ms[i].data != [] && GoesOut(ms[i].step, ms[i].kind, |ms[i].data|)
    ensures |AllHeard(ms)| == |ms|
    ensures forall i :: 0 <= i < |ms| ==> AllHeard(ms)[i] == Callback(ms[i].kind, ms[i].data)
  {
    if ms != [] {
      AllAreHeard(ms[1..]);
      assert Heard(ms[0]) == [Callback(ms[0].kind, ms[0].data)];
    }
  }

  /** The whole way, with the dispatcher running at any times: the effects are those of exactly the set-up and the
      messages that go out and meet room in the queue, once each and in order. */
  method Run(codec: Codec, capacity: nat, ms: seq<Outgoing>, turns: nat -> bool, sizes: nat -> nat)
      returns (reports: seq<int>, effects: seq<Effect>, exited: bool)
    requires capacity > 0 && forall i :: 0 <= i < |ms| ==> Sendable(ms[i])
    ensures |reports| == |ms|
    ensures forall i :: 0 <= i < |ms| ==> Reports(reports[i], ms[i])
    ensures exited && effects == Effects(codec, ItemsOf(Kept(CallsBeforeKill(ms), turns, capacity)))
    ensures RoomFor(CallsBeforeKill(ms), turns, capacity, |CallsBeforeKill(ms)|) ==>
      effects == [SetUp] + Effects(codec, ItemsOf(AllHeard(ms))) && GoesThrough(codec, AllHeard(ms), effects)
  {
    EffectsAreHandedOver(codec, AllHeard(ms));
    var calls;
    reports, calls := Collect(ms);
    HeardCallbacks(ms);
    var posts := calls[..|calls| - 1];
    assert posts == CallsBeforeKill(ms);
    var adapter := new Adapter(codec, capacity);
    ProgressRefl(codec, adapter.Now());
    PostAll(adapter, posts, turns, sizes);
    ThenExit(adapter.looper.pipe);
    var _ := adapter.NodeCallback(None, 0, KILL_MESSAGE);
    RunDispatcher(adapter, sizes, ItemsOf(Kept(posts, turns, capacity)));
    effects, exited := adapter.effects, adapter.exited;
    AllGiven(codec, ItemsOf(Kept(posts, turns, capacity)), adapter.Now());
    KeptAllIff(posts, turns, capacity);
    SetupFirst(codec, AllHeard(ms));
  }

  lemma AllGiven(codec: Codec, items: seq<Item>, now: Snapshot)
    requires Given(codec, items, now) && now.q == []
    ensures now.effects == Effects(codec, items)
  {
    assert items[..|items|] == items;
  }

  // ----- coordinator to node, every schedule -----

  function Post(c: Dispatcher.Config, t: Dispatcher.Step): (items: seq<Item>) {
    match t
    case PostSetup => if c.queuesSetup then [Dispatcher.SETUP_ITEM] else []
    case Push(_, item) => [item]
    case _ => []
  }

  /** The items that a run pushes, in order. */
  function Posts(c: Dispatcher.Config, steps: seq<Dispatcher.Step>): (items: seq<Item>) {
    if steps == [] then [] else Post(c, steps[0]) + Posts(c, steps[1..])
  }

  /** Those of them that meet room in the queue. */
  function Admitted(c: Dispatcher.Config, from: Dispatcher.State, steps: seq<Dispatcher.Step>): (items: seq<Item>)
    requires Dispatcher.IsRun(c, from, steps)
    decreases |steps|
  {
    if steps == [] then []
    else
      (if |from.queue| < c.capacity then Post(c, steps[0]) else [])
      + Admitted(c, Dispatcher.Do(c, from, steps[0]), steps[1..])
  }

  /** No push of the run meets a full queue. */
  ghost predicate PostsMeetRoom(c: Dispatcher.Config, from: Dispatcher.State, steps: seq<Dispatcher.Step>)
    requires Dispatcher.IsRun(c, from, steps)
    decreases |steps|
  {
    steps != [] ==>
      && (Post(c, steps[0]) != [] ==> |from.queue| < c.capacity)
      && PostsMeetRoom(c, Dispatcher.Do(c, from, steps[0]), steps[1..])
  }

  lemma PostIsAccepted(c: Dispatcher.Config, s: Dispatcher.State, t: Dispatcher.Step)
    requires Dispatcher.Enabled(s, t)
    ensures Dispatcher.Do(c, s, t).accepted == s.accepted + if |s.queue| < c.capacity then Post(c, t) else []
  {
  }

  /** In every run the queue accepts exactly the pushes that meet room, in order. */
  lemma {:induction false} AcceptedIsAdmitted(c: Dispatcher.Config, from: Dispatcher.State, steps: seq<Dispatcher.Step>)
    requires Dispatcher.IsRun(c, from, steps)
    ensures Dispatcher.After(c, from, steps).accepted == from.accepted + Admitted(c, from, steps)
    decreases |steps|
  {
    if steps != [] {
      PostIsAccepted(c, from, steps[0]);
      AcceptedIsAdmitted(c, Dispatcher.Do(c, from, steps[0]), steps[1..]);
    }
  }

  /** Those are all of them if no push meets a full queue, however many there are. */
  lemma {:induction false} NoneRefused(c: Dispatcher.Config, from: Dispatcher.State, steps: seq<Dispatcher.Step>)
    requires Dispatcher.IsRun(c, from, steps)
    ensures |Admitted(c, from, steps)| <= |Posts(c, steps)|
    ensures PostsMeetRoom(c, from, steps) <==> Admitted(c, from, steps) == Posts(c, steps)
    ensures PostsMeetRoom(c, from, steps) <==> |Admitted(c, from, steps)| == |Posts(c, steps)|
    decreases |steps|
  {
    if steps != [] {
      NoneRefused(c, Dispatcher.Do(c, from, steps[0]), steps[1..]);
    }
  }

  /** However the dispatcher's steps mix with the coordinator's, and for any number of messages, everything
      that met room has been popped by the time the looper exits; and if all did, the effects are those of the
      messages that went out. */
  lemma EverySchedule(codec: Codec, c: Dispatcher.Config, ms: seq<Outgoing>, steps: seq<Dispatcher.Step>)
    requires c.stops == Stops(codec)
    requires Dispatcher.IsRun(c, Dispatcher.Initial(), steps)
    requires Dispatcher.After(c, Dispatcher.Initial(), steps).pc.Exited?
    requires forall i :: 0 <= i < |steps| ==> KillBarrier.CoordinatorOnly(steps[i])
    requires Posts(c, steps) == ItemsOf(CallsBeforeKill(ms))
    ensures var s := Dispatcher.After(c, Dispatcher.Initial(), steps);
      && s.queue == [] && s.popped == Admitted(c, Dispatcher.Initial(), steps)
      && (PostsMeetRoom(c, Dispatcher.Initial(), steps) ==>
            Effects(codec, s.popped) == [SetUp] + Effects(codec, ItemsOf(AllHeard(ms)))
            && GoesThrough(codec, AllHeard(ms), Effects(codec, s.popped)))
  {
    EffectsAreHandedOver(codec, AllHeard(ms));
    Dispatcher.InitialInv(c);
    AcceptedIsAdmitted(c, Dispatcher.Initial(), steps);
    NoneRefused(c, Dispatcher.Initial(), steps);
    KillBarrier.KillIsDrainBarrier(c, Dispatcher.Initial(), steps);
    SetupFirst(codec, AllHeard(ms));
  }
}
