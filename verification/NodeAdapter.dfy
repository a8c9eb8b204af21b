/** A local node: its coordinator posts items, its dispatcher drains the queue (service/NodeAdapter.cpp). */
module NodeAdapter {
  import opened Bytes
  import opened Messages
  import opened Xml
  import opened CmdQueue
  import opened Looper
  import Dispatcher
  import KillBarrier
  import XmlLists

  const XML_START: seq<byte> := [60, 63, 120, 109, 108]  // "<?xml"

  /** What the dispatcher does with one item. Broken: a LIST response without nodes, whose
      text would be printed from a null list. */
  datatype Effect =
    | SetUp
    | Invalid
    | Broken
    | Reply(syncId: int, buffer: string, text: seq<byte>)
    | Deliver(item: Item)

  /** The text that a parsed response is printed as; other ids than LIST print nothing. */
  function ReplyEffect(codec: Codec, d: Document): (e: Effect)
    requires d.Bus?
  {
    if d.id != NBUS_CMD_LIST then Reply(d.syncId, d.buffer, [])
    else if d.nodes == [] then Broken
    else Reply(d.syncId, d.buffer, codec.render(Reprinted(d)))
  }

  /** Parsing inserts the nodes at the front, so printing lists them backwards. */
  function Reprinted(d: Document): (r: Document)
    requires d.Bus?
  {
    d.(nodes := XmlLists.Reverse(d.nodes))
  }

  function EffectOf(codec: Codec, item: Item): (e: Effect) {
    if item.kind == SETUP_MESSAGE then SetUp
    else if !item.HasData() then Invalid
    else if item.kind == LOCAL_MESSAGE && XML_START <= item.payload then
      match codec.parse(item.payload)
      case Some(Bus(kind, id, node, syncId, buffer, nodes)) =>
        if syncId > 0 && kind == NBUS_TYPE_RESPONSE then ReplyEffect(codec, Bus(kind, id, node, syncId, buffer, nodes))
        else Deliver(item)
      case _ => Deliver(item)
    else Deliver(item)
  }

  /** The items after which a callback returns early. */
  function Stops(codec: Codec): (stops: Item -> bool) {
    (item: Item) => var e := EffectOf(codec, item); e.SetUp? || e.Invalid? || e.Broken?
  }

  /** What dispatch returns: -1 when a bad item has stopped it. */
  function Verdict(codec: Codec, q: seq<Item>): (r: int) {
    if q == [] then 0
    else if Stops(codec)(q[0]) then (if q[0].kind == SETUP_MESSAGE then 0 else -1)
    else Verdict(codec, q[1..])
  }

  function Effects(codec: Codec, items: seq<Item>): (r: seq<Effect>)
    ensures |r| == |items|
  {
    seq(|items|, i requires 0 <= i < |items| => EffectOf(codec, items[i]))
  }

  // ----- what the items mean to the node -----

  /** A LOCAL message that starts like XML and parses as a response to a waiting call. */
  predicate IsReply(codec: Codec, item: Item) {
    && item.kind == LOCAL_MESSAGE && XML_START <= item.payload
    && match codec.parse(item.payload)
       case Some(Bus(kind, _, _, syncId, _, _)) => kind == NBUS_TYPE_RESPONSE && syncId > 0
       case _ => false
  }

  /** The effect of one item: a reply goes to its caller with its nodes turned round; anything else that has
      data goes to the node's callbacks just as it is, be it XML or not. */
  ghost predicate Yields(codec: Codec, item: Item, e: Effect) {
    && (item.kind == SETUP_MESSAGE ==> e == SetUp)
    && (item.kind != SETUP_MESSAGE && item.payload == [] ==> e == Invalid)
    && (IsReply(codec, item) ==> AnswersCaller(codec, codec.parse(item.payload).value, e))
    && (item.kind != SETUP_MESSAGE && item.payload != [] && !IsReply(codec, item) ==> e == Deliver(item))
  }

  /** Only a LIST response has a text, and without nodes not even that. */
  ghost predicate AnswersCaller(codec: Codec, d: Document, e: Effect)
    requires d.Bus?
  {
    if d.id != NBUS_CMD_LIST then e == Reply(d.syncId, d.buffer, [])
    else if d.nodes == [] then e == Broken
    else exists r: seq<string> ::
      && |r| == |d.nodes| && (forall i :: 0 <= i < |r| ==> r[i] == d.nodes[|r| - 1 - i])
      && e == Reply(d.syncId, d.buffer, codec.render(Bus(d.kind, d.id, d.node, d.syncId, d.buffer, r)))
  }

  lemma EffectYields(codec: Codec, item: Item)
    ensures Yields(codec, item, EffectOf(codec, item))
  {
    if IsReply(codec, item) {
      var d := codec.parse(item.payload).value;
      var r := XmlLists.Reverse(d.nodes);
      assert Reprinted(d) == Bus(d.kind, d.id, d.node, d.syncId, d.buffer, r);
    }
  }

  /** The items at which a callback returns and leaves the rest queued: SETUP, one without data, and a LIST
      response without nodes. */
  predicate EndsDispatch(codec: Codec, item: Item) {
    || item.kind == SETUP_MESSAGE
    || item.payload == []
    || (IsReply(codec, item) && codec.parse(item.payload).value.id == NBUS_CMD_LIST
        && codec.parse(item.payload).value.nodes == [])
  }

  lemma StopsMeaning(codec: Codec, item: Item)
    ensures Stops(codec)(item) <==> EndsDispatch(codec, item)
  {
  }

  /** One dispatch: it takes items up to the first at which it returns, each yields its effect, and the result
      is -1 exactly if that is a bad one. */
  ghost predicate Dispatches(codec: Codec, a: Snapshot, b: Snapshot, r: int) {
    && |b.q| <= |a.q|
    && Yielded(codec, a, b, |a.q| - |b.q|)
    && EndsAt(codec, a.q, |a.q| - |b.q|, r)
  }

  /** The first n items have gone, and each has yielded its effect. */
  ghost predicate Yielded(codec: Codec, a: Snapshot, b: Snapshot, n: nat)
    requires n <= |a.q|
  {
    && b.q == a.q[n..]
    && a.effects <= b.effects && |b.effects| == |a.effects| + n
    && (forall j :: 0 <= j < n ==> Yields(codec, a.q[j], b.effects[|a.effects| + j]))
    && (b.setup <==> a.setup || exists j :: 0 <= j < n && a.q[j].kind == SETUP_MESSAGE)
  }

  /** It is the n-th item at which it returns, or the end of the queue. */
  ghost predicate EndsAt(codec: Codec, q: seq<Item>, n: nat, r: int)
    requires n <= |q|
  {
    && (forall j :: 0 <= j < n - 1 ==> !EndsDispatch(codec, q[j]))
    && (n < |q| ==> n > 0 && EndsDispatch(codec, q[n - 1]))
    && r == if n > 0 && EndsDispatch(codec, q[n - 1]) && q[n - 1].kind != SETUP_MESSAGE then -1 else 0
  }

  lemma {:induction false} TakenEnds(codec: Codec, q: seq<Item>)
    ensures EndsAt(codec, q, Dispatcher.Taken(Stops(codec), q), Verdict(codec, q))
    decreases |q|
  {
    if q != [] {
      StopsMeaning(codec, q[0]);
      if !Stops(codec)(q[0]) {
        TakenEnds(codec, q[1..]);
      }
    }
  }

  lemma DispatchesIt(codec: Codec, a: Snapshot)
    ensures var n := Dispatcher.Taken(Stops(codec), a.q);
      Dispatches(codec, a, Snapshot(a.q[n..], a.effects + Effects(codec, a.q[..n]),
                                    a.setup || Dispatcher.HasSetup(a.q[..n])), Verdict(codec, a.q))
  {
    var n := Dispatcher.Taken(Stops(codec), a.q);
    TakenEnds(codec, a.q);
    FrontYields(codec, a, n);
  }

  lemma FrontYields(codec: Codec, a: Snapshot, n: nat)
    requires n <= |a.q|
    ensures Yielded(codec, a, Snapshot(a.q[n..], a.effects + Effects(codec, a.q[..n]),
                                       a.setup || Dispatcher.HasSetup(a.q[..n])), n)
  {
    var effects := a.effects + Effects(codec, a.q[..n]);
    SetupAmong(a.q, n);
    forall j | 0 <= j < n
      ensures Yields(codec, a.q[j], effects[|a.effects| + j])
    {
      EffectYields(codec, a.q[j]);
      assert effects[|a.effects| + j] == EffectOf(codec, a.q[j]);
    }
  }

  lemma SetupAmong(q: seq<Item>, n: nat)
    requires n <= |q|
    ensures Dispatcher.HasSetup(q[..n]) <==> exists j :: 0 <= j < n && q[j].kind == SETUP_MESSAGE
  {
    assert forall j :: 0 <= j < n ==> q[..n][j] == q[j];
  }

  // ----- how far a number of callbacks gets -----

  /** How many callbacks of a batch drain: none if it starts with the exit token, and otherwise one for each token
      up to and including the exit token. */
  function Drains(batch: seq<Token>): (n: nat)
    requires batch != []
  {
    if batch[0] == Exit then 0 else if Exit in batch then Before(batch) + 1 else |batch|
  }

  /** The same for a pipe that is read in batches of these sizes until the looper exits or the pipe is empty. */
  function DrainsOf(sizes: nat -> nat, turn: nat, pipe: seq<Token>): (n: nat)
    decreases |pipe|
  {
    if pipe == [] then 0
    else
      var k := BatchSize(sizes(turn), pipe);
      Drains(pipe[..k]) + if Exit in pipe[..k] then 0 else DrainsOf(sizes, turn + 1, pipe[k..])
  }

  predicate CountsDrains(sizes: nat -> nat, counts: (nat, seq<Token>) -> nat, turn: nat, pipe: seq<Token>) {
    counts(turn, pipe) ==
      if pipe == [] then 0
      else
        var k := BatchSize(sizes(turn), pipe);
        Drains(pipe[..k]) + if Exit in pipe[..k] then 0 else counts(turn + 1, pipe[k..])
  }

  function BatchSize(size: nat, pipe: seq<Token>): (k: nat)
    requires pipe != []
    ensures 0 < k <= |pipe|
  {
    if size + 1 > |pipe| then |pipe| else size + 1
  }

  /** One callback per token, and the exit token's own at most once. */
  lemma {:induction false} DrainsMeaning(sizes: nat -> nat, turn: nat, pipe: seq<Token>)
    ensures var n := DrainsOf(sizes, turn, pipe);
      if Exit in pipe then Before(pipe) <= n <= Before(pipe) + 1 else n == |pipe|
    decreases |pipe|
  {
    if pipe != [] {
      var k := BatchSize(sizes(turn), pipe);
      assert pipe == pipe[..k] + pipe[k..];
      BeforeConcat(pipe[..k], pipe[k..]);
      DrainsMeaning(sizes, turn + 1, pipe[k..]);
    }
  }

  /** 1 if n tokens fill some reads of m and part of another, 0 if they fill whole ones. */
  function Partial(n: nat, m: Dispatcher.Positive): (p: nat) {
    if n % m == 0 then 0 else 1
  }

  lemma PartialStep(n: nat, m: Dispatcher.Positive)
    ensures n < m ==> Partial(n, m) == if n == 0 then 0 else 1
    ensures n >= m ==> Partial(n - m, m) == Partial(n, m)
  {
    if n < m {
      KillBarrier.ModSmall(n, m);
    } else {
      KillBarrier.ModStep(n, m);
    }
  }

  /** With reads of one size that is exactly if the tokens in front of it do not fill whole reads. */
  lemma FixedReadsDrain(sizes: nat -> nat, size: nat, turn: nat, pipe: seq<Token>)
    requires Exit in pipe && forall i: nat :: sizes(i) == size
    ensures DrainsOf(sizes, turn, pipe) == Before(pipe) + Partial(Before(pipe), size + 1)
  {
    var partial := (n: nat) => Partial(n, size + 1);
    forall n: nat
      ensures Periodic(partial, size, n)
    {
      PartialStep(n, size + 1);
    }
    FixedReadsBy(partial, sizes, size, turn, pipe);
  }

  /** 0 at 0, 1 up to size, and from there on as size + 1 before. */
  predicate Periodic(partial: nat -> nat, size: nat, n: nat) {
    partial(n) == if n == 0 then 0 else if n <= size then 1 else partial(n - size - 1)
  }

  lemma {:induction false} FixedReadsBy(partial: nat -> nat, sizes: nat -> nat, size: nat, turn: nat, pipe: seq<Token>)
    requires forall n: nat :: Periodic(partial, size, n)
    requires Exit in pipe && forall i: nat :: sizes(i) == size
    ensures DrainsOf(sizes, turn, pipe) == Before(pipe) + partial(Before(pipe))
    decreases |pipe|
  {
    var k := BatchSize(size, pipe);
    OneBatch(sizes, turn, pipe);
    assert Periodic(partial, size, Before(pipe));
    if Exit !in pipe[..k] {
      FixedReadsBy(partial, sizes, size, turn + 1, pipe[k..]);
    }
  }

  lemma OneBatch(sizes: nat -> nat, turn: nat, pipe: seq<Token>)
    requires pipe != []
    ensures var k := BatchSize(sizes(turn), pipe); var batch, rest := pipe[..k], pipe[k..];
      && (Exit in batch ==> Before(pipe) < k)
      && (Exit in batch ==> DrainsOf(sizes, turn, pipe) == Before(pipe) + if Before(pipe) == 0 then 0 else 1)
      && (Exit !in batch ==> DrainsOf(sizes, turn, pipe) == k + DrainsOf(sizes, turn + 1, rest))
      && (Exit !in batch && Exit in pipe ==> Exit in rest && k == sizes(turn) + 1 && Before(pipe) == k + Before(rest))
  {
    var k := BatchSize(sizes(turn), pipe);
    assert pipe == pipe[..k] + pipe[k..];
    BeforeConcat(pipe[..k], pipe[k..]);
  }

  /** What a dispatcher works on: the queue, the effects so far and the set-up flag. */
  datatype Snapshot = Snapshot(q: seq<Item>, effects: seq<Effect>, setup: bool)

  /** The queue has lost its first items, and exactly those have taken their effect, in order. */
  ghost predicate Progress(codec: Codec, a: Snapshot, b: Snapshot) {
    && |b.q| <= |a.q|
    && var n := |a.q| - |b.q|;
       && b.q == a.q[n..]
       && b.effects == a.effects + Effects(codec, a.q[..n])
       && b.setup == (a.setup || Dispatcher.HasSetup(a.q[..n]))
  }

  lemma ProgressTrans(codec: Codec, a: Snapshot, b: Snapshot, c: Snapshot)
    requires Progress(codec, a, b) && Progress(codec, b, c)
    ensures Progress(codec, a, c)
  {
    var u, v := a.q[..|a.q| - |b.q|], b.q[..|b.q| - |c.q|];
    assert a.q[..|a.q| - |c.q|] == u + v;
    assert Effects(codec, u + v) == Effects(codec, u) + Effects(codec, v);
    assert a.effects + (Effects(codec, u) + Effects(codec, v)) == (a.effects + Effects(codec, u)) + Effects(codec, v);
    Dispatcher.HasSetupConcat(u, v);
  }

  lemma ProgressRefl(codec: Codec, a: Snapshot)
    ensures Progress(codec, a, a)
  {
    assert a.q[..0] == [] && a.effects + [] == a.effects;
  }

  /** One draining callback that nobody disturbs. */
  ghost function Once(codec: Codec, a: Snapshot): (b: Snapshot)
    ensures |b.q| <= |a.q| && (a.q != [] ==> |b.q| < |a.q|)
  {
    var n := Dispatcher.Taken(Stops(codec), a.q);
    Snapshot(a.q[n..], a.effects + Effects(codec, a.q[..n]), a.setup || Dispatcher.HasSetup(a.q[..n]))
  }

  /** m of them. */
  ghost function Worked(codec: Codec, a: Snapshot, m: nat): (b: Snapshot) {
    Times((x: Snapshot) => Once(codec, x), a, m)
  }

  ghost function Times(f: Snapshot -> Snapshot, a: Snapshot, m: nat): (b: Snapshot) {
    if m == 0 then a else f(Times(f, a, m - 1))
  }

  lemma {:induction false} TimesMore(f: Snapshot -> Snapshot, a: Snapshot, m: nat, n: nat)
    ensures Times(f, Times(f, a, m), n) == Times(f, a, m + n)
  {
    if n > 0 {
      TimesMore(f, a, m, n - 1);
    }
  }

  lemma WorkedTrans(codec: Codec, a: Snapshot, m: nat, n: nat)
    ensures Worked(codec, Worked(codec, a, m), n) == Worked(codec, a, m + n)
  {
    TimesMore((x: Snapshot) => Once(codec, x), a, m, n);
  }

  lemma WorkedOnce(codec: Codec, a: Snapshot, m: nat)
    ensures Worked(codec, a, m) == if m == 0 then a else Once(codec, Worked(codec, a, m - 1))
  {
  }

  lemma {:induction false} WorkedProgress(codec: Codec, a: Snapshot, m: nat)
    ensures Progress(codec, a, Worked(codec, a, m))
  {
    WorkedOnce(codec, a, m);
    if m == 0 {
      ProgressRefl(codec, a);
    } else {
      var b := Worked(codec, a, m - 1);
      WorkedProgress(codec, a, m - 1);
      OnceProgress(codec, b);
      ProgressTrans(codec, a, b, Once(codec, b));
    }
  }

  lemma OnceProgress(codec: Codec, a: Snapshot)
    ensures Progress(codec, a, Once(codec, a))
  {
  }

  /** The queue is empty after them exactly if it takes no more rounds: each callback is one round. */
  lemma WorkedIff(codec: Codec, a: Snapshot, m: nat)
    ensures Worked(codec, a, m).q == [] <==> KillBarrier.Rounds(Stops(codec), a.q) <= m
  {
    var rounds := (x: Snapshot) => KillBarrier.Rounds(Stops(codec), x.q);
    var once := (x: Snapshot) => Once(codec, x);
    forall x: Snapshot
      ensures CountsDown(once, rounds, x)
    {
      OneRound(codec, x);
    }
    TimesCountDown(once, rounds, a, m);
    assert rounds(Worked(codec, a, m)) == KillBarrier.Rounds(Stops(codec), Worked(codec, a, m).q);
  }

  predicate CountsDown(f: Snapshot -> Snapshot, rounds: Snapshot -> nat, x: Snapshot) {
    rounds(f(x)) == if rounds(x) > 0 then rounds(x) - 1 else 0
  }

  lemma {:induction false} TimesCountDown(f: Snapshot -> Snapshot, rounds: Snapshot -> nat, a: Snapshot, m: nat)
    requires forall x: Snapshot :: CountsDown(f, rounds, x)
    ensures rounds(Times(f, a, m)) == if rounds(a) > m then rounds(a) - m else 0
  {
    if m > 0 {
      TimesCountDown(f, rounds, a, m - 1);
      assert CountsDown(f, rounds, Times(f, a, m - 1));
    }
  }

  lemma OneRound(codec: Codec, a: Snapshot)
    ensures var rounds := KillBarrier.Rounds(Stops(codec), a.q);
      KillBarrier.Rounds(Stops(codec), Once(codec, a).q) == if rounds > 0 then rounds - 1 else 0
  {
    if a.q != [] {
      KillBarrier.RoundsMeaning(Stops(codec), a.q);
    }
  }

  /** What localAction copies: nothing of a SETUP message, whose buffer stays zeroed. */
  function Posted(data: Option<seq<byte>>, length: nat, kind: int): (r: Option<Item>)
    requires kind != SETUP_MESSAGE && data.Some? ==> |data.value| == length
  {
    if kind == SETUP_MESSAGE then Some(Item(seq(length, _ => 0), 0, kind))
    else if data.None? || length == 0 then None
    else Some(Item(data.value, 0, kind))
  }

  class Adapter {
    const codec: Codec
    const q: NbusCmdQueue
    const looper: NodeLooper
    var setup: bool
    var exited: bool
    var effects: seq<Effect>

    ghost predicate Valid()
      reads this, q, q.Repr
    {
      q.Valid() && this !in q.Repr && looper !in q.Repr
    }

    ghost function Now(): (s: Snapshot)
      reads this, q
    {
      Snapshot(q.contents, effects, setup)
    }

    constructor (codec: Codec, capacity: nat)
      requires capacity > 0
      ensures Valid() && fresh(q) && fresh(q.Repr) && fresh(looper)
      ensures this.codec == codec && q.qSize == capacity
      ensures q.contents == [] && looper.pipe == [] && !setup && !exited && effects == []
    {
      this.codec := codec;
      q := new NbusCmdQueue(capacity);
      looper := new NodeLooper();
      setup, exited, effects := false, false, [];
    }

    /** Coordinator::localAction, and addQueue: push, then wake the dispatcher, also when the queue was full. */
    method LocalAction(data: Option<seq<byte>>, length: nat, kind: int) returns (r: int)
      requires Valid() && (kind != SETUP_MESSAGE && data.Some? ==> |data.value| == length)
      modifies q.Repr, looper
      ensures Valid() && fresh(q.Repr - old(q.Repr))
      ensures match Posted(data, length, kind)
        case None => r == -1 && q.contents == old(q.contents) && looper.pipe == old(looper.pipe)
        case Some(item) =>
          r == 0 && q.contents == Enqueued(old(q.contents), q.qSize, item) && looper.pipe == old(looper.pipe) + [Wake]
    {
      var item := new NbusCmd.Sized(length);
      if kind != SETUP_MESSAGE {
        if data.None? {
          return -1;
        }
        if length == 0 {
          return -1;
        }
        forall i | 0 <= i < length { item.data[i] := data.value[i]; }
        assert item.data[..] == data.value;
      }
      item.kind := kind;
      var _ := q.Push(item);
      looper.Wakeup();
      r := 0;
    }

    method NodeCallback(data: Option<seq<byte>>, length: nat, kind: int) returns (r: int)
      requires Valid() && (kind != SETUP_MESSAGE && data.Some? ==> |data.value| == length)
      modifies q.Repr, looper
      ensures Valid() && fresh(q.Repr - old(q.Repr))
      ensures kind == KILL_MESSAGE ==>
        r == -1 && q.contents == old(q.contents) && looper.pipe == old(looper.pipe) + [Exit]
      ensures kind != KILL_MESSAGE ==>
        match Posted(data, length, kind)
        case None => r == -1 && q.contents == old(q.contents) && looper.pipe == old(looper.pipe)
        case Some(item) =>
          r == 0 && q.contents == Enqueued(old(q.contents), q.qSize, item) && looper.pipe == old(looper.pipe) + [Wake]
    {
      if kind == KILL_MESSAGE {
        looper.SendExit();
        return -1;
      }
      r := LocalAction(data, length, kind);
    }

    /** Dispatcher::dispatch: handles the items up to and including the first one that stops it. */
    method Dispatch() returns (r: int)
      requires Valid()
      modifies this`setup, this`effects, q.Repr
      ensures Valid() && q.Repr == old(q.Repr)
      ensures var n := Dispatcher.Taken(Stops(codec), old(q.contents)); var taken := old(q.contents)[..n];
        && q.contents == old(q.contents)[n..]
        && effects == old(effects) + Effects(codec, taken)
        && setup == (old(setup) || Dispatcher.HasSetup(taken))
        && r == Verdict(codec, old(q.contents))
      ensures Dispatches(codec, old(Now()), Now(), r)
    {
      DispatchedMeaning(codec, q.contents, effects, setup);
      DispatchesIt(codec, Now());
      var size := q.GetSize();
      while size > 0
        invariant Valid() && q.Repr == old(q.Repr) && size == |q.contents|
        invariant Dispatched(codec, q.contents, effects, setup)
               == Dispatched(codec, old(q.contents), old(effects), old(setup))
        decreases size
      {
        var stop, kind := PopAndHandle();
        if stop {
          return if kind == SETUP_MESSAGE then 0 else -1;
        }
        size := q.GetSize();
      }
      r := 0;
    }

    method PopAndHandle() returns (stop: bool, kind: int)
      requires Valid() && q.contents != []
      modifies this`setup, this`effects, q.Repr
      ensures Valid() && q.Repr == old(q.Repr)
      ensures q.contents == old(q.contents)[1..]
      ensures effects == old(effects) + [EffectOf(codec, old(q.contents)[0])]
      ensures setup == (old(setup) || old(q.contents)[0].kind == SETUP_MESSAGE)
      ensures stop == Stops(codec)(old(q.contents)[0]) && kind == old(q.contents)[0].kind
    {
      var pItem := q.Pop();
      kind := pItem.kind;
      stop := Handle(pItem);
    }

    /** One item: a reply goes to the waiting caller's buffer and wakes it; the rest goes to the node's callbacks. */
    method Handle(pItem: NbusCmd) returns (stop: bool)
      requires pItem.Valid()
      modifies this`setup, this`effects
      ensures var item := pItem.Value();
        && effects == old(effects) + [EffectOf(codec, item)]
        && setup == (old(setup) || item.kind == SETUP_MESSAGE)
        && stop == Stops(codec)(item)
        && Yields(codec, item, effects[|old(effects)|]) && (stop <==> EndsDispatch(codec, item))
    {
      EffectYields(codec, pItem.Value());
      StopsMeaning(codec, pItem.Value());
      if pItem.kind == SETUP_MESSAGE {
        setup := true;
        effects := effects + [SetUp];
        return true;
      }
      if pItem.data == null {
        effects := effects + [Invalid];
        return true;
      }
      var payload := pItem.data[..];
      stop := false;
      var doNotCallback := false;
      if pItem.kind == LOCAL_MESSAGE && XML_START <= payload {
        var pIXml := codec.parse(payload);
        if pIXml.Some? && pIXml.value.Bus? && pIXml.value.syncId > 0 && pIXml.value.kind == NBUS_TYPE_RESPONSE {
          var effect := ReplyEffect(codec, pIXml.value);
          effects := effects + [effect];
          stop := effect.Broken?;
          doNotCallback := true;
        }
      }
      if !doNotCallback {
        effects := effects + [Deliver(Item(payload, pItem.cmd, pItem.kind))];
      }
    }

    /** Dispatcher::looperCallback: an exit event is not dispatched. */
    method LooperCallback(event: Token)
      requires Valid()
      modifies this`setup, this`effects, q.Repr
      ensures Valid() && q.Repr == old(q.Repr)
      ensures event == Wake ==> q.contents == [] || |q.contents| < old(|q.contents|)
      ensures Now() == Worked(codec, old(Now()), if event == Exit then 0 else 1)
    {
      ghost var a := Now();
      WorkedOnce(codec, a, 0);
      WorkedOnce(codec, a, 1);
      if event == Exit {
        return;
      }
      var _ := Dispatch();
    }

    /** Dispatcher::thread: the looper's wait loop on what is in the pipe, read in batches of any
        sizes, until it exits or would block. Every callback of a batch gets the batch's first token. */
    method Thread(sizes: nat -> nat)
      requires Valid() && !exited && |q.contents| <= CountWakes(looper.pipe)
      modifies this, q.Repr, looper
      ensures Valid() && q.Repr == old(q.Repr)
      ensures exited <==> Exit in old(looper.pipe)
      ensures !exited ==> looper.pipe == [] && q.contents == []
      ensures exited && ExitLast(old(looper.pipe)) ==> looper.pipe == [] && q.contents == []
      ensures Now() == Worked(codec, old(Now()), DrainsOf(sizes, 0, old(looper.pipe)))
    {
      ghost var counts := (turn: nat, pipe: seq<Token>) => DrainsOf(sizes, turn, pipe);
      forall turn: nat, pipe: seq<Token>
        ensures CountsDrains(sizes, counts, turn, pipe)
      {
      }
      Wait(sizes, counts);
    }

    /** The loop itself; `counts` tells how many draining callbacks a pipe leads to. */
    method Wait(sizes: nat -> nat, ghost counts: (nat, seq<Token>) -> nat)
      requires Valid() && !exited && |q.contents| <= CountWakes(looper.pipe)
      requires forall turn, pipe :: CountsDrains(sizes, counts, turn, pipe)
      modifies this, q.Repr, looper
      ensures Valid() && q.Repr == old(q.Repr)
      ensures Awaits(old(looper.pipe), looper.pipe, |q.contents|, exited) && (looper.pipe == [] || exited)
      ensures Now() == Worked(codec, old(Now()), counts(0, old(looper.pipe)))
    {
      ghost var start, tokens, all := Now(), looper.pipe, counts(0, looper.pipe);
      ghost var done: nat := 0;
      var turn := 0;
      while looper.pipe != [] && !exited
        invariant Valid() && q.Repr == old(q.Repr)
        invariant Now() == Worked(codec, start, done)
        invariant Awaits(tokens, looper.pipe, |q.contents|, exited)
        invariant all == done + if exited then 0 else counts(turn, looper.pipe)
        decreases |looper.pipe|
      {
        ghost var queued, pipe := |q.contents|, looper.pipe;
        ghost var more := ReadOnce(sizes, turn, counts);
        AwaitsTrans(tokens, pipe, queued, looper.pipe, |q.contents|, exited);
        WorkedTrans(codec, start, done, more);
        turn, done := turn + 1, done + more;
      }
      assert !exited ==> CountsDrains(sizes, counts, turn, looper.pipe);
    }

    /** One read of at most sizes(turn) + 1 tokens and the callbacks for them. */
    method ReadOnce(sizes: nat -> nat, turn: nat, ghost counts: (nat, seq<Token>) -> nat) returns (ghost drains: nat)
      requires Valid() && !exited && looper.pipe != [] && |q.contents| <= CountWakes(looper.pipe)
      requires forall turn, pipe :: CountsDrains(sizes, counts, turn, pipe)
      modifies this, q.Repr, looper
      ensures Valid() && q.Repr == old(q.Repr)
      ensures Now() == Worked(codec, old(Now()), drains)
      ensures |looper.pipe| < old(|looper.pipe|)
      ensures Awaits(old(looper.pipe), looper.pipe, |q.contents|, exited)
      ensures counts(turn, old(looper.pipe)) == drains + if exited then 0 else counts(turn + 1, looper.pipe)
    {
      ghost var pipe := looper.pipe;
      assert CountsDrains(sizes, counts, turn, pipe);
      var k := BatchSize(sizes(turn), looper.pipe);
      var batch := looper.ReadBatch(k);
      assert batch == pipe[..k] && looper.pipe == pipe[k..];
      CountWakesConcat(batch, looper.pipe);
      RunBatch(batch);
      drains := Drains(batch);
      AwaitsRest(batch, looper.pipe, |q.contents|, exited);
    }

    /** The callback for one token, which ends the loop if it is the exit token. */
    method Turn(event: Token, token: Token)
      requires Valid() && !exited
      modifies this, q.Repr
      ensures Valid() && q.Repr == old(q.Repr)
      ensures Now() == Worked(codec, old(Now()), if event == Exit then 0 else 1)
      ensures exited <==> token == Exit
      ensures |q.contents| <= old(|q.contents|)
      ensures event == Wake ==> q.contents == [] || |q.contents| < old(|q.contents|)
    {
      LooperCallback(event);
      ghost var now := Now();
      if token == Exit {
        exited := true;
        assert Now() == now;
      }
    }

    method RunBatch(batch: seq<Token>)
      requires Valid() && !exited && batch != []
      requires |q.contents| <= CountWakes(batch) + CountWakes(looper.pipe)
      modifies this, q.Repr
      ensures Valid() && q.Repr == old(q.Repr)
      ensures Now() == Worked(codec, old(Now()), Drains(batch))
      ensures exited <==> Exit in batch
      ensures !exited || ExitLast(batch) ==> |q.contents| <= CountWakes(looper.pipe)
    {
      ghost var start := Now();
      ghost var done: nat := 0;
      var i := 0;
      while i < |batch| && !exited
        invariant 0 <= i <= |batch| && Valid() && q.Repr == old(q.Repr)
        invariant Now() == Worked(codec, start, done) && done == if batch[0] == Exit then 0 else i
        invariant CalledBack(batch, i, exited, |q.contents|, CountWakes(looper.pipe))
      {
        ghost var earlier := Now();
        Turn(batch[0], batch[i]);
        BatchStep(batch, i, |earlier.q|, |q.contents|, CountWakes(looper.pipe));
        WorkedTrans(codec, start, done, if batch[0] == Exit then 0 else 1);
        i, done := i + 1, if batch[0] == Exit then 0 else done + 1;
      }
      BatchDone(batch, i, exited, |q.contents|, CountWakes(looper.pipe));
    }
  }

  // ----- tokens and queue size -----

  /** What is left of a pipe, and how many items of the queue, when the looper has worked on it for a while. */
  predicate Awaits(tokens: seq<Token>, pipe: seq<Token>, queued: nat, exited: bool) {
    if exited then Exit in tokens && (ExitLast(tokens) ==> pipe == [] && queued == 0)
    else queued <= CountWakes(pipe) && (Exit in tokens <==> Exit in pipe) && (ExitLast(tokens) ==> ExitLast(pipe))
  }

  lemma AwaitsTrans(a: seq<Token>, b: seq<Token>, n: nat, c: seq<Token>, m: nat, exited: bool)
    requires Awaits(a, b, n, false) && Awaits(b, c, m, exited)
    ensures Awaits(a, c, m, exited)
  {
  }

  lemma AwaitsRest(batch: seq<Token>, pipe: seq<Token>, queued: nat, exited: bool)
    requires exited <==> Exit in batch
    requires !exited || ExitLast(batch) ==> queued <= CountWakes(pipe)
    ensures Awaits(batch + pipe, pipe, queued, exited)
  {
    if ExitLast(batch + pipe) {
      ExitLastSplit(batch, pipe);
    }
  }

  /** i tokens of the batch have been called back for. */
  predicate CalledBack(batch: seq<Token>, i: nat, exited: bool, queued: nat, wakes: nat)
    requires i <= |batch|
  {
    && (if exited then i > 0 && batch[i - 1] == Exit && Exit !in batch[..i - 1] else Exit !in batch[..i])
    && (!exited || ExitLast(batch) ==> queued <= CountWakes(batch[i..]) + wakes)
  }

  /** One more callback takes an item if there is one, unless its batch starts with the exit token. */
  lemma BatchStep(batch: seq<Token>, i: nat, queued: nat, queued': nat, wakes: nat)
    requires i < |batch| && CalledBack(batch, i, false, queued, wakes)
    requires queued' <= queued && (batch[0] == Wake ==> queued' == 0 || queued' < queued)
    ensures CalledBack(batch, i + 1, batch[i] == Exit, queued', wakes)
  {
    TokenOfBatch(batch, i);
  }

  lemma BatchDone(batch: seq<Token>, i: nat, exited: bool, queued: nat, wakes: nat)
    requires batch != []
    requires i <= |batch| && CalledBack(batch, i, exited, queued, wakes) && (i == |batch| || exited)
    ensures exited <==> Exit in batch
    ensures !exited || ExitLast(batch) ==> queued <= wakes
    ensures Drains(batch) == if batch[0] == Exit then 0 else i
  {
    if exited {
      ExitEndsBatch(batch, i - 1);
      FirstExit(batch, i - 1);
    } else {
      assert batch[..i] == batch && batch[i..] == [];
    }
  }

  lemma FirstExit(batch: seq<Token>, i: nat)
    requires i < |batch| && batch[i] == Exit && Exit !in batch[..i]
    ensures Before(batch) == i
  {
    assert batch == batch[..i] + batch[i..];
    BeforeConcat(batch[..i], batch[i..]);
  }

  /** What one token of a batch contributes. */
  lemma TokenOfBatch(batch: seq<Token>, i: nat)
    requires i < |batch| && Exit !in batch[..i]
    ensures CountWakes(batch[i..]) == (if batch[i] == Wake then 1 else 0) + CountWakes(batch[i + 1..])
    ensures batch[i] == Wake ==> batch[0] == Wake && Exit !in batch[..i + 1]
    ensures batch[i] == Exit && ExitLast(batch) ==> batch[i + 1..] == []
  {
    assert batch[i..][1..] == batch[i + 1..] && batch[..i + 1] == batch[..i] + [batch[i]];
    assert i > 0 ==> batch[..i][0] == batch[0];
    if batch[i] == Exit {
      ExitEndsBatch(batch, i);
    }
  }

  lemma ExitEndsBatch(batch: seq<Token>, i: nat)
    requires i < |batch| && batch[i] == Exit
    ensures ExitLast(batch) ==> i == |batch| - 1 && batch[i + 1..] == []
  {
    if i < |batch| - 1 {
      assert batch[..|batch| - 1][i] == Exit;
    }
  }

  /** The rest of the queue, the effects, the set-up flag and the result of dispatch, item by item. */
  datatype Dispatch = Dispatch(rest: seq<Item>, effects: seq<Effect>, setup: bool, result: int)

  function Dispatched(codec: Codec, q: seq<Item>, effects: seq<Effect>, setup: bool): (d: Dispatch)
    decreases |q|
  {
    if q == [] then Dispatch([], effects, setup, 0)
    else
      var effects', setup' := effects + [EffectOf(codec, q[0])], setup || q[0].kind == SETUP_MESSAGE;
      if Stops(codec)(q[0]) then Dispatch(q[1..], effects', setup', if q[0].kind == SETUP_MESSAGE then 0 else -1)
      else Dispatched(codec, q[1..], effects', setup')
  }

  /** In one piece: exactly the items up to the first stopping one are handled, in order. */
  lemma {:induction false} DispatchedMeaning(codec: Codec, q: seq<Item>, effects: seq<Effect>, setup: bool)
    ensures var n := Dispatcher.Taken(Stops(codec), q);
      Dispatched(codec, q, effects, setup)
        == Dispatch(q[n..], effects + Effects(codec, q[..n]), setup || Dispatcher.HasSetup(q[..n]), Verdict(codec, q))
    decreases |q|
  {
    if q == [] {
      assert effects + [] == effects;
    } else {
      var effect := EffectOf(codec, q[0]);
      var n := if Stops(codec)(q[0]) then 0 else Dispatcher.Taken(Stops(codec), q[1..]);
      if !Stops(codec)(q[0]) {
        DispatchedMeaning(codec, q[1..], effects + [effect], setup || q[0].kind == SETUP_MESSAGE);
      }
      Dispatcher.TakenStep(Stops(codec), q);
      assert Effects(codec, q[..n + 1]) == [effect] + Effects(codec, q[1..][..n]);
      assert effects + ([effect] + Effects(codec, q[1..][..n])) == (effects + [effect]) + Effects(codec, q[1..][..n]);
      Dispatcher.HasSetupConcat([q[0]], q[1..][..n]);
      assert Dispatcher.HasSetup([q[0]]) <==> [q[0]][0].kind == SETUP_MESSAGE;
    }
  }
}
