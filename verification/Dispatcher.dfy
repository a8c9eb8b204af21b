/** The queue, its wake pipe and the dispatcher thread, as a transition system over all interleavings.

    Producers push an item and then, separately, write one wake token. The dispatcher reads any
    number of tokens, calls back once per token, and each callback drains the queue until it is empty
    or an item makes it return early. Critical sections are single steps. */
module Dispatcher {
  import opened Messages
  import opened CmdQueue
  import opened Looper

  /** The one coordinator thread; every other number is a thread that calls addQueue or the like. */
  const COORDINATOR := 0

  /** What the coordinator posts when it has been set up. */
  const SETUP_ITEM := Item([], 0, SETUP_MESSAGE)

  type Positive = n: nat | n > 0 witness 1

  /** capacity of the queue; the items on which a callback returns early; whether the callback itself looks at
      the event it is given, and whether SETUP is queued (both NodeAdapter's way, neither DefaultService's);
      and how many tokens fit into the dispatcher's read buffer. */
  datatype Config = Config(
    capacity: nat, stops: Item -> bool, checksEvent: bool, queuesSetup: bool, batch: Positive)

  /** Where the dispatcher thread is. `first` is the start of the batch, which every callback of the
      batch is given; `current` is the token being handled, None for a timeout; `rest` are the tokens after it. */
  datatype Pc =
    | Polling
    | Calling(first: Token, rest: seq<Token>)
    | Draining(first: Token, current: Cause, rest: seq<Token>, popped: bool)
    | Popping(first: Token, current: Cause, rest: seq<Token>, popped: bool)
    | Checking(first: Token, current: Cause, rest: seq<Token>)
    | Exited(rest: seq<Token>)

  /** Why the dispatcher is calling back: its poll ran out, or it has read a token. */
  datatype Cause = Timeout | Read(token: Token)

  /** Where the coordinator thread is in setupLocalNode: it binds, listens, calls back SETUP, serves
      connections until a KILL; a failing bind or listen ends it. */
  datatype Coordinator = Starting | Bound | Listening | Serving | Killed | Failed

  datatype State = State(
    queue: seq<Item>, accepted: seq<Item>, popped: seq<Item>,  // contents and history
    between: set<nat>,                                         // threads between push and wakeup
    pipe: seq<Token>, pc: Pc, coordinator: Coordinator, setup: bool)

  datatype Step =
    | Bind(ok: bool) | Listen(ok: bool) | PostSetup
    | Push(thread: nat, item: Item) | Wakeup(thread: nat) | Kill
    | ReadPipe(k: nat) | TimeOut | Call | GetSize | Pop | Check

  function Initial(): (s: State) {
    State([], [], [], {}, [], Polling, Starting, false)
  }

  predicate Enabled(s: State, t: Step) {
    match t
    case Bind(_) => s.coordinator == Starting
    case Listen(_) => s.coordinator == Bound
    case PostSetup => s.coordinator == Listening && COORDINATOR !in s.between
    // Messages of any type arrive at the coordinator; the other threads do not post SETUP.
    case Push(p, item) =>
      p !in s.between && if p == COORDINATOR then s.coordinator == Serving else item.kind != SETUP_MESSAGE
    case Wakeup(p) => p in s.between
    case Kill => s.coordinator == Serving && COORDINATOR !in s.between
    case ReadPipe(k) => s.pc.Polling? && 0 < k <= |s.pipe|
    case TimeOut => s.pc.Polling?
    case Call => s.pc.Calling? && s.pc.rest != []
    case GetSize => s.pc.Draining?
    case Pop => s.pc.Popping?
    case Check => s.pc.Checking?
  }

  /** A push, accepted or refused; the wakeup is still to come. */
  function Posted(c: Config, s: State, p: nat, item: Item): (r: State) {
    s.(queue := Enqueued(s.queue, c.capacity, item),
       accepted := if |s.queue| < c.capacity then s.accepted + [item] else s.accepted,
       between := s.between + {p})
  }

  function Do(c: Config, s: State, t: Step): (r: State)
    requires Enabled(s, t)
  {
    match t
    case Bind(ok) => s.(coordinator := if ok then Bound else Failed)
    case Listen(ok) => s.(coordinator := if ok then Listening else Failed)
    case PostSetup =>
      (if c.queuesSetup then Posted(c, s, COORDINATOR, SETUP_ITEM) else s).(coordinator := Serving)
    case Push(p, item) => Posted(c, s, p, item)
    case Wakeup(p) => s.(pipe := s.pipe + [Wake], between := s.between - {p})
    case Kill => s.(pipe := s.pipe + [Exit], coordinator := Killed)
    case ReadPipe(k) => s.(pipe := s.pipe[k..], pc := Calling(s.pipe[0], s.pipe[..k]))
    case TimeOut => s.(pc := Draining(Wake, Timeout, [], false))
    case Call =>
      var first, current, rest := s.pc.first, Read(s.pc.rest[0]), s.pc.rest[1..];
      s.(pc := if c.checksEvent && first == Exit then Checking(first, current, rest)
               else Draining(first, current, rest, false))
    case GetSize =>
      s.(pc := if s.queue == [] then Checking(s.pc.first, s.pc.current, s.pc.rest)
               else Popping(s.pc.first, s.pc.current, s.pc.rest, s.pc.popped))
    case Pop =>
      if s.queue == [] then s.(pc := Draining(s.pc.first, s.pc.current, s.pc.rest, s.pc.popped))
      else
        var item := s.queue[0];
        s.(queue := Dequeued(s.queue), popped := s.popped + [item],
           setup := s.setup || item.kind == SETUP_MESSAGE,
           pc := if c.stops(item) then Checking(s.pc.first, s.pc.current, s.pc.rest)
                 else Draining(s.pc.first, s.pc.current, s.pc.rest, true))
    case Check =>
      s.(pc := if s.pc.current == Read(Exit) then Exited(s.pc.rest)
               else if s.pc.rest == [] then Polling
               else Calling(s.pc.first, s.pc.rest))
  }

  // ----- runs -----

  ghost predicate IsRun(c: Config, from: State, steps: seq<Step>)
    decreases |steps|
  {
    steps == [] || (Enabled(from, steps[0]) && IsRun(c, Do(c, from, steps[0]), steps[1..]))
  }

  function After(c: Config, from: State, steps: seq<Step>): (s: State)
    requires IsRun(c, from, steps)
    decreases |steps|
  {
    if steps == [] then from else After(c, Do(c, from, steps[0]), steps[1..])
  }

  lemma RunCons(c: Config, s: State, t: Step, rest: seq<Step>)
    requires Enabled(s, t) && IsRun(c, Do(c, s, t), rest)
    ensures IsRun(c, s, [t] + rest) && After(c, s, [t] + rest) == After(c, Do(c, s, t), rest)
  {
    assert ([t] + rest)[1..] == rest;
  }

  // ----- no message is stranded -----

  /** The callbacks that are still bound to come, or have not popped yet. */
  function Credit(s: State): (n: nat) {
    |s.between| + CountWakes(s.pipe) +
    match s.pc
    case Polling => 0
    case Calling(_, rest) => CountWakes(rest)
    case Draining(_, _, rest, popped) => CountWakes(rest) + if popped then 0 else 1
    case Popping(_, _, rest, popped) => CountWakes(rest) + if popped then 0 else 1
    case Checking(_, _, rest) => CountWakes(rest)
    case Exited(rest) => CountWakes(rest)
  }

  predicate HasSetup(q: seq<Item>) {
    exists i :: 0 <= i < |q| && q[i].kind == SETUP_MESSAGE
  }

  /** The tokens that the dispatcher has not checked yet. */
  function Unchecked(s: State): (t: seq<Token>) {
    (match s.pc
     case Polling => []
     case Calling(_, rest) => rest
     case Draining(_, current, rest, _) => Current(current) + rest
     case Popping(_, current, rest, _) => Current(current) + rest
     case Checking(_, current, rest) => Current(current) + rest
     case Exited(rest) => rest) + s.pipe
  }

  function Current(o: Cause): (t: seq<Token>) {
    match o case Timeout => [] case Read(token) => [token]
  }

  /** The coordinator has got past a successful bind and a successful listen. */
  predicate HasListened(s: State) {
    s.coordinator == Serving || s.coordinator == Killed
  }

  /** Every queued item has a callback to come; the history is the contents; SETUP has been accepted
      only from a coordinator that listens; and no exit token is written before the KILL. */
  ghost predicate Inv(c: Config, s: State) {
    && |s.queue| <= Credit(s)
    && |s.queue| <= c.capacity
    && s.popped + s.queue == s.accepted
    && (s.pc.Popping? ==> s.queue != [])
    && (s.pc.Calling? ==> s.pc.rest != [] && (s.pc.first == Exit ==> s.pc.rest[0] == Exit))
    && (s.pc.Draining? || s.pc.Popping? || s.pc.Checking? ==>
          (s.pc.first == Exit ==> s.pc.current == Read(Exit)))
    && (HasSetup(s.accepted) ==> HasListened(s))
    && (s.coordinator != Killed ==> Exit !in Unchecked(s) && !s.pc.Exited?)
    && (s.setup <==> HasSetup(s.popped))
  }

  predicate OfProducers(t: Step) {
    t.Bind? || t.Listen? || t.PostSetup? || t.Push? || t.Wakeup? || t.Kill?
  }

  lemma InitialInv(c: Config)
    ensures Inv(c, Initial())
  {
  }

  /** Only a wakeup, a KILL and a check change the tokens that are still to be checked. */
  lemma UncheckedStep(c: Config, s: State, t: Step)
    requires Enabled(s, t)
    ensures var u, v := Unchecked(s), Unchecked(Do(c, s, t));
      match t
      case Wakeup(_) => v == u + [Wake]
      case Kill => v == u + [Exit]
      case Check => u == Current(s.pc.current) + v
      case _ => v == u
  {
    match t
    case Wakeup(_) => UncheckedAppends(s, Do(c, s, t), Wake);
    case Kill => UncheckedAppends(s, Do(c, s, t), Exit);
    case ReadPipe(k) => assert s.pipe[..k] + s.pipe[k..] == s.pipe;
    case Call => UncheckedCall(c, s);
    case _ =>
  }

  lemma UncheckedAppends(s: State, r: State, token: Token)
    requires r.pc == s.pc && r.pipe == s.pipe + [token]
    ensures Unchecked(r) == Unchecked(s) + [token]
  {
  }

  lemma UncheckedCall(c: Config, s: State)
    requires Enabled(s, Call)
    ensures Unchecked(Do(c, s, Call)) == Unchecked(s)
  {
    assert s.pc.rest == [s.pc.rest[0]] + s.pc.rest[1..];
  }

  lemma ProducerKeepsInv(c: Config, s: State, t: Step)
    requires Inv(c, s) && Enabled(s, t) && OfProducers(t)
    ensures Inv(c, Do(c, s, t))
  {
    match t
    case Push(p, item) => UncheckedStep(c, s, t); PostedKeepsInv(c, s, p, item);
    case PostSetup => UncheckedStep(c, s, t); PostedKeepsInv(c, s, COORDINATOR, SETUP_ITEM);
    case Wakeup(p) => WakeupKeepsInv(c, s, p);
    case Kill => CountWakesConcat(s.pipe, [Exit]);
    case _ =>
  }

  lemma WakeupKeepsInv(c: Config, s: State, p: nat)
    requires Inv(c, s) && p in s.between
    ensures Inv(c, Do(c, s, Wakeup(p)))
  {
    UncheckedStep(c, s, Wakeup(p));
    CountWakesConcat(s.pipe, [Wake]);
  }

  lemma PostedKeepsInv(c: Config, s: State, p: nat, item: Item)
    requires Inv(c, s) && p !in s.between
    ensures var r := Posted(c, s, p, item);
      && |r.queue| <= Credit(r) && |r.queue| <= c.capacity && r.popped + r.queue == r.accepted
      && (HasSetup(r.accepted) ==> HasSetup(s.accepted) || item.kind == SETUP_MESSAGE)
  {
    assert s.popped + (s.queue + [item]) == s.accepted + [item];
    HasSetupConcat(s.accepted, [item]);
    assert HasSetup([item]) <==> [item][0].kind == SETUP_MESSAGE;
  }

  lemma DispatcherKeepsInv(c: Config, s: State, t: Step)
    requires Inv(c, s) && Enabled(s, t) && !OfProducers(t)
    ensures Inv(c, Do(c, s, t))
  {
    UncheckedStep(c, s, t);
    match t
    case ReadPipe(k) =>
      CountWakesConcat(s.pipe[..k], s.pipe[k..]);
      assert s.pipe == s.pipe[..k] + s.pipe[k..];
    case Pop =>
      HasSetupConcat(s.popped, [s.queue[0]]);
      assert HasSetup([s.queue[0]]) <==> [s.queue[0]][0].kind == SETUP_MESSAGE;
      assert (s.popped + [s.queue[0]]) + s.queue[1..] == s.popped + s.queue;
    case _ =>
  }

  lemma HasSetupConcat(a: seq<Item>, b: seq<Item>)
    ensures HasSetup(a + b) <==> HasSetup(a) || HasSetup(b)
  {
    if i :| 0 <= i < |a| && a[i].kind == SETUP_MESSAGE {
      assert (a + b)[i].kind == SETUP_MESSAGE;
    }
    if i :| 0 <= i < |b| && b[i].kind == SETUP_MESSAGE {
      assert (a + b)[|a| + i].kind == SETUP_MESSAGE;
    }
  }

  lemma StepKeepsInv(c: Config, s: State, t: Step)
    requires Inv(c, s) && Enabled(s, t)
    ensures Inv(c, Do(c, s, t))
  {
    if OfProducers(t) {
      ProducerKeepsInv(c, s, t);
    } else {
      DispatcherKeepsInv(c, s, t);
    }
  }

  /** Every reachable state satisfies the invariant. */
  lemma {:induction false} RunKeepsInv(c: Config, from: State, steps: seq<Step>)
    requires Inv(c, from) && IsRun(c, from, steps)
    ensures Inv(c, After(c, from, steps))
    decreases |steps|
  {
    if steps != [] {
      StepKeepsInv(c, from, steps[0]);
      RunKeepsInv(c, Do(c, from, steps[0]), steps[1..]);
    }
  }

  predicate Idle(s: State) {
    s.pc == Polling && s.between == {} && CountWakes(s.pipe) == 0
  }

  /** No message is stranded: in every run each queued item has a callback still to come, so when
      everything is idle the queue is empty and all that was accepted has been popped. */
  lemma NoStrandedMessage(c: Config, steps: seq<Step>)
    requires IsRun(c, Initial(), steps)
    ensures var s := After(c, Initial(), steps);
      && |s.queue| <= Credit(s)
      && (Idle(s) ==> s.queue == [] && s.popped == s.accepted)
  {
    InitialInv(c);
    RunKeepsInv(c, Initial(), steps);
    var s := After(c, Initial(), steps);
    if Idle(s) {
      assert s.popped + [] == s.popped;
    }
  }

  /** Exactly once and in order: what has been popped, followed by what is queued, is what has been
      accepted; and neither history is ever rewritten. */
  lemma {:induction false} ExactlyOnceFifo(c: Config, from: State, steps: seq<Step>)
    requires Inv(c, from) && IsRun(c, from, steps)
    ensures var s := After(c, from, steps);
      && s.popped + s.queue == s.accepted
      && from.popped <= s.popped && from.accepted <= s.accepted
    decreases |steps|
  {
    RunKeepsInv(c, from, steps);
    if steps != [] {
      StepKeepsInv(c, from, steps[0]);
      StepExtendsHistory(c, from, steps[0]);
      ExactlyOnceFifo(c, Do(c, from, steps[0]), steps[1..]);
    }
  }

  lemma StepExtendsHistory(c: Config, s: State, t: Step)
    requires Enabled(s, t)
    ensures s.popped <= Do(c, s, t).popped && s.accepted <= Do(c, s, t).accepted
  {
  }

  /** NodeAdapter::run's wait ends only after bind and listen have both succeeded. */
  lemma SetupHandshake(c: Config, steps: seq<Step>)
    requires IsRun(c, Initial(), steps)
    ensures var s := After(c, Initial(), steps);
      s.setup ==> HasListened(s) && Bind(true) in steps && Listen(true) in steps
  {
    InitialInv(c);
    RunKeepsInv(c, Initial(), steps);
    var s := After(c, Initial(), steps);
    HasSetupConcat(s.popped, s.queue);
    if s.setup {
      CoordinatorProgress(c, Initial(), steps);
    }
  }

  /** The coordinator serves only after it has got through its own steps in order. */
  lemma {:induction false} CoordinatorProgress(c: Config, from: State, steps: seq<Step>)
    requires IsRun(c, from, steps) && HasListened(After(c, from, steps))
    ensures from.coordinator.Starting? ==> Bind(true) in steps
    ensures from.coordinator.Starting? || from.coordinator.Bound? ==> Listen(true) in steps
    ensures !from.coordinator.Failed?
    decreases |steps|
  {
    if steps != [] {
      CoordinatorProgress(c, Do(c, from, steps[0]), steps[1..]);
      assert steps == [steps[0]] + steps[1..];
    }
  }

  // ----- without new messages, the dispatcher gets to rest -----

  /** A step of a thread that finishes its wakeup, or of the dispatcher other than a timeout. */
  predicate Quiet(t: Step) {
    t.Wakeup? || t.ReadPipe? || t.Call? || t.GetSize? || t.Pop? || t.Check?
  }

  function Rank(s: State): (n: nat) {
    3 * |s.queue| + 5 * |s.between| + 4 * |s.pipe| +
    match s.pc
    case Polling => 0
    case Calling(_, rest) => 3 * |rest|
    case Draining(_, _, rest, _) => 3 * |rest| + 2
    case Popping(_, _, rest, _) => 3 * |rest| + 1
    case Checking(_, _, rest) => 3 * |rest| + 1
    case Exited(_) => 0
  }

  /** Quiet steps come to an end; and where none is left, either the looper has exited
      or everything accepted has been popped, whatever the early returns left behind. */
  lemma {:induction false} QuietRunsDrain(c: Config, from: State, steps: seq<Step>)
    requires Inv(c, from) && IsRun(c, from, steps)
    requires forall i :: 0 <= i < |steps| ==> Quiet(steps[i])
    ensures var s := After(c, from, steps);
      && |steps| + Rank(s) <= Rank(from)
      && ((forall t :: Quiet(t) ==> !Enabled(s, t)) && !s.pc.Exited? ==>
            s.queue == [] && s.popped == s.accepted && s.pc == Polling && s.between == {})
    decreases |steps|
  {
    if steps == [] {
      if (forall t :: Quiet(t) ==> !Enabled(from, t)) && !from.pc.Exited? {
        Stuck(c, from);
      }
    } else {
      QuietStepRanks(c, from, steps[0]);
      StepKeepsInv(c, from, steps[0]);
      QuietRunsDrain(c, Do(c, from, steps[0]), steps[1..]);
    }
  }

  lemma QuietStepRanks(c: Config, s: State, t: Step)
    requires Inv(c, s) && Enabled(s, t) && Quiet(t)
    ensures Rank(Do(c, s, t)) < Rank(s)
  {
  }

  lemma Stuck(c: Config, s: State)
    requires Inv(c, s) && !s.pc.Exited?
    requires forall t :: Quiet(t) ==> !Enabled(s, t)
    ensures s.queue == [] && s.popped == s.accepted && s.pc == Polling && s.between == {}
  {
    assert !Enabled(s, ReadPipe(1)) && !Enabled(s, Call) && !Enabled(s, GetSize);
    assert !Enabled(s, Pop) && !Enabled(s, Check);
    if p :| p in s.between {
      assert Enabled(s, Wakeup(p));
    }
    assert s.popped + [] == s.popped;
  }

  // ----- bounded waiting -----

  predicate OfDispatcher(t: Step) { !OfProducers(t) }

  function DispatcherSteps(steps: seq<Step>): (n: nat) {
    if steps == [] then 0 else (if OfDispatcher(steps[0]) then 1 else 0) + DispatcherSteps(steps[1..])
  }

  /** How many steps the dispatcher takes at most to pop the next item of a queue that holds one, or to exit. */
  function NextPop(c: Config, s: State): (n: nat)
    ensures n <= 5
  {
    match s.pc
    case Polling => 4
    case Calling(_, _) => 3
    case Draining(_, _, _, _) => 2
    case Popping(_, _, _, _) => 1
    case Checking(_, current, _) => if current == Read(Exit) then 1 else 5
    case Exited(_) => 0
  }

  /** The steps until item n of the history has been popped. */
  function Lag(c: Config, s: State, n: nat): (l: nat)
    requires |s.popped| <= n
  {
    5 * (n + 1 - |s.popped|) + NextPop(c, s)
  }

  lemma LagStep(c: Config, s: State, t: Step, n: nat)
    requires Inv(c, s) && Enabled(s, t) && |s.popped| <= n < |s.accepted|
    ensures var r := Do(c, s, t);
      || r.pc.Exited? || n < |r.popped|
      || Lag(c, r, n) + (if OfDispatcher(t) then 1 else 0) <= Lag(c, s, n)
  {
    assert |s.popped| + |s.queue| == |s.accepted|;
  }

  lemma {:induction false} LagRun(c: Config, from: State, steps: seq<Step>, n: nat)
    requires Inv(c, from) && IsRun(c, from, steps) && |from.popped| <= n < |from.accepted|
    ensures var s := After(c, from, steps);
      || s.pc.Exited? || n < |s.popped| || Lag(c, s, n) + DispatcherSteps(steps) <= Lag(c, from, n)
    decreases |steps|
  {
    if steps != [] {
      var next := Do(c, from, steps[0]);
      StepKeepsInv(c, from, steps[0]);
      ExactlyOnceFifo(c, next, steps[1..]);
      LagStep(c, from, steps[0], n);
      StepExtendsHistory(c, from, steps[0]);
      if next.pc.Exited? {
        ExitIsFinal(c, next, steps[1..]);
      } else if |next.popped| <= n {
        LagRun(c, next, steps[1..], n);
      }
    }
  }

  lemma {:induction false} ExitIsFinal(c: Config, from: State, steps: seq<Step>)
    requires from.pc.Exited? && IsRun(c, from, steps)
    ensures After(c, from, steps).pc.Exited?
    decreases |steps|
  {
    if steps != [] {
      ExitIsFinal(c, Do(c, from, steps[0]), steps[1..]);
    }
  }

  /** An item at place k of the queue has been popped, or the looper has exited, after 5 * (k + 1) steps of the
      dispatcher, whatever its batches and early returns and however many items others go on pushing. */
  lemma BoundedWaiting(c: Config, from: State, steps: seq<Step>, k: nat)
    requires Inv(c, from) && IsRun(c, from, steps) && k < |from.queue|
    requires DispatcherSteps(steps) >= 5 * (k + 1)
    ensures var s, n := After(c, from, steps), |from.popped| + k;
      s.pc.Exited? || (n < |s.popped| && s.popped[n] == from.queue[k])
  {
    var n := |from.popped| + k;
    PlaceInHistory(c, from, steps, k);
    LagRun(c, from, steps, n);
  }

  lemma PlaceInHistory(c: Config, from: State, steps: seq<Step>, k: nat)
    requires Inv(c, from) && IsRun(c, from, steps) && k < |from.queue|
    ensures var s, n := After(c, from, steps), |from.popped| + k;
      n < |from.accepted| && (n < |s.popped| ==> s.popped[n] == from.queue[k])
  {
    var s, n := After(c, from, steps), |from.popped| + k;
    ExactlyOnceFifo(c, from, steps);
    assert (from.popped + from.queue)[n] == from.queue[k];
    assert n < |s.popped| ==> (s.popped + s.queue)[n] == s.popped[n];
  }

  // ----- one callback without interference -----

  /** How many items one callback takes off a queue that nobody else touches. */
  function Taken(stops: Item -> bool, q: seq<Item>): (n: nat)
    ensures n <= |q| && (q != [] ==> n > 0)
  {
    if q == [] then 0 else if stops(q[0]) then 1 else 1 + Taken(stops, q[1..])
  }

  /** The steps of a callback that nobody interrupts. */
  function CallbackSteps(stops: Item -> bool, q: seq<Item>): (steps: seq<Step>) {
    if q == [] then [GetSize]
    else [GetSize] + ([Pop] + if stops(q[0]) then [] else CallbackSteps(stops, q[1..]))
  }

  /** Taking n items off the queue and handing control back to the looper. */
  function Took(s: State, n: nat): (r: State)
    requires n <= |s.queue| && s.pc.Draining?
  {
    s.(queue := s.queue[n..], popped := s.popped + s.queue[..n],
       setup := s.setup || HasSetup(s.queue[..n]),
       pc := Checking(s.pc.first, s.pc.current, s.pc.rest))
  }

  /** An undisturbed callback pops exactly the items up to the first stopping one. */
  lemma {:induction false} UndisturbedCallback(c: Config, s: State)
    requires s.pc.Draining?
    ensures IsRun(c, s, CallbackSteps(c.stops, s.queue))
    ensures After(c, s, CallbackSteps(c.stops, s.queue)) == Took(s, Taken(c.stops, s.queue))
    decreases |s.queue|
  {
    var s1 := Do(c, s, GetSize);
    if s.queue == [] {
      RunCons(c, s, GetSize, []);
      assert [GetSize] + [] == [GetSize];
      assert s.popped + [] == s.popped;
    } else {
      var s2 := Do(c, s1, Pop);
      var more := if c.stops(s.queue[0]) then [] else CallbackSteps(c.stops, s.queue[1..]);
      if !c.stops(s.queue[0]) {
        UndisturbedCallback(c, s2);
      }
      TookOneMore(c, s);
      RunCons(c, s1, Pop, more);
      RunCons(c, s, GetSize, [Pop] + more);
    }
  }

  lemma TookOneMore(c: Config, s: State)
    requires s.pc.Draining? && s.queue != []
    ensures var s2, n := Do(c, Do(c, s, GetSize), Pop), Taken(c.stops, s.queue) - 1;
      Took(s, n + 1) == if c.stops(s.queue[0]) then s2 else Took(s2, n)
  {
    TakenStep(c.stops, s.queue);
    var n := Taken(c.stops, s.queue) - 1;
    var q := s.queue[1..][..n];
    assert s.popped + ([s.queue[0]] + q) == (s.popped + [s.queue[0]]) + q;
    HasSetupConcat([s.queue[0]], q);
    assert HasSetup([s.queue[0]]) <==> [s.queue[0]][0].kind == SETUP_MESSAGE;
  }

  lemma TakenStep(stops: Item -> bool, q: seq<Item>)
    requires q != []
    ensures var n := Taken(stops, q) - 1;
      && n == (if stops(q[0]) then 0 else Taken(stops, q[1..]))
      && q[..n + 1] == [q[0]] + q[1..][..n] && q[n + 1..] == q[1..][n..]
  {
  }
}
