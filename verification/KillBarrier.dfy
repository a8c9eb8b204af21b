/** KILL and the items that were posted before it (service/NodeAdapter.cpp:86-96, service/NodeLooper.cpp:124-185). */
module KillBarrier {
  import opened Messages
  import opened CmdQueue
  import opened Looper
  import opened Dispatcher

  // ----- how much of the pipe one read takes -----

  /** read(fd, buff, BUFSIZ) takes all the tokens there are, or as many as fit. */
  function Batch(c: Config, pipe: seq<Token>): (k: nat) {
    if |pipe| < c.batch then |pipe| else c.batch
  }

  predicate WholeRead(c: Config, s: State, t: Step) {
    t.ReadPipe? ==> t.k == Batch(c, s.pipe)
  }

  ghost predicate WholeReads(c: Config, from: State, steps: seq<Step>)
    requires IsRun(c, from, steps)
    decreases |steps|
  {
    steps != [] ==> WholeRead(c, from, steps[0]) && WholeReads(c, Do(c, from, steps[0]), steps[1..])
  }

  /** The runs that a statement is about: those with whole reads, or those that cut the pipe anywhere as well. */
  ghost predicate Reads(c: Config, from: State, steps: seq<Step>, whole: bool)
    requires IsRun(c, from, steps)
  {
    whole ==> WholeReads(c, from, steps)
  }

  // ----- the callbacks that are certain to come -----

  /** The tokens that the dispatcher has not called back for yet. */
  function Uncalled(s: State): (t: seq<Token>) {
    InBatch(s) + s.pipe
  }

  function InBatch(s: State): (t: seq<Token>) {
    if s.pc.Polling? || s.pc.Exited? then [] else s.pc.rest
  }

  predicate ExitIsCurrent(s: State) {
    !s.pc.Polling? && !s.pc.Calling? && !s.pc.Exited? && s.pc.current == Read(Exit)
  }

  /** An exit token has been written and not been checked, or it has done its work. */
  predicate ExitUnderWay(s: State) { s.pc.Exited? || Exit in Unchecked(s) }

  lemma CurrentIsUnchecked(s: State)
    ensures ExitIsCurrent(s) ==> Exit in Unchecked(s)
    ensures forall x :: x in Uncalled(s) ==> x in Unchecked(s)
    ensures Exit in Unchecked(s) && !ExitIsCurrent(s) && !s.pc.Exited? ==> Exit in Uncalled(s)
  {
  }

  /** Whether the exit token's own callback drains. It does so if it ignores the event it is given; and otherwise if
      its batch starts with another token, which whole reads decide by its place in the pipe. */
  function Own(c: Config, s: State, whole: bool): (n: nat) {
    if !c.checksEvent then 1
    else if !whole then 0
    else if Exit in InBatch(s) then (if s.pc.first == Exit then 0 else 1)
    else if Before(s.pipe) % c.batch == 0 then 0
    else 1
  }

  /** The draining callbacks that are certain to come before the exit: the one under way, one for each
      token in front of the exit token, and the exit token's own. */
  function Certain(c: Config, s: State, whole: bool): (n: nat) {
    (if s.pc.Draining? || s.pc.Popping? then 1 else 0) +
    if s.pc.Exited? || ExitIsCurrent(s) then 0 else Before(Uncalled(s)) + Own(c, s, whole)
  }

  /** Moving tokens changes nothing of that; where reads may be cut, it can only add the exit token's own. */
  lemma TokensMove(c: Config, s: State, t: Step, whole: bool)
    requires Inv(c, s) && ExitUnderWay(s) && Enabled(s, t) && (whole ==> WholeRead(c, s, t))
    requires t.Wakeup? || t.ReadPipe? || t.Call? || t.Check?
    ensures var r := Do(c, s, t);
      && ExitUnderWay(r)
      && Certain(c, s, whole) <= Certain(c, r, whole)
      && (whole ==> Certain(c, s, whole) == Certain(c, r, whole))
  {
    UncheckedStep(c, s, t);
    CurrentIsUnchecked(s);
    match t
    case Wakeup(p) => LateWakeup(c, s, p, whole);
    case ReadPipe(k) => ReadMoves(c, s, k, whole);
    case Call => CallMoves(c, s, whole);
    case Check => CheckMoves(c, s, whole);
    case _ =>
  }

  /** A token behind the exit token brings no further callback. */
  lemma LateWakeup(c: Config, s: State, p: nat, whole: bool)
    requires ExitUnderWay(s) && Enabled(s, Wakeup(p))
    ensures Certain(c, Do(c, s, Wakeup(p)), whole) == Certain(c, s, whole)
  {
    var r := Do(c, s, Wakeup(p));
    if !s.pc.Exited? && !ExitIsCurrent(s) {
      CurrentIsUnchecked(s);
      assert Uncalled(r) == Uncalled(s) + [Wake];
      BeforeConcat(Uncalled(s), [Wake]);
      LateWakeupOwn(c, s, p, whole);
    }
  }

  lemma LateWakeupOwn(c: Config, s: State, p: nat, whole: bool)
    requires Exit in Uncalled(s) && Enabled(s, Wakeup(p))
    ensures Own(c, Do(c, s, Wakeup(p)), whole) == Own(c, s, whole)
  {
    BeforeConcat(s.pipe, [Wake]);
  }

  lemma ReadMoves(c: Config, s: State, k: nat, whole: bool)
    requires s.pc.Polling? && 0 < k <= |s.pipe| && Exit in s.pipe && (whole ==> k == Batch(c, s.pipe))
    ensures Certain(c, Do(c, s, ReadPipe(k)), whole) == Certain(c, s, whole)
  {
    assert Uncalled(Do(c, s, ReadPipe(k))) == Uncalled(s);
    if whole {
      PlaceInPipe(c, s.pipe);
      if Exit in s.pipe[..k] {
        ModSmall(Before(s.pipe), c.batch);
      } else {
        ModStep(Before(s.pipe), c.batch);
      }
    }
  }

  /** Whole reads put the exit token into a batch as soon as it is near enough, and take whole batches off before. */
  lemma PlaceInPipe(c: Config, pipe: seq<Token>)
    requires Exit in pipe
    ensures var k, n := Batch(c, pipe), Before(pipe);
      if Exit in pipe[..k] then n < c.batch && (pipe[0] == Exit <==> n == 0)
      else n >= c.batch && Before(pipe[k..]) == n - c.batch
  {
    var k, n := Batch(c, pipe), Before(pipe);
    assert pipe == pipe[..k] + pipe[k..];
    BeforeConcat(pipe[..k], pipe[k..]);
    assert n < k ==> pipe[..k][n] == Exit;
  }

  lemma ModSmall(n: nat, m: Positive)
    requires n < m
    ensures n % m == n
  {
  }

  lemma ModStep(n: nat, m: Positive)
    requires m <= n
    ensures (n - m) % m == n % m
  {
    var a, b := n / m, (n - m) / m + 1;
    assert n == a * m + n % m && n - m == (b - 1) * m + (n - m) % m;
    assert (b - 1) * m == b * m - m;
    if a > b {
      MulAtLeast(m, a, b + 1);
    } else if a < b {
      MulAtLeast(m, b, a + 1);
    }
  }

  lemma CallMoves(c: Config, s: State, whole: bool)
    requires Inv(c, s) && s.pc.Calling? && Exit in Uncalled(s)
    ensures var r := Do(c, s, Call);
      && Certain(c, s, whole) <= Certain(c, r, whole)
      && (whole ==> Certain(c, s, whole) == Certain(c, r, whole))
  {
    var r := Do(c, s, Call);
    assert Uncalled(s)[1..] == Uncalled(r) && Uncalled(s)[0] == s.pc.rest[0];
    assert s.pc.rest == [s.pc.rest[0]] + s.pc.rest[1..];
  }

  lemma CheckMoves(c: Config, s: State, whole: bool)
    requires s.pc.Checking?
    ensures Certain(c, Do(c, s, Check), whole) == Certain(c, s, whole)
  {
    if s.pc.current != Read(Exit) {
      assert Uncalled(Do(c, s, Check)) == Uncalled(s);
    }
  }

  /** How many undisturbed callbacks it takes to empty a queue: each ends at a stopping item or at the end. */
  function Rounds(stops: Item -> bool, q: seq<Item>): (n: nat)
    ensures n <= |q| && (n == 0 <==> q == [])
  {
    if q == [] then 0
    else if stops(q[0]) || |q| == 1 then 1 + Rounds(stops, q[1..])
    else Rounds(stops, q[1..])
  }

  lemma {:induction false} RoundsMeaning(stops: Item -> bool, q: seq<Item>)
    requires q != []
    ensures Rounds(stops, q) == 1 + Rounds(stops, q[Taken(stops, q)..])
  {
    TakenStep(stops, q);
    if !stops(q[0]) && |q| > 1 {
      RoundsMeaning(stops, q[1..]);
    }
  }

  // ----- where the callbacks suffice -----

  /** What is still queued of the first b accepted items. */
  function Owed(c: Config, s: State, b: nat): (q: seq<Item>)
    requires |s.popped| + |s.queue| == |s.accepted| && b <= |s.accepted|
  {
    if b <= |s.popped| then [] else s.queue[..b - |s.popped|]
  }

  /** The callbacks that are certain to come suffice for the first b accepted items. */
  ghost predicate Barrier(c: Config, s: State, b: nat, whole: bool) {
    && Inv(c, s) && s.coordinator == Killed && b <= |s.accepted| && ExitUnderWay(s)
    && Rounds(c.stops, Owed(c, s, b)) <= Certain(c, s, whole)
  }

  lemma BarrierStep(c: Config, s: State, t: Step, b: nat, whole: bool)
    requires Barrier(c, s, b, whole) && Enabled(s, t) && (whole ==> WholeRead(c, s, t))
    ensures Barrier(c, Do(c, s, t), b, whole)
  {
    StepKeepsInv(c, s, t);
    if t.Wakeup? || t.ReadPipe? || t.Call? || t.Check? {
      BarrierMoves(c, s, t, b, whole);
    } else if t.Pop? {
      BarrierPops(c, s, b, whole);
    } else {
      BarrierStays(c, s, t, b, whole);
    }
  }

  lemma BarrierPops(c: Config, s: State, b: nat, whole: bool)
    requires Barrier(c, s, b, whole) && s.pc.Popping?
    ensures var r := Do(c, s, Pop);
      && r.coordinator == Killed && ExitUnderWay(r)
      && r.accepted == s.accepted && |r.popped| + |r.queue| == |r.accepted|
      && Rounds(c.stops, Owed(c, r, b)) <= Certain(c, r, whole)
  {
    UncheckedStep(c, s, Pop);
    assert |s.popped| + |s.queue| == |s.accepted|;
    BarrierPop(c, s, b, whole);
  }

  lemma BarrierMoves(c: Config, s: State, t: Step, b: nat, whole: bool)
    requires Barrier(c, s, b, whole) && Enabled(s, t) && (whole ==> WholeRead(c, s, t))
    requires t.Wakeup? || t.ReadPipe? || t.Call? || t.Check?
    ensures var r := Do(c, s, t);
      && r.coordinator == Killed && ExitUnderWay(r) && r.accepted == s.accepted && r.popped == s.popped
      && r.queue == s.queue && Certain(c, s, whole) <= Certain(c, r, whole)
  {
    TokensMove(c, s, t, whole);
  }

  lemma BarrierStays(c: Config, s: State, t: Step, b: nat, whole: bool)
    requires Barrier(c, s, b, whole) && Enabled(s, t)
    requires !t.Wakeup? && !t.ReadPipe? && !t.Call? && !t.Check? && !t.Pop?
    ensures var r := Do(c, s, t);
      && r.coordinator == Killed && ExitUnderWay(r)
      && b <= |r.accepted| && |r.popped| + |r.queue| == |r.accepted|
      && Owed(c, r, b) == Owed(c, s, b)
      && (Certain(c, s, whole) <= Certain(c, r, whole) || Owed(c, r, b) == [])
  {
    UncheckedStep(c, s, t);
    assert |s.popped| + |s.queue| == |s.accepted|;
  }

  lemma BarrierPop(c: Config, s: State, b: nat, whole: bool)
    requires Barrier(c, s, b, whole) && s.pc.Popping?
    ensures Rounds(c.stops, Owed(c, Do(c, s, Pop), b)) <= Certain(c, Do(c, s, Pop), whole)
  {
    var owed := Owed(c, s, b);
    if owed != [] {
      assert owed[0] == s.queue[0] && owed[1..] == Owed(c, Do(c, s, Pop), b);
    }
  }

  lemma {:induction false} RunKeepsBarrier(c: Config, from: State, steps: seq<Step>, b: nat, whole: bool)
    requires Barrier(c, from, b, whole) && IsRun(c, from, steps) && Reads(c, from, steps, whole)
    ensures Barrier(c, After(c, from, steps), b, whole)
    decreases |steps|
  {
    if steps != [] {
      BarrierStep(c, from, steps[0], b, whole);
      RunKeepsBarrier(c, Do(c, from, steps[0]), steps[1..], b, whole);
    }
  }

  /** Everything accepted before the KILL has been popped whenever the looper exits. */
  ghost predicate KillDrains(c: Config, s: State, whole: bool)
    requires Enabled(s, Kill)
  {
    var r := Do(c, s, Kill);
    forall steps :: IsRun(c, r, steps) && Reads(c, r, steps, whole) && After(c, r, steps).pc.Exited?
      ==> s.accepted <= After(c, r, steps).popped
  }

  /** The draining callbacks to come if the KILL were written now: the one under way, one for each token on its
      way, and the exit token's own, unless that looks at its event and gets to the start of a batch. */
  function Ahead(c: Config, s: State, whole: bool): (n: nat) {
    (if s.pc.Draining? || s.pc.Popping? then 1 else 0) + |Uncalled(s)| +
    if c.checksEvent && (!whole || |s.pipe| % c.batch == 0) then 0 else 1
  }

  lemma CertainAtKill(c: Config, s: State, whole: bool)
    requires Inv(c, s) && Enabled(s, Kill)
    ensures var r := Do(c, s, Kill);
      && Certain(c, r, whole) == Ahead(c, s, whole)
      && ExitUnderWay(r) && !r.pc.Exited? && Owed(c, r, |s.accepted|) == s.queue
  {
    StepKeepsInv(c, s, Kill);
    UncheckedStep(c, s, Kill);
    CurrentIsUnchecked(s);
    PlaceAtKill(InBatch(s), s.pipe);
    assert Uncalled(Do(c, s, Kill)) == InBatch(s) + (s.pipe + [Exit]);
    assert |s.accepted| - |s.popped| == |s.queue|;
  }

  lemma PlaceAtKill(batch: seq<Token>, pipe: seq<Token>)
    requires Exit !in batch + pipe
    ensures Before(batch + (pipe + [Exit])) == |batch + pipe| && Before(pipe + [Exit]) == |pipe|
    ensures Exit !in batch
  {
    assert forall x :: x in batch || x in pipe ==> x in batch + pipe;
    BeforeConcat(pipe, [Exit]);
    BeforeConcat(batch, pipe + [Exit]);
  }

  lemma KillDrainsIf(c: Config, s: State, whole: bool)
    requires Inv(c, s) && Enabled(s, Kill)
    requires Rounds(c.stops, s.queue) <= Ahead(c, s, whole)
    ensures KillDrains(c, s, whole)
  {
    var r, b := Do(c, s, Kill), |s.accepted|;
    CertainAtKill(c, s, whole);
    StepKeepsInv(c, s, Kill);
    forall steps | IsRun(c, r, steps) && Reads(c, r, steps, whole) && After(c, r, steps).pc.Exited?
      ensures s.accepted <= After(c, r, steps).popped
    {
      RunKeepsBarrier(c, r, steps, b, whole);
      ExactlyOnceFifo(c, r, steps);
      var z := After(c, r, steps);
      assert Owed(c, z, b) == [];
      assert z.accepted == z.popped + z.queue;
    }
  }

  // ----- where they do not -----

  /** The way to the exit on which nobody else moves. */
  function Onward(c: Config, s: State): (t: Step)
    requires !s.pc.Exited? && (s.pc.Polling? ==> s.pipe != [])
    requires s.pc.Calling? ==> s.pc.rest != []
    ensures Enabled(s, t) && Quiet(t) && WholeRead(c, s, t)
  {
    match s.pc
    case Polling => ReadPipe(Batch(c, s.pipe))
    case Calling(_, _) => Call
    case Draining(_, _, _, _) => GetSize
    case Popping(_, _, _, _) => Pop
    case Checking(_, _, _) => Check
  }

  /** The queue takes more callbacks than are to come. */
  ghost predicate Short(c: Config, s: State) {
    Inv(c, s) && s.coordinator == Killed && ExitUnderWay(s) && Rounds(c.stops, s.queue) > Certain(c, s, true)
  }

  lemma OnwardStep(c: Config, s: State)
    requires Short(c, s) && !s.pc.Exited?
    ensures s.pc.Polling? ==> s.pipe != []
    ensures var r := Do(c, s, Onward(c, s)); Short(c, r) && r.accepted == s.accepted
  {
    var t := Onward(c, s);
    StepKeepsInv(c, s, t);
    UncheckedStep(c, s, t);
    if t.ReadPipe? || t.Call? || t.Check? {
      TokensMove(c, s, t, true);
    }
  }

  lemma {:induction false} OnwardRun(c: Config, s: State) returns (steps: seq<Step>)
    requires Short(c, s)
    ensures IsRun(c, s, steps) && WholeReads(c, s, steps)
    ensures var z := After(c, s, steps); z.pc.Exited? && z.queue != [] && z.accepted == s.accepted
    decreases Rank(s)
  {
    if s.pc.Exited? {
      steps := [];
    } else {
      var t := Onward(c, s);
      OnwardStep(c, s);
      QuietStepRanks(c, s, t);
      var rest := OnwardRun(c, Do(c, s, t));
      RunCons(c, s, t, rest);
      steps := [t] + rest;
      assert steps[1..] == rest;
    }
  }

  /** Where the callbacks do not suffice, an exit is possible that leaves items of before the KILL behind. */
  lemma KillMayStrand(c: Config, s: State) returns (steps: seq<Step>)
    requires Inv(c, s) && Enabled(s, Kill)
    requires Rounds(c.stops, s.queue) > Ahead(c, s, true)
    ensures IsRun(c, Do(c, s, Kill), steps) && WholeReads(c, Do(c, s, Kill), steps)
    ensures var z := After(c, Do(c, s, Kill), steps);
      z.pc.Exited? && z.accepted == s.accepted && z.popped < s.accepted
  {
    var r := Do(c, s, Kill);
    StepKeepsInv(c, s, Kill);
    CertainAtKill(c, s, true);
    steps := OnwardRun(c, r);
    RunKeepsInv(c, r, steps);
    var z := After(c, r, steps);
    assert z.accepted == z.popped + z.queue;
  }

  /** KILL is a drain barrier exactly when the queue takes no more callbacks than are to come. */
  lemma KillBarrierIff(c: Config, s: State)
    requires Inv(c, s) && Enabled(s, Kill)
    ensures KillDrains(c, s, true) <==> Rounds(c.stops, s.queue) <= Ahead(c, s, true)
  {
    if Rounds(c.stops, s.queue) <= Ahead(c, s, true) {
      KillDrainsIf(c, s, true);
    } else {
      var steps := KillMayStrand(c, s);
      assert !(s.accepted <= After(c, Do(c, s, Kill), steps).popped);
    }
  }

  /** It is one whenever every earlier poster has finished its wakeup, however many post, whoever posts later,
      and wherever the reads cut the pipe. */
  lemma KillDrainsAfterWakeups(c: Config, s: State)
    requires Inv(c, s) && Enabled(s, Kill) && s.between == {}
    ensures KillDrains(c, s, false)
  {
    CountWakesConcat(InBatch(s), s.pipe);
    KillDrainsIf(c, s, false);
  }

  /** And a node that polls with an empty pipe loses its whole queue: all its posters are late. */
  lemma LatePushIsLost(c: Config, s: State)
    requires Inv(c, s) && Enabled(s, Kill)
    requires c.checksEvent && s.pc == Polling && s.pipe == []
    ensures KillDrains(c, s, true) <==> s.queue == []
  {
    KillBarrierIff(c, s);
  }

  /** A node that has been set up and polls, and another thread that has pushed but not woken. */
  function HalfPosted(item: Item): (s: State) {
    State([item], [SETUP_ITEM, item], [SETUP_ITEM], {1}, [], Polling, Serving, true)
  }

  /** A node that has just been set up. */
  function Settled(): (s: State) {
    State([], [SETUP_ITEM], [SETUP_ITEM], {}, [], Polling, Serving, true)
  }

  lemma Cons(c: Config, s: State, t: Step, rest: seq<Step>)
    requires Enabled(s, t) && WholeRead(c, s, t) && IsRun(c, Do(c, s, t), rest) && WholeReads(c, Do(c, s, t), rest)
    ensures IsRun(c, s, [t] + rest) && WholeReads(c, s, [t] + rest)
    ensures After(c, s, [t] + rest) == After(c, Do(c, s, t), rest)
  {
    RunCons(c, s, t, rest);
    assert ([t] + rest)[1..] == rest;
  }

  lemma SettledIsReached(c: Config) returns (steps: seq<Step>)
    requires c.capacity >= 1 && c.queuesSetup && c.stops(SETUP_ITEM)
    ensures IsRun(c, Initial(), steps) && WholeReads(c, Initial(), steps) && After(c, Initial(), steps) == Settled()
  {
    var queued := State([SETUP_ITEM], [SETUP_ITEM], [], {}, [Wake], Polling, Serving, false);
    steps := DispatchSetup(c, queued);
    steps := CoordinatorSetsUp(c, queued, steps);
  }

  lemma CoordinatorSetsUp(c: Config, queued: State, rest: seq<Step>) returns (steps: seq<Step>)
    requires c.capacity >= 1 && c.queuesSetup
    requires queued == State([SETUP_ITEM], [SETUP_ITEM], [], {}, [Wake], Polling, Serving, false)
    requires IsRun(c, queued, rest) && WholeReads(c, queued, rest)
    ensures IsRun(c, Initial(), steps) && WholeReads(c, Initial(), steps)
    ensures After(c, Initial(), steps) == After(c, queued, rest)
  {
    var s1 := Do(c, Initial(), Bind(true));
    var s2 := Do(c, s1, Listen(true));
    var s3 := Do(c, s2, PostSetup);
    assert Do(c, s3, Wakeup(COORDINATOR)) == queued;
    Cons(c, s3, Wakeup(COORDINATOR), rest);
    steps := [Wakeup(COORDINATOR)] + rest;
    Cons(c, s2, PostSetup, steps);
    steps := [PostSetup] + steps;
    Cons(c, s1, Listen(true), steps);
    steps := [Listen(true)] + steps;
    Cons(c, Initial(), Bind(true), steps);
    steps := [Bind(true)] + steps;
  }

  lemma DispatchSetup(c: Config, queued: State) returns (steps: seq<Step>)
    requires queued == State([SETUP_ITEM], [SETUP_ITEM], [], {}, [Wake], Polling, Serving, false)
    requires c.stops(SETUP_ITEM)
    ensures IsRun(c, queued, steps) && WholeReads(c, queued, steps) && After(c, queued, steps) == Settled()
  {
    var s1 := Do(c, queued, ReadPipe(1));
    var s2 := Do(c, s1, Call);
    var s3 := Do(c, s2, GetSize);
    var s4 := Do(c, s3, Pop);
    assert Do(c, s4, Check) == Settled();
    Cons(c, s4, Check, []);
    steps := [Check] + [];
    Cons(c, s3, Pop, steps);
    steps := [Pop] + steps;
    Cons(c, s2, GetSize, steps);
    steps := [GetSize] + steps;
    Cons(c, s1, Call, steps);
    steps := [Call] + steps;
    Cons(c, queued, ReadPipe(1), steps);
    steps := [ReadPipe(1)] + steps;
  }

  lemma {:induction false} Snoc(c: Config, from: State, steps: seq<Step>, t: Step)
    requires IsRun(c, from, steps) && WholeReads(c, from, steps)
    requires Enabled(After(c, from, steps), t) && WholeRead(c, After(c, from, steps), t)
    ensures IsRun(c, from, steps + [t]) && WholeReads(c, from, steps + [t])
    ensures After(c, from, steps + [t]) == Do(c, After(c, from, steps), t)
    decreases |steps|
  {
    if steps == [] {
      Cons(c, from, t, []);
      assert steps + [t] == [t] + [];
    } else {
      Snoc(c, Do(c, from, steps[0]), steps[1..], t);
      Cons(c, from, steps[0], steps[1..] + [t]);
      assert steps + [t] == [steps[0]] + (steps[1..] + [t]);
    }
  }

  /** So a reachable KILL, of a node that has returned at SETUP, may leave an item behind. */
  lemma StrandingIsReachable(c: Config, item: Item) returns (steps: seq<Step>)
    requires c.checksEvent && c.queuesSetup && c.capacity >= 1 && c.stops(SETUP_ITEM) && item.kind != SETUP_MESSAGE
    ensures IsRun(c, Initial(), steps) && WholeReads(c, Initial(), steps)
    ensures var s := After(c, Initial(), steps); s == HalfPosted(item) && Enabled(s, Kill) && !KillDrains(c, s, true)
  {
    var before := SettledIsReached(c);
    assert Do(c, Settled(), Push(1, item)) == HalfPosted(item);
    Snoc(c, Initial(), before, Push(1, item));
    steps := before + [Push(1, item)];
    InitialInv(c);
    RunKeepsInv(c, Initial(), steps);
    LatePushIsLost(c, HalfPosted(item));
  }

  /** Only the coordinator posts. */
  predicate CoordinatorOnly(t: Step) {
    match t
    case Push(p, _) => p == COORDINATOR
    case Wakeup(p) => p == COORDINATOR
    case _ => true
  }

  /** If only the coordinator posts, every message it has posted is popped before the looper exits. */
  lemma {:induction false} KillIsDrainBarrier(c: Config, from: State, steps: seq<Step>)
    requires Inv(c, from) && from.coordinator != Killed && from.between <= {COORDINATOR}
    requires IsRun(c, from, steps) && After(c, from, steps).pc.Exited?
    requires forall i :: 0 <= i < |steps| ==> CoordinatorOnly(steps[i])
    ensures var s := After(c, from, steps); s.queue == [] && s.popped == s.accepted
    decreases |steps|
  {
    var next, rest := Do(c, from, steps[0]), steps[1..];
    StepKeepsInv(c, from, steps[0]);
    if steps[0] == Kill {
      KillDrainsAfterWakeups(c, from);
      ExactlyOnceFifo(c, next, rest);
      NothingAfterKill(c, next, rest);
      var s := After(c, next, rest);
      assert from.accepted <= s.popped;
      assert |s.popped| + |s.queue| == |s.accepted|;
    } else {
      KillIsDrainBarrier(c, next, rest);
    }
  }

  lemma {:induction false} NothingAfterKill(c: Config, from: State, steps: seq<Step>)
    requires from.coordinator == Killed && IsRun(c, from, steps)
    requires forall i :: 0 <= i < |steps| ==> CoordinatorOnly(steps[i])
    ensures After(c, from, steps).accepted == from.accepted
    decreases |steps|
  {
    if steps != [] {
      NothingAfterKill(c, Do(c, from, steps[0]), steps[1..]);
    }
  }

  /** With other posters the exit leaves at most one item per wake-up that came too late. */
  lemma ExitLeavesOnlyLateItems(c: Config, steps: seq<Step>)
    requires IsRun(c, Initial(), steps) && After(c, Initial(), steps).pc.Exited?
    ensures var s := After(c, Initial(), steps);
      |s.accepted| - |s.popped| <= |s.between| + CountWakes(s.pipe) + CountWakes(s.pc.rest)
  {
    NoStrandedMessage(c, steps);
    InitialInv(c);
    RunKeepsInv(c, Initial(), steps);
  }
}
