/** The service's queue, dispatcher and registry together, over all interleavings: each pop of the dispatcher
    handles the popped item (service/DefaultService.cpp:33-60, 389-738). */
module ServiceRun {
  import opened Messages
  import opened CmdQueue
  import opened Delivery
  import opened NodeTable
  import opened ServiceTable
  import Dispatcher

  /** The threads and the registry; and whether the process has gone down at the null list of an empty LIST reply. */
  datatype Joint = Joint(d: Dispatcher.State, service: Service, crashed: bool)

  /** The service's callback does not look at its event, and its coordinator does not queue SETUP. */
  function ConfigOf(w: World, capacity: nat, batch: Dispatcher.Positive): (c: Dispatcher.Config) {
    Dispatcher.Config(capacity, item => StopsEarly(w.codec, item), false, false, batch)
  }

  /** The service has registered itself when its threads start. */
  function Initial(self: string): (j: Joint) {
    Joint(Dispatcher.Initial(), Started(self), false)
  }

  predicate Enabled(j: Joint, t: Dispatcher.Step) {
    !j.crashed && Dispatcher.Enabled(j.d, t)
  }

  /** The item that a step takes off the queue. */
  function Taking(d: Dispatcher.State, t: Dispatcher.Step): (items: seq<Item>)
    ensures |items| <= 1
  {
    if t.Pop? && d.queue != [] then [d.queue[0]] else []
  }

  function Do(w: World, c: Dispatcher.Config, j: Joint, t: Dispatcher.Step): (r: Joint)
    requires Enabled(j, t)
  {
    var d := Dispatcher.Do(c, j.d, t);
    if Taking(j.d, t) == [] then j.(d := d)
    else
      var (after, ending) := Handle(w, j.service, Taking(j.d, t)[0]);
      Joint(d, after, ending == Fault)
  }

  ghost predicate IsRun(w: World, c: Dispatcher.Config, from: Joint, steps: seq<Dispatcher.Step>)
    decreases |steps|
  {
    steps == [] || (Enabled(from, steps[0]) && IsRun(w, c, Do(w, c, from, steps[0]), steps[1..]))
  }

  function After(w: World, c: Dispatcher.Config, from: Joint, steps: seq<Dispatcher.Step>): (j: Joint)
    requires IsRun(w, c, from, steps)
    decreases |steps|
  {
    if steps == [] then from else After(w, c, Do(w, c, from, steps[0]), steps[1..])
  }

  /** Without the registry it is a run of the threads alone, so all that holds of those holds here. */
  lemma {:induction false} IsDispatcherRun(w: World, c: Dispatcher.Config, from: Joint, steps: seq<Dispatcher.Step>)
    requires IsRun(w, c, from, steps)
    ensures Dispatcher.IsRun(c, from.d, steps)
    ensures After(w, c, from, steps).d == Dispatcher.After(c, from.d, steps)
    decreases |steps|
  {
    if steps != [] {
      IsDispatcherRun(w, c, Do(w, c, from, steps[0]), steps[1..]);
    }
  }

  /** The registry is that of the popped items, handled in the order of their pops; and the process is down
      exactly if the last of them was a LIST request that met an empty registry. */
  ghost predicate Follows(w: World, self: string, j: Joint) {
    && j.service == Handled(w, Started(self), j.d.popped)
    && (j.crashed ==> j.d.popped != [])
    && (j.d.popped != [] ==>
          var last := |j.d.popped| - 1;
          j.crashed <==> IsListRequest(w.codec, j.d.popped[last])
                         && Handled(w, Started(self), j.d.popped[..last]).nodes == [])
  }

  lemma StepFollows(w: World, self: string, c: Dispatcher.Config, j: Joint, t: Dispatcher.Step)
    requires Follows(w, self, j) && Enabled(j, t)
    ensures Follows(w, self, Do(w, c, j, t))
  {
    StepPops(w, c, j, t);
    if Taking(j.d, t) != [] {
      HandledNext(w, Started(self), j.d.popped, Taking(j.d, t)[0]);
    }
  }

  lemma HandledNext(w: World, s: Service, items: seq<Item>, item: Item)
    ensures var before := Handled(w, s, items);
      && (items + [item])[..|items|] == items
      && Handled(w, s, items + [item]) == Handle(w, before, item).0
      && (Handle(w, before, item).1 == Fault <==> IsListRequest(w.codec, item) && before.nodes == [])
  {
    assert (items + [item])[..|items|] == items;
    OutcomeOf(w, Handled(w, s, items), item);
  }

  lemma StepPops(w: World, c: Dispatcher.Config, j: Joint, t: Dispatcher.Step)
    requires Enabled(j, t)
    ensures var r, taking := Do(w, c, j, t), Taking(j.d, t);
      && r.d.popped == j.d.popped + taking
      && (taking == [] ==> r.service == j.service && !r.crashed)
      && (taking != [] ==> var (after, ending) := Handle(w, j.service, taking[0]);
            r.service == after && (r.crashed <==> ending == Fault))
  {
    assert j.d.popped + [] == j.d.popped;
  }

  lemma {:induction false} RunFollows(w: World, self: string, c: Dispatcher.Config, from: Joint,
                                      steps: seq<Dispatcher.Step>)
    requires Follows(w, self, from) && IsRun(w, c, from, steps)
    ensures Follows(w, self, After(w, c, from, steps))
    decreases |steps|
  {
    if steps != [] {
      StepFollows(w, self, c, from, steps[0]);
      RunFollows(w, self, c, Do(w, c, from, steps[0]), steps[1..]);
    }
  }

  /** In every interleaving of pushes, wake-ups and the dispatcher, the registry is that of a run of registry
      operations: those of the items popped so far, and once all is quiet those of every item ever accepted. */
  lemma RegistryOfRun(w: World, self: string, capacity: nat, batch: Dispatcher.Positive, steps: seq<Dispatcher.Step>)
    requires IsRun(w, ConfigOf(w, capacity, batch), Initial(self), steps)
    ensures var j := After(w, ConfigOf(w, capacity, batch), Initial(self), steps);
      && Table(j.service) == Run(Ops(w, self, j.d.popped), Delivers(w))
      && Unique(j.service.nodes)
      && (Dispatcher.Idle(j.d) ==> Table(j.service) == Run(Ops(w, self, j.d.accepted), Delivers(w)))
      && forall n :: n in j.service.nodes <==>
           exists k :: 0 <= k < |Ops(w, self, j.d.popped)| && JoinedAt(Ops(w, self, j.d.popped), Delivers(w), k, n)
  {
    var c := ConfigOf(w, capacity, batch);
    var j := After(w, c, Initial(self), steps);
    var ops := Ops(w, self, j.d.popped);
    RunFollows(w, self, c, Initial(self), steps);
    ServiceLifeIsRun(w, self, j.d.popped);
    RunKeepsUnique(ops, Delivers(w));
    forall n
      ensures n in j.service.nodes <==> exists k :: 0 <= k < |ops| && JoinedAt(ops, Delivers(w), k, n)
    {
      RegisteredIffJoined(ops, Delivers(w), n);
    }
    IsDispatcherRun(w, c, Initial(self), steps);
    Dispatcher.NoStrandedMessage(c, steps);
  }

  /** The process goes down exactly at a LIST request that is popped while nobody is registered. */
  lemma CrashesIff(w: World, self: string, capacity: nat, batch: Dispatcher.Positive, steps: seq<Dispatcher.Step>)
    requires IsRun(w, ConfigOf(w, capacity, batch), Initial(self), steps)
    ensures var j := After(w, ConfigOf(w, capacity, batch), Initial(self), steps);
      j.crashed <==> exists k :: 0 <= k < |j.d.popped| && ListsNobody(w, self, j.d.popped, k)
  {
    var c := ConfigOf(w, capacity, batch);
    NoEarlierCrash(w, self, c, Initial(self), steps);
  }

  predicate ListsNobody(w: World, self: string, items: seq<Item>, k: nat)
    requires k < |items|
  {
    IsListRequest(w.codec, items[k]) && Handled(w, Started(self), items[..k]).nodes == []
  }

  ghost predicate CrashIsListing(w: World, self: string, j: Joint) {
    j.crashed <==> exists k :: 0 <= k < |j.d.popped| && ListsNobody(w, self, j.d.popped, k)
  }

  lemma {:induction false} NoEarlierCrash(w: World, self: string, c: Dispatcher.Config, from: Joint,
                                          steps: seq<Dispatcher.Step>)
    requires Follows(w, self, from) && IsRun(w, c, from, steps) && CrashIsListing(w, self, from)
    ensures CrashIsListing(w, self, After(w, c, from, steps))
    decreases |steps|
  {
    if steps != [] {
      StepFollows(w, self, c, from, steps[0]);
      StepPops(w, c, from, steps[0]);
      CrashStep(w, self, from, Do(w, c, from, steps[0]), Taking(from.d, steps[0]));
      NoEarlierCrash(w, self, c, Do(w, c, from, steps[0]), steps[1..]);
    }
  }

  lemma CrashStep(w: World, self: string, j: Joint, r: Joint, taking: seq<Item>)
    requires !j.crashed && CrashIsListing(w, self, j) && Follows(w, self, r)
    requires |taking| <= 1 && r.d.popped == j.d.popped + taking && (taking == [] ==> !r.crashed)
    ensures CrashIsListing(w, self, r)
  {
    var n, popped := |j.d.popped|, r.d.popped;
    forall k | 0 <= k < n
      ensures popped[k] == j.d.popped[k] && popped[..k] == j.d.popped[..k]
    {
    }
    assert forall k :: 0 <= k < n ==> (ListsNobody(w, self, popped, k) <==> ListsNobody(w, self, j.d.popped, k));
    if taking != [] {
      assert r.crashed <==> ListsNobody(w, self, popped, n);
    }
  }
}
