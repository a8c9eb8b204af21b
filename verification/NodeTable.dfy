/** What the node registry of service/DefaultService.cpp means: a list of uniquely named nodes, newest first. */
module NodeTable {
  import opened Bytes
  import opened Delivery

  const NODE_ENTRY_LOCAL := 1
  const NODE_ENTRY_CLIENT := 2

  datatype Node = Node(name: string, kind: int)

  predicate IsEntryKind(kind: int) {
    kind == NODE_ENTRY_LOCAL || kind == NODE_ENTRY_CLIENT
  }

  function Names(s: seq<Node>): (r: seq<string>)
    ensures |r| == |s|
  {
    seq(|s|, i requires 0 <= i < |s| => s[i].name)
  }

  predicate Unique(s: seq<Node>) {
    forall i, j :: 0 <= i < j < |s| ==> s[i].name != s[j].name
  }

  /** The list without the first entry of that name. */
  function Dropped(s: seq<Node>, name: string): (r: seq<Node>) {
    if s == [] then []
    else if s[0].name == name then s[1..]
    else [s[0]] + Dropped(s[1..], name)
  }

  function Joined(s: seq<Node>, n: Node): (r: seq<Node>) {
    [n] + Dropped(s, n.name)
  }

  /** The names one broadcast pass addresses, in list order. */
  function Targets(s: seq<Node>, kind: int): (r: seq<string>) {
    if s == [] then []
    else (if s[0].kind == kind then [s[0].name] else []) + Targets(s[1..], kind)
  }

  function Attempts(targets: seq<string>, payload: seq<byte>, msgType: int): (r: seq<Send>)
    ensures |r| == |targets|
  {
    seq(|targets|, i requires 0 <= i < |targets| => Send(targets[i], payload, msgType))
  }

  /** The entries one broadcast pass leaves, when its first attempt is attempt number `at`. */
  function Survivors(s: seq<Node>, kind: int, delivers: nat -> bool, at: nat): (r: seq<Node>) {
    if s == [] then []
    else if s[0].kind != kind then [s[0]] + Survivors(s[1..], kind, delivers, at)
    else (if delivers(at) then [s[0]] else []) + Survivors(s[1..], kind, delivers, at + 1)
  }

  // ----- drop and join -----

  predicate HasName(s: seq<Node>, name: string) {
    exists n | n in s :: n.name == name
  }

  /** With unique names, dropping removes exactly the entry of that name. */
  lemma {:induction false} DropFilters(s: seq<Node>, name: string)
    requires Unique(s)
    ensures Unique(Dropped(s, name)) && !HasName(Dropped(s, name), name)
    ensures forall n :: n in Dropped(s, name) <==> n in s && n.name != name
  {
    if s != [] {
      assert s == [s[0]] + s[1..];
      if s[0].name == name {
        assert forall n :: n in s[1..] ==> n.name != name;
      } else {
        DropFilters(s[1..], name);
        var d := Dropped(s[1..], name);
        assert forall i :: 0 <= i < |d| ==> d[i] in s[1..];
      }
    }
  }

  /** Dropping splits the list around the one dropped entry, so the others keep their order; or it does nothing. */
  lemma {:induction false} DropSplits(s: seq<Node>, name: string) returns (k: nat)
    ensures if k < |s| then s[k].name == name && Dropped(s, name) == s[..k] + s[k + 1..]
            else k == |s| && !HasName(s, name) && Dropped(s, name) == s
  {
    if s == [] || s[0].name == name {
      k := 0;
    } else {
      k := DropSplits(s[1..], name);
      k := k + 1;
      if k < |s| {
        assert [s[0]] + (s[1..][..k - 1] + s[1..][k..]) == s[..k] + s[k + 1..];
      } else {
        assert s == [s[0]] + s[1..];
      }
    }
  }

  /** A join puts the new entry in front of everything else, and no second entry has its name. */
  lemma JoinPutsFirst(s: seq<Node>, n: Node)
    requires Unique(s)
    ensures Unique(Joined(s, n)) && Joined(s, n)[0] == n
    ensures forall m :: m in Joined(s, n)[1..] <==> m in s && m.name != n.name
    ensures |Joined(s, n)| == |s| + if HasName(s, n.name) then 0 else 1
  {
    DropFilters(s, n.name);
    var k := DropSplits(s, n.name);
    var d := Dropped(s, n.name);
    assert Joined(s, n)[1..] == d;
    assert HasName(s, n.name) ==> k < |s|;
    forall i | 0 <= i < |d|
      ensures d[i].name != n.name
    {
      assert d[i] in d;
    }
  }

  // ----- broadcast with deletion -----

  lemma {:induction false} TargetsConcat(a: seq<Node>, b: seq<Node>, kind: int)
    ensures Targets(a + b, kind) == Targets(a, kind) + Targets(b, kind)
  {
    if a == [] {
      assert a + b == b;
    } else {
      assert (a + b)[1..] == a[1..] + b && (a + b)[0] == a[0];
      TargetsConcat(a[1..], b, kind);
      var first := if a[0].kind == kind then [a[0].name] else [];
      assert first + (Targets(a[1..], kind) + Targets(b, kind)) == (first + Targets(a[1..], kind)) + Targets(b, kind);
    }
  }

  /** A pass over a list is a pass over its front followed by a pass over the rest. */
  lemma {:induction false} SurvivorsConcat(a: seq<Node>, b: seq<Node>, kind: int, delivers: nat -> bool, at: nat)
    ensures Survivors(a + b, kind, delivers, at)
         == Survivors(a, kind, delivers, at) + Survivors(b, kind, delivers, at + |Targets(a, kind)|)
  {
    if a == [] {
      assert a + b == b;
    } else {
      assert (a + b)[1..] == a[1..] + b;
      SurvivorsConcat(a[1..], b, kind, delivers, if a[0].kind == kind then at + 1 else at);
    }
  }

  /** Whether the entry at index i outlives the pass: not addressed, or its own attempt succeeds. */
  predicate Kept(s: seq<Node>, kind: int, delivers: nat -> bool, at: nat, i: nat)
    requires i < |s|
  {
    s[i].kind != kind || delivers(at + |Targets(s[..i], kind)|)
  }

  /** Each kept entry stands behind exactly the kept entries that stood before it. */
  lemma KeptInOrder(s: seq<Node>, kind: int, delivers: nat -> bool, at: nat, i: nat)
    requires i < |s|
    ensures var before, after := Survivors(s[..i], kind, delivers, at), Survivors(s[..i + 1], kind, delivers, at);
            after == before + (if Kept(s, kind, delivers, at, i) then [s[i]] else [])
            && after <= Survivors(s, kind, delivers, at)
    ensures s[i].kind == kind ==>
              |Targets(s[..i], kind)| < |Targets(s, kind)| && Targets(s, kind)[|Targets(s[..i], kind)|] == s[i].name
  {
    assert s[..i + 1] == s[..i] + [s[i]];
    SurvivorsConcat(s[..i], [s[i]], kind, delivers, at);
    assert Survivors([s[i]][1..], kind, delivers, 0) == [];
    assert s == s[..i + 1] + s[i + 1..];
    SurvivorsConcat(s[..i + 1], s[i + 1..], kind, delivers, at);
    TargetsConcat(s[..i], [s[i]], kind);
    TargetsConcat(s[..i + 1], s[i + 1..], kind);
  }

  /** The entries left by a pass are exactly the kept ones. */
  lemma {:induction false} SurvivorsAreKept(s: seq<Node>, kind: int, delivers: nat -> bool, at: nat, n: Node)
    ensures n in Survivors(s, kind, delivers, at) <==>
            exists i :: 0 <= i < |s| && s[i] == n && Kept(s, kind, delivers, at, i)
    decreases |s|
  {
    if s != [] {
      var last := |s| - 1;
      var front := s[..last];
      assert s == front + [s[last]];
      SurvivorsAreKept(front, kind, delivers, at, n);
      KeptInOrder(s, kind, delivers, at, last);
      assert s[..last + 1] == s;
      assert forall i :: 0 <= i < last ==> front[..i] == s[..i];
      assert forall i :: 0 <= i < last ==> Kept(front, kind, delivers, at, i) == Kept(s, kind, delivers, at, i);
      if i :| 0 <= i < |front| && front[i] == n && Kept(front, kind, delivers, at, i) {
        assert s[i] == n && Kept(s, kind, delivers, at, i);
      }
    }
  }

  lemma {:induction false} SurvivorsUnique(s: seq<Node>, kind: int, delivers: nat -> bool, at: nat)
    requires Unique(s)
    ensures Unique(Survivors(s, kind, delivers, at))
    ensures forall n :: n in Survivors(s, kind, delivers, at) ==> n in s
    ensures |s| - |Targets(s, kind)| <= |Survivors(s, kind, delivers, at)| <= |s|
  {
    if s != [] {
      var next := if s[0].kind == kind then at + 1 else at;
      var r := Survivors(s[1..], kind, delivers, next);
      SurvivorsUnique(s[1..], kind, delivers, next);
      assert s == [s[0]] + s[1..];
      forall i | 0 <= i < |r|
        ensures r[i].name != s[0].name
      {
        assert r[i] in s[1..];
      }
      assert |Targets(s, kind)| == |Targets(s[1..], kind)| + if s[0].kind == kind then 1 else 0;
    }
  }

  /** When every attempt of the pass has the same outcome, nothing is lost or every addressed entry is. */
  lemma {:induction false} SurvivorsUniform(s: seq<Node>, kind: int, delivers: nat -> bool, at: nat, outcome: bool)
    requires forall k: nat :: at <= k < at + |Targets(s, kind)| ==> delivers(k) == outcome
    ensures outcome ==> Survivors(s, kind, delivers, at) == s
    ensures !outcome ==> Targets(Survivors(s, kind, delivers, at), kind) == []
    ensures !outcome ==> forall n :: n in s && n.kind != kind ==> n in Survivors(s, kind, delivers, at)
  {
    if s != [] {
      SurvivorsUniform(s[1..], kind, delivers, if s[0].kind == kind then at + 1 else at, outcome);
      if outcome {
        assert s == [s[0]] + s[1..];
      } else {
        var r := Survivors(s, kind, delivers, at);
        if s[0].kind != kind {
          assert r[1..] == Survivors(s[1..], kind, delivers, at);
        } else {
          assert r == Survivors(s[1..], kind, delivers, at + 1);
        }
      }
    }
  }

  // ----- whole runs of one writer -----

  /** One operation of the single writer. A join of an unknown kind only drops; a reply to a node drops
      it when its one attempt fails; a forwarded message is an attempt whose outcome nobody looks at. */
  datatype Op =
    | Join(name: string, kind: int) | Drop(name: string) | Broadcast(kind: int, msgType: int, length: nat)
    | Reply(name: string, msgType: int, length: nat) | Forward

  /** The registry and the number of send attempts so far. */
  datatype State = State(nodes: seq<Node>, sent: nat)

  function Apply(s: State, op: Op, delivers: Outcome): (r: State) {
    match op
    case Join(name, kind) =>
      if IsEntryKind(kind) then s.(nodes := Joined(s.nodes, Node(name, kind)))
      else s.(nodes := Dropped(s.nodes, name))
    case Drop(name) => s.(nodes := Dropped(s.nodes, name))
    case Broadcast(kind, msgType, length) =>
      State(Survivors(s.nodes, kind, OfMessage(delivers, msgType, length), s.sent), s.sent + |Targets(s.nodes, kind)|)
    case Reply(name, msgType, length) =>
      State(if delivers(s.sent, msgType, length) then s.nodes else Dropped(s.nodes, name), s.sent + 1)
    case Forward => s.(sent := s.sent + 1)
  }

  /** The state after the first operations of a run that starts from an empty registry. */
  function Run(ops: seq<Op>, delivers: Outcome): (r: State) {
    if ops == [] then State([], 0) else Apply(Run(ops[..|ops| - 1], delivers), ops[|ops| - 1], delivers)
  }

  /** A run that goes on with more operations. */
  function ApplyAll(s: State, ops: seq<Op>, delivers: Outcome): (r: State)
    decreases |ops|
  {
    if ops == [] then s else ApplyAll(Apply(s, ops[0], delivers), ops[1..], delivers)
  }

  lemma {:induction false} RunConcat(a: seq<Op>, b: seq<Op>, delivers: Outcome)
    ensures Run(a + b, delivers) == ApplyAll(Run(a, delivers), b, delivers)
    decreases |b|
  {
    if b == [] {
      assert a + b == a;
    } else {
      assert (a + [b[0]])[..|a|] == a;
      assert a + b == (a + [b[0]]) + b[1..];
      RunConcat(a + [b[0]], b[1..], delivers);
    }
  }

  /** Names stay pairwise distinct in every run. */
  lemma {:induction false} RunKeepsUnique(ops: seq<Op>, delivers: Outcome)
    ensures Unique(Run(ops, delivers).nodes)
  {
    if ops != [] {
      var before := Run(ops[..|ops| - 1], delivers);
      RunKeepsUnique(ops[..|ops| - 1], delivers);
      match ops[|ops| - 1]
      case Join(name, kind) => JoinPutsFirst(before.nodes, Node(name, kind)); DropFilters(before.nodes, name);
      case Drop(name) => DropFilters(before.nodes, name);
      case Broadcast(kind, msgType, length) =>
        SurvivorsUnique(before.nodes, kind, OfMessage(delivers, msgType, length), before.sent);
      case Reply(name, _, _) => DropFilters(before.nodes, name);
      case _ =>
    }
  }

  /** The operation takes the entry n out: a drop or re-join of its name, or a failed attempt on it. */
  ghost predicate TakesOut(s: State, op: Op, delivers: Outcome, n: Node) {
    match op
    case Join(name, _) => name == n.name
    case Drop(name) => name == n.name
    case Broadcast(kind, msgType, length) => Loses(s.nodes, kind, OfMessage(delivers, msgType, length), s.sent, n)
    case Reply(name, msgType, length) => name == n.name && !delivers(s.sent, msgType, length)
    case _ => false
  }

  ghost predicate Loses(s: seq<Node>, kind: int, delivers: nat -> bool, at: nat, n: Node) {
    exists i :: 0 <= i < |s| && s[i] == n && !Kept(s, kind, delivers, at, i)
  }

  /** Operation k of a run takes the entry n out. */
  ghost predicate Evicts(ops: seq<Op>, delivers: Outcome, k: nat, n: Node)
    requires k < |ops|
  {
    TakesOut(Run(ops[..k], delivers), ops[k], delivers, n)
  }

  /** A valid join of n at step k that nothing evicts later. */
  ghost predicate JoinedAt(ops: seq<Op>, delivers: Outcome, k: nat, n: Node)
    requires k < |ops|
  {
    && IsEntryKind(n.kind) && ops[k] == Join(n.name, n.kind)
    && forall m :: k < m < |ops| ==> !Evicts(ops, delivers, m, n)
  }

  /** In every run an entry is registered exactly when its last join has not been undone. */
  lemma {:induction false} RegisteredIffJoined(ops: seq<Op>, delivers: Outcome, n: Node)
    ensures n in Run(ops, delivers).nodes <==> exists k :: 0 <= k < |ops| && JoinedAt(ops, delivers, k, n)
  {
    if ops != [] {
      var last := |ops| - 1;
      RegisteredIffJoined(ops[..last], delivers, n);
      LastStep(ops, delivers, n);
      forall k | 0 <= k < last
        ensures JoinedAt(ops, delivers, k, n)
          <==> JoinedAt(ops[..last], delivers, k, n) && !Evicts(ops, delivers, last, n)
      {
        JoinedFront(ops, delivers, k, n);
      }
      assert JoinedAt(ops, delivers, last, n) <==> IsEntryKind(n.kind) && ops[last] == Join(n.name, n.kind);
    }
  }

  lemma JoinedFront(ops: seq<Op>, delivers: Outcome, k: nat, n: Node)
    requires k < |ops| - 1
    ensures var last := |ops| - 1;
      JoinedAt(ops, delivers, k, n) <==> JoinedAt(ops[..last], delivers, k, n) && !Evicts(ops, delivers, last, n)
  {
    var last := |ops| - 1;
    var front := ops[..last];
    assert forall m :: 0 <= m < last ==> front[..m] == ops[..m];
    assert forall m :: 0 <= m < last ==> Evicts(front, delivers, m, n) == Evicts(ops, delivers, m, n);
  }

  /** One operation: n is registered afterwards iff it has just joined, or was there and is not taken out. */
  lemma ApplyOneOp(s: State, op: Op, delivers: Outcome, n: Node)
    requires Unique(s.nodes)
    ensures n in Apply(s, op, delivers).nodes <==>
            || (IsEntryKind(n.kind) && op == Join(n.name, n.kind))
            || (n in s.nodes && !TakesOut(s, op, delivers, n))
  {
    match op
    case Join(name, kind) =>
      DropFilters(s.nodes, name);
    case Drop(name) =>
      DropFilters(s.nodes, name);
    case Broadcast(kind, msgType, length) =>
      SurvivesUnlessLost(s.nodes, kind, OfMessage(delivers, msgType, length), s.sent, n);
    case Reply(name, _, _) =>
      DropFilters(s.nodes, name);
    case _ =>
  }

  lemma SurvivesUnlessLost(s: seq<Node>, kind: int, delivers: nat -> bool, at: nat, n: Node)
    requires Unique(s)
    ensures n in Survivors(s, kind, delivers, at) <==> n in s && !Loses(s, kind, delivers, at, n)
  {
    SurvivorsAreKept(s, kind, delivers, at, n);
  }

  lemma LastStep(ops: seq<Op>, delivers: Outcome, n: Node)
    requires ops != []
    ensures var last := |ops| - 1;
            n in Run(ops, delivers).nodes <==>
            || (IsEntryKind(n.kind) && ops[last] == Join(n.name, n.kind))
            || (n in Run(ops[..last], delivers).nodes && !Evicts(ops, delivers, last, n))
  {
    var last := |ops| - 1;
    RunKeepsUnique(ops[..last], delivers);
    ApplyOneOp(Run(ops[..last], delivers), ops[last], delivers, n);
  }

  /** Broadcast keeps the order: two entries left stood in the same order before. */
  lemma {:induction false} SurvivorsSubsequence(s: seq<Node>, kind: int, delivers: nat -> bool, at: nat, i: nat, j: nat)
      returns (i': nat, j': nat)
    requires i < j < |Survivors(s, kind, delivers, at)|
    ensures i' < j' < |s|
    ensures s[i'] == Survivors(s, kind, delivers, at)[i] && s[j'] == Survivors(s, kind, delivers, at)[j]
  {
    var r := Survivors(s, kind, delivers, at);
    var next := if s[0].kind == kind then at + 1 else at;
    var rest := Survivors(s[1..], kind, delivers, next);
    if s[0].kind == kind && !delivers(at) {
      i', j' := SurvivorsSubsequence(s[1..], kind, delivers, next, i, j);
      i', j' := i' + 1, j' + 1;
    } else if i > 0 {
      assert r == [s[0]] + rest;
      i', j' := SurvivorsSubsequence(s[1..], kind, delivers, next, i - 1, j - 1);
      i', j' := i' + 1, j' + 1;
    } else {
      assert r == [s[0]] + rest;
      var k := SurvivorFrom(s[1..], kind, delivers, next, j - 1);
      i', j' := 0, k + 1;
    }
  }

  lemma SurvivorFrom(s: seq<Node>, kind: int, delivers: nat -> bool, at: nat, j: nat) returns (k: nat)
    requires j < |Survivors(s, kind, delivers, at)|
    ensures k < |s| && s[k] == Survivors(s, kind, delivers, at)[j]
  {
    var n := Survivors(s, kind, delivers, at)[j];
    SurvivorsAreKept(s, kind, delivers, at, n);
    k :| k < |s| && s[k] == n && Kept(s, kind, delivers, at, k);
  }

  lemma DroppedSubsequence(s: seq<Node>, name: string, i: nat, j: nat) returns (i': nat, j': nat)
    requires i < j < |Dropped(s, name)|
    ensures i' < j' < |s|
    ensures s[i'] == Dropped(s, name)[i] && s[j'] == Dropped(s, name)[j]
  {
    var k := DropSplits(s, name);
    i' := if i < k then i else i + 1;
    j' := if j < k then j else j + 1;
  }

  /** An operation never swaps two entries that it leaves in place. */
  lemma ApplyKeepsOrder(s: State, op: Op, delivers: Outcome, i: nat, j: nat) returns (i': nat, j': nat)
    requires i < j < |Apply(s, op, delivers).nodes|
    requires op.Join? && IsEntryKind(op.kind) ==> i > 0
    ensures i' < j' < |s.nodes|
    ensures s.nodes[i'] == Apply(s, op, delivers).nodes[i] && s.nodes[j'] == Apply(s, op, delivers).nodes[j]
  {
    if op.Broadcast? {
      i', j' := SurvivorsSubsequence(s.nodes, op.kind, OfMessage(delivers, op.msgType, op.length), s.sent, i, j);
    } else if op.Join? && IsEntryKind(op.kind) {
      i', j' := DroppedSubsequence(s.nodes, op.name, i - 1, j - 1);
    } else if op.Join? || op.Drop? || (op.Reply? && !delivers(s.sent, op.msgType, op.length)) {
      i', j' := DroppedSubsequence(s.nodes, op.name, i, j);
    } else {
      i', j' := i, j;
    }
  }

  /** In every run the registry lists the entries from the latest join to the earliest. */
  lemma {:induction false} NewestFirst(ops: seq<Op>, delivers: Outcome, i: nat, j: nat, ki: nat, kj: nat)
    requires i < j < |Run(ops, delivers).nodes|
    requires ki < |ops| && JoinedAt(ops, delivers, ki, Run(ops, delivers).nodes[i])
    requires kj < |ops| && JoinedAt(ops, delivers, kj, Run(ops, delivers).nodes[j])
    ensures kj < ki
  {
    var last := |ops| - 1;
    var front := ops[..last];
    var first, n, m := Run(ops, delivers).nodes[0], Run(ops, delivers).nodes[i], Run(ops, delivers).nodes[j];
    RunKeepsUnique(ops, delivers);
    if ki < last {
      assert kj == last ==> first.name == m.name;
      assert kj < last;
      RunKeepsUnique(front, delivers);
      assert !(ops[last].Join? && IsEntryKind(ops[last].kind) && i == 0) by {
        assert !Evicts(ops, delivers, last, n);
      }
      var i', j' := ApplyKeepsOrder(Run(front, delivers), ops[last], delivers, i, j);
      assert forall k :: 0 <= k < last ==> front[..k] == ops[..k];
      assert forall k, x :: 0 <= k < last ==> Evicts(front, delivers, k, x) == Evicts(ops, delivers, k, x);
      NewestFirst(front, delivers, i', j', ki, kj);
    }
  }
}
