/** The node registry of service/DefaultService.cpp as it lies in memory. */
module Registry {
  import opened Bytes
  import opened List
  import opened Delivery
  import opened NodeTable
  import XmlLists

  class NodeRegistry {
    var numOfNode: int
    var defaultNode: string
    const head: Link<Node>
    ghost var entries: seq<Link<Node>>
    ghost var Repr: set<object>

    ghost function Nodes(): (s: seq<Node>)
      reads this
    {
      Data(entries)
    }

    /** The entries form one ring behind the sentinel, and they are counted. */
    ghost predicate WellLinked()
      reads this, Repr
      ensures WellLinked() ==> this in Repr
    {
      && this in Repr && head in Repr
      && (forall i :: 0 <= i < |entries| ==> entries[i] in Repr)
      && Ring([head] + entries)
      && numOfNode == |entries|
    }

    /** Besides, their names differ. */
    ghost predicate Valid()
      reads this, Repr
      ensures Valid() ==> this in Repr
    {
      WellLinked() && Unique(Nodes())
    }

    constructor ()
      ensures Valid() && fresh(Repr)
      ensures Nodes() == [] && defaultNode == ""
    {
      var sentinel := new Link(Node("", NODE_ENTRY_LOCAL));
      head := sentinel;
      numOfNode := 0;
      defaultNode := "";
      entries := [];
      Repr := {this, sentinel};
      new;
      assert [head] + entries == [head];
    }

    /** Takes entry k out of the ring. */
    method Unlink(x: Link<Node>, ghost k: nat)
      requires Valid() && k < |entries| && x == entries[k]
      modifies Repr
      ensures Valid() && Repr == old(Repr)
      ensures entries == List.Without(old(entries), k)
      ensures Nodes() == List.Without(old(Nodes()), k)
      ensures defaultNode == old(defaultNode)
    {
      ghost var c := [head] + entries;
      assert Linked(c, k + 1);
      WithoutEntry(head, entries, k);
      numOfNode := numOfNode - 1;
      Delete(x, c, k + 1);
      entries := List.Without(entries, k);
    }

    /** LIST_FOR_EACH takes the step from entry k - 1 (or the sentinel) to entry k (or the sentinel). */
    lemma Next(k: nat)
      requires Valid() && k <= |entries|
      ensures ([head] + entries)[k].next == if k == |entries| then head else entries[k]
      ensures ([head] + entries)[k].prev == if k == 0 then ([head] + entries)[|entries|] else ([head] + entries)[k - 1]
      ensures k < |entries| ==> entries[k] != head
    {
      var c := [head] + entries;
      assert Linked(c, k);
      assert k < |entries| ==> c[k + 1] == entries[k] && c[k + 1] != c[0];
    }

    method AddNodeEntry(entry: Link?<Node>) returns (list: Link?<Node>)
      requires WellLinked()
      requires entry != null ==> entry !in Repr && !entry.freed
      modifies Repr, entry
      ensures WellLinked() && Repr == old(Repr) + (if entry == null then {} else {entry})
      ensures list == if entry == null then null else head
      ensures Nodes() == if entry == null then old(Nodes()) else [entry.data] + old(Nodes())
      ensures old(Valid()) && (entry != null ==> !HasName(old(Nodes()), entry.data.name)) ==> Valid()
      ensures defaultNode == old(defaultNode)
    {
      if entry == null {
        return null;
      }
      ghost var c := [head] + entries;
      assert Linked(c, 0);
      ListAdd(entry, head, c);
      numOfNode := numOfNode + 1;
      entries := [entry] + entries;
      Repr := Repr + {entry};
      assert [head] + entries == [head, entry] + c[1..];
      assert Nodes() == [entry.data] + old(Nodes());
      list := head;
    }

    /** The LIST_FOR_EACH search for the first entry of a name. */
    method Find(name: string) returns (node: Link?<Node>, ghost k: nat)
      requires Valid()
      ensures k <= |entries| && forall i :: 0 <= i < k ==> Nodes()[i].name != name
      ensures if k == |entries| then node == null else node == entries[k] && Nodes()[k].name == name
    {
      k := 0;
      Next(0);
      node := head.next;
      while node != head
        invariant k <= |entries| && node == if k == |entries| then head else entries[k]
        invariant forall i :: 0 <= i < k ==> Nodes()[i].name != name
        decreases |entries| - k
      {
        Next(k + 1);
        if node.data.name == name {
          Next(k);
          return;
        }
        node := node.next;
        k := k + 1;
      }
      Next(k);
      node := null;
    }

    method Drop(pNodeName: Option<string>) returns (r: int)
      requires Valid()
      modifies Repr
      ensures Valid() && Repr == old(Repr)
      ensures r == if pNodeName.None? then -1 else 0
      ensures Nodes() == if pNodeName.None? then old(Nodes()) else Dropped(old(Nodes()), pNodeName.value)
      ensures defaultNode ==
        if pNodeName.Some? && HasName(old(Nodes()), pNodeName.value) && old(defaultNode) == pNodeName.value
        then "" else old(defaultNode)
    {
      if pNodeName.None? {
        return -1;
      }
      ghost var k;
      var node;
      node, k := Find(pNodeName.value);
      DroppedAt(Nodes(), pNodeName.value, k);
      if node != null {
        Unlink(node, k);
        if pNodeName.value == defaultNode {
          defaultNode := "";
        }
      }
      return 0;
    }

    /** join of an entry type: an unknown type still drops the name before it fails. */
    method Join(pNodeName: Option<string>, kind: int) returns (r: int)
      requires Valid()
      modifies Repr
      ensures Valid() && fresh(Repr - old(Repr))
      ensures r == if pNodeName.Some? && IsEntryKind(kind) then 0 else -1
      ensures Nodes() ==
        if pNodeName.None? then old(Nodes())
        else if IsEntryKind(kind) then Joined(old(Nodes()), Node(pNodeName.value, kind))
        else Dropped(old(Nodes()), pNodeName.value)
      ensures defaultNode ==
        if pNodeName.Some? && HasName(old(Nodes()), pNodeName.value) && old(defaultNode) == pNodeName.value
        then "" else old(defaultNode)
    {
      if pNodeName.None? {
        return -1;
      }
      var entry: Link?<Node> := null;
      if kind == NODE_ENTRY_CLIENT {
        entry := new Link(Node(pNodeName.value, NODE_ENTRY_CLIENT));
      } else if kind == NODE_ENTRY_LOCAL {
        entry := new Link(Node(pNodeName.value, NODE_ENTRY_LOCAL));
      }
      assert entry != null ==> !entry.freed by {
        assert entry != null ==> Linked([entry], 0);
      }
      DropFilters(Nodes(), pNodeName.value);
      var _ := Drop(pNodeName);
      var list := AddNodeEntry(entry);
      r := if list == null then -1 else 0;
    }

    /** One send attempt: an entry that cannot be reached is deleted and the cursor steps back. */
    method Attempt(node: Link<Node>, ghost k: nat, manifest: seq<byte>, msgType: int, net: Network)
        returns (cursor: Link<Node>)
      requires Valid() && net !in Repr && k < |entries| && node == entries[k]
      modifies Repr, net`sends
      ensures Valid() && Repr == old(Repr) && defaultNode == old(defaultNode)
      ensures net.sends == old(net.sends) + [Send(node.data.name, manifest, msgType)]
      ensures if net.Delivers()(old(|net.sends|), msgType, |manifest|)
              then entries == old(entries) && cursor == node
              else entries == List.Without(old(entries), k) && cursor == ([head] + entries)[k]
      ensures Nodes() ==
        if net.Delivers()(old(|net.sends|), msgType, |manifest|) then old(Nodes()) else List.Without(old(Nodes()), k)
    {
      var sent, _ := net.SendNodeMessage(node.data.name, manifest, msgType);
      cursor := node;
      if sent < 0 {
        Next(k);
        assert Linked([head] + entries, k + 1);
        cursor := node.prev;
        Unlink(node, k);
      }
    }

    /** A pass over `all` has got through its first `done` entries. */
    ghost predicate Passed(all: seq<Node>, done: nat, kind: int, delivers: nat -> bool, at: nat)
      reads this
    {
      done <= |all| && Nodes() == Survivors(all[..done], kind, delivers, at) + all[done..]
    }

    /** The loop body on the first entry that the pass has not seen; the cursor is where to go on from. */
    method Visit(node: Link<Node>, ghost all: seq<Node>, ghost done: nat, ghost at: nat,
                 kind: int, manifest: seq<byte>, msgType: int, net: Network, ghost delivers: nat -> bool)
        returns (cursor: Link<Node>)
      requires delivers == OfMessage(net.Delivers(), msgType, |manifest|)
      requires Valid() && net !in Repr && Passed(all, done, kind, delivers, at) && done < |all|
      requires node == entries[|Survivors(all[..done], kind, delivers, at)|]
      requires |net.sends| == at + |Targets(all[..done], kind)|
      modifies Repr, net`sends
      ensures Valid() && Repr == old(Repr) && defaultNode == old(defaultNode)
      ensures Passed(all, done + 1, kind, delivers, at)
      ensures net.sends ==
        old(net.sends) + (if all[done].kind == kind then [Send(all[done].name, manifest, msgType)] else [])
      ensures cursor == ([head] + entries)[|Survivors(all[..done + 1], kind, delivers, at)|]
    {
      ghost var left := Survivors(all[..done], kind, delivers, at);
      PassStep(all, done, kind, delivers, at);
      assert Nodes()[|left|] == node.data == all[done];
      cursor := node;
      if node.data.kind == kind {
        ghost var sent := delivers(|net.sends|);
        assert Survivors(all[..done + 1], kind, delivers, at) == if sent then left + [all[done]] else left;
        cursor := Attempt(node, |left|, manifest, msgType, net);
      }
    }

    /** One pass over the entries of a kind that deletes, while iterating, every entry it cannot reach. */
    method Broadcast(manifest: Option<seq<byte>>, kind: int, msgType: int, net: Network) returns (r: int)
      requires Valid() && net !in Repr
      modifies Repr, net`sends
      ensures Valid() && Repr == old(Repr)
      ensures r == if manifest.None? then -1 else 0
      ensures manifest.None? ==> Nodes() == old(Nodes()) && net.sends == old(net.sends)
      ensures manifest.Some? ==>
        && Nodes()
           == Survivors(old(Nodes()), kind, OfMessage(net.Delivers(), msgType, |manifest.value|), old(|net.sends|))
        && net.sends == old(net.sends) + Attempts(Targets(old(Nodes()), kind), manifest.value, msgType)
      ensures defaultNode == old(defaultNode)
    {
      if manifest.None? {
        return -1;
      }
      ghost var all, at := Nodes(), |net.sends|;
      ghost var delivers := OfMessage(net.Delivers(), msgType, |manifest.value|);
      ghost var done: nat, k: nat := 0, 0;  // entries passed so far: of `all`, and of the list as it is now
      ghost var sent: seq<Send> := [];
      Next(0);
      var node := head.next;
      while node != head
        invariant Valid() && Repr == old(Repr) && defaultNode == old(defaultNode)
        invariant k <= |entries| && node == if k == |entries| then head else entries[k]
        invariant Passed(all, done, kind, delivers, at)
        invariant k == |Survivors(all[..done], kind, delivers, at)|
        invariant sent == Attempts(Targets(all[..done], kind), manifest.value, msgType)
        invariant net.sends == old(net.sends) + sent
        decreases |all| - done
      {
        AttemptsStep(all, done, kind, manifest.value, msgType);
        sent := Attempts(Targets(all[..done + 1], kind), manifest.value, msgType);
        node := Visit(node, all, done, at, kind, manifest.value, msgType, net, delivers);
        done := done + 1;
        k := |Survivors(all[..done], kind, delivers, at)|;
        Next(k);
        node := node.next;
      }
      Next(k);
      assert all[..done] == all;
      r := 0;
    }

    /** The loop of a LIST request: every entry goes into the reply, whose list is filled at the front. */
    method ListNodes(x: XmlLists.NbusXml)
      requires Valid() && x.Valid() && x.list.Repr !! Repr && x.list.Items() == [] && x.list.head == null
      modifies x.list.Repr
      ensures x.Valid() && fresh(x.list.Repr - old(x.list.Repr))
      ensures x.list.Items() == XmlLists.Reverse(Names(Nodes())) && (Nodes() != [] <==> x.list.head != null)
    {
      ghost var k: nat := 0;
      ghost var names := Names(Nodes());
      Next(0);
      var node := head.next;
      while node != head
        invariant Valid() && x.Valid() && fresh(x.list.Repr - old(x.list.Repr)) && x.list.Repr !! Repr
        invariant k <= |entries| && node == if k == |entries| then head else entries[k]
        invariant x.list.Items() == XmlLists.Reverse(names[..k]) && (k > 0 <==> x.list.head != null)
        decreases |entries| - k
      {
        x.AddNode(node.data.name);
        XmlLists.ReverseStep(names, k);
        Next(k + 1);
        node := node.next;
        k := k + 1;
      }
      Next(k);
      assert names[..k] == names;
    }

    method Exist(pNodeName: Option<string>) returns (r: int)
      requires Valid()
      ensures r == if pNodeName.None? then -1 else if HasName(Nodes(), pNodeName.value) then 1 else 0
    {
      if pNodeName.None? {
        return -1;
      }
      ghost var k;
      var node;
      node, k := Find(pNodeName.value);
      DroppedAt(Nodes(), pNodeName.value, k);
      r := if node != null then 1 else 0;
    }
  }

  /** Removing an entry, seen as a list of objects, of values and of ring members. */
  lemma WithoutEntry(head: Link<Node>, s: seq<Link<Node>>, k: nat)
    requires k < |s|
    ensures Data(List.Without(s, k)) == List.Without(Data(s), k)
    ensures [head] + List.Without(s, k) == List.Without([head] + s, k + 1)
    ensures Unique(Data(s)) ==> Unique(List.Without(Data(s), k))
  {
  }

  /** What one more entry adds to the result of a broadcast pass. */
  lemma PassStep(all: seq<Node>, done: nat, kind: int, delivers: nat -> bool, at: nat)
    requires done < |all|
    ensures var before, after := all[..done], all[..done + 1];
      && Targets(after, kind) == Targets(before, kind) + (if all[done].kind == kind then [all[done].name] else [])
      && Survivors(after, kind, delivers, at)
         == Survivors(before, kind, delivers, at)
            + (if all[done].kind != kind || delivers(at + |Targets(before, kind)|) then [all[done]] else [])
    ensures var left := Survivors(all[..done], kind, delivers, at);
      && left + all[done..] == (left + [all[done]]) + all[done + 1..]
      && List.Without(left + all[done..], |left|) == left + all[done + 1..]
  {
    assert all[..done + 1] == all[..done] + [all[done]];
    TargetsConcat(all[..done], [all[done]], kind);
    SurvivorsConcat(all[..done], [all[done]], kind, delivers, at);
  }

  lemma AttemptsStep(all: seq<Node>, done: nat, kind: int, payload: seq<byte>, msgType: int)
    requires done < |all|
    ensures Attempts(Targets(all[..done + 1], kind), payload, msgType)
         == Attempts(Targets(all[..done], kind), payload, msgType)
            + (if all[done].kind == kind then [Send(all[done].name, payload, msgType)] else [])
  {
    assert all[..done + 1] == all[..done] + [all[done]];
    TargetsConcat(all[..done], [all[done]], kind);
  }

  /** The first entry of a name is the one a drop removes. */
  lemma {:induction false} DroppedAt(s: seq<Node>, name: string, k: nat)
    requires k <= |s| && forall i :: 0 <= i < k ==> s[i].name != name
    ensures k == |s| ==> Dropped(s, name) == s && !HasName(s, name)
    ensures k < |s| && s[k].name == name ==> Dropped(s, name) == s[..k] + s[k + 1..] && HasName(s, name)
  {
    if k > 0 {
      DroppedAt(s[1..], name, k - 1);
      assert s == [s[0]] + s[1..];
      assert k < |s| ==> [s[0]] + (s[1..][..k - 1] + s[1..][k..]) == s[..k] + s[k + 1..];
    }
    if k < |s| {
      assert s[k] in s;
    }
  }
}
