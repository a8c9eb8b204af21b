/** The child lists of NBUSXML and CommandXML (include/XMLTypes.h) and the loops of service/XMLParser.cpp over them. */
module XmlLists {
  import opened Bytes
  import opened List
  import opened Xml

  function Reverse<T>(s: seq<T>): (r: seq<T>)
    ensures |r| == |s|
    ensures forall i :: 0 <= i < |s| ==> r[i] == s[|s| - 1 - i]
  {
    if s == [] then [] else Reverse(s[1..]) + [s[0]]
  }

  lemma ReverseTwice<T>(s: seq<T>)
    ensures Reverse(Reverse(s)) == s
  {
  }

  lemma ReverseStep<T>(s: seq<T>, k: nat)
    requires k < |s|
    ensures Reverse(s[..k + 1]) == [s[k]] + Reverse(s[..k])
  {
    assert s[..k + 1] == s[..k] + [s[k]];
  }

  /** A sentinel made on first use, insertion behind the sentinel, and a count. */
  class ChildList<T> {
    const blank: T
    var head: Link?<T>
    var count: nat
    ghost var entries: seq<Link<T>>
    ghost var Repr: set<object>

    ghost predicate Valid()
      reads this, Repr
      ensures Valid() ==> this in Repr
    {
      && this in Repr
      && (head == null ==> entries == [])
      && (head != null ==>
            head in Repr && (forall i :: 0 <= i < |entries| ==> entries[i] in Repr) && Ring([head] + entries))
      && count == |entries|
    }

    /** The children in list order. */
    ghost function Items(): (s: seq<T>)
      reads this
    {
      Data(entries)
    }

    constructor (blank: T)
      ensures Valid() && fresh(Repr) && head == null && Items() == []
    {
      this.blank, head, count, entries := blank, null, 0, [];
      Repr := {this};
    }

    method Add(x: Link<T>)
      requires Valid() && x !in Repr && !x.freed
      modifies Repr, x
      ensures Valid() && Repr >= old(Repr) && fresh(Repr - old(Repr) - {x}) && head != null
      ensures Items() == [x.data] + old(Items())
    {
      if head == null {
        var sentinel := new Link(blank);
        head := sentinel;
        Repr := Repr + {head};
        assert [head] + entries == [sentinel];
      }
      ghost var c := [head] + entries;
      assert Linked(c, 0);
      ListAdd(x, head, c);
      entries := [x] + entries;
      Repr := Repr + {x};
      count := count + 1;
      assert [head] + entries == [head, x] + c[1..];
    }

    lemma Neighbours(k: nat)
      requires Valid() && head != null && k <= |entries|
      ensures var c := [head] + entries;
        && c[k].next == c[Succ(k, |c|)] && c[k].prev == c[Pred(k, |c|)] && (k > 0 ==> c[k] != head)
    {
      var c := [head] + entries;
      assert Linked(c, k);
      assert k > 0 ==> c[0] != c[k];
    }

    /** LIST_FOR_EACH: the children from the newest to the oldest. */
    method Forward() returns (s: seq<T>)
      requires Valid() && head != null
      ensures s == Items()
    {
      s := [];
      ghost var k: nat := 0;
      Neighbours(0);
      var p := head.next;
      while p != head
        invariant k <= |entries| && p == ([head] + entries)[if k == |entries| then 0 else k + 1]
        invariant s == Items()[..k]
        decreases |entries| - k
      {
        Neighbours(k + 1);
        s := s + [p.data];
        p := p.next;
        k := k + 1;
      }
    }

    /** LIST_FOR_EACH_PREV: the children from the oldest to the newest. */
    method Backward() returns (s: seq<T>)
      requires Valid() && head != null
      ensures s == Reverse(Items())
    {
      s := [];
      ghost var k: nat := |entries|;
      Neighbours(0);
      var p := head.prev;
      while p != head
        invariant k <= |entries| && p == ([head] + entries)[k]
        invariant s == Reverse(Items()[k..])
        decreases k
      {
        Neighbours(k);
        s := s + [p.data];
        p := p.prev;
        k := k - 1;
        assert Items()[k..] == [Items()[k]] + Items()[k + 1..];
      }
      assert Items()[0..] == Items();
    }

    /** The destructor's loop: every child is unlinked and deleted once, then the sentinel. */
    method Destroy()
      requires Valid()
      modifies Repr
      ensures forall i :: 0 <= i < old(|entries|) ==> old(entries)[i].freed
      ensures old(count) > 0 ==> old(head).freed
    {
      if count != 0 {
        var sentinel: Link<T> := head;
        ghost var all, done: nat := entries, 0;
        assert all[0..] == all;
        Neighbours(0);
        assert [sentinel] + all == [head] + entries;
        var p := sentinel.next;
        while p != sentinel
          invariant done <= |all| && Ring([sentinel] + all[done..])
          invariant unchanged(this) && sentinel in Repr && forall i :: 0 <= i < |all| ==> all[i] in Repr
          invariant p == if done == |all| then sentinel else all[done]
          invariant done < |all| ==> ([sentinel] + all[done..])[1] == p && p != sentinel
          invariant forall i :: 0 <= i < done ==> all[i].freed
          decreases |all| - done
        {
          ghost var c := [sentinel] + all[done..];
          assert Linked(c, 1);
          Delete(p, c, 1);
          done := done + 1;
          assert List.Without(c, 1) == [sentinel] + all[done..];
          assert Linked([sentinel] + all[done..], 0);
          p := sentinel.next;
        }
        sentinel.freed := true;
      }
    }
  }

  // ----- NBUSXML -----

  class NbusXml {
    var kind: int
    var id: int
    var syncId: int
    var node: string
    var buffer: string
    const list: ChildList<string>

    ghost predicate Valid()
      reads this, list, list.Repr
    {
      list.Valid() && this !in list.Repr
    }

    constructor ()
      ensures Valid() && fresh(list) && fresh(list.Repr) && list.head == null && list.Items() == [] && syncId == -1
    {
      kind, id, syncId, node, buffer := 0, 0, -1, "", "";
      list := new ChildList<string>("");
    }

    method AddNode(name: string)
      requires Valid()
      modifies list.Repr
      ensures Valid() && fresh(list.Repr - old(list.Repr)) && list.head != null
      ensures list.Items() == [name] + old(list.Items())
    {
      var x := new Link(name);
      assert Linked([x], 0);
      list.Add(x);
    }

    /** The document that toXML prints of a LIST response; without any node it would walk a null list. */
    method ToXml() returns (d: Document)
      requires Valid() && kind == NBUS_TYPE_RESPONSE && id == NBUS_CMD_LIST && list.head != null
      ensures d == Bus(kind, id, node, syncId, buffer, list.Items())
    {
      var children := list.Forward();
      d := Bus(kind, id, node, syncId, buffer, children);
    }
  }

  /** The nodebus branch of parseXML. */
  method ParseBus(d: Document) returns (x: NbusXml)
    requires d.Bus?
    ensures fresh(x) && x.Valid() && fresh(x.list) && fresh(x.list.Repr)
    ensures x.kind == d.kind && x.id == d.id && x.node == d.node && x.syncId == d.syncId && x.buffer == d.buffer
    ensures x.list.Items() == Reverse(d.nodes) && (d.nodes != [] ==> x.list.head != null)
  {
    x := new NbusXml();
    x.kind, x.id, x.node, x.syncId, x.buffer := d.kind, d.id, d.node, d.syncId, d.buffer;
    for i := 0 to |d.nodes|
      invariant x.Valid() && fresh(x.list.Repr)
      invariant x.kind == d.kind && x.id == d.id && x.node == d.node && x.syncId == d.syncId && x.buffer == d.buffer
      invariant x.list.Items() == Reverse(d.nodes[..i]) && (i > 0 ==> x.list.head != null)
    {
      x.AddNode(d.nodes[i]);
      ReverseStep(d.nodes, i);
    }
    assert d.nodes[..|d.nodes|] == d.nodes;
  }

  /** The client's text lists the nodes in the opposite order of the service's text. */
  method Reprint(d: Document) returns (text: Document)
    requires d.Bus? && d.kind == NBUS_TYPE_RESPONSE && d.id == NBUS_CMD_LIST && d.nodes != []
    ensures text == d.(nodes := Reverse(d.nodes))
  {
    var x := ParseBus(d);
    text := x.ToXml();
  }

  // ----- CommandXML -----

  class CommandXml {
    var kind: int
    const list: ChildList<Argument>

    ghost predicate Valid()
      reads this, list, list.Repr
    {
      list.Valid() && this !in list.Repr
    }

    /** The arguments in the order in which they were added. */
    ghost function Arguments(): (s: seq<Argument>)
      reads this, list
    {
      Reverse(list.Items())
    }

    constructor ()
      ensures Valid() && fresh(list) && fresh(list.Repr) && Arguments() == []
    {
      kind := 0;
      list := new ChildList<Argument>(Argument("", ""));
    }

    method AddArgument(x: Link<Argument>) returns (n: nat)
      requires Valid() && x !in list.Repr && !x.freed
      modifies list.Repr, x
      ensures Valid() && fresh(list.Repr - old(list.Repr) - {x})
      ensures Arguments() == old(Arguments()) + [x.data] && n == |Arguments()|
    {
      list.Add(x);
      assert list.Items()[1..] == old(list.Items());
      n := list.count;
    }

    method ToXml() returns (d: Document)
      requires Valid()
      ensures d == Command(kind, Arguments())
    {
      var arguments: seq<Argument> := [];
      if list.count != 0 {
        arguments := list.Backward();
      }
      d := Command(kind, arguments);
    }
  }

  /** parseCommandXml. */
  method ParseCommand(d: Document) returns (x: CommandXml)
    requires d.Command?
    ensures fresh(x) && x.Valid() && x.kind == d.kind && x.Arguments() == d.arguments
  {
    x := new CommandXml();
    x.kind := d.kind;
    for i := 0 to |d.arguments|
      invariant x.Valid() && fresh(x.list) && fresh(x.list.Repr) && x.kind == d.kind
      invariant x.Arguments() == d.arguments[..i]
    {
      var argument := new Link(d.arguments[i]);
      assert Linked([argument], 0);
      var _ := x.AddArgument(argument);
    }
  }

  /** Printing, parsing and printing again gives the same argument sequence. */
  method CommandRoundTrip(x: CommandXml) returns (first: Document, second: Document)
    requires x.Valid()
    ensures second == first == Command(x.kind, x.Arguments())
  {
    first := x.ToXml();
    var parsed := ParseCommand(first);
    second := parsed.ToXml();
  }
}
