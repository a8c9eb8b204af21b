/** The bounded command queue of service/Queue.cpp: a ring array whose slots own their payloads. */
module CmdQueue {
  import opened Bytes
  import opened Messages

  /** memcpy into a buffer of exactly the source's size. */
  method Copy(src: array<byte>) returns (dst: array<byte>)
    ensures fresh(dst) && dst[..] == src[..]
  {
    dst := new byte[src.Length];
    forall i | 0 <= i < src.Length { dst[i] := src[i]; }
  }

  class NbusCmd {
    var data: array?<byte>
    var length: nat
    var cmd: int
    var kind: int

    /** The payload pointer and the length agree; a live object needs no more. */
    ghost predicate Valid()
      reads this
    {
      if length == 0 then data == null else data != null && data.Length == length
    }

    ghost function Value(): (v: Item)
      requires Valid()
      reads this, data
    {
      Item(if data == null then [] else data[..], cmd, kind)
    }

    constructor ()
      ensures Valid() && Value() == Item([], 0, NONE_MESSAGE)
    {
      data, length, cmd, kind := null, 0, 0, NONE_MESSAGE;
    }

    constructor Sized(length: nat)
      ensures Valid() && Value() == Item(seq(length, _ => 0), 0, NONE_MESSAGE)
      ensures this.length == length && (data != null ==> fresh(data))
    {
      var buffer: array?<byte> := null;
      if length != 0 {
        buffer := new byte[length](_ => 0);
      }
      this.data, this.length, cmd, kind := buffer, length, 0, NONE_MESSAGE;
    }

    /** operator=: the old payload is released and the other object's payload is copied. */
    method Assign(n: NbusCmd)
      requires n.Valid()
      modifies this
      ensures Valid() && Value() == old(n.Value())
      ensures this != n && data != null ==> fresh(data)
    {
      if this != n {
        data := null;
        cmd := n.cmd;
        length := n.length;
        if n.length != 0 {
          data := Copy(n.data);
        }
        kind := n.kind;
      }
    }

    method IsValid() returns (b: bool)
      requires Valid()
      ensures b == Value().HasData()
    {
      b := data != null;
    }
  }

  // ----- the bounded FIFO that the ring array implements -----

  /** push on the contents: refused, without any change, when all slots are taken. */
  function Enqueued(q: seq<Item>, capacity: nat, item: Item): (r: seq<Item>) {
    if |q| < capacity then q + [item] else q
  }

  function Dequeued(q: seq<Item>): (r: seq<Item>) {
    if q == [] then [] else q[1..]
  }

  // ----- the ring array -----

  function Slot(bottom: nat, i: nat, n: nat): (k: nat)
    requires bottom < n && i <= n
    ensures k < n
  {
    if bottom + i < n then bottom + i else bottom + i - n
  }

  /** Slot i counted from bottom is the index (bottom + i) mod n of the ring. */
  lemma SlotIsModulo(bottom: nat, i: nat, n: nat)
    requires bottom < n && i <= n
    ensures Slot(bottom, i, n) == (bottom + i) % n
  {
    var x := bottom + i;
    var k := x / n;
    assert x == n * k + x % n;
    assert k < 2 by {
      if k >= 2 { MulAtLeast(n, k, 2); assert false; }
    }
    if k == 1 {
      assert n * k == n;
    }
  }

  lemma MulAtLeast(n: nat, k: nat, m: nat)
    requires k >= m
    ensures n * k >= n * m
  {
  }

  /** i++; i %= n. */
  method Advance(i: nat, n: nat) returns (r: nat)
    requires i < n
    ensures r == Slot(i, 1, n)
  {
    SlotIsModulo(i, 1, n);
    r := i + 1;
    r := r % n;
  }

  class NbusCmdQueue {
    var bottom: nat
    var top: nat
    var size: nat
    var full: bool
    const qSize: nat
    const slots: array<NbusCmd>

    ghost var contents: seq<Item>
    ghost var Repr: set<object>

    /** No two slots share an object or a payload, and everything the queue owns is in Repr. */
    ghost predicate Owned()
      reads this, Repr
    {
      && this in Repr && slots in Repr
      && (forall i :: 0 <= i < slots.Length ==> slots[i] in Repr)
      && (forall i :: 0 <= i < slots.Length && slots[i].data != null ==> slots[i].data in Repr)
      && (forall i, j :: 0 <= i < j < slots.Length ==> slots[i] != slots[j])
      && (forall i, j :: 0 <= i < j < slots.Length && slots[i].data != null ==> slots[i].data != slots[j].data)
    }

    /** The i-th live slot holds the i-th element of the contents. */
    ghost predicate Holds(i: nat)
      requires Owned() && bottom < qSize == slots.Length && i < |contents| <= qSize
      reads this, Repr
    {
      var s := slots[Slot(bottom, i, qSize)];
      s.Valid() && s.Value() == contents[i]
    }

    ghost predicate Valid()
      reads this, Repr
      ensures Valid() ==> this in Repr
    {
      && Owned()
      && bottom < qSize == slots.Length
      && size == |contents| <= qSize
      && top == Slot(bottom, size, qSize)
      && (full <==> size == qSize)
      && forall i :: 0 <= i < size ==> Holds(i)
    }

    constructor (capacity: nat)
      requires capacity > 0
      ensures Valid() && fresh(Repr)
      ensures contents == [] && qSize == capacity
    {
      var blank := new NbusCmd();
      var a := new NbusCmd[capacity](_ => blank);
      var made: set<object> := {};
      for i := 0 to capacity
        invariant fresh(made) && fresh(a) && a !in made
        invariant forall j :: 0 <= j < i ==> a[j] in made && a[j].data == null
        invariant forall j, k :: 0 <= j < k < i ==> a[j] != a[k]
      {
        var c := new NbusCmd();
        a[i] := c;
        made := made + {c};
      }
      slots, qSize := a, capacity;
      bottom, top, size, full := 0, 0, 0, false;
      contents := [];
      new;
      Repr := made + {this, a};
    }

    /** slots[k] = item, and the bookkeeping of what the slot then owns. */
    method Fill(k: nat, item: NbusCmd)
      requires Owned() && k < slots.Length && item.Valid()
      requires item !in Repr && (item.data != null ==> item.data !in Repr)
      modifies this`Repr, slots[k]
      ensures Owned() && fresh(Repr - old(Repr)) && old(Repr) <= Repr
      ensures item !in Repr && (item.data != null ==> item.data !in Repr)
      ensures slots[k].Valid() && slots[k].Value() == item.Value()
    {
      var s := slots[k];
      s.Assign(item);
      if s.data != null {
        Repr := Repr + {s.data};
      }
    }

    /** Copies the item into the next slot, or refuses it when the queue is full. */
    method Push(item: NbusCmd) returns (count: nat)
      requires Valid() && item.Valid()
      requires item !in Repr && (item.data != null ==> item.data !in Repr)
      modifies Repr
      ensures Valid() && fresh(Repr - old(Repr))
      ensures contents == Enqueued(old(contents), qSize, item.Value())
      ensures item.Value() == old(item.Value())
      ensures item !in Repr && (item.data != null ==> item.data !in Repr)
      ensures count == |contents|
    {
      if full {
        count := qSize;
      } else {
        ghost var was := contents;
        var k := top;
        Fill(k, item);
        assert forall i :: 0 <= i < |was| ==> Holds(i) by {
          forall i | 0 <= i < |was| ensures Holds(i) {
            assert old(Holds(i));
            assert slots[Slot(bottom, i, qSize)] != slots[k];
          }
        }
        TakeLast(item);
        count := size;
      }
    }

    /** Counts the slot that has just been filled as the last element. */
    method TakeLast(item: NbusCmd)
      requires Owned() && bottom < qSize == slots.Length
      requires size == |contents| < qSize && top == Slot(bottom, size, qSize) && !full
      requires item.Valid() && slots[top].Valid() && slots[top].Value() == item.Value()
      requires item !in Repr
      requires forall i :: 0 <= i < size ==> Holds(i)
      modifies this`top, this`size, this`full, this`contents
      ensures Valid() && contents == old(contents) + [item.Value()]
    {
      contents := contents + [item.Value()];
      top := Advance(top, qSize);
      size := size + 1;
      if size == qSize {
        full := true;
      }
      forall i | 0 <= i < size
        ensures Holds(i)
      {
        assert i < size - 1 ==> old(Holds(i));
      }
    }

    /** Hands out a deep copy of the oldest element and releases the slot's own payload. */
    method Pop() returns (item: NbusCmd?)
      requires Valid()
      modifies Repr
      ensures Valid() && Repr == old(Repr)
      ensures contents == Dequeued(old(contents))
      ensures item == null <==> old(contents) == []
      ensures item != null ==>
        && fresh(item) && (item.data != null ==> fresh(item.data))
        && item.Valid() && item.Value() == old(contents)[0]
    {
      item := null;
      if size != 0 {
        item := new NbusCmd();
        var s := slots[bottom];
        assert Holds(0);
        item.Assign(s);
        if s.data != null {
          s.data := null;
        }
        assert forall i :: 1 <= i < size ==> Holds(i) by {
          forall i | 1 <= i < size ensures Holds(i) {
            assert old(Holds(i));
            assert slots[Slot(bottom, i, qSize)] != s;
          }
        }
        DropFirst();
      }
    }

    /** Moves bottom past a slot that has just been released. */
    method DropFirst()
      requires Owned() && bottom < qSize == slots.Length
      requires 0 < size == |contents| <= qSize && top == Slot(bottom, size, qSize)
      requires forall i :: 1 <= i < size ==> Holds(i)
      modifies this`bottom, this`size, this`full, this`contents
      ensures Valid() && contents == old(contents)[1..]
    {
      contents := contents[1..];
      bottom := Advance(bottom, qSize);
      size := size - 1;
      full := false;
      forall i | 0 <= i < size
        ensures Holds(i)
      {
        assert old(Holds(i + 1));
      }
    }

    method Clear()
      requires Valid()
      modifies Repr
      ensures Valid() && Repr == old(Repr)
      ensures contents == []
    {
      for i := 0 to qSize
        invariant Owned()
        invariant Repr == old(Repr)
      {
        if slots[i].data != null {
          slots[i].data := null;
        }
      }
      size, top, bottom, full := 0, 0, 0, false;
      contents := [];
    }

    method GetSize() returns (n: nat)
      requires Valid()
      ensures n == |contents|
    {
      n := size;
    }
  }
}
