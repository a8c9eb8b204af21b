/** The intrusive circular doubly linked list of include/List.h. */
module List {

  /** An object that carries the p_next and p_prev links. Its own data never changes. */
  class Link<T> {
    var next: Link<T>
    var prev: Link<T>
    const data: T
    ghost var freed: bool

    /** LIST_INIT: a new object is a ring of its own. */
    constructor (data: T)
      ensures this.data == data
      ensures Ring([this])
    {
      this.data := data;
      next := this;
      prev := this;
      freed := false;
    }
  }

  function Succ(i: nat, n: nat): (j: nat)
    requires i < n
    ensures j < n
  {
    if i + 1 == n then 0 else i + 1
  }

  function Pred(i: nat, n: nat): (j: nat)
    requires i < n
    ensures j < n && Succ(j, n) == i
  {
    if i == 0 then n - 1 else i - 1
  }

  /** Object i of c is linked to its two neighbours and has not been deleted. */
  ghost predicate Linked<T>(c: seq<Link<T>>, i: nat)
    requires i < |c|
    reads c
  {
    c[i].next == c[Succ(i, |c|)] && c[i].prev == c[Pred(i, |c|)] && !c[i].freed
  }

  ghost predicate Distinct<T>(c: seq<Link<T>>) {
    forall i, j :: 0 <= i < j < |c| ==> c[i] != c[j]
  }

  /** The objects c, in this order, form one ring in both directions; c[0] is the sentinel. */
  ghost predicate Ring<T>(c: seq<Link<T>>)
    reads c
  {
    |c| > 0 && Distinct(c) && forall i :: 0 <= i < |c| ==> Linked(c, i)
  }

  function Data<T>(s: seq<Link<T>>): (d: seq<T>)
    ensures |d| == |s|
  {
    seq(|s|, i requires 0 <= i < |s| => s[i].data)
  }

  function Without<T>(s: seq<T>, k: nat): (r: seq<T>)
    requires k < |s|
  {
    s[..k] + s[k + 1..]
  }

  /** LIST_ADD: links a fresh object in right behind the sentinel. */
  method ListAdd<T>(x: Link<T>, head: Link<T>, ghost c: seq<Link<T>>)
    requires Ring(c) && head == c[0]
    requires x !in c && !x.freed
    modifies head`next, head.next`prev, x`next, x`prev
    ensures Ring([head, x] + c[1..])
  {
    ghost var d := [head, x] + c[1..];
    assert forall i :: 2 <= i < |d| ==> d[i] == c[i - 1];
    assert Linked(c, 0);
    var after := head.next;
    after.prev := x;
    x.next := after;
    x.prev := head;
    head.next := x;
    forall i | 0 <= i < |d|
      ensures Linked(d, i)
    {
      assert old(Linked(c, if i < 2 then 0 else i - 1));
    }
  }

  /** `delete x`: the destructor runs LIST_DEL, after which x must not be touched. */
  method Delete<T>(x: Link<T>, ghost c: seq<Link<T>>, ghost k: nat)
    requires Ring(c) && 0 < k < |c| && x == c[k]
    modifies x.prev`next, x.next`prev, x`freed
    ensures Ring(Without(c, k)) && x.freed
  {
    ghost var d := Without(c, k);
    assert Linked(c, k);
    assert forall i :: 0 <= i < |d| ==> d[i] == c[if i < k then i else i + 1];
    var before, after := x.prev, x.next;
    before.next := after;
    after.prev := before;
    x.freed := true;
    forall i | 0 <= i < |d|
      ensures Linked(d, i)
    {
      assert old(Linked(c, if i < k then i else i + 1));
      assert before == d[k - 1] && after == d[if k == |d| then 0 else k];
    }
  }
}
