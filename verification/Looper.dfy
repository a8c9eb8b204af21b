/** The wake pipe of service/NodeLooper.cpp: a FIFO of four-byte tokens. */
module Looper {
  datatype Token = Wake | Exit

  function Wakes(n: nat): (t: seq<Token>)
    ensures |t| == n
  {
    seq(n, _ => Wake)
  }

  /** The number of wake-ups among the tokens. */
  function CountWakes(t: seq<Token>): (n: nat)
    ensures n <= |t|
  {
    if t == [] then 0 else (if t[0] == Wake then 1 else 0) + CountWakes(t[1..])
  }

  lemma {:induction false} CountWakesConcat(a: seq<Token>, b: seq<Token>)
    ensures CountWakes(a + b) == CountWakes(a) + CountWakes(b)
  {
    if a == [] {
      assert a + b == b;
    } else {
      assert (a + b)[1..] == a[1..] + b;
      CountWakesConcat(a[1..], b);
    }
  }

  /** The only exit token among u is the last one. */
  predicate ExitLast(u: seq<Token>) {
    u != [] && u[|u| - 1] == Exit && Exit !in u[..|u| - 1]
  }

  lemma ExitLastSplit(a: seq<Token>, b: seq<Token>)
    requires ExitLast(a + b)
    ensures if Exit in a then ExitLast(a) && b == [] else ExitLast(b)
  {
    var u := a + b;
    if b == [] {
      assert u == a;
    } else {
      assert u[..|u| - 1] == a + b[..|b| - 1];
    }
  }

  /** How many tokens stand before the first exit token. */
  function Before(u: seq<Token>): (n: nat)
    ensures n <= |u| && (n < |u| ==> u[n] == Exit)
    ensures forall i :: 0 <= i < n ==> u[i] != Exit
  {
    if u == [] || u[0] == Exit then 0 else 1 + Before(u[1..])
  }

  lemma {:induction false} BeforeConcat(a: seq<Token>, b: seq<Token>)
    ensures Before(a + b) == if Exit in a then Before(a) else |a| + Before(b)
  {
    if a == [] {
      assert a + b == b;
    } else {
      assert (a + b)[1..] == a[1..] + b;
      BeforeConcat(a[1..], b);
    }
  }

  class NodeLooper {
    var pipe: seq<Token>

    constructor ()
      ensures pipe == []
    {
      pipe := [];
    }

    method Wakeup()
      modifies this
      ensures pipe == old(pipe) + [Wake]
    {
      pipe := pipe + [Wake];
    }

    method SendExit()
      modifies this
      ensures pipe == old(pipe) + [Exit]
    {
      pipe := pipe + [Exit];
    }

    /** read(fd, buff, BUFSIZ): the first k whole tokens. */
    method ReadBatch(k: nat) returns (batch: seq<Token>)
      requires 0 < k <= |pipe|
      modifies this
      ensures |batch| == k && old(pipe) == batch + pipe
    {
      batch := pipe[..k];
      pipe := pipe[k..];
    }
  }
}
