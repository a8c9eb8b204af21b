/** Bytes, native 32-bit words and the C string copies that the bus relies on. */
module Bytes {
  type byte = b: int | 0 <= b < 256

  datatype Option<+T> = None | Some(value: T)

  const INT_MAX := 0x7fff_ffff
  const WORD_LIMIT := 0x1_0000_0000
  const WORD_BYTES := 4

  /** The four bytes of an unsigned word as they lie in memory. */
  function Word(n: int): (w: seq<byte>)
    requires 0 <= n < WORD_LIMIT
    ensures |w| == WORD_BYTES
  {
    [n % 256, n / 0x100 % 256, n / 0x1_0000 % 256, n / 0x100_0000]
  }

  function WordValue(w: seq<byte>): (n: int)
    requires |w| == WORD_BYTES
    ensures 0 <= n < WORD_LIMIT
  {
    w[0] as int + 0x100 * w[1] as int + 0x1_0000 * w[2] as int + 0x100_0000 * w[3] as int
  }

  /** *(int *)buffer: the word as a signed number. */
  function IntValue(w: seq<byte>): (n: int)
    requires |w| == 4
    ensures -INT_MAX - 1 <= n <= INT_MAX
  {
    var v := WordValue(w);
    if v > INT_MAX then v - WORD_LIMIT else v
  }

  lemma WordRoundTrip(n: int)
    requires 0 <= n < WORD_LIMIT
    ensures WordValue(Word(n)) == n
  {
    assert n / 0x1_0000 == n / 0x100 / 0x100;
    assert n / 0x100_0000 == n / 0x1_0000 / 0x100;
  }

  lemma WordUnique(w: seq<byte>)
    requires |w| == WORD_BYTES
    ensures Word(WordValue(w)) == w
  {
    var n := WordValue(w);
    assert n / 0x100 == w[1] as int + 0x100 * w[2] as int + 0x1_0000 * w[3] as int;
    assert n / 0x1_0000 == w[2] as int + 0x100 * w[3] as int;
    assert n / 0x100_0000 == w[3];
  }

  /** The bytes of an ASCII text. */
  function Ascii(text: string): (b: seq<byte>)
    ensures |b| == |text|
  {
    seq(|text|, i requires 0 <= i < |text| => text[i] as int % 256)
  }

  /** The bytes in front of the first NUL. */
  function CString(s: seq<byte>): (c: seq<byte>)
    ensures c <= s && 0 !in c
    ensures |c| < |s| ==> s[|c|] == 0
  {
    if s == [] || s[0] == 0 then [] else [s[0]] + CString(s[1..])
  }

  /** What strncpy(dst, s, |s|) leaves in dst: the C string of s, padded with NULs. */
  function StrNCpy(s: seq<byte>): (d: seq<byte>)
    ensures |d| == |s|
  {
    CString(s) + seq(|s| - |CString(s)|, _ => 0)
  }

  /** strncpy is a faithful copy exactly when nothing but NULs follows the first NUL. */
  lemma StrNCpyFaithful(s: seq<byte>)
    ensures StrNCpy(s) == s <==> forall i :: |CString(s)| <= i < |s| ==> s[i] == 0
    ensures 0 !in s ==> StrNCpy(s) == s && CString(s) == s
  {
    var c := CString(s);
    if forall i :: |c| <= i < |s| ==> s[i] == 0 {
      assert s == s[..|c|] + s[|c|..];
      assert s[|c|..] == seq(|s| - |c|, _ => 0);
    } else {
      var i :| |c| <= i < |s| && s[i] != 0;
      assert StrNCpy(s)[i] == 0;
    }
    if |c| < |s| {
      assert s[|c|] in s;
    }
  }

  /** A copied copy is the copy. */
  lemma StrNCpyTwice(s: seq<byte>)
    ensures StrNCpy(StrNCpy(s)) == StrNCpy(s)
  {
    CStringOfPadded(CString(s), |s| - |CString(s)|);
  }

  lemma {:induction false} CStringOfPadded(c: seq<byte>, k: nat)
    requires 0 !in c
    ensures CString(c + seq<byte>(k, _ => 0)) == c
  {
    if c != [] {
      assert (c + seq<byte>(k, _ => 0))[1..] == c[1..] + seq<byte>(k, _ => 0);
      CStringOfPadded(c[1..], k);
    }
  }

  lemma SliceConcat(s: seq<byte>, a: nat, b: nat, c: nat)
    requires a <= b <= c <= |s|
    ensures s[a..b] + s[b..c] == s[a..c]
  {
    forall i | 0 <= i < c - a
      ensures (s[a..b] + s[b..c])[i] == s[a..c][i]
    {
    }
  }

  /** A buffer after a copy of `mid` to offset `off`. */
  lemma Spliced(was: seq<byte>, now: seq<byte>, off: nat, mid: seq<byte>)
    requires |now| == |was| && off + |mid| <= |was|
    requires forall i :: 0 <= i < |mid| ==> now[off + i] == mid[i]
    requires forall i :: 0 <= i < off || off + |mid| <= i < |was| ==> now[i] == was[i]
    ensures now == was[..off] + mid + was[off + |mid|..]
  {
    var spliced := was[..off] + mid + was[off + |mid|..];
    forall i | 0 <= i < |now|
      ensures now[i] == spliced[i]
    {
      if off <= i < off + |mid| {
        assert now[off + (i - off)] == mid[i - off];
      }
    }
  }
}
