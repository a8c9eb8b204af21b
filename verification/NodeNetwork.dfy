/** Framing over local stream sockets: the paged senders and the receiver of service/NodeNetwork.cpp. */
module NodeNetwork {
  import opened Bytes
  import opened Messages

  const SOCK_PAGE_SIZE := 4096

  // ----- the frame, the result codes and what a receiver makes of a byte stream -----

  predicate IsType(kind: int) { 0 <= kind <= INT_MAX }

  /** The word buffer of a new coordinator. */
  const ZEROES: seq<byte> := [0, 0, 0, 0]

  /** The bytes one message occupies on the wire; KILL is a bare type word. */
  function Frame(kind: int, data: seq<byte>): (f: seq<byte>)
    requires IsType(kind) && |data| <= INT_MAX
  {
    if kind == KILL_MESSAGE then Word(kind) else Word(kind) + Word(|data|) + data
  }

  /** Whether the one-shot sender reports success on a socket that never fails. */
  predicate ReportsSuccess(kind: int, length: nat) {
    kind == KILL_MESSAGE || length % SOCK_PAGE_SIZE != 0
  }

  /** A call of INode::nodeCallback. */
  datatype Callback = Callback(kind: int, payload: seq<byte>)

  /** The word buffer after a read at its start: a short read leaves the old bytes behind it. */
  function Overlay(bytes: seq<byte>, stale: seq<byte>): (word: seq<byte>)
    requires |stale| == 4
    ensures |word| == 4
  {
    if |bytes| >= 4 then bytes[..4] else bytes + stale[|bytes|..]
  }

  /** The buffer that the length is read from; it still holds the type where the stream has ended. */
  function LengthWord(input: seq<byte>, stale: seq<byte>): (word: seq<byte>)
    requires |stale| == 4
    ensures |word| == 4
  {
    if |input| <= 4 then Overlay(input, stale) else Overlay(input[4..], Overlay(input, stale))
  }

  /** What the receiver makes of everything that a peer sent before closing, if its word buffer held `stale` before:
      a callback, nothing, or a length for which the size it allocates, one more, overflows an int or is negative. */
  function Received(input: seq<byte>, stale: seq<byte>): (r: Reception)
    requires |stale| == 4
  {
    var kind := IntValue(Overlay(input, stale));
    if input == [] then Silence
    else if kind == KILL_MESSAGE then Call(Callback(KILL_MESSAGE, []))
    else if |input| <= 4 then Silence
    else
      var length := IntValue(LengthWord(input, stale));
      if length < 0 || length == INT_MAX then Overflow
      else if length == 0 || |input| < 8 + length then Silence
      else Call(Callback(kind, input[8..8 + length]))
  }

  datatype Reception = Silence | Call(callback: Callback) | Overflow {
    function Calls(): (c: seq<Callback>) { if Call? then [callback] else [] }
  }

  /** The word buffer afterwards. */
  function Left(input: seq<byte>, stale: seq<byte>): (word: seq<byte>)
    requires |stale| == 4
    ensures |word| == 4
  {
    if IntValue(Overlay(input, stale)) == KILL_MESSAGE then Overlay(input, stale) else LengthWord(input, stale)
  }

  /** What the peer's side may have put on the wire of one message, if it broke off at a word boundary. */
  predicate CutAtWord(n: nat) { n == 0 || n == 4 || n >= 8 }

  lemma FrameParts(kind: int, data: seq<byte>)
    requires IsType(kind) && |data| <= INT_MAX && kind != KILL_MESSAGE
    ensures var f := Frame(kind, data);
      |f| == 8 + |data| && f[..4] == Word(kind) && f[4..8] == Word(|data|) && f[8..] == f[8..8 + |data|] == data
  {
    var f, typeWord, length := Frame(kind, data), Word(kind), Word(|data|);
    assert f == (typeWord + length) + data;
    assert f[..8] == typeWord + length && f[..8][4..8] == length;
  }

  /** The receiver gets exactly the message from a whole frame, and nothing from any cut one, whatever it got before;
      only a message of INT_MAX bytes overflows it. */
  lemma FramingRoundTrip(kind: int, data: seq<byte>, n: nat, stale: seq<byte>)
    requires IsType(kind) && |data| <= INT_MAX && |stale| == 4
    requires n <= |Frame(kind, data)| && CutAtWord(n)
    ensures Received(Frame(kind, data)[..n], stale) ==
      if n == 0 then Silence
      else if kind == KILL_MESSAGE then Call(Callback(KILL_MESSAGE, []))
      else if n >= 8 && |data| == INT_MAX then Overflow
      else if n < |Frame(kind, data)| || data == [] then Silence
      else Call(Callback(kind, data))
  {
    var f := Frame(kind, data);
    IntRoundTrip(kind);
    IntRoundTrip(|data|);
    if n >= 4 {
      assert f[..n][..4] == Word(kind);
    }
    if n >= 8 {
      FrameParts(kind, data);
      assert f[..n][4..][..4] == f[4..8];
      assert n == |f| ==> f[..n] == f;
    }
  }

  lemma IntRoundTrip(n: int)
    requires 0 <= n <= INT_MAX
    ensures IntValue(Word(n)) == n
  {
    WordRoundTrip(n);
  }

  /** A stream that breaks off inside its first word is taken for a KILL exactly when the bytes left over in the
      buffer complete it to one, as the zeroes of a new coordinator do for its first byte; otherwise it is ignored. */
  lemma BrokenWord(input: seq<byte>, stale: seq<byte>)
    requires 0 < |input| < 4 && |stale| == 4
    ensures Received(input, stale) ==
      if input + stale[|input|..] == Word(KILL_MESSAGE) then Call(Callback(KILL_MESSAGE, [])) else Silence
    ensures Received([3], ZEROES) == Call(Callback(KILL_MESSAGE, []))
  {
    WordRoundTrip(KILL_MESSAGE);
    WordUnique(input + stale[|input|..]);
  }

  /** Two different messages never look alike. */
  lemma FrameInjective(kind: int, data: seq<byte>, kind': int, data': seq<byte>)
    requires IsType(kind) && |data| <= INT_MAX && IsType(kind') && |data'| <= INT_MAX
    requires Frame(kind, data) == Frame(kind', data')
    ensures kind == kind' && (kind != KILL_MESSAGE ==> data == data')
  {
    WordRoundTrip(kind);
    WordRoundTrip(kind');
    assert Frame(kind, data)[..4] == Word(kind) && Frame(kind', data')[..4] == Word(kind');
    if kind != KILL_MESSAGE {
      FrameParts(kind, data);
      FrameParts(kind', data');
    }
  }

  /** On a socket that takes everything, success is never reported without delivery, except of what overflows the
      receiver; but delivery is reported as a failure exactly for the non-empty messages that fill whole pages. */
  lemma ReportVersusDelivery(kind: int, data: seq<byte>, stale: seq<byte>)
    requires IsType(kind) && |data| <= INT_MAX && |stale| == 4
    ensures Received(Frame(kind, data), stale) == Overflow <==> kind != KILL_MESSAGE && |data| == INT_MAX
    ensures ReportsSuccess(kind, |data|) ==> !Received(Frame(kind, data), stale).Silence?
    ensures Received(Frame(kind, data), stale).Call? && !ReportsSuccess(kind, |data|) <==>
            kind != KILL_MESSAGE && data != [] && |data| % SOCK_PAGE_SIZE == 0
  {
    FramingRoundTrip(kind, data, |Frame(kind, data)|, stale);
    assert Frame(kind, data)[..|Frame(kind, data)|] == Frame(kind, data);
  }

  // ----- sockets -----

  /** What became of a page: whether all of it went out, the number of the next write, and the bytes that went out. */
  datatype Page = Page(whole: bool, next: nat, sent: nat)

  /** One page on a socket whose k-th non-empty write takes step(k) bytes at most, or fails if step(k) <= 0. */
  function PageWrites(step: nat -> int, k: nat, size: nat): (r: Page)
    ensures r.sent <= size && (r.whole <==> r.sent == size > 0)
    decreases size
  {
    if size == 0 then Page(false, k, 0)
    else if step(k) <= 0 then Page(false, k + 1, 0)
    else if step(k) >= size then Page(true, k + 1, size)
    else
      var rest := PageWrites(step, k + 1, size - step(k));
      rest.(sent := rest.sent + step(k))
  }

  function PagesGoOut(step: nat -> int, k: nat, length: nat): (r: bool)
    decreases length
  {
    if length == 0 then true
    else if length < SOCK_PAGE_SIZE then PageWrites(step, k, length).whole
    else
      var page := PageWrites(step, k, SOCK_PAGE_SIZE);
      page.whole && PagesGoOut(step, page.next, length - SOCK_PAGE_SIZE)
  }

  /** Whether a new socket takes the whole frame of a message of this length. */
  predicate GoesOut(step: nat -> int, kind: int, length: nat) {
    step(0) > 0 && (kind == KILL_MESSAGE || (step(1) > 0 && PagesGoOut(step, 2, length)))
  }

  /** Non-empty writes always progress. */
  ghost predicate Healthy(step: nat -> int) {
    forall k: nat :: step(k) > 0
  }

  /** If non-empty writes always progress, every frame goes out. */
  lemma {:induction false} HealthyGoesOut(step: nat -> int, k: nat, length: nat)
    requires Healthy(step)
    ensures PagesGoOut(step, k, length)
    decreases length
  {
    if length >= SOCK_PAGE_SIZE {
      HealthyPage(step, k, SOCK_PAGE_SIZE);
      HealthyGoesOut(step, PageWrites(step, k, SOCK_PAGE_SIZE).next, length - SOCK_PAGE_SIZE);
    } else if length > 0 {
      HealthyPage(step, k, length);
    }
  }

  lemma {:induction false} HealthyPage(step: nat -> int, k: nat, size: nat)
    requires size > 0 && Healthy(step)
    ensures PageWrites(step, k, size).whole
    decreases size
  {
    if step(k) < size {
      HealthyPage(step, k + 1, size - step(k));
    }
  }

  /** The sending end of a stream. A failed write may be followed by others that succeed. */
  class Socket {
    const step: nat -> int
    var writes: nat
    var wire: seq<byte>

    constructor (step: nat -> int)
      ensures this.step == step && wire == [] && writes == 0
    {
      this.step, writes, wire := step, 0, [];
    }

    /** write(fd, data + off, n). */
    method Write(data: seq<byte>, off: nat, n: nat) returns (w: int)
      requires off + n <= |data|
      modifies this
      ensures writes == old(writes) + (if n == 0 then 0 else 1)
      ensures w == if n == 0 then 0 else if step(old(writes)) > n then n else step(old(writes))
      ensures wire == old(wire) + if w > 0 then data[off..off + w] else []
    {
      if n == 0 {
        return 0;
      }
      w := step(writes);
      writes := writes + 1;
      if w > n {
        w := n;
      }
      if w > 0 {
        wire := wire + data[off..off + w];
      }
    }

    /** write(fd, &word, sizeof(word)): the four bytes go out together. */
    method WriteWord(word: int) returns (w: int)
      requires 0 <= word < WORD_LIMIT
      modifies this
      ensures writes == old(writes) + 1 && (w > 0 <==> step(old(writes)) > 0)
      ensures wire == old(wire) + if w > 0 then Word(word) else []
    {
      w := step(writes);
      writes := writes + 1;
      if w > 0 {
        w := 4;
        wire := wire + Word(word);
      }
    }
  }

  /** The do-while loop that both senders run for one page. */
  method WritePage(sock: Socket, data: seq<byte>, off: nat, size: nat) returns (ok: bool, sent: nat)
    requires off + size <= |data|
    modifies sock
    ensures Page(ok, sock.writes, sent) == PageWrites(sock.step, old(sock.writes), size)
    ensures sock.wire == old(sock.wire) + data[off..off + sent]
  {
    sent := 0;
    var sizeToSend := size;
    ok := true;
    ghost var before, page := sock.wire, PageWrites(sock.step, sock.writes, size);
    while true
      invariant sent + sizeToSend == size && (sent > 0 ==> sizeToSend > 0)
      invariant sock.wire == before + data[off..off + sent]
      invariant page == Behind(sent, PageWrites(sock.step, sock.writes, sizeToSend))
      decreases sizeToSend
    {
      var w := WriteMore(sock, data, off, sent, sizeToSend, before);
      if w <= 0 {
        return false, sent;
      }
      sent := sent + w;
      sizeToSend := sizeToSend - w;
      if sizeToSend == 0 {
        break;
      }
    }
  }

  /** One write of the loop, right behind the bytes that are out. */
  method WriteMore(sock: Socket, data: seq<byte>, off: nat, sent: nat, sizeToSend: nat, ghost before: seq<byte>)
      returns (w: int)
    requires off + sent + sizeToSend <= |data| && sock.wire == before + data[off..off + sent]
    modifies sock
    ensures sock.writes == old(sock.writes) + (if sizeToSend == 0 then 0 else 1)
    ensures w == if sizeToSend == 0 then 0 else if sock.step(old(sock.writes)) > sizeToSend then sizeToSend
                 else sock.step(old(sock.writes))
    ensures sock.wire == before + data[off..off + sent + if w > 0 then w else 0]
  {
    w := sock.Write(data, off + sent, sizeToSend);
    if w > 0 {
      SliceConcat(data, off, off + sent, off + sent + w);
    }
  }

  /** A page of which some bytes are out already. */
  function Behind(sent: nat, rest: Page): (r: Page) { rest.(sent := sent + rest.sent) }

  // ----- sendToSocket, which goes on after a failed page -----

  /** What the first m pages of a buffer come to: the bytes that went out, the number of the next write,
      and how many of the pages went out whole. */
  datatype Pages = Pages(out: seq<byte>, next: nat, whole: nat)

  function FullPages(step: nat -> int, k: nat, data: seq<byte>, m: nat): (r: Pages)
    requires m * SOCK_PAGE_SIZE <= |data|
    ensures r.whole <= m
  {
    if m == 0 then Pages([], k, 0)
    else
      var before, off := FullPages(step, k, data, m - 1), (m - 1) * SOCK_PAGE_SIZE;
      var page := PageWrites(step, before.next, SOCK_PAGE_SIZE);
      Pages(before.out + data[off..off + page.sent], page.next, before.whole + if page.whole then 1 else 0)
  }

  /** If all of them go out whole, that is the front of the buffer; otherwise there are gaps in it. */
  lemma {:induction false} FullPagesAreFront(step: nat -> int, k: nat, data: seq<byte>, m: nat)
    requires m * SOCK_PAGE_SIZE <= |data|
    ensures var r := FullPages(step, k, data, m);
      && |r.out| <= m * SOCK_PAGE_SIZE
      && (r.whole == m <==> |r.out| == m * SOCK_PAGE_SIZE)
      && (r.whole == m ==> r.out == data[..m * SOCK_PAGE_SIZE])
  {
    if m > 0 {
      FullPagesAreFront(step, k, data, m - 1);
      var off := (m - 1) * SOCK_PAGE_SIZE;
      assert data[..off] + data[off..off + SOCK_PAGE_SIZE] == data[..m * SOCK_PAGE_SIZE];
    }
  }

  /** After a page that has failed the next ones go out all the same: the bytes of the failed one are missing. */
  lemma {:induction false} GapAfterFailure(step: nat -> int, data: seq<byte>, m: nat)
    requires 0 < m && m * SOCK_PAGE_SIZE <= |data|
    requires step(0) <= 0 && forall k: nat :: k > 0 ==> step(k) >= SOCK_PAGE_SIZE
    ensures FullPages(step, 0, data, m) == Pages(data[SOCK_PAGE_SIZE..m * SOCK_PAGE_SIZE], m, m - 1)
  {
    if m == 1 {
      assert FullPages(step, 0, data, 0) == Pages([], 0, 0);
      assert data[0..0] == [] && data[SOCK_PAGE_SIZE..SOCK_PAGE_SIZE] == [];
    } else {
      GapAfterFailure(step, data, m - 1);
      SliceConcat(data, SOCK_PAGE_SIZE, (m - 1) * SOCK_PAGE_SIZE, m * SOCK_PAGE_SIZE);
    }
  }

  lemma {:induction false} HealthyPages(step: nat -> int, k: nat, data: seq<byte>, m: nat)
    requires m * SOCK_PAGE_SIZE <= |data| && Healthy(step)
    ensures FullPages(step, k, data, m).whole == m
  {
    if m > 0 {
      HealthyPages(step, k, data, m - 1);
      HealthyPage(step, FullPages(step, k, data, m - 1).next, SOCK_PAGE_SIZE);
    }
  }

  /** What sendToSocket comes to, of which the first m pages are whole ones: bytes, result, and whether it takes the
      last page, of the given remainder, for a whole one. */
  datatype Outcome = Outcome(out: seq<byte>, sentSize: nat, overrun: bool)

  function Ending(step: nat -> int, data: seq<byte>, front: Pages): (o: Outcome) {
    var m := |data| / SOCK_PAGE_SIZE;
    var last := PageWrites(step, front.next, |data| % SOCK_PAGE_SIZE);
    if front.whole < m then Outcome(front.out, front.whole * SOCK_PAGE_SIZE, true)
    else Outcome(front.out + data[m * SOCK_PAGE_SIZE..m * SOCK_PAGE_SIZE + last.sent],
                 front.whole * SOCK_PAGE_SIZE + (if last.whole then last.sent else 0), false)
  }

  function SendingOf(step: nat -> int, k: nat, data: seq<byte>): (o: Outcome) {
    Ending(step, data, FullPages(step, k, data, |data| / SOCK_PAGE_SIZE))
  }

  /** sendToSocket: a failed page is not counted and the next one is sent behind it. */
  method SendToSocket(sock: Socket, data: seq<byte>) returns (sentSize: int, overrun: bool)
    requires |data| <= INT_MAX
    modifies sock
    ensures var o := SendingOf(sock.step, old(sock.writes), data);
      sock.wire == old(sock.wire) + o.out && sentSize == o.sentSize && overrun == o.overrun
  {
    var length := |data|;
    var nrPages := length / SOCK_PAGE_SIZE + 1;
    sentSize, overrun := 0, false;
    ghost var k, before, out, whole := sock.writes, sock.wire, [], 0;
    for i := 0 to nrPages
      invariant sock.wire == before + out && 0 <= sentSize && 0 <= length == |data| - sentSize
      invariant SentSoFar(sock.step, k, data, i, out, sock.writes, whole, sentSize)
    {
      var sizeToSend := if length < SOCK_PAGE_SIZE then length else SOCK_PAGE_SIZE;
      if i * SOCK_PAGE_SIZE + sizeToSend > |data| {
        SentOverrun(sock.step, k, data, i, out, sock.writes, whole, sentSize);
        return sentSize, true;
      }
      var sent;
      sent, out, whole := SendPage(sock, data, i, sizeToSend, k, before, out, whole, sentSize);
      length := length - sent;
      sentSize := sentSize + sent;
    }
  }

  /** The loop has got to page i. */
  predicate SentSoFar(step: nat -> int, k: nat, data: seq<byte>, i: nat,
                      out: seq<byte>, next: nat, whole: nat, sentSize: nat) {
    var m := |data| / SOCK_PAGE_SIZE;
    if i <= m then FullPages(step, k, data, i) == Pages(out, next, whole) && sentSize == whole * SOCK_PAGE_SIZE
    else Outcome(out, sentSize, false) == SendingOf(step, k, data)
  }

  function SizeOfNext(data: seq<byte>, sentSize: nat): (size: nat)
    requires sentSize <= |data|
  {
    if |data| - sentSize < SOCK_PAGE_SIZE then |data| - sentSize else SOCK_PAGE_SIZE
  }

  lemma SentPage(step: nat -> int, k: nat, data: seq<byte>, i: nat,
                 out: seq<byte>, next: nat, whole: nat, sentSize: nat)
    requires SentSoFar(step, k, data, i, out, next, whole, sentSize)
    requires i <= |data| / SOCK_PAGE_SIZE && sentSize <= |data|
    requires i * SOCK_PAGE_SIZE + SizeOfNext(data, sentSize) <= |data|
    ensures var size, off := SizeOfNext(data, sentSize), i * SOCK_PAGE_SIZE;
      var page := PageWrites(step, next, size);
      SentSoFar(step, k, data, i + 1, out + data[off..off + page.sent], page.next,
                if page.whole then whole + 1 else whole, if page.whole then sentSize + size else sentSize)
  {
  }

  lemma SentOverrun(step: nat -> int, k: nat, data: seq<byte>, i: nat,
                    out: seq<byte>, next: nat, whole: nat, sentSize: nat)
    requires SentSoFar(step, k, data, i, out, next, whole, sentSize)
    requires i <= |data| / SOCK_PAGE_SIZE && sentSize <= |data|
    requires i * SOCK_PAGE_SIZE + SizeOfNext(data, sentSize) > |data|
    ensures SendingOf(step, k, data) == Outcome(out, sentSize, true)
  {
  }

  /** One page; a failed one counts for nothing. */
  method SendPage(sock: Socket, data: seq<byte>, i: nat, size: nat,
                  ghost k: nat, ghost before: seq<byte>, ghost out: seq<byte>, ghost whole: nat, ghost sentSize: nat)
      returns (sent: nat, ghost out': seq<byte>, ghost whole': nat)
    requires sock.wire == before + out && SentSoFar(sock.step, k, data, i, out, sock.writes, whole, sentSize)
    requires i <= |data| / SOCK_PAGE_SIZE && sentSize <= |data| && size == SizeOfNext(data, sentSize)
    requires i * SOCK_PAGE_SIZE + size <= |data|
    modifies sock
    ensures sent <= size && sock.wire == before + out'
    ensures SentSoFar(sock.step, k, data, i + 1, out', sock.writes, whole', sentSize + sent)
  {
    SentPage(sock.step, k, data, i, out, sock.writes, whole, sentSize);
    var off, ok := i * SOCK_PAGE_SIZE, false;
    ok, sent := WritePage(sock, data, off, size);
    out', whole' := out + data[off..off + sent], if ok then whole + 1 else whole;
    assert before + out + data[off..off + sent] == before + (out + data[off..off + sent]);
    if !ok {
      sent := 0;
    }
  }

  /** It leaves its buffer exactly if any page but the last has failed; otherwise it puts out a front part of the
      buffer, and returns the full length exactly if that is everything. Where writes progress it always is. */
  lemma SendingIsFront(step: nat -> int, k: nat, data: seq<byte>) returns (n: nat)
    ensures var o, m := SendingOf(step, k, data), |data| / SOCK_PAGE_SIZE;
      && (o.overrun <==> FullPages(step, k, data, m).whole < m)
      && n <= |data| && (!o.overrun ==> o.out == data[..n]) && (o.sentSize == |data| <==> n == |data| && !o.overrun)
      && (Healthy(step) ==> !o.overrun && n == |data|)
  {
    var m, rem := |data| / SOCK_PAGE_SIZE, |data| % SOCK_PAGE_SIZE;
    var front := FullPages(step, k, data, m);
    var last := PageWrites(step, front.next, rem);
    FullPagesAreFront(step, k, data, m);
    n := m * SOCK_PAGE_SIZE + last.sent;
    assert data[..m * SOCK_PAGE_SIZE] + data[m * SOCK_PAGE_SIZE..n] == data[..n];
    if Healthy(step) {
      HealthyPages(step, k, data, m);
      if rem > 0 {
        HealthyPage(step, front.next, rem);
      }
    }
  }

  // ----- sendNodeMessage, which gives up -----

  /** The page loop of sendNodeMessage: an empty last page counts as a failure. */
  method SendPages(sock: Socket, data: seq<byte>) returns (ok: bool, ghost n: nat)
    requires |data| <= INT_MAX
    modifies sock
    ensures n <= |data| && sock.wire == old(sock.wire) + data[..n]
    ensures n == |data| <==> PagesGoOut(sock.step, old(sock.writes), |data|)
    ensures ok <==> n == |data| && |data| % SOCK_PAGE_SIZE != 0
  {
    var length := |data|;
    var nrPages := length / SOCK_PAGE_SIZE + 1;
    n := 0;
    for i := 0 to nrPages
      invariant n <= |data| && length == |data| - n && n == if i < nrPages then i * SOCK_PAGE_SIZE else |data|
      invariant sock.wire == old(sock.wire) + data[..n]
      invariant i == nrPages ==> |data| % SOCK_PAGE_SIZE != 0
      invariant PagesGoOut(sock.step, old(sock.writes), |data|) ==
        if i < nrPages then PagesGoOut(sock.step, sock.writes, length) else true
    {
      var sizeToSend := if length < SOCK_PAGE_SIZE then length else SOCK_PAGE_SIZE;
      var written, sent := WritePage(sock, data, i * SOCK_PAGE_SIZE, sizeToSend);
      SliceConcat(data, 0, n, n + sent);
      n := n + sent;
      if !written {
        return false, n;
      }
      length := length - sent;
    }
    ok := true;
  }

  /** The one-shot sendNodeMessage on its freshly connected socket. */
  method SendNodeMessage(sock: Socket, data: seq<byte>, kind: int) returns (r: int)
    requires IsType(kind) && |data| <= INT_MAX && sock.wire == [] && sock.writes == 0
    modifies sock
    ensures r == 0 || r == -1
    ensures sock.wire <= Frame(kind, data) && CutAtWord(|sock.wire|)
    ensures sock.wire == Frame(kind, data) <==> GoesOut(sock.step, kind, |data|)
    ensures |sock.wire| >= 8 <==> kind != KILL_MESSAGE && sock.step(0) > 0 && sock.step(1) > 0
    ensures r == 0 <==> sock.wire == Frame(kind, data) && ReportsSuccess(kind, |data|)
  {
    var w := sock.WriteWord(kind);
    if w <= 0 {
      return -1;
    }
    if kind == KILL_MESSAGE {
      return 0;
    }
    w := sock.WriteWord(|data|);
    if w <= 0 {
      return -1;
    }
    ghost var n;
    var ok;
    ok, n := SendPages(sock, data);
    assert Frame(kind, data)[..8 + n] == Word(kind) + Word(|data|) + data[..n];
    assert data[..|data|] == data;
    r := if ok then 0 else -1;
  }

  // ----- the receiver -----

  /** The accepted end of a stream. The k-th read returns at most chunk(k) + 1 bytes; a failure ends the input. */
  class Connection {
    const input: seq<byte>
    const chunk: nat -> nat
    var pos: nat
    var readCalls: nat

    constructor (input: seq<byte>, chunk: nat -> nat)
      ensures this.input == input && this.chunk == chunk && pos == 0
    {
      this.input, this.chunk, pos, readCalls := input, chunk, 0, 0;
    }

    /** read(fd, buf + off, n). */
    method Read(buf: array<byte>, off: nat, n: nat) returns (r: int)
      requires off + n <= buf.Length && pos <= |input|
      modifies this`pos, this`readCalls, buf
      ensures 0 <= r <= n && pos == old(pos) + r <= |input|
      ensures r == 0 <==> n == 0 || old(pos) == |input|
      ensures buf[..] == old(buf[..])[..off] + input[old(pos)..pos] + old(buf[..])[off + r..]
    {
      r := chunk(readCalls) + 1;
      readCalls := readCalls + 1;
      if r > n {
        r := n;
      }
      if r > |input| - pos {
        r := |input| - pos;
      }
      ghost var was := buf[..];
      forall i | off <= i < off + r { buf[i] := input[pos + i - off]; }
      pos := pos + r;
      Spliced(was, buf[..], off, input[pos - r..pos]);
    }

    /** read(fd, buf, n) at the start of a buffer, of which at most `limit` bytes have arrived. */
    method ReadUpTo(buf: array<byte>, n: nat, limit: nat) returns (r: int)
      requires n <= buf.Length && pos <= |input|
      modifies this`pos, buf
      ensures r == UpTo(n, limit, |input| - old(pos)) && pos == old(pos) + r
      ensures buf[..] == input[old(pos)..pos] + old(buf[..])[r..]
    {
      r := UpTo(n, limit, |input| - pos);
      ghost var was := buf[..];
      forall i | 0 <= i < r { buf[i] := input[pos + i]; }
      pos := pos + r;
      Spliced(was, buf[..], 0, input[pos - r..pos]);
      assert was[..0] + input[pos - r..pos] == input[pos - r..pos];
    }
  }

  function UpTo(n: nat, limit: nat, left: nat): (r: nat)
    ensures r <= n && r <= limit && r <= left
  {
    if n <= limit && n <= left then n else if limit <= left then limit else left
  }

  /** What a buffer holds after n bytes of the input, from `start` on, have been collected at `off`. */
  function Collected(was: seq<byte>, input: seq<byte>, off: nat, start: nat, n: nat): (b: seq<byte>)
    requires start + n <= |input| && off + n <= |was|
    ensures |b| == |was|
  {
    was[..off] + input[start..start + n] + was[off + n..]
  }

  /** One more read right behind the bytes already collected. */
  lemma ReadOn(was: seq<byte>, input: seq<byte>, off: nat, start: nat, n: nat, r: nat)
    requires start + n + r <= |input| && off + n + r <= |was|
    ensures var before := Collected(was, input, off, start, n);
      before[..off + n] + input[start + n..start + n + r] + before[off + n + r..]
        == Collected(was, input, off, start, n + r)
  {
    var before := Collected(was, input, off, start, n);
    assert before[..off + n] == was[..off] + input[start..start + n];
    assert before[off + n + r..] == was[off + n + r..];
    assert input[start..start + n] + input[start + n..start + n + r] == input[start..start + (n + r)];
  }

  /** One read of the loop, right behind the bytes already collected. */
  method ReadMore(conn: Connection, buf: array<byte>, off: nat, readBytes: nat, sizeToRead: nat,
                  ghost was: seq<byte>, ghost start: nat) returns (r: int)
    requires conn.pos == start + readBytes <= |conn.input|
    requires |was| == buf.Length && off + readBytes + sizeToRead <= buf.Length
    requires buf[..] == Collected(was, conn.input, off, start, readBytes)
    modifies conn`pos, conn`readCalls, buf
    ensures 0 <= r <= sizeToRead && conn.pos == old(conn.pos) + r <= |conn.input|
    ensures r == 0 <==> sizeToRead == 0 || old(conn.pos) == |conn.input|
    ensures buf[..] == Collected(was, conn.input, off, start, readBytes + r)
  {
    r := conn.Read(buf, off + readBytes, sizeToRead);
    ReadOn(was, conn.input, off, start, readBytes, r);
  }

  /** The do-while loop that collects `size` bytes: all of them, or 0 when the input ends early. */
  method ReadFully(conn: Connection, buf: array<byte>, off: nat, size: nat) returns (readBytes: nat)
    requires conn.pos <= |conn.input| && off + size <= buf.Length
    modifies conn`pos, conn`readCalls, buf
    ensures readBytes == if size <= |conn.input| - old(conn.pos) then size else 0
    ensures old(conn.pos) <= conn.pos <= |conn.input|
    ensures readBytes > 0 ==> conn.pos == old(conn.pos) + size
    ensures readBytes > 0 ==>
      buf[..] == old(buf[..])[..off] + conn.input[old(conn.pos)..conn.pos] + old(buf[..])[off + size..]
  {
    readBytes := 0;
    var sizeToRead := size;
    ghost var start, was := conn.pos, buf[..];
    assert was == Collected(was, conn.input, off, start, 0);
    while true
      invariant readBytes + sizeToRead == size && (readBytes > 0 ==> sizeToRead > 0)
      invariant conn.pos == start + readBytes <= |conn.input|
      invariant buf[..] == Collected(was, conn.input, off, start, readBytes)
      decreases sizeToRead
    {
      var r := ReadMore(conn, buf, off, readBytes, sizeToRead, was, start);
      if r <= 0 {
        return 0;
      }
      readBytes := readBytes + r;
      sizeToRead := sizeToRead - r;
      if sizeToRead == 0 {
        break;
      }
    }
  }

  /** The node behind a listening socket; it records its callbacks. */
  class NodeCallback {
    var calls: seq<Callback>

    constructor ()
      ensures calls == []
    {
      calls := [];
    }

    method Invoke(kind: int, payload: seq<byte>)
      modifies this
      ensures calls == old(calls) + [Callback(kind, payload)]
    {
      calls := calls + [Callback(kind, payload)];
    }
  }

  /** A read of one word into the start of the buffer. */
  method ReadWord(conn: Connection, buffer: array<byte>) returns (r: int)
    requires conn.pos <= |conn.input| && buffer.Length >= 4
    modifies conn`pos, buffer
    ensures r == (if |conn.input| - old(conn.pos) < 4 then |conn.input| - old(conn.pos) else 4)
    ensures conn.pos == old(conn.pos) + r
    ensures buffer[..4] == Overlay(conn.input[old(conn.pos)..], old(buffer[..4]))
  {
    ghost var was, stale, rest := buffer[..], buffer[..4], conn.input[conn.pos..];
    r := conn.ReadUpTo(buffer, 4, 4);
    assert was[r..][..4 - r] == stale[r..];
    assert rest[..r] == conn.input[conn.pos - r..conn.pos];
    assert buffer[..4] == rest[..r] + stale[r..];
  }

  /** One accepted connection. */
  method Serve(conn: Connection, buffer: array<byte>, node: NodeCallback) returns (killed: bool, overflow: bool)
    requires conn.pos == 0 && buffer.Length >= 4
    modifies conn, buffer, node
    ensures var r := Received(conn.input, old(buffer[..4]));
      && node.calls == old(node.calls) + r.Calls()
      && (killed <==> r == Call(Callback(KILL_MESSAGE, [])))
      && (overflow <==> r == Overflow)
    ensures buffer[..4] == Left(conn.input, old(buffer[..4]))
  {
    killed, overflow := false, false;
    ghost var stale := buffer[..4];
    assert conn.input[0..] == conn.input;
    var recvSize := ReadWord(conn, buffer);
    if recvSize <= 0 {
      return;
    }
    var msgType := IntValue(buffer[..4]);
    if msgType == KILL_MESSAGE {
      node.Invoke(KILL_MESSAGE, []);
      return true, false;
    }
    recvSize := ReadWord(conn, buffer);
    assert buffer[..4] == LengthWord(conn.input, stale);
    if recvSize > 0 {
      var length := IntValue(buffer[..4]);
      if length < 0 || length == INT_MAX {
        return false, true;
      }
      var tempBuff := new byte[length + 1](_ => 0);
      var sent := ReadFully(conn, tempBuff, 0, length);
      if sent != 0 {
        assert tempBuff[..sent] == conn.input[8..8 + length];
        node.Invoke(msgType, tempBuff[..sent]);
      }
    }
  }

  /** The callbacks of a coordinator's life, and whether it ran into a length that no int holds. */
  datatype Life = Life(calls: seq<Callback>, overflow: bool)

  function InFront(c: seq<Callback>, l: Life): (r: Life) { Life(c + l.calls, l.overflow) }

  /** What a sequence of connections leads to; None is a failing accept, which ends the loop. */
  function Served(inputs: seq<Option<seq<byte>>>, stale: seq<byte>): (r: Life)
    requires |stale| == 4
  {
    if inputs == [] || inputs[0].None? then Life([], false)
    else match Received(inputs[0].value, stale)
      case Overflow => Life([], true)
      case Silence => Served(inputs[1..], Left(inputs[0].value, stale))
      case Call(c) =>
        if c.kind == KILL_MESSAGE then Life([c], false)
        else InFront([c], Served(inputs[1..], Left(inputs[0].value, stale)))
  }

  /** A KILL ends the life of a coordinator: whatever connections follow it lead to nothing. */
  lemma {:induction false} KillEndsLife(a: seq<Option<seq<byte>>>, b: seq<Option<seq<byte>>>, stale: seq<byte>)
    requires |stale| == 4
    ensures var kill := Some(Frame(KILL_MESSAGE, []));
      Served(a + [kill] + b, stale) == Served(a + [kill], stale)
    decreases |a|
  {
    var kill := Some(Frame(KILL_MESSAGE, []));
    if a == [] {
      var f := Frame(KILL_MESSAGE, []);
      FramingRoundTrip(KILL_MESSAGE, [], 4, stale);
      assert f[..4] == f;
      assert ([] + [kill] + b)[0] == kill && ([] + [kill])[0] == kill;
    } else {
      assert (a + [kill] + b)[0] == a[0] && (a + [kill] + b)[1..] == a[1..] + [kill] + b;
      assert (a + [kill])[0] == a[0] && (a + [kill])[1..] == a[1..] + [kill];
      if a[0].Some? {
        KillEndsLife(a[1..], b, Left(a[0].value, stale));
      }
    }
  }

  /** So does a failing accept. */
  lemma {:induction false} FailingAcceptEndsLife(a: seq<Option<seq<byte>>>, b: seq<Option<seq<byte>>>, stale: seq<byte>)
    requires |stale| == 4
    ensures Served(a + [None] + b, stale) == Served(a, stale)
    decreases |a|
  {
    if a == [] {
      assert ([] + [None] + b)[0] == None;
    } else {
      assert (a + [None] + b)[0] == a[0] && (a + [None] + b)[1..] == a[1..] + [None] + b;
      if a[0].Some? {
        FailingAcceptEndsLife(a[1..], b, Left(a[0].value, stale));
      }
    }
  }

  /** No callback follows a KILL. */
  predicate OnlyLastKills(calls: seq<Callback>) {
    forall i :: 0 <= i < |calls| - 1 ==> calls[i].kind != KILL_MESSAGE
  }

  lemma {:induction false} ServedOnlyLastKills(inputs: seq<Option<seq<byte>>>, stale: seq<byte>)
    requires |stale| == 4
    ensures OnlyLastKills(Served(inputs, stale).calls)
    decreases |inputs|
  {
    if inputs != [] && inputs[0].Some? {
      ServedOnlyLastKills(inputs[1..], Left(inputs[0].value, stale));
    }
  }

  /** Every other connection is served, whatever the ones before it have sent: one that brings nothing, or a callback
      other than KILL, leaves the rest to be served as it would be alone, with its words left in the buffer. */
  lemma ServesOn(input: seq<byte>, rest: seq<Option<seq<byte>>>, stale: seq<byte>)
    requires |stale| == 4 && Received(input, stale) != Overflow
    requires Received(input, stale) != Call(Callback(KILL_MESSAGE, []))
    ensures var life, after := Served([Some(input)] + rest, stale), Served(rest, Left(input, stale));
      life.calls == Received(input, stale).Calls() + after.calls && life.overflow == after.overflow
  {
    assert ([Some(input)] + rest)[1..] == rest;
    assert [] + Served(rest, Left(input, stale)).calls == Served(rest, Left(input, stale)).calls;
  }

  /** The buffer keeps the last word that was read into it: after a whole message, its length. */
  lemma LeftIsLength(kind: int, data: seq<byte>, stale: seq<byte>)
    requires IsType(kind) && kind != KILL_MESSAGE && |data| <= INT_MAX && |stale| == 4
    ensures Left(Frame(kind, data), stale) == Word(|data|)
    ensures forall b: byte :: Left([b], stale) == [b] + stale[1..]
  {
    FrameParts(kind, data);
    IntRoundTrip(kind);
    assert Frame(kind, data)[4..][..4] == Frame(kind, data)[4..8];
  }

  /** What accept brings: the bytes of a peer until it closes, and how they arrive. */
  datatype Peer = Peer(input: seq<byte>, chunk: nat -> nat)

  function Inputs(peers: seq<Option<Peer>>): (r: seq<Option<seq<byte>>>)
    ensures |r| == |peers|
  {
    seq(|peers|, i requires 0 <= i < |peers| => if peers[i].None? then None else Some(peers[i].value.input))
  }

  /** The accept loop, up to the point where it would wait for one more connection. */
  method AcceptLoop(peers: seq<Option<Peer>>, node: NodeCallback) returns (overflow: bool)
    modifies node
    ensures Life(node.calls, overflow) == InFront(old(node.calls), Served(Inputs(peers), ZEROES))
    ensures OnlyLastKills(node.calls[|old(node.calls)|..])
  {
    ServedOnlyLastKills(Inputs(peers), ZEROES);
    var buffer := new byte[4097](_ => 0);
    ghost var all, calls := Inputs(peers), node.calls;
    ghost var whole := Served(all, ZEROES);
    var i := 0;
    overflow := false;
    assert all[0..] == all && buffer[..4] == ZEROES;
    while i < |peers|
      invariant 0 <= i <= |peers| && !overflow
      invariant InFront(node.calls, Served(all[i..], buffer[..4])) == InFront(calls, whole)
    {
      assert all[i..][1..] == all[i + 1..] && all[i..][0] == all[i];
      if peers[i].None? {
        break;
      }
      ghost var before, stale := node.calls, buffer[..4];
      var conn := new Connection(peers[i].value.input, peers[i].value.chunk);
      var killed;
      killed, overflow := Serve(conn, buffer, node);
      if killed || overflow {
        return;
      }
      InFrontTwice(before, Received(conn.input, stale).Calls(), Served(all[i + 1..], buffer[..4]));
      i := i + 1;
    }
    assert Served(all[i..], buffer[..4]) == Life([], false) && node.calls + [] == node.calls;
  }

  lemma InFrontTwice(a: seq<Callback>, b: seq<Callback>, l: Life)
    ensures InFront(a, InFront(b, l)) == InFront(a + b, l) && InFront([], l) == l
  {
    assert a + (b + l.calls) == (a + b) + l.calls;
  }

  /** setupLocalNode: SETUP is reported after bind and listen have succeeded, and before any message. */
  method SetupLocalNode(bound: bool, listening: bool, peers: seq<Option<Peer>>, node: NodeCallback)
      returns (r: int, overflow: bool)
    modifies node
    ensures r == if bound && listening then 0 else -1
    ensures Life(node.calls, overflow) == InFront(old(node.calls),
      if bound && listening then InFront([Callback(SETUP_MESSAGE, [])], Served(Inputs(peers), ZEROES))
      else Life([], false))
  {
    if !bound {
      return -1, false;
    }
    if !listening {
      return -1, false;
    }
    node.Invoke(SETUP_MESSAGE, []);
    overflow := AcceptLoop(peers, node);
    InFrontTwice(old(node.calls), [Callback(SETUP_MESSAGE, [])], Served(Inputs(peers), ZEROES));
    r := 0;
  }

  /** The callback that a frame stands for; an empty message stands for none. */
  function Message(kind: int, data: seq<byte>): (calls: seq<Callback>) {
    if kind == KILL_MESSAGE then [Callback(KILL_MESSAGE, [])]
    else if data == [] then []
    else [Callback(kind, data)]
  }

  /** One message from the sender to the receiver, for any splitting of its writes and of the reads. */
  method Exchange(step: nat -> int, chunk: nat -> nat, data: seq<byte>, kind: int)
      returns (r: int, calls: seq<Callback>, overflow: bool)
    requires IsType(kind) && |data| <= INT_MAX
    ensures overflow <==> kind != KILL_MESSAGE && |data| == INT_MAX && step(0) > 0 && step(1) > 0
    ensures calls == if GoesOut(step, kind, |data|) && !overflow then Message(kind, data) else []
    ensures r == 0 <==> GoesOut(step, kind, |data|) && ReportsSuccess(kind, |data|)
    ensures r == 0 ==> calls != [] || overflow
    ensures Healthy(step) ==> GoesOut(step, kind, |data|)
  {
    var wire;
    r, wire := Transmit(step, data, kind);
    var conn := new Connection(wire, chunk);
    var node := new NodeCallback();
    var buffer := new byte[4097](_ => 0);
    assert buffer[..4] == ZEROES;
    var killed;
    killed, overflow := Serve(conn, buffer, node);
    calls := node.calls;
  }

  /** The sender's half: its report, and what the receiver's half makes of what it has put out. */
  method Transmit(step: nat -> int, data: seq<byte>, kind: int) returns (r: int, wire: seq<byte>)
    requires IsType(kind) && |data| <= INT_MAX
    ensures r == 0 <==> GoesOut(step, kind, |data|) && ReportsSuccess(kind, |data|)
    ensures var overflow := kind != KILL_MESSAGE && |data| == INT_MAX && step(0) > 0 && step(1) > 0;
      && (Received(wire, ZEROES) == Overflow <==> overflow)
      && Received(wire, ZEROES).Calls()
           == (if GoesOut(step, kind, |data|) && !overflow then Message(kind, data) else [])
    ensures Healthy(step) ==> GoesOut(step, kind, |data|)
  {
    if Healthy(step) {
      HealthyGoesOut(step, 2, |data|);
    }
    var sock := new Socket(step);
    r := SendNodeMessage(sock, data, kind);
    wire := sock.wire;
    WireReceived(wire, kind, data, ZEROES);
  }

  /** What the receiver makes of as much of a frame as a sender may have put out. */
  lemma WireReceived(wire: seq<byte>, kind: int, data: seq<byte>, stale: seq<byte>)
    requires IsType(kind) && |data| <= INT_MAX && |stale| == 4
    requires wire <= Frame(kind, data) && CutAtWord(|wire|)
    ensures var overflow := kind != KILL_MESSAGE && |data| == INT_MAX && |wire| >= 8;
      && (Received(wire, stale) == Overflow <==> overflow)
      && Received(wire, stale).Calls() == (if wire == Frame(kind, data) && !overflow then Message(kind, data) else [])
  {
    assert wire == Frame(kind, data)[..|wire|];
    FramingRoundTrip(kind, data, |wire|, stale);
    assert |Frame(kind, data)| == if kind == KILL_MESSAGE then 4 else 8 + |data|;
    assert |wire| == |Frame(kind, data)| ==> wire == Frame(kind, data);
  }
}
