/** The packet framer of service/NodePort.cpp: cuts a TCP stream into packets for the service's queue. */
module NodePort {
  import opened Bytes
  import opened Messages
  import opened Xml
  import opened Packet
  import opened CmdQueue
  import opened Looper
  import NodeNetwork

  /** Why the loop stops: the connection is closed, or the code runs into undefined behaviour. */
  datatype End = Closed | Fault

  datatype Stream = Stream(packets: seq<seq<byte>>, end: End)

  /** How the one read of an XML header goes: how many bytes the n-th one brings, less one; and what the n-th
      header's buffer, fresh from the heap, holds behind them. */
  datatype Luck = Luck(cut: nat -> nat, junk: (nat, nat) -> byte)

  /** One more packet in front. */
  function Then(p: seq<byte>, s: Stream): (r: Stream) {
    Prepend([p], s)
  }

  /** How much of a header of that length the n-th header read takes from s. */
  function Taken(luck: Luck, n: nat, length: nat, s: seq<byte>): (k: nat)
    ensures k <= |s| && k <= length && (length > 0 && s != [] ==> k > 0)
  {
    NodeNetwork.UpTo(length, luck.cut(n) + 1, |s|)
  }

  /** The header as the code goes on to parse it: what has been read, and the rest as the heap had it. */
  function HeaderRead(luck: Luck, n: nat, length: nat, s: seq<byte>): (h: seq<byte>)
    ensures |h| == length
  {
    var k := Taken(luck, n, length, s);
    s[..k] + Junk(luck, n, length)[k..]
  }

  /** Byte for byte: the read has brought as much as it could at once, and the rest is what was there. */
  lemma HeaderAsRead(luck: Luck, n: nat, length: nat, s: seq<byte>, i: nat)
    requires i < length
    ensures HeaderRead(luck, n, length, s)[i] == if i < |s| && i <= luck.cut(n) then s[i] else luck.junk(n, i)
  {
  }

  function Junk(luck: Luck, n: nat, length: nat): (j: seq<byte>)
    ensures |j| == length
  {
    seq<byte>(length, i requires 0 <= i < length => luck.junk(n, i))
  }

  /** Sizes at which the code's arithmetic goes wrong: a data length that is negative as an int, or a packet
      length that wraps around. */
  predicate Oversized(headerLength: nat, dataLength: nat) {
    dataLength > INT_MAX || Wraps(headerLength, dataLength)
  }

  /** The stream s starts with a whole prefix, and something of its header is there. */
  predicate HasHeader(s: seq<byte>) {
    |s| > PREFIX_LENGTH && s[..11] == START_CODE && 0 < HeaderLength(s) <= INT_MAX
  }

  function HeaderOf(luck: Luck, n: nat, s: seq<byte>): (h: seq<byte>)
    requires HasHeader(s)
    ensures |h| == HeaderLength(s)
  {
    HeaderRead(luck, n, HeaderLength(s), s[PREFIX_LENGTH..])
  }

  function AfterHeader(luck: Luck, n: nat, s: seq<byte>): (r: seq<byte>)
    requires HasHeader(s)
    ensures |r| < |s|
  {
    s[PREFIX_LENGTH..][Taken(luck, n, HeaderLength(s), s[PREFIX_LENGTH..])..]
  }

  /** A stream, and how many headers have been read before it. */
  datatype Place = Place(s: seq<byte>, n: nat)

  /** What one turn of the loop does: it ends, passes over garbage or an unparsable header, or gets a packet. */
  datatype Outcome = Ends(end: End) | Skips(next: Place) | Gets(packet: seq<byte>, next: Place)

  function OneTurn(parse: Parser, luck: Luck, at: Place): (o: Outcome)
    ensures !o.Ends? ==> |o.next.s| < |at.s|
  {
    if |at.s| < PREFIX_LENGTH then Ends(Closed)
    else if at.s[..11] != START_CODE then Skips(Place(at.s[PREFIX_LENGTH..], at.n))
    else if HeaderLength(at.s) > INT_MAX then Ends(Fault)
    else if !HasHeader(at.s) then Ends(Closed)
    else
      var rest := Place(AfterHeader(luck, at.n, at.s), at.n + 1);
      WithHeader(parse, at.s[..PREFIX_LENGTH], HeaderOf(luck, at.n, at.s), rest)
  }

  function WithHeader(parse: Parser, prefix: seq<byte>, h: seq<byte>, rest: Place): (o: Outcome)
    ensures !o.Ends? ==> |o.next.s| <= |rest.s|
  {
    match parse(h)
    case None => Skips(rest)
    case Some(d) =>
      if !Carries(d) || Oversized(|h|, Announced(d)) then Ends(Fault)
      else if |rest.s| < Announced(d) then Ends(Closed)
      else Gets(prefix + h + rest.s[..Announced(d)], rest.(s := rest.s[Announced(d)..]))
  }

  /** What the framer makes of a byte stream, however its reads are cut. */
  function Framed(parse: Parser, luck: Luck, at: Place): (r: Stream)
    decreases |at.s|
  {
    match OneTurn(parse, luck, at)
    case Ends(end) => Stream([], end)
    case Skips(next) => Framed(parse, luck, next)
    case Gets(packet, next) => Then(packet, Framed(parse, luck, next))
  }

  // ----- a stream of well-formed packets -----

  datatype Part = Part(header: seq<byte>, data: seq<byte>)

  predicate WellFormed(parse: Parser, p: Part) {
    && 0 < |p.header| <= INT_MAX
    && parse(p.header).Some? && Carries(parse(p.header).value) && Announced(parse(p.header).value) == |p.data|
    && !Oversized(|p.header|, |p.data|)
  }

  /** These are the events that announce the data they come with, and the commands, which come without data; within
      the sizes that the code's arithmetic holds. */
  lemma WellFormedIff(parse: Parser, p: Part)
    ensures WellFormed(parse, p) <==>
      && 0 < |p.header| <= INT_MAX && |p.data| <= INT_MAX && 15 + |p.header| + |p.data| < 0x1_0000_0000
      && parse(p.header).Some?
      && (parse(p.header).value == Event(|p.data|) || (parse(p.header).value.Command? && p.data == []))
  {
  }

  predicate AllWellFormed(parse: Parser, ps: seq<Part>) {
    forall i :: 0 <= i < |ps| ==> WellFormed(parse, ps[i])
  }

  function Wire(p: Part): (w: seq<byte>)
    requires |p.header| <= INT_MAX
  {
    PacketBytes(p.header, p.data)
  }

  function Concat(parse: Parser, ps: seq<Part>): (w: seq<byte>)
    requires AllWellFormed(parse, ps)
  {
    if ps == [] then [] else Wire(ps[0]) + Concat(parse, ps[1..])
  }

  function Wires(parse: Parser, ps: seq<Part>): (w: seq<seq<byte>>)
    requires AllWellFormed(parse, ps)
    ensures |w| == |ps|
  {
    seq(|ps|, i requires 0 <= i < |ps| => Wire(ps[i]))
  }

  /** The read of the n-th header would bring all of so long a one. */
  predicate ReadsWhole(luck: Luck, n: nat, length: nat) { length <= luck.cut(n) + 1 }

  ghost predicate ReadsAll(luck: Luck, n: nat, ps: seq<Part>) {
    forall i :: 0 <= i < |ps| ==> ReadsWhole(luck, n + i, |ps[i].header|)
  }

  /** A last packet of which the end is missing. */
  predicate Cut(parse: Parser, tail: seq<byte>, p: Part) {
    WellFormed(parse, p) && tail < Wire(p)
  }

  /** One packet in front of anything is framed as that packet, byte for byte. */
  lemma FramedOne(parse: Parser, luck: Luck, p: Part, rest: seq<byte>, n: nat)
    requires WellFormed(parse, p) && ReadsWhole(luck, n, |p.header|)
    ensures Framed(parse, luck, Place(Wire(p) + rest, n)) == Then(Wire(p), Framed(parse, luck, Place(rest, n + 1)))
  {
    TurnOne(parse, luck, p, rest, n);
  }

  lemma TurnOne(parse: Parser, luck: Luck, p: Part, rest: seq<byte>, n: nat)
    requires WellFormed(parse, p) && ReadsWhole(luck, n, |p.header|)
    ensures OneTurn(parse, luck, Place(Wire(p) + rest, n)) == Gets(Wire(p), Place(rest, n + 1))
  {
    var s, after := Wire(p) + rest, p.data + rest;
    PacketParts(p, rest);
    WholeHeader(luck, n, s, p.header, after);
    assert after[..|p.data|] == p.data && after[|p.data|..] == rest;
  }

  lemma PacketParts(p: Part, rest: seq<byte>)
    requires 0 < |p.header| <= INT_MAX
    ensures var s := Wire(p) + rest;
      && HasHeader(s) && HeaderLength(s) == |p.header|
      && s[PREFIX_LENGTH..] == p.header + (p.data + rest) && s[..PREFIX_LENGTH] + p.header + p.data == Wire(p)
  {
    var s := Wire(p) + rest;
    SplitPacket(p.header, p.data, rest);
    assert s[..PREFIX_LENGTH] == Prefix(|p.header|);
  }

  lemma WholeHeader(luck: Luck, n: nat, s: seq<byte>, h: seq<byte>, after: seq<byte>)
    requires HasHeader(s) && HeaderLength(s) == |h| && s[PREFIX_LENGTH..] == h + after && ReadsWhole(luck, n, |h|)
    ensures HeaderOf(luck, n, s) == h && AfterHeader(luck, n, s) == after
  {
    assert Junk(luck, n, |h|)[|h|..] == [];
  }

  /** The front part of a packet: nothing comes out of it, unless it ends inside the header and the parser takes what
      there is of that, with what the heap has behind it, for the header of a packet without data. */
  lemma FramedCut(parse: Parser, luck: Luck, tail: seq<byte>, p: Part, n: nat)
    requires Cut(parse, tail, p) && ReadsWhole(luck, n, |p.header|)
    ensures var framed := Framed(parse, luck, Place(tail, n));
      if |tail| <= PREFIX_LENGTH || |tail| >= PREFIX_LENGTH + |p.header| then framed == Stream([], Closed)
      else
        var h := HeaderRead(luck, n, |p.header|, tail[PREFIX_LENGTH..]);
        match parse(h)
        case None => framed == Stream([], Closed)
        case Some(d) =>
          if !Carries(d) || Oversized(|h|, Announced(d)) then framed == Stream([], Fault)
          else if Announced(d) > 0 then framed == Stream([], Closed)
          else framed == Stream([PacketBytes(h, [])], Closed)
  {
    if |tail| >= PREFIX_LENGTH {
      CutPrefix(parse, tail, p);
      if |tail| >= PREFIX_LENGTH + |p.header| {
        var after := tail[PREFIX_LENGTH + |p.header|..];
        assert tail[PREFIX_LENGTH..] == p.header + after;
        if HasHeader(tail) {
          WholeHeader(luck, n, tail, p.header, after);
        }
      } else if |tail| > PREFIX_LENGTH {
        assert AfterHeader(luck, n, tail) == [];
        WordRoundTrip(|p.header|);
        assert tail[..PREFIX_LENGTH] == Prefix(|p.header|);
        assert Framed(parse, luck, Place([], n + 1)) == Stream([], Closed);
        var h := HeaderOf(luck, n, tail);
        assert tail[..PREFIX_LENGTH] + h + [] == PacketBytes(h, []);
      }
    }
  }

  lemma CutPrefix(parse: Parser, tail: seq<byte>, p: Part)
    requires Cut(parse, tail, p) && |tail| >= PREFIX_LENGTH
    ensures tail[..11] == START_CODE && HeaderLength(tail) == |p.header| && tail[..PREFIX_LENGTH] == Prefix(|p.header|)
    ensures |tail| >= PREFIX_LENGTH + |p.header| ==> tail[PREFIX_LENGTH..PREFIX_LENGTH + |p.header|] == p.header
    ensures |tail| - PREFIX_LENGTH < |p.header| + |p.data|
  {
    var w := Wire(p);
    SplitPacket(p.header, p.data, []);
    assert w + [] == w && tail == w[..|tail|];
    assert w[..PREFIX_LENGTH] == Prefix(|p.header|) && tail[..PREFIX_LENGTH] == w[..PREFIX_LENGTH];
    assert tail[..11] == w[..11] && tail[11..15] == w[11..15];
  }

  lemma FirstAndRest(parse: Parser, luck: Luck, ps: seq<Part>, tail: seq<byte>, n: nat)
    requires AllWellFormed(parse, ps) && ReadsAll(luck, n, ps) && ps != []
    ensures WellFormed(parse, ps[0]) && ReadsWhole(luck, n, |ps[0].header|)
    ensures AllWellFormed(parse, ps[1..]) && ReadsAll(luck, n + 1, ps[1..])
    ensures Wires(parse, ps) == [Wire(ps[0])] + Wires(parse, ps[1..])
    ensures Concat(parse, ps) + tail == Wire(ps[0]) + (Concat(parse, ps[1..]) + tail)
  {
    AllReadRest(luck, ps, n);
  }

  lemma AllReadRest(luck: Luck, ps: seq<Part>, n: nat)
    requires ReadsAll(luck, n, ps) && ps != []
    ensures ReadsWhole(luck, n, |ps[0].header|) && ReadsAll(luck, n + 1, ps[1..])
  {
    assert ReadsWhole(luck, n + 0, |ps[0].header|);
    forall i | 0 <= i < |ps[1..]|
      ensures ReadsWhole(luck, n + 1 + i, |ps[1..][i].header|)
    {
      assert ReadsWhole(luck, n + (i + 1), |ps[i + 1].header|);
    }
  }

  /** The packets of a stream come out exactly and in order, in front of whatever follows them. */
  lemma StreamOfPackets(parse: Parser, luck: Luck, ps: seq<Part>, tail: seq<byte>, n: nat)
    requires AllWellFormed(parse, ps) && ReadsAll(luck, n, ps)
    ensures Framed(parse, luck, Place(Concat(parse, ps) + tail, n))
      == Prepend(Wires(parse, ps), Framed(parse, luck, Place(tail, n + |ps|)))
  {
    forall p: Part, rest: seq<byte>, k: nat | WellFormed(parse, p) && ReadsWhole(luck, k, |p.header|)
      ensures Framed(parse, luck, Place(Wire(p) + rest, k)) == Then(Wire(p), Framed(parse, luck, Place(rest, k + 1)))
    {
      FramedOne(parse, luck, p, rest, k);
    }
    StreamBy(at => Framed(parse, luck, at), parse, luck, ps, tail, n);
  }

  /** A function of streams that takes one packet off the front takes all of them off. */
  lemma {:induction false} StreamBy(f: Place -> Stream, parse: Parser, luck: Luck,
                                    ps: seq<Part>, tail: seq<byte>, n: nat)
    requires forall p: Part, rest: seq<byte>, k: nat :: WellFormed(parse, p) && ReadsWhole(luck, k, |p.header|) ==>
      f(Place(Wire(p) + rest, k)) == Then(Wire(p), f(Place(rest, k + 1)))
    requires AllWellFormed(parse, ps) && ReadsAll(luck, n, ps)
    ensures f(Place(Concat(parse, ps) + tail, n)) == Prepend(Wires(parse, ps), f(Place(tail, n + |ps|)))
  {
    if ps == [] {
      assert Concat(parse, ps) + tail == tail && Wires(parse, ps) == [];
    } else {
      FirstAndRest(parse, luck, ps, tail, n);
      StreamBy(f, parse, luck, ps[1..], tail, n + 1);
      PrependConcat([Wire(ps[0])], Wires(parse, ps[1..]), f(Place(tail, n + |ps|)));
    }
  }

  /** Fifteen bytes that do not begin with the start code are passed over. */
  lemma NoisePassesOver(parse: Parser, luck: Luck, g: seq<byte>, rest: seq<byte>, n: nat)
    requires |g| == PREFIX_LENGTH && g[..11] != START_CODE
    ensures Framed(parse, luck, Place(g + rest, n)) == Framed(parse, luck, Place(rest, n))
  {
    var s := g + rest;
    assert s[..11] == g[..11] && s[PREFIX_LENGTH..] == rest;
  }

  /** A packet's header that does not parse is passed over as well, and what follows it is framed as if alone,
      one header later. */
  lemma UnparsablePassesOver(parse: Parser, luck: Luck, h: seq<byte>, rest: seq<byte>, n: nat)
    requires 0 < |h| <= INT_MAX && parse(h).None? && ReadsWhole(luck, n, |h|)
    ensures Framed(parse, luck, Place(Prefix(|h|) + h + rest, n)) == Framed(parse, luck, Place(rest, n + 1))
  {
    UnparsableTurn(parse, luck, h, rest, n);
  }

  lemma UnparsableTurn(parse: Parser, luck: Luck, h: seq<byte>, rest: seq<byte>, n: nat)
    requires 0 < |h| <= INT_MAX && parse(h).None? && ReadsWhole(luck, n, |h|)
    ensures OneTurn(parse, luck, Place(Prefix(|h|) + h + rest, n)) == Skips(Place(rest, n + 1))
  {
    var s := Prefix(|h|) + h + rest;
    assert Wire(Part(h, [])) + rest == s && Part(h, []).data + rest == rest;
    PacketParts(Part(h, []), rest);
    WholeHeader(luck, n, s, h, rest);
  }

  /** What a peer may put into the stream: a packet, noise, or a header that does not parse. */
  datatype Piece = Packet(part: Part) | Noise(bytes: seq<byte>) | Unparsed(header: seq<byte>)

  ghost predicate Proper(parse: Parser, p: Piece) {
    match p
    case Packet(part) => WellFormed(parse, part)
    case Noise(bytes) => |bytes| == PREFIX_LENGTH && bytes[..11] != START_CODE
    case Unparsed(header) => 0 < |header| <= INT_MAX && parse(header).None?
  }

  function BytesOf(p: Piece): (b: seq<byte>) {
    match p
    case Packet(part) => if |part.header| <= INT_MAX then Wire(part) else []
    case Noise(bytes) => bytes
    case Unparsed(header) => if |header| <= INT_MAX then Prefix(|header|) + header else []
  }

  function StreamOf(ps: seq<Piece>): (s: seq<byte>) {
    if ps == [] then [] else BytesOf(ps[0]) + StreamOf(ps[1..])
  }

  /** The packets among the pieces, as they were sent. */
  function PacketsAmong(ps: seq<Piece>): (r: seq<seq<byte>>) {
    if ps == [] then [] else (if ps[0].Packet? then [BytesOf(ps[0])] else []) + PacketsAmong(ps[1..])
  }

  function HeadersAmong(ps: seq<Piece>): (n: nat) {
    if ps == [] then 0 else (if ps[0].Noise? then 0 else 1) + HeadersAmong(ps[1..])
  }

  /** Every header of the stream is read whole. */
  ghost predicate ReadsHeaders(luck: Luck, n: nat, ps: seq<Piece>)
    decreases |ps|
  {
    ps != [] ==>
      && (ps[0].Packet? ==> ReadsWhole(luck, n, |ps[0].part.header|))
      && (ps[0].Unparsed? ==> ReadsWhole(luck, n, |ps[0].header|))
      && ReadsHeaders(luck, if ps[0].Noise? then n else n + 1, ps[1..])
  }

  /** A loop of turns that does with each kind of piece what it should. */
  ghost predicate TakesPiece(parse: Parser, luck: Luck, f: Place -> Stream, p: Piece, rest: seq<byte>, n: nat) {
    Proper(parse, p) && ReadsHeaders(luck, n, [p]) ==>
      f(Place(BytesOf(p) + rest, n)) ==
        Prepend(if p.Packet? then [BytesOf(p)] else [], f(Place(rest, if p.Noise? then n else n + 1)))
  }

  lemma FramerTakesPiece(parse: Parser, luck: Luck, p: Piece, rest: seq<byte>, n: nat)
    requires Proper(parse, p) && ReadsHeaders(luck, n, [p])
    ensures Framed(parse, luck, Place(BytesOf(p) + rest, n)) ==
      Prepend(if p.Packet? then [BytesOf(p)] else [], Framed(parse, luck, Place(rest, if p.Noise? then n else n + 1)))
  {
    match p
    case Packet(part) => FramedOne(parse, luck, part, rest, n);
    case Noise(bytes) => NoisePassesOver(parse, luck, bytes, rest, n);
    case Unparsed(header) =>
      UnparsablePassesOver(parse, luck, header, rest, n);
  }

  /** Whatever noise and unparsable headers stand between them, the packets of a stream are framed exactly as they
      were sent, in order, in front of what the rest of the stream is framed to. */
  lemma PacketsAmongNoise(parse: Parser, luck: Luck, ps: seq<Piece>, tail: seq<byte>, n: nat)
    requires (forall i :: 0 <= i < |ps| ==> Proper(parse, ps[i])) && ReadsHeaders(luck, n, ps)
    ensures Framed(parse, luck, Place(StreamOf(ps) + tail, n))
      == Prepend(PacketsAmong(ps), Framed(parse, luck, Place(tail, n + HeadersAmong(ps))))
  {
    var f := (at: Place) => Framed(parse, luck, at);
    forall p: Piece, rest: seq<byte>, k: nat
      ensures TakesPiece(parse, luck, f, p, rest, k)
    {
      if Proper(parse, p) && ReadsHeaders(luck, k, [p]) {
        FramerTakesPiece(parse, luck, p, rest, k);
      }
    }
    PiecesBy(f, parse, luck, ps, tail, n);
  }

  lemma {:induction false} PiecesBy(f: Place -> Stream, parse: Parser, luck: Luck,
                                    ps: seq<Piece>, tail: seq<byte>, n: nat)
    requires forall p: Piece, rest: seq<byte>, k: nat :: TakesPiece(parse, luck, f, p, rest, k)
    requires (forall i :: 0 <= i < |ps| ==> Proper(parse, ps[i])) && ReadsHeaders(luck, n, ps)
    ensures f(Place(StreamOf(ps) + tail, n)) == Prepend(PacketsAmong(ps), f(Place(tail, n + HeadersAmong(ps))))
    decreases |ps|
  {
    if ps == [] {
      assert StreamOf(ps) + tail == tail && PacketsAmong(ps) == [];
      PrependConcat([], [], f(Place(tail, n)));
    } else {
      var rest, next := StreamOf(ps[1..]) + tail, if ps[0].Noise? then n else n + 1;
      assert StreamOf(ps) + tail == BytesOf(ps[0]) + rest;
      assert ReadsHeaders(luck, n, [ps[0]]);
      assert TakesPiece(parse, luck, f, ps[0], rest, n);
      PiecesBy(f, parse, luck, ps[1..], tail, next);
      PrependConcat(if ps[0].Packet? then [BytesOf(ps[0])] else [], PacketsAmong(ps[1..]),
                    f(Place(tail, n + HeadersAmong(ps))));
    }
  }

  /** Even between garbage, and with headers cut short, whatever is framed is the wire form of a well-formed packet. */
  lemma FramedPacketsAreWellFormed(parse: Parser, luck: Luck, at: Place, i: nat) returns (p: Part)
    requires i < |Framed(parse, luck, at).packets|
    ensures WellFormed(parse, p) && Framed(parse, luck, at).packets[i] == Wire(p)
  {
    var turn, f := (a: Place) => OneTurn(parse, luck, a), (a: Place) => Framed(parse, luck, a);
    forall a
      ensures IsLoop(turn, f, a)
    {
      assert turn(a) == OneTurn(parse, luck, a) && f(a) == Framed(parse, luck, a);
    }
    var from := PacketFrom(turn, f, at, i);
    assert turn(from) == OneTurn(parse, luck, from);
    p := GotPacketIsWellFormed(parse, luck, from);
  }

  predicate IsLoop(turn: Place -> Outcome, f: Place -> Stream, a: Place) {
    match turn(a)
    case Ends(end) => f(a) == Stream([], end)
    case Skips(next) => f(a) == f(next) && |next.s| < |a.s|
    case Gets(packet, next) => f(a) == Then(packet, f(next)) && |next.s| < |a.s|
  }

  /** A packet that a loop of turns frames has been got by one of the turns. */
  lemma {:induction false} PacketFrom(turn: Place -> Outcome, f: Place -> Stream, at: Place, i: nat)
      returns (from: Place)
    requires forall a :: IsLoop(turn, f, a)
    requires i < |f(at).packets|
    ensures turn(from).Gets? && turn(from).packet == f(at).packets[i]
    decreases |at.s|
  {
    assert IsLoop(turn, f, at);
    match turn(at)
    case Skips(next) => from := PacketFrom(turn, f, next, i);
    case Gets(packet, next) =>
      if i == 0 {
        from := at;
      } else {
        from := PacketFrom(turn, f, next, i - 1);
      }
    case Ends(_) =>
  }

  lemma GotPacketIsWellFormed(parse: Parser, luck: Luck, at: Place) returns (p: Part)
    requires OneTurn(parse, luck, at).Gets?
    ensures WellFormed(parse, p) && OneTurn(parse, luck, at).packet == Wire(p)
  {
    var h, rest := HeaderOf(luck, at.n, at.s), AfterHeader(luck, at.n, at.s);
    p := Part(h, rest[..Announced(parse(h).value)]);
    WordUnique(at.s[11..15]);
    assert at.s[..PREFIX_LENGTH] == at.s[..11] + at.s[11..15];
  }

  /** From any stream at all, a packet that is queued is recognised by parserPacket with the same header and data
      exactly when the C string of its header still announces that much data, and it can be held. */
  lemma FramerAgreesWithParser(parse: Parser, luck: Luck, at: Place, i: nat) returns (p: Part)
    requires i < |Framed(parse, luck, at).packets|
    ensures WellFormed(parse, p) && Framed(parse, luck, at).packets[i] == Wire(p)
    ensures (exists d :: ParsePacket(parse, Wire(p)) == Recognised(Parsed(p.header, p.data, d)))
      <==> var d := parse(StrNCpy(p.header));
           d.Some? && Announced(d.value) == |p.data| && Holds(|p.header|, d.value)
    ensures 0 !in p.header && Holds(|p.header|, parse(p.header).value) ==>
      ParsePacket(parse, Wire(p)) == Recognised(Parsed(p.header, p.data, parse(p.header).value))
  {
    p := FramedPacketsAreWellFormed(parse, luck, at, i);
    assert Wire(p) + [] == Wire(p);
    PacketRoundTrip(parse, p.header, p.data, []);
  }

  // ----- undefined behaviour -----

  /** The stream starts with a length no int can hold, or with a header that, as it is read, parses as a document
      for which parseHeader takes no buffer, or as one that announces a size at which the arithmetic goes wrong. */
  predicate FaultHead(parse: Parser, luck: Luck, s: seq<byte>, n: nat) {
    && |s| >= PREFIX_LENGTH && s[..11] == START_CODE
    && (HeaderLength(s) > INT_MAX
        || (HasHeader(s)
            && match parse(HeaderOf(luck, n, s))
               case None => false
               case Some(d) => !Carries(d) || Oversized(HeaderLength(s), Announced(d))))
  }

  /** Where the loop gets to by n turns, if none of them is the last. */
  function AfterTurns(parse: Parser, luck: Luck, at: Place, turns: nat): (r: Option<Place>)
    decreases turns
  {
    if turns == 0 then Some(at)
    else if OneTurn(parse, luck, at).Ends? then None
    else AfterTurns(parse, luck, OneTurn(parse, luck, at).next, turns - 1)
  }

  predicate FaultsAfter(parse: Parser, luck: Luck, at: Place, turns: nat) {
    match AfterTurns(parse, luck, at, turns)
    case None => false
    case Some(r) => FaultHead(parse, luck, r.s, r.n)
  }

  lemma TurnFaults(parse: Parser, luck: Luck, at: Place)
    ensures OneTurn(parse, luck, at) == Ends(Fault) <==> FaultHead(parse, luck, at.s, at.n)
  {
  }

  /** The loop runs into undefined behaviour exactly when, after some turns, such a head is next in the stream. */
  lemma {:induction false} FaultIffBadHead(parse: Parser, luck: Luck, at: Place)
    ensures Framed(parse, luck, at).end == Fault <==> exists turns: nat :: FaultsAfter(parse, luck, at, turns)
    decreases |at.s|
  {
    TurnFaults(parse, luck, at);
    assert FaultsAfter(parse, luck, at, 0) <==> FaultHead(parse, luck, at.s, at.n);
    if !OneTurn(parse, luck, at).Ends? {
      var next := OneTurn(parse, luck, at).next;
      FaultIffBadHead(parse, luck, next);
      assert forall k: nat :: FaultsAfter(parse, luck, next, k) <==> FaultsAfter(parse, luck, at, k + 1);
      if k: nat :| FaultsAfter(parse, luck, at, k) {
        assert FaultsAfter(parse, luck, next, k - 1);
      }
    }
  }

  /** It does happen: a packet whose header is a nodebus document, or an event of length -1. */
  lemma BadHeaderFaults(parse: Parser, luck: Luck, header: seq<byte>, rest: seq<byte>, n: nat)
    requires 0 < |header| <= INT_MAX && ReadsWhole(luck, n, |header|)
    requires parse(header).Some? && (parse(header).value.Bus? || parse(header).value == Event(WORD_LIMIT - 1))
    ensures Framed(parse, luck, Place(PacketBytes(header, []) + rest, n)) == Stream([], Fault)
  {
    var s := PacketBytes(header, []) + rest;
    SplitPacket(header, [], rest);
    assert s[PREFIX_LENGTH..] == header + rest;
    if HasHeader(s) {
      WholeHeader(luck, n, s, header, rest);
    }
  }

  // ----- the loop -----

  function Offer(p: seq<byte>): (i: Item) { Item(p, 0, GLOBAL_MESSAGE) }

  /** Pushes in order, each refused when the queue is full at its turn. */
  function EnqueuedAll(q: seq<Item>, capacity: nat, ps: seq<seq<byte>>): (r: seq<Item>)
    decreases |ps|
  {
    if ps == [] then q else EnqueuedAll(Enqueued(q, capacity, Offer(ps[0])), capacity, ps[1..])
  }

  lemma {:induction false} EnqueuedAllConcat(q: seq<Item>, capacity: nat, a: seq<seq<byte>>, b: seq<seq<byte>>)
    ensures EnqueuedAll(q, capacity, a + b) == EnqueuedAll(EnqueuedAll(q, capacity, a), capacity, b)
    decreases |a|
  {
    if a == [] {
      assert a + b == b;
    } else {
      assert (a + b)[1..] == a[1..] + b;
      EnqueuedAllConcat(Enqueued(q, capacity, Offer(a[0])), capacity, a[1..], b);
    }
  }

  /** With room for all of them, the queue simply grows by the packets in order. */
  lemma {:induction false} EnqueuedAllFits(q: seq<Item>, capacity: nat, ps: seq<seq<byte>>)
    requires |q| + |ps| <= capacity
    ensures |EnqueuedAll(q, capacity, ps)| == |q| + |ps|
    ensures q <= EnqueuedAll(q, capacity, ps)
    ensures forall i :: 0 <= i < |ps| ==> EnqueuedAll(q, capacity, ps)[|q| + i] == Offer(ps[i])
    decreases |ps|
  {
    if ps != [] {
      EnqueuedAllFits(q + [Offer(ps[0])], capacity, ps[1..]);
      assert forall i :: 1 <= i < |ps| ==> ps[i] == ps[1..][i - 1];
    }
  }

  /** What reading a prefix and a header comes to. */
  datatype Head = BadStart | Broken(end: End) | Header(header: array<byte>)

  method ReadHeader(parse: Parser, luck: Luck, n: nat, conn: NodeNetwork.Connection, packetPrefix: array<byte>)
      returns (t: Head)
    requires conn.pos <= |conn.input| && packetPrefix.Length == PREFIX_LENGTH
    modifies conn`pos, conn`readCalls, packetPrefix
    ensures old(conn.pos) <= conn.pos <= |conn.input|
    ensures var s := conn.input[old(conn.pos)..];
      match t
      case BadStart => OneTurn(parse, luck, Place(s, n)) == Skips(Place(conn.input[conn.pos..], n))
      case Broken(end) => OneTurn(parse, luck, Place(s, n)) == Ends(end)
      case Header(h) =>
        && conn.pos > old(conn.pos) && fresh(h) && HasHeader(s) && h[..] == HeaderOf(luck, n, s)
        && packetPrefix[..] == s[..PREFIX_LENGTH] && conn.input[conn.pos..] == AfterHeader(luck, n, s)
  {
    ghost var s := conn.input[conn.pos..];
    var readBytes := NodeNetwork.ReadFully(conn, packetPrefix, 0, PREFIX_LENGTH);
    if readBytes <= 0 {
      return Broken(Closed);
    }
    assert packetPrefix[..] == s[..PREFIX_LENGTH];
    assert conn.input[conn.pos..] == s[PREFIX_LENGTH..];
    assert packetPrefix[..11] == s[..11] && packetPrefix[11..15] == s[11..15];
    if packetPrefix[..11] != START_CODE {
      return BadStart;
    }
    var headerLength := WordValue(packetPrefix[11..15]);
    if headerLength > INT_MAX {
      return Broken(Fault);
    }
    var packetHeader := ReadOnce(luck, n, conn, headerLength);
    t := if packetHeader == null then Broken(Closed) else Header(packetHeader);
  }

  /** The one read of the header into a new buffer, which nobody checks for being whole. */
  method ReadOnce(luck: Luck, n: nat, conn: NodeNetwork.Connection, length: nat) returns (header: array?<byte>)
    requires conn.pos <= |conn.input|
    modifies conn`pos
    ensures var s := conn.input[old(conn.pos)..];
      && header == null <==> length == 0 || s == []
    ensures header != null ==>
      var s := conn.input[old(conn.pos)..];
      && old(conn.pos) < conn.pos <= |conn.input|
      && fresh(header) && header[..] == HeaderRead(luck, n, length, s)
      && conn.input[conn.pos..] == s[Taken(luck, n, length, s)..]
    ensures header == null ==> conn.pos == old(conn.pos)
  {
    ghost var s := conn.input[conn.pos..];
    header := new byte[length](i => luck.junk(n, i));
    assert header[..] == Junk(luck, n, length);
    var readBytes := conn.ReadUpTo(header, length, luck.cut(n) + 1);
    if readBytes <= 0 {
      return null;
    }
    assert conn.input[conn.pos - readBytes..conn.pos] == s[..readBytes];
    assert conn.input[conn.pos..] == s[readBytes..];
  }

  /** What one turn of the loop does: nothing, whether or not it has read a header; a packet; or the end. */
  datatype Turn = Skip(header: bool) | Got(packet: NbusPacket) | Stop(end: End)

  /** One turn: prefix, header, and data if the header announces any. */
  method ReadPacket(parse: Parser, luck: Luck, n: nat, conn: NodeNetwork.Connection, packetPrefix: array<byte>)
      returns (t: Turn)
    requires conn.pos <= |conn.input| && packetPrefix.Length == PREFIX_LENGTH
    modifies conn`pos, conn`readCalls, packetPrefix
    ensures old(conn.pos) <= conn.pos <= |conn.input|
    ensures var turn, rest := OneTurn(parse, luck, Place(conn.input[old(conn.pos)..], n)), conn.input[conn.pos..];
      match t
      case Skip(header) => turn == Skips(Place(rest, if header then n + 1 else n))
      case Stop(end) => turn == Ends(end)
      case Got(p) =>
        && fresh(p) && p.packet != null && fresh(p.packet) && p.packet.Length == p.packetLength > 0
        && turn == Gets(p.packet[..], Place(rest, n + 1))
  {
    ghost var s := conn.input[conn.pos..];
    var head := ReadHeader(parse, luck, n, conn, packetPrefix);
    match head {
      case BadStart => return Skip(false);
      case Broken(end) => return Stop(end);
      case Header(packetHeader) =>
        var packet := new NbusPacket(parse);
        var r, fault := packet.ParseHeader(packetHeader[..]);
        if r < 0 {
          return Skip(true);
        }
        if fault || packet.packet == null || packet.dataLength > INT_MAX {
          return Stop(Fault);
        }
        PutPrefix(packet.packet, packetPrefix, packetHeader.Length);
        var whole := ReadData(conn, packet, s[..PREFIX_LENGTH] + HeaderOf(luck, n, s));
        t := if whole then Got(packet) else Stop(Closed);
    }
  }

  /** The data part, read straight into the packet behind its header. */
  method ReadData(conn: NodeNetwork.Connection, packet: NbusPacket, ghost front: seq<byte>) returns (whole: bool)
    requires conn.pos <= |conn.input|
    requires packet.packet != null && packet.packet.Length == |front| + packet.dataLength
    requires packet.dataLength > 0 ==> packet.data == Some(|front|)
    requires packet.packet[..|front|] == front
    modifies conn`pos, conn`readCalls, packet.packet
    ensures old(conn.pos) <= conn.pos <= |conn.input|
    ensures whole <==> packet.dataLength <= |conn.input[old(conn.pos)..]|
    ensures whole ==>
      && conn.input[conn.pos..] == conn.input[old(conn.pos)..][packet.dataLength..]
      && packet.packet[..] == front + conn.input[old(conn.pos)..][..packet.dataLength]
  {
    ghost var was, start := packet.packet[..], conn.pos;
    if packet.dataLength != 0 {
      var readBytes := NodeNetwork.ReadFully(conn, packet.packet, packet.data.value, packet.dataLength);
      if readBytes <= 0 {
        return false;
      }
    }
    assert was[..|front|] == front;
    assert conn.input[start..conn.pos] == conn.input[start..][..packet.dataLength];
    whole := true;
  }

  /** The prefix as it was received goes in front, which fills in the length field. */
  method PutPrefix(packet: array<byte>, packetPrefix: array<byte>, ghost headerLength: nat)
    requires packet != packetPrefix && packetPrefix.Length == PREFIX_LENGTH
    requires packet.Length >= PREFIX_LENGTH + headerLength
    modifies packet
    ensures packet[..PREFIX_LENGTH + headerLength]
      == packetPrefix[..] + old(packet[PREFIX_LENGTH..PREFIX_LENGTH + headerLength])
  {
    ghost var was, end := packet[..], PREFIX_LENGTH + headerLength;
    Fill(packet, 0, packetPrefix[..]);
    assert packet[..end] == packetPrefix[..] + was[PREFIX_LENGTH..end];
  }

  /** Copies a packet into a queue item of its own and posts it. */
  method Post(packet: NbusPacket, q: NbusCmdQueue, looper: NodeLooper)
    requires packet.packet != null && packet.packet.Length == packet.packetLength > 0
    requires q.Valid() && looper !in q.Repr
    modifies q.Repr, looper
    ensures q.Valid() && fresh(q.Repr - old(q.Repr))
    ensures q.contents == Enqueued(old(q.contents), q.qSize, Offer(old(packet.packet[..])))
    ensures looper.pipe == old(looper.pipe) + [Wake]
  {
    var item := new NbusCmd();
    item.data := Copy(packet.packet);
    item.length := packet.packetLength;
    item.kind := GLOBAL_MESSAGE;
    var _ := q.Push(item);
    looper.Wakeup();
  }

  /** One turn of the loop; `offered` is what it has posted. */
  method ListenOnce(parse: Parser, luck: Luck, n: nat, conn: NodeNetwork.Connection, packetPrefix: array<byte>,
                    q: NbusCmdQueue, looper: NodeLooper)
      returns (end: Option<End>, headers: nat, ghost offered: seq<seq<byte>>)
    requires conn.pos <= |conn.input| && packetPrefix.Length == PREFIX_LENGTH
    requires q.Valid() && looper !in q.Repr && conn !in q.Repr && packetPrefix !in q.Repr
    modifies conn`pos, conn`readCalls, packetPrefix, q.Repr, looper
    ensures conn.pos <= |conn.input| && q.Valid() && fresh(q.Repr - old(q.Repr))
    ensures looper !in q.Repr && conn !in q.Repr && packetPrefix !in q.Repr
    ensures var turn := OneTurn(parse, luck, Place(conn.input[old(conn.pos)..], n));
      && offered == (if turn.Gets? then [turn.packet] else [])
      && if end.Some? then turn == Ends(end.value)
         else !turn.Ends? && turn.next == Place(conn.input[conn.pos..], headers)
    ensures q.contents == EnqueuedAll(old(q.contents), q.qSize, offered)
    ensures looper.pipe == old(looper.pipe) + Wakes(|offered|)
  {
    offered, headers := [], n;
    var t := ReadPacket(parse, luck, n, conn, packetPrefix);
    match t {
      case Skip(header) =>
        end := None;
        headers := if header then n + 1 else n;
      case Stop(e) => end := Some(e);
      case Got(packet) =>
        offered := [packet.packet[..]];
        assert offered[1..] == [];
        Post(packet, q, looper);
        end, headers := None, n + 1;
    }
  }

  lemma {:induction false} FramedTurn(parse: Parser, luck: Luck, at: Place)
    ensures var turn, f := OneTurn(parse, luck, at), Framed(parse, luck, at);
      && (turn.Ends? ==> f == Stream([], turn.end))
      && (!turn.Ends? ==>
            && f == Prepend(if turn.Gets? then [turn.packet] else [], Framed(parse, luck, turn.next))
            && |turn.next.s| < |at.s|)
  {
  }

  /** The same, seen as one step through what the stream is framed to. */
  method ListenTurn(parse: Parser, luck: Luck, n: nat, conn: NodeNetwork.Connection, packetPrefix: array<byte>,
                    q: NbusCmdQueue, looper: NodeLooper, ghost left: Stream)
      returns (end: Option<End>, headers: nat, ghost offered: seq<seq<byte>>, ghost next: Stream)
    requires conn.pos <= |conn.input| && packetPrefix.Length == PREFIX_LENGTH
    requires q.Valid() && looper !in q.Repr && conn !in q.Repr && packetPrefix !in q.Repr
    requires left == Framed(parse, luck, Place(conn.input[conn.pos..], n))
    modifies conn`pos, conn`readCalls, packetPrefix, q.Repr, looper
    ensures conn.pos <= |conn.input| && q.Valid() && fresh(q.Repr - old(q.Repr))
    ensures looper !in q.Repr && conn !in q.Repr && packetPrefix !in q.Repr
    ensures left == Prepend(offered, next)
    ensures if end.Some? then next == Stream([], end.value)
            else next == Framed(parse, luck, Place(conn.input[conn.pos..], headers)) && conn.pos > old(conn.pos)
    ensures q.contents == EnqueuedAll(old(q.contents), q.qSize, offered)
    ensures looper.pipe == old(looper.pipe) + Wakes(|offered|)
  {
    ghost var at := Place(conn.input[conn.pos..], n);
    FramedTurn(parse, luck, at);
    end, headers, offered := ListenOnce(parse, luck, n, conn, packetPrefix, q, looper);
    next := if end.Some? then left else Framed(parse, luck, OneTurn(parse, luck, at).next);
  }

  /** The packet loop of NodePort::listen: every packet of the stream is offered to the queue,
      in order, each followed by one wake-up. */
  method Listen(parse: Parser, luck: Luck, conn: NodeNetwork.Connection, q: NbusCmdQueue, looper: NodeLooper)
      returns (end: End)
    requires conn.pos <= |conn.input|
    requires q.Valid() && looper !in q.Repr && conn !in q.Repr
    modifies conn`pos, conn`readCalls, q.Repr, looper
    ensures q.Valid() && fresh(q.Repr - old(q.Repr)) && looper !in q.Repr
    ensures var framed := Framed(parse, luck, Place(old(conn.input[conn.pos..]), 0));
      && end == framed.end
      && q.contents == EnqueuedAll(old(q.contents), q.qSize, framed.packets)
      && looper.pipe == old(looper.pipe) + Wakes(|framed.packets|)
  {
    ghost var all := Framed(parse, luck, Place(conn.input[conn.pos..], 0));
    ghost var done: seq<seq<byte>>, left := [], all;
    ghost var items, pipe := q.contents, looper.pipe;
    var packetPrefix := new byte[PREFIX_LENGTH];
    var headers := 0;
    while true
      invariant conn.pos <= |conn.input| && q.Valid() && fresh(q.Repr - old(q.Repr))
      invariant looper !in q.Repr && conn !in q.Repr && packetPrefix !in q.Repr
      invariant left == Framed(parse, luck, Place(conn.input[conn.pos..], headers))
      invariant Offered(all, done, left, items, q.qSize, q.contents, pipe, looper.pipe)
      decreases |conn.input| - conn.pos
    {
      ghost var items', pipe' := q.contents, looper.pipe;
      ghost var offered, next;
      var stop;
      stop, headers, offered, next := ListenTurn(parse, luck, headers, conn, packetPrefix, q, looper, left);
      OfferMore(all, done, offered, left, next, items, q.qSize, items', q.contents, pipe, pipe', looper.pipe);
      done, left := done + offered, next;
      if stop.Some? {
        assert done + [] == done;
        return stop.value;
      }
    }
  }

  /** The packets in `done` have been offered to a queue of these items, and `left` is still to come. */
  predicate Offered(all: Stream, done: seq<seq<byte>>, left: Stream, items: seq<Item>, capacity: nat, items': seq<Item>,
                    pipe: seq<Token>, pipe': seq<Token>) {
    && all == Prepend(done, left) && items' == EnqueuedAll(items, capacity, done) && pipe' == pipe + Wakes(|done|)
  }

  lemma OfferMore(all: Stream, done: seq<seq<byte>>, more: seq<seq<byte>>, left: Stream, left': Stream,
                  items: seq<Item>, capacity: nat, items': seq<Item>, items'': seq<Item>,
                  pipe: seq<Token>, pipe': seq<Token>, pipe'': seq<Token>)
    requires Offered(all, done, left, items, capacity, items', pipe, pipe')
    requires left == Prepend(more, left')
    requires items'' == EnqueuedAll(items', capacity, more) && pipe'' == pipe' + Wakes(|more|)
    ensures Offered(all, done + more, left', items, capacity, items'', pipe, pipe'')
  {
    PrependConcat(done, more, left');
    EnqueuedAllConcat(items, capacity, done, more);
    WakesConcat(|done|, |more|);
    assert pipe + Wakes(|done|) + Wakes(|more|) == pipe + (Wakes(|done|) + Wakes(|more|));
  }

  lemma WakesConcat(a: nat, b: nat)
    ensures Wakes(a) + Wakes(b) == Wakes(a + b)
  {
  }

  lemma PrependConcat(a: seq<seq<byte>>, b: seq<seq<byte>>, s: Stream)
    ensures Prepend(a, Prepend(b, s)) == Prepend(a + b, s)
    ensures b == [] ==> a + b == a && Prepend(a, Stream([], s.end)) == Stream(a, s.end)
  {
    assert a + (b + s.packets) == (a + b) + s.packets;
  }

  function Prepend(ps: seq<seq<byte>>, s: Stream): (r: Stream) {
    Stream(ps + s.packets, s.end)
  }
}
