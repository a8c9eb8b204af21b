/** The packet codec of service/Packet.cpp: start code, header length, XML header, data. */
module Packet {
  import opened Bytes
  import opened Xml

  /** NBUS_PACKET_START_CODE. */
  const START_CODE: seq<byte> := [65, 115, 84, 97, 76, 97, 86, 105, 83, 116, 65]
  const PREFIX_LENGTH := 15

  type Parser = seq<byte> -> Option<Document>

  function Prefix(headerLength: nat): (p: seq<byte>)
    requires headerLength <= INT_MAX
    ensures |p| == PREFIX_LENGTH && p[..11] == START_CODE && p[11..] == Word(headerLength)
  {
    START_CODE + Word(headerLength)
  }

  /** A packet on the wire. */
  function PacketBytes(header: seq<byte>, data: seq<byte>): (p: seq<byte>)
    requires |header| <= INT_MAX
    ensures |p| == PREFIX_LENGTH + |header| + |data|
  {
    Prefix(|header|) + header + data
  }

  /** The data length that a header announces. */
  function Announced(d: Document): (n: nat) {
    if d.Event? then d.length else 0
  }

  /** The packet takes its own buffer only for these two kinds of header. */
  predicate Carries(d: Document) { d.Event? || d.Command? }

  /** The length of a packet with such a header and so much data wraps around in 32 bits. */
  predicate Wraps(headerLength: nat, dataLength: nat) {
    PREFIX_LENGTH + headerLength + dataLength >= WORD_LIMIT
  }

  // ----- what parserPacket recognises -----

  datatype Parsed = Parsed(header: seq<byte>, data: seq<byte>, xml: Document)

  /** What becomes of a packet: it is refused, or recognised, or leads to reads beyond the caller's bytes
      or to sizes that overflow. */
  datatype Parse = Rejected | Recognised(it: Parsed) | Undefined

  function HeaderLength(p: seq<byte>): (n: nat)
    requires |p| >= PREFIX_LENGTH
    ensures n < WORD_LIMIT
  {
    WordValue(p[11..15])
  }

  /** `length < headerLength` compares as unsigned, also where the int at its right is negative. */
  function Unsigned(n: int): (u: int) { if n < 0 then n + WORD_LIMIT else n }

  /** The size that parserPacket allocates for its copy, up to byte `end` and the announced data, overflows. */
  predicate TooLong(end: nat, d: Document) {
    if d.Event? then end + d.length + 1 >= WORD_LIMIT else d.Command? && end >= INT_MAX
  }

  function ParsePacket(parse: Parser, p: seq<byte>): (r: Parse) {
    if |p| < PREFIX_LENGTH || p[..11] != START_CODE then Rejected
    else
      var n := IntValue(p[11..15]);
      if n > INT_MAX - PREFIX_LENGTH then Undefined
      else if |p| < Unsigned(PREFIX_LENGTH + n) then Rejected
      else if n < 0 then Undefined
      else
        var end := PREFIX_LENGTH + n;
        var header := p[PREFIX_LENGTH..end];
        match parse(StrNCpy(header))
        case None => Rejected
        case Some(d) =>
          if TooLong(end, d) || |p| < end + Announced(d) then Undefined
          else Recognised(Parsed(header, p[end..end + Announced(d)], d))
  }

  /** Sizes of a packet that parserPacket can work with. */
  predicate Holds(headerLength: nat, d: Document) {
    headerLength <= INT_MAX - PREFIX_LENGTH && !TooLong(PREFIX_LENGTH + headerLength, d)
  }

  /** Splitting a packet at its own length field finds the header again. */
  lemma SplitPacket(header: seq<byte>, data: seq<byte>, rest: seq<byte>)
    requires |header| <= INT_MAX
    ensures var p := PacketBytes(header, data) + rest;
      && p[..11] == START_CODE && HeaderLength(p) == |header|
      && p[PREFIX_LENGTH..PREFIX_LENGTH + |header|] == header
      && p[PREFIX_LENGTH + |header|..PREFIX_LENGTH + |header| + |data|] == data
  {
    var p := PacketBytes(header, data) + rest;
    assert p[11..15] == Word(|header|);
    WordRoundTrip(|header|);
    assert p[..11] == START_CODE;
  }

  /** What parserPacket makes of a packet, whatever follows it. */
  lemma PacketOutcome(parse: Parser, header: seq<byte>, data: seq<byte>, rest: seq<byte>)
    requires |header| <= INT_MAX
    ensures ParsePacket(parse, PacketBytes(header, data) + rest) ==
      if |header| > INT_MAX - PREFIX_LENGTH then Undefined
      else match parse(StrNCpy(header))
        case None => Rejected
        case Some(d) =>
          if !Holds(|header|, d) || Announced(d) > |data| + |rest| then Undefined
          else Recognised(Parsed(header, (data + rest)[..Announced(d)], d))
  {
    var p, end := PacketBytes(header, data) + rest, PREFIX_LENGTH + |header|;
    SplitPacket(header, data, rest);
    assert IntValue(p[11..15]) == |header|;
    assert p[end..] == data + rest;
    if |header| <= INT_MAX - PREFIX_LENGTH && parse(StrNCpy(header)).Some? {
      var n := Announced(parse(StrNCpy(header)).value);
      assert n <= |data| + |rest| ==> p[end..end + n] == (data + rest)[..n];
    }
  }

  /** In the sizes of the code: an event comes back with its data, and a command without any. */
  lemma KindsRoundTrip(parse: Parser, header: seq<byte>, data: seq<byte>, rest: seq<byte>)
    requires 0 !in header && |header| <= INT_MAX - 16 && parse(header).Some?
    ensures var d, r := parse(header).value, ParsePacket(parse, PacketBytes(header, data) + rest);
      && (d == Event(|data|) && 16 + |header| + |data| < 0x1_0000_0000 ==> r == Recognised(Parsed(header, data, d)))
      && (d.Command? && data == [] ==> r == Recognised(Parsed(header, [], d)))
      && (d.Event? && d.length > |data| + |rest| ==> r == Undefined)
  {
    PacketOutcome(parse, header, data, rest);
    StrNCpyFaithful(header);
    assert (data + rest)[..|data|] == data;
  }

  /** Whatever its caller's bytes hold, it refuses them if they are shorter than a prefix, do not begin with the start
      code, or end inside the header of a packet. */
  lemma ShortPacketRefused(parse: Parser, p: seq<byte>)
    ensures |p| < PREFIX_LENGTH || !(START_CODE <= p) ==> ParsePacket(parse, p) == Rejected
    ensures forall h: seq<byte> ::
      |h| <= INT_MAX - PREFIX_LENGTH && p <= Prefix(|h|) + h && |p| < PREFIX_LENGTH + |h| ==>
        ParsePacket(parse, p) == Rejected
  {
    assert START_CODE <= p ==> p[..11] == START_CODE;
    forall h: seq<byte> | |h| <= INT_MAX - PREFIX_LENGTH && p <= Prefix(|h|) + h && |p| < PREFIX_LENGTH + |h|
      ensures ParsePacket(parse, p) == Rejected
    {
      if |p| >= PREFIX_LENGTH {
        var w := Prefix(|h|) + h;
        assert p[11..15] == w[11..15] == Word(|h|);
        WordRoundTrip(|h|);
      }
    }
  }

  /** So it recovers header and data exactly when it understands the C string of the header as announcing
      that much data, and can hold it. */
  lemma PacketRoundTrip(parse: Parser, header: seq<byte>, data: seq<byte>, rest: seq<byte>)
    requires |header| <= INT_MAX
    ensures (exists d :: ParsePacket(parse, PacketBytes(header, data) + rest) == Recognised(Parsed(header, data, d)))
       <==> var d := parse(StrNCpy(header));
            d.Some? && Announced(d.value) == |data| && Holds(|header|, d.value)
    ensures 0 !in header ==>
              var d := parse(header);
              d.Some? && Announced(d.value) == |data| && Holds(|header|, d.value) ==>
                ParsePacket(parse, PacketBytes(header, data) + rest) == Recognised(Parsed(header, data, d.value))
  {
    PacketOutcome(parse, header, data, rest);
    StrNCpyFaithful(header);
    assert (data + rest)[..|data|] == data;
  }

  // ----- the packet object -----

  class NbusPacket {
    const parse: Parser
    var packet: array?<byte>
    var packetLength: nat
    var header: Option<nat>  // offsets into the packet buffer
    var data: Option<nat>
    var headerLength: nat
    var dataLength: nat
    var dataCopied: nat
    var xml: Option<Document>

    constructor (parse: Parser)
      ensures this.parse == parse && packet == null && packetLength == 0
      ensures header == None && data == None && headerLength == 0 && dataLength == 0 && dataCopied == 0 && xml == None
    {
      this.parse := parse;
      packet, packetLength, header, data, headerLength, dataLength, dataCopied := null, 0, None, None, 0, 0, 0;
      xml := None;
    }

    /** A packet under construction: header h is in place, and so is the data copied so far. */
    ghost predicate Building(h: seq<byte>, copied: seq<byte>)
      reads this, packet
    {
      && packet != null && |h| <= INT_MAX && packet.Length == packetLength == PREFIX_LENGTH + |h| + dataLength
      && header == Some(PREFIX_LENGTH) && headerLength == |h| && data == Some(PREFIX_LENGTH + |h|)
      && dataCopied == |copied| <= dataLength
      && packet[..PREFIX_LENGTH + |h| + dataCopied] == PacketBytes(h, copied)
    }

    /** copyHeader: a buffer for the whole packet with everything but the data in place. It writes past that buffer
        if the packet's length wraps around. */
    method CopyHeader(h: seq<byte>) returns (r: int, fault: bool)
      requires |h| <= INT_MAX
      modifies this
      ensures fault <==> parse(StrNCpy(h)).Some? && Wraps(|h|, Announced(parse(StrNCpy(h)).value))
      ensures r == if parse(StrNCpy(h)).None? then -1 else 0
      ensures xml == parse(StrNCpy(h)) && headerLength == |h| && dataCopied == 0
      ensures dataLength == if xml.None? then 0 else Announced(xml.value)
      ensures r == -1 ==> packet == null && packetLength == 0
      ensures r == 0 && !fault ==> fresh(packet) && Building(StrNCpy(h), [])
    {
      packet := null;
      packetLength := 0;
      dataLength := 0;
      dataCopied := 0;
      xml := None;
      var length := PREFIX_LENGTH + |h|;
      headerLength := |h|;
      var pIXml := parse(StrNCpy(h));
      if pIXml.None? {
        return -1, false;
      }
      xml := pIXml;
      if pIXml.value.Event? {
        dataLength := pIXml.value.length;
        length := length + dataLength;
      }
      if length >= WORD_LIMIT {
        return 0, true;
      }
      packet := Headed(length, StrNCpy(h));
      packetLength := length;
      header := Some(PREFIX_LENGTH);
      data := Some(PREFIX_LENGTH + |h|);
      assert packet[..PREFIX_LENGTH + |h|] == PacketBytes(StrNCpy(h), []);
      return 0, false;
    }

    /** Appends one chunk of data; without a header it refuses. */
    method CopyData(chunk: seq<byte>, ghost h: seq<byte>, ghost copied: seq<byte>) returns (r: int)
      requires data.Some? ==> Building(h, copied) && dataCopied + |chunk| <= dataLength
      modifies this`dataCopied, packet
      ensures r == if data.None? then -1 else 0
      ensures r == -1 ==> dataCopied == old(dataCopied)
      ensures r == -1 && packet != null ==> packet[..] == old(if packet == null then [] else packet[..])
      ensures r == 0 ==> Building(h, copied + chunk)
    {
      if data.None? {
        return -1;
      }
      ghost var end := data.value + dataCopied;
      Fill(packet, data.value + dataCopied, chunk);
      dataCopied := dataCopied + |chunk|;
      assert packet[..end + |chunk|] == old(packet[..data.value + dataCopied]) + chunk;
      assert PacketBytes(h, copied) + chunk == PacketBytes(h, copied + chunk);
      r := 0;
    }

    /** Says of a packet under construction whether all of its data is in, and then it is the wire form. */
    method IsCompleted(ghost h: seq<byte>, ghost copied: seq<byte>) returns (b: bool)
      ensures b <==> dataCopied >= dataLength
      ensures Building(h, copied) ==> (b <==> |copied| == dataLength)
      ensures Building(h, copied) && b ==> packet[..] == PacketBytes(h, copied)
    {
      if Building(h, copied) {
        CompletedIsWhole(h, copied);
      }
      b := dataCopied >= dataLength;
    }

    /** A completed packet is exactly the wire form of its header and of all the chunks together. */
    lemma CompletedIsWhole(h: seq<byte>, copied: seq<byte>)
      requires Building(h, copied)
      ensures dataCopied >= dataLength <==> |copied| == dataLength
      ensures dataCopied >= dataLength ==> packet[..] == PacketBytes(h, copied)
    {
      if dataCopied >= dataLength {
        assert packet[..] == packet[..PREFIX_LENGTH + |h| + dataCopied];
      }
    }

    /** parseHeader: takes a buffer for the whole packet, but leaves the length field as it comes. It too writes past
        the buffer if the packet's length wraps around. */
    method ParseHeader(h: seq<byte>) returns (r: int, fault: bool)
      requires |h| <= INT_MAX
      modifies this
      ensures fault <==> parse(h).Some? && Wraps(|h|, Announced(parse(h).value))
      ensures parse(h).None? ==> r == -1 && packet == old(packet) && xml == old(xml)
      ensures parse(h).Some? ==> r == 0 && xml == parse(h) && headerLength == |h|
      ensures parse(h).Some? && !Carries(parse(h).value) ==> packet == old(packet)
      ensures parse(h).Some? && Carries(parse(h).value) ==>
        dataLength == if parse(h).value.Event? then parse(h).value.length else old(dataLength)
      ensures parse(h).Some? && Carries(parse(h).value) && !fault ==>
        && fresh(packet) && packet.Length == packetLength == PREFIX_LENGTH + |h| + Announced(parse(h).value)
        && packet[..11] == START_CODE && header == Some(PREFIX_LENGTH)
        && packet[PREFIX_LENGTH..PREFIX_LENGTH + |h|] == h
        && data == if Announced(parse(h).value) > 0 then Some(PREFIX_LENGTH + |h|) else old(data)
    {
      fault := false;
      var pIXml := parse(h);
      if pIXml.None? {
        return -1, false;
      }
      headerLength := |h|;
      xml := pIXml;
      if Carries(pIXml.value) {
        packetLength := PREFIX_LENGTH + headerLength;
        if pIXml.value.Event? {
          dataLength := pIXml.value.length;
          packetLength := packetLength + dataLength;
        }
        if packetLength >= WORD_LIMIT {
          return 0, true;
        }
        var buff := new byte[packetLength];
        Fill(buff, 0, START_CODE);
        assert buff[..11] == START_CODE;
        header := Some(PREFIX_LENGTH);
        ghost var was := buff[..];
        Fill(buff, PREFIX_LENGTH, h);
        assert buff[..][..PREFIX_LENGTH] == was[..PREFIX_LENGTH] && was[..PREFIX_LENGTH][..11] == was[..11];
        assert buff[..11] == buff[..][..PREFIX_LENGTH][..11];
        assert buff[PREFIX_LENGTH..PREFIX_LENGTH + |h|] == h;
        packet := buff;
        if pIXml.value.Event? && dataLength != 0 {
          data := Some(PREFIX_LENGTH + headerLength);
        }
      }
      r := 0;
    }

    /** parserPacket: a private, NUL-terminated copy of one packet out of the caller's bytes. */
    method ParserPacket(p: seq<byte>) returns (r: int, undefined: bool)
      requires |p| < WORD_LIMIT
      modifies this
      ensures undefined <==> ParsePacket(parse, p) == Undefined
      ensures !undefined ==> r == if ParsePacket(parse, p).Rejected? then -1 else 0
      ensures !undefined && r == -1 ==> packet == old(packet) && xml == old(xml)
      ensures !undefined && r == 0 ==> Adopted(ParsePacket(parse, p).it, old(packet))
      ensures !undefined && r == 0 && Carries(xml.value) ==> fresh(packet)
    {
      var end: int := PREFIX_LENGTH;
      if |p| < end {
        return -1, false;
      }
      if p[..11] != START_CODE {
        return -1, false;
      }
      var headerLengthBytes := IntValue(p[11..15]);
      if headerLengthBytes > INT_MAX - end {
        return -1, true;
      }
      end := end + headerLengthBytes;
      if |p| < Unsigned(end) {
        return -1, false;
      }
      if headerLengthBytes < 0 {
        return -1, true;
      }
      headerLength := headerLengthBytes;
      var pIXml := parse(StrNCpy(p[PREFIX_LENGTH..end]));
      if pIXml.None? {
        return -1, false;
      }
      if TooLong(end, pIXml.value) || |p| < end + Announced(pIXml.value) {
        return -1, true;
      }
      Adopt(p, pIXml.value);
      return 0, false;
    }

    /** The state after parserPacket has recognised `it`. */
    ghost predicate Adopted(it: Parsed, before: array?<byte>)
      reads this, packet
    {
      && xml == Some(it.xml) && headerLength == |it.header| <= INT_MAX
      && (if Carries(it.xml)
          then && packet != null && packet[..] == PacketBytes(it.header, it.data) + [0]
               && packetLength == PREFIX_LENGTH + |it.header| + |it.data| && header == Some(PREFIX_LENGTH)
          else packet == before)
      && (it.xml.Event? ==> dataLength == |it.data| && data == Some(PREFIX_LENGTH + |it.header|))
    }

    method Adopt(p: seq<byte>, d: Document)
      requires |p| >= PREFIX_LENGTH && p[..11] == START_CODE && headerLength == HeaderLength(p) <= INT_MAX
      requires PREFIX_LENGTH + headerLength + Announced(d) <= |p|
      modifies this
      ensures var end := PREFIX_LENGTH + HeaderLength(p);
              Adopted(Parsed(p[PREFIX_LENGTH..end], p[end..end + Announced(d)], d), old(packet))
      ensures Carries(d) ==> fresh(packet)
    {
      WireForm(p, Announced(d));
      var end := PREFIX_LENGTH + headerLength;
      xml := Some(d);
      if d.Event? {
        dataLength := d.length;
        data := Some(end);
        end := end + dataLength;
      }
      if Carries(d) {
        packet := Terminated(p[..end]);
        packetLength := end;
        header := Some(PREFIX_LENGTH);
      }
    }
  }

  /** Bytes with a valid prefix are the wire form of what the prefix delimits. */
  lemma WireForm(p: seq<byte>, n: nat)
    requires |p| >= PREFIX_LENGTH && p[..11] == START_CODE && HeaderLength(p) <= INT_MAX
    requires PREFIX_LENGTH + HeaderLength(p) + n <= |p|
    ensures var end := PREFIX_LENGTH + HeaderLength(p);
            p[..end + n] == PacketBytes(p[PREFIX_LENGTH..end], p[end..end + n])
  {
    var end := PREFIX_LENGTH + HeaderLength(p);
    WordUnique(p[11..15]);
    assert p[..PREFIX_LENGTH] == p[..11] + p[11..15];
    assert p[..end + n] == p[..PREFIX_LENGTH] + p[PREFIX_LENGTH..end] + p[end..end + n];
  }

  /** A buffer of the given length that starts with the start code, the length field and the header. */
  method Headed(length: nat, h: seq<byte>) returns (buff: array<byte>)
    requires |h| <= INT_MAX && length >= PREFIX_LENGTH + |h|
    ensures fresh(buff) && buff.Length == length
    ensures buff[..PREFIX_LENGTH + |h|] == Prefix(|h|) + h
  {
    buff := new byte[length];
    Fill(buff, 0, START_CODE);
    Fill(buff, 11, Word(|h|));
    assert buff[..PREFIX_LENGTH] == Prefix(|h|);
    Fill(buff, PREFIX_LENGTH, h);
  }

  /** A zeroed buffer one byte longer than its contents. */
  method Terminated(bytes: seq<byte>) returns (buff: array<byte>)
    ensures fresh(buff) && buff[..] == bytes + [0]
  {
    buff := new byte[|bytes| + 1](_ => 0);
    Fill(buff, 0, bytes);
  }

  /** memcpy into a buffer. */
  method Fill(buff: array<byte>, off: nat, bytes: seq<byte>)
    requires off + |bytes| <= buff.Length
    modifies buff
    ensures buff[..] == old(buff[..off]) + bytes + old(buff[off + |bytes|..])
  {
    ghost var was := buff[..];
    forall i | off <= i < off + |bytes| { buff[i] := bytes[i - off]; }
    Spliced(was, buff[..], off, bytes);
  }

  function Flatten(chunks: seq<seq<byte>>): (r: seq<byte>) {
    if chunks == [] then [] else Flatten(chunks[..|chunks| - 1]) + chunks[|chunks| - 1]
  }

  lemma {:induction false} FlattenPrefix(chunks: seq<seq<byte>>, k: nat)
    requires k <= |chunks|
    ensures |Flatten(chunks[..k])| <= |Flatten(chunks)|
    ensures k < |chunks| ==> Flatten(chunks[..k + 1]) == Flatten(chunks[..k]) + chunks[k]
    decreases |chunks|
  {
    if k < |chunks| {
      assert chunks[..k + 1][..k] == chunks[..k];
      if k + 1 < |chunks| {
        FlattenPrefix(chunks[..|chunks| - 1], k);
        assert chunks[..|chunks| - 1][..k] == chunks[..k];
      } else {
        assert chunks[..k + 1] == chunks;
      }
    } else {
      assert chunks[..k] == chunks;
    }
  }

  /** A sender that adds its data in any chunks, and a receiver that parses what came out. Between them they run
      into a size that overflows exactly if the receiver cannot hold the packet. */
  method SendInChunks(parse: Parser, h: seq<byte>, chunks: seq<seq<byte>>)
      returns (sender: NbusPacket, receiver: NbusPacket, fault: bool)
    requires |h| <= INT_MAX && 0 !in h
    requires parse(h).Some? && |Flatten(chunks)| == Announced(parse(h).value)
    ensures fault <==> !Holds(|h|, parse(h).value)
    ensures !fault ==> sender.packet != null && sender.packet[..] == PacketBytes(h, Flatten(chunks))
    ensures !fault ==> sender.dataCopied >= sender.dataLength
    ensures !fault ==> receiver.headerLength == |h| && receiver.xml == parse(h)
    ensures !fault && Carries(parse(h).value) ==>
      && receiver.packet != null && receiver.packet[..] == sender.packet[..] + [0]
      && receiver.packetLength == sender.packetLength
    ensures !fault && !Carries(parse(h).value) ==> receiver.packet == null
    ensures !fault && parse(h).value.Event? ==> receiver.dataLength == |Flatten(chunks)|
  {
    StrNCpyFaithful(h);
    sender := new NbusPacket(parse);
    receiver := new NbusPacket(parse);
    var r;
    r, fault := sender.CopyHeader(h);
    if fault {
      return;
    }
    for i := 0 to |chunks|
      invariant fresh(sender) && fresh(sender.packet) && sender.Building(h, Flatten(chunks[..i]))
      invariant receiver.packet == null && receiver != sender
      invariant sender.dataLength == |Flatten(chunks)|
      invariant i < |chunks| ==> |Flatten(chunks[..i])| <= sender.dataLength
    {
      FlattenPrefix(chunks, i);
      FlattenPrefix(chunks, i + 1);
      var _ := sender.CopyData(chunks[i], h, Flatten(chunks[..i]));
    }
    assert chunks[..|chunks|] == chunks;
    sender.CompletedIsWhole(h, Flatten(chunks));
    WholeOutcome(parse, h, Flatten(chunks));
    r, fault := receiver.ParserPacket(sender.packet[..]);
  }

  lemma WholeOutcome(parse: Parser, h: seq<byte>, data: seq<byte>)
    requires |h| <= INT_MAX && 0 !in h && parse(h).Some? && |data| == Announced(parse(h).value)
    ensures ParsePacket(parse, PacketBytes(h, data))
      == if Holds(|h|, parse(h).value) then Recognised(Parsed(h, data, parse(h).value)) else Undefined
  {
    StrNCpyFaithful(h);
    PacketOutcome(parse, h, data, []);
    assert PacketBytes(h, data) + [] == PacketBytes(h, data) && data + [] == data;
  }
}
