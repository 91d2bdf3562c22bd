/** IPv4 datagrams (libsponge/tcp_helpers/ipv4_header.cc, ipv4_datagram.cc), section 3.1 of RFC 791. */
module Ipv4 {
  import opened Prelude
  import opened NetParsers
  import opened InternetChecksums
  import opened TcpSegments
  import opened TcpWire

  datatype Ipv4Header = Ipv4Header(ver: Byte, hlen: Byte, tos: Byte, len: U16, id: U16, df: bool, mf: bool,
                                   offset: U16, ttl: Byte, proto: Byte, cksum: U16, src: U32, dst: U32)
  {
    /** Unsigned 16-bit difference. */
    function PayloadLength(): U16 {
      (len - 4 * hlen) % 0x1_0000
    }

    /** The pseudo-header's contribution to the TCP checksum. */
    function PseudoChecksum(): (sum: U32)
      ensures sum < 0x100_0000
    {
      src / 0x1_0000 + src % 0x1_0000 + (dst / 0x1_0000 + dst % 0x1_0000) + proto + PayloadLength()
    }
  }

  const DEFAULT_IPV4: Ipv4Header := Ipv4Header(4, 5, 0, 0, 0, true, false, 0, 128, 6, 0, 0, 0)

  datatype Ipv4Datagram = Ipv4Datagram(header: Ipv4Header, payload: Bytes)

  // ---------------------------------------------------------------- the header

  function FirstByte(h: Ipv4Header): Byte {
    (h.ver * 16 + h.hlen % 16) % 256
  }

  function FragmentField(h: Ipv4Header): U16 {
    Bit(h.df, 0x4000) + Bit(h.mf, 0x2000) + h.offset % 0x2000
  }

  const IPV4_WIDTHS: seq<nat> := [1, 1, 2, 2, 2, 1, 1, 2, 4, 4]

  function Ipv4Values(h: Ipv4Header): seq<nat> {
    [FirstByte(h), h.tos, h.len, h.id, FragmentField(h), h.ttl, h.proto, h.cksum, h.src, h.dst]
  }

  function Ipv4Pieces(h: Ipv4Header): seq<Bytes> {
    [Unparse(FirstByte(h), 1), Unparse(h.tos, 1), Unparse(h.len, 2), Unparse(h.id, 2), Unparse(FragmentField(h), 2),
     Unparse(h.ttl, 1), Unparse(h.proto, 1), Unparse(h.cksum, 2), Unparse(h.src, 4), Unparse(h.dst, 4)]
  }

  function Ipv4Bytes(h: Ipv4Header): Bytes {
    Flatten(Ipv4Pieces(h))
  }

  /** Where the source throws, for another version or a short header, there is no serialization. */
  function SerializeIpv4Header(h: Ipv4Header): Option<Bytes> {
    if h.ver != 4 || 4 * h.hlen < 20 then None else Some(Ipv4Bytes(h) + Zeros(4 * h.hlen - 20))
  }

  datatype ParsedIpv4 = ParsedIpv4(header: Ipv4Header, result: ParseResult, rest: Parser)

  function AfterIpv4(p: Parser): Parser {
    p.Skip(1).Skip(1).Skip(2).Skip(2).Skip(2).Skip(1).Skip(1).Skip(2).Skip(4).Skip(4)
  }

  function ParseIpv4Fields(p: Parser): Ipv4Header {
    var p1 := p.Skip(1);
    var p2 := p1.Skip(1);
    var p3 := p2.Skip(2);
    var p4 := p3.Skip(2);
    var p5 := p4.Skip(2);
    var p6 := p5.Skip(1);
    var p7 := p6.Skip(1);
    var p8 := p7.Skip(2);
    var p9 := p8.Skip(4);
    var fo := U16At(p4);
    Ipv4Header(ByteAt(p) / 16, ByteAt(p) % 16, ByteAt(p1), U16At(p2), U16At(p3), fo / 0x4000 % 2 == 1,
               fo / 0x2000 % 2 == 1, fo % 0x2000, ByteAt(p5), ByteAt(p6), U16At(p7), U32At(p8), U32At(p9))
  }

  /** The checks in the source's order. Only after all of them are options skipped and the checksum looked at. */
  function ParseIpv4Header(h0: Ipv4Header, p: Parser): ParsedIpv4 {
    var size := |p.buffer|;
    if size < 20 then ParsedIpv4(h0, PacketTooShort, p)
    else
      var h := ParseIpv4Fields(p);
      var p1 := AfterIpv4(p);
      if size < 4 * h.hlen then ParsedIpv4(h, PacketTooShort, p1)
      else if h.ver != 4 then ParsedIpv4(h, WrongIPVersion, p1)
      else if h.hlen < 5 then ParsedIpv4(h, HeaderTooShort, p1)
      else if size != h.len then ParsedIpv4(h, TruncatedPacket, p1)
      else
        var p2 := p1.Skip(4 * h.hlen - 20);
        if p2.error != NoError then ParsedIpv4(h, p2.error, p2)
        else if Checksum(0, p.buffer[..4 * h.hlen]) != 0 then ParsedIpv4(h, BadChecksum, p2)
        else ParsedIpv4(h, NoError, p2)
  }

  /** Field values that the wire can carry. */
  predicate Representable(h: Ipv4Header) {
    h.ver == 4 && 5 <= h.hlen < 16 && h.offset < 0x2000
  }

  lemma {:induction false} FirstByteRoundTrip(h: Ipv4Header)
    requires Representable(h)
    ensures FirstByte(h) / 16 == h.ver && FirstByte(h) % 16 == h.hlen
  {
  }

  lemma {:induction false} FragmentRoundTrip(h: Ipv4Header)
    requires Representable(h)
    ensures FragmentField(h) / 0x4000 % 2 == 1 <==> h.df
    ensures FragmentField(h) / 0x2000 % 2 == 1 <==> h.mf
    ensures FragmentField(h) % 0x2000 == h.offset
  {
    var f := FragmentField(h);
    assert f == h.offset + (if h.df then 0x4000 else 0) + (if h.mf then 0x2000 else 0);
  }

  lemma {:induction false} Ipv4ChainParses(h: Ipv4Header, p: seq<Parser>)
    requires Representable(h) && Chain(p, IPV4_WIDTHS, Ipv4Values(h))
    ensures ParseIpv4Fields(p[0]) == h && AfterIpv4(p[0]) == p[10]
  {
    FirstByteRoundTrip(h);
    FragmentRoundTrip(h);
    assert p[0].Skip(1) == p[1] && p[1].Skip(1) == p[2] && p[2].Skip(2) == p[3] && p[3].Skip(2) == p[4];
    assert p[4].Skip(2) == p[5] && p[5].Skip(1) == p[6] && p[6].Skip(1) == p[7] && p[7].Skip(2) == p[8];
    assert p[8].Skip(4) == p[9] && p[9].Skip(4) == p[10];
  }

  lemma {:induction false} Ipv4PiecesEncode(h: Ipv4Header)
    ensures EncodesAll(Ipv4Pieces(h), IPV4_WIDTHS, Ipv4Values(h))
  {
    ByteEncodes(FirstByte(h));
    ByteEncodes(h.tos);
    U16Encodes(h.len);
    U16Encodes(h.id);
    U16Encodes(FragmentField(h));
    ByteEncodes(h.ttl);
    ByteEncodes(h.proto);
    U16Encodes(h.cksum);
    U32Encodes(h.src);
    U32Encodes(h.dst);
  }

  lemma {:induction false} Ipv4FieldsRoundTrip(h: Ipv4Header, rest: Bytes)
    requires Representable(h)
    ensures ParseIpv4Fields(Parser(Ipv4Bytes(h) + rest, NoError)) == h
    ensures AfterIpv4(Parser(Ipv4Bytes(h) + rest, NoError)) == Parser(rest, NoError)
  {
    Ipv4PiecesEncode(h);
    var p := ReadBack(Ipv4Pieces(h), IPV4_WIDTHS, Ipv4Values(h), rest);
    Ipv4ChainParses(h, p);
  }

  // ---------------------------------------------------------------- the header checksum

  function Ipv4Front(h: Ipv4Header): Bytes {
    Flatten(Ipv4Pieces(h)[..7])
  }

  function Ipv4Tail(h: Ipv4Header): Bytes {
    Unparse(h.src, 4) + Unparse(h.dst, 4)
  }

  lemma {:induction false} Ipv4FrontLength(h: Ipv4Header)
    ensures |Ipv4Front(h)| == 10
  {
    var pieces := Ipv4Pieces(h);
    FlattenSnoc(pieces, 0);
    FlattenSnoc(pieces, 1);
    FlattenSnoc(pieces, 2);
    FlattenSnoc(pieces, 3);
    FlattenSnoc(pieces, 4);
    FlattenSnoc(pieces, 5);
    FlattenSnoc(pieces, 6);
  }

  lemma {:induction false} Ipv4Splits(h: Ipv4Header)
    ensures Ipv4Bytes(h) == Ipv4Front(h) + (Unparse(h.cksum, 2) + Ipv4Tail(h))
  {
    var pieces := Ipv4Pieces(h);
    assert pieces == pieces[..7] + pieces[7..];
    FlattenAppend(pieces[..7], pieces[7..]);
    assert pieces[7..] == [Unparse(h.cksum, 2), Unparse(h.src, 4), Unparse(h.dst, 4)];
    assert pieces[7..][1..] == [Unparse(h.src, 4), Unparse(h.dst, 4)];
    assert [Unparse(h.src, 4), Unparse(h.dst, 4)][1..] == [Unparse(h.dst, 4)];
    assert Flatten([Unparse(h.dst, 4)]) == Unparse(h.dst, 4);
  }

  lemma {:induction false} Ipv4ChecksumAdds(h: Ipv4Header, c: U16, rest: Bytes)
    ensures SumBytes(Ipv4Bytes(h.(cksum := c)) + rest, false)
         == SumBytes(Ipv4Bytes(h.(cksum := 0)) + rest, false) + c
  {
    var h1, h0 := h.(cksum := c), h.(cksum := 0);
    Ipv4Splits(h1);
    Ipv4Splits(h0);
    Ipv4FrontLength(h0);
    assert Ipv4Pieces(h1)[..7] == Ipv4Pieces(h0)[..7];
    ChecksumField(Ipv4Front(h0), c, Ipv4Tail(h), rest);
  }

  lemma {:induction false} Ipv4Length(h: Ipv4Header)
    requires h.ver == 4 && h.hlen >= 5
    ensures |Ipv4Bytes(h)| == 20 && |SerializeIpv4Header(h).value| == 4 * h.hlen
  {
    Ipv4Splits(h);
    Ipv4FrontLength(h);
  }

  lemma {:induction false} Ipv4HeaderChecksOut(h: Ipv4Header)
    requires Representable(h)
    ensures var plain := SerializeIpv4Header(h.(cksum := 0)).value;
            Checksum(0, SerializeIpv4Header(h.(cksum := Checksum(0, plain))).value) == 0
  {
    var plain := SerializeIpv4Header(h.(cksum := 0)).value;
    var c := Checksum(0, plain);
    Ipv4Length(h.(cksum := 0));
    Ipv4Length(h.(cksum := c));
    Ipv4ChecksumAdds(h, c, Zeros(4 * h.hlen - 20));
    FilledChecksOut(0, plain, SerializeIpv4Header(h.(cksum := c)).value);
  }

  // ---------------------------------------------------------------- the datagram

  /** No serialization where the source throws: a payload of the wrong size, or a header it refuses. */
  function SerializeDatagram(d: Ipv4Datagram): Option<Bytes> {
    var plain := SerializeIpv4Header(d.header.(cksum := 0));
    if |d.payload| != d.header.PayloadLength() || plain.None? then None
    else Some(SerializeIpv4Header(d.header.(cksum := Checksum(0, plain.value))).value + d.payload)
  }

  datatype ParsedDatagram = ParsedDatagram(datagram: Ipv4Datagram, result: ParseResult)

  /** Only the payload's size and the parser's own error decide; what the header parser returns is not looked at. */
  function ParseDatagram(data: Bytes): ParsedDatagram {
    var parsed := ParseIpv4Header(DEFAULT_IPV4, Parser(data, NoError));
    var d := Ipv4Datagram(parsed.header, parsed.rest.buffer);
    ParsedDatagram(d, if |d.payload| != d.header.PayloadLength() then PacketTooShort else parsed.rest.error)
  }

  /** The header fits the payload: what `serialize` demands of a datagram that the wire can carry. */
  predicate WellSized(h: Ipv4Header, payload: Bytes) {
    Representable(h) && h.len == 4 * h.hlen + |payload|
  }

  lemma {:induction false} WireFields(h: Ipv4Header, payload: Bytes)
    requires Representable(h)
    ensures var wire := SerializeIpv4Header(h).value + payload;
            && |wire| == 4 * h.hlen + |payload| && wire[..4 * h.hlen] == SerializeIpv4Header(h).value
            && ParseIpv4Fields(Parser(wire, NoError)) == h
            && AfterIpv4(Parser(wire, NoError)).Skip(4 * h.hlen - 20) == Parser(payload, NoError)
  {
    var pad := Zeros(4 * h.hlen - 20);
    Ipv4Length(h);
    SeqAssoc(Ipv4Bytes(h), pad, payload);
    Ipv4FieldsRoundTrip(h, pad + payload);
    assert (pad + payload)[4 * h.hlen - 20..] == payload;
  }

  lemma {:induction false} HeaderJudged(h: Ipv4Header, payload: Bytes)
    requires WellSized(h, payload)
    ensures ParseIpv4Header(DEFAULT_IPV4, Parser(SerializeIpv4Header(h).value + payload, NoError))
         == ParsedIpv4(h, if Checksum(0, SerializeIpv4Header(h).value) == 0 then NoError else BadChecksum,
                       Parser(payload, NoError))
  {
    WireFields(h, payload);
  }

  /** A header with any checksum at all: the header parser judges it, the datagram parser takes it either way. */
  lemma {:induction false} AnyChecksumAccepted(h: Ipv4Header, payload: Bytes)
    requires WellSized(h, payload)
    ensures var wire := SerializeIpv4Header(h).value + payload;
            && ParseDatagram(wire) == ParsedDatagram(Ipv4Datagram(h, payload), NoError)
            && ParseIpv4Header(DEFAULT_IPV4, Parser(wire, NoError)).result
            == if Checksum(0, SerializeIpv4Header(h).value) == 0 then NoError else BadChecksum
  {
    HeaderJudged(h, payload);
    PayloadLengthExact(h, payload);
  }

  lemma {:induction false} PayloadLengthExact(h: Ipv4Header, payload: Bytes)
    requires WellSized(h, payload)
    ensures h.PayloadLength() == |payload|
  {
  }

  /** A serialized datagram comes back as it was, with its checksum filled in, and its header checks out. */
  lemma {:induction false} DatagramRoundTrip(d: Ipv4Datagram)
    requires WellSized(d.header, d.payload)
    ensures SerializeDatagram(d).Some?
    ensures var wire := SerializeDatagram(d).value;
            var c := Checksum(0, SerializeIpv4Header(d.header.(cksum := 0)).value);
            && ParseDatagram(wire) == ParsedDatagram(d.(header := d.header.(cksum := c)), NoError)
            && ParseIpv4Header(DEFAULT_IPV4, Parser(wire, NoError)).result == NoError
  {
    var c := Checksum(0, SerializeIpv4Header(d.header.(cksum := 0)).value);
    Ipv4HeaderChecksOut(d.header);
    AnyChecksumAccepted(d.header.(cksum := c), d.payload);
  }

  lemma {:induction false} AfterTwenty(data: Bytes)
    requires |data| >= 20
    ensures AfterIpv4(Parser(data, NoError)) == Parser(data[20..], NoError)
  {
    assert data[1..][1..] == data[2..] && data[2..][2..] == data[4..] && data[4..][2..] == data[6..];
    assert data[6..][2..] == data[8..] && data[8..][1..] == data[9..] && data[9..][1..] == data[10..];
    assert data[10..][2..] == data[12..] && data[12..][4..] == data[16..] && data[16..][4..] == data[20..];
  }

  /** What the header parser asks for before it looks at the checksum. */
  predicate HeaderFine(h: Ipv4Header, size: nat) {
    h.ver == 4 && h.hlen >= 5 && 4 * h.hlen <= size == h.len
  }

  lemma {:induction false} FineLength(h: Ipv4Header, size: nat)
    requires HeaderFine(h, size)
    ensures h.PayloadLength() == size - 4 * h.hlen
  {
  }

  lemma {:induction false} LeftByHeader(data: Bytes)
    requires |data| >= 20
    ensures var h := ParseIpv4Fields(Parser(data, NoError));
            var parsed := ParseIpv4Header(DEFAULT_IPV4, Parser(data, NoError));
            && parsed.header == h
            && parsed.rest == Parser(if HeaderFine(h, |data|) then data[4 * h.hlen..] else data[20..], NoError)
  {
    AfterTwenty(data);
    var h := ParseIpv4Fields(Parser(data, NoError));
    if HeaderFine(h, |data|) {
      assert data[20..][4 * h.hlen - 20..] == data[4 * h.hlen..];
    }
  }

  /** Exactly which bytes the datagram parser accepts: sizes that agree, whatever version and checksum say. */
  lemma {:induction false} DatagramAcceptedIff(data: Bytes)
    ensures ParseDatagram(data).result == NoError <==>
              && |data| >= 20
              && var h := ParseIpv4Fields(Parser(data, NoError));
                 HeaderFine(h, |data|) || |data| - 20 == h.PayloadLength()
  {
    if |data| >= 20 {
      LeftByHeader(data);
      var h := ParseIpv4Fields(Parser(data, NoError));
      if HeaderFine(h, |data|) {
        FineLength(h, |data|);
      }
    }
  }

  /** A TCP segment in the payload of a datagram with header `h`, on the wire. */
  function SendTcp(h: Ipv4Header, seg: TcpSegment): Option<Bytes> {
    var payload := SerializeSegment(seg, h.PseudoChecksum());
    if payload.None? then None else SerializeDatagram(Ipv4Datagram(h, payload.value))
  }

  /** The segment in a datagram off the wire, if both layers accept. */
  function ReceiveTcp(wire: Bytes): Option<TcpSegment> {
    var d := ParseDatagram(wire);
    if d.result != NoError then None
    else
      var parsed := ParseSegment(d.datagram.payload, d.datagram.header.PseudoChecksum());
      if parsed.result != NoError then None else parsed.segment
  }

  /** A TCP segment sent in an IPv4 datagram arrives as it was. */
  lemma {:induction false} TcpOverIpv4RoundTrip(h: Ipv4Header, seg: TcpSegment)
    requires Representable(h) && 5 <= seg.header.doff < 16
    requires h.len == 4 * h.hlen + 4 * seg.header.doff + |seg.payload|
    ensures SendTcp(h, seg).Some?
    ensures ReceiveTcp(SendTcp(h, seg).value)
         == Some(seg.(header := seg.header.(cksum := FilledChecksum(seg, h.PseudoChecksum()))))
  {
    var pseudo := h.PseudoChecksum();
    var payload := SerializeSegment(seg, pseudo).value;
    SegmentRoundTrip(seg, pseudo);
    SegmentLength(seg, pseudo);
    DatagramRoundTrip(Ipv4Datagram(h, payload));
    PseudoIgnoresChecksum(h, Checksum(0, SerializeIpv4Header(h.(cksum := 0)).value));
  }

  lemma {:induction false} PseudoIgnoresChecksum(h: Ipv4Header, c: U16)
    ensures h.(cksum := c).PseudoChecksum() == h.PseudoChecksum()
  {
    assert h.(cksum := c).PayloadLength() == h.PayloadLength();
  }

  lemma {:induction false} SegmentLength(seg: TcpSegment, pseudo: U32)
    requires seg.header.doff >= 5
    ensures |SerializeSegment(seg, pseudo).value| == 4 * seg.header.doff + |seg.payload|
  {
    SerializedLength(
      seg.header.(cksum := Checksum(pseudo, SerializeHeader(seg.header.(cksum := 0)).value + seg.payload)));
  }

  // ---------------------------------------------------------------- as the source runs it

  method SerializeIpv4Front(h: Ipv4Header) returns (s: Bytes)
    ensures s == Flatten(Ipv4Pieces(h)[..4])
  {
    ghost var pieces := Ipv4Pieces(h);
    s := AppendPiece([], FirstByte(h), 1, pieces, 0);
    s := AppendPiece(s, h.tos, 1, pieces, 1);
    s := AppendPiece(s, h.len, 2, pieces, 2);
    s := AppendPiece(s, h.id, 2, pieces, 3);
  }

  method SerializeHeaderBytes(h: Ipv4Header) returns (ret: Option<Bytes>)
    ensures ret == SerializeIpv4Header(h)
  {
    if h.ver != 4 {
      return None;
    }
    if 4 * h.hlen < 20 {
      return None;
    }
    ghost var pieces := Ipv4Pieces(h);
    var s := SerializeIpv4Front(h);
    s := AppendPiece(s, FragmentField(h), 2, pieces, 4);
    s := AppendPiece(s, h.ttl, 1, pieces, 5);
    s := AppendPiece(s, h.proto, 1, pieces, 6);
    s := AppendPiece(s, h.cksum, 2, pieces, 7);
    s := AppendPiece(s, h.src, 4, pieces, 8);
    s := AppendPiece(s, h.dst, 4, pieces, 9);
    assert pieces[..10] == pieces;
    ret := Some(s + Zeros(4 * h.hlen - 20));
  }

  method ReadFields(p: NetParser) returns (h: Ipv4Header)
    modifies p
    ensures h == ParseIpv4Fields(old(p.View())) && p.View() == AfterIpv4(old(p.View()))
  {
    var first := p.U8();
    var tos := p.U8();
    var len := p.U16();
    var id := p.U16();
    var fo := p.U16();
    var ttl := p.U8();
    var proto := p.U8();
    var cksum := p.U16();
    var src := p.U32();
    var dst := p.U32();
    h := Ipv4Header(first / 16, first % 16, tos, len, id, fo / 0x4000 % 2 == 1, fo / 0x2000 % 2 == 1, fo % 0x2000,
                    ttl, proto, cksum, src, dst);
  }

  method SkipOptionsAndCheck(original: Bytes, n: nat, p: NetParser) returns (result: ParseResult)
    requires 20 <= n <= |original|
    modifies p
    ensures p.View() == old(p.View()).Skip(n - 20)
    ensures result == if p.error != NoError then p.error
                      else if Checksum(0, original[..n]) != 0 then BadChecksum else NoError
  {
    p.RemovePrefix(n - 20);
    result := p.error;
    if result != NoError {
      return;
    }
    var check := ChecksumOfParts(0, original[..n], []);
    assert original[..n] + [] == original[..n];
    if check != 0 {
      result := BadChecksum;
    }
  }

  method ParseHeaderBytes(h0: Ipv4Header, p: NetParser) returns (h: Ipv4Header, result: ParseResult)
    modifies p
    ensures ParsedIpv4(h, result, p.View()) == ParseIpv4Header(h0, old(p.View()))
  {
    var original := p.buffer;
    var size := |p.buffer|;
    if size < 20 {
      return h0, PacketTooShort;
    }
    h := ReadFields(p);
    if size < 4 * h.hlen {
      return h, PacketTooShort;
    }
    if h.ver != 4 {
      return h, WrongIPVersion;
    }
    if h.hlen < 5 {
      return h, HeaderTooShort;
    }
    if size != h.len {
      return h, TruncatedPacket;
    }
    result := SkipOptionsAndCheck(original, 4 * h.hlen, p);
  }

  method ParseIpv4Datagram(data: Bytes) returns (d: Ipv4Datagram, result: ParseResult)
    ensures ParsedDatagram(d, result) == ParseDatagram(data)
  {
    var p := new NetParser(data);
    var h, _ := ParseHeaderBytes(DEFAULT_IPV4, p);
    d := Ipv4Datagram(h, p.buffer);
    if |d.payload| != h.PayloadLength() {
      return d, PacketTooShort;
    }
    return d, p.error;
  }

  method SerializeIpv4Datagram(d: Ipv4Datagram) returns (ret: Option<Bytes>)
    ensures ret == SerializeDatagram(d)
  {
    if |d.payload| != d.header.PayloadLength() {
      return None;
    }
    var plain := SerializeHeaderBytes(d.header.(cksum := 0));
    if plain.None? {
      return None;
    }
    var cksum := ChecksumOfParts(0, plain.value, []);
    assert plain.value + [] == plain.value;
    var header := SerializeHeaderBytes(d.header.(cksum := cksum));
    ret := Some(header.value + d.payload);
  }
}
