/** TCP segments on the wire (libsponge/tcp_helpers/tcp_header.cc, tcp_segment.cc), section 3.1 of RFC 793. */
module TcpWire {
  import opened Prelude
  import opened NetParsers
  import opened InternetChecksums
  import opened TcpSegments

  // ---------------------------------------------------------------- the header

  function Bit(b: bool, weight: nat): nat {
    if b then weight else 0
  }

  function FlagByte(h: TcpHeader): Byte {
    Bit(h.urg, 32) + Bit(h.ack, 16) + Bit(h.psh, 8) + Bit(h.rst, 4) + Bit(h.syn, 2) + Bit(h.fin, 1)
  }

  /** A bit of a byte, as a mask test sees it. */
  predicate HasBit(b: Byte, weight: nat)
    requires weight > 0
  {
    b / weight % 2 == 1
  }

  const WIDTHS: seq<nat> := [2, 2, 4, 4, 1, 1, 2, 2, 2]

  function FieldValues(h: TcpHeader): seq<nat> {
    [h.sport, h.dport, h.seqno, h.ackno, h.doff * 16 % 256, FlagByte(h), h.win, h.cksum, h.uptr]
  }

  function HeaderPieces(h: TcpHeader): seq<Bytes> {
    [Unparse(h.sport, 2), Unparse(h.dport, 2), Unparse(h.seqno, 4), Unparse(h.ackno, 4),
     Unparse(h.doff * 16 % 256, 1), Unparse(FlagByte(h), 1), Unparse(h.win, 2), Unparse(h.cksum, 2),
     Unparse(h.uptr, 2)]
  }

  /** The twenty bytes of a header without options. */
  function HeaderBytes(h: TcpHeader): Bytes {
    Flatten(HeaderPieces(h))
  }

  function Zeros(n: nat): Bytes {
    seq(n, _ => 0)
  }

  /** Where the source throws for a `doff` below five, there is no serialization. */
  function SerializeHeader(h: TcpHeader): Option<Bytes> {
    if h.doff < 5 then None else Some(HeaderBytes(h) + Zeros(4 * h.doff - 20))
  }

  datatype ParsedHeader = ParsedHeader(header: TcpHeader, result: ParseResult, rest: Parser)

  /** The parser after the seven fields before the checksum. */
  function AfterFront(p: Parser): Parser {
    p.Skip(2).Skip(2).Skip(4).Skip(4).Skip(1).Skip(1).Skip(2)
  }

  function ParseFields(p: Parser): TcpHeader {
    var p1 := p.Skip(2);
    var p2 := p1.Skip(2);
    var p3 := p2.Skip(4);
    var p4 := p3.Skip(4);
    var p5 := p4.Skip(1);
    var p6 := p5.Skip(1);
    var p7 := p6.Skip(2);
    var p8 := p7.Skip(2);
    var fl := ByteAt(p5);
    TcpHeader(U16At(p), U16At(p1), U32At(p2), U32At(p3), ByteAt(p4) / 16, HasBit(fl, 32), HasBit(fl, 16),
              HasBit(fl, 8), HasBit(fl, 4), HasBit(fl, 2), HasBit(fl, 1), U16At(p6), U16At(p7), U16At(p8))
  }

  function ParseHeader(p: Parser): ParsedHeader {
    var h := ParseFields(p);
    var p9 := AfterFront(p).Skip(2).Skip(2);
    if h.doff < 5 then ParsedHeader(h, HeaderTooShort, p9)
    else
      var p10 := p9.Skip(4 * h.doff - 20);
      ParsedHeader(h, p10.error, p10)
  }

  lemma {:induction false} FlagsRoundTrip(h: TcpHeader)
    ensures var fl := FlagByte(h);
            && HasBit(fl, 32) == h.urg && HasBit(fl, 16) == h.ack && HasBit(fl, 8) == h.psh
            && HasBit(fl, 4) == h.rst && HasBit(fl, 2) == h.syn && HasBit(fl, 1) == h.fin
  {
  }

  lemma {:induction false} ChainParses(h: TcpHeader, p: seq<Parser>)
    requires h.doff < 16 && Chain(p, WIDTHS, FieldValues(h))
    ensures ParseFields(p[0]) == h && AfterFront(p[0]).Skip(2).Skip(2) == p[9]
  {
    FlagsRoundTrip(h);
    assert p[0].Skip(2) == p[1] && p[1].Skip(2) == p[2] && p[2].Skip(4) == p[3] && p[3].Skip(4) == p[4];
    assert p[4].Skip(1) == p[5] && p[5].Skip(1) == p[6] && p[6].Skip(2) == p[7] && p[7].Skip(2) == p[8];
    assert p[8].Skip(2) == p[9];
  }

  lemma {:induction false} PiecesEncode(h: TcpHeader)
    ensures EncodesAll(HeaderPieces(h), WIDTHS, FieldValues(h))
  {
    U16Encodes(h.sport);
    U16Encodes(h.dport);
    U32Encodes(h.seqno);
    U32Encodes(h.ackno);
    ByteEncodes(h.doff * 16 % 256);
    ByteEncodes(FlagByte(h));
    U16Encodes(h.win);
    U16Encodes(h.cksum);
    U16Encodes(h.uptr);
  }

  lemma {:induction false} FieldsRoundTrip(h: TcpHeader, rest: Bytes)
    requires h.doff < 16
    ensures ParseFields(Parser(HeaderBytes(h) + rest, NoError)) == h
    ensures AfterFront(Parser(HeaderBytes(h) + rest, NoError)).Skip(2).Skip(2) == Parser(rest, NoError)
  {
    PiecesEncode(h);
    var p := ReadBack(HeaderPieces(h), WIDTHS, FieldValues(h), rest);
    ChainParses(h, p);
  }

  /** Every header with a `doff` of 5 to 15 survives the wire, and leaves exactly what followed it. */
  lemma {:induction false} HeaderRoundTrip(h: TcpHeader, rest: Bytes)
    requires 5 <= h.doff < 16
    ensures ParseHeader(Parser(SerializeHeader(h).value + rest, NoError))
         == ParsedHeader(h, NoError, Parser(rest, NoError))
  {
    var pad := Zeros(4 * h.doff - 20);
    SeqAssoc(HeaderBytes(h), pad, rest);
    FieldsRoundTrip(h, pad + rest);
    assert (pad + rest)[4 * h.doff - 20..] == rest;
  }

  // ---------------------------------------------------------------- the segment

  /** The checksum covers pseudo-header, header with a zero checksum, and payload. */
  function SerializeSegment(seg: TcpSegment, pseudo: U32): Option<Bytes> {
    var plain := SerializeHeader(seg.header.(cksum := 0));
    if plain.None? then None
    else
      var cksum := Checksum(pseudo, plain.value + seg.payload);
      Some(SerializeHeader(seg.header.(cksum := cksum)).value + seg.payload)
  }

  datatype ParsedSegment = ParsedSegment(segment: Option<TcpSegment>, result: ParseResult)

  /** Only the checksum and the parser's own error decide; what the header parser returns is not looked at. */
  function ParseSegment(data: Bytes, pseudo: U32): ParsedSegment {
    if Checksum(pseudo, data) != 0 then ParsedSegment(None, BadChecksum)
    else
      var parsed := ParseHeader(Parser(data, NoError));
      ParsedSegment(Some(TcpSegment(parsed.header, parsed.rest.buffer)), parsed.rest.error)
  }

  /** Nine fields take twenty bytes; fewer leave the parser in error. */
  lemma {:induction false} AfterNine(data: Bytes)
    ensures var p := AfterFront(Parser(data, NoError)).Skip(2).Skip(2);
            if |data| >= 20 then p == Parser(data[20..], NoError) else p.error != NoError
  {
    if |data| >= 20 {
      assert data[2..][2..] == data[4..] && data[4..][4..] == data[8..] && data[8..][4..] == data[12..];
      assert data[12..][1..] == data[13..] && data[13..][1..] == data[14..] && data[14..][2..] == data[16..];
      assert data[16..][2..] == data[18..] && data[18..][2..] == data[20..];
    }
  }

  /** Exactly which bytes the segment parser accepts: a header that claims to be too short is one of them. */
  lemma {:induction false} SegmentAcceptedIff(data: Bytes, pseudo: U32)
    ensures ParseSegment(data, pseudo).result == NoError <==>
              && Checksum(pseudo, data) == 0 && |data| >= 20
              && var h := ParseFields(Parser(data, NoError)); h.doff < 5 || 4 * h.doff <= |data|
  {
    AfterNine(data);
    var p := Parser(data, NoError);
    assert ParseHeader(p).header == ParseFields(p);
  }

  /** It does accept one: twenty bytes that check out, with a `doff` of zero. */
  lemma {:induction false} ShortHeaderAccepted(data: Bytes)
    requires data == [255, 255] + Zeros(18)
    ensures ParseSegment(data, 0).result == NoError && ParseHeader(Parser(data, NoError)).result == HeaderTooShort
  {
    OnesCheckOut(data);
    DoffOf(data);
    SegmentAcceptedIff(data, 0);
  }

  lemma {:induction false} OnesCheckOut(data: Bytes)
    requires data == [255, 255] + Zeros(18)
    ensures Checksum(0, data) == 0
  {
    OnesSum(data[..2]);
    assert data == data[..2] + Zeros(18);
    SumConcat(data[..2], Zeros(18), false);
    SumZeros(18);
    SumFits(0, data);
    ValueZeroIff(65535);
  }

  lemma {:induction false} OnesSum(front: Bytes)
    requires |front| == 2 && front[0] == 255 && front[1] == 255
    ensures SumBytes(front, false) == 65535
  {
    var last := front[1..];
    assert last[0] == 255 && last[1..] == [];
    assert SumBytes(last, true) == 255 + SumBytes(last[1..], false) == 255;
  }

  lemma {:induction false} SumZeros(n: nat)
    ensures SumBytes(Zeros(n), false) == 0 && SumBytes(Zeros(n), true) == 0
  {
    if n > 0 {
      assert Zeros(n)[1..] == Zeros(n - 1);
      SumZeros(n - 1);
    }
  }

  lemma {:induction false} DoffOf(data: Bytes)
    requires |data| >= 20
    ensures ParseFields(Parser(data, NoError)).doff == data[12] / 16
  {
    assert data[2..][2..] == data[4..] && data[4..][4..] == data[8..] && data[8..][4..] == data[12..];
    assert data[12..][..1] == [data[12]];
    assert ParseInt([data[12]]) == data[12];
  }

  /** The header before its checksum: sixteen bytes that do not depend on it. */
  function HeaderFront(h: TcpHeader): Bytes {
    Flatten(HeaderPieces(h)[..7])
  }

  lemma {:induction false} HeaderSplits(h: TcpHeader)
    ensures |HeaderFront(h)| == 16
    ensures HeaderBytes(h) == HeaderFront(h) + (Unparse(h.cksum, 2) + Unparse(h.uptr, 2))
  {
    var pieces := HeaderPieces(h);
    assert pieces == pieces[..7] + pieces[7..];
    FlattenAppend(pieces[..7], pieces[7..]);
    assert pieces[7..] == [Unparse(h.cksum, 2), Unparse(h.uptr, 2)];
    assert pieces[7..][1..] == [Unparse(h.uptr, 2)];
    assert Flatten([Unparse(h.uptr, 2)]) == Unparse(h.uptr, 2);
    FrontLength(h);
  }

  lemma {:induction false} FrontLength(h: TcpHeader)
    ensures |HeaderFront(h)| == 16
  {
    var pieces := HeaderPieces(h);
    FlattenSnoc(pieces, 0);
    FlattenSnoc(pieces, 1);
    FlattenSnoc(pieces, 2);
    FlattenSnoc(pieces, 3);
    FlattenSnoc(pieces, 4);
    FlattenSnoc(pieces, 5);
    FlattenSnoc(pieces, 6);
  }

  lemma {:induction false} ChecksumAt(front: Bytes, c: U16, rest: Bytes)
    requires |front| % 2 == 0
    ensures SumBytes(front + (Unparse(c, 2) + rest), false) == SumBytes(front + (Unparse(0, 2) + rest), false) + c
  {
    SumConcat(front, Unparse(c, 2) + rest, false);
    SumConcat(front, Unparse(0, 2) + rest, false);
    SumConcat(Unparse(c, 2), rest, false);
    SumConcat(Unparse(0, 2), rest, false);
    assert Unparse(c, 2) == [c / 256, c % 256] && Unparse(0, 2) == [0, 0];
    assert SumBytes([c / 256, c % 256], false) == 256 * (c / 256) + SumBytes([c % 256], true);
  }

  lemma {:induction false} ChecksumField(front: Bytes, c: U16, tail: Bytes, rest: Bytes)
    requires |front| % 2 == 0
    ensures SumBytes(front + (Unparse(c, 2) + tail) + rest, false)
         == SumBytes(front + (Unparse(0, 2) + tail) + rest, false) + c
  {
    SeqAssoc(front, Unparse(c, 2) + tail, rest);
    SeqAssoc(front, Unparse(0, 2) + tail, rest);
    SeqAssoc(Unparse(c, 2), tail, rest);
    SeqAssoc(Unparse(0, 2), tail, rest);
    ChecksumAt(front, c, tail + rest);
  }

  /** The checksum field adds its own value to the sum. */
  lemma {:induction false} ChecksumAdds(h: TcpHeader, c: U16, rest: Bytes)
    ensures SumBytes(HeaderBytes(h.(cksum := c)) + rest, false)
         == SumBytes(HeaderBytes(h.(cksum := 0)) + rest, false) + c
  {
    var h1, h0 := h.(cksum := c), h.(cksum := 0);
    HeaderSplits(h1);
    HeaderSplits(h0);
    assert HeaderPieces(h1)[..7] == HeaderPieces(h0)[..7];
    ChecksumField(HeaderFront(h0), c, Unparse(h.uptr, 2), rest);
  }

  lemma {:induction false} SerializedLength(h: TcpHeader)
    requires h.doff >= 5
    ensures |SerializeHeader(h).value| == 4 * h.doff
  {
    HeaderSplits(h);
  }

  /** A serialized segment checks out at the receiver. */
  lemma {:induction false} SerializedChecksOut(seg: TcpSegment, pseudo: U32)
    requires 5 <= seg.header.doff < 16 && 4 * seg.header.doff + |seg.payload| < 0x1_0000 && pseudo < 0x100_0000
    ensures Checksum(pseudo, SerializeSegment(seg, pseudo).value) == 0
  {
    var h0 := seg.header.(cksum := 0);
    var plain := SerializeHeader(h0).value + seg.payload;
    var c := Checksum(pseudo, plain);
    var h1 := seg.header.(cksum := c);
    var pad := Zeros(4 * seg.header.doff - 20);
    SerializedLength(h0);
    SerializedLength(h1);
    SeqAssoc(HeaderBytes(h0), pad, seg.payload);
    SeqAssoc(HeaderBytes(h1), pad, seg.payload);
    ChecksumAdds(seg.header, c, pad + seg.payload);
    FilledChecksOut(pseudo, plain, SerializeHeader(h1).value + seg.payload);
  }

  /** The checksum that serialization fills in. */
  function FilledChecksum(seg: TcpSegment, pseudo: U32): U16
    requires seg.header.doff >= 5
  {
    Checksum(pseudo, SerializeHeader(seg.header.(cksum := 0)).value + seg.payload)
  }

  /** Any segment that fits a datagram comes back from the wire as it was, with its checksum filled in. */
  lemma {:induction false} SegmentRoundTrip(seg: TcpSegment, pseudo: U32)
    requires 5 <= seg.header.doff < 16 && 4 * seg.header.doff + |seg.payload| < 0x1_0000 && pseudo < 0x100_0000
    ensures ParseSegment(SerializeSegment(seg, pseudo).value, pseudo)
         == ParsedSegment(Some(seg.(header := seg.header.(cksum := FilledChecksum(seg, pseudo)))), NoError)
  {
    SerializedChecksOut(seg, pseudo);
    HeaderRoundTrip(seg.header.(cksum := FilledChecksum(seg, pseudo)), seg.payload);
  }

  /** One changed byte anywhere in a serialized segment is always rejected. */
  lemma {:induction false} CorruptSegmentRejected(seg: TcpSegment, pseudo: U32, i: nat, b: Byte)
    requires 5 <= seg.header.doff < 16 && 4 * seg.header.doff + |seg.payload| < 0x1_0000 && pseudo < 0x100_0000
    requires var wire := SerializeSegment(seg, pseudo).value; i < |wire| && wire[i] != b
    ensures ParseSegment(SerializeSegment(seg, pseudo).value[i := b], pseudo).result == BadChecksum
  {
    var wire := SerializeSegment(seg, pseudo).value;
    SerializedChecksOut(seg, pseudo);
    SerializedLength(
      seg.header.(cksum := Checksum(pseudo, SerializeHeader(seg.header.(cksum := 0)).value + seg.payload)));
    OneByteDetected(pseudo, wire, i, b);
  }

  // ---------------------------------------------------------------- as the source runs it

  method SerializeTcpPorts(h: TcpHeader) returns (s: Bytes)
    ensures s == Flatten(HeaderPieces(h)[..2])
  {
    ghost var pieces := HeaderPieces(h);
    s := AppendPiece([], h.sport, 2, pieces, 0);
    s := AppendPiece(s, h.dport, 2, pieces, 1);
  }

  method SerializeTcpFront(h: TcpHeader) returns (s: Bytes)
    ensures s == Flatten(HeaderPieces(h)[..4])
  {
    ghost var pieces := HeaderPieces(h);
    s := SerializeTcpPorts(h);
    s := AppendPiece(s, h.seqno, 4, pieces, 2);
    s := AppendPiece(s, h.ackno, 4, pieces, 3);
  }

  method SerializeTcpHeader(h: TcpHeader) returns (ret: Option<Bytes>)
    ensures ret == SerializeHeader(h)
  {
    if h.doff < 5 {
      return None;
    }
    ghost var pieces := HeaderPieces(h);
    var s := SerializeTcpFront(h);
    s := AppendPiece(s, h.doff * 16 % 256, 1, pieces, 4);
    s := AppendPiece(s, FlagByte(h), 1, pieces, 5);
    s := AppendPiece(s, h.win, 2, pieces, 6);
    s := AppendPiece(s, h.cksum, 2, pieces, 7);
    s := AppendPiece(s, h.uptr, 2, pieces, 8);
    assert pieces[..9] == pieces;
    ret := Some(s + Zeros(4 * h.doff - 20));
  }

  method ParseTcpHeader(p: NetParser) returns (h: TcpHeader, result: ParseResult)
    modifies p
    ensures ParsedHeader(h, result, p.View()) == ParseHeader(old(p.View()))
  {
    var sport := p.U16();
    var dport := p.U16();
    var seqno := p.U32();
    var ackno := p.U32();
    var doff := p.U8();
    var fl := p.U8();
    var win := p.U16();
    var cksum := p.U16();
    var uptr := p.U16();
    h := TcpHeader(sport, dport, seqno, ackno, doff / 16, HasBit(fl, 32), HasBit(fl, 16), HasBit(fl, 8),
                   HasBit(fl, 4), HasBit(fl, 2), HasBit(fl, 1), win, cksum, uptr);
    assert h == ParseFields(old(p.View()));
    if h.doff < 5 {
      return h, HeaderTooShort;
    }
    p.RemovePrefix(4 * h.doff - 20);
    result := p.error;
  }

  method SerializeTcpSegment(seg: TcpSegment, pseudo: U32) returns (ret: Option<Bytes>)
    ensures ret == SerializeSegment(seg, pseudo)
  {
    var plain := SerializeTcpHeader(seg.header.(cksum := 0));
    if plain.None? {
      return None;
    }
    var cksum := ChecksumOfParts(pseudo, plain.value, seg.payload);
    var header := SerializeTcpHeader(seg.header.(cksum := cksum));
    ret := Some(header.value + seg.payload);
  }

  method ParseTcpSegment(data: Bytes, pseudo: U32) returns (seg: Option<TcpSegment>, result: ParseResult)
    ensures ParsedSegment(seg, result) == ParseSegment(data, pseudo)
  {
    var check := new InternetChecksum(pseudo);
    check.Add(data);
    var v := check.GetValue();
    if v != 0 {
      return None, BadChecksum;
    }
    var p := new NetParser(data);
    var h, _ := ParseTcpHeader(p);
    return Some(TcpSegment(h, p.buffer)), p.error;
  }
}
