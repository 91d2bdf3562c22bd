/** Big-endian integers on the wire (libsponge/util/parser.cc). */
module NetParsers {
  import opened Prelude

  datatype ParseResult =
    | NoError
    | BadChecksum
    | PacketTooShort
    | WrongIPVersion
    | HeaderTooShort
    | TruncatedPacket

  // ---------------------------------------------------------------- integers as bytes

  /** `v` shifted right by `k` bytes. */
  function Shift(v: nat, k: nat): nat {
    if k == 0 then v else Shift(v, k - 1) / 256
  }

  /** The `n` low bytes of `v`, most significant first. */
  function Unparse(v: nat, n: nat): (b: Bytes)
    ensures |b| == n
    decreases n
  {
    if n == 0 then [] else Unparse(v / 256, n - 1) + [v % 256]
  }

  function ParseInt(b: Bytes): nat {
    if b == [] then 0 else ParseInt(b[..|b| - 1]) * 256 + b[|b| - 1]
  }

  function Pow256(n: nat): nat {
    if n == 0 then 1 else 256 * Pow256(n - 1)
  }

  lemma {:induction false} ParseUnparse(v: nat, n: nat)
    requires v < Pow256(n)
    ensures ParseInt(Unparse(v, n)) == v
    decreases n
  {
    if n > 0 {
      ParseUnparse(v / 256, n - 1);
      assert Unparse(v, n)[..n - 1] == Unparse(v / 256, n - 1);
    }
  }

  /** Appends the bytes of `val` from the most significant down, picking each with a shift and a mask. */
  method UnparseInt(s: Bytes, val: nat, len: nat) returns (r: Bytes)
    ensures r == s + Unparse(val, len)
  {
    r := s;
    var i := 0;
    while i < len
      invariant 0 <= i <= len
      invariant r == s + Unparse(Shift(val, len - i), i)
    {
      var theByte := Shift(val, len - i - 1) % 256;
      assert Shift(val, len - i) == Shift(val, len - i - 1) / 256;
      SeqAssoc(s, Unparse(Shift(val, len - i), i), [theByte]);
      r := r + [theByte];
      i := i + 1;
    }
  }

  /** Appends the next of a row of pieces. */
  method AppendPiece(s: Bytes, val: nat, len: nat, ghost pieces: seq<Bytes>, ghost i: nat) returns (r: Bytes)
    requires i < |pieces| && s == Flatten(pieces[..i]) && pieces[i] == Unparse(val, len)
    ensures r == Flatten(pieces[..i + 1])
  {
    r := UnparseInt(s, val, len);
    FlattenSnoc(pieces, i);
  }

  // ---------------------------------------------------------------- the parser

  /** What is left of the buffer, and the first error met. */
  datatype Parser = Parser(buffer: Bytes, error: ParseResult) {

    function CheckSize(n: nat): Parser {
      if n > |buffer| then this.(error := PacketTooShort) else this
    }

    /** The integer in the next `n` bytes, or 0 after an error. */
    function Value(n: nat): nat {
      if n > |buffer| || error != NoError then 0 else ParseInt(buffer[..n])
    }

    function Skip(n: nat): Parser {
      if n > |buffer| || error != NoError then CheckSize(n) else this.(buffer := buffer[n..])
    }
  }

  /** The bytes are the `n`-byte big-endian form of `v`. */
  ghost predicate Encodes(b: Bytes, n: nat, v: nat) {
    |b| == n && ParseInt(b) == v
  }

  lemma {:induction false} TakeEncoded(b: Bytes, n: nat, v: nat, rest: Bytes)
    requires Encodes(b, n, v)
    ensures Parser(b + rest, NoError).Value(n) == v
    ensures Parser(b + rest, NoError).Skip(n) == Parser(rest, NoError)
  {
    assert (b + rest)[..n] == b;
    assert (b + rest)[n..] == rest;
  }

  lemma {:induction false} ByteEncodes(v: Byte)
    ensures Encodes(Unparse(v, 1), 1, v)
  {
    ParseUnparse(v, 1);
  }

  lemma {:induction false} U16Encodes(v: U16)
    ensures Encodes(Unparse(v, 2), 2, v)
  {
    assert Pow256(2) == 0x1_0000;
    ParseUnparse(v, 2);
  }

  lemma {:induction false} U32Encodes(v: U32)
    ensures Encodes(Unparse(v, 4), 4, v)
  {
    assert Pow256(2) == 0x1_0000 && Pow256(4) == 256 * (256 * Pow256(2));
    ParseUnparse(v, 4);
  }

  // ---------------------------------------------------------------- rows of fields

  /** Each piece is the big-endian form of its value, of its width. */
  ghost predicate EncodesAll(pieces: seq<Bytes>, widths: seq<nat>, values: seq<nat>) {
    && |pieces| == |widths| == |values|
    && forall i :: 0 <= i < |pieces| ==> Encodes(pieces[i], widths[i], values[i])
  }

  /** Parsers that read one value after the other. */
  ghost predicate Chain(p: seq<Parser>, widths: seq<nat>, values: seq<nat>) {
    && |p| == |widths| + 1 && |widths| == |values|
    && forall i :: 0 <= i < |widths| ==> p[i].Skip(widths[i]) == p[i + 1] && p[i].Value(widths[i]) == values[i]
  }

  /** Reading back what was written piece by piece. */
  lemma {:induction false} ReadBack(pieces: seq<Bytes>, widths: seq<nat>, values: seq<nat>, rest: Bytes)
    returns (p: seq<Parser>)
    requires EncodesAll(pieces, widths, values)
    ensures Chain(p, widths, values)
    ensures p[0] == Parser(Flatten(pieces) + rest, NoError) && p[|widths|] == Parser(rest, NoError)
    decreases |pieces|
  {
    if pieces == [] {
      p := [Parser(rest, NoError)];
      assert Flatten(pieces) + rest == rest;
    } else {
      assert EncodesAll(pieces[1..], widths[1..], values[1..]) by {
        forall i | 0 <= i < |pieces[1..]|
          ensures Encodes(pieces[1..][i], widths[1..][i], values[1..][i])
        {
          assert Encodes(pieces[i + 1], widths[i + 1], values[i + 1]);
        }
      }
      var q := ReadBack(pieces[1..], widths[1..], values[1..], rest);
      var more := Flatten(pieces[1..]) + rest;
      TakeEncoded(pieces[0], widths[0], values[0], more);
      SeqAssoc(pieces[0], Flatten(pieces[1..]), rest);
      p := [Parser(pieces[0] + more, NoError)] + q;
      forall i | 0 <= i < |widths|
        ensures p[i].Skip(widths[i]) == p[i + 1] && p[i].Value(widths[i]) == values[i]
      {
        if i > 0 {
          assert q[i - 1].Skip(widths[1..][i - 1]) == q[i] && q[i - 1].Value(widths[1..][i - 1]) == values[1..][i - 1];
        }
      }
    }
  }

  // ---------------------------------------------------------------- typed reads

  function ByteAt(p: Parser): Byte {
    ValueBelow(p, 1);
    p.Value(1)
  }

  function U16At(p: Parser): U16 {
    ValueBelow(p, 2);
    assert Pow256(2) == 0x1_0000;
    p.Value(2)
  }

  function U32At(p: Parser): U32 {
    ValueBelow(p, 4);
    assert Pow256(2) == 0x1_0000 && Pow256(4) == 256 * (256 * Pow256(2));
    p.Value(4)
  }

  lemma {:induction false} ParseIntBelow(b: Bytes)
    ensures ParseInt(b) < Pow256(|b|)
    decreases |b|
  {
    if b != [] {
      ParseIntBelow(b[..|b| - 1]);
    }
  }

  lemma {:induction false} ValueBelow(p: Parser, n: nat)
    ensures p.Value(n) < Pow256(n)
  {
    if n <= |p.buffer| && p.error == NoError {
      ParseIntBelow(p.buffer[..n]);
    } else {
      assert Pow256(n) >= 1 by { Pow256Positive(n); }
    }
  }

  lemma {:induction false} Pow256Positive(n: nat)
    ensures Pow256(n) >= 1
  {
    if n > 0 {
      Pow256Positive(n - 1);
    }
  }

  class NetParser {
    var buffer: Bytes
    var error: ParseResult

    ghost function View(): Parser
      reads this
    {
      Parser(buffer, error)
    }

    constructor (buffer: Bytes)
      ensures View() == Parser(buffer, NoError)
    {
      this.buffer := buffer;
      error := NoError;
    }

    method ParseNext(len: nat) returns (ret: nat)
      modifies this
      ensures ret == old(View()).Value(len) && View() == old(View()).Skip(len)
      ensures ret < Pow256(len)
    {
      ValueBelow(View(), len);
      if len > |buffer| {
        error := PacketTooShort;
      }
      if error != NoError {
        return 0;
      }
      ret := 0;
      var i := 0;
      while i < len
        invariant 0 <= i <= len
        invariant ret == ParseInt(buffer[..i])
      {
        assert buffer[..i + 1][..i] == buffer[..i];
        ret := ret * 256;
        ret := ret + buffer[i];
        i := i + 1;
      }
      buffer := buffer[len..];
    }

    method U8() returns (r: Byte)
      modifies this
      ensures r == ByteAt(old(View())) && View() == old(View()).Skip(1)
    {
      r := ParseNext(1);
    }

    method U16() returns (r: Prelude.U16)
      modifies this
      ensures r == U16At(old(View())) && View() == old(View()).Skip(2)
    {
      assert Pow256(2) == 0x1_0000;
      r := ParseNext(2);
    }

    method U32() returns (r: Prelude.U32)
      modifies this
      ensures r == U32At(old(View())) && View() == old(View()).Skip(4)
    {
      assert Pow256(2) == 0x1_0000 && Pow256(4) == 256 * (256 * Pow256(2));
      r := ParseNext(4);
    }

    method RemovePrefix(n: nat)
      modifies this
      ensures View() == old(View()).Skip(n)
    {
      if n > |buffer| {
        error := PacketTooShort;
      }
      if error != NoError {
        return;
      }
      buffer := buffer[n..];
    }
  }
}
