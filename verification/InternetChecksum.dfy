/** The Internet checksum (libsponge/util/util.cc), section 1 of RFC 1071. */
module InternetChecksums {
  import opened Prelude

  /** What the bytes add to the sum when the next one is high (`parity` false) or low (true). */
  function SumBytes(data: Bytes, parity: bool): nat {
    if data == [] then 0 else (if parity then data[0] else 256 * data[0]) + SumBytes(data[1..], !parity)
  }

  /** The definition of the standard: the sum of the 16-bit words, an odd byte padded with zero. */
  function WordSum(data: Bytes): nat {
    if |data| == 0 then 0
    else if |data| == 1 then 256 * data[0]
    else 256 * data[0] + data[1] + WordSum(data[2..])
  }

  lemma {:induction false} SumIsWordSum(data: Bytes)
    ensures SumBytes(data, false) == WordSum(data)
    decreases |data|
  {
    if |data| >= 2 {
      SumIsWordSum(data[2..]);
      assert data[1..][1..] == data[2..];
    }
  }

  predicate ParityAfter(parity: bool, n: nat) {
    if n % 2 == 0 then parity else !parity
  }

  /** Adding in chunks is adding the concatenation. */
  lemma {:induction false} SumConcat(a: Bytes, b: Bytes, parity: bool)
    ensures SumBytes(a + b, parity) == SumBytes(a, parity) + SumBytes(b, ParityAfter(parity, |a|))
    decreases |a|
  {
    if a == [] {
      assert a + b == b;
    } else {
      assert (a + b)[1..] == a[1..] + b;
      SumConcat(a[1..], b, !parity);
    }
  }

  lemma {:induction false} SumBounded(data: Bytes, parity: bool)
    ensures SumBytes(data, parity) <= 65280 * |data|
    decreases |data|
  {
    if data != [] {
      SumBounded(data[1..], !parity);
    }
  }

  // ---------------------------------------------------------------- folding

  /** Carries added back in until the sum fits 16 bits. */
  function Fold(n: nat): (r: nat)
    ensures r <= 0xFFFF
  {
    if n > 0xFFFF then Fold(n / 0x1_0000 + n % 0x1_0000) else n
  }

  lemma {:induction false} ModShift(x: nat, q: nat)
    ensures (x + 65535 * q) % 65535 == x % 65535
  {
  }

  /** Folding keeps the sum modulo 65535, and keeps it from becoming zero. */
  lemma {:induction false} FoldKeeps(n: nat)
    ensures Fold(n) % 65535 == n % 65535
    ensures Fold(n) == 0 <==> n == 0
  {
    if n > 0xFFFF {
      var q, r := n / 0x1_0000, n % 0x1_0000;
      FoldKeeps(q + r);
      ModShift(q + r, q);
      assert n == q + r + 65535 * q;
    }
  }

  /** The value computed from a sum: the complement of the folded sum. */
  function Value(sum: nat): U16 {
    0xFFFF - Fold(sum)
  }

  /** A sum checks out exactly when it is a positive multiple of 65535. */
  lemma {:induction false} ValueZeroIff(sum: nat)
    ensures Value(sum) == 0 <==> sum > 0 && sum % 65535 == 0
  {
    FoldKeeps(sum);
  }

  /** Putting the value into the sum makes it check out. */
  lemma {:induction false} ValueCompletes(sum: nat)
    ensures Value(sum + Value(sum)) == 0
  {
    var f := Fold(sum);
    FoldKeeps(sum);
    ValueZeroIff(sum + Value(sum));
    var q := sum / 65535;
    assert sum == 65535 * q + sum % 65535;
    if f == 65535 {
      assert sum % 65535 == 0;
    } else {
      assert f == sum % 65535;
      ModShift(65535, q);
      assert sum + (65535 - f) == 65535 + 65535 * q;
    }
  }

  // ---------------------------------------------------------------- a packet's checksum

  /** The value over `data` when counting starts at `initial`; the sum is kept in 32 bits. */
  function Checksum(initial: U32, data: Bytes): U16 {
    Value((initial + SumBytes(data, false)) % 0x1_0000_0000)
  }

  /** Below 2^16 bytes and with a start below 2^24 the 32-bit sum does not wrap. */
  lemma {:induction false} SumFits(initial: U32, data: Bytes)
    requires |data| < 0x1_0000 && initial < 0x100_0000
    ensures Checksum(initial, data) == Value(initial + SumBytes(data, false))
  {
    SumBounded(data, false);
  }

  /** A packet whose sum is that of its plain form plus the plain form's checksum checks out. */
  lemma {:induction false} FilledChecksOut(initial: U32, plain: Bytes, wire: Bytes)
    requires |plain| < 0x1_0000 && |wire| < 0x1_0000 && initial < 0x100_0000
    requires SumBytes(wire, false) == SumBytes(plain, false) + Checksum(initial, plain)
    ensures Checksum(initial, wire) == 0
  {
    SumFits(initial, plain);
    SumFits(initial, wire);
    ValueCompletes(initial + SumBytes(plain, false));
  }

  function Weight(parity: bool): int {
    if parity then 1 else 256
  }

  lemma {:induction false} ByteChange(data: Bytes, i: nat, b: Byte, parity: bool)
    requires i < |data|
    ensures SumBytes(data[i := b], parity) - SumBytes(data, parity) ==
            Weight(ParityAfter(parity, i)) * b - Weight(ParityAfter(parity, i)) * data[i]
    decreases |data|
  {
    if i > 0 {
      ByteChange(data[1..], i - 1, b, !parity);
      assert data[i := b][1..] == data[1..][i - 1 := b];
    }
  }

  /** Changing any one byte of a packet that checks out makes it fail. */
  lemma {:induction false} OneByteDetected(initial: U32, data: Bytes, i: nat, b: Byte)
    requires |data| < 0x1_0000 && initial < 0x100_0000 && i < |data| && b != data[i]
    requires Checksum(initial, data) == 0
    ensures Checksum(initial, data[i := b]) != 0
  {
    SumFits(initial, data);
    SumFits(initial, data[i := b]);
    ByteChange(data, i, b, false);
    var s, s' := initial + SumBytes(data, false), initial + SumBytes(data[i := b], false);
    ValueZeroIff(s);
    ValueZeroIff(s');
    NearMultiple(s, s');
  }

  lemma {:induction false} NearMultiple(s: nat, s': nat)
    requires s % 65535 == 0 && 0 < Abs(s' - s) <= 65280
    ensures s' % 65535 != 0
  {
  }

  lemma {:induction false} WrapTwice(a: nat, b: nat)
    ensures (a % 0x1_0000_0000 + b) % 0x1_0000_0000 == (a + b) % 0x1_0000_0000
  {
  }

  class InternetChecksum {
    var sum: U32
    var parity: bool

    constructor (initialSum: U32)
      ensures sum == initialSum && !parity
    {
      sum := initialSum;
      parity := false;
    }

    /** The 32-bit sum wraps; with the lengths of packets it never does. */
    method Add(data: Bytes)
      modifies this
      ensures sum == (old(sum) + SumBytes(data, old(parity))) % 0x1_0000_0000
      ensures parity == ParityAfter(old(parity), |data|)
    {
      var i := 0;
      assert data[..0] == [];
      while i < |data|
        invariant 0 <= i <= |data|
        invariant sum == (old(sum) + SumBytes(data[..i], old(parity))) % 0x1_0000_0000
        invariant parity == ParityAfter(old(parity), i)
      {
        assert data[..i + 1] == data[..i] + [data[i]];
        SumConcat(data[..i], [data[i]], old(parity));
        var val: int := data[i];
        if !parity {
          val := 256 * val;
        }
        WrapTwice(old(sum) + SumBytes(data[..i], old(parity)), val);
        sum := (sum + val) % 0x1_0000_0000;
        parity := !parity;
        i := i + 1;
      }
      assert data[..i] == data;
    }

    method GetValue() returns (v: U16)
      ensures v == Value(sum)
    {
      var ret: nat := sum;
      while ret > 0xFFFF
        invariant Fold(ret) == Fold(sum)
      {
        ret := ret / 0x1_0000 + ret % 0x1_0000;
      }
      v := 0xFFFF - ret;
    }
  }

  /** Adds two strings one after the other, wherever the first one ends. */
  method ChecksumOfParts(initial: U32, a: Bytes, b: Bytes) returns (v: U16)
    ensures v == Checksum(initial, a + b)
  {
    var check := new InternetChecksum(initial);
    check.Add(a);
    check.Add(b);
    SumConcat(a, b, false);
    WrapTwice(initial + SumBytes(a, false), SumBytes(b, ParityAfter(false, |a|)));
    v := check.GetValue();
  }
}
