/** 32-bit wrapping sequence numbers (libsponge/wrapping_integers.cc). */
module WrappingIntegers {
  import opened Prelude

  /** The absolute sequence number `n`, seen from the initial sequence number `isn`. */
  function Wrap(n: nat, isn: U32): U32 {
    (isn + n % 0x1_0000_0000) % 0x1_0000_0000
  }

  /** Distance from `isn` up to `n`, modulo 2^32: `unwrap` with checkpoint 0, as `UnwrapFromZero` shows. */
  function Offset(n: U32, isn: U32): U32 {
    (n - isn) % 0x1_0000_0000
  }

  /** The branches of `unwrap`, with its 64-bit arithmetic. */
  function Unwrap(n: U32, isn: U32, checkpoint: U64): U64 {
    var m := 0x1_0000_0000;
    var times := checkpoint / m;
    var a := Offset(n, isn);
    var b := checkpoint % m;
    if (a <= b && (b <= m / 2 || a >= b - m / 2)) || (a > b && (b >= m / 2 || a <= b + m / 2)) then
      times * m + a
    else if a <= b then
      ((times + 1) * m + a) % 0x1_0000_0000_0000_0000
    else if times < 1 then
      times * m + a
    else
      (times - 1) * m + a
  }

  /** No 64-bit number that wraps to `n` is strictly nearer to `checkpoint` than `v` is. */
  ghost predicate Closest(v: U64, n: U32, isn: U32, checkpoint: U64) {
    forall w: U64 {:trigger Wrap(w, isn)} :: Wrap(w, isn) == n ==> Abs(v - checkpoint) <= Abs(w - checkpoint)
  }

  /** The guard of the branch whose sum passes 2^64. */
  predicate UnwrapOverflows(n: U32, isn: U32, checkpoint: U64) {
    checkpoint / 0x1_0000_0000 == 0xFFFF_FFFF && Offset(n, isn) + 0x8000_0000 < checkpoint % 0x1_0000_0000
  }

  lemma {:induction false} WrapIff(v: nat, n: U32, isn: U32)
    ensures Wrap(v, isn) == n <==> v % 0x1_0000_0000 == Offset(n, isn)
  {
  }

  lemma {:induction false} OffsetOf(times: nat, a: U32)
    ensures (times * 0x1_0000_0000 + a) % 0x1_0000_0000 == a
  {
  }

  /** The result is a multiple of 2^32 and the offset: on the overflowing branch the multiple is zero. */
  lemma {:induction false} UnwrapForm(n: U32, isn: U32, checkpoint: U64) returns (times: nat)
    ensures Unwrap(n, isn, checkpoint) == times * 0x1_0000_0000 + Offset(n, isn)
  {
    var v, a := Unwrap(n, isn, checkpoint), Offset(n, isn);
    times := checkpoint / 0x1_0000_0000;
    if v == (times + 1) * 0x1_0000_0000 + a {
      times := times + 1;
    } else if v == a {
      times := 0;
    } else if v != times * 0x1_0000_0000 + a {
      times := times - 1;
    }
  }

  /** `unwrap` always undoes `wrap` modulo 2^32. */
  lemma {:induction false} UnwrapWraps(n: U32, isn: U32, checkpoint: U64)
    ensures Wrap(Unwrap(n, isn, checkpoint), isn) == n
  {
    var times := UnwrapForm(n, isn, checkpoint);
    OffsetOf(times, Offset(n, isn));
    WrapIff(Unwrap(n, isn, checkpoint), n, isn);
  }

  /** Two numbers that wrap alike are equal or at least 2^32 apart. */
  lemma {:induction false} WrapApart(v: nat, w: nat, isn: U32)
    requires Wrap(v, isn) == Wrap(w, isn)
    ensures v == w || Abs(v - w) >= 0x1_0000_0000
  {
    WrapIff(v, Wrap(w, isn), isn);
    WrapIff(w, Wrap(w, isn), isn);
  }

  /** Off the overflowing branch the result is within 2^31 of the checkpoint, or is in the first 2^32 and past it. */
  lemma {:induction false} UnwrapNear(n: U32, isn: U32, checkpoint: U64)
    requires !UnwrapOverflows(n, isn, checkpoint)
    ensures var v := Unwrap(n, isn, checkpoint);
            Abs(v - checkpoint) <= 0x8000_0000 || checkpoint < v < 0x1_0000_0000
  {
  }

  /** The documented result, the nearest number that wraps to `n`, holds exactly off the overflowing branch. */
  lemma {:induction false} UnwrapClosestIff(n: U32, isn: U32, checkpoint: U64)
    ensures Closest(Unwrap(n, isn, checkpoint), n, isn, checkpoint) <==> !UnwrapOverflows(n, isn, checkpoint)
  {
    if UnwrapOverflows(n, isn, checkpoint) {
      OverflowNotClosest(n, isn, checkpoint);
    } else {
      forall w: U64 | Wrap(w, isn) == n
        ensures Abs(Unwrap(n, isn, checkpoint) - checkpoint) <= Abs(w - checkpoint)
      {
        UnwrapWraps(n, isn, checkpoint);
        UnwrapNear(n, isn, checkpoint);
        WrapApart(Unwrap(n, isn, checkpoint), w, isn);
      }
    }
  }

  lemma {:induction false} OverflowNotClosest(n: U32, isn: U32, checkpoint: U64)
    requires UnwrapOverflows(n, isn, checkpoint)
    ensures !Closest(Unwrap(n, isn, checkpoint), n, isn, checkpoint)
  {
    var a: int := Offset(n, isn);
    var w: U64 := 0xFFFF_FFFF * 0x1_0000_0000 + a;
    WrapIff(w, n, isn);
    assert Unwrap(n, isn, checkpoint) == a;
    assert Wrap(w, isn) == n && Abs(w - checkpoint) < Abs(a - checkpoint);
  }

  /** It does happen: the largest checkpoint unwraps number 0 to 0, and 2^64 - 2^32 is nearer. */
  lemma {:induction false} UnwrapFarthest()
    ensures Unwrap(0, 0, 0xFFFF_FFFF_FFFF_FFFF) == 0
    ensures Wrap(0xFFFF_FFFF_0000_0000, 0) == 0
    ensures !Closest(Unwrap(0, 0, 0xFFFF_FFFF_FFFF_FFFF), 0, 0, 0xFFFF_FFFF_FFFF_FFFF)
  {
    OverflowNotClosest(0, 0, 0xFFFF_FFFF_FFFF_FFFF);
  }

  /** Numbers within 2^31 of the checkpoint survive the trip over the wire. */
  lemma {:induction false} UnwrapWrap(v: U64, isn: U32, checkpoint: U64)
    requires Abs(v - checkpoint) < 0x8000_0000
    ensures Unwrap(Wrap(v, isn), isn, checkpoint) == v
  {
    var n := Wrap(v, isn);
    if UnwrapOverflows(n, isn, checkpoint) {
      OverflowFar(n, isn, checkpoint, v);
    }
    UnwrapNear(n, isn, checkpoint);
    UnwrapWraps(n, isn, checkpoint);
    WrapApart(Unwrap(n, isn, checkpoint), v, isn);
  }

  lemma {:induction false} OverflowFar(n: U32, isn: U32, checkpoint: U64, v: U64)
    requires UnwrapOverflows(n, isn, checkpoint) && Wrap(v, isn) == n
    ensures Abs(v - checkpoint) > 0x8000_0000
  {
    WrapIff(v, n, isn);
    assert v == (v / 0x1_0000_0000) * 0x1_0000_0000 + Offset(n, isn);
  }

  /** With checkpoint 0, the only checkpoint the transport code uses, `unwrap` is the distance from `isn`. */
  lemma {:induction false} UnwrapFromZero(n: U32, isn: U32)
    ensures Unwrap(n, isn, 0) == Offset(n, isn)
  {
  }

  lemma {:induction false} OffsetWrap(v: nat, isn: U32)
    requires v < 0x1_0000_0000
    ensures Offset(Wrap(v, isn), isn) == v
  {
  }

  /** With checkpoint 0 the round trip returns exactly the numbers below 2^32. */
  lemma {:induction false} UnwrapWrapFromZeroIff(v: U64, isn: U32)
    ensures Unwrap(Wrap(v, isn), isn, 0) == v <==> v < 0x1_0000_0000
  {
    WrapIff(v, Wrap(v, isn), isn);
  }
}
