/** Number ranges, byte strings and the option type shared by every module. */
module Prelude {

  type Byte = b: int | 0 <= b < 256

  type Bytes = seq<Byte>

  type U16 = n: int | 0 <= n < 0x1_0000

  type U32 = n: int | 0 <= n < 0x1_0000_0000

  type U64 = n: int | 0 <= n < 0x1_0000_0000_0000_0000

  datatype Option<+T> = None | Some(value: T)

  function Min(a: int, b: int): int {
    if a <= b then a else b
  }

  function Max(a: int, b: int): int {
    if a <= b then b else a
  }

  function Abs(a: int): int {
    if a < 0 then -a else a
  }

  /** `x` doubled `n` times. */
  function Doubled(x: nat, n: nat): nat {
    if n == 0 then x else 2 * Doubled(x, n - 1)
  }

  lemma {:induction false} SeqAssoc<T>(a: seq<T>, b: seq<T>, c: seq<T>)
    ensures a + b + c == a + (b + c)
  {
  }

  lemma {:induction false} SliceJoin<T>(s: seq<T>, a: nat, b: nat, c: nat)
    requires a <= b <= c <= |s|
    ensures s[a..b] + s[b..c] == s[a..c]
  {
  }

  /** A list of pieces, flat. Empty pieces are allowed. */
  function Flatten<T>(pieces: seq<seq<T>>): seq<T> {
    if pieces == [] then [] else pieces[0] + Flatten(pieces[1..])
  }

  lemma {:induction false} FlattenAppend<T>(left: seq<seq<T>>, right: seq<seq<T>>)
    ensures Flatten(left + right) == Flatten(left) + Flatten(right)
  {
    if left == [] {
      assert left + right == right;
    } else {
      assert (left + right)[1..] == left[1..] + right;
      FlattenAppend(left[1..], right);
    }
  }

  lemma {:induction false} FlattenSnoc<T>(pieces: seq<seq<T>>, i: nat)
    requires i < |pieces|
    ensures Flatten(pieces[..i + 1]) == Flatten(pieces[..i]) + pieces[i]
  {
    assert pieces[..i + 1] == pieces[..i] + [pieces[i]];
    FlattenAppend(pieces[..i], [pieces[i]]);
  }
}
