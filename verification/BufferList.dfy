/** A chunked string whose front can be discarded (libsponge/util/buffer.cc). */
module BufferLists {
  import opened Prelude

  class BufferList {
    var buffers: seq<Bytes>

    ghost function Contents(): Bytes
      reads this
    {
      Flatten(buffers)
    }

    constructor ()
      ensures buffers == []
    {
      buffers := [];
    }

    method Append(other: seq<Bytes>)
      modifies this
      ensures Contents() == old(Contents()) + Flatten(other)
    {
      var i := 0;
      assert other[..0] == [] && buffers + [] == buffers;
      while i < |other|
        invariant 0 <= i <= |other|
        invariant buffers == old(buffers) + other[..i]
      {
        assert other[..i + 1] == other[..i] + [other[i]];
        buffers := buffers + [other[i]];
        i := i + 1;
      }
      assert other[..i] == other;
      FlattenAppend(old(buffers), other);
    }

    method Size() returns (n: nat)
      ensures n == |Contents()|
    {
      n := 0;
      var i := 0;
      while i < |buffers|
        invariant 0 <= i <= |buffers|
        invariant n == |Flatten(buffers[..i])|
      {
        FlattenSnoc(buffers, i);
        n := n + |buffers[i]|;
        i := i + 1;
      }
      assert buffers[..i] == buffers;
    }

    method Concatenate() returns (s: Bytes)
      ensures s == Contents()
    {
      s := [];
      var i := 0;
      while i < |buffers|
        invariant 0 <= i <= |buffers|
        invariant s == Flatten(buffers[..i])
      {
        FlattenSnoc(buffers, i);
        s := s + buffers[i];
        i := i + 1;
      }
      assert buffers[..i] == buffers;
    }

    /** Drops `n` bytes across chunk borders. `ok` is false where the source throws; every chunk is gone then. */
    method RemovePrefix(n: nat) returns (ok: bool)
      modifies this
      ensures ok == (n <= |old(Contents())|)
      ensures Contents() == if ok then old(Contents())[n..] else []
    {
      var left := n;
      while left > 0
        invariant 0 <= left <= n
        invariant n - left <= |old(Contents())|
        invariant Contents() == old(Contents())[n - left..]
        decreases left, |buffers|
      {
        if buffers == [] {
          return false;
        }
        if left < |buffers[0]| {
          buffers := [buffers[0][left..]] + buffers[1..];
          left := 0;
        } else {
          left := left - |buffers[0]|;
          buffers := buffers[1..];
        }
      }
      ok := true;
    }
  }
}
