/** The flow-controlled byte stream (libsponge/byte_stream.cc). */
module ByteStreams {
  import opened Prelude
  import opened BufferLists

  /** A byte stream as a history: everything ever written, and how much of it was read. */
  datatype Stream = Stream(capacity: nat, written: Bytes, read: nat, ended: bool, error: bool) {

    predicate Valid() {
      read <= |written| <= read + capacity
    }

    function Buffered(): nat
      requires Valid()
    {
      |written| - read
    }

    function Room(): nat
      requires Valid()
    {
      capacity - Buffered()
    }

    predicate Eof()
      requires Valid()
    {
      ended && Buffered() == 0
    }

    /** How many bytes of an offer of `n` a write accepts. */
    function Accepts(n: nat): (k: nat)
      requires Valid()
      ensures k <= n
    {
      if ended then 0 else Min(n, Room())
    }

    function Write(data: Bytes): (s: Stream)
      requires Valid()
      ensures s.Valid() && written <= s.written
    {
      this.(written := written + data[..Accepts(|data|)])
    }

    function Peek(n: nat): Bytes
      requires Valid()
    {
      written[read..read + Min(n, Buffered())]
    }

    function Read(n: nat): (s: Stream)
      requires Valid()
      ensures s.Valid()
    {
      this.(read := read + Min(n, Buffered()))
    }

    function EndInput(): Stream {
      this.(ended := true)
    }

    function SetError(): Stream {
      this.(error := true)
    }
  }

  function EmptyStream(capacity: nat): Stream {
    Stream(capacity, [], 0, false, false)
  }

  /** Writing in two pieces is writing the whole, also where the stream fills up or has ended. */
  lemma {:induction false} WriteTwice(s: Stream, x: Bytes, y: Bytes)
    requires s.Valid()
    ensures s.Accepts(|x|) == |x| ==>
              s.Write(x).Write(y) == s.Write(x + y) && s.Accepts(|x + y|) == |x| + s.Write(x).Accepts(|y|)
    ensures s.Accepts(|x|) < |x| ==>
              s.Write(x).Write(y) == s.Write(x) == s.Write(x + y) && s.Accepts(|x + y|) == s.Accepts(|x|)
              && s.Write(x).Accepts(|y|) == 0
  {
    var n := s.Accepts(|x|);
    if n == |x| {
      assert s.written + x[..n] + y[..s.Write(x).Accepts(|y|)] == s.written + (x + y)[..s.Accepts(|x + y|)];
    } else {
      assert (x + y)[..n] == x[..n];
      assert s.Write(x).written + y[..0] == s.Write(x).written;
    }
  }

  class ByteStream {
    const capacity: nat
    var endFlag: bool
    var size: nat
    const stream: BufferList
    var bytesW: nat
    var bytesR: nat
    var error: bool
    ghost var written: Bytes

    ghost predicate Valid()
      reads this, stream
    {
      && View().Valid()
      && bytesW == |written|
      && size == bytesW - bytesR
      && stream.Contents() == written[bytesR..]
    }

    ghost function View(): Stream
      reads this
    {
      Stream(capacity, written, bytesR, endFlag, error)
    }

    constructor (capacity: nat)
      ensures Valid() && fresh(stream)
      ensures View() == EmptyStream(capacity)
    {
      this.capacity := capacity;
      endFlag, error := false, false;
      size, bytesW, bytesR := 0, 0, 0;
      stream := new BufferList();
      written := [];
    }

    method Write(data: Bytes) returns (n: nat)
      requires Valid()
      modifies this, stream
      ensures Valid()
      ensures View() == old(View()).Write(data)
      ensures n == old(View()).Accepts(|data|)
    {
      if endFlag {
        assert written + data[..0] == written;
        return 0;
      }
      n := |data|;
      if capacity - size <= n {
        n := capacity - size;
      }
      var copy := data[..n];
      assert Flatten([copy]) == copy;
      stream.Append([copy]);
      size := size + n;
      bytesW := bytesW + n;
      written := written + copy;
    }

    method PeekOutput(n: nat) returns (s: Bytes)
      requires Valid()
      ensures s == View().Peek(n)
    {
      var all := stream.Concatenate();
      s := all[..Min(n, |all|)];
    }

    /** `ok` is false where the source throws; the counters are not touched then. */
    method PopOutput(n: nat) returns (ok: bool)
      requires Valid()
      modifies this, stream
      ensures ok == (n <= old(View()).Buffered())
      ensures ok ==> Valid() && View() == old(View()).Read(n)
      ensures !ok ==> View() == old(View()) && stream.Contents() == []
    {
      ok := stream.RemovePrefix(n);
      if ok {
        size := size - n;
        bytesR := bytesR + n;
      }
    }

    method Read(n: nat) returns (s: Bytes)
      requires Valid()
      modifies this, stream
      ensures Valid()
      ensures s == old(View()).Peek(n)
      ensures View() == old(View()).Read(n)
    {
      var count := n;
      if size <= n {
        count := size;
      }
      s := PeekOutput(count);
      var ok := PopOutput(count);
    }

    method EndInput()
      requires Valid()
      modifies this
      ensures Valid() && View() == old(View()).EndInput()
    {
      endFlag := true;
    }

    method SetError()
      requires Valid()
      modifies this
      ensures Valid() && View() == old(View()).SetError()
    {
      error := true;
    }
  }
}
