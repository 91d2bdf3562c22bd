/** The receiving half of an endpoint (libsponge/tcp_receiver.cc). */
module TcpReceivers {
  import opened Prelude
  import opened WrappingIntegers
  import opened Reassembly
  import opened StreamReassemblers
  import opened TcpSegments

  datatype Receiver = Receiver(reasm: Reassembler, isn: Option<U32>) {

    ghost predicate Valid() {
      reasm.out.Valid()
    }

    function Ackno(): Option<U32> {
      if isn.None? then None else Some(Wrap(AckAbs(), isn.value))
    }

    /** The acknowledgment as an absolute sequence number; 0 before the SYN. */
    function AckAbs(): nat {
      if isn.None? then 0 else |reasm.out.written| + 1 + (if reasm.out.ended then 1 else 0)
    }

    function WindowSize(): nat
      requires reasm.out.Valid()
    {
      reasm.out.Room()
    }
  }

  function NewReceiver(capacity: nat): Receiver {
    Receiver(NewReassembler(capacity), None)
  }

  /** Where the payload of a segment goes; 64-bit, so a bare segment numbered `isn` underflows. */
  function StreamIndex(seg: TcpSegment, isn: U32): U64 {
    if seg.header.syn then 0 else (Offset(seg.header.seqno, isn) - 1) % 0x1_0000_0000_0000_0000
  }

  /** The payload ends below 2^64. */
  predicate Placeable(seg: TcpSegment, isn: U32) {
    StreamIndex(seg, isn) + |seg.payload| < 0x1_0000_0000_0000_0000
  }

  function IsnAfter(r: Receiver, seg: TcpSegment): Option<U32> {
    if seg.header.syn then Some(seg.header.seqno) else r.isn
  }

  ghost function Receive(r: Receiver, seg: TcpSegment, o: Oracle): (r': Receiver)
    requires r.Valid()
    ensures r'.Valid()
  {
    var isn := IsnAfter(r, seg);
    if isn.None? then r
    else Receiver(Push(r.reasm, seg.payload, StreamIndex(seg, isn.value), seg.header.fin, o), isn)
  }

  class TCPReceiver {
    const reassembler: StreamReassembler
    const capacity: nat
    var isn: Option<U32>

    ghost function View(): Receiver
      reads this, reassembler, reassembler.output
    {
      Receiver(reassembler.View(), isn)
    }

    ghost predicate Valid()
      reads this, reassembler, reassembler.output, reassembler.output.stream
    {
      reassembler.Valid() && reassembler.capacity == capacity
    }

    constructor (capacity: nat)
      ensures Valid() && View() == NewReceiver(capacity)
      ensures fresh(reassembler) && fresh(reassembler.output) && fresh(reassembler.output.stream)
    {
      reassembler := new StreamReassembler(capacity);
      this.capacity := capacity;
      isn := None;
    }

    /** Returns, for the specification, what the reassembler's map did. */
    method SegmentReceived(seg: TcpSegment) returns (ghost o: Oracle)
      requires Valid()
      requires IsnAfter(View(), seg).Some? ==> Placeable(seg, IsnAfter(View(), seg).value)
      modifies this, reassembler, reassembler.output, reassembler.output.stream
      ensures Valid() && Fits(o, old(reassembler.reassembler))
      ensures View() == Receive(old(View()), seg, o)
    {
      if seg.header.syn {
        isn := Some(seg.header.seqno);
      }
      if isn.Some? {
        var endFlag := seg.header.fin;
        var strIndex := 0;
        if !seg.header.syn {
          strIndex := (Offset(seg.header.seqno, isn.value) - 1) % 0x1_0000_0000_0000_0000;
        }
        o := reassembler.PushSubstring(seg.payload, strIndex, endFlag);
      } else {
        var keys := reassembler.CollectKeys();
        o := Oracle(keys, if keys == [] then 0 else keys[0]);
      }
    }

    method Ackno() returns (ackno: Option<U32>)
      requires Valid()
      ensures ackno == View().Ackno()
    {
      if isn.None? {
        return None;
      }
      var end := if reassembler.output.endFlag then 1 else 0;
      return Some(Wrap(reassembler.output.bytesW + 1 + end, isn.value));
    }

    method WindowSize() returns (n: nat)
      requires Valid()
      ensures n == View().WindowSize()
    {
      n := capacity - reassembler.output.size;
    }
  }
}
