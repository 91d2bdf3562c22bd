/** One direction of a connection: how a sender's flow and the peer's receiver fit together. */
module Transport {
  import opened Prelude
  import opened WrappingIntegers
  import opened Reassembly
  import opened TcpSegments
  import opened TcpReceivers
  import opened SenderInvariants

  /** The receiver holds only what the flow sent, and is at least as far as the sender was told. */
  ghost predicate Agrees(f: Flow, ack: nat, r: Receiver) {
    && Inv(r.reasm, f.sent)
    && (r.isn.Some? ==> r.isn == Some(f.isn) && f.syn)
    && (r.reasm.eofSeen ==> f.fin)
    && ack <= r.AckAbs()
  }

  /** What follows at once: the output is a prefix of what was sent, all of it once ended, and nothing is ahead. */
  lemma {:induction false} AgreesMeans(f: Flow, ack: nat, r: Receiver)
    requires Agrees(f, ack, r)
    ensures r.reasm.out.written <= f.sent
    ensures r.reasm.out.ended ==> f.fin && r.reasm.out.written == f.sent
    ensures ack <= r.AckAbs() <= f.Next()
    ensures ack == f.Next() > 0 && f.fin ==> r.reasm.out.ended
  {
  }

  lemma {:induction false} AgreesNew(f: Flow, capacity: nat)
    ensures Agrees(f, 0, NewReceiver(capacity))
  {
  }

  lemma {:induction false} AgreesGrows(f: Flow, f': Flow, ack: nat, r: Receiver)
    requires Agrees(f, ack, r) && FlowLe(f, f')
    ensures Agrees(f', ack, r)
  {
    if !f.fin {
      forall k | k in r.reasm.store
        ensures IsSlice(f'.sent, r.reasm.store[k], k)
      {
        assert IsSlice(f.sent, r.reasm.store[k], k);
      }
    }
  }

  /** The receiver only moves forward. */
  ghost predicate ReceiverLe(r: Receiver, r': Receiver) {
    && r.AckAbs() <= r'.AckAbs()
    && (r.isn.Some? ==> r'.isn == r.isn)
    && r.reasm.out.written <= r'.reasm.out.written
    && (r.reasm.out.ended ==> r'.reasm.out.ended)
    && r'.reasm.out.capacity == r.reasm.out.capacity
    && r.reasm.out.read <= r'.reasm.out.read
  }

  lemma {:induction false} CarriedIsHonest(f: Flow, seg: TcpSegment)
    requires Carries(f, seg)
    ensures Honest(f.sent, seg.payload, StreamIndex(seg, f.isn), seg.header.fin)
  {
  }

  lemma {:induction false} PushStream(r: Reassembler, data: Bytes, index: nat, eof: bool, o: Oracle)
    requires r.out.Valid()
    ensures var r' := Push(r, data, index, eof, o);
            && r'.out.capacity == r.out.capacity && r'.out.read == r.out.read
            && (r.out.ended ==> r'.out.ended)
            && (r'.eofSeen <==> r.eofSeen || eof)
  {
  }

  /** Delivering any segment of the flow, again or out of order, keeps the agreement and moves the receiver forward. */
  lemma {:induction false} ReceiveAgrees(f: Flow, ack: nat, r: Receiver, seg: TcpSegment, o: Oracle)
    requires Agrees(f, ack, r) && Carries(f, seg) && Fits(o, r.reasm.store)
    ensures Agrees(f, ack, Receive(r, seg, o)) && ReceiverLe(r, Receive(r, seg, o))
  {
    var isn := IsnAfter(r, seg);
    if isn.Some? {
      assert isn == Some(f.isn);
      CarriedIsHonest(f, seg);
      PushInv(r.reasm, seg.payload, StreamIndex(seg, f.isn), seg.header.fin, o, f.sent);
      PushStream(r.reasm, seg.payload, StreamIndex(seg, f.isn), seg.header.fin, o);
    }
  }

  lemma {:induction false} ReadAgrees(f: Flow, ack: nat, r: Receiver, n: nat)
    requires Agrees(f, ack, r)
    ensures var r' := r.(reasm := r.reasm.(out := r.reasm.out.Read(n))); Agrees(f, ack, r') && ReceiverLe(r, r')
  {
  }

  // ---------------------------------------------------------------- acknowledgments

  /** The acknowledgment was issued by this receiver, now or earlier. */
  ghost predicate Issued(r: Receiver, isn: U32, ackno: U32) {
    r.isn == Some(isn) && 1 <= Offset(ackno, isn) <= r.AckAbs()
  }

  lemma {:induction false} AcknoIssued(f: Flow, ack: nat, r: Receiver)
    requires Agrees(f, ack, r) && r.isn.Some? && f.Next() < 0x1_0000_0000
    ensures Issued(r, f.isn, r.Ackno().value) && Offset(r.Ackno().value, f.isn) == r.AckAbs()
  {
    AgreesMeans(f, ack, r);
    OffsetWrap(r.AckAbs(), f.isn);
  }

  /** The first sequence number past the advertised window. */
  function RightEdge(r: Receiver): nat
    requires r.reasm.out.Valid()
  {
    r.AckAbs() + r.WindowSize()
  }

  /** The right edge is fixed by what the application has read, so it never moves left. */
  lemma {:induction false} RightEdgeIs(f: Flow, ack: nat, r: Receiver)
    requires Agrees(f, ack, r) && r.isn.Some?
    ensures RightEdge(r) == r.reasm.out.capacity + r.reasm.out.read + 1 + (if r.reasm.out.ended then 1 else 0)
  {
  }

  lemma {:induction false} RightEdgeMonotone(f: Flow, ack: nat, r: Receiver, r': Receiver)
    requires Agrees(f, ack, r) && Agrees(f, ack, r') && ReceiverLe(r, r') && r.isn.Some?
    ensures RightEdge(r) <= RightEdge(r')
  {
    RightEdgeIs(f, ack, r);
    RightEdgeIs(f, ack, r');
  }

  /** The right edge as the peer sees it, the window cut to its 16-bit field. */
  function CutEdge(r: Receiver): nat
    requires r.reasm.out.Valid()
  {
    r.AckAbs() + r.WindowSize() % 0x1_0000
  }

  /** Reading a byte moves the cut edge left exactly when the field wraps, which takes a capacity above 65535. */
  lemma {:induction false} CutEdgeFallsIff(r: Receiver)
    requires r.Valid() && r.reasm.out.Buffered() >= 1
    ensures var r' := r.(reasm := r.reasm.(out := r.reasm.out.Read(1)));
            CutEdge(r') < CutEdge(r) <==> r.WindowSize() % 0x1_0000 == 0xFFFF
  {
  }

  /** It happens: one byte received, then read, with a capacity of 65536. */
  lemma {:induction false} CutEdgeFalls(seg: TcpSegment, b: Byte)
    requires seg == TcpSegment(DEFAULT_HEADER.(syn := true), [b])
    ensures var r := Receive(NewReceiver(0x1_0000), seg, Oracle([], 0));
            var r' := r.(reasm := r.reasm.(out := r.reasm.out.Read(1)));
            CutEdge(r) == 2 + 0xFFFF && CutEdge(r') == 2
  {
    var r0 := NewReceiver(0x1_0000).reasm;
    var store: Store := map[0 := [b]];
    assert Absorb(r0, [b], 0, []) == store;
    assert store - {0} == map[];
    assert Gather(store, 0) == [b] + Gather(map[], 1) == [b];
    assert Push(r0, [b], 0, false, Oracle([], 0)).out.written == [b];
  }
}
