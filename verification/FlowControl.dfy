/**
 * Flow control and reassembly together: a sender that heeds the windows it is told never sends what the receiver
 * cannot keep, and the window check turns away the rest.
 */
module FlowControl {
  import opened Prelude
  import opened WrappingIntegers
  import opened Reassembly
  import opened ReassemblyRuns
  import opened TcpSegments
  import opened TcpReceivers
  import opened Sending
  import opened SenderInvariants
  import opened Transport
  import opened Connections
  import Links

  // ---------------------------------------------------------------- what fits

  /** The first absolute number no byte of which the receiver could keep now. */
  function Bound(r: Receiver): nat {
    r.reasm.out.capacity + r.reasm.out.read + 1
  }

  /** The absolute number of the first payload byte. */
  function FirstByteAt(seg: TcpSegment, isn: U32): nat {
    Offset(seg.header.seqno, isn) + (if seg.header.syn then 1 else 0)
  }

  /** The payload lies below the bound, or is the single byte of a window probe just at it. */
  predicate BytesFit(seg: TcpSegment, isn: U32, bound: nat) {
    || seg.payload == []
    || FirstByteAt(seg, isn) + |seg.payload| <= bound
    || (|seg.payload| == 1 && seg.Length() == 1 && FirstByteAt(seg, isn) <= bound)
  }

  ghost predicate AllFit(segs: seq<TcpSegment>, isn: U32, bound: nat) {
    forall i :: 0 <= i < |segs| ==> BytesFit(segs[i], isn, bound)
  }

  // ---------------------------------------------------------------- the receiver

  /** Nothing is stored that the buffer could not take. */
  ghost predicate StoreBelow(r: Reassembler) {
    forall p: nat :: InStore(r.store, p) ==> p < r.out.capacity + r.out.read
  }

  lemma {:induction false} SubsetSize(a: set<nat>, b: set<nat>)
    requires a <= b
    ensures |a| <= |b|
    decreases |a|
  {
    if x :| x in a {
      SubsetSize(a - {x}, b - {x});
    }
  }

  lemma {:induction false} BoundedTotal(store: Store, w: nat, hi: nat)
    requires Disjoint(store) && w <= hi && forall p: nat :: InStore(store, p) ==> w <= p < hi
    ensures Total(store) <= hi - w
  {
    PositionsAreTotal(store);
    SubsetSize(Positions(store), Range(w, hi));
  }

  lemma {:induction false} FreshAbsorbPast(r: Reassembler, data: Bytes, index: nat, order: seq<nat>, p: nat)
    requires Past(r.store, r.willing) && Disjoint(r.store) && data != [] && index + |data| > r.willing
    requires forall k :: k in r.store ==> k in order
    requires InStore(Absorb(r, data, index, order), p)
    ensures p >= r.willing
  {
    var (d, i) := Fresh(r, data, index);
    FreshRange(r, data, index);
    var m := MergeAll(r.store, order, d, i);
    MergeAllHull(r.store, order, d, i);
    MergeAllUntouched(r.store, order, d, i);
    HullAtOrPast(r.store, i, i + |d|, m.index, m.End(), r.willing);
  }

  /** A push with something new that lies below the bound does not overflow. */
  lemma {:induction false} FreshPushFits(r: Reassembler, data: Bytes, index: nat, eof: bool, o: Oracle, source: Bytes)
    requires Inv(r, source) && Fits(o, r.store) && StoreBelow(r)
    requires data != [] && r.willing < index + |data| <= r.out.capacity + r.out.read
    ensures !PushOverflows(r, data, index, eof, o)
  {
    var r0 := NoteEof(r, data, index, eof);
    var store, hi := Absorb(r0, data, index, o.order), r.out.capacity + r.out.read;
    AbsorbDisjoint(r0, data, index, o.order);
    forall p: nat | InStore(store, p)
      ensures r.willing <= p < hi
    {
      FreshAbsorbPast(r0, data, index, o.order, p);
      AbsorbHas(r0, data, index, o.order, p);
      assert Has(r0, p) || index <= p < index + |data|;
    }
    BoundedTotal(store, r.willing, hi);
  }

  lemma {:induction false} SomeListed(order: seq<nat>)
    ensures order != [] ==> exists k :: k in order
  {
    if order != [] {
      assert order[0] in order;
    }
  }

  /** A push of nothing but bytes already written changes nothing, if nothing is stored. */
  lemma {:induction false} StalePushKeeps(r: Reassembler, data: Bytes, index: nat, eof: bool, o: Oracle, p: nat)
    requires r.out.Valid() && r.store == map[] && Fits(o, r.store) && index + |data| <= r.willing
    ensures Has(Push(r, data, index, eof, o), p) <==> Has(r, p)
  {
    if data != [] {
      var r0 := NoteEof(r, data, index, eof);
      SomeListed(o.order);
      var store := Absorb(r0, data, index, o.order);
      assert store == map[index := data];
      var r1 := r0.(store := MakeRoom(r0, store, o));
      assert r1.store == store && Gather(store, r.willing) == [];
      assert Flush(r1).willing == r.willing && Flush(r1).store == KeysPast(store, r.willing) == map[];
    }
  }

  /** A push the sender was allowed to make. */
  ghost predicate Allowed(r: Reassembler, data: Bytes, index: nat) {
    || data == []
    || r.willing < index + |data| <= r.out.capacity + r.out.read
    || (index + |data| <= r.willing && r.store == map[])
  }

  /** Every byte of an allowed push is kept, and none is lost for it. */
  lemma {:induction false} AllowedKept(r: Reassembler, data: Bytes, index: nat, eof: bool, o: Oracle, source: Bytes,
                                       p: nat)
    requires Inv(r, source) && Honest(source, data, index, eof) && Fits(o, r.store) && StoreBelow(r)
    requires Allowed(r, data, index)
    ensures Has(Push(r, data, index, eof, o), p) <==> Has(r, p) || index <= p < index + |data|
  {
    if data == [] || r.willing < index + |data| {
      if data != [] {
        FreshPushFits(r, data, index, eof, o, source);
      }
      PushHas(r, data, index, eof, o, source, p);
    } else {
      StalePushKeeps(r, data, index, eof, o, p);
    }
  }

  lemma {:induction false} AllowedBelow(r: Reassembler, data: Bytes, index: nat, eof: bool, o: Oracle, source: Bytes)
    requires Inv(r, source) && Honest(source, data, index, eof) && Fits(o, r.store) && StoreBelow(r)
    requires Allowed(r, data, index)
    ensures StoreBelow(Push(r, data, index, eof, o))
  {
    var r' := Push(r, data, index, eof, o);
    PushInv(r, data, index, eof, o, source);
    PushStream(r, data, index, eof, o);
    forall p: nat | InStore(r'.store, p)
      ensures p < r'.out.capacity + r'.out.read
    {
      AllowedKept(r, data, index, eof, o, source, p);
      var k :| k in r'.store && k <= p < k + |r'.store[k]|;
      assert p > r'.willing >= r.willing;
    }
  }

  lemma {:induction false} EndedIsEmpty(r: Reassembler, source: Bytes)
    requires Inv(r, source) && r.willing == |source|
    ensures r.store == map[]
  {
    assert forall k :: k in r.store ==> IsSlice(source, r.store[k], k);
  }

  /** What an endpoint knows about where its peer's stream starts. */
  ghost predicate KnowsIsn(c: Conn) {
    if c.rcv.isn.Some? then c.peerIsn == c.rcv.isn else c.rcv.reasm.willing == 0
  }

  lemma {:induction false} PassedIsAhead(c: Conn, f: Flow, ack: nat, seg: TcpSegment, i: nat)
    requires Agrees(f, ack, c.rcv) && f.Next() < 0x1_0000_0000 && Carries(f, seg) && KnowsIsn(c) && InWindow(c, seg)
    requires BytesFit(seg, f.isn, Bound(c.rcv)) && c.rcv.isn.Some? && |seg.payload| > 0
    requires i + 1 == FirstByteAt(seg, f.isn)
    ensures var r := c.rcv.reasm;
            || r.willing < i + |seg.payload| <= r.out.capacity + r.out.read
            || i + |seg.payload| == r.willing == |f.sent|
  {
    AcknoIssued(f, ack, c.rcv);
    RightEdgeIs(f, ack, c.rcv);
  }

  lemma {:induction false} PassedAfterSyn(c: Conn, f: Flow, ack: nat, seg: TcpSegment, i: nat)
    requires Agrees(f, ack, c.rcv) && f.Next() < 0x1_0000_0000 && Carries(f, seg) && InWindow(c, seg) && KnowsIsn(c)
    requires BytesFit(seg, f.isn, Bound(c.rcv)) && c.rcv.isn.Some? && |seg.payload| > 0
    requires i + 1 == FirstByteAt(seg, f.isn)
    ensures Allowed(c.rcv.reasm, seg.payload, i)
  {
    PassedIsAhead(c, f, ack, seg, i);
    if i + |seg.payload| == c.rcv.reasm.willing == |f.sent| {
      EndedIsEmpty(c.rcv.reasm, f.sent);
    }
  }

  /** Whatever passes the window check, of what a heedful sender sent, is allowed. */
  lemma {:induction false} PassedIsAllowed(c: Conn, f: Flow, ack: nat, seg: TcpSegment)
    requires Agrees(f, ack, c.rcv) && f.Next() < 0x1_0000_0000 && Carries(f, seg) && KnowsIsn(c)
    requires BytesFit(seg, f.isn, Bound(c.rcv)) && InWindow(c, seg) && IsnAfter(c.rcv, seg).Some?
    ensures Allowed(c.rcv.reasm, seg.payload, StreamIndex(seg, f.isn))
  {
    if seg.payload != [] {
      var i := StreamIndex(seg, f.isn);
      assert i + 1 == FirstByteAt(seg, f.isn);
      if c.rcv.isn.Some? {
        PassedAfterSyn(c, f, ack, seg, i);
      }
    }
  }

  // ---------------------------------------------------------------- the sender

  /** Where the last window the sender was told ends; a probe goes past it. */
  function ToldEdge(s: Sender): nat {
    s.AckAbs() + (if s.probe then 0 else s.window)
  }

  /** The sender keeps to what it was told, and was told nothing the receiver does not stand by. */
  ghost predicate Heeds(s: Sender, r: Receiver)
    requires r.Valid()
  {
    && s.InFlight() <= s.window
    && (s.probe ==> s.window == 1)
    && (if s.AckAbs() == 0 then s.window == 1 && !s.probe else ToldEdge(s) <= RightEdge(r))
    && AllFit(s.queue, s.isn, Bound(r)) && AllFit(s.out, s.isn, Bound(r))
  }

  lemma {:induction false} AllFitGrows(segs: seq<TcpSegment>, isn: U32, bound: nat, bound': nat)
    requires AllFit(segs, isn, bound) && bound <= bound'
    ensures AllFit(segs, isn, bound')
  {
  }

  /** The next segment fits. */
  lemma {:induction false} NextFits(s: Sender, r: Receiver)
    requires SenderInv(s) && Agrees(FlowOf(s), s.AckAbs(), r) && Heeds(s, r) && CanSend(s)
    ensures BytesFit(NextSegment(s), s.isn, Bound(r))
  {
    var seg := NextSegment(s);
    InFlightExact(s);
    NextSegmentCarried(s);
    AgreesMeans(FlowOf(s), s.AckAbs(), r);
    assert !r.reasm.out.ended;
    assert seg.Length() <= s.Gap();
    if s.AckAbs() > 0 {
      RightEdgeIs(FlowOf(s), s.AckAbs(), r);
    }
  }

  lemma {:induction false} FillHeeds(s: Sender, r: Receiver)
    requires SenderInv(s) && Agrees(FlowOf(s), s.AckAbs(), r) && Heeds(s, r)
    ensures Heeds(FillWindow(s), r)
    decreases Unsent(s)
  {
    if CanSend(s) {
      NextFits(s, r);
      FillOneInv(s);
      FillOneStays(s, r);
      AgreesGrows(FlowOf(s), FlowOf(FillOne(s)), s.AckAbs(), r);
      FillHeeds(FillOne(s), r);
    }
  }

  lemma {:induction false} FillOneFlight(s: Sender)
    requires SenderInv(s) && CanSend(s) && s.InFlight() <= s.window
    ensures FillOne(s).InFlight() <= s.window && FillOne(s).AckAbs() == s.AckAbs()
  {
    FillOneInv(s);
    InFlightExact(s);
    InFlightExact(FillOne(s));
    assert NextSegment(s).Length() <= s.Gap();
  }

  lemma {:induction false} FillOneStays(s: Sender, r: Receiver)
    requires SenderInv(s) && r.Valid() && Heeds(s, r) && CanSend(s) && BytesFit(NextSegment(s), s.isn, Bound(r))
    ensures Heeds(FillOne(s), r)
  {
    FillOneFlight(s);
    var s', seg := FillOne(s), NextSegment(s);
    assert s'.queue == s.queue + [seg] && s'.out == s.out + [seg];
    AllFitSnoc(s.queue, seg, s.isn, Bound(r));
    AllFitSnoc(s.out, seg, s.isn, Bound(r));
  }

  lemma {:induction false} AllFitSnoc(segs: seq<TcpSegment>, seg: TcpSegment, isn: U32, bound: nat)
    requires AllFit(segs, isn, bound) && BytesFit(seg, isn, bound)
    ensures AllFit(segs + [seg], isn, bound)
  {
  }

  /** An acknowledgment no older than the last one, in number and in right edge. */
  ghost predicate NotOlder(s: Sender, ackno: U32, window: U16) {
    s.AckAbs() > 0 ==> s.AckAbs() <= Offset(ackno, s.isn) && ToldEdge(s) <= Offset(ackno, s.isn) + window
  }

  lemma {:induction false} AckHeeds(s: Sender, ackno: U32, window: U16, r: Receiver)
    requires SenderInv(s) && Agrees(FlowOf(s), s.AckAbs(), r) && Heeds(s, r) && NotOlder(s, ackno, window)
    requires Issued(r, s.isn, ackno) && Offset(ackno, s.isn) + window <= RightEdge(r)
    ensures Heeds(AckReceived(s, ackno, window), r)
  {
    AgreesMeans(FlowOf(s), s.AckAbs(), r);
    var told := if s.AckAbs() == 0 || s.probe then 0 else s.window;
    Links.AckHolds(s, s.AckAbs(), told, ackno, window);
    DropAckedFits(s.queue, s.isn, Offset(ackno, s.isn), Bound(r));
  }

  lemma {:induction false} DropAckedFits(queue: seq<TcpSegment>, isn: U32, abs: nat, bound: nat)
    requires AllFit(queue, isn, bound)
    ensures AllFit(DropAcked(queue, isn, abs), isn, bound)
    decreases queue
  {
    if queue != [] && Offset(queue[0].header.seqno, isn) + queue[0].Length() <= abs {
      DropAckedFits(queue[1..], isn, abs, bound);
    }
  }

  lemma {:induction false} TickHeeds(s: Sender, ms: nat, r: Receiver)
    requires SenderInv(s) && r.Valid() && Heeds(s, r)
    ensures Expires(s, ms) ==> s.queue != []
    ensures Heeds(Sending.Tick(s, ms), r)
  {
    TickInv(s, ms);
  }

  /** A receiver that has moved on stands by everything it said. */
  lemma {:induction false} HeedsOn(s: Sender, f: Flow, r: Receiver, r': Receiver)
    requires Agrees(f, s.AckAbs(), r) && Agrees(f, s.AckAbs(), r') && ReceiverLe(r, r') && Heeds(s, r)
    ensures Heeds(s, r')
  {
    if s.AckAbs() > 0 {
      RightEdgeMonotone(f, s.AckAbs(), r, r');
    }
    AllFitGrows(s.queue, s.isn, Bound(r), Bound(r'));
    AllFitGrows(s.out, s.isn, Bound(r), Bound(r'));
  }
}
