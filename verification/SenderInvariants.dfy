/** What every sender operation keeps, and what it publishes. */
module SenderInvariants {
  import opened Prelude
  import opened WrappingIntegers
  import opened Reassembly
  import opened TcpSegments
  import opened Sending

  /** Longest stream whose sequence numbers, SYN and FIN included, stay below 2^32. */
  const LIMIT: nat := 0xFFFF_FFFD

  // ---------------------------------------------------------------- the published flow

  /** All a sender has put on the wire so far: the bytes, and whether SYN and FIN were among it. */
  datatype Flow = Flow(isn: U32, sent: Bytes, syn: bool, fin: bool) {

    function Next(): nat {
      |sent| + (if syn then 1 else 0) + (if fin then 1 else 0)
    }
  }

  function FlowOf(s: Sender): Flow
    requires s.stream.Valid()
  {
    Flow(s.isn, s.stream.written[..s.stream.read], s.phase != Init, s.phase == FinSent)
  }

  /** A flow only grows, and not at all after its FIN. */
  ghost predicate FlowLe(f: Flow, f': Flow) {
    f.isn == f'.isn && f.sent <= f'.sent && (f.syn ==> f'.syn) && (f.fin ==> f' == f)
  }

  function ByteIndex(f: Flow, seg: TcpSegment): int {
    if seg.header.syn then 0 else Offset(seg.header.seqno, f.isn) - 1
  }

  /** The segment is part of the flow: its number says where in the stream its payload lies. */
  ghost predicate Carries(f: Flow, seg: TcpSegment) {
    var i := ByteIndex(f, seg);
    && Offset(seg.header.seqno, f.isn) + seg.Length() <= f.Next()
    && (seg.header.syn ==> Offset(seg.header.seqno, f.isn) == 0 && f.syn)
    && (seg.payload != [] || seg.header.fin ==> i >= 0 && IsSlice(f.sent, seg.payload, i))
    && (seg.header.fin ==> f.fin && i + |seg.payload| == |f.sent|)
  }

  lemma {:induction false} CarriesGrows(f: Flow, f': Flow, seg: TcpSegment)
    requires Carries(f, seg) && FlowLe(f, f')
    ensures Carries(f', seg)
  {
  }

  ghost predicate AllCarried(f: Flow, segs: seq<TcpSegment>) {
    forall i :: 0 <= i < |segs| ==> Carries(f, segs[i])
  }

  /** The segments cover `a..b` of the sequence space in order, without gap or overlap. */
  ghost predicate Tiles(f: Flow, q: seq<TcpSegment>, a: nat, b: nat) {
    if q == [] then a == b
    else
      && Carries(f, q[0]) && q[0].Length() > 0
      && Offset(q[0].header.seqno, f.isn) == a
      && Tiles(f, q[1..], a + q[0].Length(), b)
  }

  lemma {:induction false} TilesGrows(f: Flow, f': Flow, q: seq<TcpSegment>, a: nat, b: nat)
    requires Tiles(f, q, a, b) && FlowLe(f, f')
    ensures Tiles(f', q, a, b)
    decreases q
  {
    if q != [] {
      CarriesGrows(f, f', q[0]);
      TilesGrows(f, f', q[1..], a + q[0].Length(), b);
    }
  }

  lemma {:induction false} TilesSnoc(f: Flow, q: seq<TcpSegment>, a: nat, b: nat, seg: TcpSegment)
    requires Tiles(f, q, a, b)
    requires Carries(f, seg) && seg.Length() > 0 && Offset(seg.header.seqno, f.isn) == b
    ensures Tiles(f, q + [seg], a, b + seg.Length())
    decreases q
  {
    if q == [] {
      assert q + [seg] == [seg];
    } else {
      TilesSnoc(f, q[1..], a + q[0].Length(), b, seg);
      assert (q + [seg])[1..] == q[1..] + [seg];
    }
  }

  lemma {:induction false} TilesOrdered(f: Flow, q: seq<TcpSegment>, a: nat, b: nat)
    requires Tiles(f, q, a, b)
    ensures a <= b && (q != [] ==> a < b)
    decreases q
  {
    if q != [] {
      TilesOrdered(f, q[1..], a + q[0].Length(), b);
    }
  }

  // ---------------------------------------------------------------- the invariant

  function Front(s: Sender): nat {
    if s.queue == [] then s.next else Offset(s.queue[0].header.seqno, s.isn)
  }

  /** The retransmission queue tiles the unacknowledged part of the sequence space. */
  ghost predicate QueueInv(s: Sender)
    requires s.stream.Valid()
  {
    && Tiles(FlowOf(s), s.queue, Front(s), s.next)
    && Front(s) <= s.AckAbs() <= s.next
    && (s.queue != [] ==> s.AckAbs() < Front(s) + s.queue[0].Length())
  }

  ghost predicate TimerInv(s: Sender) {
    && (s.timer.running <==> s.queue != [])
    && s.window >= 1
    && (s.consecutive > 0 ==> s.queue != [] && s.lastRetrans == Some(s.queue[0].header.seqno))
    && (s.consecutive <= 16 ==> s.initialRto <= s.rto <= Doubled(s.initialRto, s.consecutive))
  }

  ghost predicate CountInv(s: Sender) {
    && s.stream.Valid()
    && |s.stream.written| <= LIMIT
    && s.next == FlowOf(s).Next()
    && (s.phase == Init ==> s.stream.read == 0)
    && (s.phase == FinSent ==> s.stream.Eof())
  }

  ghost predicate SenderInv(s: Sender) {
    CountInv(s) && QueueInv(s) && TimerInv(s) && AllCarried(FlowOf(s), s.out)
  }

  lemma {:induction false} NewSenderInv(capacity: nat, retxTimeout: U16, isn: U32)
    ensures SenderInv(NewSender(capacity, retxTimeout, isn))
  {
  }

  /** Below the limit the counters do not wrap: the flight is what is sent and not acknowledged. */
  lemma {:induction false} InFlightExact(s: Sender)
    requires CountInv(s) && s.AckAbs() <= s.next
    ensures s.next < 0x1_0000_0000 && s.InFlight() == s.next - s.AckAbs()
    ensures s.InFlight() <= s.window ==> s.Gap() == s.window - s.InFlight()
    ensures s.InFlight() > s.window ==> s.Gap() > 0xFFFF_FFFF
  {
  }

  /** Queue, timer and flight agree: one is empty, stopped or zero exactly when all are. */
  lemma {:induction false} FlightIffQueue(s: Sender)
    requires SenderInv(s)
    ensures s.queue != [] <==> s.timer.running
    ensures s.queue != [] <==> s.InFlight() > 0
  {
    InFlightExact(s);
    TilesOrdered(FlowOf(s), s.queue, Front(s), s.next);
  }

  // ---------------------------------------------------------------- fill_window

  lemma {:induction false} FillOneFlow(s: Sender)
    requires CountInv(s) && CanSend(s)
    ensures CountInv(FillOne(s)) && FlowLe(FlowOf(s), FlowOf(FillOne(s)))
    ensures FlowOf(FillOne(s)).sent == FlowOf(s).sent + NextSegment(s).payload
  {
    var n := Min(PayloadRoom(s), s.stream.Buffered());
    assert s.stream.written[..s.stream.read + n]
        == s.stream.written[..s.stream.read] + s.stream.written[s.stream.read..s.stream.read + n];
  }

  lemma {:induction false} NextSegmentCarried(s: Sender)
    requires CountInv(s) && CanSend(s)
    ensures Carries(FlowOf(FillOne(s)), NextSegment(s))
    ensures Offset(NextSegment(s).header.seqno, s.isn) == s.next
  {
    FillOneFlow(s);
    OffsetWrap(s.next, s.isn);
  }

  lemma {:induction false} AllCarriedGrows(f: Flow, f': Flow, segs: seq<TcpSegment>)
    requires AllCarried(f, segs) && FlowLe(f, f')
    ensures AllCarried(f', segs)
  {
    forall i | 0 <= i < |segs|
      ensures Carries(f', segs[i])
    {
      CarriesGrows(f, f', segs[i]);
    }
  }

  lemma {:induction false} FillOneInv(s: Sender)
    requires SenderInv(s) && CanSend(s)
    ensures SenderInv(FillOne(s)) && FlowLe(FlowOf(s), FlowOf(FillOne(s)))
  {
    var s', seg := FillOne(s), NextSegment(s);
    var f, f' := FlowOf(s), FlowOf(s');
    FillOneFlow(s);
    NextSegmentCarried(s);
    TilesGrows(f, f', s.queue, Front(s), s.next);
    TilesSnoc(f', s.queue, Front(s), s.next, seg);
    AllCarriedGrows(f, f', s.out);
    assert Front(s') == Front(s);
  }

  lemma {:induction false} FillWindowInv(s: Sender)
    requires SenderInv(s)
    ensures SenderInv(FillWindow(s)) && FlowLe(FlowOf(s), FlowOf(FillWindow(s)))
    ensures FillWindow(s).stream == s.stream.(read := FillWindow(s).stream.read)
    ensures FillWindow(s).ack == s.ack && FillWindow(s).window == s.window
    decreases Unsent(s)
  {
    if CanSend(s) {
      FillOneInv(s);
      FillWindowInv(FillOne(s));
    }
  }

  // ---------------------------------------------------------------- ack_received

  lemma {:induction false} DropAckedTiles(f: Flow, q: seq<TcpSegment>, a: nat, b: nat, abs: nat)
    requires Tiles(f, q, a, b) && a <= abs <= b
    ensures var q' := DropAcked(q, f.isn, abs);
            if q' == [] then abs == b
            else
              var a' := Offset(q'[0].header.seqno, f.isn);
              Tiles(f, q', a', b) && a' <= abs < a' + q'[0].Length()
    decreases q
  {
    if q != [] && a + q[0].Length() <= abs {
      TilesOrdered(f, q[1..], a + q[0].Length(), b);
      DropAckedTiles(f, q[1..], a + q[0].Length(), b, abs);
    }
  }

  lemma {:induction false} AckReceivedQueue(s: Sender, ackno: U32, window: U16)
    requires CountInv(s) && QueueInv(s)
    ensures QueueInv(AckReceived(s, ackno, window))
  {
    if NewAck(s, ackno) {
      DropAckedTiles(FlowOf(s), s.queue, Front(s), s.next, Offset(ackno, s.isn));
      assert FlowOf(AckReceived(s, ackno, window)) == FlowOf(s);
    }
  }

  lemma {:induction false} AckReceivedInv(s: Sender, ackno: U32, window: U16)
    requires SenderInv(s)
    ensures SenderInv(AckReceived(s, ackno, window)) && FlowOf(AckReceived(s, ackno, window)) == FlowOf(s)
    ensures AckReceived(s, ackno, window).AckAbs() ==
            if NewAck(s, ackno) then Offset(ackno, s.isn) else s.AckAbs()
  {
    AckReceivedQueue(s, ackno, window);
    assert TimerInv(AckReceived(s, ackno, window));
  }

  // ---------------------------------------------------------------- tick, and the rest

  lemma {:induction false} DoubledMono(x: nat, m: nat, n: nat)
    requires m <= n
    ensures Doubled(x, m) <= Doubled(x, n)
    decreases n
  {
    if m < n {
      DoubledMono(x, m, n - 1);
    }
  }

  lemma {:induction false} DoubledThrice(x: nat, n: nat)
    ensures Doubled(x, n + 3) == 8 * Doubled(x, n)
  {
    assert Doubled(x, n + 1) == 2 * Doubled(x, n);
    assert Doubled(x, n + 2) == 2 * Doubled(x, n + 1);
  }

  /** Sixteen doublings of a 16-bit timeout still fit 32 bits. */
  lemma {:induction false} BackoffFits(initial: U16, count: nat)
    requires count <= 15
    ensures Doubled(initial, count) < 0x8000_0000
  {
    DoubledMono(initial, count, 15);
    DoubledThrice(initial, 0);
    DoubledThrice(initial, 3);
    DoubledThrice(initial, 6);
    DoubledThrice(initial, 9);
    DoubledThrice(initial, 12);
  }

  lemma {:induction false} RetransmitTimer(s: Sender)
    requires TimerInv(s) && s.queue != []
    ensures TimerInv(Retransmit(s)) && Retransmit(s).consecutive == s.consecutive + 1
  {
    if s.consecutive <= 15 {
      BackoffFits(s.initialRto, s.consecutive);
      assert Doubled(s.initialRto, s.consecutive + 1) == 2 * Doubled(s.initialRto, s.consecutive);
    }
  }

  lemma {:induction false} TickInv(s: Sender, ms: nat)
    requires SenderInv(s)
    ensures Expires(s, ms) ==> s.queue != []
    ensures SenderInv(Tick(s, ms)) && FlowOf(Tick(s, ms)) == FlowOf(s)
    ensures Tick(s, ms).ack == s.ack && Tick(s, ms).window == s.window
  {
    if Expires(s, ms) {
      RetransmitTimer(s);
      assert Carries(FlowOf(s), s.queue[0]);
    }
  }

  lemma {:induction false} SendEmptyInv(s: Sender)
    requires SenderInv(s)
    ensures SenderInv(SendEmpty(s)) && FlowOf(SendEmpty(s)) == FlowOf(s)
  {
    OffsetWrap(s.next, s.isn);
  }

  lemma {:induction false} WriteInv(s: Sender, data: Bytes)
    requires SenderInv(s) && |s.stream.Write(data).written| <= LIMIT
    ensures SenderInv(s.(stream := s.stream.Write(data)))
    ensures FlowOf(s.(stream := s.stream.Write(data))) == FlowOf(s)
  {
    var s' := s.(stream := s.stream.Write(data));
    assert s'.stream.written[..s.stream.read] == s.stream.written[..s.stream.read];
    assert FlowOf(s') == FlowOf(s);
  }

  lemma {:induction false} EndInputInv(s: Sender)
    requires SenderInv(s)
    ensures SenderInv(s.(stream := s.stream.EndInput())) && FlowOf(s.(stream := s.stream.EndInput())) == FlowOf(s)
  {
    assert FlowOf(s.(stream := s.stream.EndInput())) == FlowOf(s);
  }

  lemma {:induction false} DrainInv(s: Sender)
    requires SenderInv(s)
    ensures SenderInv(s.(out := [])) && FlowOf(s.(out := [])) == FlowOf(s)
  {
    assert FlowOf(s.(out := [])) == FlowOf(s);
  }
}
