/** The sender over whole runs: its invariant, its window, its timer. */
module SenderRuns {
  import opened Prelude
  import opened WrappingIntegers
  import opened ByteStreams
  import opened TcpSegments
  import opened Sending
  import opened SenderInvariants

  // ---------------------------------------------------------------- any run of the sender

  /** Everything the owner of a sender can do to it. Acknowledgments may be anything at all. */
  datatype SenderEvent =
    | Write(data: Bytes)
    | EndInput
    | Fill
    | Ack(ackno: U32, window: U16)
    | Elapse(ms: nat)
    | Empty
    | Drain

  /** One step. Where the source would read the front of an empty queue, any next state is allowed. */
  ghost predicate SenderNext(s: Sender, e: SenderEvent, s': Sender)
    requires s.stream.Valid()
  {
    match e
    case Write(data) => s' == s.(stream := s.stream.Write(data))
    case EndInput => s' == s.(stream := s.stream.EndInput())
    case Fill => s' == FillWindow(s)
    case Ack(ackno, window) => s' == AckReceived(s, ackno, window)
    case Elapse(ms) => (Expires(s, ms) && s.queue == []) || s' == Tick(s, ms)
    case Empty => s' == SendEmpty(s)
    case Drain => s' == s.(out := [])
  }

  ghost predicate IsRun(states: seq<Sender>, events: seq<SenderEvent>) {
    && |states| == |events| + 1
    && (exists capacity: nat, retx: U16, isn: U32 :: states[0] == NewSender(capacity, retx, isn))
    && forall i :: 0 <= i < |events| ==> states[i].stream.Valid() && SenderNext(states[i], events[i], states[i + 1])
  }

  lemma {:induction false} NextInv(s: Sender, e: SenderEvent, s': Sender)
    requires SenderInv(s) && SenderNext(s, e, s') && |s'.stream.written| <= LIMIT
    ensures SenderInv(s') && FlowLe(FlowOf(s), FlowOf(s'))
    ensures !e.Ack? ==> s'.ack == s.ack && s'.window == s.window
  {
    match e
    case Write(data) => WriteInv(s, data);
    case EndInput => EndInputInv(s);
    case Fill => FillWindowInv(s);
    case Ack(ackno, window) => AckReceivedInv(s, ackno, window);
    case Elapse(ms) => TickInv(s, ms);
    case Empty => SendEmptyInv(s);
    case Drain => DrainInv(s);
  }

  /** In every run within the limit, every state satisfies the sender invariant. */
  lemma {:induction false} RunInv(states: seq<Sender>, events: seq<SenderEvent>, n: nat)
    requires IsRun(states, events) && n < |states|
    requires forall i :: 0 <= i < |states| ==> |states[i].stream.written| <= LIMIT
    ensures SenderInv(states[n])
  {
    if n == 0 {
      var capacity: nat, retx: U16, isn: U32 :| states[0] == NewSender(capacity, retx, isn);
      NewSenderInv(capacity, retx, isn);
    } else {
      RunInv(states, events, n - 1);
      assert SenderNext(states[n - 1], events[n - 1], states[n]);
      NextInv(states[n - 1], events[n - 1], states[n]);
    }
  }

  /** Every byte sent and not acknowledged sits in the retransmission queue, at its own place. */
  ghost predicate Queued(q: seq<TcpSegment>, isn: U32, abs: nat, b: Byte) {
    exists j :: 0 <= j < |q| && HoldsByte(q[j], isn, abs, b)
  }

  predicate HoldsByte(seg: TcpSegment, isn: U32, abs: nat, b: Byte) {
    var start := Offset(seg.header.seqno, isn) + (if seg.header.syn then 1 else 0);
    start <= abs < start + |seg.payload| && seg.payload[abs - start] == b
  }

  lemma {:induction false} TilesQueued(f: Flow, q: seq<TcpSegment>, a: nat, b: nat, abs: nat)
    requires Tiles(f, q, a, b) && a <= abs < b && 1 <= abs <= |f.sent|
    ensures Queued(q, f.isn, abs, f.sent[abs - 1])
    decreases q
  {
    var seg := q[0];
    if abs < a + seg.Length() {
      assert HoldsByte(q[0], f.isn, abs, f.sent[abs - 1]);
    } else {
      TilesQueued(f, q[1..], a + seg.Length(), b, abs);
      var j :| 0 <= j < |q[1..]| && HoldsByte(q[1..][j], f.isn, abs, f.sent[abs - 1]);
      assert q[j + 1] == q[1..][j];
    }
  }

  lemma {:induction false} UnackedBytesQueued(s: Sender, abs: nat)
    requires SenderInv(s) && s.AckAbs() <= abs < s.next && 1 <= abs <= s.stream.read
    ensures Queued(s.queue, s.isn, abs, s.stream.written[abs - 1])
  {
    TilesQueued(FlowOf(s), s.queue, Front(s), s.next, abs);
  }

  // ---------------------------------------------------------------- fill_window

  /** The bytes a row of segments carries. */
  function Payload(segs: seq<TcpSegment>): Bytes {
    if segs == [] then [] else segs[0].payload + Payload(segs[1..])
  }

  /** The segments `fill_window` adds. */
  function NewSegments(s: Sender): seq<TcpSegment>
    requires s.stream.Valid()
    decreases Unsent(s)
  {
    if CanSend(s) then [NextSegment(s)] + NewSegments(FillOne(s)) else []
  }

  lemma {:induction false} FillAppends(s: Sender)
    requires s.stream.Valid()
    ensures FillWindow(s).queue == s.queue + NewSegments(s) && FillWindow(s).out == s.out + NewSegments(s)
    decreases Unsent(s)
  {
    if CanSend(s) {
      FillAppends(FillOne(s));
      var more := NewSegments(FillOne(s));
      SeqAssoc(s.queue, [NextSegment(s)], more);
      SeqAssoc(s.out, [NextSegment(s)], more);
    }
  }

  lemma {:induction false} FillOneReads(s: Sender)
    requires s.stream.Valid() && s.Gap() > 0
    ensures s.stream.read <= FillOne(s).stream.read <= |s.stream.written|
    ensures FillOne(s).stream == s.stream.(read := FillOne(s).stream.read)
    ensures |NextSegment(s).payload| <= MAX_PAYLOAD
  {
  }

  lemma {:induction false} NewSegmentsShort(s: Sender)
    requires s.stream.Valid()
    ensures forall i :: 0 <= i < |NewSegments(s)| ==> |NewSegments(s)[i].payload| <= MAX_PAYLOAD
    decreases Unsent(s)
  {
    if CanSend(s) {
      FillOneReads(s);
      NewSegmentsShort(FillOne(s));
    }
  }

  lemma {:induction false} FillReads(s: Sender)
    requires s.stream.Valid()
    ensures s.stream.read <= FillWindow(s).stream.read <= |s.stream.written|
    ensures FillWindow(s).stream == s.stream.(read := FillWindow(s).stream.read)
    decreases Unsent(s)
  {
    if CanSend(s) {
      FillOneReads(s);
      FillReads(FillOne(s));
    }
  }

  /** `fill_window` queues, and sends, exactly the bytes it reads from the stream. */
  lemma {:induction false} FillConserves(s: Sender)
    requires s.stream.Valid()
    ensures s.stream.read <= FillWindow(s).stream.read <= |s.stream.written|
    ensures Payload(NewSegments(s)) == s.stream.written[s.stream.read..FillWindow(s).stream.read]
    decreases Unsent(s)
  {
    if CanSend(s) {
      FillReads(s);
      FillReads(FillOne(s));
      FillConserves(FillOne(s));
      var more := NewSegments(FillOne(s));
      assert ([NextSegment(s)] + more)[1..] == more;
      SliceJoin(s.stream.written, s.stream.read, FillOne(s).stream.read, FillWindow(FillOne(s)).stream.read);
    }
  }

  /** The flight stays within the window exactly if it was within it on entry. */
  lemma {:induction false} FillWithinWindowIff(s: Sender)
    requires SenderInv(s)
    ensures FillWindow(s).InFlight() <= s.window <==> s.InFlight() <= s.window
    ensures s.InFlight() <= FillWindow(s).InFlight()
    decreases Unsent(s)
  {
    if CanSend(s) {
      InFlightExact(s);
      FillOneInv(s);
      InFlightExact(FillOne(s));
      assert NextSegment(s).Length() <= s.Gap();
      FillWithinWindowIff(FillOne(s));
    }
  }

  /** It stops only with the window full, the FIN sent, or nothing left of a stream that is still open. */
  lemma {:induction false} FillStops(s: Sender)
    requires SenderInv(s)
    ensures var s' := FillWindow(s);
            s'.Gap() == 0 || s'.phase == FinSent || (s'.stream.Buffered() == 0 && !s'.stream.ended)
    decreases Unsent(s)
  {
    if CanSend(s) {
      FillOneInv(s);
      FillStops(FillOne(s));
    }
  }

  /** Entered with more in flight than the window, the guard wraps and the whole stream is sent regardless. */
  lemma {:induction false} FillOverruns(s: Sender)
    requires SenderInv(s) && s.InFlight() > s.window
    ensures FillWindow(s).stream.Buffered() == 0
    ensures s.stream.ended ==> FillWindow(s).phase == FinSent
  {
    FillStops(s);
    FillWithinWindowIff(s);
    FillWindowInv(s);
    InFlightExact(FillWindow(s));
  }

  /** An old or repeated acknowledgment still installs its window; if that is below the flight, nothing holds back. */
  lemma {:induction false} ShrunkenWindowOverruns(s: Sender, ackno: U32, window: U16)
    requires SenderInv(s) && !NewAck(s, ackno) && s.InFlight() > Max(window, 1)
    ensures var s' := FillWindow(AckReceived(s, ackno, window));
            && s'.InFlight() > s'.window
            && s'.stream.Buffered() == 0 && (s.stream.ended ==> s'.phase == FinSent)
  {
    AckReceivedInv(s, ackno, window);
    FillOverruns(AckReceived(s, ackno, window));
    FillWithinWindowIff(AckReceived(s, ackno, window));
    FillWindowInv(AckReceived(s, ackno, window));
  }

  lemma {:induction false} FillsOnce(s: Sender, seg: TcpSegment, s': Sender)
    requires s.stream.Valid() && s.Gap() > 0 && s.phase != FinSent && NextSegment(s) == seg && seg.Length() > 0
    requires s' == FillOne(s) && (s'.Gap() == 0 || (s'.stream.Buffered() == 0 && !s'.stream.ended))
    requires s'.phase == SynSent
    ensures FillWindow(s) == s'
  {
  }

  // A run that gets there: the SYN and two bytes are sent, the SYN is acknowledged, a third byte is written, and
  // the acknowledgment of the SYN comes again, now with a window of one.

  function Fragment(seqno: U32, syn: bool, payload: Bytes): TcpSegment {
    TcpSegment(DEFAULT_HEADER.(seqno := seqno, syn := syn), payload)
  }

  function Greeting(written: Bytes, next: nat, phase: Phase, segs: seq<TcpSegment>): Sender {
    Sender(0, 1000, Stream(9, written, 0, false, false), next, Some(0), segs, 0, 1000, 1, 0, false, phase,
           if segs == [] then Timer(false, 0) else Timer(true, 1000), segs)
  }

  function Talking(written: Bytes, read: nat, next: nat, window: U16, queue: seq<TcpSegment>,
                   out: seq<TcpSegment>): Sender
  {
    Sender(0, 1000, Stream(9, written, read, false, false), next, Some(0), queue, 0, 1000, window, 1, false, SynSent,
           Timer(queue != [], 1000), out)
  }

  lemma {:induction false} GreetingFills(w: Bytes)
    requires |w| == 2
    ensures FillWindow(Greeting(w, 0, Init, [])) == Greeting(w, 1, SynSent, [Fragment(0, true, [])])
  {
    var s := Greeting(w, 0, Init, []);
    assert s.Gap() == 1 && PayloadRoom(s) == 0;
    assert s.stream.Peek(0) == [];
    assert NextSegment(s) == Fragment(0, true, []);
    FillsOnce(s, Fragment(0, true, []), FillOne(s));
  }

  lemma {:induction false} TalkingFills(w: Bytes, out: seq<TcpSegment>)
    requires |w| == 2
    ensures FillWindow(Talking(w, 0, 1, 2, [], out))
         == Talking(w, 2, 3, 2, [Fragment(1, false, w)], out + [Fragment(1, false, w)])
  {
    var s := Talking(w, 0, 1, 2, [], out);
    assert s.Gap() == 2 && PayloadRoom(s) == 2;
    assert s.stream.Peek(2) == w;
    assert NextSegment(s) == Fragment(1, false, w);
    FillsOnce(s, Fragment(1, false, w), FillOne(s));
  }

  lemma {:induction false} OverrunFills(w: Bytes, b: Byte, queue: seq<TcpSegment>, out: seq<TcpSegment>)
    requires |w| == 2 && queue != []
    ensures FillWindow(Talking(w + [b], 2, 3, 1, queue, out))
         == Talking(w + [b], 3, 4, 1, queue + [Fragment(3, false, [b])], out + [Fragment(3, false, [b])])
    ensures FillWindow(Talking(w + [b], 2, 3, 1, queue, out)).InFlight() == 3
  {
    var s := Talking(w + [b], 2, 3, 1, queue, out);
    assert s.Gap() == 0xFFFF_FFFF_FFFF_FFFF && PayloadRoom(s) == MAX_PAYLOAD;
    assert s.stream.Peek(MAX_PAYLOAD) == [b];
    assert NextSegment(s) == Fragment(3, false, [b]);
    FillsOnce(s, Fragment(3, false, [b]), FillOne(s));
  }

  lemma {:induction false} GreetingAcked(w: Bytes, syn: TcpSegment)
    requires |w| == 2 && syn == Fragment(0, true, [])
    ensures AckReceived(Greeting(w, 1, SynSent, [syn]), 1, 2) == Talking(w, 0, 1, 2, [], [syn])
  {
    assert DropAcked([syn], 0, 1) == DropAcked([syn][1..], 0, 1) == [];
  }

  lemma {:induction false} WindowShrinks(w: Bytes, queue: seq<TcpSegment>, out: seq<TcpSegment>)
    ensures AckReceived(Talking(w, 2, 3, 2, queue, out), 1, 1) == Talking(w, 2, 3, 1, queue, out)
    ensures !NewAck(Talking(w, 2, 3, 2, queue, out), 1) && Talking(w, 2, 3, 2, queue, out).InFlight() == 2
  {
  }

  lemma {:induction false} RunSnoc(states: seq<Sender>, events: seq<SenderEvent>, e: SenderEvent, s': Sender)
    requires IsRun(states, events) && states[|events|].stream.Valid() && SenderNext(states[|events|], e, s')
    ensures IsRun(states + [s'], events + [e])
  {
  }

  lemma {:induction false} TwoInFlight(w: Bytes, b: Byte) returns (states: seq<Sender>, events: seq<SenderEvent>)
    requires |w| == 2
    ensures IsRun(states, events) && events == [Write(w), Fill, Ack(1, 2), Fill, Write([b])]
    ensures var two := [Fragment(1, false, w)];
            states[5] == Talking(w + [b], 2, 3, 2, two, [Fragment(0, true, [])] + two)
  {
    var syn, two := Fragment(0, true, []), Fragment(1, false, w);
    var s3 := Talking(w, 0, 1, 2, [], [syn]);
    var s4 := Talking(w, 2, 3, 2, [two], [syn] + [two]);
    GreetingFills(w);
    states := [NewSender(9, 1000, 0), Greeting(w, 0, Init, []), Greeting(w, 1, SynSent, [syn])];
    events := [Write(w), Fill];
    GreetingAcked(w, syn);
    RunSnoc(states, events, Ack(1, 2), s3);
    TalkingFills(w, [syn]);
    RunSnoc(states + [s3], events + [Ack(1, 2)], Fill, s4);
    states, events := states + [s3] + [s4], events + [Ack(1, 2)] + [Fill];
    var s5 := s4.(stream := s4.stream.Write([b]));
    RunSnoc(states, events, Write([b]), s5);
    states, events := states + [s5], events + [Write([b])];
  }

  /** For any three bytes, the last acknowledgment below leaves three bytes in flight in a window of one. */
  lemma {:induction false} OverrunHappens(w: Bytes, b: Byte) returns (states: seq<Sender>, events: seq<SenderEvent>)
    requires |w| == 2
    ensures IsRun(states, events)
    ensures events == [Write(w), Fill, Ack(1, 2), Fill, Write([b]), Ack(1, 1), Fill]
    ensures !NewAck(states[5], 1) && states[5].InFlight() == 2
    ensures states[7].window == 1 && states[7].InFlight() == 3
  {
    states, events := TwoInFlight(w, b);
    var queue, out := states[5].queue, states[5].out;
    WindowShrinks(w + [b], queue, out);
    var s6 := Talking(w + [b], 2, 3, 1, queue, out);
    RunSnoc(states, events, Ack(1, 1), s6);
    OverrunFills(w, b, queue, out);
    RunSnoc(states + [s6], events + [Ack(1, 1)], Fill, FillWindow(s6));
    states, events := states + [s6] + [FillWindow(s6)], events + [Ack(1, 1)] + [Fill];
  }

  // ---------------------------------------------------------------- new acknowledgments

  /** A new acknowledgment resets count and timeout, and restarts the timer for what is still queued. */
  lemma {:induction false} NewAckResets(s: Sender, ackno: U32, window: U16)
    requires SenderInv(s) && NewAck(s, ackno)
    ensures var s' := AckReceived(s, ackno, window);
            && s'.consecutive == 0 && s'.rto == s.initialRto
            && (if s'.InFlight() > 0 then s'.timer == Timer(true, s.initialRto) else !s'.timer.running)
  {
    AckReceivedInv(s, ackno, window);
    FlightIffQueue(AckReceived(s, ackno, window));
  }
}
