/** When closing without lingering is safe for the peer, and when it is not. */
module PassiveClose {
  import opened Prelude
  import opened WrappingIntegers
  import opened Reassembly
  import opened TcpSegments
  import opened TcpReceivers
  import opened Sending
  import opened SenderInvariants
  import opened SenderRuns
  import opened Transport
  import opened Connections
  import opened ConnectionRuns
  import opened TwoParty
  import opened Copies

  // ---------------------------------------------------------------- a FIN that acknowledges everything

  /** The peer's stream had ended here before our own FIN went out. */
  ghost predicate EndsFirst(c: Conn) {
    c.snd.phase == FinSent ==> c.rcv.isn.Some? && c.rcv.reasm.out.ended
  }

  /** A segment that carries our FIN acknowledges all of the peer's flow, its FIN included. */
  ghost predicate FinAcksAll(seg: TcpSegment, g: Flow) {
    seg.header.fin ==> g.fin && seg.header.ack && Offset(seg.header.ackno, g.isn) == g.Next()
  }

  ghost predicate AllFinsAck(segs: seq<TcpSegment>, g: Flow) {
    forall i :: 0 <= i < |segs| ==> FinAcksAll(segs[i], g)
  }

  ghost predicate NetFinsAck(net: set<TcpSegment>, g: Flow) {
    forall seg :: seg in net ==> FinAcksAll(seg, g)
  }

  lemma {:induction false} StampedFin(seg: TcpSegment, f: Flow, g: Flow, b: nat, r: Receiver)
    requires Agrees(g, b, r) && g.Next() < 0x1_0000_0000 && Carries(f, seg)
    requires f.fin ==> r.isn.Some? && r.reasm.out.ended
    ensures FinAcksAll(Stamp(r, seg), g)
  {
    if seg.header.fin {
      AgreesMeans(g, b, r);
      AcknoIssued(g, b, r);
    }
  }

  lemma {:induction false} SendFins(c: Conn, g: Flow, b: nat, peer: Receiver)
    requires Side(c, g, b, peer) && EndsFirst(c) && AllFinsAck(c.out, g)
    ensures AllFinsAck(SendSegments(c).out, g)
  {
    var out := SendSegments(c).out;
    StampAllIs(c.rcv, c.snd.out);
    forall i | 0 <= i < |out|
      ensures FinAcksAll(out[i], g)
    {
      if i >= |c.out| {
        var seg := c.snd.out[i - |c.out|];
        assert out[i] == Stamp(c.rcv, seg) && Carries(FlowOf(c.snd), seg);
        StampedFin(seg, FlowOf(c.snd), g, b, c.rcv);
      }
    }
  }

  // ---------------------------------------------------------------- every step of the endpoint

  lemma {:induction false} ConnectFins(c: Conn, g: Flow, b: nat, peer: Receiver)
    requires Side(c, g, b, peer) && AllFinsAck(c.out, g) && EndsFirst(Connect(c))
    ensures AllFinsAck(Connect(c).out, g)
  {
    FillSide(c, g, b, peer);
    SendFins(c.(snd := FillWindow(c.snd)), g, b, peer);
  }

  lemma {:induction false} WriteFins(c: Conn, snd: Sender, g: Flow, b: nat, peer: Receiver)
    requires Side(c, g, b, peer) && AllFinsAck(c.out, g) && snd == c.snd.(stream := snd.stream)
    requires SenderInv(snd) && FlowOf(snd) == FlowOf(c.snd) && EndsFirst(Connect(c.(snd := snd)))
    ensures AllFinsAck(Connect(c.(snd := snd)).out, g)
  {
    SenderMoves(c, snd, g, b, peer);
    ConnectFins(c.(snd := snd), g, b, peer);
  }

  lemma {:induction false} AnswerFins(c: Conn, seg: TcpSegment, g: Flow, b: nat, peer: Receiver)
    requires Side(c, g, b, peer) && AllFinsAck(c.out, g) && EndsFirst(Answer(c, seg))
    ensures AllFinsAck(Answer(c, seg).out, g)
  {
    var c1 := c.(snd := Reply(c.snd, seg));
    ReplySide(c, seg, g, b, peer);
    if IsKeepAlive(c.rcv, seg) {
      EmptySide(c1, g, b, peer);
      SendFins(c1.(snd := SendEmpty(c1.snd)), g, b, peer);
    } else {
      SendFins(c1, g, b, peer);
    }
  }

  lemma {:induction false} TakenOut(c: Conn, seg: TcpSegment, o: Oracle)
    requires c.Valid()
    ensures TakeAck(TakePayload(NoteFlags(c, seg), seg, o), seg).out == c.out
  {
  }

  lemma {:induction false} ArriveFins(c: Conn, seg: TcpSegment, o: Oracle, g: Flow, b: nat, peer: Receiver)
    requires Side(c, g, b, peer) && AllFinsAck(c.out, g) && SegOk(g, peer, c.snd.isn, seg)
    requires Fits(o, c.rcv.reasm.store) && EndsFirst(SegmentReceived(c, seg, o))
    ensures AllFinsAck(SegmentReceived(c, seg, o).out, g)
  {
    var c0 := NoteFlags(c, seg);
    NoteFlagsSide(c, seg, g, b, peer);
    var c1 := TakePayload(c0, seg, o);
    TakePayloadSide(c0, seg, o, g, b, peer);
    TakeAckSide(c1, seg, g, b, peer);
    TakenOut(c, seg, o);
    AnswerFins(TakeAck(c1, seg), seg, g, b, peer);
  }

  lemma {:induction false} SendRstFins(c: Conn, g: Flow)
    requires c.snd.out == []
    ensures AllFinsAck(SendRst(c).out, g)
  {
  }

  lemma {:induction false} TickTimerFins(c: Conn, ms: nat, g: Flow, b: nat, peer: Receiver)
    requires Side(c, g, b, peer) && AllFinsAck(c.out, g) && EndsFirst(c)
    ensures Expires(c.snd, ms) ==> c.snd.queue != []
    ensures AllFinsAck(TickTimer(c, ms).out, g)
  {
    var snd := Sending.Tick(c.snd, ms);
    TickInv(c.snd, ms);
    TickUnstamped(c.snd, ms);
    SenderMoves(c, snd, g, b, peer);
    SendFins(c.(snd := snd), g, b, peer);
  }

  lemma {:induction false} TickFillFins(c: Conn, ms: nat, g: Flow, b: nat, peer: Receiver)
    requires Side(c, g, b, peer) && AllFinsAck(c.out, g) && EndsFirst(TickFill(c, ms))
    ensures AllFinsAck(TickFill(c, ms).out, g)
  {
    var c0 := c.(now := c.now + ms);
    SideFields(c, c0, g, b, peer);
    if HasOutput(c.snd.stream) {
      ConnectFins(c0, g, b, peer);
    }
  }

  lemma {:induction false} AbortFins(c: Conn, g: Flow)
    requires c.Valid() && c.snd.out == [] && AllFinsAck(c.out, g)
    ensures AllFinsAck(Settle(Abort(c)).out, g)
  {
    SendRstFins(c, g);
  }

  lemma {:induction false} TickFins(c: Conn, ms: nat, g: Flow, b: nat, peer: Receiver)
    requires Side(c, g, b, peer) && AllFinsAck(c.out, g) && TickDefined(c, ms) && EndsFirst(Connections.Tick(c, ms))
    ensures AllFinsAck(Connections.Tick(c, ms).out, g)
  {
    var c1 := TickFill(c, ms);
    TickEndsFirst(c, ms);
    TickFillSide(c, ms, g, b, peer);
    TickFillFins(c, ms, g, b, peer);
    TickTimerFins(c1, ms, g, b, peer);
    AbortFins(TickTimer(c1, ms), g);
  }

  lemma {:induction false} TickEndsFirst(c: Conn, ms: nat)
    requires SenderInv(c.snd) && c.rcv.Valid() && TickDefined(c, ms) && EndsFirst(Connections.Tick(c, ms))
    ensures EndsFirst(TickFill(c, ms))
  {
    TickSendInv(c, ms);
    TickFillFrame(c, ms);
    TickFillInv(c, ms);
    TickTimerInv(TickFill(c, ms), ms);
    SendRstInv(TickTimer(TickFill(c, ms), ms));
  }

  lemma {:induction false} StepFins(c: Conn, e: ConnEvent, c': Conn, g: Flow, b: nat, peer: Receiver)
    requires ConnInv(c) && Side(c, g, b, peer) && ConnNext(c, e, c') && |c'.snd.stream.written| <= LIMIT
    requires e.Arrive? ==> SegOk(g, peer, c.snd.isn, e.seg)
    requires AllFinsAck(c.out, g) && EndsFirst(c')
    ensures AllFinsAck(c'.out, g)
  {
    match e
    case Open => ConnectFins(c, g, b, peer);
    case WriteOut(data) =>
      var snd := c.snd.(stream := c.snd.stream.Write(data));
      FillReads(snd);
      WriteInv(c.snd, data);
      WriteFins(c, snd, g, b, peer);
    case CloseOut =>
      EndInputInv(c.snd);
      WriteFins(c, c.snd.(stream := c.snd.stream.EndInput()), g, b, peer);
    case Arrive(seg, o) => ArriveFins(c, seg, o, g, b, peer);
    case ReadIn(n) =>
    case Elapse(ms) =>
      TickSendInv(c, ms);
      TickFins(c, ms, g, b, peer);
    case Drop => if !c.closed { SendRstFins(c, g); }
    case Take =>
  }

  // ---------------------------------------------------------------- every step of its peer

  /** Once our FIN has come in there, everything the peer sent is acknowledged. */
  ghost predicate EofAcked(c: Conn) {
    c.rcv.reasm.eofSeen ==> c.snd.phase == FinSent && c.snd.AckAbs() == c.snd.next
  }

  lemma {:induction false} FilledStays(s: Sender)
    requires s.stream.Valid() && s.phase == FinSent
    ensures FillWindow(s) == s
  {
  }

  lemma {:induction false} TakeAckAll(c: Conn, seg: TcpSegment)
    requires SenderInv(c.snd) && FinAcksAll(seg, FlowOf(c.snd))
    requires seg.header.fin || (c.snd.phase == FinSent && c.snd.AckAbs() == c.snd.next)
    ensures var snd := TakeAck(c, seg).snd; snd.phase == FinSent && snd.AckAbs() == snd.next && SenderInv(snd)
  {
    if seg.header.ack {
      AckReceivedInv(c.snd, seg.header.ackno, seg.header.win);
    }
  }

  lemma {:induction false} PayloadEof(c: Conn, seg: TcpSegment, o: Oracle)
    requires c.Valid()
    ensures var c' := TakePayload(NoteFlags(c, seg), seg, o);
            c'.rcv.reasm.eofSeen ==> c.rcv.reasm.eofSeen || seg.header.fin
  {
    var r := NoteFlags(c, seg).rcv;
    var isn := IsnAfter(r, seg);
    if isn.Some? {
      PushStream(r.reasm, seg.payload, StreamIndex(seg, isn.value), seg.header.fin, o);
    }
  }

  lemma {:induction false} AnswerEof(c: Conn, seg: TcpSegment)
    requires c.Valid() && c.snd.phase == FinSent
    ensures var c' := Answer(c, seg); c'.snd.phase == FinSent && c'.snd.ack == c.snd.ack && c'.snd.next == c.snd.next
    ensures Answer(c, seg).snd.isn == c.snd.isn
  {
    FilledStays(c.snd);
  }

  lemma {:induction false} ArriveEof(c: Conn, seg: TcpSegment, o: Oracle)
    requires SenderInv(c.snd) && c.rcv.Valid() && EofAcked(c) && FinAcksAll(seg, FlowOf(c.snd))
    ensures EofAcked(SegmentReceived(c, seg, o))
  {
    NoteFlagsInv(c, seg);
    PayloadEof(c, seg, o);
    var c1 := TakePayload(NoteFlags(c, seg), seg, o);
    if c1.rcv.reasm.eofSeen {
      TakeAckAll(c1, seg);
      AnswerEof(TakeAck(c1, seg), seg);
    }
  }

  lemma {:induction false} EndEof(c: Conn)
    requires c.Valid() && EofAcked(c)
    ensures EofAcked(Settle(Abort(c)))
  {
  }

  lemma {:induction false} TickEof(c: Conn, ms: nat)
    requires SenderInv(c.snd) && c.rcv.Valid() && EofAcked(c)
    ensures TickDefined(c, ms) && EofAcked(Connections.Tick(c, ms))
  {
    TickSendInv(c, ms);
    TickFillFrame(c, ms);
    if c.snd.phase == FinSent {
      FilledStays(c.snd);
    }
    EndEof(TickTimer(TickFill(c, ms), ms));
  }

  lemma {:induction false} StepEof(c: Conn, e: ConnEvent, c': Conn)
    requires ConnInv(c) && ConnNext(c, e, c') && EofAcked(c)
    requires e.Arrive? ==> FinAcksAll(e.seg, FlowOf(c.snd))
    ensures EofAcked(c')
  {
    if c.snd.phase == FinSent {
      FilledStays(c.snd);
    }
    match e
    case Arrive(seg, o) => ArriveEof(c, seg, o);
    case Elapse(ms) => TickEof(c, ms);
    case Open =>
    case WriteOut(data) => if c.snd.phase == FinSent { FilledStays(c.snd.(stream := c.snd.stream.Write(data))); }
    case CloseOut => if c.snd.phase == FinSent { FilledStays(c.snd.(stream := c.snd.stream.EndInput())); }
    case ReadIn(n) =>
    case Drop =>
    case Take =>
  }

  // ---------------------------------------------------------------- whole runs

  ghost predicate Told(s: Sys) {
    Sound(s) && AllFinsAck(s.a.out, FlowOf(s.b.snd)) && NetFinsAck(s.ab, FlowOf(s.b.snd)) && EofAcked(s.b)
  }

  lemma {:induction false} StepATold(s: Sys, e: ConnEvent, s': Sys)
    requires Told(s) && StepA(s, e, s') && WithinLimit(s') && EndsFirst(s'.a)
    ensures Told(s')
  {
    StepASound(s, e, s');
    StepFins(s.a, e, s'.a, FlowOf(s.b.snd), s.b.snd.AckAbs(), s.b.rcv);
  }

  lemma {:induction false} StepBTold(s: Sys, e: ConnEvent, s': Sys)
    requires Told(s) && StepA(s.Flip(), e, s'.Flip()) && WithinLimit(s')
    ensures Told(s')
  {
    StepASound(s.Flip(), e, s'.Flip());
    ConnStepInv(s.b, e, s'.b);
    StepEof(s.b, e, s'.b);
    var g, g' := FlowOf(s.b.snd), FlowOf(s'.b.snd);
    assert FlowLe(g, g');
  }

  lemma {:induction false} NewTold(s: Sys)
    requires Live(s) && IsNewConn(s.a) && IsNewConn(s.b) && s.ab == {} && s.ba == {}
    ensures Told(s)
  {
    var rcap: nat, scap: nat, rt: U16, isn: U32 :| s.a == NewConn(rcap, scap, rt, isn);
    var rcap': nat, scap': nat, rt': U16, isn': U32 :| s.b == NewConn(rcap', scap', rt', isn');
  }

  lemma {:induction false} RunTold(states: seq<Sys>, events: seq<SysEvent>, n: nat)
    requires IsSysRun(states, events) && n < |states|
    requires forall i :: 0 <= i <= n ==> EndsFirst(states[i].a)
    ensures Told(states[n])
  {
    if n == 0 {
      RunLive(states, events, 0);
      NewTold(states[0]);
    } else {
      var m := n - 1;
      RunTold(states, events, m);
      assert SysNext(states[m], events[m], states[m + 1]);
      match events[m]
      case AtA(e) => StepATold(states[m], e, states[m + 1]);
      case AtB(e) => StepBTold(states[m], e, states[m + 1]);
    }
  }

  /**
   * If the peer's stream had ended here before our own FIN first went out, then when a tick closes this endpoint
   * without giving up, lingering or not, the peer has everything acknowledged and nothing left to retransmit.
   */
  lemma {:induction false} CloseLeavesPeerDone(states: seq<Sys>, events: seq<SysEvent>, n: nat)
    requires IsSysRun(states, events) && n < |events| && events[n].AtA? && events[n].e.Elapse?
    requires forall i :: 0 <= i <= n + 1 ==> EndsFirst(states[i].a)
    requires states[n + 1].a.closed && states[n + 1].a.snd.consecutive <= MAX_RETX_ATTEMPTS
    ensures var snd := states[n + 1].b.snd; snd.phase == FinSent && snd.AckAbs() == snd.next && snd.queue == []
  {
    RunLive(states, events, n);
    RunTold(states, events, n + 1);
    var s, s' := states[n], states[n + 1];
    assert SysNext(s, events[n], s');
    CleanClose(s.a, events[n].e.ms);
    AgreesMeans(FlowOf(s'.a.snd), s'.a.snd.AckAbs(), s'.b.rcv);
    InFlightExact(s'.b.snd);
    FlightIffQueue(s'.b.snd);
  }
}
