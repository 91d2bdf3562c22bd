/** One endpoint over whole runs against an arbitrary peer: back-off, clean close, lingering. */
module ConnectionRuns {
  import opened Prelude
  import opened Reassembly
  import opened TcpSegments
  import opened TcpReceivers
  import opened Sending
  import opened SenderInvariants
  import opened SenderRuns
  import opened Connections

  /** Everything the owner of a connection can do to it. An arriving segment may be anything. */
  datatype ConnEvent =
    | Open
    | WriteOut(data: Bytes)
    | CloseOut
    | Arrive(seg: TcpSegment, o: Oracle)
    | ReadIn(n: nat)
    | Elapse(ms: nat)
    | Drop
    | Take

  /** One step; the owner ticks only an active connection. Where the source is undefined, anything may follow. */
  ghost predicate ConnNext(c: Conn, e: ConnEvent, c': Conn)
    requires c.Valid()
  {
    match e
    case Open => c' == Connect(c)
    case WriteOut(data) => c' == Connections.Write(c, data)
    case CloseOut => c' == EndInputStream(c)
    case Arrive(seg, o) => Fits(o, c.rcv.reasm.store) && c' == SegmentReceived(c, seg, o)
    case ReadIn(n) => c' == ReadInbound(c, n)
    case Elapse(ms) => !c.closed && (!TickDefined(c, ms) || c' == Connections.Tick(c, ms))
    case Drop => c' == Destroy(c)
    case Take => c' == c.(out := [])
  }

  ghost predicate IsNewConn(c: Conn) {
    exists rcap: nat, scap: nat, rt: U16, isn: U32 :: c == NewConn(rcap, scap, rt, isn)
  }

  /** A run of one endpoint within the sequence space. */
  ghost predicate IsConnRun(states: seq<Conn>, events: seq<ConnEvent>) {
    && |states| == |events| + 1
    && IsNewConn(states[0])
    && (forall i :: 0 <= i < |states| ==> states[i].Valid() && |states[i].snd.stream.written| <= LIMIT)
    && (forall i :: 0 <= i < |events| ==> ConnNext(states[i], events[i], states[i + 1]))
  }

  ghost predicate ConnInv(c: Conn) {
    && SenderInv(c.snd) && c.rcv.Valid()
    && (!c.closed ==> c.snd.consecutive <= MAX_RETX_ATTEMPTS && c.snd.out == [])
    && c.snd.consecutive <= MAX_RETX_ATTEMPTS + 1
    && c.snd.initialRto == c.rtTimeout
  }

  // ---------------------------------------------------------------- what steps do to the sender

  lemma {:induction false} FillKeeps(s: Sender)
    requires s.stream.Valid()
    ensures FillWindow(s).consecutive == s.consecutive && FillWindow(s).initialRto == s.initialRto
    decreases Unsent(s)
  {
    if CanSend(s) {
      FillKeeps(FillOne(s));
    }
  }

  lemma {:induction false} SetErrorInv(s: Sender)
    requires SenderInv(s)
    ensures SenderInv(s.(stream := s.stream.SetError())) && FlowOf(s.(stream := s.stream.SetError())) == FlowOf(s)
  {
    assert FlowOf(s.(stream := s.stream.SetError())) == FlowOf(s);
  }

  lemma {:induction false} ConnectInv(c: Conn)
    requires SenderInv(c.snd) && c.rcv.Valid()
    ensures SenderInv(Connect(c).snd) && FlowLe(FlowOf(c.snd), FlowOf(Connect(c).snd))
    ensures Connect(c).snd.consecutive == c.snd.consecutive && Connect(c).snd.initialRto == c.snd.initialRto
    ensures Connect(c).snd.out == [] && Connect(c) == c.(snd := Connect(c).snd, out := Connect(c).out)
  {
    FillWindowInv(c.snd);
    FillKeeps(c.snd);
    DrainInv(FillWindow(c.snd));
  }

  lemma {:induction false} ReplyInv(s: Sender, seg: TcpSegment)
    requires SenderInv(s)
    ensures SenderInv(Reply(s, seg)) && FlowLe(FlowOf(s), FlowOf(Reply(s, seg)))
    ensures Reply(s, seg).consecutive == s.consecutive && Reply(s, seg).initialRto == s.initialRto
    ensures Reply(s, seg).ack == s.ack
  {
    if seg.Length() > 0 {
      FillWindowInv(s);
      FillKeeps(s);
      SendEmptyInv(FillWindow(s));
    }
  }

  lemma {:induction false} NoteFlagsInv(c: Conn, seg: TcpSegment)
    requires SenderInv(c.snd)
    ensures SenderInv(NoteFlags(c, seg).snd) && FlowOf(NoteFlags(c, seg).snd) == FlowOf(c.snd)
    ensures NoteFlags(c, seg).snd.(stream := c.snd.stream) == c.snd
    ensures NoteFlags(c, seg).rtTimeout == c.rtTimeout && (c.closed ==> NoteFlags(c, seg).closed)
  {
    SetErrorInv(c.snd);
  }

  lemma {:induction false} TakeAckInv(c: Conn, seg: TcpSegment)
    requires SenderInv(c.snd)
    ensures SenderInv(TakeAck(c, seg).snd) && FlowOf(TakeAck(c, seg).snd) == FlowOf(c.snd)
    ensures TakeAck(c, seg).snd.consecutive <= c.snd.consecutive
    ensures TakeAck(c, seg).snd.initialRto == c.snd.initialRto && TakeAck(c, seg) == c.(snd := TakeAck(c, seg).snd)
  {
    AckReceivedInv(c.snd, seg.header.ackno, seg.header.win);
  }

  lemma {:induction false} AnswerInv(c: Conn, seg: TcpSegment)
    requires SenderInv(c.snd) && c.rcv.Valid()
    ensures SenderInv(Answer(c, seg).snd) && FlowLe(FlowOf(c.snd), FlowOf(Answer(c, seg).snd))
    ensures Answer(c, seg).snd.consecutive == c.snd.consecutive && Answer(c, seg).snd.initialRto == c.snd.initialRto
    ensures Answer(c, seg).snd.ack == c.snd.ack && Answer(c, seg).snd.out == []
    ensures Answer(c, seg) == c.(snd := Answer(c, seg).snd, out := Answer(c, seg).out)
  {
    ReplyInv(c.snd, seg);
    SendEmptyInv(Reply(c.snd, seg));
    DrainInv(if IsKeepAlive(c.rcv, seg) then SendEmpty(Reply(c.snd, seg)) else Reply(c.snd, seg));
  }

  lemma {:induction false} SegmentReceivedInv(c: Conn, seg: TcpSegment, o: Oracle)
    requires ConnInv(c)
    ensures ConnInv(SegmentReceived(c, seg, o))
    ensures FlowLe(FlowOf(c.snd), FlowOf(SegmentReceived(c, seg, o).snd))
  {
    var c0 := NoteFlags(c, seg);
    var c1 := TakePayload(c0, seg, o);
    var c2 := TakeAck(c1, seg);
    NoteFlagsInv(c, seg);
    TakeAckInv(c1, seg);
    AnswerInv(c2, seg);
    assert SegmentReceived(c, seg, o) == Answer(c2, seg);
    assert ConnInv(Answer(c2, seg));
  }

  /** Both senders differ at most in their timer, their counters and what waits to go out. */
  ghost predicate SameFlight(s: Sender, s': Sender) {
    && s'.isn == s.isn && s'.next == s.next && s'.ack == s.ack && s'.queue == s.queue && s'.phase == s.phase
    && s'.initialRto == s.initialRto
    && s'.stream == s.stream.(error := s'.stream.error)
  }

  lemma {:induction false} SendRstInv(c: Conn)
    requires SenderInv(c.snd) && c.rcv.Valid()
    ensures SenderInv(SendRst(c).snd) && FlowOf(SendRst(c).snd) == FlowOf(c.snd)
    ensures SameFlight(c.snd, SendRst(c).snd) && SendRst(c).snd.consecutive == c.snd.consecutive
    ensures SendRst(c) == c.(snd := SendRst(c).snd, out := SendRst(c).out, closed := true,
                             rcv := c.rcv.(reasm := c.rcv.reasm.(out := c.rcv.reasm.out.SetError())))
  {
    SendEmptyInv(c.snd);
    SetErrorInv(SendEmpty(c.snd));
  }

  lemma {:induction false} TickFillFrame(c: Conn, ms: nat)
    requires c.Valid()
    ensures TickFill(c, ms).snd.consecutive == c.snd.consecutive && TickFill(c, ms).snd.initialRto == c.snd.initialRto
    ensures TickFill(c, ms) == c.(now := c.now + ms, snd := TickFill(c, ms).snd, out := TickFill(c, ms).out)
  {
    FillKeeps(c.snd);
  }

  lemma {:induction false} TickFillInv(c: Conn, ms: nat)
    requires SenderInv(c.snd) && c.rcv.Valid()
    ensures SenderInv(TickFill(c, ms).snd) && FlowLe(FlowOf(c.snd), FlowOf(TickFill(c, ms).snd))
  {
    var c0 := c.(now := c.now + ms);
    if HasOutput(c.snd.stream) {
      ConnectInv(c0);
    } else {
      assert TickFill(c, ms) == c0;
    }
  }

  lemma {:induction false} TickTimerInv(c: Conn, ms: nat)
    requires SenderInv(c.snd) && c.rcv.Valid()
    ensures Expires(c.snd, ms) ==> c.snd.queue != []
    ensures SenderInv(TickTimer(c, ms).snd) && FlowOf(TickTimer(c, ms).snd) == FlowOf(c.snd)
    ensures SameFlight(c.snd, TickTimer(c, ms).snd)
    ensures c.snd.consecutive <= TickTimer(c, ms).snd.consecutive <= c.snd.consecutive + 1
    ensures TickTimer(c, ms) == c.(snd := TickTimer(c, ms).snd, out := TickTimer(c, ms).out)
    ensures TickTimer(c, ms).snd.out == []
  {
    TickInv(c.snd, ms);
    if Expires(c.snd, ms) {
      RetransmitTimer(c.snd);
    }
    DrainInv(Sending.Tick(c.snd, ms));
  }

  /** What the sending part of a tick keeps; only giving up closes the connection here. */
  lemma {:induction false} TickSendInv(c: Conn, ms: nat)
    requires SenderInv(c.snd) && c.rcv.Valid()
    ensures TickDefined(c, ms)
    ensures SenderInv(TickSend(c, ms).snd) && FlowLe(FlowOf(c.snd), FlowOf(TickSend(c, ms).snd))
    ensures SameFlight(TickFill(c, ms).snd, TickSend(c, ms).snd)
    ensures c.snd.consecutive <= TickSend(c, ms).snd.consecutive <= c.snd.consecutive + 1
  {
    TickFillInv(c, ms);
    TickFillFrame(c, ms);
    TickTimerInv(TickFill(c, ms), ms);
    SendRstInv(TickTimer(TickFill(c, ms), ms));
  }

  lemma {:induction false} TickSendFrame(c: Conn, ms: nat)
    requires SenderInv(c.snd) && c.rcv.Valid()
    ensures TickDefined(c, ms)
    ensures TickSend(c, ms).snd.consecutive <= MAX_RETX_ATTEMPTS ==>
              TickSend(c, ms) == c.(now := c.now + ms, snd := TickSend(c, ms).snd, out := TickSend(c, ms).out)
    ensures TickSend(c, ms).snd.consecutive > MAX_RETX_ATTEMPTS ==> TickSend(c, ms).closed
    ensures TickSend(c, ms).snd.consecutive <= MAX_RETX_ATTEMPTS ==> TickSend(c, ms).snd.out == []
    ensures TickSend(c, ms).rtTimeout == c.rtTimeout && TickSend(c, ms).snd.initialRto == c.snd.initialRto
  {
    TickFillInv(c, ms);
    TickFillFrame(c, ms);
    var c1 := TickFill(c, ms);
    TickTimerInv(c1, ms);
    var c2 := TickTimer(c1, ms);
    if c2.snd.consecutive > MAX_RETX_ATTEMPTS {
      SendRstInv(c2);
      assert TickSend(c, ms) == SendRst(c2);
    } else {
      assert TickSend(c, ms) == c2;
    }
  }

  lemma {:induction false} WriteConnInv(c: Conn, data: Bytes)
    requires ConnInv(c) && |Connections.Write(c, data).snd.stream.written| <= LIMIT
    ensures ConnInv(Connections.Write(c, data))
    ensures FlowLe(FlowOf(c.snd), FlowOf(Connections.Write(c, data).snd))
  {
    var c1 := c.(snd := c.snd.(stream := c.snd.stream.Write(data)));
    FillReads(c1.snd);
    WriteInv(c.snd, data);
    ConnectInv(c1);
    assert Connections.Write(c, data) == Connect(c1);
  }

  lemma {:induction false} EndInv(c: Conn)
    requires ConnInv(c)
    ensures ConnInv(EndInputStream(c)) && FlowLe(FlowOf(c.snd), FlowOf(EndInputStream(c).snd))
  {
    var c1 := c.(snd := c.snd.(stream := c.snd.stream.EndInput()));
    assert FlowOf(c1.snd) == FlowOf(c.snd);
    ConnectInv(c1);
    assert EndInputStream(c) == Connect(c1);
  }

  lemma {:induction false} TickConnInv(c: Conn, ms: nat)
    requires ConnInv(c) && !c.closed
    ensures TickDefined(c, ms)
    ensures ConnInv(Connections.Tick(c, ms)) && FlowLe(FlowOf(c.snd), FlowOf(Connections.Tick(c, ms).snd))
  {
    TickSendInv(c, ms);
    TickSendFrame(c, ms);
    SettleInv(TickSend(c, ms));
  }

  lemma {:induction false} SettleInv(c: Conn)
    requires ConnInv(c)
    ensures ConnInv(Settle(c)) && Settle(c).snd == c.snd
  {
  }

  lemma {:induction false} ConnStepInv(c: Conn, e: ConnEvent, c': Conn)
    requires ConnInv(c) && ConnNext(c, e, c') && |c'.snd.stream.written| <= LIMIT
    ensures ConnInv(c') && FlowLe(FlowOf(c.snd), FlowOf(c'.snd))
  {
    match e
    case Open => ConnectInv(c);
    case WriteOut(data) => WriteConnInv(c, data);
    case CloseOut => EndInv(c);
    case Arrive(seg, o) => SegmentReceivedInv(c, seg, o);
    case ReadIn(n) =>
    case Elapse(ms) => TickConnInv(c, ms);
    case Drop => SendRstInv(c);
    case Take =>
  }

  lemma {:induction false} ConnRunInv(states: seq<Conn>, events: seq<ConnEvent>, n: nat)
    requires IsConnRun(states, events) && n < |states|
    ensures ConnInv(states[n])
  {
    if n == 0 {
      var rcap: nat, scap: nat, rt: U16, isn: U32 :| states[0] == NewConn(rcap, scap, rt, isn);
      NewSenderInv(scap, rt, isn);
    } else {
      ConnRunInv(states, events, n - 1);
      assert ConnNext(states[n - 1], events[n - 1], states[n]);
      ConnStepInv(states[n - 1], events[n - 1], states[n]);
    }
  }

  /** In every run the count stays at nine or less, and the timeout between its start value and 512 times that. */
  lemma {:induction false} BackoffBounded(states: seq<Conn>, events: seq<ConnEvent>, n: nat)
    requires IsConnRun(states, events) && n < |states|
    ensures var s := states[n].snd;
            && s.consecutive <= 9
            && s.initialRto <= s.rto <= Doubled(s.initialRto, s.consecutive) <= 512 * s.initialRto
            && (!states[n].closed ==> s.consecutive <= 8)
  {
    ConnRunInv(states, events, n);
    var s := states[n].snd;
    DoubledMono(s.initialRto, s.consecutive, 9);
    DoubledThrice(s.initialRto, 0);
    DoubledThrice(s.initialRto, 3);
    DoubledThrice(s.initialRto, 6);
  }

  // ---------------------------------------------------------------- clean close

  /** Our whole stream, FIN included, is sent and acknowledged. */
  ghost predicate OutboundDone(s: Sender)
    requires s.stream.Valid()
  {
    && s.phase == FinSent && s.stream.Eof()
    && s.AckAbs() == s.next == |s.stream.written| + 2
  }

  /** The peer's whole stream is assembled, ended and read. */
  ghost predicate InboundDone(r: Receiver)
    requires r.Valid()
  {
    r.reasm.out.Eof() && Positions(r.reasm.store) == {}
  }

  /** After the filling part of a tick, an ended stream with nothing in flight has had its FIN acknowledged. */
  lemma {:induction false} FilledAndQuiet(c: Conn, ms: nat)
    requires SenderInv(c.snd) && c.rcv.Valid()
    requires TickFill(c, ms).snd.stream.Eof() && TickFill(c, ms).snd.InFlight() == 0
    ensures OutboundDone(TickFill(c, ms).snd)
  {
    FillReads(c.snd);
    assert HasOutput(c.snd.stream);
    QuietMeansDone(c.snd);
  }

  lemma {:induction false} QuietMeansDone(s: Sender)
    requires SenderInv(s) && FillWindow(s).stream.Eof() && FillWindow(s).InFlight() == 0
    ensures OutboundDone(FillWindow(s))
  {
    FillStops(s);
    FillWindowInv(s);
    InFlightExact(FillWindow(s));
  }

  /** A tick that closes an active connection, other than by giving up, leaves both directions complete. */
  lemma {:induction false} CleanClose(c: Conn, ms: nat)
    requires SenderInv(c.snd) && c.rcv.Valid() && !c.closed
    ensures TickDefined(c, ms)
    ensures var c' := Connections.Tick(c, ms);
            c'.closed && c'.snd.consecutive <= MAX_RETX_ATTEMPTS ==> OutboundDone(c'.snd) && InboundDone(c'.rcv)
  {
    TickSendInv(c, ms);
    TickSendFrame(c, ms);
    var s, s' := TickFill(c, ms).snd, TickSend(c, ms).snd;
    if StreamsFinished(TickSend(c, ms)) {
      SameFlightDone(s, s');
      FilledAndQuiet(c, ms);
    }
  }

  lemma {:induction false} SameFlightDone(s: Sender, s': Sender)
    requires s.stream.Valid() && s'.stream.Valid() && SameFlight(s, s')
    ensures s'.InFlight() == s.InFlight() && (s'.stream.Eof() <==> s.stream.Eof())
    ensures OutboundDone(s') <==> OutboundDone(s)
  {
  }

  /** No step ever reopens a connection, or changes its timeout. */
  lemma {:induction false} StepStaysClosed(c: Conn, e: ConnEvent, c': Conn)
    requires ConnInv(c) && ConnNext(c, e, c')
    ensures c.closed ==> c'.closed && c'.rtTimeout == c.rtTimeout
  {
    match e
    case Arrive(seg, o) =>
      NoteFlagsInv(c, seg);
      TakeAckInv(TakePayload(NoteFlags(c, seg), seg, o), seg);
      AnswerInv(TakeAck(TakePayload(NoteFlags(c, seg), seg, o), seg), seg);
    case Elapse(ms) =>
    case Open =>
    case WriteOut(data) =>
    case CloseOut =>
    case ReadIn(m) =>
    case Drop =>
    case Take =>
  }
}
