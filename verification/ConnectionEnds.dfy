/** When exactly an endpoint closes, and that a reset is final. */
module ConnectionEnds {
  import opened Prelude
  import opened Reassembly
  import opened TcpSegments
  import opened TcpReceivers
  import opened Sending
  import opened SenderRuns
  import opened Connections
  import opened ConnectionRuns

  // ---------------------------------------------------------------- the history

  /** Ticked milliseconds since the last segment arrived, read off the events alone. */
  function Idle(events: seq<ConnEvent>): nat {
    if events == [] then 0 else IdleAfter(Idle(events[..|events| - 1]), events[|events| - 1])
  }

  function IdleAfter(idle: nat, e: ConnEvent): nat {
    match e
    case Arrive(_, _) => 0
    case Elapse(ms) => idle + ms
    case _ => idle
  }

  /** Nobody resets: no RST arrives, the sender does not give up, the owner does not drop the connection. */
  ghost predicate NoReset(states: seq<Conn>, events: seq<ConnEvent>) {
    && (forall i :: 0 <= i < |states| ==> states[i].snd.consecutive <= MAX_RETX_ATTEMPTS)
    && (forall i :: 0 <= i < |events| ==> !events[i].Drop? && (events[i].Arrive? ==> !events[i].seg.header.rst))
  }

  /** The event brings a FIN of the peer before ours is out. */
  ghost predicate ClosesPassively(c: Conn, e: ConnEvent)
    requires c.Valid()
  {
    e.Arrive? && e.seg.header.fin && !FinWasSent(c.snd)
  }

  /** The peer closed first. */
  ghost predicate PeerClosedFirst(states: seq<Conn>, events: seq<ConnEvent>, n: nat)
    requires n <= |events| && |states| == |events| + 1
    requires forall i :: 0 <= i < |states| ==> states[i].Valid()
  {
    exists k :: 0 <= k < n && ClosesPassively(states[k], events[k])
  }

  // ---------------------------------------------------------------- one step

  lemma {:induction false} ArriveFrame(c: Conn, seg: TcpSegment, o: Oracle)
    requires ConnInv(c)
    ensures var c' := SegmentReceived(c, seg, o);
            && c'.now == c'.received == c.now && c'.rtTimeout == c.rtTimeout
            && c'.closed == (c.closed || seg.header.rst)
            && (!c'.closed ==> c'.linger == (c.linger && (seg.header.fin ==> FinWasSent(c.snd))))
  {
    NoteFlagsInv(c, seg);
    var c1 := TakePayload(NoteFlags(c, seg), seg, o);
    TakeAckInv(c1, seg);
    AnswerInv(TakeAck(c1, seg), seg);
  }

  /** What a tick decides, in terms of the state once everything has been sent. */
  lemma {:induction false} TickFrame(c: Conn, ms: nat)
    requires ConnInv(c) && !c.closed
    ensures TickDefined(c, ms)
    ensures var c', t := Connections.Tick(c, ms), TickSend(c, ms);
            && c'.now == c.now + ms && c'.received == c.received && c'.rtTimeout == c.rtTimeout
            && (c'.closed <==>
                  || t.snd.consecutive > MAX_RETX_ATTEMPTS
                  || (StreamsFinished(t) && (c.now + ms - c.received >= 10 * c.rtTimeout || !c.linger)))
            && (!c'.closed ==> c'.linger == c.linger)
  {
    TickSendFrame(c, ms);
    TickFillFrame(c, ms);
    TickFillInv(c, ms);
    TickTimerInv(TickFill(c, ms), ms);
    SendRstInv(TickTimer(TickFill(c, ms), ms));
  }

  /** Clock, timeout and who lingers, over one step of an open endpoint. */
  lemma {:induction false} StepClock(c: Conn, e: ConnEvent, c': Conn)
    requires ConnInv(c) && ConnNext(c, e, c') && !c.closed && c.received <= c.now
    ensures c'.rtTimeout == c.rtTimeout && c'.received <= c'.now
    ensures c'.now - c'.received == IdleAfter(c.now - c.received, e)
    ensures !c'.closed ==> c'.linger == (c.linger && !ClosesPassively(c, e))
    ensures c'.closed ==> e.Elapse? || e.Drop? || (e.Arrive? && e.seg.header.rst)
  {
    match e
    case Arrive(seg, o) => ArriveFrame(c, seg, o);
    case Elapse(ms) => TickFrame(c, ms);
    case Open =>
    case WriteOut(data) =>
    case CloseOut =>
    case ReadIn(n) =>
    case Drop =>
    case Take =>
  }

  // ---------------------------------------------------------------- whole runs

  lemma {:induction false} PeerClosedSnoc(states: seq<Conn>, events: seq<ConnEvent>, n: nat)
    requires 0 < n <= |events| && |states| == |events| + 1
    requires forall i :: 0 <= i < |states| ==> states[i].Valid()
    ensures PeerClosedFirst(states, events, n) <==>
            PeerClosedFirst(states, events, n - 1) || ClosesPassively(states[n - 1], events[n - 1])
  {
  }

  lemma {:induction false} IdleSnoc(events: seq<ConnEvent>, n: nat)
    requires 0 < n <= |events|
    ensures Idle(events[..n]) == IdleAfter(Idle(events[..n - 1]), events[n - 1])
  {
    assert events[..n][..n - 1] == events[..n - 1];
  }

  lemma {:induction false} OpenBefore(states: seq<Conn>, events: seq<ConnEvent>, n: nat)
    requires IsConnRun(states, events) && 0 < n < |states| && !states[n].closed
    ensures !states[n - 1].closed && ConnInv(states[n - 1]) && ConnNext(states[n - 1], events[n - 1], states[n])
  {
    ConnRunInv(states, events, n - 1);
    assert ConnNext(states[n - 1], events[n - 1], states[n]);
    StepStaysClosed(states[n - 1], events[n - 1], states[n]);
  }

  /** While it is open, an endpoint knows how long nothing has come, and lingers unless the peer closed first. */
  lemma {:induction false} OpenKnows(states: seq<Conn>, events: seq<ConnEvent>, n: nat)
    requires IsConnRun(states, events) && n < |states| && !states[n].closed
    ensures states[n].received <= states[n].now && states[n].now - states[n].received == Idle(events[..n])
    ensures states[n].linger <==> !PeerClosedFirst(states, events, n)
    ensures states[n].rtTimeout == states[0].rtTimeout
  {
    if n > 0 {
      OpenBefore(states, events, n);
      OpenKnows(states, events, n - 1);
      StepClock(states[n - 1], events[n - 1], states[n]);
      IdleSnoc(events, n);
      PeerClosedSnoc(states, events, n);
    } else {
      var rcap: nat, scap: nat, rt: U16, isn: U32 :| states[0] == NewConn(rcap, scap, rt, isn);
    }
  }

  /**
   * A tick closes an endpoint exactly when it gives up, or when both streams are finished and either ten initial
   * timeouts have passed since anything came, or the peer closed first.
   */
  lemma {:induction false} ClosesExactly(states: seq<Conn>, events: seq<ConnEvent>, n: nat)
    requires IsConnRun(states, events) && n < |events| && events[n].Elapse?
    ensures !states[n].closed && TickDefined(states[n], events[n].ms)
    ensures var t := TickSend(states[n], events[n].ms);
            states[n + 1].closed <==>
              || t.snd.consecutive > MAX_RETX_ATTEMPTS
              || (StreamsFinished(t)
                  && (Idle(events[..n + 1]) >= 10 * states[0].rtTimeout || PeerClosedFirst(states, events, n)))
  {
    var c, ms := states[n], events[n].ms;
    assert ConnNext(c, events[n], states[n + 1]);
    ConnRunInv(states, events, n);
    OpenKnows(states, events, n);
    TickFrame(c, ms);
    IdleSnoc(events, n + 1);
  }

  /** The endpoint that closes first stays active until ten timeouts have passed since the last segment arrived. */
  lemma {:induction false} Lingers(states: seq<Conn>, events: seq<ConnEvent>, n: nat)
    requires IsConnRun(states, events) && n < |states|
    requires NoReset(states, events) && !PeerClosedFirst(states, events, |events|)
    ensures !states[n].closed ==>
              states[n].linger && states[n].received <= states[n].now
              && states[n].now - states[n].received == Idle(events[..n])
    ensures states[n].closed ==>
              exists k :: 0 < k <= n && events[k - 1].Elapse? && Idle(events[..k]) >= 10 * states[0].rtTimeout
  {
    if !states[n].closed {
      OpenKnows(states, events, n);
    } else if n > 0 && states[n - 1].closed {
      Lingers(states, events, n - 1);
    } else if n > 0 {
      ClosedByTick(states, events, n);
    }
  }

  lemma {:induction false} ClosedByTick(states: seq<Conn>, events: seq<ConnEvent>, n: nat)
    requires IsConnRun(states, events) && 0 < n < |states| && !states[n - 1].closed && states[n].closed
    requires NoReset(states, events) && !PeerClosedFirst(states, events, |events|)
    ensures events[n - 1].Elapse? && Idle(events[..n]) >= 10 * states[0].rtTimeout
  {
    var c, e, c' := states[n - 1], events[n - 1], states[n];
    ConnRunInv(states, events, n - 1);
    assert ConnNext(c, e, c');
    OpenKnows(states, events, n - 1);
    StepClock(c, e, c');
    ClosesExactly(states, events, n - 1);
    assert TickSend(c, e.ms).snd.consecutive == c'.snd.consecutive;
  }

  // ---------------------------------------------------------------- resets

  /** Closed, with both streams in error. */
  ghost predicate WasReset(c: Conn) {
    c.closed && c.snd.stream.error && c.rcv.reasm.out.error
  }

  lemma {:induction false} FillKeepsError(s: Sender)
    requires s.stream.Valid()
    ensures FillWindow(s).stream.error == s.stream.error
  {
    FillReads(s);
  }

  lemma {:induction false} PushKeepsError(r: Reassembler, data: Bytes, index: nat, eof: bool, o: Oracle)
    requires r.out.Valid()
    ensures Push(r, data, index, eof, o).out.error == r.out.error
  {
  }

  lemma {:induction false} AnswerKeepsReset(c: Conn, seg: TcpSegment)
    requires c.Valid() && WasReset(c)
    ensures WasReset(Answer(c, seg))
  {
    FillKeepsError(c.snd);
  }

  lemma {:induction false} TakePayloadKeepsReset(c: Conn, seg: TcpSegment, o: Oracle)
    requires c.Valid() && WasReset(c)
    ensures WasReset(TakePayload(c, seg, o))
  {
    var isn := IsnAfter(c.rcv, seg);
    if isn.Some? {
      PushKeepsError(c.rcv.reasm, seg.payload, StreamIndex(seg, isn.value), seg.header.fin, o);
    }
  }

  lemma {:induction false} ArriveKeepsReset(c: Conn, seg: TcpSegment, o: Oracle)
    requires c.Valid() && (WasReset(c) || seg.header.rst)
    ensures WasReset(SegmentReceived(c, seg, o))
  {
    var c0 := NoteFlags(c, seg);
    assert WasReset(c0);
    TakePayloadKeepsReset(c0, seg, o);
    var c2 := TakeAck(TakePayload(c0, seg, o), seg);
    assert WasReset(c2);
    AnswerKeepsReset(c2, seg);
  }

  lemma {:induction false} StepKeepsReset(c: Conn, e: ConnEvent, c': Conn)
    requires c.Valid() && ConnNext(c, e, c') && WasReset(c)
    ensures WasReset(c')
  {
    match e
    case Arrive(seg, o) => ArriveKeepsReset(c, seg, o);
    case Open => FillKeepsError(c.snd);
    case WriteOut(data) => FillKeepsError(c.snd.(stream := c.snd.stream.Write(data)));
    case CloseOut => FillKeepsError(c.snd.(stream := c.snd.stream.EndInput()));
    case Elapse(ms) =>
    case ReadIn(n) =>
    case Drop =>
    case Take =>
  }

  /** The step resets an open endpoint from within: it is dropped, or a tick gives up. */
  ghost predicate ResetsItself(c: Conn, e: ConnEvent, c': Conn) {
    !c.closed && (e.Drop? || (e.Elapse? && c'.snd.consecutive > MAX_RETX_ATTEMPTS))
  }

  /** Reset, with a reset segment and nothing else for the wire. */
  ghost predicate OnlyRst(c: Conn) {
    WasReset(c) && |c.out| == 1 && c.out[0].header.rst
  }

  /** Then the one segment it has for the wire is a reset. */
  lemma {:induction false} ResetSendsRst(c: Conn, e: ConnEvent, c': Conn)
    requires ConnInv(c) && ConnNext(c, e, c') && ResetsItself(c, e, c')
    ensures OnlyRst(c')
  {
    if e.Elapse? {
      TickGivesUp(c, e.ms);
    }
  }

  lemma {:induction false} GivingUpResets(c: Conn)
    requires c.Valid()
    ensures Abort(c).snd.consecutive == c.snd.consecutive
    ensures c.snd.consecutive > MAX_RETX_ATTEMPTS ==> OnlyRst(Abort(c))
  {
  }

  lemma {:induction false} SettleKeeps(c: Conn)
    requires c.Valid()
    ensures Settle(c).snd == c.snd && (OnlyRst(c) ==> OnlyRst(Settle(c)))
  {
  }

  lemma {:induction false} TickGivesUp(c: Conn, ms: nat)
    requires ConnInv(c)
    ensures TickDefined(c, ms)
    ensures Connections.Tick(c, ms).snd.consecutive > MAX_RETX_ATTEMPTS ==> OnlyRst(Connections.Tick(c, ms))
  {
    TickSendInv(c, ms);
    GivingUpResets(TickTimer(TickFill(c, ms), ms));
    SettleKeeps(TickSend(c, ms));
  }

  /** The three ways to be reset: a RST comes in, the owner drops an open endpoint, the sender gives up. */
  ghost predicate IsReset(c: Conn, e: ConnEvent, c': Conn) {
    (e.Arrive? && e.seg.header.rst) || ResetsItself(c, e, c')
  }

  lemma {:induction false} ResetResets(c: Conn, e: ConnEvent, c': Conn)
    requires ConnInv(c) && ConnNext(c, e, c') && IsReset(c, e, c')
    ensures WasReset(c')
  {
    if e.Arrive? {
      ArriveKeepsReset(c, e.seg, e.o);
    } else {
      ResetSendsRst(c, e, c');
    }
  }

  lemma {:induction false} ResetStays(states: seq<Conn>, events: seq<ConnEvent>, k: nat, n: nat)
    requires IsConnRun(states, events) && k <= n < |states| && WasReset(states[k])
    ensures WasReset(states[n])
    decreases n
  {
    if k < n {
      var m := n - 1;
      ResetStays(states, events, k, m);
      assert ConnNext(states[m], events[m], states[m + 1]);
      StepKeepsReset(states[m], events[m], states[m + 1]);
    }
  }

  /** An endpoint that is reset is closed with both streams in error ever after. */
  lemma {:induction false} ResetIsFinal(states: seq<Conn>, events: seq<ConnEvent>, k: nat, n: nat)
    requires IsConnRun(states, events) && k < n < |states| && IsReset(states[k], events[k], states[k + 1])
    ensures WasReset(states[n])
  {
    ConnRunInv(states, events, k);
    assert ConnNext(states[k], events[k], states[k + 1]);
    ResetResets(states[k], events[k], states[k + 1]);
    ResetStays(states, events, k + 1, n);
  }
}
