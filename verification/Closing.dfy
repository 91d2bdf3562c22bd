/** From every state two open endpoints reach, both can still close with everything delivered. */
module Closing {
  import opened Prelude
  import opened WrappingIntegers
  import opened Reassembly
  import opened TcpSegments
  import opened TcpReceivers
  import opened Sending
  import opened SenderInvariants
  import opened SenderRuns
  import opened Transport
  import opened Connections
  import opened ConnectionRuns
  import opened TwoParty
  import opened Copies
  import opened SenderTiming
  import Completion

  // ---------------------------------------------------------------- paths

  ghost predicate SysReaches(s: Sys, t: Sys) {
    exists states: seq<Sys>, events: seq<SysEvent> ::
      IsSysPath(states, events) && states[0] == s && states[|events|] == t
  }

  lemma {:induction false} SysReachesSelf(s: Sys)
    requires WithinLimit(s)
    ensures SysReaches(s, s)
  {
    assert IsSysPath([s], []) && [s][0] == s;
  }

  lemma {:induction false} SysPathSnoc(states: seq<Sys>, events: seq<SysEvent>, e: SysEvent, u: Sys)
    requires IsSysPath(states, events) && WithinLimit(u) && SysNext(states[|events|], e, u)
    ensures IsSysPath(states + [u], events + [e])
  {
    var states', events' := states + [u], events + [e];
    forall i | 0 <= i < |events'|
      ensures SysNext(states'[i], events'[i], states'[i + 1])
    {
      if i < |events| {
        assert SysNext(states[i], events[i], states[i + 1]);
      }
    }
  }

  lemma {:induction false} SysReachesMore(s: Sys, t: Sys, e: SysEvent, u: Sys)
    requires SysReaches(s, t) && WithinLimit(u) && SysNext(t, e, u)
    ensures SysReaches(s, u)
  {
    var states, events :| IsSysPath(states, events) && states[0] == s && states[|events|] == t;
    SysPathSnoc(states, events, e, u);
    assert (states + [u])[0] == s && (states + [u])[|events + [e]|] == u;
  }

  lemma {:induction false} SysReachesFlip(s: Sys, t: Sys)
    requires SysReaches(s, t)
    ensures SysReaches(s.Flip(), t.Flip())
  {
    var states: seq<Sys>, events: seq<SysEvent> :|
      IsSysPath(states, events) && states[0] == s && states[|events|] == t;
    var states', events' := Flipped(states), FlippedEvents(events);
    PathFlips(states, events);
    assert states'[0] == s.Flip() && states'[|events'|] == t.Flip();
  }

  /** A step of `a`, or of `b`, along a path. */
  lemma {:induction false} StepOn(s: Sys, t: Sys, e: ConnEvent, u: Sys)
    requires SysReaches(s, t) && Sound(t) && StepA(t, e, u) && WithinLimit(u)
    ensures SysReaches(s, u) && Sound(u) && (Live(t) ==> Live(u)) && Moves(t.a, u.a)
  {
    StepASound(t, e, u);
    if Live(t) {
      StepALive(t, e, u);
    }
    StepSide(t.a, e, u.a, FlowOf(t.b.snd), t.b.snd.AckAbs(), t.b.rcv);
    SysReachesMore(s, t, AtA(e), u);
  }

  lemma {:induction false} PeerStepOn(s: Sys, t: Sys, e: ConnEvent, u: Sys)
    requires SysReaches(s, t) && Sound(t) && StepA(t.Flip(), e, u.Flip()) && WithinLimit(u)
    ensures SysReaches(s, u) && Sound(u) && (Live(t) ==> Live(u)) && Moves(t.b, u.b)
  {
    SysReachesFlip(s, t);
    StepOn(s.Flip(), t.Flip(), e, u.Flip());
    SysReachesFlip(s.Flip(), u.Flip());
  }

  // ---------------------------------------------------------------- what the steps taken here keep

  /** Still open or closed as before, with the same input, the same capacity, and no fewer acknowledgments. */
  ghost predicate Ahead(c: Conn, c': Conn) {
    && c'.closed == c.closed && c'.snd.isn == c.snd.isn && c.snd.AckAbs() <= c'.snd.AckAbs()
    && c'.snd.stream.written == c.snd.stream.written && c'.snd.stream.ended == c.snd.stream.ended
    && c'.rcv.reasm.out.capacity == c.rcv.reasm.out.capacity
  }

  /** And no more retransmissions counted. */
  ghost predicate Onward(c: Conn, c': Conn) {
    Ahead(c, c') && c'.snd.consecutive <= c.snd.consecutive
  }

  lemma {:induction false} AnswerAhead(c: Conn, seg: TcpSegment)
    requires SenderInv(c.snd) && c.rcv.Valid()
    ensures Onward(c, Answer(c, seg)) && Answer(c, seg).rcv == c.rcv
  {
    AnswerInv(c, seg);
    FillReads(c.snd);
  }

  lemma {:induction false} TakeAckAhead(c: Conn, seg: TcpSegment)
    requires SenderInv(c.snd)
    ensures Onward(c, TakeAck(c, seg)) && TakeAck(c, seg).rcv == c.rcv
    ensures seg.header.ack && NewAck(c.snd, seg.header.ackno) ==>
              && TakeAck(c, seg).snd.AckAbs() == Offset(seg.header.ackno, c.snd.isn)
              && TakeAck(c, seg).snd.consecutive == 0
  {
    if seg.header.ack {
      AckReceivedInv(c.snd, seg.header.ackno, seg.header.win);
    }
  }

  lemma {:induction false} TakePayloadAhead(c: Conn, seg: TcpSegment, o: Oracle)
    requires c.Valid()
    ensures Onward(c, TakePayload(c, seg, o)) && TakePayload(c, seg, o).snd == c.snd
  {
    var isn := IsnAfter(c.rcv, seg);
    if isn.Some? {
      PushStream(c.rcv.reasm, seg.payload, StreamIndex(seg, isn.value), seg.header.fin, o);
    }
  }

  lemma {:induction false} ArriveAhead(c: Conn, seg: TcpSegment, o: Oracle)
    requires ConnInv(c) && !seg.header.rst
    ensures var c1 := TakePayload(NoteFlags(c, seg), seg, o);
            && Onward(c, SegmentReceived(c, seg, o)) && SegmentReceived(c, seg, o).rcv == c1.rcv
            && (seg.header.ack && NewAck(c.snd, seg.header.ackno) ==>
                  && SegmentReceived(c, seg, o).snd.AckAbs() >= Offset(seg.header.ackno, c.snd.isn)
                  && SegmentReceived(c, seg, o).snd.consecutive == 0)
  {
    var c0 := NoteFlags(c, seg);
    assert c0.snd == c.snd && c0.rcv == c.rcv && c0.closed == c.closed;
    var c1 := TakePayload(c0, seg, o);
    TakePayloadAhead(c0, seg, o);
    var c2 := TakeAck(c1, seg);
    TakeAckAhead(c1, seg);
    TakeAckInv(c1, seg);
    AnswerAhead(c2, seg);
  }

  lemma {:induction false} FillAhead(c: Conn)
    requires ConnInv(c)
    ensures Onward(c, Connections.Write(c, []))
    ensures Connections.Write(c, []).snd.queue == FillWindow(c.snd).queue
  {
    assert c.snd.stream.Write([]) == c.snd.stream;
    FillWindowInv(c.snd);
    FillKeeps(c.snd);
  }

  // ---------------------------------------------------------------- one round trip

  lemma {:induction false} CopyReceived(r: Receiver, seg: TcpSegment, t: TcpSegment, o: Oracle)
    requires r.Valid() && IsCopy(seg, t)
    ensures Receive(r, t, o) == Receive(r, seg, o)
  {
  }

  /** The number the receiver waits for is always in its window, if it has one. */
  lemma {:induction false} AwaitedInWindow(c: Conn, f: Flow, ack: nat, seg: TcpSegment)
    requires Agrees(f, ack, c.rcv) && f.Next() < 0x1_0000_0000 && (c.peerIsn.Some? ==> c.peerIsn == Some(f.isn))
    requires Offset(seg.header.seqno, f.isn) <= c.rcv.AckAbs() < Offset(seg.header.seqno, f.isn) + seg.Length()
    requires c.rcv.reasm.out.Room() >= 1
    ensures InWindow(c, seg)
  {
    if c.rcv.isn.Some? {
      AcknoIssued(f, ack, c.rcv);
    }
  }

  lemma {:induction false} FrontTaken(c: Conn, snd: Sender, f: Flow, a: nat, t: TcpSegment, o: Oracle)
    requires SenderInv(snd) && snd.queue != [] && f == FlowOf(snd) && a == snd.AckAbs() && IsCopy(snd.queue[0], t)
    requires Agrees(f, a, c.rcv) && f.Next() < 0x1_0000_0000 && (c.peerIsn.Some? ==> c.peerIsn == Some(f.isn))
    requires Fits(o, c.rcv.reasm.store) && c.rcv.reasm.out.Room() >= 1
    ensures c.rcv.Valid() && (if InWindow(c, t) then Receive(c.rcv, t, o) else c.rcv).AckAbs() > a
  {
    if InWindow(c, t) {
      CopyReceived(c.rcv, snd.queue[0], t, o);
      Completion.FrontAdvances(snd, c.rcv, o);
    } else if c.rcv.AckAbs() == a {
      AwaitedInWindow(c, f, a, t);
    }
  }

  lemma {:induction false} NotedIsn(c: Conn, f: Flow, seg: TcpSegment)
    requires c.snd.stream.Valid() && !seg.header.rst && Carries(f, seg)
    requires c.peerIsn.Some? ==> c.peerIsn == Some(f.isn)
    ensures var c' := NoteFlags(c, seg); c'.rcv == c.rcv && (c'.peerIsn.Some? ==> c'.peerIsn == Some(f.isn))
  {
  }

  /** However often it came before, the oldest unacknowledged segment leaves the peer past our acknowledgment. */
  lemma {:induction false} DeliverFront(s: Sys, t: TcpSegment, o: Oracle)
    requires Sound(s) && s.a.snd.queue != [] && t in s.ab && IsCopy(s.a.snd.queue[0], t)
    requires Fits(o, s.b.rcv.reasm.store) && s.b.rcv.reasm.out.Room() >= 1
    ensures SegmentReceived(s.b, t, o).rcv.AckAbs() > s.a.snd.AckAbs()
  {
    var f := FlowOf(s.a.snd);
    assert Carries(f, t);
    NotedIsn(s.b, f, t);
    ArriveAhead(s.b, t, o);
    FrontTaken(NoteFlags(s.b, t), s.a.snd, f, s.a.snd.AckAbs(), t, o);
  }

  lemma {:induction false} TickFillKeeps(c: Conn, ms: nat)
    requires ConnInv(c) && c.snd.queue != []
    ensures var f := TickFill(c, ms).snd;
            && SenderInv(f) && f.timer == c.snd.timer && f.ack == c.snd.ack && f.isn == c.snd.isn
            && f.consecutive == c.snd.consecutive && f.stream == c.snd.stream.(read := f.stream.read)
            && f.queue != [] && f.queue[0] == c.snd.queue[0]
  {
    TickFillInv(c, ms);
    TickFillFrame(c, ms);
    FillTimer(c.snd);
    FillReads(c.snd);
    FillAppends(c.snd);
    FillWindowInv(c.snd);
  }

  /** A tick that runs out the timer puts the oldest segment on its way again. */
  lemma {:induction false} TimerResends(c: Conn, ms: nat)
    requires ConnInv(c) && Unstamped(c.snd) && c.snd.queue != [] && c.snd.timer.running && c.snd.timer.left <= ms
    ensures var f, t := c.snd.queue[0], TickTimer(c, ms);
            && t.snd.queue == c.snd.queue && t.snd.consecutive == c.snd.consecutive + 1
            && HasCopy(f, t.out, {})
  {
    RetransmitTimer(c.snd);
    var out := Retransmit(c.snd).out;
    StampAllIs(c.rcv, out);
    var t := TickTimer(c, ms);
    var k := |c.snd.out|;
    assert out[k] == c.snd.queue[0];
    assert t.out[|c.out| + k] == Stamp(c.rcv, c.snd.queue[0]);
    assert IsCopy(c.snd.queue[0], t.out[|c.out| + k]);
  }

  lemma {:induction false} TickResends(c: Conn, ms: nat)
    requires ConnInv(c) && Unstamped(c.snd) && !c.closed && c.snd.queue != [] && c.snd.timer.left <= ms
    requires c.snd.consecutive < MAX_RETX_ATTEMPTS
    ensures TickDefined(c, ms)
    ensures var c' := Connections.Tick(c, ms);
            && Ahead(c, c') && c'.snd.AckAbs() == c.snd.AckAbs() && c'.rcv == c.rcv
            && c'.snd.queue != [] && c'.snd.queue[0] == c.snd.queue[0] && HasCopy(c.snd.queue[0], c'.out, {})
  {
    TickFillKeeps(c, ms);
    TickFillFrame(c, ms);
    FillUnstamped(c.snd);
    TickSendInv(c, ms);
    TickSendFrame(c, ms);
    var f := TickFill(c, ms);
    assert SenderInv(f.snd) && f.rcv == c.rcv;
    TimerResends(f, ms);
    FlightIffQueue(TickSend(c, ms).snd);
    assert Connections.Tick(c, ms) == TickSend(c, ms) == TickTimer(f, ms);
  }

  /** If it is not on its way, the oldest segment is sent again. */
  lemma {:induction false} RingFront(l: Sys, s: Sys) returns (t: Sys)
    requires SysReaches(l, s) && Sound(s) && !s.a.closed && s.a.snd.queue != []
    requires s.a.snd.consecutive < MAX_RETX_ATTEMPTS
    ensures SysReaches(l, t) && Sound(t) && t.b == s.b && Ahead(s.a, t.a)
    ensures t.a.snd.AckAbs() == s.a.snd.AckAbs()
    ensures t.a.snd.queue != [] && HasCopy(t.a.snd.queue[0], t.a.out, t.ab)
  {
    var ms := s.a.snd.timer.left;
    TickResends(s.a, ms);
    t := s.(a := Connections.Tick(s.a, ms));
    StepOn(l, s, ConnEvent.Elapse(ms), t);
    HasCopyGrows(t.a.snd.queue[0], t.a.out, {}, t.a.out, t.ab);
  }

  /** What waits goes out, and the peer's reader makes room. */
  lemma {:induction false} SendFront(l: Sys, s: Sys) returns (t: Sys, seg: TcpSegment)
    requires SysReaches(l, s) && Sound(s) && s.a.snd.queue != [] && HasCopy(s.a.snd.queue[0], s.a.out, s.ab)
    ensures SysReaches(l, t) && Sound(t) && (Live(s) ==> Live(t)) && Onward(s.a, t.a) && Onward(s.b, t.b)
    ensures t.a.snd == s.a.snd && seg in t.ab && IsCopy(s.a.snd.queue[0], seg)
    ensures t.b.rcv.reasm.out.Buffered() == 0
  {
    var s1 := s.(a := s.a.(out := []), ab := NetAfter(s.a, Take, s.ab));
    StepOn(l, s, Take, s1);
    var all := s1.b.rcv.reasm.out.Buffered();
    t := s1.(b := ReadInbound(s1.b, all));
    PeerStepOn(l, s1, ReadIn(all), t);
    HasCopyGrows(s.a.snd.queue[0], s.a.out, s.ab, [], t.ab);
    seg :| seg in t.ab && IsCopy(t.a.snd.queue[0], seg);
  }

  lemma {:induction false} AnswerIsNew(s: Sys, answer: TcpSegment)
    requires Sound(s) && s.b.rcv.AckAbs() > s.a.snd.AckAbs() && Stamped(s.b.rcv, answer)
    ensures answer.header.ack && NewAck(s.a.snd, answer.header.ackno)
  {
    var f, a := FlowOf(s.a.snd), s.a.snd.AckAbs();
    AcknoIssued(f, a, s.b.rcv);
    AgreesMeans(f, a, s.b.rcv);
  }

  /** It arrives, and is answered; */
  lemma {:induction false} ArriveFront(l: Sys, s: Sys, seg: TcpSegment) returns (t: Sys, answer: TcpSegment)
    requires SysReaches(l, s) && Sound(s) && s.a.snd.queue != [] && seg in s.ab && IsCopy(s.a.snd.queue[0], seg)
    requires !s.b.closed && s.b.rcv.reasm.out.Room() >= 1
    ensures SysReaches(l, t) && Sound(t) && (Live(s) ==> Live(t)) && t.a == s.a && Onward(s.b, t.b)
    ensures answer in t.b.out && !answer.header.rst && answer.header.ack && NewAck(s.a.snd, answer.header.ackno)
  {
    var o := Completion.SomeOracle(s.b.rcv.reasm.store);
    DeliverFront(s, seg, o);
    ArriveAhead(s.b, seg, o);
    t := s.(b := SegmentReceived(s.b, seg, o));
    PeerStepOn(l, s, Arrive(seg, o), t);
    AnswersExactly(s.b, seg, o);
    AnswersPlain(s.b, seg, o);
    answer := t.b.out[|s.b.out|];
    AnswerIsNew(t, answer);
  }

  /** the answer goes out; */
  lemma {:induction false} SendAnswers(l: Sys, s: Sys) returns (t: Sys)
    requires SysReaches(l, s) && Sound(s)
    ensures SysReaches(l, t) && Sound(t) && (Live(s) ==> Live(t)) && t.a == s.a && Onward(s.b, t.b)
    ensures forall seg :: seg in s.b.out ==> seg in t.ba
  {
    t := s.(b := s.b.(out := []), ba := NetAfter(s.b, Take, s.ba));
    PeerStepOn(l, s, Take, t);
  }

  /** and it comes back. */
  lemma {:induction false} TakeAnswer(l: Sys, s: Sys, answer: TcpSegment) returns (t: Sys)
    requires SysReaches(l, s) && Sound(s) && answer in s.ba
    requires !answer.header.rst && answer.header.ack && NewAck(s.a.snd, answer.header.ackno)
    ensures SysReaches(l, t) && Sound(t) && (Live(s) ==> Live(t)) && t.b == s.b && Onward(s.a, t.a)
    ensures t.a.snd.AckAbs() > s.a.snd.AckAbs() && t.a.snd.consecutive == 0
  {
    var o := Completion.SomeOracle(s.a.rcv.reasm.store);
    ArriveAhead(s.a, answer, o);
    t := s.(a := SegmentReceived(s.a, answer, o));
    StepOn(l, s, Arrive(answer, o), t);
  }

  /** Whatever is queued is on its way, or neither endpoint is about to give up. */
  ghost predicate Hopeful(s: Sys) {
    || Live(s)
    || (s.a.snd.consecutive < MAX_RETX_ATTEMPTS && s.b.snd.consecutive < MAX_RETX_ATTEMPTS)
  }

  lemma {:induction false} RoundTrip(l: Sys, s: Sys) returns (t: Sys)
    requires SysReaches(l, s) && Sound(s) && Hopeful(s) && !s.a.closed && !s.b.closed
    requires s.a.snd.queue != [] && s.b.rcv.reasm.out.capacity >= 1
    ensures SysReaches(l, t) && Sound(t) && Hopeful(t) && Ahead(s.a, t.a) && Ahead(s.b, t.b)
    ensures t.a.snd.AckAbs() > s.a.snd.AckAbs()
  {
    var s0 := s;
    if !Live(s) {
      s0 := RingFront(l, s);
    } else {
      assert HasCopy(s.a.snd.queue[0], s.a.out, s.ab);
    }
    var s1, seg := SendFront(l, s0);
    var s2, answer := ArriveFront(l, s1, seg);
    var s3 := SendAnswers(l, s2);
    t := TakeAnswer(l, s3, answer);
  }

  // ---------------------------------------------------------------- both streams through, both ends closed

  /** All sent and acknowledged. */
  ghost predicate Finished(s: Sender) {
    s.phase == FinSent && s.queue == []
  }

  lemma {:induction false} FillNew(l: Sys, s: Sys) returns (t: Sys)
    requires SysReaches(l, s) && Sound(s) && s.a.snd.stream.ended && s.a.snd.queue == [] && s.a.snd.phase != FinSent
    ensures SysReaches(l, t) && Sound(t) && (Live(s) ==> Live(t)) && t.b == s.b && Onward(s.a, t.a)
    ensures t.a.snd.queue != []
  {
    t := s.(a := Connections.Write(s.a, []));
    FillAhead(s.a);
    FillWindowInv(s.a.snd);
    FillStops(s.a.snd);
    InFlightExact(s.a.snd);
    InFlightExact(FillWindow(s.a.snd));
    FlightIffQueue(FillWindow(s.a.snd));
    StepOn(l, s, WriteOut([]), t);
  }

  /** Progress in the direction from `a` to `b`. */
  lemma {:induction false} Advance(l: Sys, s: Sys) returns (t: Sys)
    requires SysReaches(l, s) && Sound(s) && Hopeful(s) && !s.a.closed && !s.b.closed
    requires s.a.snd.stream.ended && s.b.rcv.reasm.out.capacity >= 1 && !Finished(s.a.snd)
    ensures SysReaches(l, t) && Sound(t) && Hopeful(t) && Ahead(s.a, t.a) && Ahead(s.b, t.b)
    ensures t.a.snd.AckAbs() > s.a.snd.AckAbs()
  {
    t := s;
    if t.a.snd.queue == [] {
      t := FillNew(l, t);
    }
    t := RoundTrip(l, t);
  }

  ghost predicate Open(s: Sys) {
    && !s.a.closed && !s.b.closed && s.a.snd.stream.ended && s.b.snd.stream.ended
    && s.a.rcv.reasm.out.capacity >= 1 && s.b.rcv.reasm.out.capacity >= 1
  }

  lemma {:induction false} AckBelow(s: Sender)
    requires SenderInv(s)
    ensures s.AckAbs() <= |s.stream.written| + 2
  {
  }

  /** Until both directions are finished, one of them can advance. */
  lemma {:induction false} FinishBoth(l: Sys, s: Sys) returns (t: Sys)
    requires SysReaches(l, s) && Sound(s) && Hopeful(s) && Open(s)
    ensures SysReaches(l, t) && Sound(t) && Ahead(s.a, t.a) && Ahead(s.b, t.b)
    ensures Finished(t.a.snd) && Finished(t.b.snd)
    decreases |s.a.snd.stream.written| + |s.b.snd.stream.written| + 4 - s.a.snd.AckAbs() - s.b.snd.AckAbs()
  {
    t := s;
    if !Finished(s.a.snd) {
      t := Advance(l, s);
    } else if !Finished(s.b.snd) {
      SysReachesFlip(l, s);
      var u := Advance(l.Flip(), s.Flip());
      SysReachesFlip(l.Flip(), u);
      t := u.Flip();
    }
    if t != s {
      AckBelow(s.a.snd);
      AckBelow(s.b.snd);
      AckBelow(t.a.snd);
      AckBelow(t.b.snd);
      t := FinishBoth(l, t);
    }
  }

  lemma {:induction false} NothingUnassembled(r: Reassembler, source: Bytes)
    requires Inv(r, source) && r.out.ended
    ensures Positions(r.store) == {}
  {
    assert forall k :: k in r.store ==> false;
  }

  lemma {:induction false} FinishedQuiet(s: Sender, ms: nat)
    requires SenderInv(s) && Finished(s)
    ensures FillWindow(s) == s && Sending.Tick(s, ms) == s && s.stream.Eof() && s.InFlight() == 0
  {
    FlightIffQueue(s);
  }

  /** A tick long enough closes an endpoint that is done in both directions. */
  lemma {:induction false} LastTick(c: Conn, ms: nat)
    requires ConnInv(c) && !c.closed && Finished(c.snd) && Positions(c.rcv.reasm.store) == {} && c.rcv.reasm.out.Eof()
    requires ms >= 10 * c.rtTimeout + c.received
    ensures TickDefined(c, ms)
    ensures Connections.Tick(c, ms) == c.(now := c.now + ms, linger := false, closed := true)
  {
    FinishedQuiet(c.snd, ms);
    var c0 := c.(now := c.now + ms);
    assert c0.snd.(out := []) == c0.snd && c0.out + StampAll(c0.rcv, []) == c0.out;
    assert SendSegments(c0) == c0;
    assert TickFill(c, ms) == c0 && TickTimer(c0, ms) == c0 && Abort(c0) == c0;
  }

  lemma {:induction false} PeerFinished(s: Sys)
    requires Sound(s) && Finished(s.a.snd)
    ensures s.b.rcv.reasm.out.ended && s.b.rcv.reasm.out.written == s.a.snd.stream.written
    ensures Positions(s.b.rcv.reasm.store) == {}
  {
    FinishedQuiet(s.a.snd, 0);
    AgreesMeans(FlowOf(s.a.snd), s.a.snd.AckAbs(), s.b.rcv);
    NothingUnassembled(s.b.rcv.reasm, FlowOf(s.a.snd).sent);
  }

  /** The reader takes the rest, and time passes. */
  lemma {:induction false} CloseOne(l: Sys, s: Sys) returns (t: Sys)
    requires SysReaches(l, s) && Sound(s) && !s.a.closed && Finished(s.a.snd) && Finished(s.b.snd)
    ensures SysReaches(l, t) && Sound(t) && (Live(s) ==> Live(t)) && t.b == s.b && t.a.closed && t.a.snd == s.a.snd
  {
    var all := s.a.rcv.reasm.out.Buffered();
    var s1 := s.(a := ReadInbound(s.a, all));
    StepOn(l, s, ReadIn(all), s1);
    PeerFinished(s1.Flip());
    var ms := 10 * s1.a.rtTimeout + s1.a.received;
    LastTick(s1.a, ms);
    t := s1.(a := Connections.Tick(s1.a, ms));
    StepOn(l, s1, ConnEvent.Elapse(ms), t);
  }

  /** Both endpoints closed without giving up, and delivered all that was written in `s`. */
  ghost predicate ClosedWhole(s: Sys, end: Sys) {
    && end.a.closed && end.b.closed && BothDelivered(end)
    && end.a.snd.consecutive == 0 && end.b.snd.consecutive == 0
    && end.a.snd.stream.written == s.a.snd.stream.written && end.b.snd.stream.written == s.b.snd.stream.written
  }

  lemma {:induction false} CloseBoth(s: Sys) returns (end: Sys)
    requires Sound(s) && Hopeful(s) && Open(s)
    ensures SysReaches(s, end) && ClosedWhole(s, end)
  {
    SysReachesSelf(s);
    var t := FinishBoth(s, s);
    t := CloseOne(s, t);
    SysReachesFlip(s, t);
    var u := CloseOne(s.Flip(), t.Flip());
    SysReachesFlip(s.Flip(), u);
    end := u.Flip();
    PeerFinished(end);
    PeerFinished(end.Flip());
  }

  /**
   * From every state two endpoints reach, as long as both are open and both writers have ended, some continuation
   * closes both endpoints without giving up, with every byte written at either end delivered at the other.
   */
  lemma {:induction false} CanAlwaysClose(states: seq<Sys>, events: seq<SysEvent>, n: nat) returns (end: Sys)
    requires IsSysRun(states, events) && n < |states| && Open(states[n])
    ensures SysReaches(states[n], end) && ClosedWhole(states[n], end)
  {
    RunLive(states, events, n);
    end := CloseBoth(states[n]);
  }

  /** The state after the network has lost everything it carried. */
  function AllLost(s: Sys): Sys {
    s.(ab := {}, ba := {})
  }

  /** Even if everything on the wire is lost, retransmission brings both to the same end, with one attempt to spare. */
  lemma {:induction false} RecoversFromLoss(states: seq<Sys>, events: seq<SysEvent>, n: nat) returns (end: Sys)
    requires IsSysRun(states, events) && n < |states| && Open(states[n])
    requires states[n].a.snd.consecutive < MAX_RETX_ATTEMPTS && states[n].b.snd.consecutive < MAX_RETX_ATTEMPTS
    ensures SysReaches(AllLost(states[n]), end) && ClosedWhole(states[n], end)
  {
    RunLive(states, events, n);
    end := CloseBoth(AllLost(states[n]));
  }
}
