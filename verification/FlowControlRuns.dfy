/** In two-party runs whose acknowledgments are never older than the last, the receivers keep all they let in. */
module FlowControlRuns {
  import opened Prelude
  import opened WrappingIntegers
  import opened Reassembly
  import opened ReassemblyRuns
  import opened ReassemblyCapacity
  import opened TcpSegments
  import opened TcpReceivers
  import opened Sending
  import opened SenderInvariants
  import opened SenderRuns
  import opened Transport
  import opened Connections
  import opened ConnectionRuns
  import opened TwoParty
  import opened Copies
  import opened FlowControl

  // ---------------------------------------------------------------- what is on the wire

  /** The right edge the segment tells of is one its sender's receiver stands by. */
  ghost predicate EdgeOk(seg: TcpSegment, r: Receiver, isn: U32)
    requires r.Valid()
  {
    seg.header.ack ==> r.isn.Some? && Offset(seg.header.ackno, isn) + seg.header.win <= RightEdge(r)
  }

  ghost predicate SentOk(seg: TcpSegment, isn: U32, bound: nat, r: Receiver, peer: U32)
    requires r.Valid()
  {
    BytesFit(seg, isn, bound) && EdgeOk(seg, r, peer)
  }

  ghost predicate AllSent(segs: seq<TcpSegment>, isn: U32, bound: nat, r: Receiver, peer: U32)
    requires r.Valid()
  {
    forall i :: 0 <= i < |segs| ==> SentOk(segs[i], isn, bound, r, peer)
  }

  ghost predicate NetSent(net: set<TcpSegment>, isn: U32, bound: nat, r: Receiver, peer: U32)
    requires r.Valid()
  {
    forall seg :: seg in net ==> SentOk(seg, isn, bound, r, peer)
  }

  lemma {:induction false} SentOkOn(seg: TcpSegment, isn: U32, bound: nat, bound': nat, g: Flow, b: nat, r: Receiver,
                                    r': Receiver)
    requires Agrees(g, b, r) && Agrees(g, b, r') && ReceiverLe(r, r') && bound <= bound'
    requires SentOk(seg, isn, bound, r, g.isn)
    ensures SentOk(seg, isn, bound', r', g.isn)
  {
    if seg.header.ack {
      RightEdgeMonotone(g, b, r, r');
    }
  }

  lemma {:induction false} AllSentOn(segs: seq<TcpSegment>, isn: U32, bound: nat, bound': nat, g: Flow, b: nat,
                                     r: Receiver, r': Receiver)
    requires Agrees(g, b, r) && Agrees(g, b, r') && ReceiverLe(r, r') && bound <= bound'
    requires AllSent(segs, isn, bound, r, g.isn)
    ensures AllSent(segs, isn, bound', r', g.isn)
  {
    forall i | 0 <= i < |segs|
      ensures SentOk(segs[i], isn, bound', r', g.isn)
    {
      SentOkOn(segs[i], isn, bound, bound', g, b, r, r');
    }
  }

  // ---------------------------------------------------------------- one endpoint facing its peer

  ghost predicate Heedful(c: Conn, g: Flow, peer: Receiver) {
    && peer.Valid() && c.rcv.Valid()
    && Heeds(c.snd, peer)
    && AllSent(c.out, c.snd.isn, Bound(peer), c.rcv, g.isn)
    && KnowsIsn(c) && StoreBelow(c.rcv.reasm) && c.rcv.reasm.out.capacity <= 0xFFFF
  }

  lemma {:induction false} SmallWindow(r: Receiver)
    requires r.Valid() && r.reasm.out.capacity <= 0xFFFF
    ensures r.WindowSize() % 0x1_0000 == r.WindowSize()
  {
  }

  lemma {:induction false} StampFits(seg: TcpSegment, isn: U32, bound: nat, r: Receiver)
    requires r.Valid() && BytesFit(seg, isn, bound)
    ensures BytesFit(Stamp(r, seg), isn, bound)
  {
  }

  lemma {:induction false} StampSent(seg: TcpSegment, isn: U32, bound: nat, g: Flow, b: nat, r: Receiver)
    requires Agrees(g, b, r) && g.Next() < 0x1_0000_0000 && r.reasm.out.capacity <= 0xFFFF
    requires BytesFit(seg, isn, bound) && !seg.header.ack
    ensures SentOk(Stamp(r, seg), isn, bound, r, g.isn)
  {
    StampFits(seg, isn, bound, r);
    SmallWindow(r);
    if r.isn.Some? {
      AcknoIssued(g, b, r);
    }
  }

  lemma {:induction false} SendHeedful(c: Conn, g: Flow, b: nat, peer: Receiver)
    requires Side(c, g, b, peer) && Heedful(c, g, peer)
    ensures Heedful(SendSegments(c), g, peer)
  {
    var out := SendSegments(c).out;
    StampAllIs(c.rcv, c.snd.out);
    forall i | 0 <= i < |c.snd.out|
      ensures SentOk(StampAll(c.rcv, c.snd.out)[i], c.snd.isn, Bound(peer), c.rcv, g.isn)
    {
      StampSent(c.snd.out[i], c.snd.isn, Bound(peer), g, b, c.rcv);
    }
    assert forall i :: 0 <= i < |out| ==> SentOk(out[i], c.snd.isn, Bound(peer), c.rcv, g.isn);
  }

  lemma {:induction false} FilledHeedful(c: Conn, g: Flow, b: nat, peer: Receiver)
    requires Side(c, g, b, peer) && Heedful(c, g, peer)
    ensures Heedful(c.(snd := FillWindow(c.snd)), g, peer)
  {
    FillHeeds(c.snd, peer);
    FillWindowInv(c.snd);
  }

  lemma {:induction false} ConnectHeedful(c: Conn, g: Flow, b: nat, peer: Receiver)
    requires Side(c, g, b, peer) && Heedful(c, g, peer)
    ensures Heedful(Connect(c), g, peer)
  {
    FilledHeedful(c, g, b, peer);
    FillSide(c, g, b, peer);
    SendHeedful(c.(snd := FillWindow(c.snd)), g, b, peer);
  }

  /** Only the stream's end, its bytes yet unsent, or its error flag differ. */
  lemma {:induction false} StreamHeedful(c: Conn, snd: Sender, g: Flow, peer: Receiver)
    requires Heedful(c, g, peer) && snd == c.snd.(stream := snd.stream)
    ensures Heedful(c.(snd := snd), g, peer)
  {
  }

  lemma {:induction false} SetErrorsHeedful(c: Conn, g: Flow, peer: Receiver)
    requires Heedful(c, g, peer)
    ensures Heedful(SetErrors(c), g, peer)
  {
    var rcv := c.rcv.(reasm := c.rcv.reasm.(out := c.rcv.reasm.out.SetError()));
    assert RightEdge(rcv) == RightEdge(c.rcv);
  }

  lemma {:induction false} NoteRstHeedful(c: Conn, seg: TcpSegment, g: Flow, peer: Receiver)
    requires Heedful(c, g, peer)
    ensures Heedful(NoteRst(c, seg), g, peer) && NoteRst(c, seg).rcv.isn == c.rcv.isn
    ensures NoteRst(c, seg).peerIsn == c.peerIsn
  {
    SetErrorsHeedful(c, g, peer);
  }

  lemma {:induction false} NoteSynFinHeedful(c: Conn, seg: TcpSegment, g: Flow, peer: Receiver)
    requires c.snd.stream.Valid() && Heedful(c, g, peer) && Carries(g, seg)
    requires c.rcv.isn.Some? ==> c.rcv.isn == Some(g.isn)
    ensures Heedful(NoteSynFin(c, seg), g, peer)
    ensures seg.header.syn ==> NoteSynFin(c, seg).peerIsn == Some(g.isn)
  {
    assert seg.header.syn ==> seg.header.seqno == g.isn;
  }

  lemma {:induction false} NoteFlagsHeedful(c: Conn, seg: TcpSegment, g: Flow, b: nat, peer: Receiver)
    requires Side(c, g, b, peer) && Heedful(c, g, peer) && Carries(g, seg)
    ensures Heedful(NoteFlags(c, seg), g, peer)
    ensures seg.header.syn ==> NoteFlags(c, seg).peerIsn == Some(g.isn)
  {
    var c0 := c.(received := c.now);
    assert Heedful(c0, g, peer);
    NoteRstHeedful(c0, seg, g, peer);
    NoteSynFinHeedful(NoteRst(c0, seg), seg, g, peer);
  }

  lemma {:induction false} TakePayloadHeedful(c: Conn, seg: TcpSegment, o: Oracle, g: Flow, b: nat, peer: Receiver)
    requires Side(c, g, b, peer) && Heedful(c, g, peer) && Carries(g, seg) && Fits(o, c.rcv.reasm.store)
    requires BytesFit(seg, g.isn, Bound(c.rcv)) && (seg.header.syn ==> c.peerIsn == Some(g.isn))
    ensures Heedful(TakePayload(c, seg, o), g, peer)
  {
    if InWindow(c, seg) && IsnAfter(c.rcv, seg).Some? {
      var rcv := Receive(c.rcv, seg, o);
      ReceiveAgrees(g, b, c.rcv, seg, o);
      CarriedIsHonest(g, seg);
      PassedIsAllowed(c, g, b, seg);
      AllowedBelow(c.rcv.reasm, seg.payload, StreamIndex(seg, g.isn), seg.header.fin, o, g.sent);
      AllSentOn(c.out, c.snd.isn, Bound(peer), Bound(peer), g, b, c.rcv, rcv);
    }
  }

  lemma {:induction false} TakeAckHeedful(c: Conn, seg: TcpSegment, g: Flow, b: nat, peer: Receiver)
    requires Side(c, g, b, peer) && Heedful(c, g, peer)
    requires seg.header.ack ==> Issued(peer, c.snd.isn, seg.header.ackno) && EdgeOk(seg, peer, c.snd.isn)
                                && NotOlder(c.snd, seg.header.ackno, seg.header.win)
    ensures Heedful(TakeAck(c, seg), g, peer)
  {
    if seg.header.ack {
      AckHeeds(c.snd, seg.header.ackno, seg.header.win, peer);
    }
  }

  lemma {:induction false} EmptyHeedful(c: Conn, g: Flow, peer: Receiver)
    requires Heedful(c, g, peer)
    ensures Heedful(c.(snd := SendEmpty(c.snd)), g, peer)
  {
  }

  lemma {:induction false} ReplyHeedful(c: Conn, seg: TcpSegment, g: Flow, b: nat, peer: Receiver)
    requires Side(c, g, b, peer) && Heedful(c, g, peer)
    ensures Heedful(c.(snd := Reply(c.snd, seg)), g, peer)
  {
    FilledHeedful(c, g, b, peer);
    EmptyHeedful(c.(snd := FillWindow(c.snd)), g, peer);
  }

  lemma {:induction false} AnswerHeedful(c: Conn, seg: TcpSegment, g: Flow, b: nat, peer: Receiver)
    requires Side(c, g, b, peer) && Heedful(c, g, peer)
    ensures Heedful(Answer(c, seg), g, peer)
  {
    var c1 := c.(snd := Reply(c.snd, seg));
    ReplySide(c, seg, g, b, peer);
    ReplyHeedful(c, seg, g, b, peer);
    if IsKeepAlive(c.rcv, seg) {
      EmptySide(c1, g, b, peer);
      EmptyHeedful(c1, g, peer);
      SendHeedful(c1.(snd := SendEmpty(c1.snd)), g, b, peer);
    } else {
      SendHeedful(c1, g, b, peer);
    }
  }

  lemma {:induction false} TickTimerHeedful(c: Conn, ms: nat, g: Flow, b: nat, peer: Receiver)
    requires Side(c, g, b, peer) && Heedful(c, g, peer)
    ensures Expires(c.snd, ms) ==> c.snd.queue != []
    ensures Heedful(TickTimer(c, ms), g, peer)
  {
    var snd := Sending.Tick(c.snd, ms);
    TickHeeds(c.snd, ms, peer);
    TickInv(c.snd, ms);
    TickUnstamped(c.snd, ms);
    SenderMoves(c, snd, g, b, peer);
    SendHeedful(c.(snd := snd), g, b, peer);
  }

  lemma {:induction false} SendRstHeedful(c: Conn, g: Flow, b: nat, peer: Receiver)
    requires Side(c, g, b, peer) && Heedful(c, g, peer)
    ensures Heedful(SendRst(c), g, peer)
  {
    EmptyHeedful(c, g, peer);
    EmptySide(c, g, b, peer);
    var c0 := c.(snd := SendEmpty(c.snd));
    var rst := c0.snd.out[0].(header := c0.snd.out[0].header.(rst := true));
    assert SentOk(rst, c.snd.isn, Bound(peer), c.rcv, g.isn);
    SetErrorsHeedful(c0.(out := [rst]), g, peer);
  }

  lemma {:induction false} TickFillHeedful(c: Conn, ms: nat, g: Flow, b: nat, peer: Receiver)
    requires Side(c, g, b, peer) && Heedful(c, g, peer)
    ensures Heedful(TickFill(c, ms), g, peer)
  {
    var c0 := c.(now := c.now + ms);
    SideFields(c, c0, g, b, peer);
    assert Heedful(c0, g, peer);
    if HasOutput(c.snd.stream) {
      ConnectHeedful(c0, g, b, peer);
    }
  }

  lemma {:induction false} SettleHeedful(c: Conn, g: Flow, peer: Receiver)
    requires c.Valid() && Heedful(c, g, peer)
    ensures Heedful(Settle(c), g, peer)
  {
  }

  lemma {:induction false} TickHeedful(c: Conn, ms: nat, g: Flow, b: nat, peer: Receiver)
    requires Side(c, g, b, peer) && Heedful(c, g, peer)
    ensures TickDefined(c, ms) && Heedful(Connections.Tick(c, ms), g, peer)
  {
    var c1 := TickFill(c, ms);
    TickFillHeedful(c, ms, g, b, peer);
    TickFillSide(c, ms, g, b, peer);
    var c2 := TickTimer(c1, ms);
    TickTimerHeedful(c1, ms, g, b, peer);
    TickTimerSide(c1, ms, g, b, peer);
    SendRstHeedful(c2, g, b, peer);
    SettleHeedful(Abort(c2), g, peer);
  }

  lemma {:induction false} ReadHeedful(c: Conn, n: nat, g: Flow, b: nat, peer: Receiver)
    requires Side(c, g, b, peer) && Heedful(c, g, peer)
    ensures Heedful(ReadInbound(c, n), g, peer)
  {
    ReadAgrees(g, b, c.rcv, n);
    AllSentOn(c.out, c.snd.isn, Bound(peer), Bound(peer), g, b, c.rcv, ReadInbound(c, n).rcv);
  }

  /** What the run theorems ask of what arrives: no acknowledgment older than the last. */
  ghost predicate InOrder(c: Conn, e: ConnEvent) {
    e.Arrive? && e.seg.header.ack ==> NotOlder(c.snd, e.seg.header.ackno, e.seg.header.win)
  }

  lemma {:induction false} ArriveHeedful(c: Conn, seg: TcpSegment, o: Oracle, g: Flow, b: nat, peer: Receiver)
    requires Side(c, g, b, peer) && Heedful(c, g, peer) && SegOk(g, peer, c.snd.isn, seg)
    requires SentOk(seg, g.isn, Bound(c.rcv), peer, c.snd.isn) && Fits(o, c.rcv.reasm.store)
    requires seg.header.ack ==> NotOlder(c.snd, seg.header.ackno, seg.header.win)
    ensures Heedful(SegmentReceived(c, seg, o), g, peer)
  {
    var c0 := NoteFlags(c, seg);
    NoteFlagsHeedful(c, seg, g, b, peer);
    NoteFlagsSide(c, seg, g, b, peer);
    var c1 := TakePayload(c0, seg, o);
    NoteFlagsRcv(c, seg);
    TakePayloadHeedful(c0, seg, o, g, b, peer);
    TakePayloadSide(c0, seg, o, g, b, peer);
    TakeAckHeedful(c1, seg, g, b, peer);
    TakeAckSide(c1, seg, g, b, peer);
    AnswerHeedful(TakeAck(c1, seg), seg, g, b, peer);
  }

  lemma {:induction false} NoteFlagsRcv(c: Conn, seg: TcpSegment)
    requires c.snd.stream.Valid()
    ensures var c' := NoteFlags(c, seg);
            && c'.rcv.reasm == c.rcv.reasm.(out := c'.rcv.reasm.out) && c'.rcv.isn == c.rcv.isn
            && c'.rcv.reasm.out == c.rcv.reasm.out.(error := c'.rcv.reasm.out.error)
            && c'.snd == c.snd.(stream := c'.snd.stream) && c'.out == c.out
  {
  }

  lemma {:induction false} StepHeedful(c: Conn, e: ConnEvent, c': Conn, g: Flow, b: nat, peer: Receiver)
    requires Side(c, g, b, peer) && Heedful(c, g, peer) && ConnNext(c, e, c') && InOrder(c, e)
    requires |c'.snd.stream.written| <= LIMIT
    requires e.Arrive? ==>
               SegOk(g, peer, c.snd.isn, e.seg) && SentOk(e.seg, g.isn, Bound(c.rcv), peer, c.snd.isn)
    ensures Heedful(c', g, peer)
  {
    match e
    case Open => ConnectHeedful(c, g, b, peer);
    case WriteOut(data) => WriteHeedful(c, data, g, b, peer);
    case CloseOut => EndHeedful(c, g, b, peer);
    case Arrive(seg, o) => ArriveHeedful(c, seg, o, g, b, peer);
    case ReadIn(n) => ReadHeedful(c, n, g, b, peer);
    case Elapse(ms) => TickHeedful(c, ms, g, b, peer);
    case Drop => SendRstHeedful(c, g, b, peer);
    case Take =>
  }

  lemma {:induction false} WriteHeedful(c: Conn, data: Bytes, g: Flow, b: nat, peer: Receiver)
    requires Side(c, g, b, peer) && Heedful(c, g, peer) && |Connections.Write(c, data).snd.stream.written| <= LIMIT
    ensures Heedful(Connections.Write(c, data), g, peer)
  {
    var snd := c.snd.(stream := c.snd.stream.Write(data));
    FillReads(snd);
    WriteInv(c.snd, data);
    SenderMoves(c, snd, g, b, peer);
    StreamHeedful(c, snd, g, peer);
    ConnectHeedful(c.(snd := snd), g, b, peer);
  }

  lemma {:induction false} EndHeedful(c: Conn, g: Flow, b: nat, peer: Receiver)
    requires Side(c, g, b, peer) && Heedful(c, g, peer)
    ensures Heedful(EndInputStream(c), g, peer)
  {
    var snd := c.snd.(stream := c.snd.stream.EndInput());
    EndInputInv(c.snd);
    SenderMoves(c, snd, g, b, peer);
    StreamHeedful(c, snd, g, peer);
    ConnectHeedful(c.(snd := snd), g, b, peer);
  }

  // ---------------------------------------------------------------- two endpoints

  ghost predicate HeedSys(s: Sys) {
    && s.a.Valid() && s.b.Valid()
    && Heedful(s.a, FlowOf(s.b.snd), s.b.rcv) && Heedful(s.b, FlowOf(s.a.snd), s.a.rcv)
    && NetSent(s.ab, s.a.snd.isn, Bound(s.b.rcv), s.a.rcv, s.b.snd.isn)
    && NetSent(s.ba, s.b.snd.isn, Bound(s.a.rcv), s.b.rcv, s.a.snd.isn)
  }

  lemma {:induction false} OwnNet(s: Sys, e: ConnEvent, s': Sys)
    requires SysInv(s) && SysInv(s') && HeedSys(s) && StepA(s, e, s') && Moves(s.a, s'.a)
    ensures NetSent(s'.ab, s'.a.snd.isn, Bound(s'.b.rcv), s'.a.rcv, s'.b.snd.isn)
  {
    var g, b := FlowOf(s.b.snd), s.b.snd.AckAbs();
    forall seg | seg in s'.ab
      ensures SentOk(seg, s'.a.snd.isn, Bound(s.b.rcv), s'.a.rcv, g.isn)
    {
      if seg !in s.ab {
        var i :| 0 <= i < |s.a.out| && s.a.out[i] == seg;
      }
      SentOkOn(seg, s.a.snd.isn, Bound(s.b.rcv), Bound(s.b.rcv), g, b, s.a.rcv, s'.a.rcv);
    }
  }

  lemma {:induction false} PeerHeedful(s: Sys, e: ConnEvent, s': Sys)
    requires SysInv(s) && SysInv(s') && HeedSys(s) && StepA(s, e, s') && Moves(s.a, s'.a)
    ensures Heedful(s'.b, FlowOf(s'.a.snd), s'.a.rcv)
    ensures NetSent(s'.ba, s'.b.snd.isn, Bound(s'.a.rcv), s'.b.rcv, s'.a.snd.isn)
  {
    HeedsOn(s.b.snd, FlowOf(s.b.snd), s.a.rcv, s'.a.rcv);
    assert Bound(s.a.rcv) <= Bound(s'.a.rcv) && s'.a.snd.isn == s.a.snd.isn;
  }

  lemma {:induction false} StepAHeeds(s: Sys, e: ConnEvent, s': Sys)
    requires SysInv(s) && HeedSys(s) && StepA(s, e, s') && WithinLimit(s') && InOrder(s.a, e)
    ensures SysInv(s') && HeedSys(s')
  {
    var g, b := FlowOf(s.b.snd), s.b.snd.AckAbs();
    StepAInv(s, e, s');
    StepSide(s.a, e, s'.a, g, b, s.b.rcv);
    StepHeedful(s.a, e, s'.a, g, b, s.b.rcv);
    OwnNet(s, e, s');
    PeerHeedful(s, e, s');
  }

  /** Who acts, and whether what arrives there is in order. */
  ghost predicate SysInOrder(s: Sys, e: SysEvent) {
    match e
    case AtA(e) => InOrder(s.a, e)
    case AtB(e) => InOrder(s.b, e)
  }

  /** A run with 16-bit capacities in which no acknowledgment is older than the last. */
  ghost predicate IsHeedfulRun(states: seq<Sys>, events: seq<SysEvent>) {
    && IsSysRun(states, events)
    && states[0].a.rcv.reasm.out.capacity <= 0xFFFF && states[0].b.rcv.reasm.out.capacity <= 0xFFFF
    && forall i :: 0 <= i < |events| ==> SysInOrder(states[i], events[i])
  }

  lemma {:induction false} NewHeedful(c: Conn, d: Conn)
    requires IsNewConn(c) && IsNewConn(d) && c.rcv.reasm.out.capacity <= 0xFFFF
    ensures d.Valid() && Heedful(c, FlowOf(d.snd), d.rcv)
  {
    var rcap: nat, scap: nat, rt: U16, isn: U32 :| c == NewConn(rcap, scap, rt, isn);
    var rcap': nat, scap': nat, rt': U16, isn': U32 :| d == NewConn(rcap', scap', rt', isn');
  }

  lemma {:induction false} RunHeeds(states: seq<Sys>, events: seq<SysEvent>, n: nat)
    requires IsHeedfulRun(states, events) && n < |states|
    ensures SysInv(states[n]) && HeedSys(states[n])
  {
    if n == 0 {
      SysRunInv(states, events, 0);
      NewHeedful(states[0].a, states[0].b);
      NewHeedful(states[0].b, states[0].a);
    } else {
      var m := n - 1;
      RunHeeds(states, events, m);
      assert SysNext(states[m], events[m], states[m + 1]) && SysInOrder(states[m], events[m]);
      match events[m]
      case AtA(e) => StepAHeeds(states[m], e, states[m + 1]);
      case AtB(e) => StepAHeeds(states[m].Flip(), e, states[m + 1].Flip());
    }
  }

  // ---------------------------------------------------------------- what that means

  lemma {:induction false} BelowWithin(r: Reassembler, source: Bytes)
    requires Inv(r, source) && StoreBelow(r)
    ensures WithinCapacity(r)
  {
    forall p: nat | InStore(r.store, p)
      ensures r.willing <= p < r.out.capacity + r.out.read
    {
      var k :| k in r.store && k <= p < k + |r.store[k]|;
    }
    BoundedTotal(r.store, r.willing, r.out.capacity + r.out.read);
  }

  /** In such runs both reassemblers do stay within their documented capacity. */
  lemma {:induction false} CapacityKept(states: seq<Sys>, events: seq<SysEvent>, n: nat)
    requires IsHeedfulRun(states, events) && n < |states|
    ensures SysInv(states[n])
    ensures WithinCapacity(states[n].a.rcv.reasm) && WithinCapacity(states[n].b.rcv.reasm)
  {
    RunHeeds(states, events, n);
    BelowWithin(states[n].a.rcv.reasm, FlowOf(states[n].b.snd).sent);
    BelowWithin(states[n].b.rcv.reasm, FlowOf(states[n].a.snd).sent);
  }

  /** The segment passes the window check, and the stream's start is known. */
  ghost predicate LetIn(c: Conn, seg: TcpSegment)
    requires c.Valid()
  {
    InWindow(NoteFlags(c, seg), seg) && IsnAfter(c.rcv, seg).Some?
  }

  /** The event lets position `p` of the peer's stream in. */
  ghost predicate BringsIn(c: Conn, e: ConnEvent, p: nat)
    requires c.Valid()
  {
    && e.Arrive? && LetIn(c, e.seg)
    && var i := StreamIndex(e.seg, IsnAfter(c.rcv, e.seg).value); i <= p < i + |e.seg.payload|
  }

  lemma {:induction false} ArriveRcv(c: Conn, seg: TcpSegment, o: Oracle)
    requires c.Valid()
    ensures SegmentReceived(c, seg, o).rcv == TakePayload(NoteFlags(c, seg), seg, o).rcv
  {
  }

  lemma {:induction false} PayloadKept(c: Conn, seg: TcpSegment, o: Oracle, g: Flow, b: nat, peer: Receiver, p: nat)
    requires Side(c, g, b, peer) && Heedful(c, g, peer) && Carries(g, seg) && Fits(o, c.rcv.reasm.store)
    requires BytesFit(seg, g.isn, Bound(c.rcv)) && InWindow(c, seg) && IsnAfter(c.rcv, seg).Some?
    ensures var i := StreamIndex(seg, g.isn);
            Has(Push(c.rcv.reasm, seg.payload, i, seg.header.fin, o), p) <==>
            Has(c.rcv.reasm, p) || i <= p < i + |seg.payload|
  {
    CarriedIsHonest(g, seg);
    PassedIsAllowed(c, g, b, seg);
    AllowedKept(c.rcv.reasm, seg.payload, StreamIndex(seg, g.isn), seg.header.fin, o, g.sent, p);
  }

  lemma {:induction false} ArriveKeeps(c: Conn, seg: TcpSegment, o: Oracle, g: Flow, b: nat, peer: Receiver, p: nat)
    requires Side(c, g, b, peer) && Heedful(c, g, peer) && Carries(g, seg)
    requires BytesFit(seg, g.isn, Bound(c.rcv)) && Fits(o, c.rcv.reasm.store)
    ensures Has(SegmentReceived(c, seg, o).rcv.reasm, p) <==>
            Has(c.rcv.reasm, p) || BringsIn(c, ConnEvent.Arrive(seg, o), p)
  {
    var c0 := NoteFlags(c, seg);
    NoteFlagsRcv(c, seg);
    NoteFlagsHeedful(c, seg, g, b, peer);
    NoteFlagsSide(c, seg, g, b, peer);
    ArriveRcv(c, seg, o);
    if LetIn(c, seg) {
      PayloadKept(c0, seg, o, g, b, peer, p);
    }
  }

  /** Apart from arrivals, nothing touches what is stored or how far the stream has come. */
  ghost predicate SamePositions(r: Receiver, r': Receiver) {
    r'.reasm.store == r.reasm.store && r'.reasm.willing == r.reasm.willing
  }

  lemma {:induction false} AbortPositions(c: Conn)
    requires c.Valid()
    ensures SamePositions(c.rcv, Abort(c).rcv)
  {
  }

  lemma {:induction false} SettleRcv(c: Conn)
    requires c.Valid()
    ensures Settle(c).rcv == c.rcv
  {
  }

  lemma {:induction false} TickPositions(c: Conn, ms: nat)
    requires SenderInv(c.snd) && c.rcv.Valid()
    ensures TickDefined(c, ms) && SamePositions(c.rcv, Connections.Tick(c, ms).rcv)
  {
    TickSendInv(c, ms);
    TickFillFrame(c, ms);
    AbortPositions(TickTimer(TickFill(c, ms), ms));
    SettleRcv(TickSend(c, ms));
  }

  lemma {:induction false} QuietPositions(c: Conn, e: ConnEvent, c': Conn)
    requires SenderInv(c.snd) && c.rcv.Valid() && ConnNext(c, e, c') && !e.Arrive?
    ensures SamePositions(c.rcv, c'.rcv)
  {
    if e.Elapse? {
      TickPositions(c, e.ms);
    }
  }

  lemma {:induction false} StepKeeps(s: Sys, e: ConnEvent, s': Sys, p: nat)
    requires SysInv(s) && HeedSys(s) && StepA(s, e, s')
    ensures Has(s'.a.rcv.reasm, p) <==> Has(s.a.rcv.reasm, p) || BringsIn(s.a, e, p)
  {
    if e.Arrive? {
      ArriveKeeps(s.a, e.seg, e.o, FlowOf(s.b.snd), s.b.snd.AckAbs(), s.b.rcv, p);
    } else {
      QuietPositions(s.a, e, s'.a);
    }
  }

  /** Some event before `n` let position `p` in at endpoint `a`. */
  ghost predicate WasLetIn(states: seq<Sys>, events: seq<SysEvent>, n: nat, p: nat)
    requires n <= |events| < |states|
  {
    exists k :: 0 <= k < n && events[k].AtA? && states[k].a.Valid() && BringsIn(states[k].a, events[k].e, p)
  }

  lemma {:induction false} WasLetInSnoc(states: seq<Sys>, events: seq<SysEvent>, n: nat, p: nat)
    requires n < |events| < |states| && states[n].a.Valid()
    ensures WasLetIn(states, events, n + 1, p) <==>
            WasLetIn(states, events, n, p) || (events[n].AtA? && BringsIn(states[n].a, events[n].e, p))
  {
  }

  /**
   * In such runs no byte that was let in is ever discarded: an endpoint has written or stored exactly the positions
   * that the segments let in have brought.
   */
  lemma {:induction false} KeepsAllLetIn(states: seq<Sys>, events: seq<SysEvent>, n: nat, p: nat)
    requires IsHeedfulRun(states, events) && n < |states|
    ensures Has(states[n].a.rcv.reasm, p) <==> WasLetIn(states, events, n, p)
  {
    if n == 0 {
      var rcap: nat, scap: nat, rt: U16, isn: U32 :| states[0].a == NewConn(rcap, scap, rt, isn);
    } else {
      var m := n - 1;
      KeepsAllLetIn(states, events, m, p);
      RunHeeds(states, events, m);
      assert SysNext(states[m], events[m], states[m + 1]);
      WasLetInSnoc(states, events, m, p);
      if events[m].AtA? {
        StepKeeps(states[m], events[m].e, states[m + 1], p);
      }
    }
  }
}
