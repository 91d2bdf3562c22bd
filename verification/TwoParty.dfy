/** Two endpoints over a network that loses, duplicates and reorders in both directions. */
module TwoParty {
  import opened Prelude
  import opened WrappingIntegers
  import opened Reassembly
  import opened TcpSegments
  import opened TcpReceivers
  import opened Sending
  import opened SenderInvariants
  import opened SenderRuns
  import opened Transport
  import opened Connections
  import opened ConnectionRuns

  // ---------------------------------------------------------------- segments of an endpoint

  /** The segment belongs to the flow, and its acknowledgment, if it has one, was issued by this receiver. */
  ghost predicate SegOk(f: Flow, r: Receiver, peer: U32, seg: TcpSegment) {
    Carries(f, seg) && (seg.header.ack ==> Issued(r, peer, seg.header.ackno))
  }

  lemma {:induction false} SegOkGrows(f: Flow, f': Flow, r: Receiver, r': Receiver, peer: U32, seg: TcpSegment)
    requires SegOk(f, r, peer, seg) && FlowLe(f, f') && ReceiverLe(r, r')
    ensures SegOk(f', r', peer, seg)
  {
    CarriesGrows(f, f', seg);
  }

  ghost predicate AllOk(f: Flow, r: Receiver, peer: U32, segs: seq<TcpSegment>) {
    forall i :: 0 <= i < |segs| ==> SegOk(f, r, peer, segs[i])
  }

  lemma {:induction false} AllOkGrows(f: Flow, f': Flow, r: Receiver, r': Receiver, peer: U32, segs: seq<TcpSegment>)
    requires AllOk(f, r, peer, segs) && FlowLe(f, f') && ReceiverLe(r, r')
    ensures AllOk(f', r', peer, segs)
  {
    forall i | 0 <= i < |segs|
      ensures SegOk(f', r', peer, segs[i])
    {
      SegOkGrows(f, f', r, r', peer, segs[i]);
    }
  }

  ghost predicate Plain(segs: seq<TcpSegment>) {
    forall i :: 0 <= i < |segs| ==> !segs[i].header.ack && !segs[i].header.rst
  }

  /** The sender leaves the acknowledgment fields, and resets, to the connection. */
  ghost predicate Unstamped(s: Sender) {
    Plain(s.queue) && Plain(s.out)
  }

  lemma {:induction false} FillUnstamped(s: Sender)
    requires s.stream.Valid() && Unstamped(s)
    ensures Unstamped(FillWindow(s))
    decreases Unsent(s)
  {
    if CanSend(s) {
      FillUnstamped(FillOne(s));
    }
  }

  lemma {:induction false} DropAckedUnstamped(queue: seq<TcpSegment>, isn: U32, abs: nat)
    requires Plain(queue)
    ensures Plain(DropAcked(queue, isn, abs))
    decreases queue
  {
    if queue != [] {
      DropAckedUnstamped(queue[1..], isn, abs);
    }
  }

  lemma {:induction false} AckUnstamped(s: Sender, ackno: U32, window: U16)
    requires Unstamped(s)
    ensures Unstamped(AckReceived(s, ackno, window))
  {
    DropAckedUnstamped(s.queue, s.isn, Offset(ackno, s.isn));
  }

  lemma {:induction false} TickUnstamped(s: Sender, ms: nat)
    requires Unstamped(s) && (Expires(s, ms) ==> s.queue != [])
    ensures Unstamped(Sending.Tick(s, ms))
  {
  }

  /** Stamping puts the receiver's current acknowledgment on each segment and changes nothing else of it. */
  lemma {:induction false} StampAllOk(f: Flow, g: Flow, b: nat, r: Receiver, segs: seq<TcpSegment>)
    requires Agrees(g, b, r) && g.Next() < 0x1_0000_0000
    requires AllCarried(f, segs) && Plain(segs)
    ensures AllOk(f, r, g.isn, StampAll(r, segs))
    decreases segs
  {
    if segs != [] {
      var seg := segs[0];
      assert Carries(f, seg);
      if r.isn.Some? {
        AcknoIssued(g, b, r);
      }
      assert SegOk(f, r, g.isn, Stamp(r, seg));
      StampAllOk(f, g, b, r, segs[1..]);
    }
  }

  // ---------------------------------------------------------------- one endpoint facing its peer

  /** Endpoint `c` facing a peer with flow `g`, acknowledgment `b` and receiver `peer`. */
  ghost predicate Side(c: Conn, g: Flow, b: nat, peer: Receiver) {
    && SenderInv(c.snd) && Unstamped(c.snd)
    && Agrees(g, b, c.rcv) && g.Next() < 0x1_0000_0000
    && (c.peerIsn.Some? ==> c.peerIsn == Some(g.isn))
    && AllOk(FlowOf(c.snd), c.rcv, g.isn, c.out)
    && Agrees(FlowOf(c.snd), c.snd.AckAbs(), peer)
  }

  /** What a step of an endpoint may do to what its peer sees. */
  ghost predicate Moves(c: Conn, c': Conn)
    requires c.snd.stream.Valid() && c'.snd.stream.Valid()
  {
    FlowLe(FlowOf(c.snd), FlowOf(c'.snd)) && ReceiverLe(c.rcv, c'.rcv)
  }

  lemma {:induction false} SenderMoves(c: Conn, snd: Sender, g: Flow, b: nat, peer: Receiver)
    requires Side(c, g, b, peer) && SenderInv(snd) && Unstamped(snd)
    requires FlowLe(FlowOf(c.snd), FlowOf(snd)) && Agrees(FlowOf(snd), snd.AckAbs(), peer)
    ensures Side(c.(snd := snd), g, b, peer) && Moves(c, c.(snd := snd))
  {
    AllOkGrows(FlowOf(c.snd), FlowOf(snd), c.rcv, c.rcv, g.isn, c.out);
  }

  lemma {:induction false} ReceiverMoves(c: Conn, rcv: Receiver, g: Flow, b: nat, peer: Receiver)
    requires Side(c, g, b, peer) && Agrees(g, b, rcv) && ReceiverLe(c.rcv, rcv)
    ensures Side(c.(rcv := rcv), g, b, peer) && Moves(c, c.(rcv := rcv))
  {
    AllOkGrows(FlowOf(c.snd), FlowOf(c.snd), c.rcv, rcv, g.isn, c.out);
  }

  lemma {:induction false} SendSegmentsSide(c: Conn, g: Flow, b: nat, peer: Receiver)
    requires Side(c, g, b, peer)
    ensures Side(SendSegments(c), g, b, peer) && Moves(c, SendSegments(c))
  {
    StampAllOk(FlowOf(c.snd), g, b, c.rcv, c.snd.out);
    DrainInv(c.snd);
  }

  /** Filling the window. */
  lemma {:induction false} FillSide(c: Conn, g: Flow, b: nat, peer: Receiver)
    requires Side(c, g, b, peer)
    ensures Side(c.(snd := FillWindow(c.snd)), g, b, peer) && Moves(c, c.(snd := FillWindow(c.snd)))
  {
    FillWindowInv(c.snd);
    FillUnstamped(c.snd);
    AgreesGrows(FlowOf(c.snd), FlowOf(FillWindow(c.snd)), c.snd.AckAbs(), peer);
    SenderMoves(c, FillWindow(c.snd), g, b, peer);
  }

  lemma {:induction false} ConnectSide(c: Conn, g: Flow, b: nat, peer: Receiver)
    requires Side(c, g, b, peer)
    ensures Side(Connect(c), g, b, peer) && Moves(c, Connect(c))
  {
    FillSide(c, g, b, peer);
    SendSegmentsSide(c.(snd := FillWindow(c.snd)), g, b, peer);
  }

  lemma {:induction false} MovesTrans(c: Conn, c1: Conn, c2: Conn)
    requires c.snd.stream.Valid() && c1.snd.stream.Valid() && c2.snd.stream.Valid()
    requires Moves(c, c1) && Moves(c1, c2)
    ensures Moves(c, c2)
  {
  }

  lemma {:induction false} WriteSide(c: Conn, data: Bytes, g: Flow, b: nat, peer: Receiver)
    requires Side(c, g, b, peer) && |Connections.Write(c, data).snd.stream.written| <= LIMIT
    ensures Side(Connections.Write(c, data), g, b, peer) && Moves(c, Connections.Write(c, data))
  {
    var snd := c.snd.(stream := c.snd.stream.Write(data));
    FillReads(snd);
    WriteInv(c.snd, data);
    SenderMoves(c, snd, g, b, peer);
    ConnectSide(c.(snd := snd), g, b, peer);
    MovesTrans(c, c.(snd := snd), Connect(c.(snd := snd)));
  }

  lemma {:induction false} EndSide(c: Conn, g: Flow, b: nat, peer: Receiver)
    requires Side(c, g, b, peer)
    ensures Side(EndInputStream(c), g, b, peer) && Moves(c, EndInputStream(c))
  {
    var snd := c.snd.(stream := c.snd.stream.EndInput());
    EndInputInv(c.snd);
    SenderMoves(c, snd, g, b, peer);
    ConnectSide(c.(snd := snd), g, b, peer);
    MovesTrans(c, c.(snd := snd), Connect(c.(snd := snd)));
  }

  lemma {:induction false} SetErrorAgrees(f: Flow, ack: nat, r: Receiver)
    requires Agrees(f, ack, r)
    ensures var r' := r.(reasm := r.reasm.(out := r.reasm.out.SetError())); Agrees(f, ack, r') && ReceiverLe(r, r')
  {
  }

  lemma {:induction false} SetErrorsSide(c: Conn, g: Flow, b: nat, peer: Receiver)
    requires Side(c, g, b, peer)
    ensures Side(SetErrors(c), g, b, peer) && Moves(c, SetErrors(c))
  {
    var rcv := c.rcv.(reasm := c.rcv.reasm.(out := c.rcv.reasm.out.SetError()));
    var snd := c.snd.(stream := c.snd.stream.SetError());
    SetErrorAgrees(g, b, c.rcv);
    ReceiverMoves(c, rcv, g, b, peer);
    SetErrorInv(c.snd);
    SenderMoves(c.(rcv := rcv), snd, g, b, peer);
    MovesTrans(c, c.(rcv := rcv), c.(rcv := rcv, snd := snd));
  }

  lemma {:induction false} RstSide(c: Conn, g: Flow, b: nat, peer: Receiver)
    requires Side(c, g, b, peer) && c.snd.out != []
    ensures var rst := c.snd.out[0].(header := c.snd.out[0].header.(rst := true));
            Side(c.(out := [rst]), g, b, peer)
  {
    assert Carries(FlowOf(c.snd), c.snd.out[0]) && !c.snd.out[0].header.ack;
  }

  lemma {:induction false} SendRstSide(c: Conn, g: Flow, b: nat, peer: Receiver)
    requires Side(c, g, b, peer)
    ensures Side(SendRst(c), g, b, peer) && Moves(c, SendRst(c))
  {
    var c0 := c.(snd := SendEmpty(c.snd));
    EmptySide(c, g, b, peer);
    RstSide(c0, g, b, peer);
    var c1 := c0.(out := [c0.snd.out[0].(header := c0.snd.out[0].header.(rst := true))]);
    SetErrorsSide(c1, g, b, peer);
    MovesTrans(c, c1, SetErrors(c1));
  }

  // ---------------------------------------------------------------- a segment arrives

  /** The clock, the flags and the peer's known number do not concern the streams. */
  lemma {:induction false} SideFields(c: Conn, c': Conn, g: Flow, b: nat, peer: Receiver)
    requires Side(c, g, b, peer) && c'.snd == c.snd && c'.rcv == c.rcv && c'.out == c.out
    requires c'.peerIsn.Some? ==> c'.peerIsn == Some(g.isn)
    ensures Side(c', g, b, peer) && Moves(c, c')
  {
  }

  lemma {:induction false} NoteRstSide(c: Conn, seg: TcpSegment, g: Flow, b: nat, peer: Receiver)
    requires Side(c, g, b, peer)
    ensures Side(NoteRst(c, seg), g, b, peer) && Moves(c, NoteRst(c, seg))
    ensures NoteRst(c, seg).rcv.reasm.store == c.rcv.reasm.store && NoteRst(c, seg).peerIsn == c.peerIsn
    ensures NoteRst(c, seg).snd.isn == c.snd.isn
  {
    SetErrorsSide(c, g, b, peer);
  }

  lemma {:induction false} NoteFlagsSide(c: Conn, seg: TcpSegment, g: Flow, b: nat, peer: Receiver)
    requires Side(c, g, b, peer) && Carries(g, seg)
    ensures Side(NoteFlags(c, seg), g, b, peer) && Moves(c, NoteFlags(c, seg))
    ensures NoteFlags(c, seg).rcv.reasm.store == c.rcv.reasm.store && NoteFlags(c, seg).snd.isn == c.snd.isn
  {
    var c0 := c.(received := c.now);
    SideFields(c, c0, g, b, peer);
    NoteRstSide(c0, seg, g, b, peer);
    var c1 := NoteRst(c0, seg);
    assert seg.header.syn ==> seg.header.seqno == g.isn;
    SideFields(c1, NoteSynFin(c1, seg), g, b, peer);
    MovesTrans(c, c0, c1);
    MovesTrans(c, c1, NoteSynFin(c1, seg));
  }

  lemma {:induction false} TakePayloadSide(c: Conn, seg: TcpSegment, o: Oracle, g: Flow, b: nat, peer: Receiver)
    requires Side(c, g, b, peer) && Carries(g, seg) && Fits(o, c.rcv.reasm.store)
    ensures Side(TakePayload(c, seg, o), g, b, peer) && Moves(c, TakePayload(c, seg, o))
  {
    ReceiveAgrees(g, b, c.rcv, seg, o);
    ReceiverMoves(c, Receive(c.rcv, seg, o), g, b, peer);
  }

  lemma {:induction false} TakeAckSide(c: Conn, seg: TcpSegment, g: Flow, b: nat, peer: Receiver)
    requires Side(c, g, b, peer) && (seg.header.ack ==> Issued(peer, c.snd.isn, seg.header.ackno))
    ensures Side(TakeAck(c, seg), g, b, peer) && Moves(c, TakeAck(c, seg))
  {
    if seg.header.ack {
      var snd := AckReceived(c.snd, seg.header.ackno, seg.header.win);
      AckReceivedInv(c.snd, seg.header.ackno, seg.header.win);
      AckUnstamped(c.snd, seg.header.ackno, seg.header.win);
      SenderMoves(c, snd, g, b, peer);
    }
  }

  lemma {:induction false} EmptySide(c: Conn, g: Flow, b: nat, peer: Receiver)
    requires Side(c, g, b, peer)
    ensures Side(c.(snd := SendEmpty(c.snd)), g, b, peer) && Moves(c, c.(snd := SendEmpty(c.snd)))
  {
    SendEmptyInv(c.snd);
    SenderMoves(c, SendEmpty(c.snd), g, b, peer);
  }

  lemma {:induction false} ReplySide(c: Conn, seg: TcpSegment, g: Flow, b: nat, peer: Receiver)
    requires Side(c, g, b, peer)
    ensures Side(c.(snd := Reply(c.snd, seg)), g, b, peer) && Moves(c, c.(snd := Reply(c.snd, seg)))
  {
    if seg.Length() > 0 {
      FillSide(c, g, b, peer);
      EmptySide(c.(snd := FillWindow(c.snd)), g, b, peer);
    }
  }

  lemma {:induction false} AnswerSide(c: Conn, seg: TcpSegment, g: Flow, b: nat, peer: Receiver)
    requires Side(c, g, b, peer)
    ensures Side(Answer(c, seg), g, b, peer) && Moves(c, Answer(c, seg))
  {
    var c1 := c.(snd := Reply(c.snd, seg));
    ReplySide(c, seg, g, b, peer);
    EmptySide(c1, g, b, peer);
    var c2 := if IsKeepAlive(c.rcv, seg) then c1.(snd := SendEmpty(c1.snd)) else c1;
    SendSegmentsSide(c2, g, b, peer);
    assert Answer(c, seg) == SendSegments(c2);
    MovesTrans(c, c1, c2);
    MovesTrans(c, c2, SendSegments(c2));
  }

  lemma {:induction false} ArriveSide(c: Conn, seg: TcpSegment, o: Oracle, g: Flow, b: nat, peer: Receiver)
    requires Side(c, g, b, peer) && SegOk(g, peer, c.snd.isn, seg) && Fits(o, c.rcv.reasm.store)
    ensures Side(SegmentReceived(c, seg, o), g, b, peer) && Moves(c, SegmentReceived(c, seg, o))
  {
    var c0 := NoteFlags(c, seg);
    NoteFlagsSide(c, seg, g, b, peer);
    var c1 := TakePayload(c0, seg, o);
    TakePayloadSide(c0, seg, o, g, b, peer);
    MovesTrans(c, c0, c1);
    var c2 := TakeAck(c1, seg);
    TakeAckSide(c1, seg, g, b, peer);
    MovesTrans(c, c1, c2);
    AnswerSide(c2, seg, g, b, peer);
    MovesTrans(c, c2, Answer(c2, seg));
  }

  // ---------------------------------------------------------------- time passes

  lemma {:induction false} TickTimerSide(c: Conn, ms: nat, g: Flow, b: nat, peer: Receiver)
    requires Side(c, g, b, peer)
    ensures Expires(c.snd, ms) ==> c.snd.queue != []
    ensures Side(TickTimer(c, ms), g, b, peer) && Moves(c, TickTimer(c, ms))
  {
    TickInv(c.snd, ms);
    TickUnstamped(c.snd, ms);
    SenderMoves(c, Sending.Tick(c.snd, ms), g, b, peer);
    SendSegmentsSide(c.(snd := Sending.Tick(c.snd, ms)), g, b, peer);
  }

  lemma {:induction false} TickFillSide(c: Conn, ms: nat, g: Flow, b: nat, peer: Receiver)
    requires Side(c, g, b, peer)
    ensures Side(TickFill(c, ms), g, b, peer) && Moves(c, TickFill(c, ms))
  {
    var c0 := c.(now := c.now + ms);
    SideFields(c, c0, g, b, peer);
    if HasOutput(c.snd.stream) {
      ConnectSide(c0, g, b, peer);
      MovesTrans(c, c0, Connect(c0));
    }
  }

  lemma {:induction false} AbortSide(c: Conn, g: Flow, b: nat, peer: Receiver)
    requires Side(c, g, b, peer)
    ensures Side(Abort(c), g, b, peer) && Moves(c, Abort(c))
  {
    SendRstSide(c, g, b, peer);
  }

  lemma {:induction false} TickSide(c: Conn, ms: nat, g: Flow, b: nat, peer: Receiver)
    requires Side(c, g, b, peer)
    ensures TickDefined(c, ms)
    ensures Side(Connections.Tick(c, ms), g, b, peer) && Moves(c, Connections.Tick(c, ms))
  {
    var c1 := TickFill(c, ms);
    TickFillSide(c, ms, g, b, peer);
    TickTimerSide(c1, ms, g, b, peer);
    var c2 := TickTimer(c1, ms);
    AbortSide(c2, g, b, peer);
    var c3 := Abort(c2);
    SettleSide(c3, g, b, peer);
    MovesTrans(c, c1, c2);
    MovesTrans(c, c2, c3);
    assert Connections.Tick(c, ms) == Settle(c3);
  }

  lemma {:induction false} SettleSide(c: Conn, g: Flow, b: nat, peer: Receiver)
    requires Side(c, g, b, peer)
    ensures Side(Settle(c), g, b, peer) && Settle(c).snd == c.snd && Settle(c).rcv == c.rcv
  {
  }

  lemma {:induction false} ReadSide(c: Conn, n: nat, g: Flow, b: nat, peer: Receiver)
    requires Side(c, g, b, peer)
    ensures Side(ReadInbound(c, n), g, b, peer) && Moves(c, ReadInbound(c, n))
  {
    ReadAgrees(g, b, c.rcv, n);
    ReceiverMoves(c, ReadInbound(c, n).rcv, g, b, peer);
  }

  /** Any step of an endpoint, taking only segments its peer sent, keeps its side of the agreement. */
  lemma {:induction false} StepSide(c: Conn, e: ConnEvent, c': Conn, g: Flow, b: nat, peer: Receiver)
    requires Side(c, g, b, peer) && ConnNext(c, e, c') && |c'.snd.stream.written| <= LIMIT
    requires e.Arrive? ==> SegOk(g, peer, c.snd.isn, e.seg)
    ensures Side(c', g, b, peer) && Moves(c, c')
  {
    match e
    case Open => ConnectSide(c, g, b, peer);
    case WriteOut(data) => WriteSide(c, data, g, b, peer);
    case CloseOut => EndSide(c, g, b, peer);
    case Arrive(seg, o) => ArriveSide(c, seg, o, g, b, peer);
    case ReadIn(n) => ReadSide(c, n, g, b, peer);
    case Elapse(ms) => TickSide(c, ms, g, b, peer);
    case Drop => SendRstSide(c, g, b, peer);
    case Take =>
  }

  // ---------------------------------------------------------------- the two endpoints and the network

  /** `ab` and `ba` hold every segment ever put on the wire; each may be delivered any number of times, or never. */
  datatype Sys = Sys(a: Conn, b: Conn, ab: set<TcpSegment>, ba: set<TcpSegment>) {

    function Flip(): Sys {
      Sys(b, a, ba, ab)
    }
  }

  datatype SysEvent = AtA(e: ConnEvent) | AtB(e: ConnEvent)

  /** A step of endpoint `a`: what arrives was sent by `b`, what is taken from its queue goes on the wire. */
  ghost predicate StepA(s: Sys, e: ConnEvent, s': Sys) {
    && s.a.Valid() && ConnNext(s.a, e, s'.a)
    && (e.Arrive? ==> e.seg in s.ba)
    && s' == s.(a := s'.a, ab := if e.Take? then s.ab + set i | 0 <= i < |s.a.out| :: s.a.out[i] else s.ab)
  }

  ghost predicate SysNext(s: Sys, e: SysEvent, s': Sys) {
    match e
    case AtA(e) => StepA(s, e, s')
    case AtB(e) => StepA(s.Flip(), e, s'.Flip())
  }

  ghost predicate WithinLimit(s: Sys) {
    |s.a.snd.stream.written| <= LIMIT && |s.b.snd.stream.written| <= LIMIT
  }

  /** Steps of the two endpoints within the sequence space. */
  ghost predicate IsSysPath(states: seq<Sys>, events: seq<SysEvent>) {
    && |states| == |events| + 1
    && (forall i :: 0 <= i < |states| ==> WithinLimit(states[i]))
    && (forall i :: 0 <= i < |events| ==> SysNext(states[i], events[i], states[i + 1]))
  }

  ghost predicate IsSysRun(states: seq<Sys>, events: seq<SysEvent>) {
    && IsSysPath(states, events)
    && IsNewConn(states[0].a) && IsNewConn(states[0].b) && states[0].ab == {} && states[0].ba == {}
  }

  function FlipEvent(e: SysEvent): SysEvent {
    match e
    case AtA(e) => AtB(e)
    case AtB(e) => AtA(e)
  }

  function Flipped(states: seq<Sys>): seq<Sys> {
    seq(|states|, i requires 0 <= i < |states| => states[i].Flip())
  }

  function FlippedEvents(events: seq<SysEvent>): seq<SysEvent> {
    seq(|events|, i requires 0 <= i < |events| => FlipEvent(events[i]))
  }

  lemma {:induction false} PathFlips(states: seq<Sys>, events: seq<SysEvent>)
    requires IsSysPath(states, events)
    ensures IsSysPath(Flipped(states), FlippedEvents(events))
  {
    forall i | 0 <= i < |events|
      ensures SysNext(Flipped(states)[i], FlippedEvents(events)[i], Flipped(states)[i + 1])
    {
      assert SysNext(states[i], events[i], states[i + 1]);
    }
  }

  /** The two endpoints play the same part, so whatever is said of `a` in every run holds of `b`. */
  lemma {:induction false} RunFlips(states: seq<Sys>, events: seq<SysEvent>)
    requires IsSysRun(states, events)
    ensures IsSysRun(Flipped(states), FlippedEvents(events))
    ensures Flipped(Flipped(states)) == states && FlippedEvents(FlippedEvents(events)) == events
  {
    PathFlips(states, events);
  }

  ghost predicate NetOk(f: Flow, r: Receiver, peer: U32, net: set<TcpSegment>) {
    forall seg :: seg in net ==> SegOk(f, r, peer, seg)
  }

  ghost predicate SysInv(s: Sys) {
    && s.a.Valid() && s.b.Valid()
    && Side(s.a, FlowOf(s.b.snd), s.b.snd.AckAbs(), s.b.rcv)
    && Side(s.b, FlowOf(s.a.snd), s.a.snd.AckAbs(), s.a.rcv)
    && NetOk(FlowOf(s.a.snd), s.a.rcv, s.b.snd.isn, s.ab)
    && NetOk(FlowOf(s.b.snd), s.b.rcv, s.a.snd.isn, s.ba)
  }

  lemma {:induction false} NewSideInv(c: Conn, d: Conn)
    requires IsNewConn(c) && IsNewConn(d)
    ensures Side(c, FlowOf(d.snd), d.snd.AckAbs(), d.rcv)
  {
    var rcap: nat, scap: nat, rt: U16, isn: U32 :| c == NewConn(rcap, scap, rt, isn);
    var rcap': nat, scap': nat, rt': U16, isn': U32 :| d == NewConn(rcap', scap', rt', isn');
    NewSenderInv(scap, rt, isn);
    AgreesNew(FlowOf(d.snd), rcap);
    AgreesNew(FlowOf(c.snd), rcap');
  }

  /** The other endpoint sees the same agreement from its side. */
  lemma {:induction false} OtherSide(b: Conn, a: Conn, a': Conn)
    requires a.Valid() && b.Valid() && a'.Valid()
    requires Side(b, FlowOf(a.snd), a.snd.AckAbs(), a.rcv) && Side(a', FlowOf(b.snd), b.snd.AckAbs(), b.rcv)
    requires a'.snd.isn == a.snd.isn
    ensures Side(b, FlowOf(a'.snd), a'.snd.AckAbs(), a'.rcv)
  {
    InFlightExact(a'.snd);
  }

  lemma {:induction false} NetOkGrows(f: Flow, f': Flow, r: Receiver, r': Receiver, peer: U32, net: set<TcpSegment>)
    requires NetOk(f, r, peer, net) && FlowLe(f, f') && ReceiverLe(r, r')
    ensures NetOk(f', r', peer, net)
  {
    forall seg | seg in net
      ensures SegOk(f', r', peer, seg)
    {
      SegOkGrows(f, f', r, r', peer, seg);
    }
  }

  /** What endpoint `a` has put on the wire stays true of it. */
  lemma {:induction false} StepANet(s: Sys, e: ConnEvent, s': Sys)
    requires SysInv(s) && StepA(s, e, s') && s'.a.Valid() && Moves(s.a, s'.a)
    ensures NetOk(FlowOf(s'.a.snd), s'.a.rcv, s.b.snd.isn, s'.ab)
  {
    var f, f' := FlowOf(s.a.snd), FlowOf(s'.a.snd);
    NetOkGrows(f, f', s.a.rcv, s'.a.rcv, s.b.snd.isn, s.ab);
    if e.Take? {
      assert AllOk(f, s.a.rcv, s.b.snd.isn, s.a.out);
    }
  }

  lemma {:induction false} StepAInv(s: Sys, e: ConnEvent, s': Sys)
    requires SysInv(s) && StepA(s, e, s') && WithinLimit(s')
    ensures SysInv(s')
  {
    StepSide(s.a, e, s'.a, FlowOf(s.b.snd), s.b.snd.AckAbs(), s.b.rcv);
    OtherSide(s.b, s.a, s'.a);
    StepANet(s, e, s');
  }

  lemma {:induction false} SysRunInv(states: seq<Sys>, events: seq<SysEvent>, n: nat)
    requires IsSysRun(states, events) && n < |states|
    ensures SysInv(states[n])
  {
    if n == 0 {
      NewSideInv(states[0].a, states[0].b);
      NewSideInv(states[0].b, states[0].a);
    } else {
      SysRunInv(states, events, n - 1);
      var s, s' := states[n - 1], states[n];
      assert SysNext(s, events[n - 1], s');
      match events[n - 1]
      case AtA(e) => StepAInv(s, e, s');
      case AtB(e) => StepAInv(s.Flip(), e, s'.Flip());
    }
  }

  /** In every run, each inbound stream is a prefix of the peer's outbound stream, and all of it once ended. */
  lemma {:induction false} TwoPartySafety(states: seq<Sys>, events: seq<SysEvent>, n: nat)
    requires IsSysRun(states, events) && n < |states|
    ensures var s := states[n];
            && s.a.rcv.reasm.out.written <= s.b.snd.stream.written
            && s.b.rcv.reasm.out.written <= s.a.snd.stream.written
            && (s.a.rcv.reasm.out.ended ==> s.b.snd.stream.ended && s.a.rcv.reasm.out.written == s.b.snd.stream.written)
            && (s.b.rcv.reasm.out.ended ==> s.a.snd.stream.ended && s.b.rcv.reasm.out.written == s.a.snd.stream.written)
  {
    SysRunInv(states, events, n);
    var s := states[n];
    AgreesMeans(FlowOf(s.b.snd), s.b.snd.AckAbs(), s.a.rcv);
    AgreesMeans(FlowOf(s.a.snd), s.a.snd.AckAbs(), s.b.rcv);
  }

  /** Both streams were delivered from end to end. */
  ghost predicate BothDelivered(s: Sys) {
    && s.a.rcv.reasm.out.ended && s.a.rcv.reasm.out.written == s.b.snd.stream.written && s.b.snd.stream.ended
    && s.b.rcv.reasm.out.ended && s.b.rcv.reasm.out.written == s.a.snd.stream.written && s.a.snd.stream.ended
  }

  lemma {:induction false} DoneMeansDelivered(s: Sys)
    requires SysInv(s) && OutboundDone(s.a.snd) && InboundDone(s.a.rcv)
    ensures BothDelivered(s)
  {
    AgreesMeans(FlowOf(s.b.snd), s.b.snd.AckAbs(), s.a.rcv);
    AgreesMeans(FlowOf(s.a.snd), s.a.snd.AckAbs(), s.b.rcv);
  }

  lemma {:induction false} CleanCloseAtA(s: Sys, ms: nat, s': Sys)
    requires SysInv(s) && SysInv(s') && StepA(s, ConnEvent.Elapse(ms), s')
    requires s'.a.closed && s'.a.snd.consecutive <= MAX_RETX_ATTEMPTS
    ensures BothDelivered(s')
  {
    CleanClose(s.a, ms);
    DoneMeansDelivered(s');
  }

  /** When a tick closes an endpoint without giving up, both streams have been delivered in full, at both ends. */
  lemma {:induction false} CleanCloseMeansDelivered(states: seq<Sys>, events: seq<SysEvent>, n: nat)
    requires IsSysRun(states, events) && n < |events| && events[n].e.Elapse?
    requires var c := if events[n].AtA? then states[n + 1].a else states[n + 1].b;
             c.closed && c.snd.consecutive <= MAX_RETX_ATTEMPTS
    ensures BothDelivered(states[n + 1])
  {
    SysRunInv(states, events, n);
    SysRunInv(states, events, n + 1);
    assert SysNext(states[n], events[n], states[n + 1]);
    match events[n]
    case AtA(e) => CleanCloseAtA(states[n], e.ms, states[n + 1]);
    case AtB(e) => CleanCloseAtA(states[n].Flip(), e.ms, states[n + 1].Flip());
  }
}
