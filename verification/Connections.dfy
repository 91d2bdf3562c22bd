/** A TCP endpoint (libsponge/tcp_connection.cc) as functions on its state. */
module Connections {
  import opened Prelude
  import opened WrappingIntegers
  import opened ByteStreams
  import opened Reassembly
  import opened TcpSegments
  import opened TcpReceivers
  import opened Sending

  const MAX_RETX_ATTEMPTS: nat := 8

  datatype Conn = Conn(rtTimeout: U16, snd: Sender, rcv: Receiver, out: seq<TcpSegment>, linger: bool, closed: bool,
                       now: nat, received: nat, peerIsn: Option<U32>)
  {
    ghost predicate Valid() {
      snd.stream.Valid() && rcv.Valid()
    }
  }

  function NewConn(recvCapacity: nat, sendCapacity: nat, rtTimeout: U16, isn: U32): Conn {
    Conn(rtTimeout, NewSender(sendCapacity, rtTimeout, isn), NewReceiver(recvCapacity), [], true, false, 0, 0, None)
  }

  /** The sender states told apart by `TCPState::state_summary`. */
  datatype Summary = ErrorState | Closed | SynSentState | SynAcked | FinSentState | FinAcked

  function SenderSummary(s: Sender): Summary
    requires s.stream.Valid()
  {
    if s.stream.error then ErrorState
    else if s.next == 0 then Closed
    else if s.next == s.InFlight() then SynSentState
    else if !s.stream.Eof() then SynAcked
    else if s.next < |s.stream.written| + 2 then SynAcked
    else if s.InFlight() > 0 then FinSentState
    else FinAcked
  }

  predicate FinWasSent(s: Sender)
    requires s.stream.Valid()
  {
    SenderSummary(s) == FinSentState || SenderSummary(s) == FinAcked
  }

  /** Puts the receiver's acknowledgment and 16-bit window on an outgoing segment, once there is one. */
  function Stamp(r: Receiver, seg: TcpSegment): TcpSegment
    requires r.reasm.out.Valid()
  {
    if r.isn.None? then seg
    else seg.(header := seg.header.(ack := true, ackno := r.Ackno().value, win := r.WindowSize() % 0x1_0000))
  }

  function StampAll(r: Receiver, segs: seq<TcpSegment>): seq<TcpSegment>
    requires r.reasm.out.Valid()
  {
    if segs == [] then [] else [Stamp(r, segs[0])] + StampAll(r, segs[1..])
  }

  function SendSegments(c: Conn): Conn
    requires c.rcv.reasm.out.Valid()
  {
    c.(snd := c.snd.(out := []), out := c.out + StampAll(c.rcv, c.snd.out))
  }

  /** `check_segment_in_window`: anything goes before both sides know where the peer's stream starts. */
  predicate InWindow(c: Conn, seg: TcpSegment)
    requires c.rcv.reasm.out.Valid()
  {
    c.peerIsn.None? || c.rcv.isn.None? ||
    var segStart := Offset(seg.header.seqno, c.peerIsn.value);
    var segEnd := segStart + (if seg.Length() == 0 then 0 else seg.Length() - 1);
    var windowStart := Offset(c.rcv.Ackno().value, c.peerIsn.value);
    segEnd >= windowStart && segStart < windowStart + c.rcv.WindowSize()
  }

  function SetErrors(c: Conn): Conn {
    c.(rcv := c.rcv.(reasm := c.rcv.reasm.(out := c.rcv.reasm.out.SetError())),
       snd := c.snd.(stream := c.snd.stream.SetError()), closed := true)
  }

  /** Everything but one RST is dropped from the queue; the bare segment it was made from stays with the sender. */
  function SendRst(c: Conn): Conn {
    var snd := SendEmpty(c.snd);
    var rst := snd.out[0].(header := snd.out[0].header.(rst := true));
    SetErrors(c.(snd := snd, out := [rst]))
  }

  /** A reset puts both streams in error and kills the connection. */
  function NoteRst(c: Conn, seg: TcpSegment): Conn {
    if seg.header.rst then SetErrors(c) else c
  }

  /** The peer's first number, and who closes first. */
  function NoteSynFin(c: Conn, seg: TcpSegment): Conn
    requires c.snd.stream.Valid()
  {
    c.(peerIsn := if seg.header.syn then Some(seg.header.seqno) else c.peerIsn,
       linger := c.linger && (seg.header.fin ==> FinWasSent(c.snd)))
  }

  function NoteFlags(c: Conn, seg: TcpSegment): (c': Conn)
    requires c.snd.stream.Valid()
    ensures c'.snd.stream.Valid() && (c.Valid() ==> c'.Valid())
  {
    NoteSynFin(NoteRst(c.(received := c.now), seg), seg)
  }

  ghost function TakePayload(c: Conn, seg: TcpSegment, o: Oracle): (c': Conn)
    requires c.Valid()
    ensures c'.Valid()
  {
    if InWindow(c, seg) then c.(rcv := Receive(c.rcv, seg, o)) else c
  }

  function TakeAck(c: Conn, seg: TcpSegment): (c': Conn)
    requires c.snd.stream.Valid()
    ensures c'.snd.stream.Valid() && (c.Valid() ==> c'.Valid())
  {
    if seg.header.ack then c.(snd := AckReceived(c.snd, seg.header.ackno, seg.header.win)) else c
  }

  /** At least one segment answers anything that occupies sequence numbers. */
  function Reply(s: Sender, seg: TcpSegment): (s': Sender)
    requires s.stream.Valid()
    ensures s'.stream.Valid()
  {
    if seg.Length() == 0 then s
    else
      var s1 := FillWindow(s);
      if s1.out == [] then SendEmpty(s1) else s1
  }

  predicate IsKeepAlive(r: Receiver, seg: TcpSegment) {
    r.isn.Some? && seg.Length() == 0 && seg.header.seqno == (r.Ackno().value - 1) % 0x1_0000_0000
  }

  /** The answer to a segment, once its payload and acknowledgment are taken. */
  function Answer(c: Conn, seg: TcpSegment): (c': Conn)
    requires c.Valid()
    ensures c'.Valid()
  {
    var snd := Reply(c.snd, seg);
    SendSegments(c.(snd := if IsKeepAlive(c.rcv, seg) then SendEmpty(snd) else snd))
  }

  ghost function SegmentReceived(c: Conn, seg: TcpSegment, o: Oracle): (c': Conn)
    requires c.Valid()
    ensures c'.Valid()
  {
    Answer(TakeAck(TakePayload(NoteFlags(c, seg), seg, o), seg), seg)
  }

  function Write(c: Conn, data: Bytes): (c': Conn)
    requires c.Valid()
    ensures c'.Valid()
  {
    SendSegments(c.(snd := FillWindow(c.snd.(stream := c.snd.stream.Write(data)))))
  }

  function EndInputStream(c: Conn): (c': Conn)
    requires c.Valid()
    ensures c'.Valid()
  {
    SendSegments(c.(snd := FillWindow(c.snd.(stream := c.snd.stream.EndInput()))))
  }

  function Connect(c: Conn): (c': Conn)
    requires c.Valid()
    ensures c'.Valid()
  {
    SendSegments(c.(snd := FillWindow(c.snd)))
  }

  predicate HasOutput(s: Stream)
    requires s.Valid()
  {
    s.Buffered() > 0 || s.Eof()
  }

  /** The first thing a tick does: fill the window if there is anything to send or to end. */
  function TickFill(c: Conn, ms: nat): (c': Conn)
    requires c.Valid()
    ensures c'.Valid()
  {
    var c0 := c.(now := c.now + ms);
    if HasOutput(c.snd.stream) then Connect(c0) else c0
  }

  predicate TickDefined(c: Conn, ms: nat)
    requires c.Valid()
  {
    Expires(TickFill(c, ms).snd, ms) ==> TickFill(c, ms).snd.queue != []
  }

  /** Then the timer. */
  function TickTimer(c: Conn, ms: nat): (c': Conn)
    requires c.Valid() && (Expires(c.snd, ms) ==> c.snd.queue != [])
    ensures c'.Valid()
  {
    SendSegments(c.(snd := Sending.Tick(c.snd, ms)))
  }

  /** Then the abort after too many retransmissions. */
  function Abort(c: Conn): (c': Conn)
    requires c.Valid()
    ensures c'.Valid()
  {
    if c.snd.consecutive > MAX_RETX_ATTEMPTS then SendRst(c) else c
  }

  function TickSend(c: Conn, ms: nat): (c': Conn)
    requires c.Valid() && TickDefined(c, ms)
    ensures c'.Valid()
  {
    Abort(TickTimer(TickFill(c, ms), ms))
  }

  /** The three prerequisites for a clean end. */
  ghost predicate StreamsFinished(c: Conn)
    requires c.Valid()
  {
    Positions(c.rcv.reasm.store) == {} && c.rcv.reasm.out.Eof() && c.snd.stream.Eof() && c.snd.InFlight() == 0
  }

  predicate LingerOver(c: Conn) {
    c.now - c.received >= 10 * c.rtTimeout
  }

  /** Then the decision whether the connection is over. */
  ghost function Settle(c: Conn): (c': Conn)
    requires c.Valid()
    ensures c'.Valid()
  {
    if !StreamsFinished(c) then c
    else if LingerOver(c) then c.(linger := false, closed := true)
    else if c.linger then c
    else c.(closed := true)
  }

  ghost function Tick(c: Conn, ms: nat): (c': Conn)
    requires c.Valid() && TickDefined(c, ms)
    ensures c'.Valid()
  {
    Settle(TickSend(c, ms))
  }

  /** The application takes bytes out of the inbound stream. */
  function ReadInbound(c: Conn, n: nat): (c': Conn)
    requires c.Valid()
    ensures c'.Valid()
  {
    c.(rcv := c.rcv.(reasm := c.rcv.reasm.(out := c.rcv.reasm.out.Read(n))))
  }

  /** The destructor resets a connection that is still active. */
  function Destroy(c: Conn): (c': Conn)
    requires c.Valid()
    ensures c'.Valid()
  {
    if c.closed then c else SendRst(c)
  }
}
