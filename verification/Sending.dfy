/** The sending half of an endpoint (libsponge/tcp_sender.cc) as functions on its state. */
module Sending {
  import opened Prelude
  import opened WrappingIntegers
  import opened ByteStreams
  import opened TcpSegments

  const MAX_PAYLOAD: nat := 1000

  datatype Phase = Init | SynSent | FinSent

  datatype Timer = Timer(running: bool, left: nat)

  datatype Sender = Sender(isn: U32, initialRto: U16, stream: Stream, next: nat, lastRetrans: Option<U32>,
                           queue: seq<TcpSegment>, consecutive: nat, rto: U32, window: U16, ack: U32, probe: bool,
                           phase: Phase, timer: Timer, out: seq<TcpSegment>)
  {
    function AckAbs(): U64 {
      Offset(ack, isn)
    }

    /** Unsigned 64-bit difference. */
    function InFlight(): U64 {
      (next - AckAbs()) % 0x1_0000_0000_0000_0000
    }

    /** The loop guard of `fill_window`: an unsigned difference that wraps where more is in flight than fits. */
    function Gap(): U64 {
      (window - InFlight()) % 0x1_0000_0000_0000_0000
    }
  }

  function NewSender(capacity: nat, retxTimeout: U16, isn: U32): Sender {
    Sender(isn, retxTimeout, EmptyStream(capacity), 0, Some(0), [], 0, retxTimeout, 1, isn, false, Init,
           Timer(false, 0), [])
  }

  function BareSegment(s: Sender): TcpSegment {
    TcpSegment(DEFAULT_HEADER.(seqno := Wrap(s.next, s.isn)), [])
  }

  predicate StartsStream(s: Sender) {
    s.stream.read == 0 && s.phase == Init
  }

  function PayloadRoom(s: Sender): nat
    requires s.Gap() > 0
  {
    Min(s.Gap() - (if StartsStream(s) then 1 else 0), MAX_PAYLOAD)
  }

  /** The segment one round of `fill_window` builds. */
  function NextSegment(s: Sender): TcpSegment
    requires s.stream.Valid() && s.Gap() > 0
  {
    var syn := StartsStream(s);
    var payload := s.stream.Peek(PayloadRoom(s));
    var seg := TcpSegment(DEFAULT_HEADER.(seqno := Wrap(s.next, s.isn), syn := syn), payload);
    if s.stream.Read(PayloadRoom(s)).Eof() && (syn || s.phase == SynSent) && seg.Length() + 1 <= s.Gap() then
      seg.(header := seg.header.(fin := true))
    else seg
  }

  /** One round of `fill_window` that does send. */
  function FillOne(s: Sender): (s': Sender)
    requires s.stream.Valid() && s.Gap() > 0
    ensures s'.stream.Valid()
  {
    var seg := NextSegment(s);
    s.(stream := s.stream.Read(PayloadRoom(s)),
       phase := if seg.header.fin then FinSent else if seg.header.syn then SynSent else s.phase,
       next := s.next + seg.Length(),
       out := s.out + [seg],
       queue := s.queue + [seg],
       timer := if s.timer.running then s.timer else Timer(true, s.rto))
  }

  predicate CanSend(s: Sender)
    requires s.stream.Valid()
  {
    s.Gap() > 0 && s.phase != FinSent && NextSegment(s).Length() > 0
  }

  /** Bytes, SYN and FIN not sent yet: falls with every round. */
  function Unsent(s: Sender): nat
    requires s.stream.Valid()
  {
    s.stream.Buffered() + (if s.phase == Init then 1 else 0) + (if s.phase == FinSent then 0 else 1)
  }

  function FillWindow(s: Sender): (s': Sender)
    requires s.stream.Valid()
    ensures s'.stream.Valid()
    decreases Unsent(s)
  {
    if CanSend(s) then FillWindow(FillOne(s)) else s
  }

  /** Drops the segments that `abs` fully acknowledges from the front of the queue. */
  function DropAcked(queue: seq<TcpSegment>, isn: U32, abs: nat): seq<TcpSegment> {
    if queue == [] || Offset(queue[0].header.seqno, isn) + queue[0].Length() > abs then queue
    else DropAcked(queue[1..], isn, abs)
  }

  /** A window of zero is treated as one and puts the sender in the probe state. */
  function NoteWindow(s: Sender, window: U16): Sender {
    if window == 0 then s.(window := 1, probe := true) else s.(window := window, probe := false)
  }

  predicate NewAck(s: Sender, ackno: U32) {
    s.AckAbs() < Offset(ackno, s.isn) <= s.next
  }

  function AckReceived(s: Sender, ackno: U32, window: U16): Sender {
    var s1 := NoteWindow(s, window);
    if !NewAck(s, ackno) then s1
    else
      var queue := DropAcked(s.queue, s.isn, Offset(ackno, s.isn));
      s1.(ack := ackno, rto := s.initialRto, queue := queue, consecutive := 0,
          timer := if queue != [] then Timer(true, s.initialRto) else Timer(false, s.timer.left))
  }

  /** `front()` of an empty queue is undefined in the source. */
  function Retransmit(s: Sender): Sender
    requires s.queue != []
  {
    var seg := s.queue[0];
    var s1 :=
      if s.window == 0 then s
      else if s.lastRetrans == Some(seg.header.seqno) then s.(consecutive := s.consecutive + 1)
      else s.(consecutive := 1, lastRetrans := Some(seg.header.seqno));
    var rto := if s.window != 0 && !s.probe then s.rto * 2 % 0x1_0000_0000 else s.rto;
    s1.(out := s.out + [seg], rto := rto, timer := Timer(true, rto))
  }

  predicate Expires(s: Sender, ms: nat) {
    s.timer.running && s.timer.left <= ms
  }

  function Tick(s: Sender, ms: nat): Sender
    requires Expires(s, ms) ==> s.queue != []
  {
    if Expires(s, ms) then Retransmit(s)
    else if s.timer.running then s.(timer := Timer(true, s.timer.left - ms))
    else s
  }

  function SendEmpty(s: Sender): Sender {
    s.(out := s.out + [BareSegment(s)])
  }
}
