/** The endpoint as the source runs it, against its specification in `Connections`. */
module TcpConnections {
  import opened Prelude
  import opened WrappingIntegers
  import opened Reassembly
  import opened TcpSegments
  import opened TcpReceivers
  import opened Sending
  import opened TcpSenders
  import opened Connections

  class TCPConnection {
    const rtTimeout: U16
    const receiver: TCPReceiver
    const sender: TCPSender
    var segmentsOut: seq<TcpSegment>
    var lingerAfterStreamsFinish: bool
    var close: bool
    var ticks: nat
    var receTick: nat
    var isnReceiver: Option<U32>

    ghost function SenderRepr(): set<object> {
      {sender, sender.stream, sender.stream.stream, sender.timer}
    }

    ghost function ReceiverRepr(): set<object> {
      {receiver, receiver.reassembler, receiver.reassembler.output, receiver.reassembler.output.stream}
    }

    ghost function View(): Conn
      reads this, SenderRepr(), ReceiverRepr()
    {
      Conn(rtTimeout, sender.View(), receiver.View(), segmentsOut, lingerAfterStreamsFinish, close, ticks, receTick,
           isnReceiver)
    }

    ghost predicate Valid()
      reads this, SenderRepr(), ReceiverRepr()
    {
      sender.Valid() && receiver.Valid() && SenderRepr() !! ReceiverRepr()
    }

    constructor (recvCapacity: nat, sendCapacity: nat, rtTimeout: U16, isn: U32)
      ensures Valid() && fresh(SenderRepr()) && fresh(ReceiverRepr())
      ensures View() == NewConn(recvCapacity, sendCapacity, rtTimeout, isn)
    {
      this.rtTimeout := rtTimeout;
      receiver := new TCPReceiver(recvCapacity);
      sender := new TCPSender(sendCapacity, rtTimeout, isn);
      segmentsOut := [];
      lingerAfterStreamsFinish := true;
      close := false;
      ticks := 0;
      receTick := 0;
      isnReceiver := None;
      new;
      assert sender.View() == NewSender(sendCapacity, rtTimeout, isn) && receiver.View() == NewReceiver(recvCapacity);
    }

    method StampSegment(seg: TcpSegment) returns (stamped: TcpSegment)
      requires Valid()
      ensures stamped == Stamp(receiver.View(), seg)
    {
      stamped := seg;
      var ackno := receiver.Ackno();
      if ackno.Some? {
        var win := receiver.WindowSize();
        stamped := seg.(header := seg.header.(ack := true, ackno := ackno.value, win := win % 0x1_0000));
      }
    }

    /** Drains the sender's queue, putting acknowledgment and window on each segment. */
    method SendSegment()
      requires Valid()
      modifies this`segmentsOut, sender
      ensures Valid() && View() == SendSegments(old(View()))
    {
      ghost var r := receiver.View();
      while sender.segmentsOut != []
        invariant Valid() && receiver.View() == r
        invariant sender.View() == old(sender.View()).(out := sender.segmentsOut)
        invariant segmentsOut + StampAll(r, sender.segmentsOut)
               == old(segmentsOut) + StampAll(r, old(sender.segmentsOut))
        decreases |sender.segmentsOut|
      {
        var seg := StampSegment(sender.segmentsOut[0]);
        SeqAssoc(segmentsOut, [seg], StampAll(r, sender.segmentsOut[1..]));
        sender.segmentsOut := sender.segmentsOut[1..];
        segmentsOut := segmentsOut + [seg];
      }
    }

    method CheckSegmentInWindow(seg: TcpSegment) returns (ok: bool)
      requires Valid()
      ensures ok == InWindow(View(), seg)
    {
      var ackno := receiver.Ackno();
      if isnReceiver.None? || ackno.None? {
        return true;
      }
      var segStart := Offset(seg.header.seqno, isnReceiver.value);
      var segEnd := segStart + (if seg.Length() == 0 then 0 else seg.Length() - 1);
      var windowStart := Offset(ackno.value, isnReceiver.value);
      var window := receiver.WindowSize();
      if segEnd < windowStart {
        return false;
      }
      if segStart >= windowStart + window {
        return false;
      }
      return true;
    }

    method SetStreamErrors()
      requires Valid()
      modifies this`close, sender.stream, receiver.reassembler.output
      ensures Valid() && View() == SetErrors(old(View()))
    {
      receiver.reassembler.output.SetError();
      sender.stream.SetError();
      close := true;
    }

    method SendRst()
      requires Valid()
      modifies this, sender, sender.stream, receiver.reassembler.output
      ensures Valid() && View() == Connections.SendRst(old(View()))
    {
      sender.SendEmptySegment();
      var seg := sender.segmentsOut[0];
      segmentsOut := [seg.(header := seg.header.(rst := true))];
      SetStreamErrors();
    }

    /** `TCPState::state_summary` says that our FIN is out. */
    method FinAlreadySent() returns (sent: bool)
      requires Valid()
      ensures sent == FinWasSent(sender.View())
    {
      if sender.stream.error || sender.nextSeqno == 0 {
        return false;
      }
      if sender.nextSeqno == sender.BytesInFlight() {
        return false;
      }
      if !(sender.stream.endFlag && sender.stream.size == 0) {
        return false;
      }
      return sender.nextSeqno >= sender.stream.bytesW + 2;
    }

    method TakeSynFin(seg: TcpSegment)
      requires Valid()
      modifies this`isnReceiver, this`lingerAfterStreamsFinish
      ensures Valid() && View() == NoteSynFin(old(View()), seg)
    {
      if seg.header.syn {
        isnReceiver := Some(seg.header.seqno);
      }
      if seg.header.fin {
        var sent := FinAlreadySent();
        if !sent {
          lingerAfterStreamsFinish := false;
        }
      }
    }

    method TakeFlags(seg: TcpSegment)
      requires Valid()
      modifies this, sender.stream, receiver.reassembler.output
      ensures Valid() && View() == NoteFlags(old(View()), seg)
    {
      receTick := ticks;
      if seg.header.rst {
        SetStreamErrors();
      }
      TakeSynFin(seg);
    }

    method ReplyTo(seg: TcpSegment)
      requires Valid()
      modifies SenderRepr()
      ensures Valid() && View() == old(View()).(snd := Reply(old(View()).snd, seg))
    {
      if seg.Length() > 0 {
        sender.FillWindow();
        if sender.segmentsOut == [] {
          sender.SendEmptySegment();
        }
      }
    }

    method IsKeepAliveFor(seg: TcpSegment) returns (yes: bool)
      requires Valid()
      ensures yes == IsKeepAlive(receiver.View(), seg)
    {
      var ackno := receiver.Ackno();
      if ackno.None? || seg.Length() != 0 {
        return false;
      }
      var last: int := ackno.value;
      return seg.header.seqno == (last - 1) % 0x1_0000_0000;
    }

    /** Makes sure that something answers a segment that occupies sequence numbers, and a keep-alive. */
    method SendAnswer(seg: TcpSegment)
      requires Valid()
      modifies this, SenderRepr()
      ensures Valid() && View() == Answer(old(View()), seg)
    {
      ReplyTo(seg);
      var keepAlive := IsKeepAliveFor(seg);
      if keepAlive {
        sender.SendEmptySegment();
      }
      SendSegment();
    }

    method ReceivePayload(seg: TcpSegment) returns (ghost o: Oracle)
      requires Valid()
      requires var isn := IsnAfter(receiver.View(), seg); isn.Some? ==> Placeable(seg, isn.value)
      modifies ReceiverRepr()
      ensures Valid() && Fits(o, old(receiver.reassembler.reassembler))
      ensures View() == TakePayload(old(View()), seg, o)
    {
      var inWindow := CheckSegmentInWindow(seg);
      if inWindow {
        o := receiver.SegmentReceived(seg);
      } else {
        var keys := receiver.reassembler.CollectKeys();
        o := Oracle(keys, if keys == [] then 0 else keys[0]);
      }
    }

    method ReceiveAck(seg: TcpSegment)
      requires Valid()
      modifies sender, sender.timer
      ensures Valid() && View() == TakeAck(old(View()), seg)
    {
      if seg.header.ack {
        sender.AckReceived(seg.header.ackno, seg.header.win);
      }
    }

    /** Returns, for the specification, what the reassembler's map did. */
    method SegmentReceived(seg: TcpSegment) returns (ghost o: Oracle)
      requires Valid()
      requires var isn := IsnAfter(receiver.View(), seg); isn.Some? ==> Placeable(seg, isn.value)
      modifies this, SenderRepr(), ReceiverRepr()
      ensures Valid() && Fits(o, old(receiver.reassembler.reassembler))
      ensures View() == Connections.SegmentReceived(old(View()), seg, o)
    {
      TakeFlags(seg);
      o := ReceivePayload(seg);
      ReceiveAck(seg);
      SendAnswer(seg);
    }

    method Connect()
      requires Valid()
      modifies this, SenderRepr()
      ensures Valid() && View() == Connections.Connect(old(View()))
    {
      sender.FillWindow();
      SendSegment();
    }

    method Write(data: Bytes) returns (n: nat)
      requires Valid()
      modifies this, SenderRepr()
      ensures Valid() && View() == Connections.Write(old(View()), data)
      ensures n == old(sender.stream.View()).Accepts(|data|)
    {
      n := sender.stream.Write(data);
      Connect();
    }

    method EndInputStream()
      requires Valid()
      modifies this, SenderRepr()
      ensures Valid() && View() == Connections.EndInputStream(old(View()))
    {
      sender.stream.EndInput();
      Connect();
    }

    method FillOnTick(ms: nat)
      requires Valid()
      modifies this, SenderRepr()
      ensures Valid() && View() == TickFill(old(View()), ms)
    {
      ticks := ticks + ms;
      if sender.stream.size != 0 || (sender.stream.endFlag && sender.stream.size == 0) {
        Connect();
      }
    }

    method RunTimer(ms: nat)
      requires Valid() && (Expires(sender.View(), ms) ==> sender.retransmissionQueue != [])
      modifies this, SenderRepr()
      ensures Valid() && View() == TickTimer(old(View()), ms)
    {
      sender.Tick(ms);
      SendSegment();
    }

    method AbortIfHopeless()
      requires Valid()
      modifies this, SenderRepr(), ReceiverRepr()
      ensures Valid() && View() == Abort(old(View()))
    {
      if sender.consecutiveRetran > MAX_RETX_ATTEMPTS {
        SendRst();
      }
    }

    /** Decides whether the connection is over. */
    method PrerequisitesMet() returns (met: bool)
      requires Valid()
      ensures met <==> StreamsFinished(View())
    {
      met := false;
      var unassembled := receiver.reassembler.UnassembledBytes();
      if unassembled != 0 || !(receiver.reassembler.output.endFlag && receiver.reassembler.output.size == 0) {
        return;
      }
      if !(sender.stream.endFlag && sender.stream.size == 0) {
        return;
      }
      met := sender.BytesInFlight() == 0;
    }

    method SettleState()
      requires Valid()
      modifies this`lingerAfterStreamsFinish, this`close
      ensures Valid() && View() == Settle(old(View()))
    {
      var met := PrerequisitesMet();
      if !met {
        return;
      }
      if ticks - receTick >= 10 * rtTimeout {
        lingerAfterStreamsFinish := false;
        close := true;
      }
      if lingerAfterStreamsFinish {
        return;
      }
      close := true;
    }

    method Tick(ms: nat)
      requires Valid() && TickDefined(View(), ms)
      modifies this, SenderRepr(), ReceiverRepr()
      ensures Valid() && View() == Connections.Tick(old(View()), ms)
    {
      FillOnTick(ms);
      RunTimer(ms);
      AbortIfHopeless();
      SettleState();
    }

    /** The destructor resets a connection that is still active. */
    method Destroy()
      requires Valid()
      modifies this, SenderRepr(), ReceiverRepr()
      ensures Valid() && View() == Connections.Destroy(old(View()))
    {
      if !close {
        SendRst();
      }
    }
  }
}
