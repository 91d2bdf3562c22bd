/** The sender as the source runs it, against its specification in `Sending`. */
module TcpSenders {
  import opened Prelude
  import opened WrappingIntegers
  import opened ByteStreams
  import opened TcpSegments
  import opened Sending

  class RetransmissionTimer {
    var rto: nat
    var running: bool

    ghost function View(): Timer
      reads this
    {
      Timer(running, rto)
    }

    constructor ()
      ensures View() == Timer(false, 0)
    {
      rto, running := 0, false;
    }

    method Start(timeout: nat)
      modifies this
      ensures View() == Timer(true, timeout)
    {
      rto, running := timeout, true;
    }

    method Stop()
      modifies this
      ensures View() == Timer(false, old(rto))
    {
      running := false;
    }

    /** `fired` is true where the source runs its callback. */
    method TimePassed(ms: nat) returns (fired: bool)
      modifies this
      ensures fired <==> old(running) && old(rto) <= ms
      ensures View() == if old(running) && ms < old(rto) then Timer(true, old(rto) - ms) else old(View())
    {
      if !running {
        return false;
      }
      if rto > ms {
        rto := rto - ms;
        return false;
      }
      return true;
    }
  }

  class TCPSender {
    const isn: U32
    var segmentsOut: seq<TcpSegment>
    const initialRto: U16
    const stream: ByteStream
    var nextSeqno: nat
    var lastRetransSeqno: Option<U32>
    var retransmissionQueue: seq<TcpSegment>
    var consecutiveRetran: nat
    var rto: U32
    var windowSize: U16
    var ack: U32
    var windowProbe: bool
    var state: Phase
    const timer: RetransmissionTimer

    ghost function View(): Sender
      reads this, stream, timer
    {
      Sender(isn, initialRto, stream.View(), nextSeqno, lastRetransSeqno, retransmissionQueue, consecutiveRetran, rto,
             windowSize, ack, windowProbe, state, timer.View(), segmentsOut)
    }

    ghost predicate Valid()
      reads this, stream, stream.stream
    {
      stream.Valid()
    }

    constructor (capacity: nat, retxTimeout: U16, isn: U32)
      ensures Valid() && fresh(stream) && fresh(stream.stream) && fresh(timer)
      ensures View() == NewSender(capacity, retxTimeout, isn)
    {
      this.isn := isn;
      segmentsOut := [];
      initialRto := retxTimeout;
      stream := new ByteStream(capacity);
      nextSeqno := 0;
      lastRetransSeqno := Some(0);
      retransmissionQueue := [];
      consecutiveRetran := 0;
      rto := retxTimeout;
      windowSize := 1;
      ack := isn;
      windowProbe := false;
      state := Init;
      timer := new RetransmissionTimer();
    }

    function BytesInFlight(): U64
      reads this
    {
      (nextSeqno - Offset(ack, isn)) % 0x1_0000_0000_0000_0000
    }

    /** Reads the stream into the next segment, with SYN and FIN where they are due. */
    method BuildSegment() returns (segment: TcpSegment)
      requires Valid() && View().Gap() > 0 && state != FinSent
      modifies this`state, stream, stream.stream
      ensures Valid() && segment == NextSegment(old(View()))
      ensures View() == old(View()).(
                          stream := old(View()).stream.Read(PayloadRoom(old(View()))),
                          phase := if segment.header.fin then FinSent
                                   else if segment.header.syn then SynSent else old(state))
    {
      var gap: U64 := (windowSize - BytesInFlight()) % 0x1_0000_0000_0000_0000;
      segment := TcpSegment(DEFAULT_HEADER.(seqno := Wrap(nextSeqno, isn)), []);
      var bytes2read := gap;
      if stream.bytesR == 0 && state == Init {
        segment := segment.(header := segment.header.(syn := true));
        bytes2read := bytes2read - 1;
        state := SynSent;
      }
      if bytes2read >= MAX_PAYLOAD {
        bytes2read := MAX_PAYLOAD;
      }
      assert bytes2read == PayloadRoom(old(View()));
      var payload := stream.Read(bytes2read);
      segment := segment.(payload := payload);
      if stream.endFlag && stream.size == 0 && state == SynSent && segment.Length() + 1 <= gap {
        segment := segment.(header := segment.header.(fin := true));
        state := FinSent;
      }
    }

    /** One round of `fill_window`; `more` is false where the source leaves the loop. */
    method FillRound() returns (more: bool)
      requires Valid() && View().Gap() > 0 && state != FinSent
      modifies this, stream, stream.stream, timer
      ensures Valid()
      ensures more == CanSend(old(View()))
      ensures View() == if more then FillOne(old(View())) else old(View())
    {
      var segment := BuildSegment();
      if segment.Length() == 0 {
        return false;
      }
      nextSeqno := nextSeqno + segment.Length();
      segmentsOut := segmentsOut + [segment];
      retransmissionQueue := retransmissionQueue + [segment];
      if !timer.running {
        timer.Start(rto);
      }
      return true;
    }

    method FillWindow()
      requires Valid()
      modifies this, stream, stream.stream, timer
      ensures Valid() && View() == Sending.FillWindow(old(View()))
    {
      while (windowSize - BytesInFlight()) % 0x1_0000_0000_0000_0000 != 0 && state != FinSent
        invariant Valid()
        invariant Sending.FillWindow(View()) == Sending.FillWindow(old(View()))
        decreases Unsent(View())
      {
        var more := FillRound();
        if !more {
          break;
        }
      }
    }

    /** Pops the segments at the front of the queue that `abs` acknowledges in full. */
    method PopAcked(abs: nat)
      modifies this`retransmissionQueue
      ensures retransmissionQueue == DropAcked(old(retransmissionQueue), isn, abs)
    {
      while retransmissionQueue != []
        invariant DropAcked(retransmissionQueue, isn, abs) == DropAcked(old(retransmissionQueue), isn, abs)
        decreases |retransmissionQueue|
      {
        var element := retransmissionQueue[0];
        if Offset(element.header.seqno, isn) + element.Length() > abs {
          break;
        }
        retransmissionQueue := retransmissionQueue[1..];
      }
    }

    /** Takes a new acknowledgment: drops what it covers, resets the back-off, restarts or stops the timer. */
    method Acknowledge(ackno: U32)
      requires Valid()
      modifies this, timer
      ensures Valid()
      ensures var s := old(View());
              var queue := DropAcked(s.queue, s.isn, Offset(ackno, s.isn));
              View() == s.(ack := ackno, rto := s.initialRto, queue := queue, consecutive := 0,
                           timer := if queue != [] then Timer(true, s.initialRto) else Timer(false, s.timer.left))
    {
      ack := ackno;
      rto := initialRto;
      PopAcked(Offset(ackno, isn));
      if retransmissionQueue != [] {
        timer.Start(rto);
      } else {
        timer.Stop();
      }
      consecutiveRetran := 0;
    }

    method AckReceived(ackno: U32, window: U16)
      requires Valid()
      modifies this, timer
      ensures Valid() && View() == Sending.AckReceived(old(View()), ackno, window)
    {
      windowSize := window;
      windowProbe := false;
      if windowSize == 0 {
        windowSize := 1;
        windowProbe := true;
      }
      assert View() == NoteWindow(old(View()), window);
      if Offset(ackno, isn) > nextSeqno || Offset(ackno, isn) <= Offset(ack, isn) {
        return;
      }
      Acknowledge(ackno);
    }

    method Retransmit()
      requires Valid() && retransmissionQueue != []
      modifies this, timer
      ensures Valid() && View() == Sending.Retransmit(old(View()))
    {
      var segment := retransmissionQueue[0];
      segmentsOut := segmentsOut + [segment];
      if windowSize != 0 {
        if lastRetransSeqno == Some(segment.header.seqno) {
          consecutiveRetran := consecutiveRetran + 1;
        } else {
          consecutiveRetran := 1;
          lastRetransSeqno := Some(segment.header.seqno);
        }
        if !windowProbe {
          rto := rto * 2 % 0x1_0000_0000;
        }
      }
      timer.Start(rto);
    }

    method Tick(ms: nat)
      requires Valid() && (Expires(View(), ms) ==> retransmissionQueue != [])
      modifies this, timer
      ensures Valid() && View() == Sending.Tick(old(View()), ms)
    {
      var fired := timer.TimePassed(ms);
      if fired {
        Retransmit();
      }
    }

    method SendEmptySegment()
      requires Valid()
      modifies this
      ensures Valid() && View() == SendEmpty(old(View()))
    {
      segmentsOut := segmentsOut + [TcpSegment(DEFAULT_HEADER.(seqno := Wrap(nextSeqno, isn)), [])];
    }
  }
}
