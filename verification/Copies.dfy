/** What an open endpoint has queued for retransmission, it has also put on the wire. */
module Copies {
  import opened Prelude
  import opened WrappingIntegers
  import opened Reassembly
  import opened TcpSegments
  import opened TcpReceivers
  import opened Sending
  import opened SenderInvariants
  import opened SenderRuns
  import opened Connections
  import opened ConnectionRuns
  import opened TwoParty

  // ---------------------------------------------------------------- answers

  /** Acknowledgment and window are those of the receiver. */
  ghost predicate Stamped(r: Receiver, seg: TcpSegment)
    requires r.reasm.out.Valid()
  {
    r.isn.Some? ==>
      seg.header.ack && seg.header.ackno == r.Ackno().value && seg.header.win == r.WindowSize() % 0x1_0000
  }

  lemma {:induction false} StampAllIs(r: Receiver, segs: seq<TcpSegment>)
    requires r.reasm.out.Valid()
    ensures |StampAll(r, segs)| == |segs|
    ensures forall i :: 0 <= i < |segs| ==> StampAll(r, segs)[i] == Stamp(r, segs[i])
  {
    if segs != [] {
      StampAllIs(r, segs[1..]);
    }
  }

  /** The segment takes sequence numbers, or is a keep-alive. */
  ghost predicate WantsAnswer(r: Receiver, seg: TcpSegment) {
    seg.Length() > 0 || IsKeepAlive(r, seg)
  }

  lemma {:induction false} AnswerIff(c: Conn, seg: TcpSegment)
    requires c.Valid() && c.snd.out == []
    ensures |Answer(c, seg).out| > |c.out| <==> WantsAnswer(c.rcv, seg)
    ensures c.out <= Answer(c, seg).out && Answer(c, seg).rcv == c.rcv
    ensures forall i :: |c.out| <= i < |Answer(c, seg).out| ==> Stamped(c.rcv, Answer(c, seg).out[i])
  {
    var snd := Reply(c.snd, seg);
    var snd' := if IsKeepAlive(c.rcv, seg) then SendEmpty(snd) else snd;
    StampAllIs(c.rcv, snd'.out);
    assert Answer(c, seg) == SendSegments(c.(snd := snd'));
  }

  /**
   * An open endpoint answers exactly what takes sequence numbers or keeps alive, whether or not it is in the window,
   * and every answer carries the receiver's newest acknowledgment and window.
   */
  lemma {:induction false} AnswersExactly(c: Conn, seg: TcpSegment, o: Oracle)
    requires ConnInv(c) && !c.closed
    ensures var c' := SegmentReceived(c, seg, o);
            && (|c'.out| > |c.out| <==> WantsAnswer(c'.rcv, seg)) && c.out <= c'.out
            && forall i :: |c.out| <= i < |c'.out| ==> Stamped(c'.rcv, c'.out[i])
  {
    NoteFlagsInv(c, seg);
    AnswerIff(TakeAck(TakePayload(NoteFlags(c, seg), seg, o), seg), seg);
  }

  // ---------------------------------------------------------------- copies on the wire

  /** The same segment, but perhaps for its acknowledgment and window, and not a reset. */
  ghost predicate IsCopy(seg: TcpSegment, t: TcpSegment) {
    && t.payload == seg.payload && t.header.seqno == seg.header.seqno && t.header.syn == seg.header.syn
    && t.header.fin == seg.header.fin && !t.header.rst
  }

  ghost predicate HasCopy(seg: TcpSegment, out: seq<TcpSegment>, net: set<TcpSegment>) {
    exists t :: (t in out || t in net) && IsCopy(seg, t)
  }

  ghost predicate OnWire(queue: seq<TcpSegment>, out: seq<TcpSegment>, net: set<TcpSegment>) {
    forall i :: 0 <= i < |queue| ==> HasCopy(queue[i], out, net)
  }

  lemma {:induction false} HasCopyGrows(seg: TcpSegment, out: seq<TcpSegment>, net: set<TcpSegment>,
                                        out': seq<TcpSegment>, net': set<TcpSegment>)
    requires HasCopy(seg, out, net) && (forall t :: t in out || t in net ==> t in out' || t in net')
    ensures HasCopy(seg, out', net')
  {
  }

  /** Whatever is queued was queued before, or is about to go out. */
  ghost predicate Sourced(s: Sender, s': Sender) {
    forall i :: 0 <= i < |s'.queue| ==> s'.queue[i] in s.queue || s'.queue[i] in s'.out
  }

  lemma {:induction false} SendKeepsWire(c: Conn, snd: Sender, net: set<TcpSegment>)
    requires c.rcv.reasm.out.Valid() && OnWire(c.snd.queue, c.out, net) && Sourced(c.snd, snd) && Unstamped(snd)
    ensures var c' := SendSegments(c.(snd := snd)); OnWire(c'.snd.queue, c'.out, net)
  {
    var c' := SendSegments(c.(snd := snd));
    StampAllIs(c.rcv, snd.out);
    forall i | 0 <= i < |snd.queue|
      ensures HasCopy(snd.queue[i], c'.out, net)
    {
      var seg := snd.queue[i];
      if seg in c.snd.queue {
        var j :| 0 <= j < |c.snd.queue| && c.snd.queue[j] == seg;
        HasCopyGrows(seg, c.out, net, c'.out, net);
      } else {
        var j :| 0 <= j < |snd.out| && snd.out[j] == seg;
        assert c'.out[|c.out| + j] == Stamp(c.rcv, seg);
        assert IsCopy(seg, Stamp(c.rcv, seg));
      }
    }
  }

  lemma {:induction false} FillSourced(s: Sender)
    requires s.stream.Valid()
    ensures Sourced(s, FillWindow(s)) && s.out <= FillWindow(s).out
  {
    FillAppends(s);
  }

  lemma {:induction false} DropAckedSourced(queue: seq<TcpSegment>, isn: U32, abs: nat)
    ensures forall seg :: seg in DropAcked(queue, isn, abs) ==> seg in queue
    decreases queue
  {
    if queue != [] && Offset(queue[0].header.seqno, isn) + queue[0].Length() <= abs {
      DropAckedSourced(queue[1..], isn, abs);
    }
  }

  lemma {:induction false} ReplySourced(s: Sender, seg: TcpSegment)
    requires s.stream.Valid()
    ensures Sourced(s, Reply(s, seg)) && s.out <= Reply(s, seg).out
  {
    FillSourced(s);
  }

  // ---------------------------------------------------------------- every step of an open endpoint

  /** Every segment an endpoint may have to send again has a copy in its queue to the wire, or on the wire. */
  ghost predicate Copied(c: Conn, net: set<TcpSegment>) {
    OnWire(c.snd.queue, c.out, net)
  }

  lemma {:induction false} ConnectCopied(c: Conn, net: set<TcpSegment>)
    requires c.Valid() && Copied(c, net) && Unstamped(c.snd)
    ensures Copied(Connect(c), net) && Unstamped(Connect(c).snd)
  {
    FillSourced(c.snd);
    FillUnstamped(c.snd);
    SendKeepsWire(c, FillWindow(c.snd), net);
  }

  lemma {:induction false} ReplyUnstamped(s: Sender, seg: TcpSegment)
    requires s.stream.Valid() && Unstamped(s)
    ensures Unstamped(Reply(s, seg))
  {
    FillUnstamped(s);
  }

  /** The answers are no resets. */
  lemma {:induction false} AnswersPlain(c: Conn, seg: TcpSegment, o: Oracle)
    requires c.Valid() && Unstamped(c.snd) && seg.Length() > 0
    ensures var c' := SegmentReceived(c, seg, o); forall i :: |c.out| <= i < |c'.out| ==> !c'.out[i].header.rst
  {
    var c1 := TakePayload(NoteFlags(c, seg), seg, o);
    var c2 := TakeAck(c1, seg);
    if seg.header.ack {
      AckUnstamped(c1.snd, seg.header.ackno, seg.header.win);
    }
    var snd := Reply(c2.snd, seg);
    ReplyUnstamped(c2.snd, seg);
    StampAllIs(c2.rcv, snd.out);
    assert SegmentReceived(c, seg, o) == SendSegments(c2.(snd := snd));
  }

  lemma {:induction false} AnswerCopied(c: Conn, seg: TcpSegment, net: set<TcpSegment>)
    requires c.Valid() && Copied(c, net) && Unstamped(c.snd)
    ensures Copied(Answer(c, seg), net)
  {
    var snd := Reply(c.snd, seg);
    ReplySourced(c.snd, seg);
    ReplyUnstamped(c.snd, seg);
    SendKeepsWire(c, if IsKeepAlive(c.rcv, seg) then SendEmpty(snd) else snd, net);
  }

  lemma {:induction false} TakeAckCopied(c: Conn, seg: TcpSegment, net: set<TcpSegment>)
    requires c.snd.stream.Valid() && Copied(c, net) && Unstamped(c.snd)
    ensures Copied(TakeAck(c, seg), net) && Unstamped(TakeAck(c, seg).snd)
  {
    if seg.header.ack {
      var queue := AckReceived(c.snd, seg.header.ackno, seg.header.win).queue;
      DropAckedSourced(c.snd.queue, c.snd.isn, Offset(seg.header.ackno, c.snd.isn));
      forall i | 0 <= i < |queue|
        ensures HasCopy(queue[i], c.out, net)
      {
        assert queue[i] in c.snd.queue;
      }
      AckUnstamped(c.snd, seg.header.ackno, seg.header.win);
    }
  }

  lemma {:induction false} ArriveCopied(c: Conn, seg: TcpSegment, o: Oracle, net: set<TcpSegment>)
    requires c.Valid() && Copied(c, net) && Unstamped(c.snd)
    ensures Copied(SegmentReceived(c, seg, o), net)
  {
    var c1 := TakePayload(NoteFlags(c, seg), seg, o);
    TakeAckCopied(c1, seg, net);
    AnswerCopied(TakeAck(c1, seg), seg, net);
  }

  lemma {:induction false} TickTimerCopied(c: Conn, ms: nat, net: set<TcpSegment>)
    requires c.Valid() && Copied(c, net) && Unstamped(c.snd) && (Expires(c.snd, ms) ==> c.snd.queue != [])
    ensures Copied(TickTimer(c, ms), net)
  {
    TickUnstamped(c.snd, ms);
    SendKeepsWire(c, Sending.Tick(c.snd, ms), net);
  }

  lemma {:induction false} TickCopied(c: Conn, ms: nat, net: set<TcpSegment>)
    requires c.Valid() && TickDefined(c, ms) && Copied(c, net) && Unstamped(c.snd)
    ensures Connections.Tick(c, ms).closed || Copied(Connections.Tick(c, ms), net)
  {
    if HasOutput(c.snd.stream) {
      ConnectCopied(c.(now := c.now + ms), net);
    }
    TickTimerCopied(TickFill(c, ms), ms, net);
  }

  ghost function NetAfter(c: Conn, e: ConnEvent, net: set<TcpSegment>): set<TcpSegment> {
    if e.Take? then net + set i | 0 <= i < |c.out| :: c.out[i] else net
  }

  lemma {:induction false} TakeCopied(c: Conn, net: set<TcpSegment>)
    requires Copied(c, net)
    ensures Copied(c.(out := []), NetAfter(c, Take, net))
  {
    forall i | 0 <= i < |c.snd.queue|
      ensures HasCopy(c.snd.queue[i], [], NetAfter(c, Take, net))
    {
      HasCopyGrows(c.snd.queue[i], c.out, net, [], NetAfter(c, Take, net));
    }
  }

  lemma {:induction false} StepCopied(c: Conn, e: ConnEvent, c': Conn, net: set<TcpSegment>)
    requires ConnInv(c) && Unstamped(c.snd) && Copied(c, net) && ConnNext(c, e, c') && !c'.closed
    ensures Copied(c', NetAfter(c, e, net))
  {
    match e
    case Open => ConnectCopied(c, net);
    case WriteOut(data) => ConnectCopied(c.(snd := c.snd.(stream := c.snd.stream.Write(data))), net);
    case CloseOut => ConnectCopied(c.(snd := c.snd.(stream := c.snd.stream.EndInput())), net);
    case Arrive(seg, o) => ArriveCopied(c, seg, o, net);
    case ReadIn(n) =>
    case Elapse(ms) =>
      TickSendInv(c, ms);
      TickCopied(c, ms, net);
    case Drop =>
    case Take => TakeCopied(c, net);
  }

  // ---------------------------------------------------------------- whole runs of two endpoints

  /** The invariants of both endpoints and of what is on the wire. */
  ghost predicate Sound(s: Sys) {
    SysInv(s) && WithinLimit(s) && ConnInv(s.a) && ConnInv(s.b)
  }

  /** Besides, what an open endpoint has queued is on its way. */
  ghost predicate Live(s: Sys) {
    Sound(s) && (!s.a.closed ==> Copied(s.a, s.ab)) && (!s.b.closed ==> Copied(s.b, s.ba))
  }

  lemma {:induction false} StepASound(s: Sys, e: ConnEvent, s': Sys)
    requires Sound(s) && StepA(s, e, s') && WithinLimit(s')
    ensures Sound(s')
  {
    StepAInv(s, e, s');
    ConnStepInv(s.a, e, s'.a);
  }

  lemma {:induction false} StepALive(s: Sys, e: ConnEvent, s': Sys)
    requires Live(s) && StepA(s, e, s') && WithinLimit(s')
    ensures Live(s')
  {
    StepASound(s, e, s');
    StepStaysClosed(s.a, e, s'.a);
    if !s'.a.closed {
      StepCopied(s.a, e, s'.a, s.ab);
    }
  }

  /** In every run the invariants of both endpoints hold, and what an open one has queued is on its way. */
  lemma {:induction false} RunLive(states: seq<Sys>, events: seq<SysEvent>, n: nat)
    requires IsSysRun(states, events) && n < |states|
    ensures Live(states[n])
  {
    if n == 0 {
      SysRunInv(states, events, 0);
      NewConnInv(states[0].a);
      NewConnInv(states[0].b);
    } else {
      RunLive(states, events, n - 1);
      var s, s' := states[n - 1], states[n];
      assert SysNext(s, events[n - 1], s');
      match events[n - 1]
      case AtA(e) => StepALive(s, e, s');
      case AtB(e) => StepALive(s.Flip(), e, s'.Flip());
    }
  }

  lemma {:induction false} NewConnInv(c: Conn)
    requires IsNewConn(c)
    ensures ConnInv(c) && Copied(c, {})
  {
    var rcap: nat, scap: nat, rt: U16, isn: U32 :| c == NewConn(rcap, scap, rt, isn);
    NewSenderInv(scap, rt, isn);
  }
}
