/**
 * A run in which an endpoint closes without lingering while its peer still waits for an acknowledgment: the peer's
 * FIN overtakes its only byte, so that our own FIN goes out before the peer's stream has ended here.
 */
module UnsafeClose {
  import opened Prelude
  import opened ByteStreams
  import opened Reassembly
  import opened TcpSegments
  import opened TcpReceivers
  import opened Sending
  import opened SenderInvariants
  import opened SenderRuns
  import opened Connections
  import opened ConnectionRuns
  import opened TwoParty
  import opened Copies
  import opened Closing

  // ---------------------------------------------------------------- the states

  function Snd(rt: U16, written: Bytes, read: nat, ended: bool, next: nat, queue: seq<TcpSegment>, window: U16,
               ack: U32, phase: Phase): Sender
  {
    Sender(0, rt, Stream(9, written, read, ended, false), next, Some(0), queue, 0, rt, window, ack, false, phase,
           Timer(queue != [], if next == 0 then 0 else rt), [])
  }

  function Rcv(written: Bytes, read: nat, eofSeen: bool, total: nat, ended: bool, isn: Option<U32>): Receiver {
    Receiver(Reassembler(Stream(9, written, read, ended, false), |written|, map[], eofSeen, total, |written|), isn)
  }

  function Ending(rt: U16, snd: Sender, rcv: Receiver, out: seq<TcpSegment>, linger: bool): Conn {
    Conn(rt, snd, rcv, out, linger, false, 0, 0, rcv.isn)
  }

  /** Nothing received yet, the stream's start known or not. */
  function Blank(isn: Option<U32>): Receiver {
    Rcv([], 0, false, 0, false, isn)
  }

  /** The peer with its byte and its FIN sent, neither acknowledged. */
  function Waiting(rt: U16, w: Bytes, queue: seq<TcpSegment>, rcv: Receiver): Conn {
    Ending(rt, Snd(rt, w, 1, true, 3, queue, 9, 1, FinSent), rcv, [], true)
  }

  function Seg(seqno: U32, syn: bool, fin: bool, payload: Bytes): TcpSegment {
    TcpSegment(DEFAULT_HEADER.(seqno := seqno, syn := syn, fin := fin), payload)
  }

  function Acked(seg: TcpSegment, ackno: U32): TcpSegment {
    seg.(header := seg.header.(ack := true, ackno := ackno, win := 9))
  }

  // ---------------------------------------------------------------- pieces of a step

  const NO_KEYS: Oracle := Oracle([], 0)

  /** The parts of `SegmentReceived`, put together. */
  lemma {:induction false} Arrives(c: Conn, seg: TcpSegment, rcv: Receiver, snd1: Sender, snd2: Sender, linger: bool)
    requires c.Valid() && rcv.Valid() && snd1.stream.Valid() && !seg.header.rst && c.received == c.now
    requires linger == (c.linger && (seg.header.fin ==> FinWasSent(c.snd)))
    requires seg.header.syn ==> rcv.isn == Some(seg.header.seqno)
    requires !seg.header.syn ==> c.peerIsn == rcv.isn
    requires InWindow(c.(peerIsn := rcv.isn, linger := linger), seg) && rcv == Receive(c.rcv, seg, NO_KEYS)
    requires snd1 == if seg.header.ack then AckReceived(c.snd, seg.header.ackno, seg.header.win) else c.snd
    requires snd2 == Reply(snd1, seg) && !IsKeepAlive(rcv, seg)
    ensures SegmentReceived(c, seg, NO_KEYS) ==
            c.(peerIsn := rcv.isn, linger := linger, rcv := rcv, snd := snd2.(out := []),
               out := c.out + StampAll(rcv, snd2.out))
  {
    var c0 := c.(peerIsn := rcv.isn, linger := linger);
    assert NoteFlags(c, seg) == c0;
    var c1 := c0.(rcv := rcv);
    assert TakePayload(c0, seg, NO_KEYS) == c1;
    var c2 := c1.(snd := snd1);
    assert TakeAck(c1, seg) == c2;
    assert Answer(c2, seg) == SendSegments(c2.(snd := snd2));
  }

  lemma {:induction false} NothingToSend(s: Sender)
    requires s.stream.Valid() && s.stream.Buffered() == 0 && s.phase != Init && (s.stream.ended ==> s.phase == FinSent)
    ensures FillWindow(s) == s
  {
  }

  lemma {:induction false} StampOne(r: Receiver, seg: TcpSegment, ackno: U32)
    requires r.Valid() && r.isn == Some(0) && r.Ackno().value == ackno && r.WindowSize() == 9
    ensures StampAll(r, [seg]) == [Acked(seg, ackno)]
  {
    assert [seg][1..] == [];
  }

  lemma {:induction false} SynFills(rt: U16)
    ensures var s := Snd(rt, [], 0, false, 0, [], 1, 0, Init);
            FillWindow(s) == Snd(rt, [], 0, false, 1, [Seg(0, true, false, [])], 1, 0, SynSent).(
              out := [Seg(0, true, false, [])])
  {
    var s := Snd(rt, [], 0, false, 0, [], 1, 0, Init);
    assert s.Gap() == 1 && PayloadRoom(s) == 0;
    assert s.stream.Peek(0) == [];
    assert NextSegment(s) == Seg(0, true, false, []);
    FillsOnce(s, Seg(0, true, false, []), FillOne(s));
  }

  lemma {:induction false} SynAcked(rt: U16, syn: TcpSegment)
    requires syn == Seg(0, true, false, [])
    ensures AckReceived(Snd(rt, [], 0, false, 1, [syn], 1, 0, SynSent), 1, 9)
         == Snd(rt, [], 0, false, 1, [], 9, 1, SynSent)
  {
    assert DropAcked([syn], 0, 1) == DropAcked([syn][1..], 0, 1) == [];
  }

  // ---------------------------------------------------------------- the handshake

  lemma {:induction false} StampNone(r: Receiver, seg: TcpSegment)
    requires r.Valid() && r.isn == None
    ensures StampAll(r, [seg]) == [seg]
  {
    assert [seg][1..] == [];
  }

  lemma {:induction false} ConnectIs(c: Conn, snd: Sender, out: seq<TcpSegment>)
    requires c.Valid() && FillWindow(c.snd) == snd && StampAll(c.rcv, snd.out) == out
    ensures Connect(c) == c.(snd := snd.(out := []), out := c.out + out)
  {
  }

  lemma {:induction false} Opens(rt: U16, syn: TcpSegment)
    requires syn == Seg(0, true, false, [])
    ensures Connect(NewConn(9, 9, rt, 0)) ==
            Ending(rt, Snd(rt, [], 0, false, 1, [syn], 1, 0, SynSent), Blank(None), [syn], true)
  {
    var c := Ending(rt, Snd(rt, [], 0, false, 0, [], 1, 0, Init), Blank(None), [], true);
    assert NewConn(9, 9, rt, 0) == c;
    SynFills(rt);
    StampNone(c.rcv, syn);
    ConnectIs(c, FillWindow(c.snd), [syn]);
  }

  lemma {:induction false} ReplyIsFill(s: Sender, seg: TcpSegment)
    requires s.stream.Valid() && seg.Length() > 0 && FillWindow(s).out != []
    ensures Reply(s, seg) == FillWindow(s)
  {
  }

  lemma {:induction false} ReplyIsEmpty(s: Sender, seg: TcpSegment)
    requires s.stream.Valid() && seg.Length() > 0 && FillWindow(s) == s && s.out == []
    ensures Reply(s, seg) == SendEmpty(s)
  {
  }

  lemma {:induction false} TakesSyn(rt: U16, syn: TcpSegment)
    requires syn == Seg(0, true, false, [])
    ensures SegmentReceived(NewConn(9, 9, rt, 0), syn, NO_KEYS) ==
            Ending(rt, Snd(rt, [], 0, false, 1, [syn], 1, 0, SynSent), Blank(Some(0)),
                   [Acked(syn, 1)], true)
  {
    var c := Ending(rt, Snd(rt, [], 0, false, 0, [], 1, 0, Init), Blank(None), [], true);
    assert NewConn(9, 9, rt, 0) == c;
    var rcv := Blank(Some(0));
    SynFills(rt);
    ReplyIsFill(c.snd, syn);
    Arrives(c, syn, rcv, c.snd, FillWindow(c.snd), true);
    StampOne(rcv, syn, 1);
  }

  lemma {:induction false} TakesSynAck(rt: U16, syn: TcpSegment)
    requires syn == Seg(0, true, false, [])
    ensures var c := Ending(rt, Snd(rt, [], 0, false, 1, [syn], 1, 0, SynSent),
                            Blank(None), [], true);
            SegmentReceived(c, Acked(syn, 1), NO_KEYS) ==
            Ending(rt, Snd(rt, [], 0, false, 1, [], 9, 1, SynSent), Blank(Some(0)),
                   [Acked(Seg(1, false, false, []), 1)], true)
  {
    var c := Ending(rt, Snd(rt, [], 0, false, 1, [syn], 1, 0, SynSent), Blank(None), [], true);
    var rcv, snd := Blank(Some(0)), Snd(rt, [], 0, false, 1, [], 9, 1, SynSent);
    SynAcked(rt, syn);
    NothingToSend(snd);
    Arrives(c, Acked(syn, 1), rcv, snd, SendEmpty(snd), true);
    StampOne(rcv, Seg(1, false, false, []), 1);
  }

  lemma {:induction false} TakesAck(rt: U16, syn: TcpSegment)
    requires syn == Seg(0, true, false, [])
    ensures var c := Ending(rt, Snd(rt, [], 0, false, 1, [syn], 1, 0, SynSent),
                            Blank(Some(0)), [], true);
            SegmentReceived(c, Acked(Seg(1, false, false, []), 1), NO_KEYS) ==
            Ending(rt, Snd(rt, [], 0, false, 1, [], 9, 1, SynSent), Blank(Some(0)), [], true)
  {
    var c := Ending(rt, Snd(rt, [], 0, false, 1, [syn], 1, 0, SynSent), Blank(Some(0)), [], true);
    var snd := Snd(rt, [], 0, false, 1, [], 9, 1, SynSent);
    SynAcked(rt, syn);
    Arrives(c, Acked(Seg(1, false, false, []), 1), c.rcv, snd, snd, true);
  }

  // ---------------------------------------------------------------- the peer sends a byte and its FIN

  lemma {:induction false} SendsByte(rt: U16, d: Byte)
    ensures var rcv := Blank(Some(0));
            Connections.Write(Ending(rt, Snd(rt, [], 0, false, 1, [], 9, 1, SynSent), rcv, [], true), [d]) ==
            Ending(rt, Snd(rt, [d], 1, false, 2, [Seg(1, false, false, [d])], 9, 1, SynSent), rcv,
                   [Acked(Seg(1, false, false, [d]), 1)], true)
  {
    var rcv := Blank(Some(0));
    var s, seg := Snd(rt, [d], 0, false, 1, [], 9, 1, SynSent), Seg(1, false, false, [d]);
    assert Snd(rt, [], 0, false, 1, [], 9, 1, SynSent).stream.Write([d]) == s.stream;
    assert s.Gap() == 9 && PayloadRoom(s) == 9 && s.stream.Peek(9) == [d];
    assert NextSegment(s) == seg;
    FillsOnce(s, seg, FillOne(s));
    StampOne(rcv, seg, 1);
  }

  lemma {:induction false} FillsFin(s: Sender, fin: TcpSegment)
    requires s.stream.Valid() && s.Gap() > 0 && s.phase != FinSent && NextSegment(s) == fin && fin.header.fin
    ensures FillWindow(s) == FillOne(s)
  {
    assert FillOne(s).phase == FinSent;
  }

  lemma {:induction false} FinIsNext(s: Sender, n: U32, fin: TcpSegment)
    requires s.stream.Valid() && s.stream.Eof() && s.phase == SynSent && s.next == n && s.isn == 0 && s.Gap() >= 1
    requires fin == Seg(n, false, true, [])
    ensures NextSegment(s) == fin
  {
    assert s.stream.Peek(PayloadRoom(s)) == [];
  }

  lemma {:induction false} FinFills(rt: U16, written: Bytes, queue: seq<TcpSegment>, n: nat)
    requires |written| <= 1 && |queue| == |written| && n == 1 + |written|
    ensures var fin := Seg(n, false, true, []);
            FillWindow(Snd(rt, written, |written|, true, n, queue, 9, 1, SynSent)) ==
            Snd(rt, written, |written|, true, n + 1, queue + [fin], 9, 1, FinSent).(out := [fin])
  {
    var s, fin := Snd(rt, written, |written|, true, n, queue, 9, 1, SynSent), Seg(n, false, true, []);
    assert s.Gap() == 10 - n;
    FinIsNext(s, n, fin);
    FillsFin(s, fin);
    assert [] + [fin] == [fin];
  }

  lemma {:induction false} SendsFin(rt: U16, written: Bytes, queue: seq<TcpSegment>, n: nat, out: seq<TcpSegment>,
                                    rcv: Receiver, linger: bool)
    requires |written| <= 1 && |queue| == |written| && n == 1 + |written| && rcv.Valid() && rcv.isn == Some(0)
    requires rcv.Ackno().value == 1 && rcv.WindowSize() == 9
    ensures var fin := Seg(n, false, true, []);
            EndInputStream(Ending(rt, Snd(rt, written, |written|, false, n, queue, 9, 1, SynSent), rcv, out, linger)) ==
            Ending(rt, Snd(rt, written, |written|, true, n + 1, queue + [fin], 9, 1, FinSent), rcv,
                   out + [Acked(fin, 1)], linger)
  {
    var s := Snd(rt, written, |written|, true, n, queue, 9, 1, SynSent);
    FinFills(rt, written, queue, n);
    StampOne(rcv, Seg(n, false, true, []), 1);
    ConnectIs(Ending(rt, s, rcv, out, linger), FillWindow(s), [Acked(Seg(n, false, true, []), 1)]);
  }

  // ---------------------------------------------------------------- the FIN overtakes the byte

  lemma {:induction false} StaleAck(rt: U16, written: Bytes, read: nat, ended: bool, next: nat, queue: seq<TcpSegment>,
                                    ack: U32, phase: Phase)
    requires ack >= 1
    ensures var s := Snd(rt, written, read, ended, next, queue, 9, ack, phase); AckReceived(s, 1, 9) == s
  {
  }

  /** It stops the lingering, though the byte before it is missing. */
  lemma {:induction false} TakesFinEarly(rt: U16)
    ensures var c := Ending(rt, Snd(rt, [], 0, false, 1, [], 9, 1, SynSent),
                            Blank(Some(0)), [], true);
            SegmentReceived(c, Acked(Seg(2, false, true, []), 1), NO_KEYS) ==
            Ending(rt, c.snd, Rcv([], 0, true, 1, false, Some(0)), [Acked(Seg(1, false, false, []), 1)], false)
  {
    var c := Ending(rt, Snd(rt, [], 0, false, 1, [], 9, 1, SynSent), Blank(Some(0)), [], true);
    var rcv := Rcv([], 0, true, 1, false, Some(0));
    StaleAck(rt, [], 0, false, 1, [], 1, SynSent);
    NothingToSend(c.snd);
    ReplyIsEmpty(c.snd, Acked(Seg(2, false, true, []), 1));
    EofReceived(2, 1, false);
    Arrives(c, Acked(Seg(2, false, true, []), 1), rcv, c.snd, SendEmpty(c.snd), false);
    StampOne(rcv, Seg(1, false, false, []), 1);
  }

  lemma {:induction false} FinIsOut(rt: U16, w: Bytes, queue: seq<TcpSegment>)
    requires |w| == 1
    ensures FinWasSent(Snd(rt, w, 1, true, 3, queue, 9, 1, FinSent))
  {
    assert Snd(rt, w, 1, true, 3, queue, 9, 1, FinSent).InFlight() == 2;
  }

  lemma {:induction false} EofReceived(seqno: U32, total: nat, ended: bool)
    requires 1 <= seqno <= 2 && total == seqno - 1 && ended == (total == 0)
    ensures Receive(Blank(Some(0)), Acked(Seg(seqno, false, true, []), 1), NO_KEYS)
         == Rcv([], 0, true, total, ended, Some(0))
  {
  }

  lemma {:induction false} EofAcks(rcv: Receiver)
    requires rcv == Rcv([], 0, true, 0, true, Some(0))
    ensures rcv.Valid() && rcv.Ackno() == Some(2) && rcv.WindowSize() == 9
  {
  }

  lemma {:induction false} EmptySent(s: Sender, n: U32)
    requires s.isn == 0 && s.next == n && s.out == []
    ensures SendEmpty(s) == s.(out := [Seg(n, false, false, [])])
  {
    assert [] + [Seg(n, false, false, [])] == [Seg(n, false, false, [])];
  }

  /** Our FIN, which acknowledges nothing of it, ends the peer's inbound stream. */
  lemma {:induction false} PeerTakesFin(rt: U16, w: Bytes, queue: seq<TcpSegment>)
    requires |queue| == 2 && |w| == 1
    ensures var snd := Snd(rt, w, 1, true, 3, queue, 9, 1, FinSent);
            SegmentReceived(Ending(rt, snd, Blank(Some(0)), [], true),
                            Acked(Seg(1, false, true, []), 1), NO_KEYS) ==
            Ending(rt, snd, Rcv([], 0, true, 0, true, Some(0)), [Acked(Seg(3, false, false, []), 2)], true)
  {
    var snd := Snd(rt, w, 1, true, 3, queue, 9, 1, FinSent);
    var c, rcv := Ending(rt, snd, Blank(Some(0)), [], true), Rcv([], 0, true, 0, true, Some(0));
    StaleAck(rt, w, 1, true, 3, queue, 1, FinSent);
    NothingToSend(snd);
    ReplyIsEmpty(snd, Acked(Seg(1, false, true, []), 1));
    EofReceived(1, 0, true);
    EofAcks(rcv);
    EmptySent(snd, 3);
    FinIsOut(rt, w, queue);
    Arrives(c, Acked(Seg(1, false, true, []), 1), rcv, snd, SendEmpty(snd), true);
    StampOne(rcv, Seg(3, false, false, []), 2);
  }

  lemma {:induction false} FinAcked(rt: U16, fin: TcpSegment)
    requires fin == Seg(1, false, true, [])
    ensures AckReceived(Snd(rt, [], 0, true, 2, [fin], 9, 1, FinSent), 2, 9)
         == Snd(rt, [], 0, true, 2, [], 9, 2, FinSent)
  {
    assert DropAcked([fin], 0, 2) == DropAcked([fin][1..], 0, 2) == [];
  }

  lemma {:induction false} TakesFinAck(rt: U16, fin: TcpSegment)
    requires fin == Seg(1, false, true, [])
    ensures var rcv := Rcv([], 0, true, 1, false, Some(0));
            SegmentReceived(Ending(rt, Snd(rt, [], 0, true, 2, [fin], 9, 1, FinSent), rcv, [], false),
                            Acked(Seg(3, false, false, []), 2), NO_KEYS) ==
            Ending(rt, Snd(rt, [], 0, true, 2, [], 9, 2, FinSent), rcv, [], false)
  {
    var rcv, snd := Rcv([], 0, true, 1, false, Some(0)), Snd(rt, [], 0, true, 2, [], 9, 2, FinSent);
    var c := Ending(rt, Snd(rt, [], 0, true, 2, [fin], 9, 1, FinSent), rcv, [], false);
    FinAcked(rt, fin);
    Arrives(c, Acked(Seg(3, false, false, []), 2), rcv, snd, snd, false);
  }

  lemma {:induction false} BytePushed(d: Byte)
    ensures Push(Rcv([], 0, true, 1, false, Some(0)).reasm, [d], 0, false, NO_KEYS)
         == Rcv([d], 0, true, 1, true, Some(0)).reasm
  {
    var r := Rcv([], 0, true, 1, false, Some(0)).reasm;
    var store: Store := map[0 := [d]];
    assert Absorb(r, [d], 0, []) == store;
    assert store - {0} == map[];
    assert Gather(store, 0) == [d] + Gather(map[], 1) == [d];
    assert r.out.Write([d]).written == [d];
    assert KeysPast(store, 1) == map[];
  }

  /** The byte arrives last; its acknowledgment is the one the peer waits for. */
  lemma {:induction false} TakesByte(rt: U16, d: Byte)
    ensures var snd := Snd(rt, [], 0, true, 2, [], 9, 2, FinSent);
            var c := SegmentReceived(Ending(rt, snd, Rcv([], 0, true, 1, false, Some(0)), [], false),
                                     Acked(Seg(1, false, false, [d]), 1), NO_KEYS);
            c == Ending(rt, snd, Rcv([d], 0, true, 1, true, Some(0)), c.out, false)
  {
    var snd := Snd(rt, [], 0, true, 2, [], 9, 2, FinSent);
    var c, rcv := Ending(rt, snd, Rcv([], 0, true, 1, false, Some(0)), [], false), Rcv([d], 0, true, 1, true, Some(0));
    StaleAck(rt, [], 0, true, 2, [], 2, FinSent);
    NothingToSend(snd);
    BytePushed(d);
    Arrives(c, Acked(Seg(1, false, false, [d]), 1), rcv, snd, SendEmpty(snd), false);
  }

  /** And at once the endpoint is done. */
  lemma {:induction false} ClosesAtOnce(rt: U16, d: Byte, out: seq<TcpSegment>)
    requires rt > 0
    ensures var c := Ending(rt, Snd(rt, [], 0, true, 2, [], 9, 2, FinSent),
                            Rcv([d], 1, true, 1, true, Some(0)), out, false);
            TickDefined(c, 0) && Connections.Tick(c, 0) == c.(closed := true)
  {
    var c := Ending(rt, Snd(rt, [], 0, true, 2, [], 9, 2, FinSent), Rcv([d], 1, true, 1, true, Some(0)), out, false);
    NothingToSend(c.snd);
    ConnectIs(c, c.snd, []);
    assert out + [] == out;
    assert TickFill(c, 0) == c && TickTimer(c, 0) == c && Abort(c) == c;
    assert Positions(c.rcv.reasm.store) == {};
    assert c.snd.InFlight() == 0;
  }

  // ---------------------------------------------------------------- the run

  lemma {:induction false} Go(l: Sys, s: Sys, e: ConnEvent, c': Conn) returns (t: Sys)
    requires SysReaches(l, s) && WithinLimit(s) && s.a.Valid() && ConnNext(s.a, e, c') && (e.Arrive? ==> e.seg in s.ba)
    requires |c'.snd.stream.written| <= LIMIT
    ensures t == s.(a := c', ab := NetAfter(s.a, e, s.ab)) && SysReaches(l, t) && WithinLimit(t)
  {
    t := s.(a := c', ab := NetAfter(s.a, e, s.ab));
    SysReachesMore(l, s, AtA(e), t);
  }

  lemma {:induction false} PeerGo(l: Sys, s: Sys, e: ConnEvent, c': Conn) returns (t: Sys)
    requires SysReaches(l, s) && WithinLimit(s) && s.b.Valid() && ConnNext(s.b, e, c') && (e.Arrive? ==> e.seg in s.ab)
    requires |c'.snd.stream.written| <= LIMIT
    ensures t == s.(b := c', ba := NetAfter(s.b, e, s.ba)) && SysReaches(l, t) && WithinLimit(t)
  {
    t := s.(b := c', ba := NetAfter(s.b, e, s.ba));
    SysReachesMore(l, s, AtB(e), t);
  }

  /** What an endpoint has for the wire goes out. */
  lemma {:induction false} Emit(l: Sys, s: Sys) returns (t: Sys)
    requires SysReaches(l, s) && WithinLimit(s) && s.a.Valid()
    ensures SysReaches(l, t) && WithinLimit(t) && t == s.(a := s.a.(out := []), ab := t.ab)
    ensures (forall seg :: seg in s.a.out ==> seg in t.ab) && s.ab <= t.ab
  {
    t := Go(l, s, Take, s.a.(out := []));
  }

  lemma {:induction false} PeerEmit(l: Sys, s: Sys) returns (t: Sys)
    requires SysReaches(l, s) && WithinLimit(s) && s.b.Valid()
    ensures SysReaches(l, t) && WithinLimit(t) && t == s.(b := s.b.(out := []), ba := t.ba)
    ensures (forall seg :: seg in s.b.out ==> seg in t.ba) && s.ba <= t.ba
  {
    t := PeerGo(l, s, Take, s.b.(out := []));
  }

  function Start(rt: U16): Sys {
    Sys(NewConn(9, 9, rt, 0), NewConn(9, 9, rt, 0), {}, {})
  }

  lemma {:induction false} Greets(rt: U16, syn: TcpSegment) returns (t: Sys)
    requires syn == Seg(0, true, false, [])
    ensures SysReaches(Start(rt), t) && WithinLimit(t) && Acked(syn, 1) in t.ba
    ensures t.a == Ending(rt, Snd(rt, [], 0, false, 1, [syn], 1, 0, SynSent), Blank(None), [], true)
    ensures t.b == Ending(rt, Snd(rt, [], 0, false, 1, [syn], 1, 0, SynSent),
                          Blank(Some(0)), [], true)
  {
    var l := Start(rt);
    SysReachesSelf(l);
    Opens(rt, syn);
    t := Go(l, l, Open, Connect(l.a));
    t := Emit(l, t);
    TakesSyn(rt, syn);
    assert Fits(NO_KEYS, l.b.rcv.reasm.store);
    t := PeerGo(l, t, Arrive(syn, NO_KEYS), SegmentReceived(l.b, syn, NO_KEYS));
    t := PeerEmit(l, t);
  }

  lemma {:induction false} Shakes(rt: U16) returns (t: Sys)
    ensures SysReaches(Start(rt), t) && WithinLimit(t) && t.a == t.b
    ensures t.a == Ending(rt, Snd(rt, [], 0, false, 1, [], 9, 1, SynSent), Blank(Some(0)), [], true)
  {
    var l, syn := Start(rt), Seg(0, true, false, []);
    var ack := Acked(Seg(1, false, false, []), 1);
    t := Greets(rt, syn);
    TakesSynAck(rt, syn);
    t := Go(l, t, Arrive(Acked(syn, 1), NO_KEYS), SegmentReceived(t.a, Acked(syn, 1), NO_KEYS));
    t := Emit(l, t);
    TakesAck(rt, syn);
    t := PeerGo(l, t, Arrive(ack, NO_KEYS), SegmentReceived(t.b, ack, NO_KEYS));
  }

  /** Ends the stream of the peer, or ours, with everything but the SYN unacknowledged. */
  lemma {:induction false} PeerEnds(l: Sys, s: Sys, rt: U16, w: Bytes, queue: seq<TcpSegment>, n: nat) returns (t: Sys)
    requires SysReaches(l, s) && WithinLimit(s) && |w| <= 1 && |queue| == |w| && n == 1 + |w|
    requires s.b == Ending(rt, Snd(rt, w, |w|, false, n, queue, 9, 1, SynSent), s.b.rcv, s.b.out, s.b.linger)
    requires s.b.rcv.Valid() && s.b.rcv.isn == Some(0) && s.b.rcv.Ackno().value == 1 && s.b.rcv.WindowSize() == 9
    ensures SysReaches(l, t) && WithinLimit(t) && t == s.(b := t.b, ba := t.ba) && s.ba <= t.ba
    ensures forall seg :: seg in s.b.out || seg == Acked(Seg(n, false, true, []), 1) ==> seg in t.ba
    ensures t.b == Ending(rt, Snd(rt, w, |w|, true, n + 1, queue + [Seg(n, false, true, [])], 9, 1, FinSent), s.b.rcv,
                          [], s.b.linger)
  {
    SendsFin(rt, w, queue, n, s.b.out, s.b.rcv, s.b.linger);
    t := PeerGo(l, s, CloseOut, EndInputStream(s.b));
    t := PeerEmit(l, t);
  }

  lemma {:induction false} PeerWrites(rt: U16, d: Byte) returns (t: Sys)
    ensures SysReaches(Start(rt), t) && WithinLimit(t)
    ensures t.a == Ending(rt, Snd(rt, [], 0, false, 1, [], 9, 1, SynSent), t.b.rcv, [], true)
    ensures t.b == Ending(rt, Snd(rt, [d], 1, false, 2, [Seg(1, false, false, [d])], 9, 1, SynSent),
                          Blank(Some(0)), [Acked(Seg(1, false, false, [d]), 1)], true)
  {
    t := Shakes(rt);
    SendsByte(rt, d);
    t := PeerGo(Start(rt), t, WriteOut([d]), Connections.Write(t.b, [d]));
  }

  lemma {:induction false} PeerSends(rt: U16, d: Byte, w: Bytes, queue: seq<TcpSegment>) returns (t: Sys)
    requires w == [d] && queue == [Seg(1, false, false, w)] + [Seg(2, false, true, [])]
    ensures SysReaches(Start(rt), t) && WithinLimit(t)
    ensures Acked(Seg(1, false, false, w), 1) in t.ba && Acked(Seg(2, false, true, []), 1) in t.ba
    ensures t.a == Ending(rt, Snd(rt, [], 0, false, 1, [], 9, 1, SynSent), t.b.rcv, [], true)
    ensures t.b == Waiting(rt, w, queue, Blank(Some(0)))
  {
    t := PeerWrites(rt, d);
    t := PeerEnds(Start(rt), t, rt, w, [Seg(1, false, false, w)], 2);
  }

  lemma {:induction false} FinOvertakes(rt: U16, d: Byte, w: Bytes, queue: seq<TcpSegment>) returns (t: Sys)
    requires w == [d] && queue == [Seg(1, false, false, w)] + [Seg(2, false, true, [])]
    ensures SysReaches(Start(rt), t) && WithinLimit(t) && Acked(Seg(1, false, false, w), 1) in t.ba
    ensures t.a == Ending(rt, Snd(rt, [], 0, false, 1, [], 9, 1, SynSent),
                          Rcv([], 0, true, 1, false, Some(0)), t.a.out, false)
    ensures t.b == Waiting(rt, w, queue, Blank(Some(0)))
  {
    var fin := Acked(Seg(2, false, true, []), 1);
    t := PeerSends(rt, d, w, queue);
    TakesFinEarly(rt);
    t := Go(Start(rt), t, Arrive(fin, NO_KEYS), SegmentReceived(t.a, fin, NO_KEYS));
  }

  lemma {:induction false} WeEnd(rt: U16, d: Byte, w: Bytes, queue: seq<TcpSegment>) returns (t: Sys)
    requires w == [d] && queue == [Seg(1, false, false, w)] + [Seg(2, false, true, [])]
    ensures SysReaches(Start(rt), t) && WithinLimit(t)
    ensures Acked(Seg(1, false, false, w), 1) in t.ba && Acked(Seg(1, false, true, []), 1) in t.ab
    ensures t.a == Ending(rt, Snd(rt, [], 0, true, 2, [Seg(1, false, true, [])], 9, 1, FinSent),
                          Rcv([], 0, true, 1, false, Some(0)), [], false)
    ensures t.b == Waiting(rt, w, queue, Blank(Some(0)))
  {
    var l := Start(rt);
    t := FinOvertakes(rt, d, w, queue);
    SysReachesFlip(l, t);
    assert [] + [Seg(1, false, true, [])] == [Seg(1, false, true, [])];
    var u := PeerEnds(l.Flip(), t.Flip(), rt, [], [], 1);
    SysReachesFlip(l.Flip(), u);
    t := u.Flip();
  }

  lemma {:induction false} FinsCross(rt: U16, d: Byte, w: Bytes, queue: seq<TcpSegment>) returns (t: Sys)
    requires w == [d] && queue == [Seg(1, false, false, w)] + [Seg(2, false, true, [])]
    ensures SysReaches(Start(rt), t) && WithinLimit(t) && Acked(Seg(1, false, false, w), 1) in t.ba
    ensures t.a == Ending(rt, Snd(rt, [], 0, true, 2, [], 9, 2, FinSent),
                          Rcv([], 0, true, 1, false, Some(0)), [], false)
    ensures t.b == Waiting(rt, w, queue, Rcv([], 0, true, 0, true, Some(0)))
  {
    var l, fin, ack := Start(rt), Acked(Seg(1, false, true, []), 1), Acked(Seg(3, false, false, []), 2);
    t := WeEnd(rt, d, w, queue);
    PeerTakesFin(rt, w, queue);
    t := PeerGo(l, t, Arrive(fin, NO_KEYS), SegmentReceived(t.b, fin, NO_KEYS));
    t := PeerEmit(l, t);
    TakesFinAck(rt, Seg(1, false, true, []));
    t := Go(l, t, Arrive(ack, NO_KEYS), SegmentReceived(t.a, ack, NO_KEYS));
  }

  lemma {:induction false} ByteComes(rt: U16, d: Byte, w: Bytes, queue: seq<TcpSegment>) returns (t: Sys)
    requires w == [d] && queue == [Seg(1, false, false, w)] + [Seg(2, false, true, [])]
    ensures SysReaches(Start(rt), t) && WithinLimit(t)
    ensures t.a == Ending(rt, Snd(rt, [], 0, true, 2, [], 9, 2, FinSent),
                          Rcv(w, 1, true, 1, true, Some(0)), t.a.out, false)
    ensures t.b == Waiting(rt, w, queue, Rcv([], 0, true, 0, true, Some(0)))
  {
    var l, byte := Start(rt), Acked(Seg(1, false, false, w), 1);
    t := FinsCross(rt, d, w, queue);
    TakesByte(rt, d);
    t := Go(l, t, Arrive(byte, NO_KEYS), SegmentReceived(t.a, byte, NO_KEYS));
    var c := t.a;
    t := Go(l, t, ReadIn(1), ReadInbound(c, 1));
  }

  /**
   * It happens: an endpoint that stopped lingering closes cleanly in a tick of no time, every byte delivered, while
   * its peer has a byte and a FIN unacknowledged and must retransmit them to nobody.
   */
  lemma {:induction false} PeerLeftWaiting(rt: U16, d: Byte) returns (s: Sys, t: Sys)
    requires rt > 0
    ensures SysReaches(Start(rt), s) && StepA(s, ConnEvent.Elapse(0), t) && !s.a.linger
    ensures t.a.closed && t.a.snd.consecutive == 0 && BothDelivered(t)
    ensures !t.b.closed && t.b.snd.AckAbs() == 1 && t.b.snd.next == 3 && |t.b.snd.queue| == 2
  {
    var w := [d];
    s := ByteComes(rt, d, w, [Seg(1, false, false, w)] + [Seg(2, false, true, [])]);
    ClosesAtOnce(rt, d, s.a.out);
    t := s.(a := s.a.(closed := true));
  }
}
