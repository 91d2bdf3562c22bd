/** The protocol cannot get stuck: from every state it reaches, it can still deliver everything. */
module Completion {
  import opened Prelude
  import opened WrappingIntegers
  import opened Reassembly
  import opened TcpSegments
  import opened TcpReceivers
  import opened Sending
  import opened SenderInvariants
  import opened SenderRuns
  import opened Transport
  import opened Links

  // ---------------------------------------------------------------- the receiver takes the next byte

  lemma {:induction false} FreshAtWilling(r: Reassembler, data: Bytes, index: nat, order: seq<nat>)
    requires Past(r.store, r.willing) && Disjoint(r.store)
    requires index <= r.willing < index + |data|
    requires forall k :: k in r.store ==> k in order
    ensures r.willing in Absorb(r, data, index, order) && Absorb(r, data, index, order)[r.willing] != []
  {
    var (d, i) := Fresh(r, data, index);
    assert i == r.willing && d != [];
    var m := MergeAll(r.store, order, d, i);
    MergeAllHull(r.store, order, d, i);
    HullAtOrPast(r.store, i, i + |d|, m.index, m.End(), r.willing);
  }

  /** A push that holds the next byte is written at least that far, if the output has room. */
  lemma {:induction false} PushAdvances(r: Reassembler, data: Bytes, index: nat, eof: bool, o: Oracle, source: Bytes)
    requires Inv(r, source) && Fits(o, r.store)
    requires index <= r.willing < index + |data| && r.out.Room() >= 1 && !r.out.ended
    ensures |Push(r, data, index, eof, o).out.written| > |r.out.written|
  {
    var r0 := NoteEof(r, data, index, eof);
    FreshAtWilling(r0, data, index, o.order);
    var store := MakeRoom(r0, Absorb(r0, data, index, o.order), o);
    assert r.willing in store && store[r.willing] != [];
    assert |Gather(store, r.willing)| >= 1;
  }

  /** When every byte is in and only the end is awaited, the segment that carries the end brings it. */
  lemma {:induction false} EndAdvances(f: Flow, a: nat, r: Receiver, seg: TcpSegment, o: Oracle)
    requires Agrees(f, a, r) && r.isn.Some? && r.AckAbs() == a && Carries(f, seg)
    requires Offset(seg.header.seqno, f.isn) <= a < Offset(seg.header.seqno, f.isn) + seg.Length()
    requires Fits(o, r.reasm.store) && !r.reasm.out.ended
    requires r.reasm.willing >= StreamIndex(seg, f.isn) + |seg.payload|
    ensures Receive(r, seg, o).AckAbs() > a
  {
    var i := StreamIndex(seg, f.isn);
    CarriedIsHonest(f, seg);
    PushInv(r.reasm, seg.payload, i, seg.header.fin, o, f.sent);
    PushStream(r.reasm, seg.payload, i, seg.header.fin, o);
  }

  /** So a segment of the flow that holds the number the receiver waits for moves its acknowledgment on. */
  lemma {:induction false} AwaitedAdvances(f: Flow, a: nat, r: Receiver, seg: TcpSegment, o: Oracle)
    requires Agrees(f, a, r) && r.isn.Some? && r.AckAbs() == a && Carries(f, seg)
    requires Offset(seg.header.seqno, f.isn) <= a < Offset(seg.header.seqno, f.isn) + seg.Length()
    requires Fits(o, r.reasm.store) && (seg.payload == [] || r.reasm.out.Room() >= 1)
    ensures Receive(r, seg, o).AckAbs() > a
  {
    AgreesMeans(f, a, r);
    assert !r.reasm.out.ended;
    var i := StreamIndex(seg, f.isn);
    if r.reasm.willing < i + |seg.payload| {
      PushAdvances(r.reasm, seg.payload, i, seg.header.fin, o, f.sent);
    } else {
      EndAdvances(f, a, r, seg, o);
    }
  }

  /** Delivering the oldest unacknowledged segment takes the receiver past the sender's acknowledgment. */
  lemma {:induction false} FrontAdvances(s: Sender, r: Receiver, o: Oracle)
    requires SenderInv(s) && s.queue != [] && Agrees(FlowOf(s), s.AckAbs(), r)
    requires Fits(o, r.reasm.store) && (s.queue[0].payload == [] || r.reasm.out.Room() >= 1)
    ensures Receive(r, s.queue[0], o).AckAbs() > s.AckAbs()
  {
    var f, a, seg := FlowOf(s), s.AckAbs(), s.queue[0];
    assert Carries(f, seg) && Offset(seg.header.seqno, f.isn) <= a < Offset(seg.header.seqno, f.isn) + seg.Length();
    if r.AckAbs() > a {
      ReceiveAgrees(f, a, r, seg, o);
    } else if r.isn.Some? {
      AwaitedAdvances(f, a, r, seg, o);
    } else {
      assert seg.header.syn;
    }
  }

  // ---------------------------------------------------------------- paths

  ghost predicate Reaches(l: Link, l': Link) {
    exists states, events :: IsPath(states, events) && states[0] == l && states[|events|] == l'
  }

  lemma {:induction false} ReachesSelf(l: Link)
    requires LinkInv(l)
    ensures Reaches(l, l)
  {
    assert IsPath([l], []) && [l][0] == l;
  }

  lemma {:induction false} PathSnoc(states: seq<Link>, events: seq<LinkEvent>, e: LinkEvent, n: Link)
    requires IsPath(states, events) && Passable(n) && LinkNext(states[|events|], e, n)
    ensures IsPath(states + [n], events + [e])
  {
    var states', events' := states + [n], events + [e];
    forall i | 0 <= i < |events'|
      ensures LinkNext(states'[i], events'[i], states'[i + 1])
    {
      if i < |events| {
        assert LinkNext(states[i], events[i], states[i + 1]);
      }
    }
  }

  lemma {:induction false} ReachesMore(l: Link, m: Link, e: LinkEvent, n: Link)
    requires Reaches(l, m) && Passable(m) && Passable(n) && LinkNext(m, e, n)
    ensures Reaches(l, n)
  {
    var states, events :| IsPath(states, events) && states[0] == l && states[|events|] == m;
    PathSnoc(states, events, e, n);
    assert (states + [n])[0] == l && (states + [n])[|events + [e]|] == n;
  }

  lemma {:induction false} ReachesStep(l: Link, m: Link, e: LinkEvent, n: Link)
    requires Reaches(l, m) && LinkInv(m) && LinkNext(m, e, n) && |n.snd.stream.written| <= LIMIT
    ensures Reaches(l, n) && LinkInv(n)
  {
    StepInv(m, e, n);
    ReachesMore(l, m, e, n);
  }

  lemma {:induction false} SomeOrder(keys: set<nat>) returns (order: seq<nat>)
    ensures forall k :: k in keys <==> k in order
    decreases keys
  {
    if keys == {} {
      order := [];
    } else {
      var k :| k in keys;
      order := SomeOrder(keys - {k});
      order := order + [k];
    }
  }

  lemma {:induction false} SomeOracle(store: Store) returns (o: Oracle)
    ensures Fits(o, store)
  {
    var order := SomeOrder(store.Keys);
    o := Oracle(order, if order == [] then 0 else order[0]);
  }

  /** The stretch of a path in which the sender's input does not change. */
  ghost predicate SameInput(l: Link, l': Link) {
    && l'.snd.stream.written == l.snd.stream.written && l'.snd.stream.ended == l.snd.stream.ended
    && l'.rcv.reasm.out.capacity == l.rcv.reasm.out.capacity
  }

  /** The timer runs out, the oldest segment is sent again, and the reader makes room. */
  lemma {:induction false} ResendPath(l: Link, m: Link) returns (n: Link)
    requires Reaches(l, m) && LinkInv(m) && m.snd.queue != []
    ensures Reaches(l, n) && LinkInv(n) && SameInput(m, n)
    ensures n.snd.queue == m.snd.queue && n.snd.ack == m.snd.ack && n.snd.isn == m.snd.isn
    ensures m.snd.queue[0] in n.net
    ensures n.rcv.reasm.out.Buffered() == 0
  {
    var e := Local(Elapse(m.snd.timer.left));
    TickInv(m.snd, m.snd.timer.left);
    var m1 := m.(snd := Retransmit(m.snd));
    ReachesStep(l, m, e, m1);
    assert m1.snd.out[|m.snd.out|] == m.snd.queue[0];
    var m2 := m1.(snd := m1.snd.(out := []), net := m1.net + set i | 0 <= i < |m1.snd.out| :: m1.snd.out[i]);
    ReachesStep(l, m1, Transmit, m2);
    var all := m2.rcv.reasm.out.Buffered();
    n := m2.(rcv := m2.rcv.(reasm := m2.rcv.reasm.(out := m2.rcv.reasm.out.Read(all))));
    ReachesStep(l, m2, ReadOut(all), n);
  }

  /** The segment arrives ... */
  lemma {:induction false} ArrivePath(l: Link, m: Link) returns (n: Link)
    requires Reaches(l, m) && LinkInv(m) && m.snd.queue != [] && m.snd.queue[0] in m.net
    requires m.rcv.reasm.out.Room() >= 1
    ensures Reaches(l, n) && LinkInv(n) && SameInput(m, n)
    ensures n.snd == m.snd && n.rcv.AckAbs() > m.snd.AckAbs()
  {
    var seg := m.snd.queue[0];
    var o := SomeOracle(m.rcv.reasm.store);
    FrontAdvances(m.snd, m.rcv, o);
    n := m.(rcv := Receive(m.rcv, seg, o));
    DeliverInv(m, seg, o, n);
    ReachesStep(l, m, Deliver(seg, o), n);
  }

  lemma {:induction false} LatestAckTaken(m: Link, n: Link)
    requires LinkInv(m) && LinkNext(m, EmitNote, n) && m.rcv.AckAbs() > m.snd.AckAbs()
    ensures NewAck(n.snd, n.notes[|m.notes|].ackno)
  {
    EmitNoteInv(m, n);
    AgreesMeans(FlowOf(m.snd), m.snd.AckAbs(), m.rcv);
  }

  /** ... and its acknowledgment comes back. */
  lemma {:induction false} AckPath(l: Link, m: Link) returns (n: Link)
    requires Reaches(l, m) && LinkInv(m) && m.rcv.AckAbs() > m.snd.AckAbs()
    ensures Reaches(l, n) && LinkInv(n) && SameInput(m, n)
    ensures n.snd.AckAbs() > m.snd.AckAbs()
  {
    var m1 := m.(notes := m.notes + [Note(m.rcv.Ackno().value, m.rcv.WindowSize() % 0x1_0000)]);
    LatestAckTaken(m, m1);
    ReachesStep(l, m, EmitNote, m1);
    var j := |m.notes|;
    AckReceivedInv(m1.snd, m1.notes[j].ackno, m1.notes[j].win);
    n := m1.(snd := AckReceived(m1.snd, m1.notes[j].ackno, m1.notes[j].win), latest := j + 1,
             ordered := m1.ordered && m1.latest <= j + 1);
    ReachesStep(l, m1, DeliverNote(j), n);
  }

  /** All is sent, received, ended and acknowledged. */
  ghost predicate Done(l: Link) {
    && l.snd.phase == FinSent && l.snd.queue == [] && l.snd.AckAbs() == l.snd.next
    && l.rcv.reasm.out.ended && l.rcv.reasm.out.written == l.snd.stream.written
  }

  lemma {:induction false} FillPath(l: Link, m: Link) returns (n: Link)
    requires Reaches(l, m) && LinkInv(m) && m.snd.stream.ended && m.snd.queue == [] && m.snd.phase != FinSent
    ensures Reaches(l, n) && LinkInv(n) && SameInput(m, n)
    ensures n.snd.queue != [] && n.snd.AckAbs() == m.snd.AckAbs()
  {
    n := m.(snd := FillWindow(m.snd));
    FillWindowInv(m.snd);
    FillStops(m.snd);
    InFlightExact(m.snd);
    InFlightExact(n.snd);
    FlightIffQueue(n.snd);
    ReachesStep(l, m, Local(Fill), n);
  }

  lemma {:induction false} QuietIsDone(l: Link)
    requires LinkInv(l) && l.snd.queue == [] && l.snd.phase == FinSent
    ensures Done(l)
  {
    AgreesMeans(FlowOf(l.snd), l.snd.AckAbs(), l.rcv);
  }

  lemma {:induction false} CompletionPath(l: Link, m: Link) returns (n: Link)
    requires Reaches(l, m) && LinkInv(m) && m.snd.stream.ended && m.rcv.reasm.out.capacity >= 1
    ensures Reaches(l, n) && Done(n) && SameInput(m, n)
    decreases |m.snd.stream.written| + 2 - m.snd.AckAbs()
  {
    n := m;
    if n.snd.queue == [] && n.snd.phase != FinSent {
      n := FillPath(l, n);
    }
    if n.snd.queue == [] {
      QuietIsDone(n);
    } else {
      n := ResendPath(l, n);
      n := ArrivePath(l, n);
      n := AckPath(l, n);
      n := CompletionPath(l, n);
    }
  }

  /** From every reachable state in which the writer has closed, some continuation delivers and acknowledges all. */
  lemma {:induction false} CanAlwaysComplete(states: seq<Link>, events: seq<LinkEvent>, n: nat) returns (end: Link)
    requires IsPath(states, events) && IsNew(states[0]) && n < |states|
    requires states[n].snd.stream.ended && states[n].rcv.reasm.out.capacity >= 1
    ensures Reaches(states[n], end) && Done(end)
    ensures end.rcv.reasm.out.written == states[n].snd.stream.written
  {
    PathInv(states, events, n);
    ReachesSelf(states[n]);
    end := CompletionPath(states[n], states[n]);
  }
}
