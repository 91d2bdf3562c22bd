/** A sender and a receiver over a network that loses, duplicates and reorders in both directions. */
module Links {
  import opened Prelude
  import opened WrappingIntegers
  import opened Reassembly
  import opened TcpSegments
  import opened TcpReceivers
  import opened Sending
  import opened SenderInvariants
  import opened SenderRuns
  import opened Transport

  /** An acknowledgment on its way back. */
  datatype Note = Note(ackno: U32, win: U16)

  /** `net` and `notes` only grow, so losing, repeating and reordering is delivering as one pleases.
      `latest` is one past the newest note delivered, `ordered` tells that none was older than its predecessor. */
  datatype Link = Link(snd: Sender, rcv: Receiver, net: set<TcpSegment>, notes: seq<Note>, latest: nat, ordered: bool)

  datatype LinkEvent =
    | Local(e: SenderEvent)
    | Transmit
    | Deliver(seg: TcpSegment, o: Oracle)
    | ReadOut(n: nat)
    | EmitNote
    | DeliverNote(j: nat)

  ghost predicate LinkNext(l: Link, e: LinkEvent, l': Link)
    requires l.snd.stream.Valid() && l.rcv.Valid()
  {
    match e
    case Local(e) => !e.Ack? && !e.Drain? && SenderNext(l.snd, e, l'.snd) && l' == l.(snd := l'.snd)
    case Transmit => l' == l.(snd := l.snd.(out := []), net := l.net + set i | 0 <= i < |l.snd.out| :: l.snd.out[i])
    case Deliver(seg, o) =>
      seg in l.net && Fits(o, l.rcv.reasm.store) && l' == l.(rcv := Receive(l.rcv, seg, o))
    case ReadOut(n) => l' == l.(rcv := l.rcv.(reasm := l.rcv.reasm.(out := l.rcv.reasm.out.Read(n))))
    case EmitNote =>
      && l.rcv.isn.Some?
      && l' == l.(notes := l.notes + [Note(l.rcv.Ackno().value, l.rcv.WindowSize() % 0x1_0000)])
    case DeliverNote(j) =>
      && j < |l.notes|
      && l' == l.(snd := AckReceived(l.snd, l.notes[j].ackno, l.notes[j].win), latest := j + 1,
                  ordered := l.ordered && l.latest <= j + 1)
  }

  ghost predicate IsNew(l: Link) {
    && (exists capacity: nat, retx: U16, isn: U32 :: l.snd == NewSender(capacity, retx, isn))
    && (exists capacity: nat :: l.rcv == NewReceiver(capacity))
    && l.net == {} && l.notes == [] && l.latest == 0 && l.ordered
  }

  /** A state a path may pass through. */
  ghost predicate Passable(l: Link) {
    l.snd.stream.Valid() && l.rcv.Valid() && |l.snd.stream.written| <= LIMIT
  }

  /** A path of steps within the sequence space. */
  ghost predicate IsPath(states: seq<Link>, events: seq<LinkEvent>) {
    && |states| == |events| + 1
    && (forall i :: 0 <= i < |states| ==> Passable(states[i]))
    && (forall i :: 0 <= i < |events| ==> LinkNext(states[i], events[i], states[i + 1]))
  }

  ghost predicate LinkInv(l: Link) {
    && SenderInv(l.snd)
    && Agrees(FlowOf(l.snd), l.snd.AckAbs(), l.rcv)
    && (forall seg :: seg in l.net ==> Carries(FlowOf(l.snd), seg))
    && (forall j :: 0 <= j < |l.notes| ==> Issued(l.rcv, l.snd.isn, l.notes[j].ackno))
  }

  lemma {:induction false} NewLinkInv(l: Link)
    requires IsNew(l)
    ensures LinkInv(l)
  {
    var capacity: nat, retx: U16, isn: U32 :| l.snd == NewSender(capacity, retx, isn);
    NewSenderInv(capacity, retx, isn);
    var window: nat :| l.rcv == NewReceiver(window);
    AgreesNew(FlowOf(l.snd), window);
  }

  lemma {:induction false} LocalInv(l: Link, e: SenderEvent, l': Link)
    requires LinkInv(l) && LinkNext(l, Local(e), l') && |l'.snd.stream.written| <= LIMIT
    ensures LinkInv(l')
  {
    var f, f' := FlowOf(l.snd), FlowOf(l'.snd);
    NextInv(l.snd, e, l'.snd);
    AgreesGrows(f, f', l.snd.AckAbs(), l.rcv);
    forall seg | seg in l.net
      ensures Carries(f', seg)
    {
      CarriesGrows(f, f', seg);
    }
  }

  lemma {:induction false} DeliverInv(l: Link, seg: TcpSegment, o: Oracle, l': Link)
    requires LinkInv(l) && LinkNext(l, Deliver(seg, o), l')
    ensures LinkInv(l') && ReceiverLe(l.rcv, l'.rcv)
  {
    ReceiveAgrees(FlowOf(l.snd), l.snd.AckAbs(), l.rcv, seg, o);
  }

  lemma {:induction false} EmitNoteInv(l: Link, l': Link)
    requires LinkInv(l) && LinkNext(l, EmitNote, l')
    ensures LinkInv(l')
    ensures Offset(l'.notes[|l.notes|].ackno, l.snd.isn) == l.rcv.AckAbs()
  {
    InFlightExact(l.snd);
    AcknoIssued(FlowOf(l.snd), l.snd.AckAbs(), l.rcv);
  }

  lemma {:induction false} StepInv(l: Link, e: LinkEvent, l': Link)
    requires LinkInv(l) && LinkNext(l, e, l') && |l'.snd.stream.written| <= LIMIT
    ensures LinkInv(l')
  {
    match e
    case Local(e) => LocalInv(l, e, l');
    case Transmit => assert FlowOf(l'.snd) == FlowOf(l.snd);
    case Deliver(seg, o) => DeliverInv(l, seg, o, l');
    case ReadOut(n) => ReadAgrees(FlowOf(l.snd), l.snd.AckAbs(), l.rcv, n);
    case EmitNote => EmitNoteInv(l, l');
    case DeliverNote(j) => AckReceivedInv(l.snd, l.notes[j].ackno, l.notes[j].win);
  }

  /** Every state on a path from a new link satisfies the invariant. */
  lemma {:induction false} PathInv(states: seq<Link>, events: seq<LinkEvent>, n: nat)
    requires IsPath(states, events) && IsNew(states[0]) && n < |states|
    ensures LinkInv(states[n])
  {
    if n == 0 {
      NewLinkInv(states[0]);
    } else {
      PathInv(states, events, n - 1);
      assert LinkNext(states[n - 1], events[n - 1], states[n]);
      StepInv(states[n - 1], events[n - 1], states[n]);
    }
  }

  /** End-to-end safety: the receiver's output is always a prefix of the sender's input, and all of it once ended. */
  lemma {:induction false} EndToEndSafety(states: seq<Link>, events: seq<LinkEvent>, n: nat)
    requires IsPath(states, events) && IsNew(states[0]) && n < |states|
    ensures var l := states[n];
            && l.rcv.reasm.out.written <= l.snd.stream.written
            && (l.rcv.reasm.out.ended ==>
                  l.snd.stream.ended && l.rcv.reasm.out.written == l.snd.stream.written)
  {
    PathInv(states, events, n);
    AgreesMeans(FlowOf(states[n].snd), states[n].snd.AckAbs(), states[n].rcv);
  }

  /** No loss: the receiver stands between the acknowledgment and the next number, and what it lacks is kept. */
  lemma {:induction false} NoLoss(states: seq<Link>, events: seq<LinkEvent>, n: nat, p: nat)
    requires IsPath(states, events) && IsNew(states[0]) && n < |states|
    ensures states[n].snd.AckAbs() <= states[n].rcv.AckAbs() <= states[n].snd.next
    ensures |states[n].rcv.reasm.out.written| <= p < |states[n].snd.stream.written| ==>
              || p >= states[n].snd.stream.read
              || Queued(states[n].snd.queue, states[n].snd.isn, p + 1, states[n].snd.stream.written[p])
  {
    var l := states[n];
    PathInv(states, events, n);
    AgreesMeans(FlowOf(l.snd), l.snd.AckAbs(), l.rcv);
    if |l.rcv.reasm.out.written| <= p < l.snd.stream.read {
      assert !l.rcv.reasm.out.ended;
      UnackedBytesQueued(l.snd, p + 1);
    }
  }

  // ---------------------------------------------------------------- windows, with acknowledgments in order

  function NoteAck(note: Note, isn: U32): nat {
    Offset(note.ackno, isn)
  }

  function NoteEdge(note: Note, isn: U32): nat {
    NoteAck(note, isn) + note.win
  }

  /** Advertised acknowledgments and right edges never move left, and none is past `top` or `edge`. */
  ghost predicate EdgesRise(notes: seq<Note>, isn: U32, top: nat, edge: nat) {
    && (forall i, j :: 0 <= i <= j < |notes| ==>
          NoteAck(notes[i], isn) <= NoteAck(notes[j], isn) && NoteEdge(notes[i], isn) <= NoteEdge(notes[j], isn))
    && (forall j :: 0 <= j < |notes| ==> NoteAck(notes[j], isn) <= top && NoteEdge(notes[j], isn) <= edge)
  }

  lemma {:induction false} EdgesSnoc(notes: seq<Note>, isn: U32, top: nat, edge: nat, note: Note)
    requires EdgesRise(notes, isn, top, edge)
    requires NoteAck(note, isn) == top && NoteEdge(note, isn) == edge
    ensures EdgesRise(notes + [note], isn, top, edge)
  {
    var more := notes + [note];
    forall i, j | 0 <= i <= j < |more|
      ensures NoteAck(more[i], isn) <= NoteAck(more[j], isn) && NoteEdge(more[i], isn) <= NoteEdge(more[j], isn)
    {
      assert i < |notes| ==> more[i] == notes[i];
      assert j < |notes| ==> more[j] == notes[j];
    }
  }

  /** The sender works with the acknowledgment `ack` and the window `win`, and its flight fits. */
  ghost predicate Holds(s: Sender, ack: nat, win: nat) {
    s.AckAbs() == ack && s.window == Max(win, 1) && s.InFlight() <= s.window
  }

  /** An acknowledgment whose number and right edge are no older keeps the flight within its window. */
  lemma {:induction false} AckHolds(s: Sender, ack: nat, win: nat, ackno: U32, window: U16)
    requires SenderInv(s) && Holds(s, ack, win)
    requires ack <= Offset(ackno, s.isn) <= s.next && ack + win <= Offset(ackno, s.isn) + window
    requires Offset(ackno, s.isn) >= 1
    ensures Holds(AckReceived(s, ackno, window), Offset(ackno, s.isn), window)
  {
    AckReceivedInv(s, ackno, window);
    InFlightExact(s);
    InFlightExact(AckReceived(s, ackno, window));
  }

  lemma {:induction false} LocalHolds(s: Sender, e: SenderEvent, s': Sender, ack: nat, win: nat)
    requires SenderInv(s) && Holds(s, ack, win) && !e.Ack? && SenderNext(s, e, s')
    requires |s'.stream.written| <= LIMIT
    ensures Holds(s', ack, win)
  {
    NextInv(s, e, s');
    if e.Fill? {
      FillWithinWindowIff(s);
    } else if e.Elapse? {
      TickInv(s, e.ms);
    }
  }

  /** While notes arrive in order, the sender holds to the newest; before the first, to nothing acknowledged. */
  ghost predicate HoldsLatest(l: Link) {
    && l.latest <= |l.notes|
    && if l.latest == 0 then Holds(l.snd, 0, 0)
       else Holds(l.snd, NoteAck(l.notes[l.latest - 1], l.snd.isn), l.notes[l.latest - 1].win)
  }

  /** The receiver's current acknowledgment and right edge; nothing is advertised before the SYN. */
  ghost predicate Edges(l: Link) {
    && l.rcv.Valid()
    && EdgesRise(l.notes, l.snd.isn, l.rcv.AckAbs(), RightEdge(l.rcv))
    && (l.notes != [] ==> l.rcv.isn.Some?)
  }

  ghost predicate WindowInv(l: Link) {
    Edges(l) && (l.ordered ==> HoldsLatest(l))
  }

  /** A window that is advertised fits its 16-bit field. */
  ghost predicate Untruncated(l: Link, e: LinkEvent)
    requires l.rcv.Valid()
  {
    e.EmitNote? ==> l.rcv.WindowSize() <= 0xFFFF
  }

  lemma {:induction false} ReceiverWindow(l: Link, rcv: Receiver)
    requires LinkInv(l) && WindowInv(l)
    requires Agrees(FlowOf(l.snd), l.snd.AckAbs(), rcv) && ReceiverLe(l.rcv, rcv)
    ensures WindowInv(l.(rcv := rcv))
  {
    if l.rcv.isn.Some? {
      RightEdgeMonotone(FlowOf(l.snd), l.snd.AckAbs(), l.rcv, rcv);
    }
  }

  lemma {:induction false} EmitNoteWindow(l: Link, l': Link)
    requires LinkInv(l) && WindowInv(l) && LinkNext(l, EmitNote, l') && Untruncated(l, EmitNote)
    ensures WindowInv(l')
  {
    EmitNoteInv(l, l');
    EdgesSnoc(l.notes, l.snd.isn, l.rcv.AckAbs(), RightEdge(l.rcv), l'.notes[|l.notes|]);
  }

  lemma {:induction false} DeliverNoteHolds(l: Link, j: nat, l': Link)
    requires LinkInv(l) && Edges(l) && HoldsLatest(l) && LinkNext(l, DeliverNote(j), l') && l.latest <= j + 1
    ensures HoldsLatest(l')
  {
    AgreesMeans(FlowOf(l.snd), l.snd.AckAbs(), l.rcv);
    assert Issued(l.rcv, l.snd.isn, l.notes[j].ackno);
    if l.latest == 0 {
      AckHolds(l.snd, 0, 0, l.notes[j].ackno, l.notes[j].win);
    } else {
      var i: nat := l.latest - 1;
      assert NoteEdge(l.notes[i], l.snd.isn) <= NoteEdge(l.notes[j], l.snd.isn);
      AckHolds(l.snd, NoteAck(l.notes[i], l.snd.isn), l.notes[i].win, l.notes[j].ackno, l.notes[j].win);
    }
  }

  lemma {:induction false} DeliverNoteWindow(l: Link, j: nat, l': Link)
    requires LinkInv(l) && WindowInv(l) && LinkNext(l, DeliverNote(j), l')
    ensures WindowInv(l')
  {
    if l'.ordered {
      DeliverNoteHolds(l, j, l');
    }
  }

  lemma {:induction false} TransmitWindow(l: Link, l': Link)
    requires WindowInv(l) && l' == l.(snd := l.snd.(out := []), net := l'.net)
    ensures WindowInv(l')
  {
  }

  lemma {:induction false} LocalWindow(l: Link, e: SenderEvent, l': Link)
    requires LinkInv(l) && WindowInv(l) && LinkNext(l, Local(e), l') && |l'.snd.stream.written| <= LIMIT
    ensures WindowInv(l')
  {
    NextInv(l.snd, e, l'.snd);
    if l.ordered {
      if l.latest == 0 {
        LocalHolds(l.snd, e, l'.snd, 0, 0);
      } else {
        LocalHolds(l.snd, e, l'.snd, NoteAck(l.notes[l.latest - 1], l.snd.isn), l.notes[l.latest - 1].win);
      }
    }
  }

  lemma {:induction false} StepWindow(l: Link, e: LinkEvent, l': Link)
    requires LinkInv(l) && WindowInv(l) && LinkNext(l, e, l') && |l'.snd.stream.written| <= LIMIT && Untruncated(l, e)
    ensures WindowInv(l')
  {
    match e
    case Local(e) => LocalWindow(l, e, l');
    case Transmit => TransmitWindow(l, l');
    case Deliver(seg, o) => DeliverInv(l, seg, o, l'); ReceiverWindow(l, l'.rcv);
    case ReadOut(n) => ReadAgrees(FlowOf(l.snd), l.snd.AckAbs(), l.rcv, n); ReceiverWindow(l, l'.rcv);
    case EmitNote => EmitNoteWindow(l, l');
    case DeliverNote(j) => DeliverNoteWindow(l, j, l');
  }

  /** With acknowledgments in order the flight never exceeds the window, and the unsigned difference never wraps. */
  lemma {:induction false} OrderedNotesHoldWindow(states: seq<Link>, events: seq<LinkEvent>, n: nat)
    requires IsPath(states, events) && IsNew(states[0]) && n < |states|
    requires forall i :: 0 <= i < n ==> Untruncated(states[i], events[i])
    ensures WindowInv(states[n])
    ensures states[n].ordered ==> states[n].snd.Gap() == states[n].snd.window - states[n].snd.InFlight()
  {
    if n == 0 {
      NewLinkInv(states[0]);
    } else {
      PathInv(states, events, n - 1);
      OrderedNotesHoldWindow(states, events, n - 1);
      assert LinkNext(states[n - 1], events[n - 1], states[n]);
      StepWindow(states[n - 1], events[n - 1], states[n]);
    }
    PathInv(states, events, n);
    InFlightExact(states[n].snd);
  }

  lemma {:induction false} StepCapacity(l: Link, e: LinkEvent, l': Link)
    requires LinkInv(l) && LinkNext(l, e, l')
    ensures l'.rcv.reasm.out.capacity == l.rcv.reasm.out.capacity
  {
    if e.Deliver? {
      DeliverInv(l, e.seg, e.o, l');
    }
  }

  lemma {:induction false} CapacityFixed(states: seq<Link>, events: seq<LinkEvent>, n: nat)
    requires IsPath(states, events) && IsNew(states[0]) && n < |states|
    ensures states[n].rcv.reasm.out.capacity == states[0].rcv.reasm.out.capacity
  {
    if n > 0 {
      PathInv(states, events, n - 1);
      CapacityFixed(states, events, n - 1);
      StepCapacity(states[n - 1], events[n - 1], states[n]);
    }
  }

  /** A capacity of at most 65535 never advertises anything larger. */
  lemma {:induction false} SmallCapacityUntruncated(states: seq<Link>, events: seq<LinkEvent>, n: nat)
    requires IsPath(states, events) && IsNew(states[0]) && n < |events|
    requires states[0].rcv.reasm.out.capacity <= 0xFFFF
    ensures Untruncated(states[n], events[n])
  {
    CapacityFixed(states, events, n);
  }
}
