/** A reset at one endpoint reaches the other, and neither recovers from it. */
module Resets {
  import opened Reassembly
  import opened TcpSegments
  import opened Connections
  import opened ConnectionRuns
  import opened ConnectionEnds
  import opened TwoParty
  import opened Copies
  import opened Closing
  import Completion

  lemma {:induction false} StepKeepsPeerReset(s: Sys, e: SysEvent, s': Sys)
    requires s.a.Valid() && SysNext(s, e, s') && WasReset(s.a)
    ensures WasReset(s'.a)
  {
    match e
    case AtA(e) => StepKeepsReset(s.a, e, s'.a);
    case AtB(e) =>
  }

  /** Once reset, an endpoint stays so whatever either side does. */
  lemma {:induction false} SysResetIsFinal(states: seq<Sys>, events: seq<SysEvent>, k: nat, n: nat)
    requires IsSysRun(states, events) && k <= n < |states| && WasReset(states[k].a)
    ensures WasReset(states[n].a)
    decreases n
  {
    if k < n {
      var m := n - 1;
      SysResetIsFinal(states, events, k, m);
      SysRunInv(states, events, m);
      assert SysNext(states[m], events[m], states[m + 1]);
      StepKeepsPeerReset(states[m], events[m], states[m + 1]);
    }
  }

  /** Any endpoint that takes a reset off the wire is reset for good. */
  lemma {:induction false} RstIsFinal(states: seq<Sys>, events: seq<SysEvent>, k: nat, n: nat)
    requires IsSysRun(states, events) && k < n < |states|
    requires events[k].AtA? && events[k].e.Arrive? && events[k].e.seg.header.rst
    ensures WasReset(states[n].a)
  {
    SysRunInv(states, events, k);
    assert SysNext(states[k], events[k], states[k + 1]);
    ArriveKeepsReset(states[k].a, events[k].e.seg, events[k].e.o);
    SysResetIsFinal(states, events, k + 1, n);
  }

  lemma {:induction false} ArriveWrites(c: Conn, seg: TcpSegment, o: Oracle)
    requires ConnInv(c)
    ensures SegmentReceived(c, seg, o).snd.stream.written == c.snd.stream.written
  {
    NoteFlagsInv(c, seg);
    var c1 := TakePayload(NoteFlags(c, seg), seg, o);
    TakeAckInv(c1, seg);
    TakeAckAhead(c1, seg);
    AnswerAhead(TakeAck(c1, seg), seg);
  }

  lemma {:induction false} TakesRst(s: Sys, rst: TcpSegment, o: Oracle, end: Sys)
    requires Sound(s) && rst in s.ab && Fits(o, s.b.rcv.reasm.store) && end == s.(b := SegmentReceived(s.b, rst, o))
    ensures StepA(s.Flip(), Arrive(rst, o), end.Flip()) && WithinLimit(end)
  {
    ArriveWrites(s.b, rst, o);
  }

  lemma {:induction false} ArriveRst(l: Sys, s: Sys, rst: TcpSegment) returns (end: Sys)
    requires SysReaches(l, s) && Sound(s) && rst in s.ab && rst.header.rst
    ensures SysReaches(l, end) && end.a == s.a && WasReset(end.b)
  {
    var o := Completion.SomeOracle(s.b.rcv.reasm.store);
    end := s.(b := SegmentReceived(s.b, rst, o));
    TakesRst(s, rst, o, end);
    PeerStepOn(l, s, Arrive(rst, o), end);
    ArriveKeepsReset(s.b, rst, o);
  }

  lemma {:induction false} DeliverRst(s: Sys, rst: TcpSegment) returns (end: Sys)
    requires Sound(s) && s.a.out == [rst] && rst.header.rst && WasReset(s.a)
    ensures SysReaches(s, end) && WasReset(end.a) && WasReset(end.b)
  {
    SysReachesSelf(s);
    var s1 := s.(a := s.a.(out := []), ab := NetAfter(s.a, Take, s.ab));
    StepOn(s, s, Take, s1);
    assert rst == s.a.out[0] && rst in s1.ab;
    end := ArriveRst(s, s1, rst);
  }

  /** An open endpoint that is dropped or gives up has a reset for its peer, and delivering it resets the peer too. */
  lemma {:induction false} ResetReachesPeer(states: seq<Sys>, events: seq<SysEvent>, n: nat)
    returns (rst: TcpSegment, end: Sys)
    requires IsSysRun(states, events) && n < |events| && events[n].AtA?
    requires ResetsItself(states[n].a, events[n].e, states[n + 1].a)
    ensures states[n + 1].a.out == [rst] && rst.header.rst && WasReset(states[n + 1].a)
    ensures SysReaches(states[n + 1], end) && WasReset(end.a) && WasReset(end.b)
  {
    RunLive(states, events, n);
    RunLive(states, events, n + 1);
    assert SysNext(states[n], events[n], states[n + 1]);
    ResetSendsRst(states[n].a, events[n].e, states[n + 1].a);
    rst := states[n + 1].a.out[0];
    end := DeliverRst(states[n + 1], rst);
  }
}
