/** The interface over whole runs, against a history with time stamps instead of countdowns. */
module ArpHistory {
  import opened Prelude
  import opened Ipv4
  import opened Arp

  ghost predicate IsRun(states: seq<Iface>, events: seq<Event>) {
    && |states| == |events| + 1
    && (exists mac, ip :: states[0] == NewIface(mac, ip))
    && forall n :: 0 <= n < |events| ==> states[n + 1] == Step(states[n], events[n])
  }

  // ---------------------------------------------------------------- the history

  /** Milliseconds ticked before event `n`. */
  function Now(events: seq<Event>, n: nat): nat
    requires n <= |events|
  {
    if n == 0 then 0 else Now(events, n - 1) + (if events[n - 1].Elapse? then events[n - 1].ms else 0)
  }

  datatype Lesson = Lesson(time: nat, mac: Mac)

  /** When, and with what address, `ip` last spoke ARP to the interface. */
  function LastLesson(i: Iface, events: seq<Event>, n: nat, ip: U32): Option<Lesson>
    requires n <= |events|
  {
    if n == 0 then None
    else if Learns(i, events[n - 1], ip) then
      Some(Lesson(Now(events, n - 1), events[n - 1].frame.payload.msg.senderMac))
    else LastLesson(i, events, n - 1, ip)
  }

  predicate FreshAt(l: Option<Lesson>, now: nat) {
    l.Some? && l.value.time <= now < l.value.time + CACHE_MS
  }

  /** The event makes the interface broadcast a request for `ip`, as `RequestOnlyOnSend` shows. */
  predicate Asks(i: Iface, e: Event, ip: U32) {
    e.Send? && e.hop == ip && ip !in i.cache && ip !in i.requests
  }

  /** When a request for `ip` was last broadcast. */
  function LastAsked(states: seq<Iface>, events: seq<Event>, n: nat, ip: U32): Option<nat>
    requires n <= |events| && |states| == |events| + 1
  {
    if n == 0 then None
    else if Asks(states[n - 1], events[n - 1], ip) then Some(Now(events, n - 1))
    else LastAsked(states, events, n - 1, ip)
  }

  function SentTo(events: seq<Event>, n: nat, hop: U32): seq<Ipv4Datagram>
    requires n <= |events|
  {
    if n == 0 then []
    else SentTo(events, n - 1, hop)
         + (if events[n - 1].Send? && events[n - 1].hop == hop then [events[n - 1].dgram] else [])
  }

  /** The datagrams among some frames that go to a hop. */
  function OnlyTo(outs: seq<Out>, hop: U32): seq<Ipv4Datagram> {
    if outs == [] then []
    else (if outs[0].ToHop? && outs[0].hop == hop then [outs[0].dgram] else []) + OnlyTo(outs[1..], hop)
  }

  function FramedTo(states: seq<Iface>, events: seq<Event>, n: nat, hop: U32): seq<Ipv4Datagram>
    requires n <= |events| && |states| == |events| + 1
  {
    if n == 0 then [] else FramedTo(states, events, n - 1, hop) + OnlyTo(Emits(states[n - 1], events[n - 1]), hop)
  }

  lemma {:induction false} SameMac(states: seq<Iface>, events: seq<Event>, n: nat)
    requires IsRun(states, events) && n < |states|
    ensures states[n].mac == states[0].mac && states[n].ip == states[0].ip
  {
    if n > 0 {
      SameMac(states, events, n - 1);
    }
  }

  // ---------------------------------------------------------------- lookups

  /** The cache entry for `ip` is exactly what the history says it is. */
  ghost predicate CacheAgrees(i: Iface, ip: U32, l: Option<Lesson>, now: nat) {
    && (l.Some? ==> l.value.time <= now)
    && (ip in i.cache <==> FreshAt(l, now))
    && (ip in i.cache ==> i.cache[ip] == Entry(l.value.mac, l.value.time + CACHE_MS - now))
  }

  lemma {:induction false} StepCache(i: Iface, e: Event, ip: U32, l: Option<Lesson>, now: nat)
    requires CacheAgrees(i, ip, l, now)
    ensures CacheAgrees(Step(i, e), ip,
                        if Learns(i, e, ip) then Some(Lesson(now, e.frame.payload.msg.senderMac)) else l,
                        now + (if e.Elapse? then e.ms else 0))
  {
  }

  /** A lookup succeeds exactly when the last ARP message from `ip` is under 30 s old, and yields its address. */
  lemma {:induction false} LookupExact(states: seq<Iface>, events: seq<Event>, n: nat, ip: U32)
    requires IsRun(states, events) && n < |states|
    ensures CacheAgrees(states[n], ip, LastLesson(states[0], events, n, ip), Now(events, n))
  {
    if n > 0 {
      LookupExact(states, events, n - 1, ip);
      SameMac(states, events, n - 1);
      StepCache(states[n - 1], events[n - 1], ip, LastLesson(states[0], events, n - 1, ip), Now(events, n - 1));
    }
  }

  lemma {:induction false} ToHopsAll(hop: U32, dgrams: seq<Ipv4Datagram>, dst: Mac)
    ensures forall o :: o in ToHops(hop, dgrams, dst) ==> o.ToHop? && o.hop == hop && o.dst == dst
    ensures OnlyTo(ToHops(hop, dgrams, dst), hop) == dgrams
    ensures forall other :: other != hop ==> OnlyTo(ToHops(hop, dgrams, dst), other) == []
    decreases dgrams
  {
    if dgrams != [] {
      ToHopsAll(hop, dgrams[1..], dst);
    }
  }

  /** Every IPv4 frame carries the address its hop last announced, less than 30 s before. */
  lemma {:induction false} FramesUseFreshAddress(states: seq<Iface>, events: seq<Event>, n: nat, o: Out)
    requires IsRun(states, events) && n < |events| && o in Emits(states[n], events[n]) && o.ToHop?
    ensures var l := LastLesson(states[0], events, n + 1, o.hop); FreshAt(l, Now(events, n)) && l.value.mac == o.dst
  {
    LookupExact(states, events, n, o.hop);
    SameMac(states, events, n);
    if events[n].Recv? {
      var m := events[n].frame.payload.msg;
      ToHopsAll(m.senderIp, Pending(states[n], m.senderIp), m.senderMac);
    }
  }

  // ---------------------------------------------------------------- requests

  ghost predicate RequestAgrees(i: Iface, ip: U32, asked: Option<nat>, now: nat) {
    && (asked.Some? ==> asked.value <= now)
    && (ip in i.requests <==> asked.Some? && now < asked.value + REQUEST_MS)
    && (ip in i.requests ==> i.requests[ip] == asked.value + REQUEST_MS - now)
  }

  lemma {:induction false} RequestOnlyOnSend(i: Iface, e: Event, ip: U32)
    ensures Request(ip) in Emits(i, e) <==> Asks(i, e, ip)
  {
    if e.Recv? && Accepts(i, e.frame) && e.frame.payload.ArpPayload? {
      var m := e.frame.payload.msg;
      ToHopsAll(m.senderIp, Pending(i, m.senderIp), m.senderMac);
    }
  }

  lemma {:induction false} StepRequests(i: Iface, e: Event, ip: U32, asked: Option<nat>, now: nat)
    requires RequestAgrees(i, ip, asked, now)
    ensures RequestAgrees(Step(i, e), ip, if Asks(i, e, ip) then Some(now) else asked,
                          now + (if e.Elapse? then e.ms else 0))
  {
  }

  lemma {:induction false} RequestsExact(states: seq<Iface>, events: seq<Event>, n: nat, ip: U32)
    requires IsRun(states, events) && n < |states|
    ensures RequestAgrees(states[n], ip, LastAsked(states, events, n, ip), Now(events, n))
  {
    if n > 0 {
      RequestsExact(states, events, n - 1, ip);
      StepRequests(states[n - 1], events[n - 1], ip, LastAsked(states, events, n - 1, ip), Now(events, n - 1));
    }
  }

  lemma {:induction false} NowMono(events: seq<Event>, k: nat, n: nat)
    requires k <= n <= |events|
    ensures Now(events, k) <= Now(events, n)
    decreases n
  {
    if k < n {
      NowMono(events, k, n - 1);
    }
  }

  lemma {:induction false} LastAskedIsLast(states: seq<Iface>, events: seq<Event>, k: nat, n: nat, ip: U32)
    requires |states| == |events| + 1 && k < n <= |events| && Asks(states[k], events[k], ip)
    ensures LastAsked(states, events, n, ip).Some? && LastAsked(states, events, n, ip).value >= Now(events, k)
    decreases n
  {
    NowMono(events, k, n - 1);
    if k < n - 1 {
      LastAskedIsLast(states, events, k, n - 1, ip);
    }
  }

  /** Two requests for one address are at least five seconds of ticks apart, however the ticks are cut. */
  lemma {:induction false} RequestsApart(states: seq<Iface>, events: seq<Event>, k: nat, n: nat, ip: U32)
    requires IsRun(states, events) && k < n < |events|
    requires Request(ip) in Emits(states[k], events[k]) && Request(ip) in Emits(states[n], events[n])
    ensures Now(events, n) >= Now(events, k) + REQUEST_MS
  {
    RequestsExact(states, events, n, ip);
    RequestOnlyOnSend(states[n], events[n], ip);
    RequestOnlyOnSend(states[k], events[k], ip);
    LastAskedIsLast(states, events, k, n, ip);
  }

  // ---------------------------------------------------------------- conservation

  lemma {:induction false} OnlyToConcat(a: seq<Out>, b: seq<Out>, hop: U32)
    ensures OnlyTo(a + b, hop) == OnlyTo(a, hop) + OnlyTo(b, hop)
    decreases a
  {
    if a == [] {
      assert a + b == b;
    } else {
      assert (a + b)[1..] == a[1..] + b;
      OnlyToConcat(a[1..], b, hop);
    }
  }

  lemma {:induction false} StepConserves(i: Iface, e: Event, hop: U32)
    requires hop in i.cache ==> Pending(i, hop) == []
    ensures hop in Step(i, e).cache ==> Pending(Step(i, e), hop) == []
    ensures OnlyTo(Emits(i, e), hop) + Pending(Step(i, e), hop)
         == Pending(i, hop) + (if e.Send? && e.hop == hop then [e.dgram] else [])
  {
    if e.Recv? && Accepts(i, e.frame) && e.frame.payload.ArpPayload? {
      var m := e.frame.payload.msg;
      ToHopsAll(m.senderIp, Pending(i, m.senderIp), m.senderMac);
      OnlyToConcat(Drained(i, m), Answers(i, m), hop);
      assert OnlyTo(Answers(i, m), hop) == [];
    }
  }

  lemma {:induction false} HandOver<T>(framed: seq<T>, waiting: seq<T>, sent: seq<T>, out: seq<T>, waiting': seq<T>,
                                       more: seq<T>)
    requires framed + waiting == sent && out + waiting' == waiting + more
    ensures framed + out + waiting' == sent + more
  {
    SeqAssoc(framed, out, waiting');
    SeqAssoc(framed, waiting, more);
  }

  lemma {:induction false} StepHandsOver(i: Iface, e: Event, hop: U32, framed: seq<Ipv4Datagram>,
                                         sent: seq<Ipv4Datagram>)
    requires framed + Pending(i, hop) == sent && (hop in i.cache ==> Pending(i, hop) == [])
    ensures var more := if e.Send? && e.hop == hop then [e.dgram] else [];
            framed + OnlyTo(Emits(i, e), hop) + Pending(Step(i, e), hop) == sent + more
    ensures hop in Step(i, e).cache ==> Pending(Step(i, e), hop) == []
  {
    StepConserves(i, e, hop);
    HandOver(framed, Pending(i, hop), sent, OnlyTo(Emits(i, e), hop), Pending(Step(i, e), hop),
             if e.Send? && e.hop == hop then [e.dgram] else []);
  }

  /** For every hop, what was framed, in order, followed by what waits, is what was given to be sent. */
  lemma {:induction false} NothingLostOrReordered(states: seq<Iface>, events: seq<Event>, n: nat, hop: U32)
    requires IsRun(states, events) && n < |states|
    ensures FramedTo(states, events, n, hop) + Pending(states[n], hop) == SentTo(events, n, hop)
    ensures hop in states[n].cache ==> Pending(states[n], hop) == []
  {
    if n > 0 {
      var i, e := states[n - 1], events[n - 1];
      NothingLostOrReordered(states, events, n - 1, hop);
      StepHandsOver(i, e, hop, FramedTo(states, events, n - 1, hop), SentTo(events, n - 1, hop));
    }
  }

  // ---------------------------------------------------------------- two interfaces

  /** The request reaches its owner, who learns from it and answers the asker. */
  lemma {:induction false} RequestIsAnswered(i: Iface, j: Iface)
    ensures var ask := FrameOf(i, Request(j.ip));
            && Emits(j, Recv(ask)) == ToHops(i.ip, Pending(j, i.ip), i.mac) + [Reply(i.mac, i.ip)]
            && Step(j, Recv(ask)).cache[i.ip] == Entry(i.mac, CACHE_MS)
  {
  }

  /** The answer reaches the asker, who sends all that waited to the owner's address. */
  lemma {:induction false} AnswerResolves(i: Iface, j: Iface)
    ensures var answer := FrameOf(j, Reply(i.mac, i.ip));
            && Emits(i, Recv(answer)) == ToHops(j.ip, Pending(i, j.ip), j.mac)
            && Step(i, Recv(answer)).cache[j.ip] == Entry(j.mac, CACHE_MS)
            && Pending(Step(i, Recv(answer)), j.ip) == []
  {
    var m := ArpMessage(false, j.mac, j.ip, i.mac, i.ip);
    assert Drained(i, m) + Answers(i, m) == ToHops(j.ip, Pending(i, j.ip), j.mac);
  }

  /** The datagrams an interface hands up, frame by frame. */
  function HandedUp(i: Iface, frames: seq<Frame>): seq<Ipv4Datagram> {
    if frames == [] then []
    else
      (if Received(i, frames[0]).Some? then [Received(i, frames[0]).value] else []) + HandedUp(i, frames[1..])
  }

  lemma {:induction false} FramedIsHandedUp(i: Iface, j: Iface, ds: seq<Ipv4Datagram>)
    ensures HandedUp(j, FramesOf(i, ToHops(j.ip, ds, j.mac))) == ds
    decreases ds
  {
    if ds != [] {
      FramedIsHandedUp(i, j, ds[1..]);
    }
  }

  /** The neighbour's last frame is its answer. */
  lemma {:induction false} AnswerIsLast(i: Iface, j: Iface)
    ensures var j1 := Step(j, Recv(FrameOf(i, Request(j.ip))));
            |j1.frames| > |j.frames| && j1.frames[|j1.frames| - 1] == FrameOf(j, Reply(i.mac, i.ip))
  {
    RequestIsAnswered(i, j);
    FramesOfLast(j, ToHops(i.ip, Pending(j, i.ip), i.mac), Reply(i.mac, i.ip));
  }

  /** All that waited is sent in frames the neighbour hands up. */
  lemma {:induction false} AnswerDelivers(i: Iface, j: Iface, j1: Iface)
    requires j1.mac == j.mac && j1.ip == j.ip
    ensures var i2 := Step(i, Recv(FrameOf(j, Reply(i.mac, i.ip))));
            i.frames <= i2.frames && HandedUp(j1, i2.frames[|i.frames|..]) == Pending(i, j.ip)
  {
    AnswerResolves(i, j);
    FramedIsHandedUp(i, j1, Pending(i, j.ip));
    var sent := FramesOf(i, ToHops(j.ip, Pending(i, j.ip), j.mac));
    assert (i.frames + sent)[|i.frames|..] == sent;
  }

  /**
   * A datagram for an unknown neighbour asks for it; once the neighbour has the question and its answer is back, all
   * that waited, and this datagram last, goes out in frames the neighbour hands up, in order.
   */
  lemma {:induction false} ResolutionDelivers(i: Iface, j: Iface, d: Ipv4Datagram)
    requires j.ip !in i.cache && j.ip !in i.requests
    ensures var ask, answer := FrameOf(i, Request(j.ip)), FrameOf(j, Reply(i.mac, i.ip));
            var i1 := Step(i, Send(d, j.ip));
            var j1 := Step(j, Recv(ask));
            var i2 := Step(i1, Recv(answer));
            && i1.frames == i.frames + [ask]
            && |j1.frames| > |j.frames| && j1.frames[|j1.frames| - 1] == answer
            && i1.frames <= i2.frames
            && HandedUp(j1, i2.frames[|i1.frames|..]) == Pending(i, j.ip) + [d]
  {
    var ask := FrameOf(i, Request(j.ip));
    var i1 := Step(i, Send(d, j.ip));
    assert FramesOf(i, [Request(j.ip)]) == [ask];
    assert i1.mac == i.mac && i1.ip == i.ip && Pending(i1, j.ip) == Pending(i, j.ip) + [d];
    AnswerIsLast(i, j);
    AnswerDelivers(i1, j, Step(j, Recv(ask)));
  }

  lemma {:induction false} FramesOfLast(i: Iface, outs: seq<Out>, o: Out)
    ensures FramesOf(i, outs + [o])[|outs|] == FrameOf(i, o)
    decreases outs
  {
    if outs == [] {
      assert outs + [o] == [o];
    } else {
      assert (outs + [o])[1..] == outs[1..] + [o];
      FramesOfLast(i, outs[1..], o);
    }
  }
}
