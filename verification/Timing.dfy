/** When the retransmission timer fires, and how far it has backed off, in every run of the sender. */
module SenderTiming {
  import opened Prelude
  import opened Sending
  import opened SenderInvariants
  import opened SenderRuns

  // ---------------------------------------------------------------- the history, without looking at the timer

  predicate TakesAck(s: Sender, e: SenderEvent) {
    e.Ack? && NewAck(s, e.ackno)
  }

  /** Time is up: something is queued, and the ticks since the countdown started reach the timeout. */
  predicate TimeUp(s: Sender, e: SenderEvent, since: nat) {
    e.Elapse? && s.queue != [] && since + e.ms >= s.rto
  }

  /** A countdown starts when a segment is queued first, when a new acknowledgment leaves some, and when time is up. */
  predicate Starts(s: Sender, e: SenderEvent, s': Sender, since: nat) {
    || (s.queue == [] && s'.queue != [])
    || (TakesAck(s, e) && s'.queue != [])
    || TimeUp(s, e, since)
  }

  /** Milliseconds ticked since the last start of a countdown. */
  function SinceStart(states: seq<Sender>, events: seq<SenderEvent>, n: nat): nat
    requires |states| == |events| + 1 && n < |states|
  {
    if n == 0 then 0
    else
      var s, e, since := states[n - 1], events[n - 1], SinceStart(states, events, n - 1);
      if Starts(s, e, states[n], since) then 0 else since + (if e.Elapse? then e.ms else 0)
  }

  /** How often time was up since the last new acknowledgment. */
  function Expiries(states: seq<Sender>, events: seq<SenderEvent>, n: nat): nat
    requires |states| == |events| + 1 && n < |states|
  {
    if n == 0 then 0
    else
      var s, e := states[n - 1], events[n - 1];
      if TakesAck(s, e) then 0
      else Expiries(states, events, n - 1) + (if TimeUp(s, e, SinceStart(states, events, n - 1)) then 1 else 0)
  }

  /** The last acknowledgment to come in, new or not, offered no window. */
  function Probing(events: seq<SenderEvent>, n: nat): bool
    requires n <= |events|
  {
    n > 0 && if events[n - 1].Ack? then events[n - 1].window == 0 else Probing(events, n - 1)
  }

  /** How often time was up, other than while probing, since the last new acknowledgment. */
  function Backoffs(states: seq<Sender>, events: seq<SenderEvent>, n: nat): nat
    requires |states| == |events| + 1 && n < |states|
  {
    if n == 0 then 0
    else
      var s, e := states[n - 1], events[n - 1];
      if TakesAck(s, e) then 0
      else
        Backoffs(states, events, n - 1)
        + (if TimeUp(s, e, SinceStart(states, events, n - 1)) && !Probing(events, n - 1) then 1 else 0)
  }

  // ---------------------------------------------------------------- one step

  /** The running timer has been counting down from the timeout for `since` milliseconds. */
  ghost predicate Counting(s: Sender, since: nat) {
    s.timer.running ==> s.timer.left + since == s.rto
  }

  /** Filling leaves a running countdown alone, and starts one at the timeout otherwise. */
  lemma {:induction false} FillTimer(s: Sender)
    requires s.stream.Valid() && TimerInv(s)
    ensures var s' := FillWindow(s);
            && TimerInv(s') && s'.rto == s.rto && s'.consecutive == s.consecutive && s'.probe == s.probe
            && s'.initialRto == s.initialRto
            && (s.queue != [] ==> s'.queue != [] && s'.timer == s.timer)
            && (s.queue == [] && s'.queue != [] ==> s'.timer == Timer(true, s.rto))
    decreases Unsent(s)
  {
    if CanSend(s) {
      FillTimer(FillOne(s));
    }
  }

  /** What one step does to everything that has to do with time; `up` says whether time is up. */
  ghost predicate TimeStep(s: Sender, e: SenderEvent, s': Sender, up: bool) {
    && s'.initialRto == s.initialRto
    && s'.probe == (if e.Ack? then e.window == 0 else s.probe)
    && s'.consecutive == (if TakesAck(s, e) then 0 else if up then s.consecutive + 1 else s.consecutive)
    && s'.rto == (if TakesAck(s, e) then s.initialRto
                  else if up && !s.probe then s.rto * 2 % 0x1_0000_0000 else s.rto)
  }

  lemma {:induction false} QuietStep(s: Sender, e: SenderEvent, s': Sender, since: nat)
    requires s.stream.Valid() && TimerInv(s) && Counting(s, since) && SenderNext(s, e, s') && !e.Elapse?
    ensures TimerInv(s') && TimeStep(s, e, s', false)
    ensures Counting(s', if Starts(s, e, s', since) then 0 else since)
  {
    if e.Fill? {
      FillTimer(s);
    }
  }

  lemma {:induction false} ElapseStep(s: Sender, e: SenderEvent, s': Sender, since: nat)
    requires s.stream.Valid() && TimerInv(s) && Counting(s, since) && SenderNext(s, e, s') && e.Elapse?
    ensures TimerInv(s') && TimeStep(s, e, s', TimeUp(s, e, since))
    ensures Counting(s', if Starts(s, e, s', since) then 0 else since + e.ms)
    ensures s' == if TimeUp(s, e, since) then Retransmit(s) else s.(timer := s'.timer)
  {
    assert TimeUp(s, e, since) <==> Expires(s, e.ms);
    if Expires(s, e.ms) {
      RetransmitTimer(s);
    }
  }

  // ---------------------------------------------------------------- whole runs

  /** In every state the running timer shows the timeout less the time since its countdown started. */
  lemma {:induction false} CountdownExact(states: seq<Sender>, events: seq<SenderEvent>, n: nat)
    requires IsRun(states, events) && n < |states|
    ensures TimerInv(states[n])
    ensures states[n].timer.running <==> states[n].queue != []
    ensures states[n].timer.running ==> states[n].timer.left + SinceStart(states, events, n) == states[n].rto
  {
    if n > 0 {
      CountdownExact(states, events, n - 1);
      var s, e, s', since := states[n - 1], events[n - 1], states[n], SinceStart(states, events, n - 1);
      assert SenderNext(s, e, s');
      if e.Elapse? {
        ElapseStep(s, e, s', since);
      } else {
        QuietStep(s, e, s', since);
      }
    }
  }

  /** A tick sends the oldest segment again exactly when its time is up, whatever happened in between. */
  lemma {:induction false} FiresAtTimeout(states: seq<Sender>, events: seq<SenderEvent>, n: nat)
    requires IsRun(states, events) && n < |events| && events[n].Elapse?
    ensures var s, s', since, ms := states[n], states[n + 1], SinceStart(states, events, n), events[n].ms;
            if s.queue != [] && since + ms >= s.rto then
              && s'.out == s.out + [s.queue[0]] && s'.queue == s.queue && s'.consecutive == s.consecutive + 1
              && s'.rto == (if s.probe then s.rto else s.rto * 2 % 0x1_0000_0000)
              && s'.timer == Timer(true, s'.rto) && SinceStart(states, events, n + 1) == 0
            else
              && s'.out == s.out && s' == s.(timer := s'.timer)
              && (s.queue != [] ==> SinceStart(states, events, n + 1) == since + ms)
  {
    CountdownExact(states, events, n);
    assert SenderNext(states[n], events[n], states[n + 1]);
    ElapseStep(states[n], events[n], states[n + 1], SinceStart(states, events, n));
  }

  /** The step of a run, in terms of the history. */
  lemma {:induction false} RunTimeStep(states: seq<Sender>, events: seq<SenderEvent>, n: nat)
    requires IsRun(states, events) && n < |events|
    ensures TimeStep(states[n], events[n], states[n + 1],
                     TimeUp(states[n], events[n], SinceStart(states, events, n)))
  {
    CountdownExact(states, events, n);
    var s, e, s', since := states[n], events[n], states[n + 1], SinceStart(states, events, n);
    assert SenderNext(s, e, s');
    if e.Elapse? {
      ElapseStep(s, e, s', since);
    } else {
      QuietStep(s, e, s', since);
    }
  }

  /** Milliseconds ticked by the events from `k` up to `n`. */
  function Ticked(events: seq<SenderEvent>, k: nat, n: nat): nat
    requires k <= n <= |events|
  {
    if k == n then 0 else Ticked(events, k, n - 1) + (if events[n - 1].Elapse? then events[n - 1].ms else 0)
  }

  /** A run, as far as time goes. */
  ghost predicate Timed(states: seq<Sender>, events: seq<SenderEvent>) {
    && |states| == |events| + 1
    && forall i :: 0 <= i < |events| ==>
         TimeStep(states[i], events[i], states[i + 1], TimeUp(states[i], events[i], SinceStart(states, events, i)))
  }

  lemma {:induction false} RunIsTimed(states: seq<Sender>, events: seq<SenderEvent>)
    requires IsRun(states, events)
    ensures Timed(states, events)
  {
    forall i | 0 <= i < |events|
      ensures TimeStep(states[i], events[i], states[i + 1],
                       TimeUp(states[i], events[i], SinceStart(states, events, i)))
    {
      RunTimeStep(states, events, i);
    }
  }

  lemma {:induction false} QuietStretch(states: seq<Sender>, events: seq<SenderEvent>, k: nat, n: nat)
    requires Timed(states, events) && k <= n < |states|
    requires forall i :: k <= i < n ==> states[i].queue != [] && !TakesAck(states[i], events[i])
    requires SinceStart(states, events, k) + Ticked(events, k, n) < states[k].rto
    ensures SinceStart(states, events, n) == SinceStart(states, events, k) + Ticked(events, k, n)
    ensures states[n].rto == states[k].rto && states[n].consecutive == states[k].consecutive
    decreases n
  {
    if k < n {
      QuietStretch(states, events, k, n - 1);
      var s, e, s', since := states[n - 1], events[n - 1], states[n], SinceStart(states, events, n - 1);
      assert TimeStep(s, e, states[n - 1 + 1], TimeUp(s, e, since));
      assert !TimeUp(s, e, since) && !Starts(s, e, s', since);
    }
  }

  /** While something stays queued and no new acknowledgment comes, nothing but ticks brings the timeout nearer. */
  lemma {:induction false} QuietBeforeTimeout(states: seq<Sender>, events: seq<SenderEvent>, k: nat, n: nat)
    requires IsRun(states, events) && k <= n < |states|
    requires forall i :: k <= i < n ==> states[i].queue != [] && !TakesAck(states[i], events[i])
    requires SinceStart(states, events, k) + Ticked(events, k, n) < states[k].rto
    ensures SinceStart(states, events, n) == SinceStart(states, events, k) + Ticked(events, k, n)
    ensures states[n].rto == states[k].rto && states[n].consecutive == states[k].consecutive
  {
    RunIsTimed(states, events);
    QuietStretch(states, events, k, n);
  }

  /** The retransmission count is the number of times that time was up since the last new acknowledgment. */
  lemma {:induction false} CountExact(states: seq<Sender>, events: seq<SenderEvent>, n: nat)
    requires IsRun(states, events) && n < |states|
    ensures states[n].consecutive == Expiries(states, events, n)
    ensures states[n].initialRto == states[0].initialRto && states[n].probe == Probing(events, n)
  {
    if n > 0 {
      CountExact(states, events, n - 1);
      RunTimeStep(states, events, n - 1);
    }
  }

  lemma {:induction false} DoubledModulo(x: nat, r: nat)
    requires r == x % 0x1_0000_0000
    ensures r * 2 % 0x1_0000_0000 == 2 * x % 0x1_0000_0000
  {
    var q := x / 0x1_0000_0000;
    assert 2 * x == 0x1_0000_0000 * (2 * q) + 2 * r;
  }

  /** `k` doublings, each cut to 32 bits. */
  function BackedOff(initial: U16, k: nat): U32 {
    if k == 0 then initial else BackedOff(initial, k - 1) * 2 % 0x1_0000_0000
  }

  lemma {:induction false} BackedOffIs(initial: U16, k: nat)
    ensures BackedOff(initial, k) == Doubled(initial, k) % 0x1_0000_0000
  {
    if k > 0 {
      BackedOffIs(initial, k - 1);
      DoubledModulo(Doubled(initial, k - 1), BackedOff(initial, k - 1));
    }
  }

  lemma {:induction false} BackedOffRuns(states: seq<Sender>, events: seq<SenderEvent>, n: nat)
    requires IsRun(states, events) && n < |states|
    ensures states[n].rto == BackedOff(states[0].initialRto, Backoffs(states, events, n))
  {
    if n > 0 {
      BackedOffRuns(states, events, n - 1);
      CountExact(states, events, n - 1);
      RunTimeStep(states, events, n - 1);
    }
  }

  /** The timeout is the initial one, doubled each time it ran out other than while probing, modulo 2^32. */
  lemma {:induction false} TimeoutExact(states: seq<Sender>, events: seq<SenderEvent>, n: nat)
    requires IsRun(states, events) && n < |states|
    ensures states[n].rto == Doubled(states[0].initialRto, Backoffs(states, events, n)) % 0x1_0000_0000
  {
    BackedOffRuns(states, events, n);
    BackedOffIs(states[0].initialRto, Backoffs(states, events, n));
  }
}
