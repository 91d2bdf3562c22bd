/** Longest-prefix-match forwarding (libsponge/router.cc), section 5.2.4.3 of RFC 1812, as functions. */
module Routing {
  import opened Prelude
  import opened Ipv4
  import opened Arp

  // ---------------------------------------------------------------- bit masks

  /** Bitwise and of two unsigned numbers. */
  function BitAnd(a: nat, b: nat): nat {
    if a == 0 || b == 0 then 0 else 2 * BitAnd(a / 2, b / 2) + (a % 2) * (b % 2)
  }

  /** `x` shifted right by `k` bits. */
  function Halved(x: nat, k: nat): nat {
    if k == 0 then x else Halved(x / 2, k - 1)
  }

  /** `n` ones followed by `32 - n` zeros, as `construct_binary_with_ones` builds it. */
  function Mask(n: nat): nat
    requires n <= 32
  {
    DoubledPositive(1, n);
    Doubled(Doubled(1, n) - 1, 32 - n)
  }

  lemma {:induction false} DoubledPositive(x: nat, n: nat)
    requires x >= 1
    ensures Doubled(x, n) >= 1
  {
    if n > 0 {
      DoubledPositive(x, n - 1);
    }
  }

  lemma {:induction false} AndDoubled(x: nat, m: nat, k: nat)
    ensures BitAnd(x, Doubled(m, k)) == Doubled(BitAnd(Halved(x, k), m), k)
    decreases k
  {
    if k > 0 {
      AndDoubled(x / 2, m, k - 1);
      AndEven(x, Doubled(m, k - 1));
    }
  }

  lemma {:induction false} AndEven(x: nat, m: nat)
    ensures BitAnd(x, 2 * m) == 2 * BitAnd(x / 2, m)
  {
  }

  lemma {:induction false} AndOnes(y: nat, n: nat)
    requires y < Doubled(1, n)
    ensures BitAnd(y, Doubled(1, n) - 1) == y
    decreases n
  {
    if n > 0 && y > 0 {
      AndOnes(y / 2, n - 1);
      DoubledPositive(1, n - 1);
      assert (Doubled(1, n) - 1) / 2 == Doubled(1, n - 1) - 1;
    }
  }

  lemma {:induction false} HalvedBelow(x: nat, n: nat, k: nat)
    requires x < Doubled(1, n + k)
    ensures Halved(x, k) < Doubled(1, n)
    decreases k
  {
    if k > 0 {
      HalvedBelow(x / 2, n, k - 1);
    }
  }

  lemma {:induction false} DoubledInjective(a: nat, b: nat, k: nat)
    ensures Doubled(a, k) == Doubled(b, k) <==> a == b
  {
    if k > 0 {
      DoubledInjective(a, b, k - 1);
    }
  }

  lemma {:induction false} Two32()
    ensures Doubled(1, 32) == 0x1_0000_0000
  {
    assert Doubled(1, 2) == 4;
    Times4(2);
    Times4(4);
    Times4(6);
    Times4(8);
    Times4(10);
    Times4(12);
    Times4(14);
    Times4(16);
    Times4(18);
    Times4(20);
    Times4(22);
    Times4(24);
    Times4(26);
    Times4(28);
    Times4(30);
  }

  lemma {:induction false} Times4(n: nat)
    ensures Doubled(1, n + 2) == 4 * Doubled(1, n)
  {
    assert Doubled(1, n + 1) == 2 * Doubled(1, n);
  }

  /** Masking keeps the top `n` bits of an address and clears the rest. */
  lemma {:induction false} MaskedIs(x: U32, n: nat)
    requires n <= 32
    ensures BitAnd(x, Mask(n)) == Doubled(Halved(x, 32 - n), 32 - n)
  {
    Two32();
    DoubledPositive(1, n);
    HalvedBelow(x, n, 32 - n);
    AndDoubled(x, Doubled(1, n) - 1, 32 - n);
    AndOnes(Halved(x, 32 - n), n);
  }

  // ---------------------------------------------------------------- the table

  datatype Route = Route(prefix: U32, length: Byte, nextHop: Option<U32>, iface: nat)

  /** Prefix lengths a 32-bit mask can express. */
  predicate ValidRoute(r: Route) {
    r.length <= 32
  }

  /** The mask test of the source. */
  predicate Matches(r: Route, dst: U32)
    requires ValidRoute(r)
  {
    BitAnd(r.prefix, Mask(r.length)) == BitAnd(dst, Mask(r.length))
  }

  /** It compares exactly the top `length` bits. */
  lemma {:induction false} MatchesTopBits(r: Route, dst: U32)
    requires ValidRoute(r)
    ensures Matches(r, dst) <==> Halved(r.prefix, 32 - r.length) == Halved(dst, 32 - r.length)
  {
    MaskedIs(r.prefix, r.length);
    MaskedIs(dst, r.length);
    DoubledInjective(Halved(r.prefix, 32 - r.length), Halved(dst, 32 - r.length), 32 - r.length);
  }

  ghost predicate ValidTable(table: seq<Route>) {
    forall i :: 0 <= i < |table| ==> ValidRoute(table[i])
  }

  /** No matching route is longer, and none as long was added later. */
  ghost predicate IsBest(table: seq<Route>, dst: U32, i: nat)
    requires ValidTable(table)
  {
    && i < |table| && Matches(table[i], dst)
    && forall j :: 0 <= j < |table| && Matches(table[j], dst) ==>
         table[j].length < table[i].length || (table[j].length == table[i].length && j <= i)
  }

  ghost predicate NoMatch(table: seq<Route>, dst: U32)
    requires ValidTable(table)
  {
    forall j :: 0 <= j < |table| ==> !Matches(table[j], dst)
  }

  lemma {:induction false} BestIsUnique(table: seq<Route>, dst: U32, i: nat, k: nat)
    requires ValidTable(table) && IsBest(table, dst, i) && IsBest(table, dst, k)
    ensures i == k
  {
  }

  lemma {:induction false} BestExists(table: seq<Route>, dst: U32) returns (i: nat)
    requires ValidTable(table) && !NoMatch(table, dst)
    ensures IsBest(table, dst, i)
    decreases |table|
  {
    var last := |table| - 1;
    var shorter := table[..last];
    if NoMatch(shorter, dst) {
      i := last;
    } else {
      i := BestExists(shorter, dst);
      if Matches(table[last], dst) && table[last].length >= table[i].length {
        i := last;
      }
    }
  }

  // ---------------------------------------------------------------- one datagram

  datatype Decision = Discard | Forward(iface: nat, dgram: Ipv4Datagram, hop: U32)

  function Aged(d: Ipv4Datagram): Ipv4Datagram
    requires d.header.ttl >= 1
  {
    d.(header := d.header.(ttl := d.header.ttl - 1))
  }

  /** What section 5.2.4.3 asks for: the best route decides, and a datagram out of life or routes is dropped. */
  ghost function Decide(table: seq<Route>, d: Ipv4Datagram): Decision
    requires ValidTable(table)
  {
    if d.header.ttl <= 1 || NoMatch(table, d.header.dst) then Discard
    else
      BestIsThere(table, d.header.dst);
      var i: nat :| IsBest(table, d.header.dst, i);
      Forward(table[i].iface, Aged(d),
              if table[i].nextHop.Some? then table[i].nextHop.value else d.header.dst)
  }

  lemma {:induction false} BestIsThere(table: seq<Route>, dst: U32)
    requires ValidTable(table) && !NoMatch(table, dst)
    ensures exists i: nat :: IsBest(table, dst, i)
  {
    var i := BestExists(table, dst);
  }

  lemma {:induction false} DecideByBest(table: seq<Route>, d: Ipv4Datagram, i: nat)
    requires ValidTable(table) && IsBest(table, d.header.dst, i) && d.header.ttl > 1
    ensures Decide(table, d) == Forward(table[i].iface, Aged(d),
                                        if table[i].nextHop.Some? then table[i].nextHop.value else d.header.dst)
  {
    assert !NoMatch(table, d.header.dst);
    var k: nat :| IsBest(table, d.header.dst, k) && Decide(table, d).Forward?
      && Decide(table, d) == Forward(table[k].iface, Aged(d),
                                     if table[k].nextHop.Some? then table[k].nextHop.value else d.header.dst);
    BestIsUnique(table, d.header.dst, i, k);
  }

  ghost function DecideAll(table: seq<Route>, ds: seq<Ipv4Datagram>): seq<Decision>
    requires ValidTable(table)
  {
    if ds == [] then [] else [Decide(table, ds[0])] + DecideAll(table, ds[1..])
  }

  /** What the decisions ask of interface `j`, in order. */
  function SendsFor(ds: seq<Decision>, j: nat): seq<Event> {
    if ds == [] then []
    else (if ds[0].Forward? && ds[0].iface == j then [Send(ds[0].dgram, ds[0].hop)] else []) + SendsFor(ds[1..], j)
  }

  function Steps(i: Iface, es: seq<Event>): Iface
    decreases es
  {
    if es == [] then i else Steps(Step(i, es[0]), es[1..])
  }

  /** Interface `j` after the decisions that concern it. */
  function Deliver(i: Iface, ds: seq<Decision>, j: nat): Iface
    decreases ds
  {
    if ds == [] then i
    else
      Deliver(if ds[0].Forward? && ds[0].iface == j then Step(i, Send(ds[0].dgram, ds[0].hop)) else i, ds[1..], j)
  }

  /** It is a run of `send_datagram` calls, one for each decision that names the interface, in order. */
  lemma {:induction false} DeliverIsSends(i: Iface, ds: seq<Decision>, j: nat)
    ensures Deliver(i, ds, j) == Steps(i, SendsFor(ds, j))
    decreases ds
  {
    if ds != [] {
      var more := SendsFor(ds[1..], j);
      if ds[0].Forward? && ds[0].iface == j {
        var send := Send(ds[0].dgram, ds[0].hop);
        DeliverIsSends(Step(i, send), ds[1..], j);
        assert ([send] + more)[1..] == more;
      } else {
        DeliverIsSends(i, ds[1..], j);
        assert [] + more == more;
      }
    }
  }

  lemma {:induction false} DeliverConcat(i: Iface, ds: seq<Decision>, es: seq<Decision>, j: nat)
    ensures Deliver(i, ds + es, j) == Deliver(Deliver(i, ds, j), es, j)
    decreases ds
  {
    if ds == [] {
      assert ds + es == es;
    } else {
      assert (ds + es)[1..] == ds[1..] + es;
      DeliverConcat(if ds[0].Forward? && ds[0].iface == j then Step(i, Send(ds[0].dgram, ds[0].hop)) else i,
                    ds[1..], es, j);
    }
  }

  lemma {:induction false} DecideConcat(table: seq<Route>, ds: seq<Ipv4Datagram>, es: seq<Ipv4Datagram>)
    requires ValidTable(table)
    ensures DecideAll(table, ds + es) == DecideAll(table, ds) + DecideAll(table, es)
    decreases ds
  {
    if ds == [] {
      assert ds + es == es;
    } else {
      assert (ds + es)[1..] == ds[1..] + es;
      DecideConcat(table, ds[1..], es);
    }
  }

  /** All interfaces after routing some datagrams. */
  ghost function RouteAll(views: seq<Iface>, table: seq<Route>, ds: seq<Ipv4Datagram>): (after: seq<Iface>)
    requires ValidTable(table)
    ensures |after| == |views|
  {
    seq(|views|, j requires 0 <= j < |views| => Deliver(views[j], DecideAll(table, ds), j))
  }

  lemma {:induction false} RouteDiscarded(views: seq<Iface>, table: seq<Route>, d: Ipv4Datagram)
    requires ValidTable(table) && Decide(table, d) == Discard
    ensures RouteAll(views, table, [d]) == views
  {
    assert DecideAll(table, [d]) == [Discard];
    assert forall j :: 0 <= j < |views| ==> Deliver(views[j], [Discard], j) == views[j];
  }

  lemma {:induction false} RouteForwarded(views: seq<Iface>, table: seq<Route>, d: Ipv4Datagram, k: nat, e: Event)
    requires ValidTable(table) && k < |views| && e.Send?
    requires Decide(table, d) == Forward(k, e.dgram, e.hop)
    ensures RouteAll(views, table, [d]) == views[k := Step(views[k], e)]
  {
    var one := [Forward(k, e.dgram, e.hop)];
    assert DecideAll(table, [d]) == one;
    assert forall j :: 0 <= j < |views| && j != k ==> Deliver(views[j], one, j) == views[j];
    assert Deliver(views[k], one, k) == Step(views[k], e);
  }

  /** Routing more datagrams after some is routing all of them. */
  lemma {:induction false} RouteMore(views: seq<Iface>, table: seq<Route>, ds: seq<Ipv4Datagram>,
                                     es: seq<Ipv4Datagram>)
    requires ValidTable(table)
    ensures RouteAll(RouteAll(views, table, ds), table, es) == RouteAll(views, table, ds + es)
  {
    DecideConcat(table, ds, es);
    forall j | 0 <= j < |views|
      ensures RouteAll(RouteAll(views, table, ds), table, es)[j] == RouteAll(views, table, ds + es)[j]
    {
      DeliverConcat(views[j], DecideAll(table, ds), DecideAll(table, es), j);
    }
  }

  // ---------------------------------------------------------------- where a batch of datagrams goes

  /** The datagram has life left and a route. */
  ghost predicate Routable(table: seq<Route>, d: Ipv4Datagram)
    requires ValidTable(table)
  {
    d.header.ttl > 1 && !NoMatch(table, d.header.dst)
  }

  /** The next hop of the best route, or the destination itself where the network is attached. */
  ghost function NextHop(table: seq<Route>, dst: U32): U32
    requires ValidTable(table) && !NoMatch(table, dst)
  {
    BestIsThere(table, dst);
    var i: nat :| IsBest(table, dst, i);
    if table[i].nextHop.Some? then table[i].nextHop.value else dst
  }

  /** How often `e` should go out: once for each routable datagram that, one hop older, makes it. */
  ghost function DueTimes(table: seq<Route>, ds: seq<Ipv4Datagram>, e: Event): nat
    requires ValidTable(table)
  {
    if ds == [] then 0
    else
      (if Routable(table, ds[0]) && e == Send(Aged(ds[0]), NextHop(table, ds[0].header.dst)) then 1 else 0)
      + DueTimes(table, ds[1..], e)
  }

  function Times(es: seq<Event>, e: Event): nat {
    if es == [] then 0 else (if es[0] == e then 1 else 0) + Times(es[1..], e)
  }

  /** How often the decisions send `e` on the first `n` interfaces together. */
  function SentTimes(ds: seq<Decision>, n: nat, e: Event): nat {
    if n == 0 then 0 else SentTimes(ds, n - 1, e) + Times(SendsFor(ds, n - 1), e)
  }

  lemma {:induction false} SendsForFirst(ds: seq<Decision>, j: nat, e: Event)
    requires ds != []
    ensures Times(SendsFor(ds, j), e) == Times(SendsFor(ds[1..], j), e)
              + (if ds[0].Forward? && ds[0].iface == j && e == Send(ds[0].dgram, ds[0].hop) then 1 else 0)
  {
    var rest := SendsFor(ds[1..], j);
    if ds[0].Forward? && ds[0].iface == j {
      assert ([Send(ds[0].dgram, ds[0].hop)] + rest)[1..] == rest;
    } else {
      assert [] + rest == rest;
    }
  }

  lemma {:induction false} SentTimesFirst(ds: seq<Decision>, n: nat, e: Event)
    requires ds != []
    ensures SentTimes(ds, n, e) == SentTimes(ds[1..], n, e)
              + (if ds[0].Forward? && ds[0].iface < n && e == Send(ds[0].dgram, ds[0].hop) then 1 else 0)
  {
    if n > 0 {
      SentTimesFirst(ds, n - 1, e);
      SendsForFirst(ds, n - 1, e);
    }
  }

  lemma {:induction false} NothingSent(n: nat, e: Event)
    ensures SentTimes([], n, e) == 0
  {
    if n > 0 {
      NothingSent(n - 1, e);
    }
  }

  lemma {:induction false} DecidedIsDue(table: seq<Route>, d: Ipv4Datagram)
    requires ValidTable(table)
    ensures Decide(table, d).Forward? <==> Routable(table, d)
    ensures Routable(table, d) ==>
              && Decide(table, d).dgram == Aged(d) && Decide(table, d).hop == NextHop(table, d.header.dst)
              && exists i :: 0 <= i < |table| && Decide(table, d).iface == table[i].iface
  {
    if Routable(table, d) {
      var i := BestExists(table, d.header.dst);
      DecideByBest(table, d, i);
      var k: nat :| IsBest(table, d.header.dst, k)
        && NextHop(table, d.header.dst) == if table[k].nextHop.Some? then table[k].nextHop.value else d.header.dst;
      BestIsUnique(table, d.header.dst, i, k);
    }
  }

  /** Each datagram with life and a route goes out once in all, aged, to its next hop; nothing else goes out. */
  lemma {:induction false} EachGoesOutOnce(table: seq<Route>, ds: seq<Ipv4Datagram>, n: nat, e: Event)
    requires ValidTable(table) && forall i :: 0 <= i < |table| ==> table[i].iface < n
    ensures SentTimes(DecideAll(table, ds), n, e) == DueTimes(table, ds, e)
    decreases ds
  {
    if ds == [] {
      NothingSent(n, e);
    } else {
      SentTimesFirst(DecideAll(table, ds), n, e);
      DecidedIsDue(table, ds[0]);
      EachGoesOutOnce(table, ds[1..], n, e);
      assert DecideAll(table, ds)[1..] == DecideAll(table, ds[1..]);
    }
  }
}
