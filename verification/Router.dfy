/** The router as the source runs it, against its specification in `Routing`. */
module Routers {
  import opened Prelude
  import opened Ipv4
  import opened Arp
  import opened NetworkInterfaces
  import opened Routing

  /** Scans the table once, keeping the last of the longest matching routes. */
  method FindRoute(table: seq<Route>, dst: U32) returns (index: int)
    requires ValidTable(table)
    ensures index == -1 ==> NoMatch(table, dst)
    ensures index != -1 ==> 0 <= index && IsBest(table, dst, index)
  {
    index := -1;
    var maxPrefix := 0;
    for i := 0 to |table|
      invariant -1 <= index < i
      invariant index == -1 ==> maxPrefix == 0 && forall j :: 0 <= j < i ==> !Matches(table[j], dst)
      invariant index != -1 ==>
                  && maxPrefix == table[index].length && Matches(table[index], dst)
                  && forall j :: 0 <= j < i && Matches(table[j], dst) ==>
                       table[j].length < maxPrefix || (table[j].length == maxPrefix && j <= index)
    {
      if Matches(table[i], dst) {
        if table[i].length >= maxPrefix {
          index := i;
          maxPrefix := table[i].length;
        }
      }
    }
  }

  class Router {
    var interfaces: seq<NetworkInterface>
    var routerTable: seq<Route>

    ghost predicate Distinct()
      reads this
    {
      forall i, j :: 0 <= i < j < |interfaces| ==> interfaces[i] != interfaces[j]
    }

    /** Routing is defined: distinct interfaces, no prefix too long, every route to one of the interfaces. */
    ghost predicate Valid()
      reads this
    {
      && Distinct() && ValidTable(routerTable)
      && forall i :: 0 <= i < |routerTable| ==> routerTable[i].iface < |interfaces|
    }

    constructor ()
      ensures Valid() && interfaces == [] && routerTable == []
    {
      interfaces, routerTable := [], [];
    }

    method AddInterface(interface: NetworkInterface) returns (n: nat)
      requires Distinct() && interface !in interfaces
      modifies this
      ensures Distinct() && interfaces == old(interfaces) + [interface] && n == |old(interfaces)|
      ensures routerTable == old(routerTable) && (old(Valid()) ==> Valid())
    {
      interfaces := interfaces + [interface];
      n := |interfaces| - 1;
    }

    /** Any route is taken; routing stays defined exactly if its prefix is not too long and its interface exists. */
    method AddRoute(prefix: U32, length: Byte, nextHop: Option<U32>, iface: nat)
      modifies this
      ensures routerTable == old(routerTable) + [Routing.Route.Route(prefix, length, nextHop, iface)]
      ensures interfaces == old(interfaces)
      ensures Valid() <==> old(Valid()) && length <= 32 && iface < |interfaces|
    {
      ghost var n := |routerTable|;
      routerTable := routerTable + [Routing.Route.Route(prefix, length, nextHop, iface)];
      assert routerTable[..n] == old(routerTable);
      assert ValidTable(routerTable) ==> ValidRoute(routerTable[n]);
      if Valid() {
        assert forall i :: 0 <= i < n ==> ValidRoute(routerTable[i]) && routerTable[i] == old(routerTable)[i];
      }
    }

    ghost function InterfaceSet(): set<object>
      reads this
    {
      set i | 0 <= i < |interfaces| :: interfaces[i]
    }

    ghost function Views(): seq<Iface>
      reads this, InterfaceSet()
    {
      seq(|interfaces|, i requires 0 <= i < |interfaces| reads this, InterfaceSet() => interfaces[i].View())
    }

    ghost function Queues(): seq<seq<Ipv4Datagram>>
      reads this, InterfaceSet()
    {
      seq(|interfaces|, i requires 0 <= i < |interfaces| reads this, InterfaceSet() => interfaces[i].datagramsOut)
    }

    method RouteOneDatagram(d: Ipv4Datagram)
      requires Valid()
      modifies InterfaceSet()
      ensures Views() == RouteAll(old(Views()), routerTable, [d])
      ensures Queues() == old(Queues())
    {
      if d.header.ttl <= 1 {
        RouteDiscarded(Views(), routerTable, d);
        return;
      }
      var aged := Aged(d);
      var index := FindRoute(routerTable, aged.header.dst);
      if index == -1 {
        RouteDiscarded(Views(), routerTable, d);
        return;
      }
      DecideByBest(routerTable, d, index);
      var r := routerTable[index];
      var nextHop := aged.header.dst;
      if r.nextHop.Some? {
        nextHop := r.nextHop.value;
      }
      RouteForwarded(Views(), routerTable, d, r.iface, Send(aged, nextHop));
      interfaces[r.iface].SendDatagram(aged, nextHop);
    }

    method PopFront(k: nat)
      requires Valid() && k < |interfaces| && interfaces[k].datagramsOut != []
      modifies InterfaceSet()
      ensures Views() == old(Views()) && Queues() == old(Queues())[k := old(Queues())[k][1..]]
    {
      interfaces[k].datagramsOut := interfaces[k].datagramsOut[1..];
    }

    method RouteFront(k: nat)
      requires Valid() && k < |interfaces| && interfaces[k].datagramsOut != []
      modifies InterfaceSet()
      ensures Queues() == old(Queues())[k := old(Queues())[k][1..]]
      ensures Views() == RouteAll(old(Views()), routerTable, [old(Queues())[k][0]])
    {
      RouteOneDatagram(interfaces[k].datagramsOut[0]);
      assert Queues()[k] == interfaces[k].datagramsOut;
      PopFront(k);
    }

    /** Routes everything that waits at interface `k`. */
    method DrainInterface(k: nat)
      requires Valid() && k < |interfaces|
      modifies InterfaceSet()
      ensures Queues() == old(Queues())[k := []]
      ensures Views() == RouteAll(old(Views()), routerTable, old(Queues())[k])
    {
      ghost var views, queue := Views(), Queues()[k];
      ghost var done: seq<Ipv4Datagram> := [];
      assert RouteAll(views, routerTable, done) == views;
      while interfaces[k].datagramsOut != []
        invariant done + Queues()[k] == queue
        invariant Queues() == old(Queues())[k := Queues()[k]]
        invariant Views() == RouteAll(views, routerTable, done)
        decreases |queue| - |done|
      {
        ghost var d := Queues()[k][0];
        RouteFront(k);
        RouteMore(views, routerTable, done, [d]);
        done := done + [d];
      }
      assert done + [] == done;
    }

    /** Empties every input queue, and gives each interface the datagrams decided for it, in order. */
    method Route()
      requires Valid()
      modifies InterfaceSet()
      ensures forall j :: 0 <= j < |interfaces| ==> Queues()[j] == []
      ensures Views() == RouteAll(old(Views()), routerTable, Flatten(old(Queues())))
    {
      ghost var views, queues := Views(), Queues();
      var k := 0;
      assert RouteAll(views, routerTable, Flatten(queues[..0])) == views;
      while k < |interfaces|
        invariant 0 <= k <= |interfaces|
        invariant forall j :: 0 <= j < |interfaces| ==> Queues()[j] == if j < k then [] else queues[j]
        invariant Views() == RouteAll(views, routerTable, Flatten(queues[..k]))
      {
        DrainInterface(k);
        FlattenSnoc(queues, k);
        RouteMore(views, routerTable, Flatten(queues[..k]), queues[k]);
        k := k + 1;
      }
      assert queues[..k] == queues;
    }
  }
}
