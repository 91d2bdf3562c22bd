/** The network interface as the source runs it, against its specification in `Arp`. */
module NetworkInterfaces {
  import opened Prelude
  import opened Ipv4
  import opened Arp

  /** Counts the request table down in place; entries that run out are erased while iterating. */
  method AgeRequestTable(table: map<U32, nat>, ms: nat) returns (aged: map<U32, nat>)
    ensures aged == AgeRequests(table, ms)
  {
    aged := table;
    var todo := table.Keys;
    while todo != {}
      invariant todo <= aged.Keys <= table.Keys
      invariant forall ip :: ip in todo ==> aged[ip] == table[ip]
      invariant forall ip :: ip in table && ip !in todo ==> (ip in aged <==> table[ip] > ms)
      invariant forall ip :: ip in aged && ip !in todo ==> aged[ip] == table[ip] - ms
      decreases todo
    {
      var ip :| ip in todo;
      todo := todo - {ip};
      if aged[ip] > ms {
        aged := aged[ip := aged[ip] - ms];
      } else {
        aged := aged - {ip};
      }
    }
  }

  method AgeCacheTable(table: map<U32, Entry>, ms: nat) returns (aged: map<U32, Entry>)
    ensures aged == AgeCache(table, ms)
  {
    aged := table;
    var todo := table.Keys;
    while todo != {}
      invariant todo <= aged.Keys <= table.Keys
      invariant forall ip :: ip in todo ==> aged[ip] == table[ip]
      invariant forall ip :: ip in table && ip !in todo ==> (ip in aged <==> table[ip].left > ms)
      invariant forall ip :: ip in aged && ip !in todo ==> aged[ip] == Entry(table[ip].mac, table[ip].left - ms)
      decreases todo
    {
      var ip :| ip in todo;
      todo := todo - {ip};
      if aged[ip].left > ms {
        aged := aged[ip := Entry(aged[ip].mac, aged[ip].left - ms)];
      } else {
        aged := aged - {ip};
      }
    }
  }

  /** With the queue of received datagrams that `AsyncNetworkInterface` adds. */
  class NetworkInterface {
    const ethernetAddress: Mac
    const ipAddress: U32
    var framesOut: seq<Frame>
    var cacheMap: map<U32, Entry>
    var arpRequests: map<U32, nat>
    var datagramQueue: map<U32, seq<Ipv4Datagram>>
    var datagramsOut: seq<Ipv4Datagram>

    ghost function View(): Iface
      reads this
    {
      Iface(ethernetAddress, ipAddress, cacheMap, arpRequests, datagramQueue, framesOut)
    }

    constructor (mac: Mac, ip: U32)
      ensures View() == NewIface(mac, ip) && datagramsOut == []
    {
      ethernetAddress := mac;
      ipAddress := ip;
      framesOut, cacheMap, arpRequests, datagramQueue, datagramsOut := [], map[], map[], map[], [];
    }

    method SendDatagram(dgram: Ipv4Datagram, nextHop: U32)
      modifies this`framesOut, this`arpRequests, this`datagramQueue
      ensures View() == Step(old(View()), Send(dgram, nextHop))
    {
      if nextHop in cacheMap {
        framesOut := framesOut + [Frame(cacheMap[nextHop].mac, ethernetAddress, Ipv4Payload(dgram))];
        return;
      }
      if nextHop !in arpRequests {
        var am := ArpMessage(true, ethernetAddress, ipAddress, NO_MAC, nextHop);
        framesOut := framesOut + [Frame(BROADCAST, ethernetAddress, ArpPayload(am))];
        arpRequests := arpRequests[nextHop := REQUEST_MS];
      }
      var queue := if nextHop in datagramQueue then datagramQueue[nextHop] else [];
      datagramQueue := datagramQueue[nextHop := queue + [dgram]];
    }

    /** Sends everything that waited for `ip`, oldest first. */
    method DrainQueue(ip: U32, mac: Mac)
      modifies this`framesOut, this`datagramQueue
      ensures framesOut == old(framesOut) + FramesOf(old(View()), ToHops(ip, Pending(old(View()), ip), mac))
      ensures datagramQueue == if ip in old(datagramQueue) then old(datagramQueue)[ip := []] else old(datagramQueue)
    {
      if ip in datagramQueue {
        ghost var i := View();
        while datagramQueue[ip] != []
          invariant ip in datagramQueue
          invariant datagramQueue == old(datagramQueue)[ip := datagramQueue[ip]]
          invariant framesOut + FramesOf(i, ToHops(ip, datagramQueue[ip], mac))
                 == old(framesOut) + FramesOf(i, ToHops(ip, old(datagramQueue)[ip], mac))
          decreases |datagramQueue[ip]|
        {
          var data := datagramQueue[ip][0];
          var frame := Frame(mac, ethernetAddress, Ipv4Payload(data));
          SeqAssoc(framesOut, [frame], FramesOf(i, ToHops(ip, datagramQueue[ip][1..], mac)));
          framesOut := framesOut + [frame];
          datagramQueue := datagramQueue[ip := datagramQueue[ip][1..]];
        }
      }
    }

    /** A request for our own address is answered. */
    method AnswerRequest(m: ArpMessage)
      modifies this`framesOut
      ensures framesOut == old(framesOut) + FramesOf(old(View()), Answers(old(View()), m))
    {
      if m.request && m.targetIp == ipAddress {
        var reply := ArpMessage(false, ethernetAddress, ipAddress, m.senderMac, m.senderIp);
        framesOut := framesOut + [Frame(m.senderMac, ethernetAddress, ArpPayload(reply))];
      }
    }

    method LearnAndReply(m: ArpMessage)
      modifies this`framesOut, this`cacheMap, this`datagramQueue
      ensures var i := old(View());
              View() == Learn(i, m).(frames := i.frames + FramesOf(i, Drained(i, m) + Answers(i, m)))
    {
      ghost var i := View();
      FramesOfConcat(i, Drained(i, m), Answers(i, m));
      SeqAssoc(framesOut, FramesOf(i, Drained(i, m)), FramesOf(i, Answers(i, m)));
      cacheMap := cacheMap[m.senderIp := Entry(m.senderMac, CACHE_MS)];
      FramesOfSameOwner(i, View(), Drained(i, m));
      DrainQueue(m.senderIp, m.senderMac);
      FramesOfSameOwner(i, View(), Answers(i, m));
      AnswerRequest(m);
    }

    method RecvFrame(frame: Frame) returns (dgram: Option<Ipv4Datagram>)
      modifies this`framesOut, this`cacheMap, this`datagramQueue
      ensures View() == Step(old(View()), Recv(frame))
      ensures dgram == Received(old(View()), frame)
    {
      if frame.dst != BROADCAST && frame.dst != ethernetAddress {
        return None;
      }
      if frame.payload.Ipv4Payload? {
        return Some(frame.payload.dgram);
      }
      if frame.payload.ArpPayload? {
        LearnAndReply(frame.payload.msg);
      }
      return None;
    }

    method RecvFrameAsync(frame: Frame)
      modifies this`framesOut, this`cacheMap, this`datagramQueue, this`datagramsOut
      ensures View() == Step(old(View()), Recv(frame))
      ensures var d := Received(old(View()), frame);
              datagramsOut == if d.Some? then old(datagramsOut) + [d.value] else old(datagramsOut)
    {
      var dgram := RecvFrame(frame);
      if dgram.Some? {
        datagramsOut := datagramsOut + [dgram.value];
      }
    }

    method Tick(ms: nat)
      modifies this`arpRequests, this`cacheMap
      ensures View() == Step(old(View()), Elapse(ms))
    {
      arpRequests := AgeRequestTable(arpRequests, ms);
      cacheMap := AgeCacheTable(cacheMap, ms);
    }
  }

  lemma {:induction false} FramesOfConcat(i: Iface, a: seq<Out>, b: seq<Out>)
    ensures FramesOf(i, a + b) == FramesOf(i, a) + FramesOf(i, b)
    decreases a
  {
    if a == [] {
      assert a + b == b;
    } else {
      assert (a + b)[1..] == a[1..] + b;
      FramesOfConcat(i, a[1..], b);
    }
  }

  lemma {:induction false} FramesOfSameOwner(i: Iface, j: Iface, outs: seq<Out>)
    requires i.mac == j.mac && i.ip == j.ip
    ensures FramesOf(i, outs) == FramesOf(j, outs)
    decreases outs
  {
    if outs != [] {
      FramesOfSameOwner(i, j, outs[1..]);
    }
  }
}
