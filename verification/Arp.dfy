/** The network interface and its address resolution (libsponge/network_interface.cc, RFC 826), as functions. */
module Arp {
  import opened Prelude
  import opened Ipv4

  type Mac = Bytes

  const BROADCAST: Mac := [255, 255, 255, 255, 255, 255]
  const NO_MAC: Mac := [0, 0, 0, 0, 0, 0]
  const CACHE_MS: nat := 30000
  const REQUEST_MS: nat := 5000

  /** A supported message is a request or a reply. */
  datatype ArpMessage = ArpMessage(request: bool, senderMac: Mac, senderIp: U32, targetMac: Mac, targetIp: U32)

  /** What a frame holds once parsed. `Malformed` is any payload, or type, the parsers refuse. */
  datatype Payload = Ipv4Payload(dgram: Ipv4Datagram) | ArpPayload(msg: ArpMessage) | Malformed

  datatype Frame = Frame(dst: Mac, src: Mac, payload: Payload)

  datatype Entry = Entry(mac: Mac, left: nat)

  datatype Iface = Iface(mac: Mac, ip: U32, cache: map<U32, Entry>, requests: map<U32, nat>,
                         pending: map<U32, seq<Ipv4Datagram>>, frames: seq<Frame>)

  function NewIface(mac: Mac, ip: U32): Iface {
    Iface(mac, ip, map[], map[], map[], [])
  }

  function Pending(i: Iface, hop: U32): seq<Ipv4Datagram> {
    if hop in i.pending then i.pending[hop] else []
  }

  // ---------------------------------------------------------------- what goes out

  /** The frames an interface sends, with what they are for. */
  datatype Out =
    | ToHop(hop: U32, dgram: Ipv4Datagram, dst: Mac)
    | Request(target: U32)
    | Reply(to: Mac, toIp: U32)

  function FrameOf(i: Iface, o: Out): Frame {
    match o
    case ToHop(_, dgram, dst) => Frame(dst, i.mac, Ipv4Payload(dgram))
    case Request(target) => Frame(BROADCAST, i.mac, ArpPayload(ArpMessage(true, i.mac, i.ip, NO_MAC, target)))
    case Reply(to, toIp) => Frame(to, i.mac, ArpPayload(ArpMessage(false, i.mac, i.ip, to, toIp)))
  }

  function FramesOf(i: Iface, outs: seq<Out>): (fs: seq<Frame>)
    ensures |fs| == |outs|
  {
    if outs == [] then [] else [FrameOf(i, outs[0])] + FramesOf(i, outs[1..])
  }

  function ToHops(hop: U32, dgrams: seq<Ipv4Datagram>, dst: Mac): seq<Out> {
    if dgrams == [] then [] else [ToHop(hop, dgrams[0], dst)] + ToHops(hop, dgrams[1..], dst)
  }

  // ---------------------------------------------------------------- the three operations

  datatype Event = Send(dgram: Ipv4Datagram, hop: U32) | Recv(frame: Frame) | Elapse(ms: nat)

  predicate Accepts(i: Iface, f: Frame) {
    f.dst == BROADCAST || f.dst == i.mac
  }

  /** The event teaches the interface who has `ip`. */
  predicate Learns(i: Iface, e: Event, ip: U32) {
    e.Recv? && Accepts(i, e.frame) && e.frame.payload.ArpPayload? && e.frame.payload.msg.senderIp == ip
  }

  /** Everything that waited for the sender of a message. */
  function Drained(i: Iface, m: ArpMessage): seq<Out> {
    ToHops(m.senderIp, Pending(i, m.senderIp), m.senderMac)
  }

  function Answers(i: Iface, m: ArpMessage): seq<Out> {
    if m.request && m.targetIp == i.ip then [Reply(m.senderMac, m.senderIp)] else []
  }

  function Emits(i: Iface, e: Event): seq<Out> {
    match e
    case Send(dgram, hop) =>
      if hop in i.cache then [ToHop(hop, dgram, i.cache[hop].mac)]
      else if hop in i.requests then []
      else [Request(hop)]
    case Recv(f) =>
      if !Accepts(i, f) || !f.payload.ArpPayload? then []
      else Drained(i, f.payload.msg) + Answers(i, f.payload.msg)
    case Elapse(_) => []
  }

  /** Counts every entry down and drops those that run out. */
  function AgeRequests(requests: map<U32, nat>, ms: nat): map<U32, nat> {
    map ip | ip in requests && requests[ip] > ms :: requests[ip] - ms
  }

  function AgeCache(cache: map<U32, Entry>, ms: nat): map<U32, Entry> {
    map ip | ip in cache && cache[ip].left > ms :: Entry(cache[ip].mac, cache[ip].left - ms)
  }

  function Learn(i: Iface, m: ArpMessage): Iface {
    i.(cache := i.cache[m.senderIp := Entry(m.senderMac, CACHE_MS)],
       pending := if m.senderIp in i.pending then i.pending[m.senderIp := []] else i.pending)
  }

  function Change(i: Iface, e: Event): Iface {
    match e
    case Send(dgram, hop) =>
      if hop in i.cache then i
      else
        i.(requests := if hop in i.requests then i.requests else i.requests[hop := REQUEST_MS],
           pending := i.pending[hop := Pending(i, hop) + [dgram]])
    case Recv(f) => if Accepts(i, f) && f.payload.ArpPayload? then Learn(i, f.payload.msg) else i
    case Elapse(ms) => i.(requests := AgeRequests(i.requests, ms), cache := AgeCache(i.cache, ms))
  }

  function Step(i: Iface, e: Event): Iface {
    Change(i, e).(frames := i.frames + FramesOf(i, Emits(i, e)))
  }

  /** The datagram handed up by `recv_frame`. */
  function Received(i: Iface, f: Frame): Option<Ipv4Datagram> {
    if Accepts(i, f) && f.payload.Ipv4Payload? then Some(f.payload.dgram) else None
  }
}
