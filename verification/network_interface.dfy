/** A network interface: finds Ethernet addresses by ARP, and keeps datagrams waiting until it knows them. */
module NetworkInterfaces {
  import opened Machine
  import opened Ipv4

  type EthernetAddress = x: int | 0 <= x < 0x1_0000_0000_0000

  const ETHERNET_BROADCAST: EthernetAddress := 0xffff_ffff_ffff
  const OPCODE_REQUEST := 1
  const OPCODE_REPLY := 2
  const CACHE_MS := 30000
  const PENDING_MS := 5000

  datatype ArpMessage = ArpMessage(opcode: u16, senderMac: EthernetAddress, senderIp: u32, targetMac: EthernetAddress, targetIp: u32)

  /** What a frame carries, by its type, once parsed; `Unreadable` if parsing fails or the type is another one. */
  datatype Payload = Datagram(d: InternetDatagram) | Arp(arp: ArpMessage) | Unreadable

  datatype EthernetFrame = EthernetFrame(dst: EthernetAddress, src: EthernetAddress, payload: Payload)

  /** A frame handed to the output port, with the IP address it was sent for. */
  datatype Transmission = Transmission(hop: u32, frame: EthernetFrame)

  datatype Learned = Learned(mac: EthernetAddress, remaining: nat)

  datatype Waiting = Waiting(queue: seq<InternetDatagram>, age: nat)

  function DatagramFrame(src: EthernetAddress, dst: EthernetAddress, hop: u32, d: InternetDatagram): Transmission {
    Transmission(hop, EthernetFrame(dst, src, Datagram(d)))
  }

  /** A queue of datagrams, addressed. */
  function Flush(src: EthernetAddress, dst: EthernetAddress, hop: u32, queue: seq<InternetDatagram>): seq<Transmission> {
    if queue == [] then []
    else Flush(src, dst, hop, queue[..|queue| - 1]) + [DatagramFrame(src, dst, hop, queue[|queue| - 1])]
  }

  datatype Interface = Interface(
    mac: EthernetAddress, ip: u32, cache: map<u32, Learned>, pending: map<u32, Waiting>, received: seq<InternetDatagram>)
  {
    function RequestFrame(hop: u32): Transmission {
      Transmission(hop, EthernetFrame(ETHERNET_BROADCAST, mac, Arp(ArpMessage(OPCODE_REQUEST, mac, ip, 0, hop))))
    }

    function ReplyFrame(arp: ArpMessage): Transmission {
      Transmission(arp.senderIp, EthernetFrame(arp.senderMac, mac, Arp(ArpMessage(OPCODE_REPLY, mac, ip, arp.senderMac, arp.senderIp))))
    }

    /** A request goes out unless one is already pending and young enough. */
    predicate Asks(hop: u32) {
      hop !in cache && (hop !in pending || pending[hop].age > PENDING_MS)
    }

    function Queued(hop: u32): seq<InternetDatagram> {
      if hop in pending then pending[hop].queue else []
    }

    function SendDatagram(d: InternetDatagram, hop: u32): (Interface, seq<Transmission>) {
      if hop in cache then (this, [DatagramFrame(mac, cache[hop].mac, hop, d)])
      else
        (this.(pending := pending[hop := Waiting(Queued(hop) + [d], if hop in pending then pending[hop].age else 0)]),
         if Asks(hop) then [RequestFrame(hop)] else [])
    }

    /** Every readable ARP message teaches its sender's address, whatever it asks. */
    function Learn(arp: ArpMessage): (Interface, seq<Transmission>) {
      (this.(cache := cache[arp.senderIp := Learned(arp.senderMac, CACHE_MS)], pending := pending - {arp.senderIp}),
       (if arp.opcode == OPCODE_REQUEST && arp.targetIp == ip then [ReplyFrame(arp)] else [])
       + Flush(mac, arp.senderMac, arp.senderIp, Queued(arp.senderIp)))
    }

    /** Frames to other addresses are dropped, except ARP messages. */
    function RecvFrame(frame: EthernetFrame): (Interface, seq<Transmission>) {
      match frame.payload
      case Datagram(d) =>
        if frame.dst == mac || frame.dst == ETHERNET_BROADCAST then (this.(received := received + [d]), []) else (this, [])
      case Arp(arp) => Learn(arp)
      case Unreadable => (this, [])
    }

    function Tick(ms: nat): Interface {
      this.(
        cache := map k | k in cache && ms < cache[k].remaining :: cache[k].(remaining := cache[k].remaining - ms),
        pending := map k | k in pending && pending[k].age + ms <= PENDING_MS :: pending[k].(age := pending[k].age + ms))
    }
  }

  function NewInterface(mac: EthernetAddress, ip: u32): Interface {
    Interface(mac, ip, map[], map[], [])
  }

  class NetworkInterface {
    const ethernetAddress: EthernetAddress
    const ipAddress: u32
    var arpCache: map<u32, Learned>
    var pendingArpRequests: map<u32, Waiting>
    var datagramsReceived: seq<InternetDatagram>

    ghost function View(): Interface
      reads this
    {
      Interface(ethernetAddress, ipAddress, arpCache, pendingArpRequests, datagramsReceived)
    }

    constructor (ethernetAddress: EthernetAddress, ipAddress: u32)
      ensures View() == NewInterface(ethernetAddress, ipAddress)
    {
      this.ethernetAddress, this.ipAddress := ethernetAddress, ipAddress;
      arpCache, pendingArpRequests, datagramsReceived := map[], map[], [];
    }

    method SendDatagram(dgram: InternetDatagram, nextHop: u32) returns (sent: seq<Transmission>)
      modifies this
      ensures (View(), sent) == old(View()).SendDatagram(dgram, nextHop)
    {
      sent := [];
      if nextHop in arpCache {
        return [Transmission(nextHop, EthernetFrame(arpCache[nextHop].mac, ethernetAddress, Datagram(dgram)))];
      }
      if nextHop !in pendingArpRequests || pendingArpRequests[nextHop].age > PENDING_MS {
        var request := ArpMessage(OPCODE_REQUEST, ethernetAddress, ipAddress, 0, nextHop);
        sent := [Transmission(nextHop, EthernetFrame(ETHERNET_BROADCAST, ethernetAddress, Arp(request)))];
      }
      var waiting := if nextHop in pendingArpRequests then pendingArpRequests[nextHop] else Waiting([], 0);
      pendingArpRequests := pendingArpRequests[nextHop := waiting.(queue := waiting.queue + [dgram])];
    }

    /** The loop that transmits a queue. */
    method TransmitAll(dst: EthernetAddress, hop: u32, queue: seq<InternetDatagram>) returns (sent: seq<Transmission>)
      ensures sent == Flush(ethernetAddress, dst, hop, queue)
    {
      sent := [];
      var it := 0;
      while it < |queue|
        invariant it <= |queue|
        invariant sent == Flush(ethernetAddress, dst, hop, queue[..it])
      {
        assert queue[..it + 1][..it] == queue[..it];
        sent := sent + [Transmission(hop, EthernetFrame(dst, ethernetAddress, Datagram(queue[it])))];
        it := it + 1;
      }
      assert queue[..it] == queue;
    }

    /** A reply to us flushes the queue at once; what follows for every message then finds nothing. */
    method HandleArp(arp: ArpMessage) returns (sent: seq<Transmission>)
      modifies this
      ensures (View(), sent) == old(View()).Learn(arp)
    {
      sent := [];
      ghost var all := Flush(ethernetAddress, arp.senderMac, arp.senderIp, View().Queued(arp.senderIp));
      assert all + [] == all == [] + all;
      arpCache := arpCache[arp.senderIp := Learned(arp.senderMac, CACHE_MS)];
      if arp.opcode == OPCODE_REQUEST && arp.targetIp == ipAddress {
        var response := ArpMessage(OPCODE_REPLY, ethernetAddress, ipAddress, arp.senderMac, arp.senderIp);
        sent := [Transmission(arp.senderIp, EthernetFrame(arp.senderMac, ethernetAddress, Arp(response)))];
      } else if arp.opcode == OPCODE_REPLY && arp.targetIp == ipAddress {
        if arp.senderIp in pendingArpRequests {
          sent := TransmitAll(arp.senderMac, arp.senderIp, pendingArpRequests[arp.senderIp].queue);
          pendingArpRequests := pendingArpRequests - {arp.senderIp};
        }
      }
      if arp.senderIp !in pendingArpRequests {
        pendingArpRequests := pendingArpRequests[arp.senderIp := Waiting([], 0)];
      }
      var flushed := TransmitAll(arp.senderMac, arp.senderIp, pendingArpRequests[arp.senderIp].queue);
      sent := sent + flushed;
      pendingArpRequests := pendingArpRequests - {arp.senderIp};
      assert pendingArpRequests == old(pendingArpRequests) - {arp.senderIp};
    }

    method RecvFrame(frame: EthernetFrame) returns (sent: seq<Transmission>)
      modifies this
      ensures (View(), sent) == old(View()).RecvFrame(frame)
    {
      sent := [];
      if frame.dst != ethernetAddress && frame.dst != ETHERNET_BROADCAST && !frame.payload.Arp? {
        return;
      }
      match frame.payload
      case Datagram(d) => datagramsReceived := datagramsReceived + [d];
      case Arp(arp) => sent := HandleArp(arp);
      case Unreadable =>
    }

    /** Both loops go over a hash table, in whatever order. */
    method Tick(ms: nat)
      modifies this
      ensures View() == old(View()).Tick(ms)
    {
      AgeCache(ms);
      AgePending(ms);
    }

    method AgeCache(ms: nat)
      modifies this`arpCache
      ensures arpCache == old(View()).Tick(ms).cache
    {
      var todo := arpCache.Keys;
      while todo != {}
        invariant todo <= old(arpCache.Keys)
        invariant forall k :: k in arpCache <==> k in todo || (k in old(arpCache) && ms < old(arpCache)[k].remaining)
        invariant forall k :: k in arpCache ==>
          arpCache[k] == (if k in todo then old(arpCache)[k] else old(arpCache)[k].(remaining := old(arpCache)[k].remaining - ms))
        decreases |todo|
      {
        var k :| k in todo;
        if arpCache[k].remaining <= ms {
          arpCache := arpCache - {k};
        } else {
          arpCache := arpCache[k := Learned(arpCache[k].mac, arpCache[k].remaining - ms)];
        }
        todo := todo - {k};
      }
    }

    method AgePending(ms: nat)
      modifies this`pendingArpRequests
      ensures pendingArpRequests == old(View()).Tick(ms).pending
    {
      var todo := pendingArpRequests.Keys;
      while todo != {}
        invariant todo <= old(pendingArpRequests.Keys)
        invariant forall k :: k in pendingArpRequests <==>
                    k in todo || (k in old(pendingArpRequests) && old(pendingArpRequests)[k].age + ms <= PENDING_MS)
        invariant forall k :: k in pendingArpRequests ==>
          pendingArpRequests[k] == (if k in todo then old(pendingArpRequests)[k]
                                    else old(pendingArpRequests)[k].(age := old(pendingArpRequests)[k].age + ms))
        decreases |todo|
      {
        var k :| k in todo;
        pendingArpRequests := pendingArpRequests[k := Waiting(pendingArpRequests[k].queue, pendingArpRequests[k].age + ms)];
        if pendingArpRequests[k].age > PENDING_MS {
          pendingArpRequests := pendingArpRequests - {k};
        }
        todo := todo - {k};
      }
    }
  }
}
