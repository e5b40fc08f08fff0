/** What interfaces say to each other: who signs which frame, who is answered, and what arrives. */
module ArpExchange {
  import opened Machine
  import opened Ipv4
  import opened NetworkInterfaces
  import opened ArpRuns

  /** A question to everybody: who has this address? */
  predicate IsQuestion(t: Transmission, s: Interface, hop: u32) {
    && t.frame.dst == 0xffff_ffff_ffff
    && t.frame.payload == Arp(ArpMessage(1, s.mac, s.ip, 0, hop))
  }

  /** The answer to one ARP message, to its sender alone. */
  predicate IsAnswer(t: Transmission, s: Interface, asked: ArpMessage) {
    && t.frame.dst == asked.senderMac
    && t.frame.payload == Arp(ArpMessage(2, s.mac, s.ip, asked.senderMac, asked.senderIp))
  }

  lemma {:induction false} FlushIsSigned(src: EthernetAddress, dst: EthernetAddress, hop: u32, queue: seq<InternetDatagram>)
    ensures forall t :: t in Flush(src, dst, hop, queue) ==> t.frame.src == src && t.frame.payload.Datagram?
  {
    if queue == [] {
    } else {
      FlushIsSigned(src, dst, hop, queue[..|queue| - 1]);
    }
  }

  /** Every frame sent names the interface as its source; it is a datagram, a question for a next hop, or an answer. */
  lemma EveryFrameIsSigned(s: Interface, e: Event, t: Transmission)
    requires t in Step(s, e).1
    ensures t.frame.src == s.mac
    ensures t.frame.payload.Datagram? || (e.Submit? && IsQuestion(t, s, e.hop))
            || (e.Receive? && e.frame.payload.Arp? && IsAnswer(t, s, e.frame.payload.arp))
  {
    if e.Receive? && e.frame.payload.Arp? {
      var arp := e.frame.payload.arp;
      FlushIsSigned(s.mac, arp.senderMac, arp.senderIp, s.Queued(arp.senderIp));
      hide Flush;
    }
  }

  predicate Asks(e: Event, ip: u32) {
    e.Receive? && e.frame.payload.Arp? && e.frame.payload.arp.opcode == 1 && e.frame.payload.arp.targetIp == ip
  }

  /** An answer goes out exactly when a readable request names the interface's own address, and then just one. */
  lemma AnswersExactly(s: Interface, e: Event, i: nat)
    requires i < |Step(s, e).1|
    ensures Step(s, e).1[i].frame.payload.Arp? && Step(s, e).1[i].frame.payload.arp.opcode == 2 <==> i == 0 && Asks(e, s.ip)
  {
    var out := Step(s, e).1;
    if e.Receive? && e.frame.payload.Arp? {
      var arp := e.frame.payload.arp;
      var flushed := Flush(s.mac, arp.senderMac, arp.senderIp, s.Queued(arp.senderIp));
      FlushIsSigned(s.mac, arp.senderMac, arp.senderIp, s.Queued(arp.senderIp));
      hide Flush;
      assert out == flushed || (Asks(e, s.ip) && out[1..] == flushed);
      assert out == flushed ==> out[i] in flushed;
      assert i > 0 && out[1..] == flushed ==> out[i] == flushed[i - 1];
    }
  }

  lemma AskedIsAnswered(s: Interface, e: Event)
    requires Asks(e, s.ip)
    ensures |Step(s, e).1| > 0 && IsAnswer(Step(s, e).1[0], s, e.frame.payload.arp)
  {
    hide Flush;
  }

  lemma FlushOne(src: EthernetAddress, dst: EthernetAddress, hop: u32, d: InternetDatagram)
    ensures Flush(src, dst, hop, [d]) == [Transmission(hop, EthernetFrame(dst, src, Datagram(d)))]
  {
    assert [d][..0] == [];
  }

  /**
   * The first datagram for an unknown neighbour: `a` asks, `b` learns and answers, `a` learns and sends the
   * datagram, and `b` receives it.
   */
  lemma AddressIsFound(a: Interface, b: Interface, d: InternetDatagram)
    requires b.ip !in a.cache && b.ip !in a.pending
    ensures var (a1, asked) := a.SendDatagram(d, b.ip);
            && |asked| == 1
            && var (b1, answered) := b.RecvFrame(asked[0].frame);
            && |answered| > 0 && answered[0].frame.dst == a.mac
            && a.ip in b1.cache && b1.cache[a.ip].mac == a.mac
            && var (a2, sent) := a1.RecvFrame(answered[0].frame);
            && b.ip in a2.cache && a2.cache[b.ip].mac == b.mac && b.ip !in a2.pending
            && |sent| == 1 && b1.RecvFrame(sent[0].frame).0 == b1.(received := b.received + [d])
  {
    var (a1, asked) := a.SendDatagram(d, b.ip);
    var (b1, answered) := b.RecvFrame(asked[0].frame);
    FlushOne(a.mac, b.mac, b.ip, d);
    assert [] + [d] == [d];
    hide Flush;
    assert a1.Queued(b.ip) == [d];
  }

  // ---- What is received ----

  /** The datagrams in frames for this interface or for everybody. */
  function AddressedTo(events: seq<Event>, mac: EthernetAddress): seq<InternetDatagram>
    decreases |events|
  {
    if events == [] then []
    else
      var e := events[|events| - 1];
      AddressedTo(events[..|events| - 1], mac)
      + if e.Receive? && e.frame.payload.Datagram? && (e.frame.dst == mac || e.frame.dst == 0xffff_ffff_ffff)
        then [e.frame.payload.d] else []
  }

  /** In every run the interface holds exactly these, in the order of arrival; its own addresses never change. */
  lemma {:induction false} ReceivesWhatIsAddressed(run: seq<Interface>, events: seq<Event>)
    requires IsRun(run, events)
    ensures run[|events|].received == AddressedTo(events, run[0].mac)
    ensures run[|events|].mac == run[0].mac && run[|events|].ip == run[0].ip
    decreases |events|
  {
    if events == [] {
    } else {
      var n := |events| - 1;
      RunPrefix(run, events, n);
      ReceivesWhatIsAddressed(run[..n + 1], events[..n]);
      assert run[n + 1] == Step(run[n], events[n]).0;
      hide Flush;
      assert AddressedTo(events[..n], run[0].mac) + [] == AddressedTo(events[..n], run[0].mac);
    }
  }
}
