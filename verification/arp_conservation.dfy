/** Every datagram submitted to an interface is transmitted once, still waits, or was dropped when its request expired. */
module ArpConservation {
  import opened Machine
  import opened Ipv4
  import opened NetworkInterfaces
  import opened ArpRuns

  datatype Fate = Sent | Pending | Expired

  datatype Entry = Entry(d: InternetDatagram, fate: Fate)

  function Datagrams(log: seq<Entry>): seq<InternetDatagram> {
    if log == [] then [] else Datagrams(log[..|log| - 1]) + [log[|log| - 1].d]
  }

  function With(log: seq<Entry>, fate: Fate): seq<InternetDatagram> {
    if log == [] then []
    else
      var e := log[|log| - 1];
      With(log[..|log| - 1], fate) + if e.fate == fate then [e.d] else []
  }

  function Settled(e: Entry, fate: Fate): Entry {
    if e.fate == Pending then Entry(e.d, fate) else e
  }

  /** All pending entries get the given fate. */
  function Settle(log: seq<Entry>, fate: Fate): seq<Entry> {
    if log == [] then []
    else
      var e := log[|log| - 1];
      Settle(log[..|log| - 1], fate) + [Settled(e, fate)]
  }

  /** Nothing settled comes after something pending. */
  ghost predicate PendingLast(log: seq<Entry>) {
    log == [] || (PendingLast(log[..|log| - 1]) && (log[|log| - 1].fate == Pending || With(log, Pending) == []))
  }

  /** The datagrams submitted for `hop`, in order. */
  function Submitted(events: seq<Event>, hop: u32): seq<InternetDatagram>
    decreases |events|
  {
    if events == [] then []
    else
      var e := events[|events| - 1];
      Submitted(events[..|events| - 1], hop) + if e.Submit? && e.hop == hop then [e.d] else []
  }

  /** The datagrams in a sequence of transmissions that were sent for `hop`. */
  function For(out: seq<Transmission>, hop: u32): seq<InternetDatagram> {
    if out == [] then []
    else
      var t := out[|out| - 1];
      For(out[..|out| - 1], hop) + if t.hop == hop && t.frame.payload.Datagram? then [t.frame.payload.d] else []
  }

  /** The datagrams actually transmitted for `hop`, in the order of transmission. */
  function Transmitted(run: seq<Interface>, events: seq<Event>, hop: u32): seq<InternetDatagram>
    requires |events| <= |run|
    decreases |events|
  {
    if events == [] then []
    else
      var n := |events| - 1;
      Transmitted(run, events[..n], hop) + For(Step(run[n], events[n]).1, hop)
  }

  function LogStep(before: seq<Entry>, s: Interface, e: Event, hop: u32): seq<Entry> {
    if e.Submit? && e.hop == hop then before + [Entry(e.d, if hop in s.cache then Sent else Pending)]
    else if HeardFrom(e, hop) then Settle(before, Sent)
    else if e.Elapse? && hop in s.pending && s.pending[hop].age + e.ms > PENDING_MS then Settle(before, Expired)
    else before
  }

  /** The fate of every datagram submitted for `hop`, in the order of submission. */
  function Log(run: seq<Interface>, events: seq<Event>, hop: u32): seq<Entry>
    requires |events| <= |run|
    decreases |events|
  {
    if events == [] then [] else LogStep(Log(run, events[..|events| - 1], hop), run[|events| - 1], events[|events| - 1], hop)
  }

  // ---- Lists ----

  lemma LogGrows(log: seq<Entry>, e: Entry)
    ensures Datagrams(log + [e]) == Datagrams(log) + [e.d]
    ensures forall f :: With(log + [e], f) == With(log, f) + if e.fate == f then [e.d] else []
    ensures PendingLast(log) && (e.fate == Pending || With(log, Pending) == []) ==> PendingLast(log + [e])
  {
    assert (log + [e])[..|log|] == log;
  }

  lemma {:induction false} SettleKeepsDatagrams(log: seq<Entry>, fate: Fate)
    ensures Datagrams(Settle(log, fate)) == Datagrams(log)
  {
    if log == [] {
    } else {
      var n := |log| - 1;
      SettleKeepsDatagrams(log[..n], fate);
      LogGrows(Settle(log[..n], fate), Settled(log[n], fate));
    }
  }

  lemma {:induction false} SettleEmptiesPending(log: seq<Entry>, fate: Fate)
    requires fate != Pending
    ensures PendingLast(Settle(log, fate)) && With(Settle(log, fate), Pending) == []
  {
    if log == [] {
    } else {
      var n := |log| - 1;
      SettleEmptiesPending(log[..n], fate);
      LogGrows(Settle(log[..n], fate), Settled(log[n], fate));
    }
  }

  lemma {:induction false} SettleLeaves(log: seq<Entry>, fate: Fate, other: Fate)
    requires other != fate && other != Pending
    ensures With(Settle(log, fate), other) == With(log, other)
  {
    if log == [] {
    } else {
      var n := |log| - 1;
      SettleLeaves(log[..n], fate, other);
      LogGrows(Settle(log[..n], fate), Settled(log[n], fate));
    }
  }

  lemma SettleGrows(log: seq<Entry>, e: Entry, fate: Fate)
    ensures Settle(log + [e], fate) == Settle(log, fate) + [Settled(e, fate)]
    ensures PendingLast(log + [e]) ==> PendingLast(log) && (e.fate == Pending || With(log, Pending) == [])
  {
    assert (log + [e])[..|log|] == log;
  }

  lemma SettleMovesOne(log: seq<Entry>, e: Entry, fate: Fate)
    requires PendingLast(log + [e]) && fate != Pending
    requires With(Settle(log, fate), fate) == With(log, fate) + With(log, Pending)
    ensures With(Settle(log + [e], fate), fate) == With(log + [e], fate) + With(log + [e], Pending)
  {
    hide With, Settle, PendingLast;
    SettleGrows(log, e, fate);
    LogGrows(log, e);
    LogGrows(Settle(log, fate), Settled(e, fate));
    assert With(log, fate) + [] == With(log, fate);
    assert (With(log, fate) + With(log, Pending)) + [e.d] == With(log, fate) + (With(log, Pending) + [e.d]);
  }

  lemma {:induction false} SettleMoves(log: seq<Entry>, fate: Fate)
    requires PendingLast(log) && fate != Pending
    ensures With(Settle(log, fate), fate) == With(log, fate) + With(log, Pending)
  {
    if log == [] {
    } else {
      var n := |log| - 1;
      var e := log[n];
      SettleMoves(log[..n], fate);
      SettleMovesOne(log[..n], e, fate);
      assert log == log[..n] + [e];
    }
  }

  lemma SettleKeeps(log: seq<Entry>, fate: Fate, other: Fate)
    requires PendingLast(log) && fate != Pending && other != fate && other != Pending
    ensures PendingLast(Settle(log, fate)) && With(Settle(log, fate), Pending) == []
    ensures With(Settle(log, fate), fate) == With(log, fate) + With(log, Pending)
    ensures With(Settle(log, fate), other) == With(log, other)
  {
    SettleEmptiesPending(log, fate);
    SettleMoves(log, fate);
    SettleLeaves(log, fate, other);
  }

  lemma ForOne(t: Transmission, hop: u32)
    ensures For([t], hop) == if t.hop == hop && t.frame.payload.Datagram? then [t.frame.payload.d] else []
  {
    assert [t][..0] == [];
  }

  lemma {:induction false} ForSplit(a: seq<Transmission>, b: seq<Transmission>, hop: u32)
    ensures For(a + b, hop) == For(a, hop) + For(b, hop)
  {
    if b == [] {
      assert a + b == a;
    } else {
      assert (a + b)[..|a + b| - 1] == a + b[..|b| - 1];
      ForSplit(a, b[..|b| - 1], hop);
    }
  }

  lemma {:induction false} ForFlush(src: EthernetAddress, dst: EthernetAddress, to: u32, queue: seq<InternetDatagram>, hop: u32)
    ensures For(Flush(src, dst, to, queue), hop) == if to == hop then queue else []
  {
    if queue == [] {
    } else {
      hide For;
      var n := |queue| - 1;
      ForFlush(src, dst, to, queue[..n], hop);
      ForSplit(Flush(src, dst, to, queue[..n]), [DatagramFrame(src, dst, to, queue[n])], hop);
      ForOne(DatagramFrame(src, dst, to, queue[n]), hop);
      assert queue[..n] + [queue[n]] == queue;
    }
  }

  // ---- One step ----

  /** The log accounts for what is queued in the state and for what was transmitted. */
  ghost predicate Balanced(log: seq<Entry>, s: Interface, hop: u32, sent: seq<InternetDatagram>) {
    && PendingLast(log)
    && With(log, Pending) == s.Queued(hop)
    && With(log, Sent) == sent
  }

  lemma SubmitBalances(log: seq<Entry>, s: Interface, d: InternetDatagram, to: u32, hop: u32, sent: seq<InternetDatagram>)
    requires Balanced(log, s, hop, sent) && NeverBoth(s)
    ensures var (s', out) := s.SendDatagram(d, to);
            Balanced(LogStep(log, s, Submit(d, to), hop), s', hop, sent + For(out, hop))
  {
    var (s', out) := s.SendDatagram(d, to);
    if out != [] {
      ForOne(out[0], hop);
    }
    LogGrows(log, Entry(d, if hop in s.cache then Sent else Pending));
    hide With, For, PendingLast;
    assert sent + [] == sent && s.Queued(hop) + [] == s.Queued(hop);
  }

  lemma FlushGoesTo(s: Interface, arp: ArpMessage, hop: u32)
    ensures For(s.Learn(arp).1, hop) == if arp.senderIp == hop then s.Queued(hop) else []
  {
    var flushed := Flush(s.mac, arp.senderMac, arp.senderIp, s.Queued(arp.senderIp));
    ForFlush(s.mac, arp.senderMac, arp.senderIp, s.Queued(arp.senderIp), hop);
    ForSplit([s.ReplyFrame(arp)], flushed, hop);
    ForOne(s.ReplyFrame(arp), hop);
    hide For, Flush;
    assert [] + flushed == flushed && [] + For(flushed, hop) == For(flushed, hop);
  }

  lemma ArpBalances(log: seq<Entry>, s: Interface, frame: EthernetFrame, hop: u32, sent: seq<InternetDatagram>)
    requires Balanced(log, s, hop, sent) && frame.payload.Arp?
    ensures var (s', out) := s.RecvFrame(frame);
            Balanced(LogStep(log, s, Receive(frame), hop), s', hop, sent + For(out, hop))
  {
    hide With, For, PendingLast, Flush, Settle;
    var arp := frame.payload.arp;
    FlushGoesTo(s, arp, hop);
    if arp.senderIp == hop {
      SettleKeeps(log, Sent, Expired);
    }
    assert sent + [] == sent;
  }

  lemma TickBalances(log: seq<Entry>, s: Interface, ms: nat, hop: u32, sent: seq<InternetDatagram>)
    requires Balanced(log, s, hop, sent)
    ensures Balanced(LogStep(log, s, Elapse(ms), hop), s.Tick(ms), hop, sent)
  {
    SettleKeeps(log, Expired, Sent);
    hide With, PendingLast, Settle;
  }

  lemma StepBalances(log: seq<Entry>, s: Interface, e: Event, hop: u32, sent: seq<InternetDatagram>)
    requires Balanced(log, s, hop, sent) && NeverBoth(s)
    ensures Balanced(LogStep(log, s, e, hop), Step(s, e).0, hop, sent + For(Step(s, e).1, hop))
  {
    assert sent + [] == sent;
    match e
    case Submit(d, to) => SubmitBalances(log, s, d, to, hop, sent);
    case Receive(frame) =>
      if frame.payload.Arp? {
        ArpBalances(log, s, frame, hop, sent);
      }
    case Elapse(ms) => TickBalances(log, s, ms, hop, sent);
  }

  lemma LogStepSubmits(log: seq<Entry>, s: Interface, e: Event, hop: u32)
    ensures Datagrams(LogStep(log, s, e, hop)) == Datagrams(log) + if e.Submit? && e.hop == hop then [e.d] else []
  {
    SettleKeepsDatagrams(log, Sent);
    SettleKeepsDatagrams(log, Expired);
    if e.Submit? {
      LogGrows(log, Entry(e.d, if hop in s.cache then Sent else Pending));
    }
    hide With, PendingLast, Settle, Datagrams;
    assert Datagrams(log) + [] == Datagrams(log);
  }

  // ---- Whole runs ----

  lemma {:induction false} SameRun(run: seq<Interface>, run': seq<Interface>, events: seq<Event>, hop: u32)
    requires |events| <= |run'| && run' <= run
    ensures Log(run', events, hop) == Log(run, events, hop)
    ensures Transmitted(run', events, hop) == Transmitted(run, events, hop)
    decreases |events|
  {
    if events == [] {
    } else {
      SameRun(run, run', events[..|events| - 1], hop);
    }
  }

  /**
   * In every run, for every next hop: each datagram submitted has exactly one fate; those transmitted are, in the
   * order of transmission, those marked sent in the order of submission; those still queued are those marked pending.
   */
  lemma {:induction false} EveryDatagramHasOneFate(run: seq<Interface>, events: seq<Event>, hop: u32)
    requires IsRun(run, events)
    ensures Datagrams(Log(run, events, hop)) == Submitted(events, hop)
    ensures With(Log(run, events, hop), Sent) == Transmitted(run, events, hop)
    ensures With(Log(run, events, hop), Pending) == run[|events|].Queued(hop)
    ensures PendingLast(Log(run, events, hop))
    decreases |events|
  {
    if events == [] {
    } else {
      var n := |events| - 1;
      RunPrefix(run, events, n);
      EveryDatagramHasOneFate(run[..n + 1], events[..n], hop);
      NeverBothOverRuns(run[..n + 1], events[..n]);
      SameRun(run, run[..n + 1], events[..n], hop);
      var log, sent := Log(run, events[..n], hop), Transmitted(run, events[..n], hop);
      assert run[n + 1] == Step(run[n], events[n]).0;
      hide Step, IsRun, With, Datagrams, LogStep, NeverBoth, For, PendingLast;
      StepBalances(log, run[n], events[n], hop, sent);
      LogStepSubmits(log, run[n], events[n], hop);
    }
  }

  lemma StepAddresses(s: Interface, e: Event, t: Transmission)
    requires t in Step(s, e).1 && t.frame.payload.Datagram?
    ensures var s' := Step(s, e).0; t.hop in s'.cache && s'.cache[t.hop].mac == t.frame.dst
  {
    if e.Receive? && e.frame.payload.Arp? {
      var arp := e.frame.payload.arp;
      FlushHasNoRequest(s.mac, arp.senderMac, arp.senderIp, s.Queued(arp.senderIp));
    }
    hide Flush;
  }

  /** Every datagram goes to the address in the last ARP message from its next hop, heard less than 30 seconds before. */
  lemma DatagramsGoWhereHeard(run: seq<Interface>, events: seq<Event>, i: nat, t: Transmission)
    requires IsRun(run, events) && i < |events|
    requires t in Step(run[i], events[i]).1 && t.frame.payload.Datagram?
    ensures var heard := LastHeard(events[..i + 1], t.hop);
            heard.Some? && heard.value.1 < 30000 && t.frame.dst == heard.value.0
  {
    RunPrefix(run, events, i + 1);
    CacheIsFresh(run[..i + 2], events[..i + 1], t.hop);
    assert run[i + 1] == Step(run[i], events[i]).0;
    StepAddresses(run[i], events[i], t);
    hide Step, IsRun;
  }
}
