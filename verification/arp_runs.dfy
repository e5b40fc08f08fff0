/** What an interface does over whole runs: how fresh its cache is, how often it asks, and what becomes of every datagram. */
module ArpRuns {
  import opened Machine
  import opened Ipv4
  import opened NetworkInterfaces

  datatype Event = Submit(d: InternetDatagram, hop: u32) | Receive(frame: EthernetFrame) | Elapse(ms: nat)

  function Step(s: Interface, e: Event): (Interface, seq<Transmission>) {
    match e
    case Submit(d, hop) => s.SendDatagram(d, hop)
    case Receive(frame) => s.RecvFrame(frame)
    case Elapse(ms) => (s.Tick(ms), [])
  }

  /** A run of a new interface. */
  ghost predicate IsRun(run: seq<Interface>, events: seq<Event>) {
    && |run| == |events| + 1
    && run[0] == NewInterface(run[0].mac, run[0].ip)
    && forall i :: 0 <= i < |events| ==> run[i + 1] == Step(run[i], events[i]).0
  }

  lemma RunPrefix(run: seq<Interface>, events: seq<Event>, n: nat)
    requires IsRun(run, events) && n <= |events|
    ensures IsRun(run[..n + 1], events[..n])
  {
  }

  predicate HeardFrom(e: Event, hop: u32) {
    e.Receive? && e.frame.payload.Arp? && e.frame.payload.arp.senderIp == hop
  }

  // ---- Freshness ----

  /** The address in the last ARP message from `hop`, and the time since then. */
  function LastHeard(events: seq<Event>, hop: u32): Option<(EthernetAddress, nat)>
    decreases |events|
  {
    if events == [] then None
    else
      var e, before := events[|events| - 1], LastHeard(events[..|events| - 1], hop);
      if HeardFrom(e, hop) then Some((e.frame.payload.arp.senderMac, 0))
      else if e.Elapse? && before.Some? then Some((before.value.0, before.value.1 + e.ms))
      else before
  }

  ghost predicate Fresh(s: Interface, hop: u32, heard: Option<(EthernetAddress, nat)>) {
    && (hop in s.cache <==> heard.Some? && heard.value.1 < CACHE_MS)
    && (hop in s.cache ==> s.cache[hop] == Learned(heard.value.0, CACHE_MS - heard.value.1))
  }

  /** A cache entry exists exactly for 30 seconds after the last ARP message from that address, and holds what it said. */
  lemma {:induction false} CacheIsFresh(run: seq<Interface>, events: seq<Event>, hop: u32)
    requires IsRun(run, events)
    ensures Fresh(run[|events|], hop, LastHeard(events, hop))
    ensures hop in run[|events|].cache <==> LastHeard(events, hop).Some? && LastHeard(events, hop).value.1 < 30000
    decreases |events|
  {
    if events == [] {
    } else {
      var n := |events| - 1;
      RunPrefix(run, events, n);
      CacheIsFresh(run[..n + 1], events[..n], hop);
      assert run[n + 1] == Step(run[n], events[n]).0;
    }
  }

  // ---- Requests ----

  predicate IsRequest(t: Transmission, hop: u32) {
    t.frame.payload.Arp? && t.frame.payload.arp.opcode == OPCODE_REQUEST && t.frame.payload.arp.targetIp == hop
  }

  predicate Requests(out: seq<Transmission>, hop: u32) {
    exists i :: 0 <= i < |out| && IsRequest(out[i], hop)
  }

  lemma FlushHasNoRequest(src: EthernetAddress, dst: EthernetAddress, to: u32, queue: seq<InternetDatagram>)
    ensures forall t :: t in Flush(src, dst, to, queue) ==> t.frame.payload.Datagram? && t.hop == to && t.frame.dst == dst
  {
  }

  /** A request for an address goes out exactly when a datagram is submitted for it and no request is pending. */
  lemma StepRequests(s: Interface, e: Event, hop: u32)
    ensures Requests(Step(s, e).1, hop) <==> e.Submit? && e.hop == hop
                                             && hop !in s.cache && (hop !in s.pending || s.pending[hop].age > 5000)
  {
    match e
    case Submit(d, to) =>
      if to == hop && s.Asks(hop) {
        assert IsRequest(Step(s, e).1[0], hop);
      }
    case Receive(frame) =>
      if frame.payload.Arp? {
        var arp := frame.payload.arp;
        FlushHasNoRequest(s.mac, arp.senderMac, arp.senderIp, s.Queued(arp.senderIp));
        var out := Step(s, e).1;
        forall i | 0 <= i < |out|
          ensures !IsRequest(out[i], hop)
        {
          assert out[i] in out;
        }
      }
    case Elapse(ms) =>
  }

  /** What the state says about the time since the last request for `hop`. */
  ghost predicate Quiet(s: Interface, hop: u32, sinceRequest: nat) {
    if hop in s.cache then hop !in s.pending && sinceRequest + s.cache[hop].remaining >= CACHE_MS
    else if hop in s.pending then s.pending[hop].age == sinceRequest <= PENDING_MS
    else sinceRequest > PENDING_MS
  }

  function TimeOf(e: Event): nat {
    if e.Elapse? then e.ms else 0
  }

  lemma StillQuiet(s: Interface, e: Event, hop: u32, sinceRequest: nat)
    requires Quiet(s, hop, sinceRequest)
    ensures Requests(Step(s, e).1, hop) ==> sinceRequest > PENDING_MS
    ensures !Requests(Step(s, e).1, hop) ==> Quiet(Step(s, e).0, hop, sinceRequest + TimeOf(e))
  {
    StepRequests(s, e, hop);
    hide Requests, Flush;
  }

  /** The time that passes in `events[i..j]`. */
  function Elapsed(events: seq<Event>, i: nat, j: nat): nat
    requires i <= j <= |events|
  {
    if i == j then 0 else Elapsed(events, i, j - 1) + TimeOf(events[j - 1])
  }

  ghost predicate NeverBoth(s: Interface) {
    s.cache.Keys !! s.pending.Keys && forall hop :: hop in s.pending ==> s.pending[hop].age <= 5000
  }

  /** No address is both cached and pending, and nothing is pending longer than five seconds. */
  lemma {:induction false} NeverBothOverRuns(run: seq<Interface>, events: seq<Event>)
    requires IsRun(run, events)
    ensures NeverBoth(run[|events|])
    decreases |events|
  {
    if events == [] {
    } else {
      var n := |events| - 1;
      RunPrefix(run, events, n);
      NeverBothOverRuns(run[..n + 1], events[..n]);
      assert run[n + 1] == Step(run[n], events[n]).0;
      hide Flush;
    }
  }

  /** Between a request and the next moment considered, either more than five seconds have passed or the state is quiet. */
  lemma {:induction false} QuietAfterRequest(run: seq<Interface>, events: seq<Event>, i: nat, j: nat, hop: u32)
    requires IsRun(run, events) && i < j <= |events|
    requires Requests(Step(run[i], events[i]).1, hop)
    ensures Elapsed(events, i + 1, j) > PENDING_MS || Quiet(run[j], hop, Elapsed(events, i + 1, j))
    decreases j
  {
    assert run[j] == Step(run[j - 1], events[j - 1]).0;
    if j == i + 1 {
      StepRequests(run[i], events[i], hop);
      RunPrefix(run, events, i);
      NeverBothOverRuns(run[..i + 1], events[..i]);
      hide Requests, IsRun;
    } else {
      QuietAfterRequest(run, events, i, j - 1, hop);
      hide Requests, IsRun, Step, Quiet;
      if Elapsed(events, i + 1, j - 1) <= PENDING_MS {
        StillQuiet(run[j - 1], events[j - 1], hop, Elapsed(events, i + 1, j - 1));
      }
    }
  }

  /** Any two requests for the same address are more than five seconds apart. */
  lemma RequestsLieApart(run: seq<Interface>, events: seq<Event>, i: nat, j: nat, hop: u32)
    requires IsRun(run, events) && i < j < |events|
    requires Requests(Step(run[i], events[i]).1, hop) && Requests(Step(run[j], events[j]).1, hop)
    ensures Elapsed(events, i + 1, j) > 5000
  {
    QuietAfterRequest(run, events, i, j, hop);
    if Elapsed(events, i + 1, j) <= PENDING_MS {
      StillQuiet(run[j], events[j], hop, Elapsed(events, i + 1, j));
    }
  }
}
