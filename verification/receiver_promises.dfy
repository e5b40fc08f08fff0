/** What the receiver promises its peer: acknowledgments and window mean what they say. */
module ReceiverPromises {
  import opened Machine
  import opened WrappingIntegers
  import opened ByteStreams
  import opened Assembling
  import opened AssemblyRuns
  import opened TcpMessages
  import opened TcpReceiving

  lemma WrapTellsNeighboursApart(n: u64, zero: Wrap32)
    requires n + 1 < TWO64
    ensures Wrap(n, zero) != Wrap(n + 1, zero)
  {
    WrapIsOffset(n, zero, Wrap(n, zero));
    WrapIsOffset(n + 1, zero, Wrap(n, zero));
  }

  /** What the receiver acknowledges: SYN, the bytes pushed, and FIN if the stream is closed and FIN was counted. */
  function Acknowledged(r: Receiver): nat {
    1 + |r.asm.out.accepted| + (if r.asm.out.closed && r.finSet then 1 else 0)
  }

  ghost predicate Acking(r: Receiver) {
    r.Valid() && Acknowledged(r) < TWO64 && (r.synSet ==> r.ackno == Some(Wrap(Acknowledged(r), r.isn)))
  }

  datatype Event = Segment(m: SenderMessage) | Read(len: nat)

  function Apply(r: Receiver, e: Event): Receiver
    requires r.Valid()
  {
    match e
    case Segment(m) => r.Receive(m)
    case Read(len) => r.Read(len)
  }

  /** Segments and reads stay within the stream-size hypothesis. */
  ghost predicate Possible(r: Receiver, e: Event)
    requires r.Valid()
  {
    match e
    case Segment(m) => r.Fits(m)
    case Read(len) => r.Read(len).Valid()
  }

  lemma AcknowledgedFits(r: Receiver)
    requires r.Valid()
    ensures Acknowledged(r) < TWO64
  {
  }

  lemma SegmentKeepsAcking(r: Receiver, m: SenderMessage)
    requires Acking(r)
    ensures Acking(r.Receive(m))
  {
    hide Assembly.Insert, Assembly.Valid, Receiver.StreamIndex, Receiver.Valid, Wrap, Receiver.IsnAfter;
    ReceiveKeepsValid(r, m);
    AcknowledgedFits(r.Receive(m));
    if r.Rejects(m) {
      assert r.Receive(m).ackno == r.ackno && Acknowledged(r.Receive(m)) == Acknowledged(r);
    } else {
      assert r.Receive(m).ackno == Some(Wrap(Acknowledged(r.Receive(m)), r.Receive(m).isn)) || !r.Receive(m).synSet;
    }
  }

  lemma EventKeepsAcking(r: Receiver, e: Event)
    requires Acking(r) && Possible(r, e)
    ensures Acking(Apply(r, e))
  {
    match e
    case Segment(m) => SegmentKeepsAcking(r, m);
    case Read(len) => hide Assembly.Valid, Wrap;
  }

  /** An insert never forgets: the output only grows, and stays closed. */
  lemma InsertIsMonotone(a: Assembly, first: nat, data: seq<u8>, last: bool)
    requires a.Valid()
    ensures a.out.accepted <= a.Insert(first, data, last).out.accepted
    ensures a.out.closed ==> a.Insert(first, data, last).out.closed
    ensures a.Insert(first, data, last).end.Some? ==> a.end.Some? || last
    ensures a.Insert(first, data, last).out.closed ==> a.out.closed || a.end.Some? || last
    ensures a.Insert(first, data, last).out.error == a.out.error
  {
    InsertKeepsWindow(a, first, data, last);
  }

  // ---- What arrived ----

  predicate ResetArrived(events: seq<Event>)
    decreases |events|
  {
    && events != []
    && var e := events[|events| - 1];
       ResetArrived(events[..|events| - 1]) || (e.Segment? && e.m.RST)
  }

  /** A segment with SYN arrived and was not rejected. */
  predicate SynArrived(events: seq<Event>)
    decreases |events|
  {
    && events != []
    && var e := events[|events| - 1];
       SynArrived(events[..|events| - 1]) || (e.Segment? && e.m.SYN && !ResetArrived(events))
  }

  /** A segment with FIN arrived together with SYN or after it, and was not rejected. */
  predicate FinArrivedAfterSyn(events: seq<Event>)
    decreases |events|
  {
    && events != []
    && var e := events[|events| - 1];
       FinArrivedAfterSyn(events[..|events| - 1]) || (e.Segment? && e.m.FIN && SynArrived(events) && !ResetArrived(events))
  }

  ghost predicate IsRun(run: seq<Receiver>, events: seq<Event>) {
    && |run| == |events| + 1
    && forall i :: 0 <= i < |events| ==> run[i].Valid() && Possible(run[i], events[i]) && run[i + 1] == Apply(run[i], events[i])
  }

  /** The receiver's flags say what arrived. */
  ghost predicate Remembers(r: Receiver, events: seq<Event>) {
    && r.asm.out.error == ResetArrived(events) && (r.rst ==> r.asm.out.error)
    && r.synSet == SynArrived(events)
    && r.finSet == FinArrivedAfterSyn(events)
  }

  lemma EventIsRemembered(r: Receiver, events: seq<Event>, e: Event)
    requires r.Valid() && Remembers(r, events)
    ensures Remembers(Apply(r, e), events + [e])
  {
    assert (events + [e])[..|events|] == events;
    if e.Segment? && !r.Rejects(e.m) {
      InsertIsMonotone(r.asm, r.StreamIndex(e.m), e.m.payload, e.m.FIN);
    }
    hide Assembly.Insert, Assembly.Valid, Receiver.StreamIndex, Wrap;
  }

  lemma {:induction false} RunIsRemembered(capacity: nat, run: seq<Receiver>, events: seq<Event>)
    requires 1 <= capacity <= TWO31
    requires IsRun(run, events) && run[0] == NewReceiver(capacity)
    ensures Acking(run[|events|]) && Remembers(run[|events|], events)
    decreases |events|
  {
    if events == [] {
    } else {
      var n := |events| - 1;
      RunIsRemembered(capacity, run[..n + 1], events[..n]);
      EventKeepsAcking(run[n], events[n]);
      EventIsRemembered(run[n], events[..n], events[n]);
      assert events[..n] + [events[n]] == events;
    }
  }

  /**
   * In every run of a new receiver that has seen SYN: the acknowledgment names the next number needed if and only
   * if the stream is open or a FIN arrived with SYN or after it.
   */
  lemma AckIsExactOverRuns(capacity: nat, run: seq<Receiver>, events: seq<Event>)
    requires 1 <= capacity <= TWO31
    requires IsRun(run, events) && run[0] == NewReceiver(capacity) && SynArrived(events)
    ensures var r := run[|events|];
            && r.NextNeeded() < TWO64
            && (r.ackno == Some(Wrap(r.NextNeeded(), r.isn)) <==> (r.asm.out.closed ==> FinArrivedAfterSyn(events)))
  {
    var r := run[|events|];
    RunIsRemembered(capacity, run, events);
    WrapTellsNeighboursApart(1 + |r.asm.out.accepted|, r.isn);
    hide Wrap, Assembly.Valid, FinArrivedAfterSyn, SynArrived, IsRun;
  }

  /** In every run of a new receiver: what it sends carries RST once one arrived, and a number once SYN arrived. */
  lemma AnswerOverRuns(capacity: nat, run: seq<Receiver>, events: seq<Event>)
    requires 1 <= capacity <= TWO31
    requires IsRun(run, events) && run[0] == NewReceiver(capacity)
    ensures run[|events|].Valid()
    ensures var answer := run[|events|].Send();
            && (answer.RST <==> ResetArrived(events))
            && (answer.ackno.Some? <==> SynArrived(events))
            && (answer.ackno.Some? ==> answer.ackno == run[|events|].ackno)
  {
    RunIsRemembered(capacity, run, events);
    hide Wrap, Assembly.Valid, FinArrivedAfterSyn, SynArrived, ResetArrived, IsRun;
  }

  /** For one segment: the acknowledgment is right exactly if FIN was counted by the time the stream is closed. */
  lemma AckNamesNextNeeded(r: Receiver, m: SenderMessage)
    requires r.Valid() && !r.Rejects(m) && (r.synSet || m.SYN)
    ensures var r' := r.Receive(m);
            && r'.NextNeeded() < TWO64
            && (r'.ackno == Some(Wrap(r'.NextNeeded(), r'.isn)) <==> (r'.asm.out.closed ==> r'.finSet))
  {
    var r' := r.Receive(m);
    ReceiveKeepsValid(r, m);
    WrapTellsNeighboursApart(1 + |r'.asm.out.accepted|, r'.isn);
    hide Wrap, Assembly.Insert, Receiver.StreamIndex;
  }

  // ---- When no FIN comes before SYN ----

  /** Whenever the end of the stream is known, the FIN that told it came with or after SYN. */
  ghost predicate FinAfterSyn(r: Receiver) {
    r.asm.end.Some? || r.asm.out.closed ==> r.finSet
  }

  ghost predicate Promising(r: Receiver) {
    && r.Valid() && FinAfterSyn(r)
    && (r.synSet ==> r.ackno == Some(Wrap(r.NextNeeded(), r.isn)))
  }

  /** A FIN never comes before SYN. */
  ghost predicate Allowed(r: Receiver, e: Event)
    requires r.Valid()
  {
    Possible(r, e) && (e.Segment? && e.m.FIN ==> r.synSet || e.m.SYN)
  }

  lemma PromisingIsAcking(r: Receiver)
    ensures Promising(r) <==> Acking(r) && FinAfterSyn(r)
  {
    if r.Valid() {
      AcknowledgedFits(r);
    }
    hide Assembly.Valid, Receiver.Valid, Wrap;
    if FinAfterSyn(r) {
      assert Acknowledged(r) == r.NextNeeded();
    }
  }

  lemma EventKeepsFinAfterSyn(r: Receiver, e: Event)
    requires r.Valid() && FinAfterSyn(r) && Allowed(r, e)
    ensures FinAfterSyn(Apply(r, e))
    ensures r.NextNeeded() <= Apply(r, e).NextNeeded()
    ensures r.synSet ==> Apply(r, e).synSet
  {
    if e.Segment? && !r.Rejects(e.m) {
      InsertIsMonotone(r.asm, r.StreamIndex(e.m), e.m.payload, e.m.FIN);
    }
    hide Assembly.Insert, Receiver.StreamIndex, Wrap, Assembly.Valid, Receiver.Fits;
  }

  /** Every event keeps the promise, and the next number needed never goes down. */
  lemma EventKeepsPromise(r: Receiver, e: Event)
    requires Promising(r) && Allowed(r, e)
    ensures Promising(Apply(r, e))
    ensures r.NextNeeded() <= Apply(r, e).NextNeeded()
    ensures r.synSet ==> Apply(r, e).synSet
  {
    PromisingIsAcking(r);
    EventKeepsAcking(r, e);
    EventKeepsFinAfterSyn(r, e);
    hide Apply, Acking, FinAfterSyn, Assembly.Valid, Wrap, Receiver.Fits;
    PromisingIsAcking(Apply(r, e));
  }

  /** In every run without a FIN before SYN, after SYN the acknowledgment names the next number needed, which never decreases. */
  lemma {:induction false} AckPromiseOverRuns(capacity: nat, run: seq<Receiver>, events: seq<Event>)
    requires 1 <= capacity <= TWO31
    requires IsRun(run, events) && run[0] == NewReceiver(capacity)
    requires forall i :: 0 <= i < |events| ==> Allowed(run[i], events[i])
    ensures Promising(run[|events|])
    ensures forall i :: 0 <= i <= |events| ==> run[i].NextNeeded() <= run[|events|].NextNeeded()
  {
    if events == [] {
    } else {
      var n := |events| - 1;
      AckPromiseOverRuns(capacity, run[..n + 1], events[..n]);
      EventKeepsPromise(run[n], events[n]);
      forall i | 0 <= i <= n + 1
        ensures run[i].NextNeeded() <= run[n + 1].NextNeeded()
      {
        assert i <= n ==> run[..n + 1][i] == run[i];
      }
    }
  }

  lemma {:induction false} BoundedKeys(keys: set<nat>, lo: nat, n: nat)
    requires forall i :: i in keys ==> lo <= i < lo + n
    ensures |keys| <= n
  {
    if n == 0 {
      assert forall i :: i !in keys;
      assert keys == {};
    } else {
      BoundedKeys(keys - {lo + n - 1}, lo, n - 1);
    }
  }

  lemma PendingIsBounded(a: Assembly)
    requires a.Valid()
    ensures |a.pending| <= a.out.Available() <= a.out.capacity
  {
    BoundedKeys(a.pending.Keys, |a.out.accepted| + 1, a.out.Available());
  }

  /** The advertised window is never more than the receiver can take, whatever its capacity. */
  lemma WindowIsAvailable(r: Receiver)
    requires r.Valid()
    ensures r.Send().windowSize <= r.asm.out.Available()
    ensures |r.asm.pending| <= 65535 ==> r.Send().windowSize == Min(65535 - |r.asm.pending|, r.asm.out.Available())
    ensures |r.asm.pending| > 65535 ==> r.Send().windowSize == r.asm.out.Available() % 0x1_0000
    ensures r.asm.out.capacity <= 65535 ==> |r.asm.pending| <= 65535
  {
    PendingIsBounded(r.asm);
  }

  /** Every byte inside the advertised window is kept by the next segment that carries it. */
  lemma WindowBytesAreKept(r: Receiver, m: SenderMessage, i: nat)
    requires r.Valid() && !r.Rejects(m)
    requires |r.asm.out.accepted| <= i < |r.asm.out.accepted| + r.Send().windowSize
    requires r.StreamIndex(m) <= i < r.StreamIndex(m) + |m.payload|
    ensures i in r.Receive(m).asm.Known()
  {
    var first := r.StreamIndex(m);
    WindowIsAvailable(r);
    InsertMeetsIntent(r.asm, first, m.payload, m.FIN);
    InsertExtendsKnown(r.asm, first, m.payload, m.FIN);
    assert i in Clip(Bytes(first, m.payload), r.asm.out.Limit());
  }

  lemma TwoSegmentsAreRun(r: Receiver, m: SenderMessage, m': SenderMessage)
    requires r.Valid() && r.Fits(m) && r.Receive(m).Valid() && r.Receive(m).Fits(m')
    ensures IsRun([r, r.Receive(m), r.Receive(m).Receive(m')], [Segment(m), Segment(m')])
  {
    hide Receiver.Receive, Receiver.Fits, Receiver.Valid;
  }

  lemma FinClosesEmpty(capacity: nat)
    requires 1 <= capacity <= TWO31
    ensures var fin, r0 := SenderMessage(Wrap32(0), false, [], true, false), NewReceiver(capacity);
            && r0.Valid() && r0.Fits(fin)
            && r0.Receive(fin).Valid() && r0.Receive(fin).asm.out.closed && !r0.Receive(fin).asm.out.error
            && r0.Receive(fin).streamSeqno == 0
  {
    var fin, r0 := SenderMessage(Wrap32(0), false, [], true, false), NewReceiver(capacity);
    ReceiveKeepsValid(r0, fin);
    assert r0.StreamIndex(fin) == 0;
    assert r0.asm.Learn(0, []) == map[];
    assert RunEnd(map[], 1, capacity) == 1;
    assert Collect(map[], 1, 1) == [];
  }

  lemma SynFitsClosed(r: Receiver, isn: Wrap32)
    requires r.Valid() && r.asm.out.closed && r.streamSeqno == 0 && !r.asm.out.error
    ensures var syn := SenderMessage(isn, true, [], false, false);
            r.Fits(syn) && r.Receive(syn).asm.out.closed
  {
    var syn := SenderMessage(isn, true, [], false, false);
    WrapRoundTrip(0, isn, 0);
    assert isn.Plus(1).Plus(TWO32 - 1) == Wrap(0, isn);
    InsertIsMonotone(r.asm, r.StreamIndex(syn), [], false);
    hide Assembly.Insert, Assembly.Valid, Wrap32.Unwrap, Wrap;
  }

  lemma EarlyFinIsNotCounted(fin: SenderMessage, syn: SenderMessage)
    requires !fin.SYN && !fin.RST && syn.SYN && !syn.FIN && !syn.RST
    ensures SynArrived([Segment(fin), Segment(syn)]) && !FinArrivedAfterSyn([Segment(fin), Segment(syn)])
  {
    var events := [Segment(fin), Segment(syn)];
    assert events[..1] == [Segment(fin)] && [Segment(fin)][..0] == [];
    assert !ResetArrived([Segment(fin)]) && !ResetArrived(events);
    assert !SynArrived([Segment(fin)]);
    assert !FinArrivedAfterSyn([Segment(fin)]);
  }

  /**
   * A run with an empty FIN and then SYN: the stream closes, no FIN arrived after SYN, and so the acknowledgment is
   * one too low.
   */
  lemma EarlyFinUnderstatesAck(capacity: nat, isn: Wrap32) returns (run: seq<Receiver>, events: seq<Event>)
    requires 1 <= capacity <= TWO31
    ensures IsRun(run, events) && run[0] == NewReceiver(capacity) && SynArrived(events)
    ensures events == [Segment(SenderMessage(Wrap32(0), false, [], true, false)),
                       Segment(SenderMessage(isn, true, [], false, false))]
    ensures var r := run[2];
            r.asm.out.closed && r.NextNeeded() < TWO64 && r.ackno != Some(Wrap(r.NextNeeded(), r.isn))
  {
    var fin := SenderMessage(Wrap32(0), false, [], true, false);
    var syn := SenderMessage(isn, true, [], false, false);
    var r0 := NewReceiver(capacity);
    var r1 := r0.Receive(fin);
    FinClosesEmpty(capacity);
    SynFitsClosed(r1, isn);
    hide Receiver.Receive, Receiver.Fits, Receiver.Valid, Wrap, SynArrived, FinArrivedAfterSyn;
    run, events := [r0, r1, r1.Receive(syn)], [Segment(fin), Segment(syn)];
    TwoSegmentsAreRun(r0, fin, syn);
    EarlyFinIsNotCounted(fin, syn);
    hide IsRun;
    AckIsExactOverRuns(capacity, run, events);
  }
}
