/** What holds in every reachable state of a connection. */
module ConnectionRuns {
  import opened Machine
  import opened WrappingIntegers
  import opened ByteStreams
  import opened Assembling
  import opened AssemblyRuns
  import opened TcpMessages
  import opened TcpSending
  import opened TcpReceiving
  import opened SenderInvariants
  import SenderRuns
  import ReceiverPromises
  import opened Connection
  import opened ConnectionSending
  import opened ConnectionReceiving
  import opened ConnectionAcks

  lemma StepIsDefined(c: System, step: Step)
    requires Inv(c)
    ensures c.sender.input.Valid() && c.sender.absSeqno < TWO64 && c.receiver.Valid()
    ensures step.DeliverAck? && Enabled(c, step) ==> step.a.ackno.Some?
  {
    GoodIsCounted(c.sender);
    hide SenderRuns.Good, SentBy;
  }

  lemma WriteKeepsInv(c: System, data: seq<u8>)
    requires Inv(c) && c.receiver.Valid() && c.sender.input.Valid() && Enabled(c, Step.Write(data))
    ensures Inv(c.(sender := c.sender.(input := c.sender.input.Push(data))))
  {
    hide Inv;
    InputKeepsInv(c, c.sender.input.Push(data));
  }

  lemma CloseKeepsInv(c: System)
    requires Inv(c) && c.sender.input.Valid()
    ensures Inv(c.(sender := c.sender.(input := c.sender.input.Close())))
  {
    assert |c.sender.input.accepted| + c.receiver.asm.out.capacity <= TWO31;
    hide Inv;
    InputKeepsInv(c, c.sender.input.Close());
  }

  lemma StepKeepsInv(c: System, step: Step)
    requires c.receiver.Valid() && Inv(c) && Enabled(c, step)
    ensures c.sender.input.Valid() && c.sender.absSeqno < TWO64 && (step.DeliverAck? ==> step.a.ackno.Some?)
    ensures Inv(Next(c, step))
  {
    StepIsDefined(c, step);
    hide Inv;
    match step
    case Write(data) => WriteKeepsInv(c, data);
    case Close => CloseKeepsInv(c);
    case Push => PushKeepsInv(c);
    case SendEmpty => EmptyKeepsInv(c);
    case Tick(ms) => TickKeepsInv(c, ms);
    case DeliverSegment(m) => DeliverKeepsInv(c, m);
    case SendAck => SendAckKeepsInv(c);
    case DeliverAck(a) => DeliverAckKeepsInv(c, a);
    case Read(len) => ReadKeepsInv(c, len);
  }

  lemma StartKeepsInv(sendCapacity: nat, receiveCapacity: nat, isn: Wrap32, initialRto: nat)
    requires initialRto >= 1 && 1 <= receiveCapacity <= TWO31
    ensures Inv(Start(sendCapacity, receiveCapacity, isn, initialRto))
  {
    var c := Start(sendCapacity, receiveCapacity, isn, initialRto);
    SenderRuns.NewIsGood(sendCapacity, isn, initialRto);
    assert forall i: nat :: i !in c.receiver.asm.Known();
    hide SenderRuns.Good;
  }

  ghost predicate IsStep(c: System, step: Step, c': System) {
    && c.receiver.Valid() && c.sender.input.Valid() && c.sender.absSeqno < TWO64
    && (step.DeliverAck? ==> step.a.ackno.Some?)
    && Enabled(c, step)
    && c' == Next(c, step)
  }

  ghost predicate IsRun(run: seq<System>, steps: seq<Step>) {
    && |run| == |steps| + 1
    && forall i :: 0 <= i < |steps| ==> IsStep(run[i], steps[i], run[i + 1])
  }

  /** A run of a connection between a new sender and a new receiver. */
  ghost predicate IsConnection(run: seq<System>, steps: seq<Step>) {
    && IsRun(run, steps)
    && run[0].sender.initialRto >= 1 && 1 <= run[0].receiver.asm.out.capacity <= TWO31
    && run[0] == Start(run[0].sender.input.capacity, run[0].receiver.asm.out.capacity, run[0].sender.isn, run[0].sender.initialRto)
  }

  lemma {:induction false} InvOverRuns(run: seq<System>, steps: seq<Step>)
    requires IsConnection(run, steps)
    ensures Inv(run[|steps|])
    decreases |steps|
  {
    if steps == [] {
      StartKeepsInv(run[0].sender.input.capacity, run[0].receiver.asm.out.capacity, run[0].sender.isn, run[0].sender.initialRto);
    } else {
      var n := |steps| - 1;
      InvOverRuns(run[..n + 1], steps[..n]);
      assert IsStep(run[n], steps[n], run[n + 1]);
      hide Inv, Enabled, Next;
      StepKeepsInv(run[n], steps[n]);
    }
  }

  /**
   * End to end: whatever the network does, the bytes the receiver has written out are a prefix of those the
   * sender accepted; when its stream is closed they are all of them, and the sender had closed.
   */
  lemma EndToEnd(run: seq<System>, steps: seq<Step>)
    requires IsConnection(run, steps)
    ensures var c := run[|steps|];
            && c.receiver.asm.out.accepted <= c.sender.input.accepted
            && (c.receiver.asm.out.closed ==> c.receiver.asm.out.accepted == c.sender.input.accepted && c.sender.input.closed)
  {
    InvOverRuns(run, steps);
    var c := run[|steps|];
    OutputIsSent(c.sender, c.receiver);
    GoodIsCounted(c.sender);
    hide SenderRuns.Good, Assembly.Known, SentBy, AckTrue, Processed;
  }

  /** The receiver's output holds a segment: its bytes are there, and if it carries FIN the stream is closed. */
  ghost predicate Arrived(r: Receiver, e: Outstanding) {
    var start := PayloadStart(e.first);
    && start + |e.message.payload| <= |r.asm.out.accepted|
    && r.asm.out.accepted[start..start + |e.message.payload|] == e.message.payload
    && (e.message.FIN ==> r.asm.out.closed)
  }

  /** A segment that carries its part of the stream, and lies below what the receiver needs next, has arrived. */
  lemma BelowNeededArrived(s: Sender, r: Receiver, e: Outstanding)
    requires Received(s, r) && Carries(e.first, e.message, s.isn, s.input) && e.End() <= r.NextNeeded()
    ensures Arrived(r, e)
  {
    OutputIsSent(s, r);
    hide Assembly.Known, ReceiverPromises.Promising, Wrap;
  }

  lemma AckedBelowNewest(s: Sender, i: nat)
    requires Consistent(s) && i < |s.acked|
    ensures Carries(s.acked[i].first, s.acked[i].message, s.isn, s.input)
    ensures s.acked[i].End() <= s.acked[|s.acked| - 1].End()
  {
    var n, all := |s.acked| - 1, s.acked + s.buffer;
    ChainAt(all, s.absSeqno, s.isn, s.input, i);
    assert all[i] == s.acked[i] && all[n] == s.acked[n];
    if i < n {
      ChainRises(all, s.absSeqno, s.isn, s.input, i, n);
    }
  }

  lemma AckedArrived(c: System, i: nat)
    requires Inv(c) && i < |c.sender.acked|
    ensures Arrived(c.receiver, c.sender.acked[i])
  {
    AckedBelowNewest(c.sender, i);
    hide Received, SentBy, AckTrue, Consistent, Carries, Arrived, Outstanding.End;
    BelowNeededArrived(c.sender, c.receiver, c.sender.acked[i]);
  }

  /**
   * Acknowledgments never lie: none in the network, and none processed, names more than the receiver needs next;
   * and every segment the sender has dropped from its buffer has arrived.
   */
  lemma AcksNeverLie(run: seq<System>, steps: seq<Step>)
    requires IsConnection(run, steps)
    ensures var c := run[|steps|];
            && (forall a :: a in c.acks ==> a.ackno.Some? && a.ackno.value.Offset(c.sender.isn) <= c.receiver.NextNeeded())
            && c.sender.lastAck <= c.receiver.NextNeeded()
            && (forall e :: e in c.sender.acked ==> Arrived(c.receiver, e))
  {
    var c := run[|steps|];
    InvOverRuns(run, steps);
    forall e | e in c.sender.acked
      ensures Arrived(c.receiver, e)
    {
      var i :| 0 <= i < |c.sender.acked| && c.sender.acked[i] == e;
      AckedArrived(c, i);
    }
    assert forall a :: a in c.acks ==> AckTrue(c.sender.isn, c.receiver, a);
    hide SenderRuns.Good, Received, SentBy, Arrived;
  }

  /** What is in flight never exceeds the receiver's capacity. */
  lemma InFlightFitsReceiver(run: seq<System>, steps: seq<Step>)
    requires IsConnection(run, steps)
    ensures InFlight(run[|steps|].sender.buffer) <= run[|steps|].sender.maxWindow <= run[|steps|].receiver.asm.out.capacity
  {
    InvOverRuns(run, steps);
    hide Received, SentBy, AckTrue, Consistent;
  }

  /** An empty substring at index 0 does harm only if it is not the last and something later is known. */
  lemma HazardIsNotLast(a: Assembly, start: nat, data: seq<u8>, last: bool, sent: seq<u8>, fin: bool, length: nat)
    requires Truthful(a, sent, fin, length) && a.Hazard(start, data, last)
    requires last ==> start + |data| == length
    ensures start == 0 && data == [] && !last && a.out.accepted == [] && (a.pending != map[] || a.end.Some?)
  {
    assert 1 in a.pending ==> 1 in a.Known();
    hide Assembly.Known, Assembly.Valid;
  }

  /** A bare SYN, or an empty segment, for the start of the stream, while nothing is written out yet. */
  ghost predicate EmptyAtStart(r: Receiver, m: SenderMessage)
    requires r.Valid()
  {
    r.StreamIndex(m) == 0 && m.payload == [] && !m.FIN && r.synSet && r.asm.out.accepted == []
  }

  lemma ExcludedIsEmptyAtStart(s: Sender, r: Receiver, m: SenderMessage)
    requires Counted(s) && SentBy(s, m) && Bounded(s, r) && Received(s, r) && (m.SYN || r.synSet)
    requires r.asm.Hazard(r.StreamIndex(m), m.payload, m.FIN)
    ensures EmptyAtStart(r, m)
  {
    SegmentInserts(s, r, m);
    PayloadWasPopped(s, m);
    ReceivedIsTruthful(s, r);
    hide ReceiverPromises.Promising, Assembly.Known, Wrap, Receiver.StreamIndex, Truthful, Assembly.Hazard, Counted, SentBy, Receiver.Receive;
    HazardIsNotLast(r.asm, r.StreamIndex(m), m.payload, m.FIN, s.input.accepted[..s.input.popped], s.finSet, |s.input.accepted|);
  }

  lemma SegmentMayArrive(c: System, m: SenderMessage)
    requires Inv(c) && m in c.segments
    ensures Counted(c.sender) && SentBy(c.sender, m) && Bounded(c.sender, c.receiver) && Received(c.sender, c.receiver)
    ensures m.SYN || c.receiver.synSet
  {
    GoodIsCounted(c.sender);
    assert SentBy(c.sender, m);
    hide SenderRuns.Good, AckTrue, Received;
  }

  /** Every segment in the network can be received, unless it is an empty one for the start of the stream, before the first byte. */
  lemma OnlyEmptyAtStartIsExcluded(run: seq<System>, steps: seq<Step>, m: SenderMessage)
    requires IsConnection(run, steps) && m in run[|steps|].segments
    ensures run[|steps|].receiver.Valid()
    ensures Enabled(run[|steps|], DeliverSegment(m)) || EmptyAtStart(run[|steps|].receiver, m)
  {
    var c := run[|steps|];
    InvOverRuns(run, steps);
    GoodIsCounted(c.sender);
    SegmentMayArrive(c, m);
    hide Inv, Counted, Assembly.Hazard, Receiver.StreamIndex;
    if !Enabled(c, DeliverSegment(m)) {
      ExcludedIsEmptyAtStart(c.sender, c.receiver, m);
    }
  }

  lemma LastAckedEndsAll(s: Sender)
    requires SenderRuns.Good(s) && s.finSet && s.buffer == []
    ensures s.acked != [] && s.acked[|s.acked| - 1].End() == s.absSeqno == |s.input.accepted| + 2
  {
    assert s.acked + s.buffer == s.acked;
  }

  /** When every segment sent is acknowledged, FIN among them, the receiver has the whole stream and has closed it. */
  lemma AllAckedMeansDelivered(run: seq<System>, steps: seq<Step>)
    requires IsConnection(run, steps)
    requires run[|steps|].sender.finSet && run[|steps|].sender.buffer == []
    ensures run[|steps|].receiver.asm.out.accepted == run[|steps|].sender.input.accepted && run[|steps|].receiver.asm.out.closed
  {
    var c := run[|steps|];
    InvOverRuns(run, steps);
    EndToEnd(run, steps);
    GoodIsCounted(c.sender);
    LastAckedEndsAll(c.sender);
    hide SenderRuns.Good, Received, SentBy, AckTrue, Outstanding.End, IsConnection;
  }
}
