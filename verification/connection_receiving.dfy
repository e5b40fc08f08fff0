/** The receiver's steps, and the acknowledgments, keep the connection's invariant. */
module ConnectionReceiving {
  import opened Machine
  import opened WrappingIntegers
  import opened Assembling
  import opened AssemblyRuns
  import opened TcpMessages
  import opened TcpSending
  import opened TcpReceiving
  import opened SenderInvariants
  import opened ReceiverPromises
  import SenderRuns
  import opened Connection

  // ---- A segment arrives ----

  /** Near the start of the number range the larger number is always found, and the smaller one within 2^31. */
  lemma SmallUnwraps(n: u32, isn: Wrap32, checkpoint: u64)
    requires checkpoint - n <= TWO31
    ensures Wrap(n, isn).Unwrap(isn, checkpoint) == n
  {
    WrapIsOffset(n, isn, Wrap(n, isn));
    if n <= checkpoint {
      WrapRoundTrip(n, isn, checkpoint);
    }
  }

  lemma ShiftBack(first: nat, isn: Wrap32, seqno: Wrap32)
    requires first < TWO32 && seqno == Wrap(first, isn)
    ensures first == 0 ==> seqno == isn && seqno.Plus(1).Plus(TWO32 - 1) == Wrap(0, isn)
    ensures first > 0 ==> seqno.Plus(TWO32 - 1) == Wrap(first - 1, isn)
  {
    assert seqno.raw == if isn.raw + first < TWO32 then isn.raw + first else isn.raw + first - TWO32;
    if first == 0 {
      var up := seqno.Plus(1);
      assert up.raw == if isn.raw + 1 < TWO32 then isn.raw + 1 else 0;
    }
  }

  lemma PlusAndBack(w: Wrap32, seqno: Wrap32)
    ensures w.Plus(1) == seqno <==> w == seqno.Plus(TWO32 - 1)
  {
    assert w.Plus(1).raw == if w.raw + 1 < TWO32 then w.raw + 1 else 0;
    assert seqno.Plus(TWO32 - 1).raw == if seqno.raw == 0 then TWO32 - 1 else seqno.raw - 1;
  }

  lemma WrapOfZero(isn: Wrap32)
    ensures Wrap(0, isn) == isn
  {
  }

  /**
   * SYN stands for index 0. After SYN, of all indices a sequence number can stand for, the receiver takes the one
   * nearest to the number of bytes pushed, the smaller of two.
   */
  lemma IndexIsNearest(r: Receiver, m: SenderMessage, j: u64)
    requires r.Valid() && j + 1 < TWO64
    ensures var i, pushed := r.StreamIndex(m), |r.asm.out.accepted|;
            && (m.SYN ==> i == 0)
            && (r.synSet && !m.SYN ==>
                  && i + 1 < TWO64 && Wrap(i + 1, r.isn) == m.seqno
                  && (Wrap(j + 1, r.isn) == m.seqno ==>
                        Distance(i, pushed) < Distance(j, pushed) || (Distance(i, pushed) == Distance(j, pushed) && i <= j)))
  {
    assert r.streamSeqno <= TWO31;
    hide Wrap32.Plus, Wrap, Wrap32.Unwrap, Assembly.Valid;
    var i := r.StreamIndex(m);
    if m.SYN {
      WrapOfZero(m.seqno);
      ShiftBack(0, m.seqno, m.seqno);
      SmallUnwraps(0, m.seqno, r.streamSeqno);
    } else if r.synSet {
      var shifted := m.seqno.Plus(TWO32 - 1);
      UnwrapIsNearest(shifted, r.isn, r.streamSeqno);
      UnwrapIsCongruent(shifted, r.isn, r.streamSeqno);
      WrapPlus(i, r.isn, 1);
      WrapPlus(j, r.isn, 1);
      PlusAndBack(Wrap(i, r.isn), m.seqno);
      PlusAndBack(Wrap(j, r.isn), m.seqno);
    }
  }

  /** The receiver finds the place of a segment's payload in the stream. */
  lemma IndexIsPayloadStart(s: Sender, r: Receiver, m: SenderMessage)
    requires SentBy(s, m) && Bounded(s, r) && Received(s, r) && (m.SYN || r.synSet)
    requires |r.asm.out.accepted| <= |s.input.accepted|
    ensures r.StreamIndex(m) == PayloadStart(m.seqno.Offset(s.isn)) && !r.Rejects(m) && r.IsnAfter(m) == s.isn
  {
    var first := m.seqno.Offset(s.isn);
    ShiftBack(first, s.isn, m.seqno);
    SmallUnwraps(PayloadStart(first), s.isn, r.streamSeqno);
    hide Promising, Assembly.Known, Wrap32.Unwrap, Wrap, Wrap32.Plus, Wrap32.Offset;
  }

  lemma OutputIsSent(s: Sender, r: Receiver)
    requires Received(s, r)
    ensures r.asm.out.accepted <= s.input.accepted[..s.input.popped]
  {
    FrontierIsOutput(r.asm);
    forall i: nat | i < |r.asm.out.accepted|
      ensures i < s.input.popped && r.asm.out.accepted[i] == s.input.accepted[i]
    {
      assert i in r.asm.Known() && r.asm.Known()[i] == r.asm.out.accepted[i];
    }
    assert |r.asm.out.accepted| > s.input.popped ==> s.input.popped in r.asm.Known();
  }

  /** The payload of a segment in the network was popped from the stream, and FIN is in one only once it was set. */
  lemma PayloadWasPopped(s: Sender, m: SenderMessage)
    requires Counted(s) && SentBy(s, m)
    ensures var start := PayloadStart(m.seqno.Offset(s.isn));
            && (m.payload == []
                || (start + |m.payload| <= s.input.popped
                    && m.payload == s.input.accepted[..s.input.popped][start..start + |m.payload|]))
            && start + |m.payload| <= |s.input.accepted| + 1
            && (m.FIN ==> s.finSet && start + |m.payload| == |s.input.accepted|)
  {
    hide Wrap, Wrap32.Offset;
  }

  lemma InsertKeepsRest(a: Assembly, first: nat, data: seq<u8>, last: bool)
    requires a.Valid()
    ensures var b := a.Insert(first, data, last);
            b.out.error == a.out.error && b.out.popped == a.out.popped && b.out.capacity == a.out.capacity
  {
    hide RunEnd, Collect;
  }

  /** A true substring adds only true bytes. */
  lemma InsertKnowsMore(a: Assembly, start: nat, data: seq<u8>, last: bool, sent: seq<u8>)
    requires a.Valid() && KnownFrom(a, sent)
    requires data == [] || (start + |data| <= |sent| && data == sent[start..start + |data|])
    ensures KnownFrom(a.Intended(start, data, last), sent)
  {
    var b := a.Intended(start, data, last);
    InsertExtendsKnown(a, start, data, last);
    hide Assembly.Intended, Assembly.Known;
    forall i: nat | i in b.Known()
      ensures i < |sent| && b.Known()[i] == sent[i]
    {
      if i !in a.Known() {
        assert ByteAt(data, start, i) == sent[i];
      }
    }
  }

  /** The end becomes known from FIN only, and the stream closes only when it is complete. */
  ghost predicate EndsRight(a: Assembly, fin: bool, length: nat) {
    && (a.end.Some? ==> fin && a.end.value == length)
    && (a.out.closed ==> fin && |a.out.accepted| == length)
  }

  lemma InsertEndsRight(a: Assembly, start: nat, data: seq<u8>, last: bool, fin: bool, length: nat)
    requires a.Valid() && EndsRight(a, fin, length) && (last ==> fin && start + |data| == length)
    requires |a.Intended(start, data, last).out.accepted| <= length
    requires |a.out.accepted| <= |a.Intended(start, data, last).out.accepted|
    ensures EndsRight(a.Intended(start, data, last), fin, length)
  {
    InsertCloses(a, start, data, last);
    hide Assembly.Intended, Assembly.Valid, Assembly.Ignored;
  }

  lemma KnownBoundsOutput(a: Assembly, sent: seq<u8>)
    requires a.Valid() && KnownFrom(a, sent)
    ensures |a.out.accepted| <= |sent|
  {
    FrontierIsOutput(a);
    assert |a.out.accepted| > |sent| ==> |sent| in a.Known();
  }

  /** The bytes and the end a reassembler holds are those of the sender. */
  ghost predicate Truthful(a: Assembly, sent: seq<u8>, fin: bool, length: nat) {
    a.Valid() && KnownFrom(a, sent) && |sent| <= length && EndsRight(a, fin, length)
  }

  lemma InsertIsTruthful(a: Assembly, start: nat, data: seq<u8>, last: bool, sent: seq<u8>, fin: bool, length: nat)
    requires Truthful(a, sent, fin, length) && !a.Hazard(start, data, last)
    requires data == [] || (start + |data| <= |sent| && data == sent[start..start + |data|])
    requires last ==> fin && start + |data| == length
    ensures Truthful(a.Insert(start, data, last), sent, fin, length)
  {
    InsertMeetsIntent(a, start, data, last);
    InsertKeepsWindow(a, start, data, last);
    InsertKnowsMore(a, start, data, last, sent);
    KnownBoundsOutput(a.Insert(start, data, last), sent);
    hide Assembly.Insert, Assembly.Intended, Assembly.Known, Assembly.Valid, Assembly.Hazard, KnownFrom, EndsRight;
    assert |a.out.accepted| <= |a.Insert(start, data, last).out.accepted|;
    InsertEndsRight(a, start, data, last, fin, length);
  }

  lemma ReceivedIsTruthful(s: Sender, r: Receiver)
    requires Received(s, r)
    ensures Truthful(r.asm, s.input.accepted[..s.input.popped], s.finSet, |s.input.accepted|)
  {
    hide Assembly.Known;
  }

  lemma TruthfulIsReceived(s: Sender, r: Receiver)
    requires s.input.popped <= |s.input.accepted|
    requires Truthful(r.asm, s.input.accepted[..s.input.popped], s.finSet, |s.input.accepted|)
    requires Promising(r) && !r.asm.out.error && !r.rst && r.synSet && s.synSet && r.isn == s.isn
    ensures Received(s, r)
  {
    hide Assembly.Known, Promising;
  }

  /** The segment reaches the reassembler as the substring it carries. */
  lemma SegmentInserts(s: Sender, r: Receiver, m: SenderMessage)
    requires Counted(s) && SentBy(s, m) && Bounded(s, r) && Received(s, r) && (m.SYN || r.synSet)
    ensures var start := PayloadStart(m.seqno.Offset(s.isn));
            && r.StreamIndex(m) == start && r.Fits(m) && !r.Rejects(m)
            && r.Receive(m).asm == r.asm.Insert(start, m.payload, m.FIN)
            && r.Receive(m).isn == s.isn && r.Receive(m).rst == r.rst && r.Receive(m).synSet
  {
    OutputIsSent(s, r);
    IndexIsPayloadStart(s, r, m);
    PayloadWasPopped(s, m);
    hide Promising, Assembly.Known, Wrap32.Unwrap, Wrap, Assembly.Insert, Receiver.StreamIndex, Counted;
  }

  lemma SentMeansSyn(s: Sender, m: SenderMessage)
    requires Counted(s) && SentBy(s, m)
    ensures s.synSet && s.input.popped <= |s.input.accepted|
  {
    hide Wrap, Wrap32.Offset;
  }

  lemma SegmentKeepsReceived(s: Sender, r: Receiver, m: SenderMessage)
    requires Counted(s) && SentBy(s, m) && Bounded(s, r) && Received(s, r) && (m.SYN || r.synSet)
    requires !r.asm.Hazard(r.StreamIndex(m), m.payload, m.FIN)
    ensures Received(s, r.Receive(m)) && r.Receive(m).synSet
    ensures r.NextNeeded() <= r.Receive(m).NextNeeded() && r.Receive(m).asm.out.capacity == r.asm.out.capacity
  {
    var start, sent := PayloadStart(m.seqno.Offset(s.isn)), s.input.accepted[..s.input.popped];
    SegmentInserts(s, r, m);
    EventKeepsPromise(r, Segment(m));
    InsertKeepsRest(r.asm, start, m.payload, m.FIN);
    PayloadWasPopped(s, m);
    ReceivedIsTruthful(s, r);
    SentMeansSyn(s, m);
    hide Assembly.Insert, Receiver.Receive, Receiver.StreamIndex, Promising, Truthful, Received, SentBy, Counted, Carries, PayloadStart;
    InsertIsTruthful(r.asm, start, m.payload, m.FIN, sent, s.finSet, |s.input.accepted|);
    TruthfulIsReceived(s, r.Receive(m));
  }

  /** The receiver went on: what was acknowledged stays true. */
  lemma ReceiverStepKeepsInv(c: System, r': Receiver)
    requires Inv(c) && Received(c.sender, r') && (c.receiver.synSet ==> r'.synSet)
    requires c.receiver.NextNeeded() <= r'.NextNeeded() && r'.asm.out.capacity == c.receiver.asm.out.capacity
    ensures Inv(c.(receiver := r'))
  {
    assert forall a :: AckTrue(c.sender.isn, c.receiver, a) ==> AckTrue(c.sender.isn, r', a);
    hide SenderRuns.Good, Received, SentBy, AckTrue;
  }

  lemma GoodIsCounted(s: Sender)
    requires SenderRuns.Good(s)
    ensures Counted(s)
  {
    hide Chain, Payloads, InFlight;
  }

  lemma DeliverKeepsInv(c: System, m: SenderMessage)
    requires Inv(c) && m in c.segments && !c.receiver.asm.Hazard(c.receiver.StreamIndex(m), m.payload, m.FIN)
    ensures Inv(c.(receiver := c.receiver.Receive(m)))
  {
    assert SentBy(c.sender, m) && (m.SYN || c.receiver.synSet);
    hide Assembly.Hazard, Receiver.StreamIndex, SenderRuns.Good, Receiver.Receive;
    GoodIsCounted(c.sender);
    SegmentKeepsReceived(c.sender, c.receiver, m);
    hide Inv;
    ReceiverStepKeepsInv(c, c.receiver.Receive(m));
  }

  // ---- The application reads ----

  lemma ReadKeepsInv(c: System, len: nat)
    requires Inv(c)
    ensures Inv(c.(receiver := c.receiver.Read(len)))
  {
    var r, r' := c.receiver, c.receiver.Read(len);
    OutputIsSent(c.sender, r);
    assert r'.asm.Known() == r.asm.Known();
    assert Allowed(r, ReceiverPromises.Read(len));
    EventKeepsPromise(r, ReceiverPromises.Read(len));
    hide SenderRuns.Good, Assembly.Known, Promising;
    assert Received(c.sender, r');
    ReceiverStepKeepsInv(c, r');
  }
}
