/** Acknowledgments, sent and processed, keep the connection's invariant. */
module ConnectionAcks {
  import opened Machine
  import opened WrappingIntegers
  import opened Assembling
  import opened TcpMessages
  import opened TcpSending
  import opened TcpReceiving
  import opened SenderInvariants
  import opened SenderFlowControl
  import opened ReceiverPromises
  import SenderRuns
  import opened Connection
  import opened ConnectionSending
  import opened ConnectionReceiving

  /** What the receiver needs next was not sent yet, or is the next number to send. */
  lemma NextNeededWasSent(s: Sender, r: Receiver)
    requires Counted(s) && Received(s, r) && r.synSet
    ensures r.NextNeeded() <= s.absSeqno
  {
    OutputIsSent(s, r);
    hide Promising, Assembly.Known, Wrap;
  }

  lemma NewAckIsTrue(s: Sender, r: Receiver)
    requires Counted(s) && Received(s, r) && r.synSet && Bounded(s, r)
    ensures AckTrue(s.isn, r, r.Send())
  {
    OutputIsSent(s, r);
    WindowIsAvailable(r);
    PendingIsBounded(r.asm);
    OffsetOfWrap(r.NextNeeded(), s.isn);
    hide Assembly.Known, Wrap, Wrap32.Offset, Assembly.Valid;
  }

  lemma SendAckKeepsInv(c: System)
    requires Inv(c) && c.receiver.synSet
    ensures c.receiver.asm.out.Valid() && Inv(c.(acks := c.acks + {c.receiver.Send()}))
  {
    hide SenderRuns.Good, AckTrue, SentBy;
    GoodIsCounted(c.sender);
    NewAckIsTrue(c.sender, c.receiver);
  }

  lemma OffsetUnwraps(ackno: Wrap32, isn: Wrap32, checkpoint: u64)
    requires ackno.Offset(isn) <= checkpoint <= ackno.Offset(isn) + TWO31
    ensures ackno.Unwrap(isn, checkpoint) == ackno.Offset(isn)
  {
    var n := ackno.Offset(isn);
    WrapIsOffset(n, isn, ackno);
    hide Wrap32.Unwrap, Wrap, Wrap32.Offset;
    WrapRoundTrip(n, isn, checkpoint);
  }

  /** The sender reads an acknowledgment as the number the receiver meant. */
  lemma AckIsUnderstood(s: Sender, r: Receiver, a: ReceiverMessage)
    requires Counted(s) && Received(s, r) && Bounded(s, r) && AckTrue(s.isn, r, a)
    ensures s.AbsoluteAck(a) == a.ackno.value.Offset(s.isn) && 1 <= s.AbsoluteAck(a) <= r.NextNeeded()
  {
    NextNeededWasSent(s, r);
    hide Received, Wrap32.Unwrap, Wrap, Wrap32.Offset;
    OffsetUnwraps(a.ackno.value, s.isn, s.absSeqno);
  }

  lemma AckAdvances(s: Sender, a: ReceiverMessage)
    requires Consistent(s) && a.ackno.Some?
    ensures Advances(s, s.Receive(a))
  {
    ReceiveSends(s, a);
    hide Chain, Payloads, Sender.AbsoluteAck, Sender.IgnoresAck, AckedCount, Reopen, Wrap;
  }

  /** The segments taken out, and the number recorded, are no more than the acknowledgment says. */
  lemma AckProcesses(s: Sender, a: ReceiverMessage, limit: nat)
    requires s.absSeqno < TWO64 && a.ackno.Some? && s.AbsoluteAck(a) <= limit
    requires s.lastAck <= limit && (s.acked != [] ==> s.acked[|s.acked| - 1].End() <= limit)
    ensures var s' := s.Receive(a);
            s'.lastAck <= limit && (s'.acked != [] ==> s'.acked[|s'.acked| - 1].End() <= limit)
  {
    hide Sender.AbsoluteAck, Sender.IgnoresAck, Reopen;
  }

  lemma AckKeepsProcessed(s: Sender, r: Receiver, a: ReceiverMessage)
    requires SenderRuns.Good(s) && Received(s, r) && Bounded(s, r) && Processed(s, r) && AckTrue(s.isn, r, a)
    ensures SenderRuns.Good(s.Receive(a)) && Processed(s.Receive(a), r) && Advances(s, s.Receive(a))
    ensures s.Receive(a).input == s.input
  {
    GoodIsCounted(s);
    AckIsUnderstood(s, r, a);
    SenderRuns.AckIsGood(s, a);
    AckAdvances(s, a);
    AckProcesses(s, a, r.NextNeeded());
    ReceiveSends(s, a);
    hide Consistent, Accounted, Received, Sender.Receive, Sender.AbsoluteAck, Sender.IgnoresAck, Advances, Outstanding.End;
  }

  lemma AdvancingKeepsInv(c: System, s': Sender)
    requires Inv(c) && SenderRuns.Good(s') && Processed(s', c.receiver) && Advances(c.sender, s') && s'.input == c.sender.input
    ensures Inv(c.(sender := s'))
  {
    StillReceived(c.sender, s', c.receiver);
    forall m | m in c.segments
      ensures SentBy(s', m)
    {
      StillSent(c.sender, s', m);
    }
    assert s'.isn == c.sender.isn;
    hide SenderRuns.Good, Processed, Received, SentBy, AckTrue, Advances;
  }

  lemma DeliverAckKeepsInv(c: System, a: ReceiverMessage)
    requires Inv(c) && a in c.acks
    ensures c.sender.absSeqno < TWO64 && a.ackno.Some? && Inv(c.(sender := c.sender.Receive(a)))
  {
    assert AckTrue(c.sender.isn, c.receiver, a);
    hide SenderRuns.Good, Sender.Receive;
    GoodIsCounted(c.sender);
    AckKeepsProcessed(c.sender, c.receiver, a);
    hide Processed, AckTrue;
    AdvancingKeepsInv(c, c.sender.Receive(a));
  }
}
