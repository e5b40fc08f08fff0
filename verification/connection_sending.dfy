/** The sender's steps keep the connection's invariant. */
module ConnectionSending {
  import opened Machine
  import opened WrappingIntegers
  import opened ByteStreams
  import opened Assembling
  import opened TcpMessages
  import opened TcpSending
  import opened TcpReceiving
  import opened SenderInvariants
  import opened SenderFlowControl
  import SenderRuns
  import ReceiverPromises
  import opened Connection

  /** The sender went on: nothing said before has changed. */
  ghost predicate Advances(s: Sender, s': Sender) {
    && s'.isn == s.isn && Extends(s'.input, s.input)
    && (s.synSet ==> s'.synSet) && (s.finSet ==> s'.finSet && s.input.closed)
    && s.input.popped <= s'.input.popped <= |s'.input.accepted|
    && s.absSeqno <= s'.absSeqno
    && (s.acked != [] ==> s'.acked != [])
  }

  lemma StillSent(s: Sender, s': Sender, m: SenderMessage)
    requires Advances(s, s') && SentBy(s, m)
    ensures SentBy(s', m)
  {
    if Carries(m.seqno.Offset(s.isn), m, s.isn, s.input) {
      CarriesStill(m.seqno.Offset(s.isn), m, s.isn, s.input, s'.input);
    }
  }

  lemma StillReceived(s: Sender, s': Sender, r: Receiver)
    requires Advances(s, s') && Received(s, r)
    ensures Received(s', r)
  {
    hide ReceiverPromises.Promising, Assembly.Known;
  }

  lemma OffsetOfWrap(n: nat, zero: Wrap32)
    requires n < TWO32
    ensures Wrap(n, zero).Offset(zero) == n
  {
    WrapIsOffset(n, zero, Wrap(n, zero));
  }

  /** Everything outstanding carries its part of the stream, and before SYN is acknowledged it is SYN. */
  lemma OutstandingIsSent(s: Sender, k: nat)
    requires SenderRuns.Good(s) && k < |s.buffer| && |s.input.accepted| <= TWO31
    ensures SentBy(s, s.buffer[k].message)
  {
    var all, i := s.acked + s.buffer, |s.acked| + k;
    ChainAt(all, s.absSeqno, s.isn, s.input, i);
    assert all[i] == s.buffer[k];
    if s.acked == [] && s.synSet {
      SynTravelsAlone(s);
    }
    if !s.synSet {
      NothingSentYet(s);
    }
    OffsetOfWrap(s.buffer[k].first, s.isn);
    hide Chain, Payloads, Accounted, Wrap, Wrap32.Offset;
  }

  lemma SendOneAdvances(s: Sender, permitted: u16)
    requires Consistent(s) && s.CanSend(permitted)
    ensures Advances(s, s.SendOne(permitted))
    ensures s.SendOne(permitted).lastAck == s.lastAck
  {
    SendOneConsistent(s, permitted);
    hide Chain, Payloads, Sender.NextSegment, Wrap, Wrap32.Plus;
  }

  lemma AdvancesTwice(s: Sender, t: Sender, u: Sender)
    requires Advances(s, t) && Advances(t, u)
    ensures Advances(s, u)
  {
  }

  lemma {:induction false} PushAdvances(s: Sender, permitted: u16)
    requires Consistent(s)
    ensures Advances(s, s.PushFrom(permitted).0)
    ensures s.PushFrom(permitted).0.lastAck == s.lastAck && s.PushFrom(permitted).0.acked == s.acked
    decreases s.Unsent()
  {
    if !s.CanSend(permitted) {
    } else {
      SendOneAdvances(s, permitted);
      SendOneConsistent(s, permitted);
      SendOneProgress(s, permitted);
      hide Consistent, Advances, Sender.SendOne, Sender.NextSegment, SenderMessage.SequenceLength, Sender.CanSend;
      PushAdvances(s.SendOne(permitted), (permitted - s.NextSegment(permitted).SequenceLength()) % TWO16);
      AdvancesTwice(s, s.SendOne(permitted), s.PushFrom(permitted).0);
    }
  }

  /** A step of the sender alone keeps the invariant, provided what it sends is outstanding afterwards. */
  lemma SenderStepKeepsInv(c: System, s': Sender, sent: seq<SenderMessage>)
    requires Inv(c) && SenderRuns.Good(s') && Advances(c.sender, s')
    requires s'.acked == c.sender.acked && s'.lastAck == c.sender.lastAck && s'.maxWindow == c.sender.maxWindow
    requires Bounded(s', c.receiver)
    requires forall m :: m in sent ==> SentBy(s', m)
    ensures Inv(c.(sender := s', segments := c.segments + set m | m in sent))
  {
    StillReceived(c.sender, s', c.receiver);
    forall m | m in c.segments
      ensures SentBy(s', m)
    {
      StillSent(c.sender, s', m);
    }
    hide SenderRuns.Good, Received, SentBy, AckTrue, Advances, Bounded;
  }

  lemma SentIsOutstanding(s: Sender, s': Sender, permitted: nat, sent: seq<SenderMessage>, m: SenderMessage)
    returns (k: nat)
    requires s.input.Valid() && s'.input.Valid() && Outcome(s, permitted, s', sent) && m in sent
    ensures k < |s'.buffer| && s'.buffer[k].message == m
  {
    var i :| 0 <= i < |sent| && sent[i] == m;
    k := |s.buffer| + i;
  }

  lemma AllOutstandingSent(s: Sender, s': Sender, permitted: nat, sent: seq<SenderMessage>)
    requires s.input.Valid() && s'.input.Valid() && Outcome(s, permitted, s', sent)
    requires SenderRuns.Good(s') && |s'.input.accepted| <= TWO31
    ensures forall m :: m in sent ==> SentBy(s', m)
  {
    forall m | m in sent
      ensures SentBy(s', m)
    {
      var k := SentIsOutstanding(s, s', permitted, sent, m);
      OutstandingIsSent(s', k);
    }
  }

  /** What a step of the sender alone must provide. */
  ghost predicate Sends(s: Sender, s': Sender, sent: seq<SenderMessage>) {
    && SenderRuns.Good(s') && Advances(s, s') && s'.input.accepted == s.input.accepted
    && s'.acked == s.acked && s'.lastAck == s.lastAck && s'.maxWindow == s.maxWindow
    && forall m :: m in sent ==> SentBy(s', m)
  }

  lemma {:induction false} PushKeepsInput(s: Sender, permitted: u16)
    requires s.input.Valid()
    ensures s.PushFrom(permitted).0.input.accepted == s.input.accepted
    decreases s.Unsent()
  {
    if !s.CanSend(permitted) {
    } else {
      hide Sender.NextSegment, SenderMessage.SequenceLength;
      PushKeepsInput(s.SendOne(permitted), (permitted - s.NextSegment(permitted).SequenceLength()) % TWO16);
    }
  }

  lemma PushSendsSo(s: Sender, s': Sender, sent: seq<SenderMessage>)
    requires SenderRuns.Good(s) && |s.input.accepted| <= TWO31
    requires (s', sent) == s.PushFrom(s.Permitted())
    ensures Sends(s, s', sent)
  {
    SenderRuns.PushIsGood(s);
    PushRespectsWindow(s);
    PushAdvances(s, s.Permitted());
    PushKeepsInput(s, s.Permitted());
    hide SentBy, Consistent, Accounted, Advances, Outcome, Sender.PushFrom, Sender.Permitted;
    AllOutstandingSent(s, s', s.Permitted(), sent);
  }

  lemma PushKeepsInv(c: System)
    requires Inv(c)
    ensures c.sender.input.Valid() && c.sender.absSeqno < TWO64 && Inv(Next(c, Step.Push))
  {
    var (s', sent) := c.sender.Push();
    hide SenderRuns.Good, Received, SentBy, AckTrue, Processed, Advances, Sender.PushFrom;
    PushSendsSo(c.sender, s', sent);
    SenderStepKeepsInv(c, s', sent);
  }

  lemma TickAdvances(s: Sender, ms: nat)
    requires SenderRuns.Good(s)
    ensures Advances(s, s.Tick(ms).0) && SenderRuns.Good(s.Tick(ms).0)
    ensures var s' := s.Tick(ms).0; s'.acked == s.acked && s'.lastAck == s.lastAck && s'.maxWindow == s.maxWindow
    ensures s.Tick(ms).0.input == s.input
    ensures forall m :: m in s.Tick(ms).1 ==> s.buffer != [] && m == s.Tick(ms).0.buffer[0].message
  {
    hide Chain, Payloads, Accounted, Opening;
    SenderRuns.TickIsGood(s, ms);
  }

  lemma TickKeepsInv(c: System, ms: nat)
    requires Inv(c)
    ensures c.sender.input.Valid() && c.sender.absSeqno < TWO64 && Inv(Next(c, Tick(ms)))
  {
    var s := c.sender;
    var (s', sent) := s.Tick(ms);
    TickAdvances(s, ms);
    forall m | m in sent
      ensures SentBy(s', m)
    {
      OutstandingIsSent(s', 0);
    }
    hide SenderRuns.Good, Received, SentBy, AckTrue, Processed, Advances, Sender.Tick;
    SenderStepKeepsInv(c, s', sent);
  }

  /** Writing and closing. */
  lemma InputKeepsInv(c: System, later: Stream)
    requires Inv(c) && later.Valid() && Extends(later, c.sender.input)
    requires later.popped == c.sender.input.popped && later.error == c.sender.input.error
    requires |later.accepted| + c.receiver.asm.out.capacity <= TWO31
    ensures Inv(c.(sender := c.sender.(input := later)))
  {
    var s' := c.sender.(input := later);
    SenderRuns.WriteIsGood(c.sender, later);
    assert Advances(c.sender, s') && Bounded(s', c.receiver);
    hide SenderRuns.Good, Received, SentBy, AckTrue, Processed, Advances, Bounded;
    SenderStepKeepsInv(c, s', []);
    assert c.segments + (set m | m in []) == c.segments;
  }

  lemma EmptyIsSent(s: Sender)
    requires SenderRuns.Good(s) && s.acked != [] && |s.input.accepted| <= TWO31
    ensures SentBy(s, s.EmptyMessage())
  {
    if !s.synSet {
      NothingSentYet(s);
    }
    OffsetOfWrap(s.absSeqno, s.isn);
    hide Chain, Payloads, Accounted, Wrap, Wrap32.Offset, Carries;
  }

  lemma EmptyKeepsInv(c: System)
    requires Inv(c) && c.sender.acked != []
    ensures Inv(c.(segments := c.segments + {c.sender.EmptyMessage()}))
  {
    hide SenderRuns.Good, Received, SentBy, AckTrue, Sender.EmptyMessage;
    EmptyIsSent(c.sender);
  }
}
