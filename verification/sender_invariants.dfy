/** What a sender keeps in every state it can reach: its segments cut up the stream, and their lengths add up. */
module SenderInvariants {
  import opened Machine
  import opened WrappingIntegers
  import opened ByteStreams
  import opened TcpMessages
  import opened TcpSending

  /** Where in the stream the payload of a segment with absolute number `first` starts. */
  function PayloadStart(first: nat): nat {
    if first == 0 then 0 else first - 1
  }

  /** The segment that starts at absolute number `first` carries what the stream has there. */
  ghost predicate Carries(first: nat, m: SenderMessage, isn: Wrap32, input: Stream) {
    var upto := PayloadStart(first) + |m.payload|;
    && m.SequenceLength() > 0 && |m.payload| <= MAX_PAYLOAD_SIZE && !m.RST
    && first < TWO64 && m.seqno == Wrap(first, isn)
    && (m.SYN <==> first == 0)
    && upto <= |input.accepted| && m.payload == input.accepted[PayloadStart(first)..upto]
    && (m.FIN ==> input.closed && upto == |input.accepted|)
  }

  /** Segments that follow each other from 0 without a gap, up to `end`. */
  ghost predicate Chain(all: seq<Outstanding>, end: nat, isn: Wrap32, input: Stream) {
    if all == [] then end == 0
    else
      var e := all[|all| - 1];
      && e.End() == end
      && Carries(e.first, e.message, isn, input)
      && Chain(all[..|all| - 1], e.first, isn, input)
  }

  function Payloads(all: seq<Outstanding>): seq<u8> {
    if all == [] then [] else Payloads(all[..|all| - 1]) + all[|all| - 1].message.payload
  }

  /** Sequence numbers count SYN, the bytes popped, and FIN. */
  ghost predicate Counted(s: Sender) {
    && s.input.Valid() && !s.input.error && |s.input.accepted| + 2 < TWO64
    && s.absSeqno == (if s.synSet then 1 else 0) + s.input.popped + (if s.finSet then 1 else 0)
    && (!s.synSet ==> s.input.popped == 0 && !s.finSet)
    && (s.synSet ==> s.seqno == Wrap(s.absSeqno, s.isn))
    && (s.finSet ==> s.input.closed && s.input.popped == |s.input.accepted|)
  }

  /** All segments ever sent, acknowledged or not, cut up the bytes popped. */
  ghost predicate Consistent(s: Sender) {
    && Counted(s)
    && Chain(s.acked + s.buffer, s.absSeqno, s.isn, s.input)
    && Payloads(s.acked + s.buffer) == s.input.accepted[..s.input.popped]
  }

  // ---- Sending one segment ----

  lemma RemaindersAdd(a: nat, b: nat)
    ensures (a % TWO32 + b) % TWO32 == (a + b) % TWO32
  {
    RemainderOf(a / TWO32 + (a % TWO32 + b) / TWO32, (a % TWO32 + b) % TWO32);
  }

  lemma WrapPlus(n: u64, zero: Wrap32, k: u32)
    requires n + k < TWO64
    ensures Wrap(n, zero).Plus(k) == Wrap(n + k, zero)
  {
    var r := n % TWO32;
    calc {
      ((zero.raw + r) % TWO32 + k) % TWO32;
    ==  { RemaindersAdd(zero.raw + r, k); }
      (r + (zero.raw + k)) % TWO32;
    ==  { RemaindersAdd(n, zero.raw + k); }
      (n + (zero.raw + k)) % TWO32;
    ==  { RemaindersAdd(n + k, zero.raw); }
      (zero.raw + (n + k) % TWO32) % TWO32;
    }
  }

  /** A segment without content names the next sequence number, before SYN the initial one. */
  lemma EmptyMessageNamesNext(s: Sender)
    requires Counted(s)
    ensures s.EmptyMessage() == SenderMessage(Wrap(s.absSeqno, s.isn), false, [], false, false)
  {
  }

  lemma NextSegmentLength(s: Sender, permitted: u16)
    requires s.input.Valid() && s.CanSend(permitted) && Counted(s)
    ensures 0 < s.NextSegment(permitted).SequenceLength() <= MAX_PAYLOAD_SIZE + 2
    ensures permitted > 0 ==> s.NextSegment(permitted).SequenceLength() <= permitted
    ensures |s.NextSegment(permitted).payload| == s.PayloadSize(permitted)
  {
  }

  lemma NextSegmentCarries(s: Sender, permitted: u16)
    requires Counted(s) && s.CanSend(permitted)
    ensures Carries(s.absSeqno, s.NextSegment(permitted), s.isn, s.input)
  {
    NextSegmentLength(s, permitted);
    var m := s.NextSegment(permitted);
    assert PayloadStart(s.absSeqno) == s.input.popped;
    assert m.payload == s.input.accepted[s.input.popped..s.input.popped + |m.payload|];
  }

  lemma SendOneCounts(s: Sender, permitted: u16)
    requires Counted(s) && s.CanSend(permitted)
    ensures Counted(s.SendOne(permitted))
  {
    NextSegmentLength(s, permitted);
    var m := s.NextSegment(permitted);
    assert s.EmptyMessage().seqno == Wrap(s.absSeqno, s.isn);
    WrapPlus(s.absSeqno, s.isn, m.SequenceLength());
    hide Wrap32.Plus, Wrap;
  }

  /** Writing, closing and popping leave what a segment carries as it was. */
  ghost predicate Extends(later: Stream, input: Stream) {
    && input.accepted <= later.accepted
    && (input.closed ==> later.closed && later.accepted == input.accepted)
  }

  lemma CarriesStill(first: nat, m: SenderMessage, isn: Wrap32, input: Stream, later: Stream)
    requires Carries(first, m, isn, input) && Extends(later, input)
    ensures Carries(first, m, isn, later)
  {
  }

  lemma {:induction false} ChainStill(all: seq<Outstanding>, end: nat, isn: Wrap32, input: Stream, later: Stream)
    requires Chain(all, end, isn, input) && Extends(later, input)
    ensures Chain(all, end, isn, later)
    decreases |all|
  {
    if all == [] {
    } else {
      var e := all[|all| - 1];
      CarriesStill(e.first, e.message, isn, input, later);
      ChainStill(all[..|all| - 1], e.first, isn, input, later);
    }
  }

  lemma ChainGrows(all: seq<Outstanding>, e: Outstanding, isn: Wrap32, input: Stream)
    requires Chain(all, e.first, isn, input) && Carries(e.first, e.message, isn, input)
    ensures Chain(all + [e], e.End(), isn, input)
    ensures Payloads(all + [e]) == Payloads(all) + e.message.payload
  {
    assert (all + [e])[..|all|] == all;
  }

  lemma SendOneAdds(s: Sender, permitted: u16, e: Outstanding, s': Sender)
    requires Counted(s) && s.CanSend(permitted)
    requires e == Outstanding(s.absSeqno, s.NextSegment(permitted)) && s' == s.SendOne(permitted)
    ensures s'.acked + s'.buffer == (s.acked + s.buffer) + [e] && s'.absSeqno == e.End() && s'.isn == s.isn
    ensures Extends(s'.input, s.input) && s'.input.accepted == s.input.accepted
    ensures s'.input.accepted[..s'.input.popped] == s.input.accepted[..s.input.popped] + e.message.payload
  {
    NextSegmentLength(s, permitted);
    hide Sender.CanSend, SenderMessage.SequenceLength, Wrap32.Plus;
  }

  lemma SendOneConsistent(s: Sender, permitted: u16)
    requires Consistent(s) && s.CanSend(permitted)
    ensures Consistent(s.SendOne(permitted))
  {
    var e, s', all := Outstanding(s.absSeqno, s.NextSegment(permitted)), s.SendOne(permitted), s.acked + s.buffer;
    SendOneAdds(s, permitted, e, s');
    hide Counted, Chain, Payloads, Carries, Sender.NextSegment, Sender.SendOne, Sender.CanSend, Outstanding.End;
    SendOneCounts(s, permitted);
    NextSegmentCarries(s, permitted);
    ChainGrows(all, e, s.isn, s.input);
    ChainStill(all + [e], e.End(), s.isn, s.input, s'.input);
  }

  lemma {:induction false} PushConsistent(s: Sender, permitted: u16)
    requires Consistent(s)
    ensures Consistent(s.PushFrom(permitted).0)
    decreases s.Unsent()
  {
    if !s.CanSend(permitted) {
    } else {
      SendOneConsistent(s, permitted);
      NextSegmentLength(s, permitted);
      hide Consistent, Sender.NextSegment;
      PushConsistent(s.SendOne(permitted), (permitted - s.NextSegment(permitted).SequenceLength()) % TWO16);
    }
  }

  // ---- Acknowledgments and time ----

  /** The two states have sent the same segments. */
  ghost predicate SentTheSame(s: Sender, s': Sender) {
    && s'.input == s.input && s'.isn == s.isn && s'.absSeqno == s.absSeqno && s'.seqno == s.seqno
    && s'.synSet == s.synSet && s'.finSet == s.finSet
    && s'.acked + s'.buffer == s.acked + s.buffer
  }

  lemma ReceiveSends(s: Sender, msg: ReceiverMessage)
    requires msg.ackno.Some? && s.absSeqno < TWO64
    ensures SentTheSame(s, s.Receive(msg))
  {
    hide Sender.AbsoluteAck, Sender.IgnoresAck, Reopen, AckedCount;
    var n := AckedCount(s.buffer, s.AbsoluteAck(msg));
    assert (s.acked + s.buffer[..n]) + s.buffer[n..] == s.acked + s.buffer;
  }

  lemma ReceiveConsistent(s: Sender, msg: ReceiverMessage)
    requires Consistent(s) && msg.ackno.Some?
    ensures s.absSeqno < TWO64 && Consistent(s.Receive(msg))
  {
    ReceiveSends(s, msg);
    hide Sender.Receive, Chain, Payloads, Wrap;
  }

  lemma TickConsistent(s: Sender, ms: nat)
    requires Consistent(s)
    ensures Consistent(s.Tick(ms).0)
  {
    assert SentTheSame(s, s.Tick(ms).0);
    hide Sender.Tick, Chain, Payloads, Wrap;
  }

  lemma InputConsistent(s: Sender, later: Stream)
    requires Consistent(s) && later.Valid() && Extends(later, s.input)
    requires later.popped == s.input.popped && later.error == s.input.error && |later.accepted| + 2 < TWO64
    ensures Consistent(s.(input := later))
  {
    ChainStill(s.acked + s.buffer, s.absSeqno, s.isn, s.input, later);
    hide Chain, Payloads;
  }

  // ---- What consistency says ----

  lemma {:induction false} PayloadsSplit(a: seq<Outstanding>, b: seq<Outstanding>)
    ensures Payloads(a + b) == Payloads(a) + Payloads(b)
  {
    if b == [] {
      assert a + b == a;
    } else {
      assert (a + b)[..|a + b| - 1] == a + b[..|b| - 1];
      PayloadsSplit(a, b[..|b| - 1]);
    }
  }

  /** Every byte accepted is in an acknowledged segment, in an outstanding one, or still in the stream, in order. */
  lemma Conservation(s: Sender)
    requires Consistent(s)
    ensures Payloads(s.acked) + Payloads(s.buffer) + s.input.Buffered() == s.input.accepted
  {
    PayloadsSplit(s.acked, s.buffer);
  }

  /** Any two neighbours touch, the last segment ends at the next number, and each carries its part of the stream. */
  lemma {:induction false} ChainAt(all: seq<Outstanding>, end: nat, isn: Wrap32, input: Stream, i: nat)
    requires Chain(all, end, isn, input) && i < |all|
    ensures Carries(all[i].first, all[i].message, isn, input)
    ensures all[i].End() == (if i + 1 < |all| then all[i + 1].first else end)
    ensures i == 0 ==> all[i].first == 0
    ensures all[i].first < all[i].End() <= end
    decreases |all|
  {
    var n := |all| - 1;
    if i == n {
    } else {
      ChainAt(all[..n], all[n].first, isn, input, i);
    }
  }

  lemma ChainRises(all: seq<Outstanding>, end: nat, isn: Wrap32, input: Stream, i: nat, j: nat)
    requires Chain(all, end, isn, input) && i < j < |all|
    ensures all[i].End() <= all[j].first
    decreases j - i
  {
    ChainAt(all, end, isn, input, i);
    if i + 1 < j {
      ChainAt(all, end, isn, input, i + 1);
      ChainRises(all, end, isn, input, i + 1, j);
    }
  }

  /** SYN is on the first segment only, FIN on the last only, and no segment is empty. */
  lemma SegmentShape(s: Sender, i: nat)
    requires Consistent(s) && i < |s.acked + s.buffer|
    ensures var all := s.acked + s.buffer;
            && all[i].message.SequenceLength() > 0
            && all[i].first < TWO64 && all[i].message.seqno == Wrap(all[i].first, s.isn)
            && (all[i].message.SYN <==> i == 0)
            && (all[i].message.FIN ==> i == |all| - 1 && s.finSet)
            && (i == |all| - 1 ==> all[i].End() == s.absSeqno)
  {
    var all := s.acked + s.buffer;
    ChainAt(all, s.absSeqno, s.isn, s.input, i);
    if i > 0 {
      ChainRises(all, s.absSeqno, s.isn, s.input, 0, i);
      ChainAt(all, s.absSeqno, s.isn, s.input, 0);
    }
    if i + 1 < |all| {
      ChainAt(all, s.absSeqno, s.isn, s.input, i + 1);
    }
    hide Chain, Payloads, Wrap;
  }

  /** An acknowledgment that is not ignored takes out exactly the segments that lie wholly below it. */
  lemma ErasedExactly(s: Sender, ack: nat, i: nat)
    requires Consistent(s) && i < |s.buffer|
    ensures s.buffer[i].End() <= ack <==> i < AckedCount(s.buffer, ack)
  {
    var n, all, k := AckedCount(s.buffer, ack), s.acked + s.buffer, |s.acked|;
    if n < i {
      ChainRises(all, s.absSeqno, s.isn, s.input, k + n, k + i);
      assert all[k + n] == s.buffer[n] && all[k + i] == s.buffer[i];
    }
  }
  /** The acknowledgment is for something that was never sent. */
  predicate Beyond(s: Sender, ack: nat) {
    s.buffer != [] && s.absSeqno < ack
  }

  /** What is ignored is exactly what lies beyond. */
  lemma IgnoredExactly(s: Sender, ack: nat)
    requires Consistent(s)
    ensures s.IgnoresAck(ack) <==> Beyond(s, ack)
  {
    var all := s.acked + s.buffer;
    assert s.buffer != [] ==> all[|all| - 1] == s.buffer[|s.buffer| - 1];
    hide Carries, Payloads, Counted, SenderMessage.SequenceLength;
  }

  /** The segments `gone` were taken out of `buffer`: those that end at or below the acknowledgment, and no others. */
  ghost predicate TakenOut(gone: seq<Outstanding>, left: seq<Outstanding>, buffer: seq<Outstanding>, ack: nat) {
    && buffer == gone + left
    && (forall e :: e in gone ==> e.End() <= ack)
    && (forall e :: e in left ==> ack < e.End())
  }

  lemma ErasesExactly(s: Sender, ack: nat)
    requires Consistent(s)
    ensures var n := AckedCount(s.buffer, ack); TakenOut(s.buffer[..n], s.buffer[n..], s.buffer, ack)
  {
    hide Consistent, Outstanding.End, AckedCount;
    var n := AckedCount(s.buffer, ack);
    forall i: nat | n <= i < |s.buffer|
      ensures ack < s.buffer[i].End()
    {
      ErasedExactly(s, ack, i);
    }
    assert forall e :: e in s.buffer[..n] ==> exists i :: 0 <= i < n && s.buffer[i] == e;
    assert forall e :: e in s.buffer[n..] ==> exists i :: n <= i < |s.buffer| && s.buffer[i] == e;
  }

  /**
   * An acknowledgment beyond what was sent changes nothing while anything is outstanding. Every other one takes out
   * exactly the segments that end at or below it, and says whether the receiver is full.
   */
  lemma AckTakesEffectExactly(s: Sender, msg: ReceiverMessage)
    requires Consistent(s) && msg.ackno.Some?
    ensures s.absSeqno < TWO64
    ensures var ack, s' := msg.ackno.value.Unwrap(s.isn, s.absSeqno), s.Receive(msg);
            && (s.buffer != [] && s.absSeqno < ack ==> s' == s)
            && (s.buffer == [] || ack <= s.absSeqno ==>
                  && s.acked <= s'.acked && TakenOut(s'.acked[|s.acked|..], s'.buffer, s.buffer, ack)
                  && s'.receiverFull == (msg.windowSize == 0) && s'.lastAck == Max(s.lastAck, ack)
                  && (s.lastAck < ack ==> s'.timer == s'.retransmissions == 0 && s'.rto == s.initialRto)
                  && (ack <= s.lastAck ==> s'.timer == s.timer && s'.retransmissions == s.retransmissions && s'.rto == s.rto))
  {
    hide Chain, Payloads, AckedCount, Wrap32.Unwrap, Wrap, TakenOut, Reopen, Outstanding.End;
    var ack := msg.ackno.value.Unwrap(s.isn, s.absSeqno);
    IgnoredExactly(s, ack);
    ErasesExactly(s, ack);
    hide Sender.IgnoresAck;
  }
}
