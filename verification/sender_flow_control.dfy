/** How the sender respects the receiver's window, and what its loop sends. */
module SenderFlowControl {
  import opened Machine
  import opened ByteStreams
  import opened TcpMessages
  import opened TcpSending
  import opened SenderInvariants

  /** The room left and the room in use make up the largest window; so the 16-bit arithmetic never wraps. */
  ghost predicate Accounted(s: Sender) {
    s.window + InFlight(s.buffer) == s.maxWindow && s.maxWindow >= 1
  }

  lemma {:induction false} InFlightSplit(a: seq<Outstanding>, b: seq<Outstanding>)
    ensures InFlight(a + b) == InFlight(a) + InFlight(b)
  {
    if b == [] {
      assert a + b == a;
    } else {
      assert (a + b)[..|a + b| - 1] == a + b[..|b| - 1];
      InFlightSplit(a, b[..|b| - 1]);
    }
  }

  lemma InFlightOne(e: Outstanding)
    ensures InFlight([e]) == e.message.SequenceLength()
    ensures Payloads([e]) == e.message.payload
  {
    assert [e][..0] == [];
  }

  // ---- push ----

  /**
   * What a push does: the segments sent join the outstanding ones, carry the bytes taken from the stream in
   * order, and use up what is permitted unless nothing is left to send.
   */
  ghost predicate Outcome(s: Sender, permitted: nat, s': Sender, sent: seq<SenderMessage>)
    requires s.input.Valid() && s'.input.Valid()
  {
    && s.buffer <= s'.buffer && s'.acked == s.acked && s'.synSet
    && var added := s'.buffer[|s.buffer|..];
    && |added| == |sent|
    && (forall i :: 0 <= i < |sent| ==> sent[i] == added[i].message && |sent[i].payload| <= MAX_PAYLOAD_SIZE)
    && s.input.Buffered() == Payloads(added) + s'.input.Buffered()
    && InFlight(added) <= permitted
    && (InFlight(added) == permitted || (s'.input.Buffered() == [] && (s'.input.closed ==> s'.finSet)))
  }

  lemma OutcomeStep(s: Sender, permitted: u16, s1: Sender, m: SenderMessage, s': Sender, rest: seq<SenderMessage>)
    requires s.input.Valid() && s1.input.Valid() && s'.input.Valid()
    requires s1.acked == s.acked && s1.buffer == s.buffer + [Outstanding(s.absSeqno, m)]
    requires s.input.Buffered() == m.payload + s1.input.Buffered()
    requires m.SequenceLength() <= permitted && |m.payload| <= MAX_PAYLOAD_SIZE
    requires Outcome(s1, permitted - m.SequenceLength(), s', rest)
    ensures Outcome(s, permitted, s', [m] + rest)
  {
    var e, more := Outstanding(s.absSeqno, m), s'.buffer[|s1.buffer|..];
    var added := s'.buffer[|s.buffer|..];
    assert added == [e] + more;
    InFlightSplit([e], more);
    PayloadsSplit([e], more);
    InFlightOne(e);
    hide InFlight, Payloads, SenderMessage.SequenceLength;
  }

  lemma SendOneTakes(s: Sender, permitted: u16)
    requires Counted(s) && s.CanSend(permitted)
    ensures var m := s.NextSegment(permitted);
            s.input.Buffered() == m.payload + s.SendOne(permitted).input.Buffered()
  {
    NextSegmentLength(s, permitted);
  }

  lemma SendOneProgress(s: Sender, permitted: u16)
    requires Counted(s) && s.CanSend(permitted)
    ensures s.SendOne(permitted).Unsent() < s.Unsent() && s.SendOne(permitted).synSet
    ensures s.SendOne(permitted).acked == s.acked
    ensures s.SendOne(permitted).buffer == s.buffer + [Outstanding(s.absSeqno, s.NextSegment(permitted))]
  {
    NextSegmentLength(s, permitted);
  }

  lemma PushUnfolds(s: Sender, permitted: u16, m: SenderMessage, s1: Sender, left: u16)
    requires s.input.Valid() && s.CanSend(permitted)
    requires m == s.NextSegment(permitted) && s1 == s.SendOne(permitted) && left == permitted - m.SequenceLength()
    ensures s.PushFrom(permitted) == (s1.PushFrom(left).0, [m] + s1.PushFrom(left).1)
  {
    hide Sender.NextSegment, Sender.SendOne, SenderMessage.SequenceLength, Sender.CanSend;
  }

  /** One round of the loop: what it sends, and what it leaves to the next round. */
  lemma PushRound(s: Sender, permitted: u16) returns (m: SenderMessage, s1: Sender, left: u16)
    requires Consistent(s) && s.CanSend(permitted) && permitted > 0
    ensures m == s.NextSegment(permitted) && s1 == s.SendOne(permitted) && left == permitted - m.SequenceLength()
    ensures Consistent(s1) && s1.synSet && s1.Unsent() < s.Unsent()
    ensures s1.acked == s.acked && s1.buffer == s.buffer + [Outstanding(s.absSeqno, m)]
    ensures |m.payload| <= MAX_PAYLOAD_SIZE
    ensures s.PushFrom(permitted) == (s1.PushFrom(left).0, [m] + s1.PushFrom(left).1)
  {
    m, s1 := s.NextSegment(permitted), s.SendOne(permitted);
    NextSegmentLength(s, permitted);
    SendOneConsistent(s, permitted);
    SendOneProgress(s, permitted);
    hide Consistent, Sender.NextSegment, Sender.SendOne, SenderMessage.SequenceLength, Sender.CanSend, Sender.PushFrom;
    left := permitted - m.SequenceLength();
    PushUnfolds(s, permitted, m, s1, left);
  }

  /** The sending loop, for every allowance except none at all before SYN. */
  lemma {:induction false} PushSends(s: Sender, permitted: u16)
    requires Consistent(s) && (permitted > 0 || s.synSet)
    ensures Outcome(s, permitted, s.PushFrom(permitted).0, s.PushFrom(permitted).1)
    decreases s.Unsent()
  {
    if !s.CanSend(permitted) {
    } else {
      var m, s1, left := PushRound(s, permitted);
      SendOneTakes(s, permitted);
      hide Consistent, Outcome, Sender.NextSegment, Sender.SendOne, Sender.PushFrom, SenderMessage.SequenceLength;
      PushSends(s1, left);
      OutcomeStep(s, permitted, s1, m, s1.PushFrom(left).0, s1.PushFrom(left).1);
    }
  }

  lemma MoreMeansFull(s: Sender, permitted: u16, left: u16)
    requires Consistent(s) && s.CanSend(permitted) && permitted > 0
    requires left == permitted - s.NextSegment(permitted).SequenceLength()
    ensures s.SendOne(permitted).CanSend(left) ==> |s.NextSegment(permitted).payload| == 1000
  {
    hide Chain, Payloads;
    NextSegmentLength(s, permitted);
  }

  /** Data goes out in as few segments as possible: all but the last one sent carry 1000 bytes. */
  lemma {:induction false} OnlyTheLastIsShort(s: Sender, permitted: u16)
    requires Consistent(s) && (permitted > 0 || s.synSet)
    ensures var sent := s.PushFrom(permitted).1; forall i :: 0 <= i < |sent| - 1 ==> |sent[i].payload| == 1000
    decreases s.Unsent()
  {
    if !s.CanSend(permitted) {
    } else {
      var m, s1, left := PushRound(s, permitted);
      MoreMeansFull(s, permitted, left);
      assert !s1.CanSend(left) ==> s1.PushFrom(left).1 == [];
      hide Consistent, Sender.NextSegment, Sender.SendOne, Sender.PushFrom, Sender.CanSend, SenderMessage.SequenceLength;
      OnlyTheLastIsShort(s1, left);
    }
  }

  /** Every segment sent carries RST if the stream has failed, and none otherwise. */
  lemma {:induction false} FailureResets(s: Sender, permitted: u16)
    requires s.input.Valid()
    ensures forall m :: m in s.PushFrom(permitted).1 ==> m.RST == s.input.error
    ensures s.EmptyMessage().RST == s.input.error
    decreases s.Unsent()
  {
    if !s.CanSend(permitted) {
    } else {
      LessUnsent(s, permitted);
      assert s.NextSegment(permitted).RST == s.SendOne(permitted).input.error == s.input.error;
      hide Sender.NextSegment, Sender.SendOne, Sender.CanSend, Sender.Unsent, SenderMessage.SequenceLength;
      FailureResets(s.SendOne(permitted), (permitted - s.NextSegment(permitted).SequenceLength()) % TWO16);
    }
  }

  lemma NothingSentYet(s: Sender)
    requires Consistent(s) && !s.synSet
    ensures s.acked == [] && s.buffer == []
  {
    assert s.acked + s.buffer == [];
  }

  lemma SendOneAccounts(s: Sender, permitted: u16, m: SenderMessage, s1: Sender)
    requires s.input.Valid() && Accounted(s) && m.SequenceLength() <= permitted <= s.window
    requires m == s.NextSegment(permitted) && s1 == s.SendOne(permitted)
    ensures Accounted(s1) && s1.window == s.window - m.SequenceLength()
    ensures s1.maxWindow == s.maxWindow && s1.receiverFull == s.receiverFull
  {
    InFlightSplit(s.buffer, [Outstanding(s.absSeqno, m)]);
    InFlightOne(Outstanding(s.absSeqno, m));
    hide InFlight, Sender.NextSegment, SenderMessage.SequenceLength;
  }

  /** Everything a push adds to what is in flight it takes from the window. */
  lemma {:induction false} PushAccounts(s: Sender, permitted: u16)
    requires Consistent(s) && Accounted(s) && (permitted > 0 || s.synSet) && permitted <= s.window
    ensures var s' := s.PushFrom(permitted).0; Accounted(s') && s'.maxWindow == s.maxWindow && s'.receiverFull == s.receiverFull
    decreases s.Unsent()
  {
    if !s.CanSend(permitted) {
    } else {
      var m, s1, left := PushRound(s, permitted);
      SendOneAccounts(s, permitted, m, s1);
      hide Consistent, Accounted, InFlight, Sender.NextSegment, Sender.SendOne, Sender.PushFrom, SenderMessage.SequenceLength;
      PushAccounts(s1, left);
    }
  }

  /** A push as the source calls it; after a zero window it sends at most one sequence number. */
  lemma PushRespectsWindow(s: Sender)
    requires Consistent(s) && Accounted(s)
    ensures var (s', sent) := s.Push();
            && Consistent(s') && Accounted(s') && s'.maxWindow == s.maxWindow
            && Outcome(s, if s.receiverFull && s.window > 0 then 1 else s.window, s', sent)
            && InFlight(s'.buffer) <= s.maxWindow
            && (s.receiverFull ==> InFlight(s'.buffer[|s.buffer|..]) <= 1)
  {
    if !s.synSet {
      NothingSentYet(s);
    }
    PushConsistent(s, s.Permitted());
    PushSends(s, s.Permitted());
    PushAccounts(s, s.Permitted());
    hide Consistent, InFlight, Sender.PushFrom, Payloads;
  }

  // ---- receive ----

  lemma {:induction false} ReopenPlain(gone: seq<Outstanding>, window: u16, maxWindow: u16, advertised: u16)
    requires forall e :: e in gone ==> !e.message.SYN
    requires window + InFlight(gone) < TWO16
    ensures Reopen(gone, window, maxWindow, advertised) == (window + InFlight(gone), maxWindow)
  {
    if gone == [] {
    } else {
      ReopenPlain(gone[..|gone| - 1], window, maxWindow, advertised);
    }
  }

  lemma ModAgain(a: nat, b: nat)
    ensures (a % TWO16 + b) % TWO16 == (a + b) % TWO16
  {
  }

  lemma InFlightLast(b: seq<Outstanding>, n: nat)
    requires 0 < n == |b| - 1
    ensures InFlight(b[1..]) == InFlight(b[..n][1..]) + b[n].message.SequenceLength()
  {
    assert b[1..][..n - 1] == b[..n][1..];
  }

  lemma {:induction false} ReopenAfterSyn(gone: seq<Outstanding>, window: u16, maxWindow: u16, advertised: u16)
    requires gone != [] && gone[0].message.SYN && forall e :: e in gone[1..] ==> !e.message.SYN
    ensures Reopen(gone, window, maxWindow, advertised)
            == ((Max(1, advertised) + InFlight(gone[1..])) % TWO16, Max(1, advertised))
  {
    var n := |gone| - 1;
    if n == 0 {
      assert gone[1..] == [];
    } else {
      assert gone[n] in gone[1..] && gone[..n][0] == gone[0];
      assert forall e :: e in gone[..n][1..] ==> e in gone[1..];
      hide InFlight, SenderMessage.SequenceLength;
      ReopenAfterSyn(gone[..n], window, maxWindow, advertised);
      InFlightLast(gone, n);
      ModAgain(Max(1, advertised) + InFlight(gone[..n][1..]), gone[n].message.SequenceLength());
    }
  }

  /** The acknowledgment takes out the segment with SYN. */
  predicate ErasesSyn(s: Sender, ack: nat) {
    s.buffer != [] && s.buffer[0].message.SYN && s.buffer[0].End() <= ack <= s.absSeqno
  }

  lemma SynComesFirst(s: Sender, i: nat)
    requires Consistent(s) && i < |s.buffer|
    ensures s.buffer[i].message.SYN <==> s.acked == [] && i == 0
    ensures s.buffer[i].message.SequenceLength() > 0
  {
    assert (s.acked + s.buffer)[|s.acked| + i] == s.buffer[i];
    SegmentShape(s, |s.acked| + i);
  }

  lemma SynIsAlone(s: Sender)
    requires Consistent(s)
    ensures forall e :: e in s.buffer && e.message.SYN ==> s.acked == [] && e == s.buffer[0]
    ensures forall e :: s.buffer != [] && e in s.buffer[1..] ==> !e.message.SYN && e.message.SequenceLength() > 0
  {
    forall i: nat | i < |s.buffer|
      ensures s.buffer[i].message.SYN <==> s.acked == [] && i == 0
      ensures s.buffer[i].message.SequenceLength() > 0
    {
      SynComesFirst(s, i);
    }
    hide Consistent, SenderMessage.SequenceLength;
  }

  lemma {:induction false} InFlightPositive(b: seq<Outstanding>)
    requires forall e :: e in b ==> e.message.SequenceLength() > 0
    ensures b != [] ==> InFlight(b) > 0
  {
  }

  /** The windows after the acknowledged segments are taken out, without SYN among them. */
  lemma DataReopens(s: Sender, n: nat, advertised: u16)
    requires Consistent(s) && Accounted(s) && n <= |s.buffer|
    requires n > 0 ==> !s.buffer[0].message.SYN
    ensures Reopen(s.buffer[..n], s.window, s.maxWindow, advertised) == (s.window + InFlight(s.buffer[..n]), s.maxWindow)
    ensures s.window + InFlight(s.buffer[..n]) + InFlight(s.buffer[n..]) == s.maxWindow
  {
    hide Consistent, InFlight, SenderMessage.SequenceLength;
    SynIsAlone(s);
    InFlightSplit(s.buffer[..n], s.buffer[n..]);
    assert s.buffer == s.buffer[..n] + s.buffer[n..];
    ReopenPlain(s.buffer[..n], s.window, s.maxWindow, advertised);
  }

  /** What SYN is followed by weighs nothing only if nothing follows. */
  lemma SynIsFollowedBy(s: Sender, n: nat)
    requires Consistent(s) && Accounted(s) && 0 < n <= |s.buffer| && s.buffer[0].message.SYN
    ensures forall e :: e in s.buffer[1..n] ==> !e.message.SYN
    ensures InFlight(s.buffer[1..n]) + InFlight(s.buffer[n..]) + 1 <= s.maxWindow
    ensures InFlight(s.buffer[1..n]) + InFlight(s.buffer[n..]) == 0 <==> |s.buffer| == 1
  {
    SynIsAlone(s);
    var others := s.buffer[1..];
    assert others == s.buffer[1..n] + s.buffer[n..] && s.buffer == [s.buffer[0]] + others;
    InFlightSplit(s.buffer[1..n], s.buffer[n..]);
    InFlightSplit([s.buffer[0]], others);
    InFlightOne(s.buffer[0]);
    hide Consistent;
    InFlightPositive(others);
  }

  lemma SumIsBase(base: u16, x: nat, y: nat)
    requires x + y < TWO16
    ensures (base + x) % TWO16 + y == base <==> x + y == 0
  {
  }

  /** The acknowledgment of SYN sets the window, and the segments acknowledged after it still add to that. */
  lemma SynReopens(s: Sender, n: nat, advertised: u16)
    requires Consistent(s) && Accounted(s) && 0 < n <= |s.buffer| && s.buffer[0].message.SYN
    ensures var base := Max(1, advertised);
            && Reopen(s.buffer[..n], s.window, s.maxWindow, advertised)
               == ((base + InFlight(s.buffer[1..n])) % TWO16, base)
            && ((base + InFlight(s.buffer[1..n])) % TWO16 + InFlight(s.buffer[n..]) == base <==> |s.buffer| == 1)
  {
    hide Consistent, InFlight, Reopen, Accounted;
    SynIsFollowedBy(s, n);
    assert s.buffer[..n][1..] == s.buffer[1..n] && s.buffer[..n][0] == s.buffer[0];
    ReopenAfterSyn(s.buffer[..n], s.window, s.maxWindow, advertised);
    SumIsBase(Max(1, advertised), InFlight(s.buffer[1..n]), InFlight(s.buffer[n..]));
  }

  /** `s'` is the state after the acknowledgment of everything below `ack`. */
  ghost predicate Acknowledged(s: Sender, msg: ReceiverMessage, ack: nat, s': Sender) {
    s.absSeqno < TWO64 && msg.ackno.Some? && ack == s.AbsoluteAck(msg) && s' == s.Receive(msg)
  }

  /** What an acknowledgment that is not ignored does to the windows. */
  lemma ReceiveSetsWindows(s: Sender, msg: ReceiverMessage, ack: nat, s': Sender, w: u16, m: u16)
    requires Acknowledged(s, msg, ack, s') && !s.IgnoresAck(ack)
    requires (w, m) == Reopen(s.buffer[..AckedCount(s.buffer, ack)], s.window, s.maxWindow, msg.windowSize)
    ensures s'.buffer == s.buffer[AckedCount(s.buffer, ack)..]
    ensures s'.acked == s.acked + s.buffer[..AckedCount(s.buffer, ack)]
    ensures s'.maxWindow == Max(m, msg.windowSize) && s'.window == (w + (s'.maxWindow - m)) % TWO16
  {
    hide Sender.AbsoluteAck, AckedCount, Reopen, Sender.IgnoresAck;
  }

  lemma DataReopensTo(s: Sender, msg: ReceiverMessage, ack: nat, s': Sender, n: nat)
    requires Acknowledged(s, msg, ack, s') && !s.IgnoresAck(ack) && n == AckedCount(s.buffer, ack)
    requires Reopen(s.buffer[..n], s.window, s.maxWindow, msg.windowSize) == (s.window + InFlight(s.buffer[..n]), s.maxWindow)
    requires s.window + InFlight(s.buffer[..n]) + InFlight(s.buffer[n..]) == s.maxWindow && s.maxWindow >= 1
    ensures Accounted(s') && s'.maxWindow == Max(s.maxWindow, msg.windowSize)
  {
    hide AckedCount, InFlight, Reopen, Sender.IgnoresAck, Acknowledged;
    ReceiveSetsWindows(s, msg, ack, s', s.window + InFlight(s.buffer[..n]), s.maxWindow);
  }

  lemma ReceiveWithoutSyn(s: Sender, msg: ReceiverMessage, ack: nat, s': Sender)
    requires Acknowledged(s, msg, ack, s') && Consistent(s) && Accounted(s) && !ErasesSyn(s, ack)
    ensures Accounted(s') && s'.maxWindow == if Beyond(s, ack) then s.maxWindow else Max(s.maxWindow, msg.windowSize)
  {
    IgnoredExactly(s, ack);
    if !s.IgnoresAck(ack) {
      var n := AckedCount(s.buffer, ack);
      DataReopens(s, n, msg.windowSize);
      hide Consistent, AckedCount, InFlight, Reopen, Outstanding.End, Sender.IgnoresAck, Acknowledged;
      DataReopensTo(s, msg, ack, s', n);
    }
  }

  lemma SynIsTakenOut(s: Sender, ack: nat)
    requires Consistent(s) && ErasesSyn(s, ack)
    ensures !s.IgnoresAck(ack) && s.buffer != [] && s.buffer[0].message.SYN && AckedCount(s.buffer, ack) > 0
  {
    IgnoredExactly(s, ack);
  }

  lemma ReceiveWithSyn(s: Sender, msg: ReceiverMessage, ack: nat, s': Sender)
    requires Acknowledged(s, msg, ack, s') && Consistent(s) && Accounted(s) && ErasesSyn(s, ack)
    ensures Accounted(s') <==> |s.buffer| == 1
    ensures s'.maxWindow == Max(1, msg.windowSize) && s'.acked != []
  {
    hide ErasesSyn, Consistent, AckedCount, InFlight, Reopen, Outstanding.End, Sender.IgnoresAck, Acknowledged;
    SynIsTakenOut(s, ack);
    var n, base := AckedCount(s.buffer, ack), Max(1, msg.windowSize);
    SynReopens(s, n, msg.windowSize);
    ReceiveSetsWindows(s, msg, ack, s', (base + InFlight(s.buffer[1..n])) % TWO16, base);
  }

  /** An acknowledgment keeps the accounting exactly when it does not take out SYN together with anything outstanding. */
  lemma ReceiveKeepsAccounting(s: Sender, msg: ReceiverMessage)
    requires Consistent(s) && Accounted(s) && msg.ackno.Some?
    ensures Accounted(s.Receive(msg)) <==> (ErasesSyn(s, s.AbsoluteAck(msg)) ==> |s.buffer| == 1)
  {
    var ack, s' := s.AbsoluteAck(msg), s.Receive(msg);
    if ErasesSyn(s, ack) {
      ReceiveWithSyn(s, msg, ack, s');
    } else {
      ReceiveWithoutSyn(s, msg, ack, s');
    }
  }

  // ---- Opening a connection with an honest peer ----

  /** Until SYN is acknowledged the window is 1, so SYN travels alone. */
  ghost predicate Opening(s: Sender) {
    s.acked == [] ==> s.maxWindow == 1
  }

  /** The first acknowledgment that arrives acknowledges SYN. */
  ghost predicate Honest(s: Sender, msg: ReceiverMessage)
    requires s.absSeqno < TWO64
  {
    msg.ackno.Some? && (s.acked == [] ==> s.synSet && s.AbsoluteAck(msg) >= 1)
  }

  lemma OneFitsInFlight(s: Sender)
    requires Consistent(s) && s.buffer != [] && InFlight(s.buffer) <= 1
    ensures |s.buffer| == 1
  {
    SynIsAlone(s);
    SynComesFirst(s, 0);
    hide Consistent, SenderMessage.SequenceLength;
    assert s.buffer == [s.buffer[0]] + s.buffer[1..];
    InFlightSplit([s.buffer[0]], s.buffer[1..]);
    InFlightOne(s.buffer[0]);
    InFlightPositive(s.buffer[1..]);
  }

  lemma SynTravelsAlone(s: Sender)
    requires Consistent(s) && Accounted(s) && Opening(s) && s.acked == [] && s.synSet
    ensures |s.buffer| == 1 && s.buffer[0].message.SYN && s.buffer[0].End() == s.absSeqno == 1
  {
    assert s.acked + s.buffer == s.buffer;
    assert s.buffer != [];
    OneFitsInFlight(s);
    SegmentShape(s, 0);
    InFlightOne(s.buffer[0]);
    assert s.buffer == [s.buffer[0]];
    ChainAt(s.buffer, s.absSeqno, s.isn, s.input, 0);
    hide Chain, Payloads, InFlight, Carries, SenderMessage.SequenceLength;
  }

  lemma SynIsOldest(s: Sender)
    requires Consistent(s) && s.buffer != [] && s.buffer[0].message.SYN
    ensures s.acked == []
  {
    SynComesFirst(s, 0);
  }

  /** With an honest peer the accounting holds, and the window is the largest one advertised. */
  lemma HonestAckKeepsAccounting(s: Sender, msg: ReceiverMessage, ack: nat, s': Sender)
    requires Consistent(s) && Accounted(s) && Opening(s)
    requires Acknowledged(s, msg, ack, s') && Honest(s, msg)
    ensures Consistent(s') && Accounted(s') && Opening(s')
    ensures s'.maxWindow == if Beyond(s, ack) then s.maxWindow else Max(s.maxWindow, msg.windowSize)
  {
    IgnoredExactly(s, ack);
    ReceiveConsistent(s, msg);
    if s.acked == [] {
      SynTravelsAlone(s);
    }
    hide Consistent, InFlight;
    if ErasesSyn(s, ack) {
      SynIsOldest(s);
      ReceiveWithSyn(s, msg, ack, s');
    } else {
      ReceiveWithoutSyn(s, msg, ack, s');
      assert s.acked == [] ==> s.IgnoresAck(ack);
    }
  }
}
