/** The retransmission timer. */
module SenderTimer {
  import opened Machine
  import opened WrappingIntegers
  import opened TcpMessages
  import opened TcpSending
  import opened SenderInvariants

  /** The timeout after `k` doublings. */
  function Doubled(ms: nat, k: nat): nat {
    if k == 0 then ms else 2 * Doubled(ms, k - 1)
  }

  /** The timeout is the initial one doubled once for each recorded expiry, and the timer has not reached it. */
  ghost predicate Timed(s: Sender) {
    && s.initialRto >= 1
    && (s.synSet ==> s.rto == Doubled(s.initialRto, s.backoffs) && s.timer < s.rto)
    && (!s.synSet ==> s.timer == 0 && s.buffer == [] && s.backoffs == 0)
  }

  lemma TickTimed(s: Sender, ms: nat)
    requires Timed(s)
    ensures Timed(s.Tick(ms).0)
  {
  }

  lemma ReceiveTimed(s: Sender, msg: ReceiverMessage)
    requires Timed(s) && msg.ackno.Some? && s.absSeqno < TWO64
    ensures Timed(s.Receive(msg))
  {
    hide Sender.AbsoluteAck, Reopen, Sender.IgnoresAck;
  }

  lemma SendOneTimed(s: Sender, permitted: u16)
    requires s.input.Valid() && Timed(s) && s.CanSend(permitted)
    ensures Timed(s.SendOne(permitted)) && s.SendOne(permitted).backoffs == s.backoffs
  {
    hide Sender.NextSegment, SenderMessage.SequenceLength, Wrap32.Plus, Sender.EmptyMessage;
  }

  lemma {:induction false} PushTimed(s: Sender, permitted: u16)
    requires s.input.Valid() && Timed(s)
    ensures Timed(s.PushFrom(permitted).0) && s.PushFrom(permitted).0.backoffs == s.backoffs
    decreases s.Unsent()
  {
    if !s.CanSend(permitted) {
    } else {
      SendOneTimed(s, permitted);
      hide Timed, Sender.NextSegment, SenderMessage.SequenceLength;
      PushTimed(s.SendOne(permitted), (permitted - s.NextSegment(permitted).SequenceLength()) % TWO16);
    }
  }

  // ---- Expiry ----

  function Sum(ms: seq<nat>): nat {
    if ms == [] then 0 else ms[0] + Sum(ms[1..])
  }

  /** Time passes in steps, and nothing else happens. */
  function TickAll(s: Sender, ms: seq<nat>): (r: (Sender, seq<SenderMessage>))
    decreases |ms|
  {
    if ms == [] then (s, [])
    else
      var (s1, sent) := s.Tick(ms[0]);
      var (s', more) := TickAll(s1, ms[1..]);
      (s', sent + more)
  }

  /** As long as the time adds up to less than the timeout, nothing is retransmitted. */
  lemma {:induction false} QuietBeforeTimeout(s: Sender, ms: seq<nat>)
    requires s.buffer != [] && s.timer + Sum(ms) < s.rto
    ensures TickAll(s, ms) == (s.(timer := s.timer + Sum(ms)), [])
    decreases |ms|
  {
    if ms == [] {
      assert s.timer + Sum(ms) == s.timer;
    } else {
      var s1 := s.(timer := s.timer + ms[0]);
      assert s.Tick(ms[0]) == (s1, []);
      QuietBeforeTimeout(s1, ms[1..]);
      assert [] + TickAll(s1, ms[1..]).1 == [];
    }
  }

  lemma OldestComesFirst(s: Sender)
    requires Consistent(s) && s.buffer != []
    ensures forall i :: 0 <= i < |s.buffer| ==> s.buffer[0].first <= s.buffer[i].first
    ensures s.buffer[0].first == if s.acked == [] then 0 else s.acked[|s.acked| - 1].End()
    ensures s.buffer[0].message.SYN <==> s.acked == []
  {
    var all, k := s.acked + s.buffer, |s.acked|;
    forall i | 0 < i < |s.buffer|
      ensures s.buffer[0].first <= s.buffer[i].first
    {
      ChainRises(all, s.absSeqno, s.isn, s.input, k, k + i);
      ChainAt(all, s.absSeqno, s.isn, s.input, k);
      assert all[k] == s.buffer[0] && all[k + i] == s.buffer[i];
    }
    SegmentShape(s, k);
    ChainAt(all, s.absSeqno, s.isn, s.input, k);
    if k > 0 {
      ChainAt(all, s.absSeqno, s.isn, s.input, k - 1);
      assert all[k - 1] == s.acked[k - 1];
    }
    hide Chain, Payloads, Counted;
    assert all[k] == s.buffer[0];
  }

  /**
   * The step that makes the accumulated time reach the timeout retransmits the oldest outstanding segment and
   * nothing else; it starts right after everything acknowledged, and its timeout doubles unless the window is zero.
   */
  lemma ExpiresOnTime(s: Sender, ms: seq<nat>, step: nat)
    requires Consistent(s) && s.buffer != [] && s.timer + Sum(ms) < s.rto
    ensures var (s', sent) := TickAll(s, ms).0.Tick(step);
            && TickAll(s, ms).1 == []
            && sent == (if s.timer + Sum(ms) + step >= s.rto then [s.buffer[0].message] else [])
            && (sent != [] ==> s'.timer == 0 && s'.retransmissions == s.retransmissions + 1
                               && s'.rto == if s.receiverFull && s.acked != [] then s.rto else 2 * s.rto)
    ensures forall i :: 0 <= i < |s.buffer| ==> s.buffer[0].first <= s.buffer[i].first
    ensures s.buffer[0].first == if s.acked == [] then 0 else s.acked[|s.acked| - 1].End()
  {
    QuietBeforeTimeout(s, ms);
    OldestComesFirst(s);
    hide Consistent;
  }
}
