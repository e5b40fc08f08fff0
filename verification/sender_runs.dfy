/** The sender over whole runs with an honest peer, and what goes wrong with another one. */
module SenderRuns {
  import opened Machine
  import opened WrappingIntegers
  import opened ByteStreams
  import opened TcpMessages
  import opened TcpSending
  import opened SenderInvariants
  import opened SenderFlowControl
  import opened SenderTimer

  datatype Event = Write(data: seq<u8>) | Close | Send | Tick(ms: nat) | Ack(msg: ReceiverMessage)

  function Apply(s: Sender, e: Event): Sender
    requires s.input.Valid() && s.absSeqno < TWO64
    requires e.Ack? ==> e.msg.ackno.Some?
  {
    match e
    case Write(data) => s.(input := s.input.Push(data))
    case Close => s.(input := s.input.Close())
    case Send => s.Push().0
    case Tick(ms) => s.Tick(ms).0
    case Ack(msg) => s.Receive(msg)
  }

  /** Nothing is written after the close, fewer than 2^64 - 2 bytes in all, and acknowledgments carry a number. */
  ghost predicate Possible(s: Sender, e: Event) {
    match e
    case Write(data) => !s.input.closed && |s.input.accepted| + |data| + 2 < TWO64
    case Ack(msg) => msg.ackno.Some?
    case _ => true
  }

  // ---- Any peer ----

  lemma EventIsConsistent(s: Sender, e: Event)
    requires Consistent(s) && s.absSeqno < TWO64 && Possible(s, e)
    ensures Consistent(Apply(s, e))
  {
    match e
    case Write(data) => InputConsistent(s, s.input.Push(data));
    case Close => InputConsistent(s, s.input.Close());
    case Send => PushConsistent(s, s.Permitted());
    case Tick(ms) => TickConsistent(s, ms);
    case Ack(msg) => ReceiveConsistent(s, msg);
  }

  /** A run with any peer at all. */
  ghost predicate IsOpenRun(run: seq<Sender>, events: seq<Event>) {
    && |run| == |events| + 1
    && (forall i :: 0 <= i < |events| ==>
         run[i].input.Valid() && run[i].absSeqno < TWO64 && Possible(run[i], events[i]) && run[i + 1] == Apply(run[i], events[i]))
  }

  /** Whatever is acknowledged when: every accepted byte is acknowledged, outstanding or unsent, in order. */
  lemma {:induction false} ConservedOverRuns(capacity: nat, isn: Wrap32, initialRto: nat, run: seq<Sender>, events: seq<Event>)
    requires IsOpenRun(run, events) && run[0] == NewSender(capacity, isn, initialRto)
    ensures var s := run[|events|];
            && Consistent(s)
            && Payloads(s.acked) + Payloads(s.buffer) + s.input.Buffered() == s.input.accepted
    decreases |events|
  {
    if events == [] {
    } else {
      var n := |events| - 1;
      ConservedOverRuns(capacity, isn, initialRto, run[..n + 1], events[..n]);
      EventIsConsistent(run[n], events[n]);
    }
    hide Apply, Payloads, Chain;
    Conservation(run[|events|]);
  }

  // ---- An honest peer ----

  /** The first acknowledgment that arrives covers SYN. */
  ghost predicate Allowed(s: Sender, e: Event)
    requires s.absSeqno < TWO64
  {
    Possible(s, e) && (e.Ack? ==> Honest(s, e.msg))
  }

  ghost predicate Good(s: Sender) {
    Consistent(s) && Accounted(s) && Opening(s) && Timed(s)
  }

  lemma NewIsGood(capacity: nat, isn: Wrap32, initialRto: nat)
    requires initialRto >= 1
    ensures Good(NewSender(capacity, isn, initialRto))
  {
  }

  lemma PushIsGood(s: Sender)
    requires Good(s)
    ensures Good(s.Push().0) && s.Push().0.maxWindow == s.maxWindow && s.Push().0.backoffs == s.backoffs
  {
    PushRespectsWindow(s);
    PushTimed(s, s.Permitted());
    hide Consistent, Accounted, Timed, Sender.PushFrom;
  }

  lemma WriteIsGood(s: Sender, later: Stream)
    requires Good(s) && later.Valid() && Extends(later, s.input)
    requires later.popped == s.input.popped && later.error == s.input.error && |later.accepted| + 2 < TWO64
    ensures Good(s.(input := later))
  {
    InputConsistent(s, later);
    hide Consistent, InFlight;
  }

  lemma TickIsGood(s: Sender, ms: nat)
    requires Good(s)
    ensures Good(s.Tick(ms).0) && s.Tick(ms).0.maxWindow == s.maxWindow
  {
    TickConsistent(s, ms);
    TickTimed(s, ms);
    hide Consistent, InFlight, Timed;
  }

  lemma AckIsGood(s: Sender, msg: ReceiverMessage)
    requires Good(s) && s.absSeqno < TWO64 && Honest(s, msg)
    ensures Good(s.Receive(msg))
    ensures s.Receive(msg).maxWindow
            == if Beyond(s, s.AbsoluteAck(msg)) then s.maxWindow else Max(s.maxWindow, msg.windowSize)
  {
    HonestAckKeepsAccounting(s, msg, s.AbsoluteAck(msg), s.Receive(msg));
    ReceiveTimed(s, msg);
    hide Consistent, Accounted, Timed, Sender.Receive;
  }

  lemma EventIsGood(s: Sender, e: Event)
    requires Good(s) && s.absSeqno < TWO64 && Allowed(s, e)
    ensures Good(Apply(s, e))
  {
    match e
    case Write(data) => WriteIsGood(s, s.input.Push(data));
    case Close => WriteIsGood(s, s.input.Close());
    case Send => PushIsGood(s);
    case Tick(ms) => TickIsGood(s, ms);
    case Ack(msg) => AckIsGood(s, msg);
  }

  ghost predicate IsRun(run: seq<Sender>, events: seq<Event>) {
    && |run| == |events| + 1
    && (forall i :: 0 <= i < |events| ==>
         run[i].input.Valid() && run[i].absSeqno < TWO64 && Allowed(run[i], events[i]) && run[i + 1] == Apply(run[i], events[i]))
  }

  /**
   * What an onlooker remembers of the acknowledgments that were not ignored and of the retransmissions: the newest
   * number and the largest window acknowledged, whether the last window was zero (as is assumed at first), and, since
   * the last new acknowledgment, the retransmissions, and those among them that were of SYN or outside zero-window
   * mode; further the time since the timer was last reset.
   */
  datatype Observed = Observed(
    newest: nat, largest: nat, zeroWindow: bool, retransmissions: nat, expiries: nat, elapsed: nat)

  function Observe(s: Sender, e: Event, o: Observed): Observed
    requires s.absSeqno < TWO64
  {
    match e
    case Tick(ms) =>
      if s.buffer == [] then o.(elapsed := 0)
      else if s.Tick(ms).1 == [] then o.(elapsed := o.elapsed + ms)
      else
        o.(elapsed := 0, retransmissions := o.retransmissions + 1,
           expiries := if s.buffer[0].message.SYN || !o.zeroWindow then o.expiries + 1 else o.expiries)
    case Ack(msg) =>
      if msg.ackno.None? || Beyond(s, s.AbsoluteAck(msg)) then o
      else
        var o1 := o.(largest := Max(o.largest, msg.windowSize), zeroWindow := msg.windowSize == 0);
        if o.newest < s.AbsoluteAck(msg)
        then o1.(newest := s.AbsoluteAck(msg), retransmissions := 0, expiries := 0, elapsed := 0)
        else o1
    case _ => o
  }

  ghost function ObserveAll(run: seq<Sender>, events: seq<Event>): Observed
    requires IsRun(run, events)
    decreases |events|
  {
    if events == [] then Observed(0, 0, true, 0, 0, 0)
    else
      var n := |events| - 1;
      Observe(run[n], events[n], ObserveAll(run[..n + 1], events[..n]))
  }

  /** The sender's windows and timer are functions of what was observed. */
  ghost predicate Agrees(s: Sender, o: Observed, initialRto: nat) {
    && s.maxWindow == Max(1, o.largest) && s.receiverFull == o.zeroWindow && s.lastAck == o.newest
    && s.retransmissions == o.retransmissions && s.backoffs == o.expiries && s.timer == o.elapsed
    && s.initialRto == initialRto
  }

  lemma AckSetsTimer(s: Sender, msg: ReceiverMessage, o: Observed)
    requires s.absSeqno < TWO64 && msg.ackno.Some? && s.lastAck == o.newest
    ensures var s' := s.Receive(msg);
            && s'.initialRto == s.initialRto
            && (if s.IgnoresAck(s.AbsoluteAck(msg)) then s' == s
                else s'.receiverFull == (msg.windowSize == 0)
                     && s'.lastAck == Max(s.lastAck, s.AbsoluteAck(msg))
                     && (if s.lastAck < s.AbsoluteAck(msg) then s'.retransmissions == s'.backoffs == s'.timer == 0
                         else s'.retransmissions == s.retransmissions && s'.backoffs == s.backoffs && s'.timer == s.timer))
  {
    hide Sender.AbsoluteAck, Sender.IgnoresAck, Reopen, AckedCount;
  }

  lemma AckAgrees(s: Sender, msg: ReceiverMessage, o: Observed, initialRto: nat)
    requires Good(s) && s.absSeqno < TWO64 && Honest(s, msg) && Agrees(s, o, initialRto)
    ensures Agrees(s.Receive(msg), Observe(s, Ack(msg), o), initialRto)
  {
    hide Consistent, Accounted, Timed, Opening, Sender.AbsoluteAck, Sender.IgnoresAck, Sender.Receive, Beyond;
    IgnoredExactly(s, s.AbsoluteAck(msg));
    AckIsGood(s, msg);
    AckSetsTimer(s, msg, o);
  }

  ghost predicate SameTimer(s: Sender, s': Sender) {
    && s'.initialRto == s.initialRto && s'.lastAck == s.lastAck && s'.receiverFull == s.receiverFull
    && s'.retransmissions == s.retransmissions && s'.timer == s.timer
  }

  lemma SendOneKeepsTimer(s: Sender, permitted: u16)
    requires s.input.Valid()
    ensures SameTimer(s, s.SendOne(permitted))
  {
    hide Sender.NextSegment, SenderMessage.SequenceLength;
  }

  /** Sending does not touch the timer. */
  lemma {:induction false} PushKeepsTimer(s: Sender, permitted: u16)
    requires s.input.Valid()
    ensures SameTimer(s, s.PushFrom(permitted).0)
    decreases s.Unsent()
  {
    hide Sender.NextSegment, Sender.SendOne, SenderMessage.SequenceLength, Sender.CanSend, Sender.Unsent;
    if !s.CanSend(permitted) {
    } else {
      SendOneKeepsTimer(s, permitted);
      LessUnsent(s, permitted);
      PushKeepsTimer(s.SendOne(permitted), (permitted - s.NextSegment(permitted).SequenceLength()) % TWO16);
    }
  }

  lemma PushAgrees(s: Sender, o: Observed, initialRto: nat)
    requires Good(s) && Agrees(s, o, initialRto)
    ensures Agrees(s.Push().0, o, initialRto)
  {
    hide Chain, Payloads, Accounted, Timed, Opening, Sender.PushFrom;
    PushIsGood(s);
    PushKeepsTimer(s, s.Permitted());
  }

  lemma TickAgrees(s: Sender, ms: nat, o: Observed, initialRto: nat)
    requires Good(s) && s.absSeqno < TWO64 && Agrees(s, o, initialRto)
    ensures Agrees(s.Tick(ms).0, Observe(s, Tick(ms), o), initialRto)
  {
    hide Consistent, Accounted, Opening;
  }

  lemma EventAgrees(s: Sender, e: Event, o: Observed, initialRto: nat)
    requires Good(s) && s.absSeqno < TWO64 && Allowed(s, e) && Agrees(s, o, initialRto)
    ensures Agrees(Apply(s, e), Observe(s, e, o), initialRto)
  {
    hide Consistent, Accounted, Timed, Opening, Sender.PushFrom, Sender.Receive, Sender.Tick;
    match e
    case Send => PushAgrees(s, o, initialRto);
    case Tick(ms) => TickAgrees(s, ms, o, initialRto);
    case Ack(msg) => AckAgrees(s, msg, o, initialRto);
    case _ =>
  }

  /**
   * In every run with an honest peer: every accepted byte is acknowledged, outstanding or unsent, in order;
   * what is in flight never exceeds the largest window advertised (or 1); the timeout is the initial one doubled
   * once per expiry since the last new acknowledgment that was of SYN or outside zero-window mode; and the timer
   * holds the time since it was last reset.
   */
  lemma {:induction false} SafeOverRuns(capacity: nat, isn: Wrap32, initialRto: nat, run: seq<Sender>, events: seq<Event>)
    requires initialRto >= 1 && IsRun(run, events) && run[0] == NewSender(capacity, isn, initialRto)
    ensures var s, o := run[|events|], ObserveAll(run, events);
            && Good(s) && Agrees(s, o, initialRto)
            && InFlight(s.buffer) <= Max(1, o.largest)
            && (s.synSet ==> s.rto == Doubled(initialRto, o.expiries))
            && Payloads(s.acked) + Payloads(s.buffer) + s.input.Buffered() == s.input.accepted
    decreases |events|
  {
    if events == [] {
      NewIsGood(capacity, isn, initialRto);
    } else {
      var n := |events| - 1;
      SafeOverRuns(capacity, isn, initialRto, run[..n + 1], events[..n]);
      EventIsGood(run[n], events[n]);
      EventAgrees(run[n], events[n], ObserveAll(run[..n + 1], events[..n]), initialRto);
    }
    Conservation(run[|events|]);
    hide Consistent, Payloads, Apply, Observe;
  }

  // ---- A window advertised before SYN is acknowledged ----

  ghost function OneSegment(isn: Wrap32, first: nat, syn: bool, payload: seq<u8>): Outstanding
    requires first < TWO64
  {
    Outstanding(first, SenderMessage(Wrap(first, isn), syn, payload, false, false))
  }

  lemma SynGoesOut(capacity: nat, isn: Wrap32, initialRto: nat)
    requires initialRto >= 1
    ensures var s := NewSender(capacity, isn, initialRto).Push().0;
            && s.buffer == [OneSegment(isn, 0, true, [])] && s.absSeqno == 1 && s.input == Empty(capacity)
            && s.window == 0 && s.maxWindow == 1 && s.isn == isn && s.acked == [] && Good(s) && s.synSet
    ensures NewSender(capacity, isn, initialRto).Push().1 == [OneSegment(isn, 0, true, []).message]
  {
    var s0 := NewSender(capacity, isn, initialRto);
    NewIsGood(capacity, isn, initialRto);
    PushIsGood(s0);
    var m, s1 := s0.NextSegment(1), s0.SendOne(1);
    assert m == OneSegment(isn, 0, true, []).message;
    PushUnfolds(s0, 1, m, s1, 0);
    assert s1.PushFrom(0) == (s1, []);
  }

  lemma WindowOpensEarly(s: Sender, msg: ReceiverMessage)
    requires Good(s) && s.buffer == [OneSegment(s.isn, 0, true, [])] && s.absSeqno == 1 && s.window == 0 && s.maxWindow == 1
    requires msg == ReceiverMessage(Some(s.isn), 5, false)
    ensures var s' := s.Receive(msg);
            && s'.buffer == s.buffer && s'.acked == s.acked && s'.window == 4 && s'.maxWindow == 5 && !s'.receiverFull
            && s'.input == s.input && Consistent(s') && s'.synSet == s.synSet && s'.absSeqno == 1 && s'.isn == s.isn
  {
    WrapRoundTrip(0, s.isn, 1);
    assert Wrap(0, s.isn) == s.isn;
    ReceiveConsistent(s, msg);
    hide Wrap32.Unwrap, Consistent, Wrap, Chain, Payloads;
  }

  lemma ByteGoesOut(s: Sender, x: u8)
    requires Consistent(s) && s.input.Valid() && s.input.Buffered() == [x] && !s.input.closed
    requires s.synSet && s.window > 0 && !s.receiverFull
    ensures s.Push() == (s.SendOne(s.window), [OneSegment(s.isn, s.absSeqno, false, [x]).message])
    ensures s.Push().0.buffer == s.buffer + [OneSegment(s.isn, s.absSeqno, false, [x])]
    ensures s.Push().0.window == s.window - 1 && s.Push().0.absSeqno == s.absSeqno + 1
  {
    var w: u16 := s.window;
    var m, s1 := s.NextSegment(w), s.SendOne(w);
    assert m == OneSegment(s.isn, s.absSeqno, false, [x]).message;
    PushUnfolds(s, w, m, s1, w - 1);
    assert s1.input.Buffered() == [];
    assert s1.PushFrom(w - 1) == (s1, []) && [m] + [] == [m];
  }

  lemma TwoInFlight(isn: Wrap32, x: u8)
    ensures InFlight([OneSegment(isn, 0, true, [])] + [OneSegment(isn, 1, false, [x])]) == 2
  {
    InFlightSplit([OneSegment(isn, 0, true, [])], [OneSegment(isn, 1, false, [x])]);
    InFlightOne(OneSegment(isn, 0, true, []));
    InFlightOne(OneSegment(isn, 1, false, [x]));
  }

  lemma BothGoAtOnce(s: Sender, x: u8)
    requires Consistent(s) && s.buffer == [OneSegment(s.isn, 0, true, [])] && s.acked == [] && s.absSeqno == 1 && s.synSet
    requires s.window == 4 && s.maxWindow == 5 && !s.receiverFull && s.input == Empty(s.input.capacity) && s.input.capacity >= 1
    ensures var s' := s.(input := s.input.Push([x])).Push().0;
            && s'.absSeqno == 2 && s'.input.Valid() && Accounted(s')
            && !Accounted(s'.Receive(ReceiverMessage(Some(Wrap(2, s.isn)), 5, false)))
  {
    var t := s.(input := s.input.Push([x]));
    assert t.input.accepted == [x];
    InputConsistent(s, t.input);
    ByteGoesOut(t, x);
    var s' := t.Push().0;
    PushConsistent(t, 4);
    TwoInFlight(s.isn, x);
    WrapRoundTrip(2, s.isn, 2);
    hide Consistent, InFlight, Sender.PushFrom, Sender.Receive, Wrap, Wrap32.Unwrap;
    ReceiveKeepsAccounting(s', ReceiverMessage(Some(Wrap(2, s.isn)), 5, false));
  }

  /**
   * A peer that advertises 5 before it acknowledges SYN: SYN and a byte are then outstanding together, and one
   * acknowledgment of both leaves the sender a window of 6.
   */
  lemma EarlyWindowBreaksAccounting(capacity: nat, isn: Wrap32, initialRto: nat, x: u8)
    returns (s1: Sender, s2: Sender, s3: Sender)
    requires capacity >= 1 && initialRto >= 1
    ensures s1 == NewSender(capacity, isn, initialRto).Push().0 && s1.absSeqno == 1
    ensures s2 == s1.Receive(ReceiverMessage(Some(isn), 5, false)) && s2.input.Valid()
    ensures s3 == s2.(input := s2.input.Push([x])).Push().0 && s3.absSeqno == 2
    ensures Accounted(s3) && !Accounted(s3.Receive(ReceiverMessage(Some(Wrap(2, isn)), 5, false)))
  {
    s1 := NewSender(capacity, isn, initialRto).Push().0;
    SynGoesOut(capacity, isn, initialRto);
    WindowOpensEarly(s1, ReceiverMessage(Some(isn), 5, false));
    s2 := s1.Receive(ReceiverMessage(Some(isn), 5, false));
    hide Good, Sender.Receive, Sender.PushFrom, Accounted;
    BothGoAtOnce(s2, x);
    s3 := s2.(input := s2.input.Push([x])).Push().0;
  }
}
