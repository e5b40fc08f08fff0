/** Why a repeated bare SYN is excluded: a run of a connection that ends with the wrong byte. */
module ConnectionHazard {
  import opened Machine
  import opened WrappingIntegers
  import opened ByteStreams
  import opened Assembling
  import opened TcpMessages
  import opened TcpSending
  import opened TcpReceiving
  import opened SenderInvariants
  import opened Connection
  import opened ConnectionReceiving
  import opened ConnectionRuns
  import SenderRuns
  import Completion

  ghost function BareSyn(isn: Wrap32): SenderMessage {
    SenderMessage(isn, true, [], false, false)
  }

  ghost function ByteSegment(isn: Wrap32, first: nat, x: u8): SenderMessage
    requires first < TWO64
  {
    SenderMessage(Wrap(first, isn), false, [x], false, false)
  }

  // ---- The receiver ----

  lemma FirstSynIndex(isn: Wrap32)
    ensures NewReceiver(3).Valid() && NewReceiver(3).StreamIndex(BareSyn(isn)) == 0
  {
    ShiftBack(0, isn, isn);
    WrapRoundTrip(0, isn, 0);
    hide Wrap, Wrap32.Plus, Wrap32.Unwrap;
  }

  lemma EmptyInsert()
    ensures Completion.Start(3).Insert(0, [], false) == Completion.Start(3)
    ensures !Completion.Start(3).Hazard(0, [], false)
  {
    Completion.LearnNothing(Completion.Start(3), 0);
    Completion.WriteRunIs(Empty(3), map[], None, 1, [], map[]);
  }

  lemma FirstSyn(isn: Wrap32)
    ensures var r0 := NewReceiver(3);
            r0.Valid() && !r0.asm.Hazard(r0.StreamIndex(BareSyn(isn)), [], false)
    ensures var r := NewReceiver(3).Receive(BareSyn(isn));
            && r.Valid() && r.asm == Assembly(Empty(3), map[], None) && r.isn == isn && r.synSet
            && r.ackno == Some(Wrap(1, isn)) && !r.rst
  {
    FirstSynIndex(isn);
    EmptyInsert();
    ReceiveKeepsValid(NewReceiver(3), BareSyn(isn));
    hide Assembly.Insert, Assembly.Hazard, Receiver.StreamIndex, Wrap;
  }

  lemma SynIsAnswered(r: Receiver, isn: Wrap32)
    requires r.Valid() && r.asm == Assembly(Empty(3), map[], None) && r.synSet && r.ackno == Some(Wrap(1, isn)) && !r.rst
    ensures r.Send() == ReceiverMessage(Some(Wrap(1, isn)), 3, false)
  {
    hide Wrap;
  }

  lemma SecondByte(r: Receiver, y: u8)
    requires r.Valid() && r.asm == Assembly(Empty(3), map[], None) && r.synSet
    ensures var r' := r.Receive(ByteSegment(r.isn, 2, y));
            r'.Valid() && r'.asm == Assembly(Empty(3), map[1 := y], None) && r'.isn == r.isn && r'.synSet
  {
    var m := ByteSegment(r.isn, 2, y);
    ReceiveKeepsValid(r, m);
    ShiftBack(2, r.isn, m.seqno);
    WrapRoundTrip(1, r.isn, 0);
    Completion.EarlyByte(1, y);
    hide Assembly.Insert, Wrap, Wrap32.Plus, Wrap32.Unwrap;
  }

  lemma SynAgain(r: Receiver, y: u8)
    requires r.Valid() && r.asm == Assembly(Empty(3), map[1 := y], None) && r.synSet
    ensures r.StreamIndex(BareSyn(r.isn)) == 0 && r.asm.Hazard(0, [], false)
    ensures r.Receive(BareSyn(r.isn)).asm.out.accepted == [y]
  {
    ShiftBack(0, r.isn, r.isn);
    WrapRoundTrip(0, r.isn, 0);
    Completion.PhantomMovesByte(y);
    hide Assembly.Insert, Wrap, Wrap32.Plus, Wrap32.Unwrap;
  }

  // ---- The sender ----

  lemma SynIsErased(s: Sender)
    requires s.buffer == [SenderRuns.OneSegment(s.isn, 0, true, [])]
    ensures !s.IgnoresAck(1)
    ensures var s' := s.Erase(1, 3); s' == s.(buffer := [], acked := s.acked + s.buffer, window := 3, maxWindow := 3)
  {
    hide Wrap;
    assert AckedCount(s.buffer, 1) == 1;
    assert s.buffer[..1] == s.buffer && s.buffer[..0] == [];
    assert Reopen([], s.window, s.maxWindow, 3) == (s.window, s.maxWindow);
    assert Reopen(s.buffer, s.window, s.maxWindow, 3) == (3, 3);
  }

  /** The acknowledgment of SYN opens a window of 3. */
  lemma SynIsAcked(s: Sender, msg: ReceiverMessage)
    requires Consistent(s) && s.buffer == [SenderRuns.OneSegment(s.isn, 0, true, [])] && s.absSeqno == 1
    requires msg == ReceiverMessage(Some(Wrap(1, s.isn)), 3, false)
    ensures var s' := s.Receive(msg);
            && Consistent(s') && s'.window == 3 && !s'.receiverFull
            && s'.input == s.input && s'.synSet == s.synSet && s'.absSeqno == 1 && s'.isn == s.isn
  {
    hide Consistent, Sender.Erase, Sender.IgnoresAck;
    WrapRoundTrip(1, s.isn, 1);
    SynIsErased(s);
    ReceiveConsistent(s, msg);
    hide Wrap32.Unwrap, Wrap;
  }

  /** A sender that is open, with nothing left to send. */
  ghost predicate Idle(s: Sender, isn: Wrap32, accepted: seq<u8>, window: nat) {
    && Consistent(s) && s.isn == isn && s.synSet && !s.receiverFull && s.window == window
    && s.input.capacity >= 1 && s.input.accepted == accepted && s.input.popped == |accepted| && !s.input.closed
    && s.absSeqno == 1 + |accepted|
  }

  /** One byte written is sent as one segment. */
  lemma ByteIsSent(s: Sender, isn: Wrap32, accepted: seq<u8>, window: nat, x: u8)
    requires Idle(s, isn, accepted, window) && window > 0 && |accepted| < 3
    ensures var written := s.(input := s.input.Push([x]));
            && written.input.Valid() && written.absSeqno < TWO64
            && Idle(written.Push().0, isn, accepted + [x], window - 1)
            && written.Push().1 == [ByteSegment(isn, 1 + |accepted|, x)]
  {
    var written := s.(input := s.input.Push([x]));
    assert written.input.accepted == accepted + [x] && written.input.Buffered() == [x];
    InputConsistent(s, written.input);
    SenderRuns.ByteGoesOut(written, x);
    PushConsistent(written, written.Permitted());
    hide Consistent, Chain, Payloads, Wrap;
  }

  // ---- The run ----

  ghost predicate Reaches(run: seq<System>, steps: seq<Step>, c: System) {
    IsConnection(run, steps) && run[|steps|] == c
  }

  lemma GoOn(run: seq<System>, steps: seq<Step>, c: System, step: Step, c': System)
    returns (run': seq<System>, steps': seq<Step>)
    requires Reaches(run, steps, c) && IsStep(c, step, c')
    ensures Reaches(run', steps', c') && steps' == steps + [step]
  {
    hide IsStep;
    run', steps' := run + [c'], steps + [step];
    assert forall i :: 0 <= i < |steps| ==> IsStep(run'[i], steps'[i], run'[i + 1]);
  }

  /** SYN was sent, received and acknowledged; the bytes accepted were sent, and nothing else arrived. */
  ghost predicate Opened(c: System, isn: Wrap32, accepted: seq<u8>, window: nat) {
    && Idle(c.sender, isn, accepted, window)
    && c.receiver.Valid() && c.receiver.asm == Assembly(Empty(3), map[], None)
    && c.receiver.isn == isn && c.receiver.synSet
    && BareSyn(isn) in c.segments
  }

  /** A sender with SYN outstanding and nothing else sent. */
  ghost predicate SynOut(s: Sender, isn: Wrap32) {
    && Consistent(s) && s.buffer == [SenderRuns.OneSegment(isn, 0, true, [])] && s.absSeqno == 1
    && s.isn == isn && s.synSet && s.input == Empty(s.input.capacity) && s.input.capacity >= 1
  }

  /** A receiver that has seen SYN and nothing else. */
  ghost predicate SynIn(r: Receiver, isn: Wrap32) {
    && r.Valid() && r.asm == Assembly(Empty(3), map[], None) && r.isn == isn && r.synSet
    && r.ackno == Some(Wrap(1, isn)) && !r.rst
  }

  lemma SynOutIsDefined(s: Sender, isn: Wrap32)
    requires SynOut(s, isn)
    ensures s.input.Valid() && s.absSeqno < TWO64
  {
    hide Chain, Payloads;
  }

  lemma SynIsSent(capacity: nat, isn: Wrap32, initialRto: nat) returns (s: Sender)
    requires capacity >= 1 && initialRto >= 1
    ensures SynOut(s, isn)
    ensures IsStep(Start(capacity, 3, isn, initialRto), Step.Push, System(s, NewReceiver(3), {BareSyn(isn)}, {}))
  {
    s := NewSender(capacity, isn, initialRto).Push().0;
    SenderRuns.SynGoesOut(capacity, isn, initialRto);
    FirstSyn(isn);
    assert Wrap(0, isn) == isn;
    hide Sender.PushFrom, Consistent, Wrap, Assembly.Hazard, Receiver.StreamIndex;
    assert (set m | m in [BareSyn(isn)]) == {BareSyn(isn)};
  }

  lemma SynArrives(s: Sender, isn: Wrap32) returns (r: Receiver)
    requires SynOut(s, isn)
    ensures SynIn(r, isn)
    ensures IsStep(System(s, NewReceiver(3), {BareSyn(isn)}, {}), DeliverSegment(BareSyn(isn)), System(s, r, {BareSyn(isn)}, {}))
  {
    r := NewReceiver(3).Receive(BareSyn(isn));
    FirstSyn(isn);
    SynOutIsDefined(s, isn);
    hide SynOut, Receiver.Receive, Receiver.Valid, Receiver.StreamIndex, Assembly.Hazard, Wrap;
  }

  lemma SynIsConfirmed(s: Sender, r: Receiver, isn: Wrap32)
    requires SynOut(s, isn) && SynIn(r, isn)
    ensures IsStep(System(s, r, {BareSyn(isn)}, {}), SendAck,
                   System(s, r, {BareSyn(isn)}, {ReceiverMessage(Some(Wrap(1, isn)), 3, false)}))
  {
    SynIsAnswered(r, isn);
    SynOutIsDefined(s, isn);
    hide SynOut, Receiver.Send, Receiver.Valid, Wrap;
  }

  lemma AckMakesIdle(s: Sender, isn: Wrap32)
    requires SynOut(s, isn)
    ensures s.input.Valid() && s.absSeqno < TWO64
    ensures Idle(s.Receive(ReceiverMessage(Some(Wrap(1, isn)), 3, false)), isn, [], 3)
  {
    hide Consistent, Sender.Receive, Wrap;
    SynOutIsDefined(s, isn);
    SynIsAcked(s, ReceiverMessage(Some(Wrap(1, isn)), 3, false));
  }

  lemma AckArrives(s: Sender, r: Receiver, isn: Wrap32) returns (c: System)
    requires SynOut(s, isn) && SynIn(r, isn)
    ensures var ack := ReceiverMessage(Some(Wrap(1, isn)), 3, false);
            IsStep(System(s, r, {BareSyn(isn)}, {ack}), DeliverAck(ack), c)
    ensures Opened(c, isn, [], 3)
  {
    hide SynOut, Idle, Receiver.Valid, Sender.Receive, Wrap;
    var ack := ReceiverMessage(Some(Wrap(1, isn)), 3, false);
    AckMakesIdle(s, isn);
    c := System(s.Receive(ack), r, {BareSyn(isn)}, {ack});
  }

  lemma Opens(capacity: nat, isn: Wrap32, initialRto: nat) returns (run: seq<System>, steps: seq<Step>, c: System)
    requires capacity >= 1 && initialRto >= 1
    ensures Reaches(run, steps, c) && Opened(c, isn, [], 3)
  {
    var syn, ack := {BareSyn(isn)}, ReceiverMessage(Some(Wrap(1, isn)), 3, false);
    var c0 := Start(capacity, 3, isn, initialRto);
    run, steps := [c0], [];
    assert Reaches(run, steps, c0);
    hide Reaches, SynOut, SynIn, IsStep, Opened, Start;
    var s := SynIsSent(capacity, isn, initialRto);
    run, steps := GoOn(run, steps, c0, Step.Push, System(s, NewReceiver(3), syn, {}));
    var r := SynArrives(s, isn);
    run, steps := GoOn(run, steps, System(s, NewReceiver(3), syn, {}), DeliverSegment(BareSyn(isn)), System(s, r, syn, {}));
    SynIsConfirmed(s, r, isn);
    run, steps := GoOn(run, steps, System(s, r, syn, {}), SendAck, System(s, r, syn, {ack}));
    c := AckArrives(s, r, isn);
    run, steps := GoOn(run, steps, System(s, r, syn, {ack}), DeliverAck(ack), c);
  }

  lemma WritesAndSends(run: seq<System>, steps: seq<Step>, c: System, isn: Wrap32, accepted: seq<u8>, window: nat, x: u8)
    returns (run': seq<System>, steps': seq<Step>, c': System)
    requires Reaches(run, steps, c) && Opened(c, isn, accepted, window) && window > 0 && |accepted| < 3
    ensures Reaches(run', steps', c') && Opened(c', isn, accepted + [x], window - 1)
    ensures ByteSegment(isn, 1 + |accepted|, x) in c'.segments && c.segments <= c'.segments
  {
    var written := c.(sender := c.sender.(input := c.sender.input.Push([x])));
    var sent := written.sender.Push();
    c' := written.(sender := sent.0, segments := c.segments + set m | m in sent.1);
    ByteIsSent(c.sender, isn, accepted, window, x);
    hide Reaches, Consistent, Sender.PushFrom, Sender.Push, Receiver.Valid, Wrap;
    assert IsStep(c, Step.Write([x]), written);
    assert IsStep(written, Step.Push, c');
    run', steps' := GoOn(run, steps, c, Step.Write([x]), written);
    run', steps' := GoOn(run', steps', written, Step.Push, c');
  }

  lemma IdleIsDefined(s: Sender, isn: Wrap32, accepted: seq<u8>, window: nat)
    requires Idle(s, isn, accepted, window)
    ensures s.input.Valid() && s.absSeqno < TWO64
  {
    hide Chain, Payloads;
  }

  lemma SecondArrives(run: seq<System>, steps: seq<Step>, c: System, isn: Wrap32, accepted: seq<u8>, window: nat, y: u8)
    returns (run': seq<System>, steps': seq<Step>, c': System)
    requires Reaches(run, steps, c) && Opened(c, isn, accepted, window) && ByteSegment(isn, 2, y) in c.segments
    ensures Reaches(run', steps', c') && c'.sender == c.sender && c'.segments == c.segments
    ensures c'.receiver == c.receiver.Receive(ByteSegment(isn, 2, y))
  {
    var m := ByteSegment(isn, 2, y);
    c' := c.(receiver := c.receiver.Receive(m));
    hide Reaches, Idle, Receiver.Receive, Receiver.Valid, Receiver.StreamIndex, Wrap;
    assert IsStep(c, DeliverSegment(m), c') by {
      assert c.sender.input.Valid() && c.sender.absSeqno < TWO64 by {
        IdleIsDefined(c.sender, isn, accepted, window);
      }
    }
    run', steps' := GoOn(run, steps, c, DeliverSegment(m), c');
  }

  /**
   * A run of a connection that writes the bytes x and y, of which y arrives first. In the state it reaches, the
   * delivery of SYN once more is excluded; taking that step would write y out as the first byte of the stream.
   */
  lemma RepeatedSynMisplacesByte(capacity: nat, isn: Wrap32, initialRto: nat, x: u8, y: u8)
    returns (run: seq<System>, steps: seq<Step>)
    requires capacity >= 1 && initialRto >= 1
    ensures IsConnection(run, steps)
    ensures var c := run[|steps|];
            && c.sender.input.accepted == [x, y] && BareSyn(isn) in c.segments && ByteSegment(isn, 1, x) in c.segments
            && c.receiver.Valid() && !Enabled(c, DeliverSegment(BareSyn(isn)))
            && c.receiver.Receive(BareSyn(isn)).asm.out.accepted == [y]
  {
    hide Consistent, Receiver.Receive, Receiver.Valid, Receiver.StreamIndex, Wrap, Assembly.Hazard, IsConnection;
    var c, c';
    run, steps, c := Opens(capacity, isn, initialRto);
    run, steps, c := WritesAndSends(run, steps, c, isn, [], 3, x);
    run, steps, c := WritesAndSends(run, steps, c, isn, [x], 2, y);
    SecondByte(c.receiver, y);
    run, steps, c' := SecondArrives(run, steps, c, isn, [x] + [y], 1, y);
    SynAgain(c'.receiver, y);
  }
}
