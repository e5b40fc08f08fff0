/** One direction of a connection: a sender, a receiver, and a network that drops, repeats and reorders. */
module Connection {
  import opened Machine
  import opened WrappingIntegers
  import opened ByteStreams
  import opened Assembling
  import opened TcpMessages
  import opened TcpSending
  import opened TcpReceiving
  import SenderInvariants
  import SenderRuns
  import ReceiverPromises

  /**
   * Everything ever sent stays in the network and may be delivered any number of times, in any order, or never;
   * so loss, repetition and reordering need no step of their own.
   */
  datatype System = System(sender: Sender, receiver: Receiver, segments: set<SenderMessage>, acks: set<ReceiverMessage>)

  datatype Step =
    | Write(data: seq<u8>)
    | Close
    | Push
    | SendEmpty
    | Tick(ms: nat)
    | DeliverSegment(m: SenderMessage)
    | SendAck
    | DeliverAck(a: ReceiverMessage)
    | Read(len: nat)

  /**
   * What the surroundings must respect: no write after the close, the stream-size bound, only messages that were
   * sent, no acknowledgment before there is one to send, and empty segments (which carry acknowledgments for the
   * other direction) only once SYN is acknowledged. The last exclusion is an empty segment for the start of the
   * stream that arrives while the first byte is still missing and the second is cached, or the stream is known to
   * have one byte only.
   */
  ghost predicate Enabled(c: System, step: Step)
    requires c.receiver.Valid()
  {
    match step
    case Write(data) => !c.sender.input.closed && |c.sender.input.accepted| + |data| + c.receiver.asm.out.capacity <= TWO31
    case DeliverSegment(m) =>
      m in c.segments && !c.receiver.asm.Hazard(c.receiver.StreamIndex(m), m.payload, m.FIN)
    case SendEmpty => c.sender.acked != []
    case SendAck => c.receiver.synSet
    case DeliverAck(a) => a in c.acks
    case _ => true
  }

  function Next(c: System, step: Step): System
    requires c.sender.input.Valid() && c.sender.absSeqno < TWO64 && c.receiver.Valid()
    requires step.DeliverAck? ==> step.a.ackno.Some?
  {
    match step
    case Write(data) => c.(sender := c.sender.(input := c.sender.input.Push(data)))
    case Close => c.(sender := c.sender.(input := c.sender.input.Close()))
    case Push =>
      var (s, sent) := c.sender.Push();
      c.(sender := s, segments := c.segments + set m | m in sent)
    case SendEmpty => c.(segments := c.segments + {c.sender.EmptyMessage()})
    case Tick(ms) =>
      var (s, sent) := c.sender.Tick(ms);
      c.(sender := s, segments := c.segments + set m | m in sent)
    case DeliverSegment(m) => c.(receiver := c.receiver.Receive(m))
    case SendAck => c.(acks := c.acks + {c.receiver.Send()})
    case DeliverAck(a) => c.(sender := c.sender.Receive(a))
    case Read(len) => c.(receiver := c.receiver.Read(len))
  }

  function Start(sendCapacity: nat, receiveCapacity: nat, isn: Wrap32, initialRto: nat): System {
    System(NewSender(sendCapacity, isn, initialRto), NewReceiver(receiveCapacity), {}, {})
  }

  // ---- The invariant ----

  /** The stream-size bound: every index, sent or stored, stays below 2^31. */
  ghost predicate Bounded(s: Sender, r: Receiver) {
    r.asm.out.capacity >= 1 && |s.input.accepted| + r.asm.out.capacity <= TWO31
  }

  /** A segment without SYN, FIN or payload; its number is the next one to send at the time. */
  ghost predicate IsEmptySegment(first: nat, m: SenderMessage, isn: Wrap32) {
    !m.SYN && m.payload == [] && !m.FIN && !m.RST && 1 <= first < TWO32 && m.seqno == Wrap(first, isn)
  }

  /** A segment in the network carries its part of the stream; only SYN travels before SYN is acknowledged. */
  ghost predicate SentBy(s: Sender, m: SenderMessage) {
    var first := m.seqno.Offset(s.isn);
    && (SenderInvariants.Carries(first, m, s.isn, s.input) || IsEmptySegment(first, m, s.isn))
    && first + m.SequenceLength() <= s.absSeqno
    && (m.SYN || s.acked != [])
  }

  /** Everything the reassembler knows, the sender has sent. */
  ghost predicate KnownFrom(a: Assembly, sent: seq<u8>) {
    forall i: nat :: i in a.Known() ==> i < |sent| && a.Known()[i] == sent[i]
  }

  ghost predicate Received(s: Sender, r: Receiver) {
    && ReceiverPromises.Promising(r) && !r.asm.out.error && !r.rst
    && s.input.popped <= |s.input.accepted|
    && KnownFrom(r.asm, s.input.accepted[..s.input.popped])
    && (if r.synSet then s.synSet && r.isn == s.isn else r.asm.end.None? && r.asm.pending == map[])
    && (r.asm.end.Some? ==> s.finSet && r.asm.end.value == |s.input.accepted|)
    && (r.asm.out.closed ==> s.finSet && |r.asm.out.accepted| == |s.input.accepted|)
  }

  /** An acknowledgment in the network names no more than the receiver needs next, and a window it has. */
  ghost predicate AckTrue(isn: Wrap32, r: Receiver, a: ReceiverMessage) {
    && a.ackno.Some? && r.synSet
    && 1 <= a.ackno.value.Offset(isn) <= r.NextNeeded()
    && a.windowSize <= r.asm.out.capacity
  }

  /** The acknowledgments processed said no more than that either. */
  ghost predicate Processed(s: Sender, r: Receiver) {
    && s.lastAck <= r.NextNeeded()
    && (s.acked != [] ==> r.synSet && s.acked[|s.acked| - 1].End() <= r.NextNeeded())
    && s.maxWindow <= r.asm.out.capacity
  }

  ghost predicate Inv(c: System) {
    && SenderRuns.Good(c.sender)
    && Bounded(c.sender, c.receiver)
    && Received(c.sender, c.receiver)
    && Processed(c.sender, c.receiver)
    && (forall m :: m in c.segments ==> SentBy(c.sender, m))
    && (forall a :: a in c.acks ==> AckTrue(c.sender.isn, c.receiver, a))
  }
}
