/** The TCP sender: cuts its input stream into segments, keeps them until acknowledged, and retransmits the oldest. */
module TcpSending {
  import opened Machine
  import opened WrappingIntegers
  import opened ByteStreams
  import opened TcpMessages

  const MAX_PAYLOAD_SIZE := 1000

  /** A segment on its way, with the absolute number of its first sequence number. */
  datatype Outstanding = Outstanding(first: nat, message: SenderMessage) {
    function End(): nat {
      first + message.SequenceLength()
    }
  }

  /** How many of the oldest outstanding segments lie wholly below the acknowledgment. */
  function AckedCount(buffer: seq<Outstanding>, ack: nat): (n: nat)
    ensures n <= |buffer|
    ensures forall i :: 0 <= i < n ==> buffer[i].End() <= ack
    ensures n < |buffer| ==> ack < buffer[n].End()
  {
    if buffer == [] || ack < buffer[0].End() then 0 else 1 + AckedCount(buffer[1..], ack)
  }

  /** The windows after the given segments are acknowledged: the ack of SYN sets them, any other gives room back. */
  function Reopen(gone: seq<Outstanding>, window: u16, maxWindow: u16, advertised: u16): (u16, u16) {
    if gone == [] then (window, maxWindow)
    else
      var (w, m) := Reopen(gone[..|gone| - 1], window, maxWindow, advertised);
      var last := gone[|gone| - 1].message;
      if last.SYN then (Max(1, advertised), Max(1, advertised)) else ((w + last.SequenceLength()) % TWO16, m)
  }

  /**
   * The state of a sender. The last two fields are history: the segments acknowledged so far, and how often the
   * timeout was doubled since it was last set to its initial value.
   */
  datatype Sender = Sender(
    input: Stream, isn: Wrap32, initialRto: nat,
    buffer: seq<Outstanding>, absSeqno: nat, seqno: Wrap32, window: u16, maxWindow: u16,
    retransmissions: nat, rto: nat, timer: nat, lastAck: nat, receiverFull: bool, synSet: bool, finSet: bool,
    acked: seq<Outstanding>, backoffs: nat)
  {
    function EmptyMessage(): SenderMessage {
      SenderMessage(if synSet then seqno else isn, false, [], false, input.error)
    }

    // ---- push ----

    /** Whether the sending loop goes round once more. */
    predicate CanSend(permitted: u16)
      requires input.Valid()
    {
      || (permitted > 0 && input.Buffered() != [])
      || (permitted > 0 && input.closed && !finSet)
      || !synSet
    }

    /** The bytes the next segment takes. (The first operand is computed as an int and converted to uint64.) */
    function PayloadSize(permitted: u16): nat
      requires input.Valid()
    {
      Min(Min((permitted - if synSet then 0 else 1) % TWO64, |input.Buffered()|), MAX_PAYLOAD_SIZE)
    }

    function NextSegment(permitted: u16): SenderMessage
      requires input.Valid()
    {
      var size := PayloadSize(permitted);
      var syn := if synSet then 0 else 1;
      SenderMessage(
        EmptyMessage().seqno, !synSet, input.Buffered()[..size],
        permitted > syn + size && input.closed && !finSet && size == |input.Buffered()|,
        input.error)
    }

    function SendOne(permitted: u16): (s: Sender)
      requires input.Valid()
      ensures s.input.Valid()
    {
      var m := NextSegment(permitted);
      var length := m.SequenceLength();
      this.(
        input := input.Pop(|m.payload|),
        synSet := true,
        finSet := finSet || m.FIN,
        rto := if synSet then rto else initialRto,
        backoffs := if synSet then backoffs else 0,
        seqno := EmptyMessage().seqno.Plus(length),
        absSeqno := absSeqno + length,
        window := (window - length) % TWO16,
        buffer := buffer + [Outstanding(absSeqno, m)])
    }

    /** What can still be sent: bytes, SYN and FIN. */
    function Unsent(): nat
      requires input.Valid()
    {
      |input.Buffered()| + (if synSet then 0 else 1) + (if finSet then 0 else 1)
    }

    function PushFrom(permitted: u16): (r: (Sender, seq<SenderMessage>))
      requires input.Valid()
      ensures r.0.input.Valid()
      decreases Unsent()
    {
      if !CanSend(permitted) then (this, [])
      else
        var m := NextSegment(permitted);
        var (s, sent) := SendOne(permitted).PushFrom((permitted - m.SequenceLength()) % TWO16);
        (s, [m] + sent)
    }

    /** After a zero window was advertised only one sequence number may go out at a time. */
    function Permitted(): u16 {
      if receiverFull && window > 0 then 1 else window
    }

    function Push(): (Sender, seq<SenderMessage>)
      requires input.Valid()
    {
      PushFrom(Permitted())
    }

    // ---- receive ----

    function AbsoluteAck(msg: ReceiverMessage): u64
      requires msg.ackno.Some? && absSeqno < TWO64
    {
      msg.ackno.value.Unwrap(isn, absSeqno)
    }

    /** An acknowledgment beyond the newest outstanding segment is ignored. */
    predicate IgnoresAck(ack: nat) {
      buffer != [] && buffer[|buffer| - 1].End() < ack
    }

    /** Take out the segments wholly below the acknowledgment, and reopen the window for them. */
    function Erase(ack: nat, advertised: u16): Sender {
      var n := AckedCount(buffer, ack);
      var (w, m) := Reopen(buffer[..n], window, maxWindow, advertised);
      this.(buffer := buffer[n..], acked := acked + buffer[..n], window := w, maxWindow := m)
    }

    /** An advertised window larger than any before makes room for the difference. */
    function Widen(advertised: u16): Sender {
      this.(receiverFull := advertised == 0,
            window := if advertised > maxWindow then (window + (advertised - maxWindow)) % TWO16 else window,
            maxWindow := if advertised > maxWindow then advertised else maxWindow)
    }

    /** A new acknowledgment restarts the timer with the initial timeout. */
    function Restart(ack: nat): Sender {
      if lastAck < ack then this.(timer := 0, lastAck := ack, retransmissions := 0, rto := initialRto, backoffs := 0)
      else this
    }

    function Receive(msg: ReceiverMessage): Sender
      requires msg.ackno.Some? && absSeqno < TWO64
    {
      var ack := AbsoluteAck(msg);
      if IgnoresAck(ack) then this else Erase(ack, msg.windowSize).Widen(msg.windowSize).Restart(ack)
    }

    // ---- tick ----

    function Tick(ms: nat): (Sender, seq<SenderMessage>) {
      if buffer == [] then (this.(timer := 0), [])
      else if timer + ms < rto then (this.(timer := timer + ms), [])
      else
        var backOff := !receiverFull || buffer[0].message.SYN;
        (this.(
           timer := 0, retransmissions := retransmissions + 1,
           rto := if backOff then 2 * rto else rto,
           backoffs := if backOff then backoffs + 1 else backoffs),
         [buffer[0].message])
    }
  }

  function NewSender(capacity: nat, isn: Wrap32, initialRto: nat): Sender {
    Sender(Empty(capacity), isn, initialRto, [], 0, Wrap32(0), 1, 1, 0, 0, 0, 0, true, false, false, [], 0)
  }

  function InFlight(buffer: seq<Outstanding>): nat {
    if buffer == [] then 0 else InFlight(buffer[..|buffer| - 1]) + buffer[|buffer| - 1].message.SequenceLength()
  }

  /** FIN goes with the last bytes if there is room for it. */
  lemma NextSegmentIs(s: Sender, permitted: u16, m: SenderMessage)
    requires s.input.Valid()
    requires m == SenderMessage(
                    s.EmptyMessage().seqno, !s.synSet, s.input.Buffered()[..s.PayloadSize(permitted)], false, s.EmptyMessage().RST)
    ensures |m.payload| == s.PayloadSize(permitted)
    ensures s.NextSegment(permitted)
            == m.(FIN := permitted > m.SequenceLength() && s.input.closed && !s.finSet && |m.payload| == |s.input.Buffered()|)
  {
  }

  lemma AckedCountIs(buffer: seq<Outstanding>, ack: nat, n: nat)
    requires n <= |buffer| && forall i :: 0 <= i < n ==> buffer[i].End() <= ack
    requires n < |buffer| ==> ack < buffer[n].End()
    ensures AckedCount(buffer, ack) == n
  {
  }

  /** In the sending loop: `sent` are the first segments of the goal, and the rest is what the state still sends. */
  ghost predicate StillToSend(goal: (Sender, seq<SenderMessage>), sent: seq<SenderMessage>, s: Sender, permitted: u16) {
    && s.input.Valid()
    && goal == (s.PushFrom(permitted).0, sent + s.PushFrom(permitted).1)
  }

  lemma LessUnsent(s: Sender, permitted: u16)
    requires s.input.Valid() && s.CanSend(permitted)
    ensures s.SendOne(permitted).Unsent() < s.Unsent()
  {
    hide SenderMessage.SequenceLength;
  }

  lemma SendingGoesOn(goal: (Sender, seq<SenderMessage>), sent: seq<SenderMessage>, s: Sender, permitted: u16)
    requires StillToSend(goal, sent, s, permitted) && s.CanSend(permitted)
    ensures var m := s.NextSegment(permitted);
            StillToSend(goal, sent + [m], s.SendOne(permitted), (permitted - m.SequenceLength()) % TWO16)
    ensures s.SendOne(permitted).Unsent() < s.Unsent()
  {
    LessUnsent(s, permitted);
    hide Sender.NextSegment, Sender.SendOne, SenderMessage.SequenceLength, Sender.CanSend, Sender.Unsent;
    var m := s.NextSegment(permitted);
    var rest := s.SendOne(permitted).PushFrom((permitted - m.SequenceLength()) % TWO16).1;
    assert sent + ([m] + rest) == (sent + [m]) + rest;
  }

  lemma SendingEnds(goal: (Sender, seq<SenderMessage>), sent: seq<SenderMessage>, s: Sender, permitted: u16)
    requires StillToSend(goal, sent, s, permitted) && !s.CanSend(permitted)
    ensures goal == (s, sent)
  {
    assert sent + [] == sent;
  }

  lemma SendingStarts(s: Sender, permitted: u16)
    requires s.input.Valid()
    ensures StillToSend(s.PushFrom(permitted), [], s, permitted)
  {
    assert [] + s.PushFrom(permitted).1 == s.PushFrom(permitted).1;
  }

  class TCPSender {
    const input: ByteStream
    const isn: Wrap32
    const initialRto: nat
    var sendBuffer: seq<Outstanding>
    var absSeqno: nat
    var seqno: Wrap32
    var receiveWindow: u16
    var maxReceiveWindow: u16
    var numConsecutiveRetran: nat
    var currentRto: nat
    var timer: nat
    var preAbsAckno: nat
    var receiverFull: bool
    var synSet: bool
    var finSet: bool

    ghost var acked: seq<Outstanding>  // the segments acknowledged so far
    ghost var backoffs: nat            // doublings of the timeout since it was last reset

    ghost predicate Valid()
      reads this, input
    {
      input.Valid()
    }

    ghost function View(): (s: Sender)
      reads this, input
      requires Valid()
      ensures s.input.Valid()
    {
      Sender(input.View(), isn, initialRto, sendBuffer, absSeqno, seqno, receiveWindow, maxReceiveWindow,
             numConsecutiveRetran, currentRto, timer, preAbsAckno, receiverFull, synSet, finSet, acked, backoffs)
    }

    constructor (input: ByteStream, isn: Wrap32, initialRto: nat)
      requires input.Valid()
      ensures Valid() && this.input == input
      ensures View() == NewSender(input.capacity, isn, initialRto).(input := input.View())
    {
      this.input, this.isn, this.initialRto := input, isn, initialRto;
      sendBuffer, absSeqno, seqno := [], 0, Wrap32(0);
      receiveWindow, maxReceiveWindow := 1, 1;
      numConsecutiveRetran, currentRto, timer, preAbsAckno := 0, 0, 0, 0;
      receiverFull, synSet, finSet := true, false, false;
      acked, backoffs := [], 0;
    }

    method SequenceNumbersInFlight() returns (numPending: nat)
      requires Valid()
      ensures numPending == InFlight(View().buffer)
    {
      numPending := 0;
      var x := 0;
      while x < |sendBuffer|
        invariant x <= |sendBuffer|
        invariant numPending == InFlight(sendBuffer[..x])
      {
        assert sendBuffer[..x + 1][..x] == sendBuffer[..x];
        numPending := numPending + sendBuffer[x].message.SequenceLength();
        x := x + 1;
      }
      assert sendBuffer[..x] == sendBuffer;
    }

    method MakeEmptyMessage() returns (message: SenderMessage)
      requires Valid()
      ensures message == View().EmptyMessage()
    {
      message := SenderMessage(if synSet then seqno else isn, false, [], false, false);
      if input.error {
        message := message.(RST := true);
      }
    }

    /** The first segment carries SYN and sets the timeout. */
    method TakeSyn(empty: SenderMessage) returns (message: SenderMessage)
      requires Valid()
      modifies this`synSet, this`currentRto, this`backoffs, this`seqno
      ensures Valid() && message == (if old(synSet) then empty else empty.(SYN := true))
      ensures View() == old(View()).(
        synSet := true,
        rto := if old(synSet) then old(currentRto) else initialRto,
        backoffs := if old(synSet) then old(backoffs) else 0,
        seqno := old(View()).EmptyMessage().seqno)
    {
      message := empty;
      if !synSet {
        synSet := true;
        message := message.(SYN := true);
        currentRto := initialRto;
        backoffs := 0;
        seqno := isn;
      }
    }

    method TakePayload(bare: SenderMessage, streamBytes: seq<u8>, availablePayloadSize: nat) returns (message: SenderMessage)
      requires Valid() && bare.payload == [] && availablePayloadSize <= |streamBytes|
      modifies input
      ensures Valid() && message == bare.(payload := streamBytes[..availablePayloadSize])
      ensures input.View() == old(input.View()).Pop(availablePayloadSize)
    {
      message := bare;
      if availablePayloadSize > 0 {
        message := message.(payload := streamBytes[..availablePayloadSize]);
        input.Pop(availablePayloadSize);
      }
    }

    /** One round of the sending loop up to the point where the segment is ready. */
    method FillSegment(empty: SenderMessage, streamBytes: seq<u8>, tempReceiveWindow: u16) returns (message: SenderMessage)
      requires Valid() && empty == View().EmptyMessage() && streamBytes == View().input.Buffered()
      modifies this, input
      ensures Valid() && message == old(View()).NextSegment(tempReceiveWindow)
      ensures View() == old(View()).(
        input := old(View()).input.Pop(|message.payload|),
        synSet := true,
        finSet := old(finSet) || message.FIN,
        rto := if old(synSet) then old(currentRto) else initialRto,
        backoffs := if old(synSet) then old(backoffs) else 0,
        seqno := old(View()).EmptyMessage().seqno)
    {
      hide Sender.NextSegment, SenderMessage.SequenceLength;
      ghost var s, size := View(), View().PayloadSize(tempReceiveWindow);
      message := TakeSyn(empty);
      var syn := if message.SYN then 1 else 0;
      var availablePayloadSize := Min(Min((tempReceiveWindow - syn) % TWO64, |streamBytes|), MAX_PAYLOAD_SIZE);
      message := TakePayload(message, streamBytes, availablePayloadSize);
      NextSegmentIs(s, tempReceiveWindow, message);
      if tempReceiveWindow > message.SequenceLength() && input.closed && !finSet && input.IsFinished() {
        message := message.(FIN := true);
        finSet := true;
      }
    }

    /** A segment was transmitted: it takes room in the window and sequence numbers, and stays outstanding. */
    method Record(message: SenderMessage, messageLength: u32)
      requires Valid() && messageLength == message.SequenceLength()
      modifies this`receiveWindow, this`sendBuffer, this`seqno, this`absSeqno
      ensures Valid()
      ensures View() == old(View()).(
        window := (old(receiveWindow) - messageLength) % TWO16,
        buffer := old(sendBuffer) + [Outstanding(old(absSeqno), message)],
        seqno := old(seqno).Plus(messageLength),
        absSeqno := old(absSeqno) + messageLength)
    {
      hide SenderMessage.SequenceLength, Wrap32.Plus;
      receiveWindow := (receiveWindow - messageLength) % TWO16;
      sendBuffer := sendBuffer + [Outstanding(absSeqno, message)];
      seqno := seqno.Plus(messageLength);
      absSeqno := absSeqno + messageLength;
    }

    /** One round of the sending loop. */
    method SendSegment(empty: SenderMessage, streamBytes: seq<u8>, tempReceiveWindow: u16) returns (message: SenderMessage)
      requires Valid() && empty == View().EmptyMessage() && streamBytes == View().input.Buffered()
      requires View().CanSend(tempReceiveWindow)
      modifies this, input
      ensures Valid() && message == old(View()).NextSegment(tempReceiveWindow)
      ensures View() == old(View()).SendOne(tempReceiveWindow)
    {
      message := FillSegment(empty, streamBytes, tempReceiveWindow);
      var messageLength := message.SequenceLength();
      assert 0 < messageLength < TWO16;
      hide Sender.NextSegment, SenderMessage.SequenceLength, Sender.CanSend, Sender.EmptyMessage, Wrap32.Plus;
      if messageLength > 0 {
        Record(message, messageLength);
      }
    }

    /** The sending loop's invariant: what it works with is current, and `goal` is what it will have sent. */
    ghost predicate AtRound(goal: (Sender, seq<SenderMessage>), sent: seq<SenderMessage>,
                            empty: SenderMessage, streamBytes: seq<u8>, left: u16)
      reads this, input
    {
      Valid() && empty == View().EmptyMessage() && streamBytes == View().input.Buffered() && StillToSend(goal, sent, View(), left)
    }

    ghost function Unsent(): nat
      reads this, input
    {
      if Valid() then View().Unsent() else 0
    }

    method StartRounds() returns (empty: SenderMessage, streamBytes: seq<u8>, left: u16)
      requires Valid()
      ensures AtRound(View().Push(), [], empty, streamBytes, left)
    {
      hide StillToSend, Sender.PushFrom;
      empty := MakeEmptyMessage();
      streamBytes := input.Peek();
      left := if receiverFull && receiveWindow > 0 then 1 else receiveWindow;
      SendingStarts(View(), left);
    }

    /** One round, and what the next one starts from. */
    method SendRound(empty: SenderMessage, streamBytes: seq<u8>, tempReceiveWindow: u16,
                     ghost goal: (Sender, seq<SenderMessage>), ghost sent: seq<SenderMessage>)
      returns (message: SenderMessage, empty': SenderMessage, streamBytes': seq<u8>, left: u16)
      requires AtRound(goal, sent, empty, streamBytes, tempReceiveWindow) && View().CanSend(tempReceiveWindow)
      modifies this, input
      ensures AtRound(goal, sent + [message], empty', streamBytes', left)
      ensures Unsent() < old(Unsent())
    {
      SendingGoesOn(goal, sent, View(), tempReceiveWindow);
      hide StillToSend, Sender.NextSegment, Sender.SendOne, SenderMessage.SequenceLength, Sender.CanSend, Sender.EmptyMessage;
      message := SendSegment(empty, streamBytes, tempReceiveWindow);
      left := (tempReceiveWindow - message.SequenceLength()) % TWO16;
      streamBytes' := input.Peek();
      empty' := MakeEmptyMessage();
    }

    /** Send what the window allows; `sent` are the segments in the order they are transmitted. */
    method Push() returns (sent: seq<SenderMessage>)
      requires Valid()
      modifies this, input
      ensures Valid() && (View(), sent) == old(View()).Push()
    {
      ghost var goal := View().Push();
      hide StillToSend, Sender.Push, Sender.EmptyMessage;
      sent := [];
      var message, streamBytes, left := StartRounds();
      while (left > 0 && streamBytes != []) || (left > 0 && input.closed && !finSet) || !synSet
        invariant AtRound(goal, sent, message, streamBytes, left)
        decreases Unsent()
      {
        var segment;
        segment, message, streamBytes, left := SendRound(message, streamBytes, left, goal, sent);
        sent := sent + [segment];
      }
      SendingEnds(goal, sent, View(), left);
    }

    /** The counting loop: reopen the window for every segment wholly below the acknowledgment. */
    method CountAcked(absAckno: nat, windowSize: u16) returns (eraseCount: nat)
      requires Valid()
      modifies this`receiveWindow, this`maxReceiveWindow
      ensures eraseCount == AckedCount(sendBuffer, absAckno)
      ensures (receiveWindow, maxReceiveWindow)
              == Reopen(sendBuffer[..eraseCount], old(receiveWindow), old(maxReceiveWindow), windowSize)
    {
      eraseCount := 0;
      while eraseCount < |sendBuffer|
        invariant eraseCount <= |sendBuffer|
        invariant forall i :: 0 <= i < eraseCount ==> sendBuffer[i].End() <= absAckno
        invariant (receiveWindow, maxReceiveWindow)
                  == Reopen(sendBuffer[..eraseCount], old(receiveWindow), old(maxReceiveWindow), windowSize)
      {
        var x := sendBuffer[eraseCount];
        if x.End() > absAckno {
          break;
        }
        assert sendBuffer[..eraseCount + 1][..eraseCount] == sendBuffer[..eraseCount];
        if x.message.SYN {
          receiveWindow := Max(1, windowSize);
          maxReceiveWindow := receiveWindow;
        } else {
          receiveWindow := (receiveWindow + x.message.SequenceLength()) % TWO16;
        }
        eraseCount := eraseCount + 1;
      }
      AckedCountIs(sendBuffer, absAckno, eraseCount);
    }

    method EraseAcked(absAckno: nat, windowSize: u16)
      requires Valid()
      modifies this`receiveWindow, this`maxReceiveWindow, this`sendBuffer, this`acked
      ensures Valid() && View() == old(View()).Erase(absAckno, windowSize)
    {
      hide AckedCount, Reopen;
      var eraseCount := CountAcked(absAckno, windowSize);
      acked := acked + sendBuffer[..eraseCount];
      sendBuffer := sendBuffer[eraseCount..];
    }

    method WidenWindow(windowSize: u16)
      requires Valid()
      modifies this`receiverFull, this`receiveWindow, this`maxReceiveWindow
      ensures Valid() && View() == old(View()).Widen(windowSize)
    {
      receiverFull := windowSize == 0;
      if windowSize > maxReceiveWindow {
        receiveWindow := (receiveWindow + (windowSize - maxReceiveWindow)) % TWO16;
        maxReceiveWindow := windowSize;
      }
    }

    method RestartTimer(absAckno: nat)
      requires Valid()
      modifies this
      ensures Valid() && View() == old(View()).Restart(absAckno)
    {
      if preAbsAckno < absAckno {
        timer := 0;
        preAbsAckno := absAckno;
        numConsecutiveRetran := 0;
        currentRto := initialRto;
        backoffs := 0;
      }
    }

    /** Only acknowledgments that carry a number: the source reads the number before it asks whether there is one. */
    method Receive(msg: ReceiverMessage)
      requires Valid() && msg.ackno.Some? && absSeqno < TWO64
      modifies this
      ensures Valid() && View() == old(View()).Receive(msg)
    {
      var absAckno := msg.ackno.value.UnwrapBySearch(isn, absSeqno);
      if sendBuffer != [] && sendBuffer[|sendBuffer| - 1].End() < absAckno {
        return;
      }
      hide Sender.Erase, Sender.Widen, Sender.Restart, Outstanding.End, Wrap32.Unwrap;
      EraseAcked(absAckno, msg.windowSize);
      WidenWindow(msg.windowSize);
      RestartTimer(absAckno);
    }

    method Tick(msSinceLastTick: nat) returns (sent: seq<SenderMessage>)
      requires Valid()
      modifies this
      ensures Valid() && (View(), sent) == old(View()).Tick(msSinceLastTick)
    {
      sent := [];
      timer := timer + msSinceLastTick;
      if sendBuffer == [] {
        timer := 0;
        return;
      }
      if timer >= currentRto {
        sent := [sendBuffer[0].message];
        numConsecutiveRetran := numConsecutiveRetran + 1;
        if !receiverFull || sendBuffer[0].message.SYN {
          currentRto := currentRto * 2;
          backoffs := backoffs + 1;
        }
        timer := 0;
      }
    }
  }
}
