/** The TCP receiver: turns segments into substrings for the reassembler, and says what it has. */
module TcpReceiving {
  import opened Machine
  import opened WrappingIntegers
  import opened ByteStreams
  import opened Assembling
  import opened AssemblyRuns
  import opened TcpMessages
  import opened Reassembly
  import opened SegmentCaches

  datatype Receiver = Receiver(
    asm: Assembly, isn: Wrap32, synSet: bool, finSet: bool, ackno: Option<Wrap32>, streamSeqno: nat, rst: bool)
  {
    /** The stream-size hypothesis bounds every index the receiver could store by 2^31. */
    ghost predicate Valid() {
      asm.Valid() && streamSeqno == |asm.out.accepted| && asm.out.Limit() <= TWO31
    }

    predicate Rejects(m: SenderMessage) {
      m.RST || asm.out.error
    }

    function IsnAfter(m: SenderMessage): Wrap32 {
      if m.SYN then m.seqno else isn
    }

    /** Where the payload of a segment starts in the stream, given the bytes pushed so far. */
    function StreamIndex(m: SenderMessage): u64
      requires Valid()
    {
      var payloadFirst := if m.SYN then m.seqno.Plus(1) else m.seqno;
      var shifted := if synSet || m.SYN then payloadFirst.Plus(TWO32 - 1) else payloadFirst;
      shifted.Unwrap(IsnAfter(m), streamSeqno)
    }

    /** The stream-size hypothesis for one segment. */
    predicate Fits(m: SenderMessage)
      requires Valid()
    {
      StreamIndex(m) + |m.payload| <= TWO31
    }

    function Receive(m: SenderMessage): Receiver
      requires Valid()
    {
      InsertKeepsWindow(asm, StreamIndex(m), m.payload, m.FIN);
      if Rejects(m) then this.(rst := true, asm := asm.(out := asm.out.(error := true)))
      else
        var syn := synSet || m.SYN;
        var fin := finSet || (m.FIN && syn);
        var asm' := asm.Insert(StreamIndex(m), m.payload, m.FIN);
        var pushed := |asm'.out.accepted|;
        var ack := pushed + (if syn then 1 else 0) + (if asm'.out.closed && fin then 1 else 0);
        Receiver(asm', IsnAfter(m), syn, fin, Some(Wrap(ack, IsnAfter(m))), pushed, rst)
    }

    /** The window is computed in 64 bits and sent in 16. */
    function Send(): ReceiverMessage
      requires asm.out.Valid()
    {
      ReceiverMessage(
        if synSet then ackno else None,
        Min((65535 - |asm.pending|) % TWO64, asm.out.Available()) % TWO16,
        rst || asm.out.error)
    }

    function Read(len: nat): Receiver
      requires asm.out.Valid()
    {
      this.(asm := asm.(out := asm.out.Pop(len)))
    }

    /** The absolute number of the next sequence number needed: SYN, the bytes pushed, and FIN once closed. */
    function NextNeeded(): nat {
      1 + |asm.out.accepted| + (if asm.out.closed then 1 else 0)
    }
  }

  function NewReceiver(capacity: nat): Receiver {
    Receiver(Assembly(Empty(capacity), map[], None), Wrap32(0), false, false, None, 0, false)
  }

  lemma ReceiveKeepsValid(r: Receiver, m: SenderMessage)
    requires r.Valid()
    ensures r.Receive(m).Valid()
  {
    if !r.Rejects(m) {
      InsertKeepsWindow(r.asm, r.StreamIndex(m), m.payload, m.FIN);
    }
  }

  /** The flags are noted, the payload is inserted, and the acknowledgment is renewed. */
  lemma ReceiveInSteps(r: Receiver, m: SenderMessage, r1: Receiver, r2: Receiver, r3: Receiver)
    requires r.Valid() && !r.Rejects(m)
    requires r1 == r.(isn := r.IsnAfter(m), synSet := r.synSet || m.SYN, finSet := r.finSet || (m.FIN && (r.synSet || m.SYN)))
    requires r2 == r1.(asm := r.asm.Insert(r.StreamIndex(m), m.payload, m.FIN))
    requires r2.asm.out.Limit() <= TWO31 && r2.asm.out.Valid()
    requires r3 == r2.(
      streamSeqno := |r2.asm.out.accepted|,
      ackno := Some(Wrap(|r2.asm.out.accepted| + (if r2.synSet then 1 else 0) + (if r2.asm.out.closed && r2.finSet then 1 else 0), r2.isn)))
    ensures r3 == r.Receive(m)
  {
    hide Assembly.Insert, Assembly.Valid, Receiver.StreamIndex, Receiver.IsnAfter, Wrap;
  }

  class TCPReceiver {
    const reassembler: Reassembler
    var initialSeqno: Wrap32
    var synSet: bool
    var finSet: bool
    var ackno: Option<Wrap32>
    var streamSeqno: nat
    var rst: bool

    ghost predicate Valid()
      reads this, reassembler, reassembler.output
    {
      reassembler.Valid() && View().Valid()
    }

    ghost function View(): Receiver
      reads this, reassembler, reassembler.output
      requires reassembler.Valid()
    {
      Receiver(reassembler.View(), initialSeqno, synSet, finSet, ackno, streamSeqno, rst)
    }

    constructor (reassembler: Reassembler)
      requires reassembler.Valid() && reassembler.cache == map[] && !reassembler.finish
      requires reassembler.output.View().accepted == [] && reassembler.output.capacity <= TWO31
      ensures Valid() && this.reassembler == reassembler
      ensures View() == Receiver(reassembler.View(), Wrap32(0), false, false, None, 0, false)
    {
      this.reassembler := reassembler;
      initialSeqno := Wrap32(0);
      synSet, finSet := false, false;
      ackno, streamSeqno, rst := None, 0, false;
    }

    /** The end of `receive`: the bytes pushed and the flags give the next acknowledgment number. */
    method UpdateAckno()
      requires reassembler.Valid() && reassembler.output.View().Limit() <= TWO31
      modifies this
      ensures reassembler.Valid()
      ensures View() == old(View()).(
        streamSeqno := |old(View()).asm.out.accepted|,
        ackno := Some(Wrap(|old(View()).asm.out.accepted| + (if synSet then 1 else 0)
                           + (if old(View()).asm.out.closed && finSet then 1 else 0), initialSeqno)))
    {
      hide Flatten, WellFormed, Solid, Wrap;
      streamSeqno := reassembler.output.BytesPushed();
      var syn, fin := if synSet then 1 else 0, if finSet then 1 else 0;
      if reassembler.output.closed {
        ackno := Some(Wrap(streamSeqno + syn + fin, initialSeqno));
      } else {
        ackno := Some(Wrap(streamSeqno + syn, initialSeqno));
      }
    }

    /** The flags, and where the payload starts in the stream. */
    method NoteFlags(message: SenderMessage) returns (streamFirstSeqno: u64)
      requires Valid()
      modifies this`initialSeqno, this`synSet, this`finSet
      ensures reassembler.Valid() && streamFirstSeqno == old(View()).StreamIndex(message)
      ensures View() == old(View()).(
        isn := old(View()).IsnAfter(message), synSet := old(synSet) || message.SYN,
        finSet := old(finSet) || (message.FIN && (old(synSet) || message.SYN)))
    {
      hide Wrap32.Unwrap, Wrap32.Plus, Flatten, WellFormed, Solid;
      var payloadFirstSeqno := message.seqno;
      if message.SYN {
        initialSeqno := payloadFirstSeqno;
        payloadFirstSeqno := payloadFirstSeqno.Plus(1);
        synSet := true;
      }
      if message.FIN && synSet {
        finSet := true;
      }
      var shifted := if synSet then payloadFirstSeqno.Plus(TWO32 - 1) else payloadFirstSeqno;
      streamFirstSeqno := shifted.UnwrapBySearch(initialSeqno, streamSeqno);
    }

    /** The payload goes to the reassembler. */
    method InsertPayload(message: SenderMessage, streamFirstSeqno: u64)
      requires reassembler.Valid() && reassembler.output.View().Limit() <= TWO31
      requires streamFirstSeqno + |message.payload| <= TWO31
      modifies reassembler, reassembler.output
      ensures reassembler.Valid() && reassembler.output.View().Limit() <= TWO31
      ensures View() == old(View()).(asm := old(View()).asm.Insert(streamFirstSeqno, message.payload, message.FIN))
    {
      InsertKeepsWindow(reassembler.View(), streamFirstSeqno, message.payload, message.FIN);
      hide Assembly.Insert, Assembly.Valid, Flatten, WellFormed, Solid;
      reassembler.Insert(streamFirstSeqno, message.payload, message.FIN);
    }

    /** `receive`, after the error check. */
    method Absorb(message: SenderMessage)
      requires Valid() && View().Fits(message) && !View().Rejects(message)
      modifies this, reassembler, reassembler.output
      ensures Valid()
      ensures View() == old(View()).Receive(message)
    {
      hide Assembly.Insert, Assembly.Valid, Flatten, WellFormed, Solid, Wrap, Receiver.StreamIndex, Receiver.IsnAfter, Receiver.Receive;
      ghost var r := View();
      ReceiveKeepsValid(r, message);
      var streamFirstSeqno := NoteFlags(message);
      ghost var r1 := View();
      InsertPayload(message, streamFirstSeqno);
      ghost var r2 := View();
      UpdateAckno();
      ReceiveInSteps(r, message, r1, r2, View());
    }

    method Receive(message: SenderMessage)
      requires Valid() && View().Fits(message)
      modifies this, reassembler, reassembler.output
      ensures Valid()
      ensures View() == old(View()).Receive(message)
    {
      if message.RST || reassembler.output.error {
        rst := true;
        reassembler.output.SetError();
        return;
      }
      Absorb(message);
    }

    method Send() returns (message: ReceiverMessage)
      requires Valid()
      ensures message == View().Send()
    {
      var pending := reassembler.CountBytesPending();
      var window := Min((65535 - pending) % TWO64, reassembler.output.AvailableCapacity()) % TWO16;
      message := ReceiverMessage(if synSet then ackno else None, window, rst || reassembler.output.error);
    }
  }
}
