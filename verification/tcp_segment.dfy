/** TCP segments on the wire (RFC 9293, section 3.1, without options). */
module TcpSegments {
  import opened Machine
  import opened WrappingIntegers
  import opened TcpMessages
  import opened Checksums
  import opened BigEndians
  import opened Parsing

  const TCP_HEADER_LENGTH := 20

  datatype TCPMessage = TCPMessage(sender: SenderMessage, receiver: ReceiverMessage) {

    predicate Reset() {
      sender.RST || receiver.RST
    }

    /** There is one RST flag on the wire: it stands for both. */
    function ResetShared(): TCPMessage {
      TCPMessage(sender.(RST := Reset()), receiver.(RST := Reset()))
    }
  }

  datatype UserDatagramInfo = UserDatagramInfo(srcPort: u16, dstPort: u16, cksum: u16)

  datatype TCPSegment = TCPSegment(message: TCPMessage, udinfo: UserDatagramInfo) {

    function RawAckno(): u32 {
      if message.receiver.ackno.Some? then message.receiver.ackno.value.raw else 0
    }

    function Flags(): u8 {
      (if message.receiver.ackno.Some? then 0x10 else 0) + (if message.Reset() then 4 else 0)
      + (if message.sender.SYN then 2 else 0) + (if message.sender.FIN then 1 else 0)
    }

    /** The fields before the checksum. */
    function EncodeFront(tail: seq<u8>): seq<u8> {
      ToBytes(udinfo.srcPort, 2) + (ToBytes(udinfo.dstPort, 2) + (ToBytes(message.sender.seqno.raw, 4)
      + (ToBytes(RawAckno(), 4) + (ToBytes(0x50, 1) + (ToBytes(Flags(), 1) + (ToBytes(message.receiver.windowSize, 2) + tail))))))
    }

    /** The urgent pointer and the payload. */
    function EncodeBack(): seq<u8> {
      ToBytes(0, 2) + message.sender.payload
    }

    function Encode(): seq<u8> {
      EncodeFront(ToBytes(udinfo.cksum, 2) + EncodeBack())
    }

    function WithCksum(cksum: u16): TCPSegment {
      this.(udinfo := udinfo.(cksum := cksum))
    }

    function ComputeChecksum(pseudo: u32): TCPSegment {
      WithCksum(Check(pseudo, false).Add(WithCksum(0).Encode()).Value())
    }
  }

  // ---- Parsing ----

  function ParseSegmentTop(seg: TCPSegment, r: Reader): (TCPSegment, u8, Reader) {
    var (srcPort, r1) := r.U16(seg.udinfo.srcPort);
    var (dstPort, r2) := r1.U16(seg.udinfo.dstPort);
    var (seqno, r3) := r2.U32(0);
    var (ackno, r4) := r3.U32(seqno);
    var (offset, r5) := r4.U8(0);
    var (flags, r6) := r5.U8(offset);
    var (windowSize, r7) := r6.U16(seg.message.receiver.windowSize);
    var rst := flags / 4 % 2 == 1;
    (TCPSegment(
       TCPMessage(
         seg.message.sender.(seqno := Wrap32(seqno), SYN := flags / 2 % 2 == 1, FIN := flags % 2 == 1, RST := rst),
         ReceiverMessage(if flags / 16 % 2 == 1 then Some(Wrap32(ackno)) else None, windowSize, rst)),
       UserDatagramInfo(srcPort, dstPort, seg.udinfo.cksum)),
     offset / 16, r7)
  }

  /** The checksum, the urgent pointer, options to skip, and the payload. */
  function ParseBack(seg: TCPSegment, dataOffset: nat, r: Reader): (TCPSegment, Reader) {
    var (cksum, r1) := r.U16(seg.udinfo.cksum);
    var (urgent, r2) := r1.U16(0);
    var seg1 := seg.WithCksum(cksum);
    if dataOffset < TCP_HEADER_LENGTH / 4 then (seg1, r2.SetError())
    else
      var r3 := r2.RemovePrefix(4 * dataOffset - TCP_HEADER_LENGTH);
      (seg1.(message := seg1.message.(sender := seg1.message.sender.(payload := r3.rest))), r3)
  }

  /** The checksum over the whole segment and the pseudo-header is verified before anything is read. */
  function ParseSegment(seg: TCPSegment, r: Reader, pseudo: u32): (TCPSegment, Reader) {
    if Check(pseudo, false).Add(r.rest).Value() != 0 then (seg, r.SetError())
    else
      var (seg1, dataOffset, r1) := ParseSegmentTop(seg, r);
      ParseBack(seg1, dataOffset, r1)
  }

  // ---- Round trip ----

  lemma FlagsDecode(seg: TCPSegment)
    ensures (seg.Flags() / 16 % 2 == 1) == seg.message.receiver.ackno.Some?
    ensures (seg.Flags() / 4 % 2 == 1) == seg.message.Reset()
    ensures (seg.Flags() / 2 % 2 == 1) == seg.message.sender.SYN
    ensures (seg.Flags() % 2 == 1) == seg.message.sender.FIN
  {
  }

  lemma FrontRoundTrip(seg: TCPSegment, seg0: TCPSegment, tail: seq<u8>)
    ensures var m := seg.message.ResetShared();
            ParseSegmentTop(seg0, Reader(seg.EncodeFront(tail), false))
            == (TCPSegment(m.(sender := m.sender.(payload := seg0.message.sender.payload)),
                           seg.udinfo.(cksum := seg0.udinfo.cksum)),
                5, Reader(tail, false))
  {
    var t7 := ToBytes(seg.message.receiver.windowSize, 2) + tail;
    var t6 := ToBytes(seg.Flags(), 1) + t7;
    var t5 := ToBytes(0x50, 1) + t6;
    var t4 := ToBytes(seg.RawAckno(), 4) + t5;
    var t3 := ToBytes(seg.message.sender.seqno.raw, 4) + t4;
    var t2 := ToBytes(seg.udinfo.dstPort, 2) + t3;
    FlagsDecode(seg);
    hide ToBytes, Reader.U8, Reader.U16, Reader.U32, TCPSegment.Flags;
    ReadsU16(seg.udinfo.srcPort, t2, seg0.udinfo.srcPort);
    ReadsU16(seg.udinfo.dstPort, t3, seg0.udinfo.dstPort);
    ReadsU32(seg.message.sender.seqno.raw, t4, 0);
    ReadsU32(seg.RawAckno(), t5, seg.message.sender.seqno.raw);
    ReadsU8(0x50, t6, 0);
    ReadsU8(seg.Flags(), t7, 0x50);
    ReadsU16(seg.message.receiver.windowSize, tail, seg0.message.receiver.windowSize);
  }

  lemma BackRoundTrip(seg: TCPSegment, seg0: TCPSegment)
    ensures var seg1 := seg0.WithCksum(seg.udinfo.cksum);
            ParseBack(seg0, 5, Reader(ToBytes(seg.udinfo.cksum, 2) + seg.EncodeBack(), false))
            == (seg1.(message := seg1.message.(sender := seg1.message.sender.(payload := seg.message.sender.payload))),
                Reader(seg.message.sender.payload, false))
  {
    hide ToBytes, Reader.U16;
    ReadsU16(seg.udinfo.cksum, seg.EncodeBack(), seg0.udinfo.cksum);
    ReadsU16(0, seg.message.sender.payload, 0);
  }

  lemma FrontThen(seg: TCPSegment, tail: seq<u8>)
    ensures seg.EncodeFront(tail) == seg.EncodeFront([]) + tail && |seg.EncodeFront([])| == 16
  {
    hide ToBytes, TCPSegment.Flags, TCPSegment.RawAckno;
    assert [] + tail == tail;
  }

  /** The checksum lies between the other fields, at an even offset. */
  lemma EncodeSplits(seg: TCPSegment)
    ensures seg.Encode() == seg.EncodeFront([]) + Field(seg.udinfo.cksum) + seg.EncodeBack()
    ensures |seg.EncodeFront([])| == 16 && |Field(seg.udinfo.cksum)| == 2
  {
    FieldIsToBytes(seg.udinfo.cksum);
    FrontThen(seg, ToBytes(seg.udinfo.cksum, 2) + seg.EncodeBack());
    hide ToBytes, TCPSegment.EncodeFront, TCPSegment.EncodeBack;
  }

  /** With the computed checksum the sum over segment and pseudo-header is complete, for up to 65535 bytes. */
  lemma SegmentChecksumVerifies(seg: TCPSegment, pseudo: u32)
    requires TCP_HEADER_LENGTH + |seg.message.sender.payload| <= 65535 && pseudo <= 8 * 65535
    ensures Check(pseudo, false).Add(seg.ComputeChecksum(pseudo).Encode()).Value() == 0
    ensures |seg.ComputeChecksum(pseudo).Encode()| == TCP_HEADER_LENGTH + |seg.message.sender.payload|
  {
    var front, back := seg.EncodeFront([]), seg.EncodeBack();
    var sent := seg.ComputeChecksum(pseudo);
    EncodeSplits(seg.WithCksum(0));
    EncodeSplits(sent);
    assert sent.EncodeFront([]) == seg.WithCksum(0).EncodeFront([]) == front;
    assert sent.EncodeBack() == seg.WithCksum(0).EncodeBack() == back && |back| == 2 + |seg.message.sender.payload|;
    hide ToBytes, TCPSegment.EncodeFront, TCPSegment.EncodeBack, TCPSegment.Encode, Check.Add, Check.Value, Field;
    ComputedChecksumVerifies(pseudo, front, back);
  }

  /** A segment with the computed checksum is read back as it was written, with the two RST flags made one. */
  lemma SegmentRoundTrip(seg: TCPSegment, seg0: TCPSegment, pseudo: u32)
    requires TCP_HEADER_LENGTH + |seg.message.sender.payload| <= 65535 && pseudo <= 8 * 65535
    ensures var sent := seg.ComputeChecksum(pseudo);
            var (got, r) := ParseSegment(seg0, Reader(sent.Encode(), false), pseudo);
            !r.error && got == TCPSegment(seg.message.ResetShared(), sent.udinfo)
  {
    var sent := seg.ComputeChecksum(pseudo);
    SegmentChecksumVerifies(seg, pseudo);
    FrontRoundTrip(sent, seg0, ToBytes(sent.udinfo.cksum, 2) + sent.EncodeBack());
    hide ToBytes, ParseSegmentTop, TCPSegment.EncodeFront, TCPSegment.EncodeBack, Check.Add, Check.Value;
    BackRoundTrip(sent, ParseSegmentTop(seg0, Reader(sent.Encode(), false)).0);
  }

  // ---- The operations on buffers ----

  method SerializeSegment(seg: TCPSegment, serializer: Serializer)
    requires NoneEmpty(serializer.output)
    modifies serializer
    ensures serializer.Written() == old(serializer.Written()) + seg.Encode() && NoneEmpty(serializer.output)
  {
    hide ToBytes, Concat, NoneEmpty, TCPSegment.RawAckno, TCPSegment.Flags;
    serializer.Integer(seg.udinfo.srcPort, 2);
    serializer.Integer(seg.udinfo.dstPort, 2);
    serializer.Integer(seg.message.sender.seqno.raw, 4);
    serializer.Integer(seg.RawAckno(), 4);
    serializer.Integer(0x50, 1);
    serializer.Integer(seg.Flags(), 1);
    serializer.Integer(seg.message.receiver.windowSize, 2);
    serializer.Integer(seg.udinfo.cksum, 2);
    serializer.Integer(0, 2);
    serializer.Buffer(seg.message.sender.payload);
  }

  method ComputeSegmentChecksum(seg: TCPSegment, pseudo: u32) returns (seg': TCPSegment)
    ensures seg' == seg.ComputeChecksum(pseudo)
  {
    var bare := seg.WithCksum(0);
    var s := new Serializer();
    assert NoneEmpty(s.output);
    SerializeSegment(bare, s);
    assert [] + bare.Encode() == bare.Encode();
    hide TCPSegment.Encode, Concat, NoneEmpty, Check.Add, Check.Value;
    var check := new InternetChecksum(pseudo);
    var bytes := s.Finish();
    check.AddBuffers(bytes);
    var cksum := check.Value();
    seg' := seg.WithCksum(cksum);
  }

  method ParseSegmentFront(seg: TCPSegment, parser: Parser) returns (seg': TCPSegment, dataOffset: u8)
    requires parser.Valid()
    modifies parser, parser.input
    ensures parser.Valid() && (seg', dataOffset, parser.View()) == ParseSegmentTop(seg, old(parser.View()))
  {
    hide Reader.U8, Reader.U16, Reader.U32, Parser.Valid, Buffers.Rest;
    var srcPort := parser.U16(seg.udinfo.srcPort);
    var dstPort := parser.U16(seg.udinfo.dstPort);
    var raw32 := parser.U32(0);
    var seqno := Wrap32(raw32);
    raw32 := parser.U32(raw32);
    var ackno := Some(Wrap32(raw32));
    var octet := parser.U8(0);
    dataOffset := octet / 16;
    octet := parser.U8(octet);
    if octet / 16 % 2 == 0 {
      ackno := None;
    }
    var windowSize := parser.U16(seg.message.receiver.windowSize);
    seg' := TCPSegment(
      TCPMessage(
        seg.message.sender.(seqno := seqno, SYN := octet / 2 % 2 == 1, FIN := octet % 2 == 1, RST := octet / 4 % 2 == 1),
        ReceiverMessage(ackno, windowSize, octet / 4 % 2 == 1)),
      UserDatagramInfo(srcPort, dstPort, seg.udinfo.cksum));
  }

  method ParseSegmentBack(seg: TCPSegment, dataOffset: u8, parser: Parser) returns (seg': TCPSegment)
    requires parser.Valid()
    modifies parser, parser.input
    ensures (seg', parser.View()) == ParseBack(seg, dataOffset, old(parser.View()))
  {
    hide Reader.U16;
    var cksum := parser.U16(seg.udinfo.cksum);
    var urgent := parser.U16(0);
    seg' := seg.WithCksum(cksum);
    if dataOffset < TCP_HEADER_LENGTH / 4 {
      parser.SetError();
      return;
    }
    parser.RemovePrefix(4 * dataOffset - TCP_HEADER_LENGTH);
    var payload := parser.ConcatenateAllRemaining();
    seg' := seg'.(message := seg'.message.(sender := seg'.message.sender.(payload := payload)));
  }

  method ParseSegmentFrom(seg: TCPSegment, parser: Parser, pseudo: u32) returns (seg': TCPSegment)
    requires parser.Valid()
    modifies parser, parser.input
    ensures (seg', parser.View()) == ParseSegment(seg, old(parser.View()), pseudo)
  {
    seg' := seg;
    var check := new InternetChecksum(pseudo);
    var views := parser.Buffer();
    check.AddBuffers(views);
    var value := check.Value();
    if value != 0 {
      parser.SetError();
      return;
    }
    var dataOffset;
    hide ParseSegmentTop, ParseBack, Check.Add, Check.Value;
    seg', dataOffset := ParseSegmentFront(seg, parser);
    seg' := ParseSegmentBack(seg', dataOffset, parser);
  }
}
