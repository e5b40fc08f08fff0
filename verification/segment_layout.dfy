/** TCP segments byte by byte: what is written where, and exactly which bytes are accepted as which segment. */
module SegmentLayouts {
  import opened Machine
  import opened WrappingIntegers
  import opened TcpMessages
  import opened Checksums
  import opened BigEndians
  import opened Parsing
  import opened WireFields
  import opened TcpSegments

  /** The segment of section 3.1 of RFC 9293: ports, numbers, 5 words of header, flags, window, checksum, no urgent data. */
  function SegmentBytes(seg: TCPSegment): seq<u8> {
    var m := seg.message;
    var flags := (if m.receiver.ackno.Some? then 16 else 0) + (if m.sender.RST || m.receiver.RST then 4 else 0)
      + (if m.sender.SYN then 2 else 0) + (if m.sender.FIN then 1 else 0);
    var ackno := if m.receiver.ackno.Some? then m.receiver.ackno.value.raw else 0;
    Short(seg.udinfo.srcPort) + (Short(seg.udinfo.dstPort) + (Word(m.sender.seqno.raw) + (Word(ackno)
    + ([0x50] + ([flags] + (Short(m.receiver.windowSize) + (Short(seg.udinfo.cksum) + (Short(0) + m.sender.payload))))))))
  }

  lemma SegmentLayout(seg: TCPSegment)
    ensures seg.Encode() == SegmentBytes(seg)
  {
    ShortIs(seg.udinfo.srcPort);
    ShortIs(seg.udinfo.dstPort);
    WordIs(seg.message.sender.seqno.raw);
    WordIs(seg.RawAckno());
    ByteIs(0x50);
    ByteIs(seg.Flags());
    ShortIs(seg.message.receiver.windowSize);
    ShortIs(seg.udinfo.cksum);
    ShortIs(0);
    hide ToBytes;
  }

  /** Which bytes are a segment, given what the pseudo-header contributes. */
  predicate IsSegment(bytes: seq<u8>, pseudo: u32) {
    var sum := (pseudo + WordSum(bytes)) % TWO32;
    sum > 0 && sum % 65535 == 0 && |bytes| >= 20 && bytes[12] / 16 >= 5
  }

  /** The segment that some bytes are, with the payload after the options. */
  function SegmentIn(bytes: seq<u8>): TCPSegment
    requires |bytes| >= 20
  {
    var flags := bytes[13];
    var rst := flags / 4 % 2 == 1;
    TCPSegment(
      TCPMessage(
        SenderMessage(Wrap32(WordAt(bytes, 4)), flags / 2 % 2 == 1, bytes[Min(4 * (bytes[12] / 16), |bytes|)..],
                      flags % 2 == 1, rst),
        ReceiverMessage(if flags / 16 % 2 == 1 then Some(Wrap32(WordAt(bytes, 8))) else None, ShortAt(bytes, 14), rst)),
      UserDatagramInfo(ShortAt(bytes, 0), ShortAt(bytes, 2), ShortAt(bytes, 16)))
  }

  lemma TopConsumes(seg: TCPSegment, r: Reader)
    ensures var r' := ParseSegmentTop(seg, r).2;
            (!r'.error ==> !r.error && |r.rest| >= 16) && |r'.rest| == if r'.error then |r'.rest| else |r.rest| - 16
  {
    var r1 := r.U16(seg.udinfo.srcPort).1;
    var r2 := r1.U16(seg.udinfo.dstPort).1;
    var (seqno, r3) := r2.U32(0);
    var r4 := r3.U32(seqno).1;
    var (offset, r5) := r4.U8(0);
    var r6 := r5.U8(offset).1;
    ReadingConsumes(r, 2, seg.udinfo.srcPort);
    ReadingConsumes(r1, 2, seg.udinfo.dstPort);
    ReadingConsumes(r2, 4, 0);
    ReadingConsumes(r3, 4, seqno);
    ReadingConsumes(r4, 1, 0);
    ReadingConsumes(r5, 1, offset);
    ReadingConsumes(r6, 2, seg.message.receiver.windowSize);
    hide Reader.Integer;
  }

  lemma BackConsumes(seg: TCPSegment, dataOffset: nat, r: Reader)
    ensures !ParseBack(seg, dataOffset, r).1.error <==> !r.error && |r.rest| >= 4 && dataOffset >= 5
  {
    var r1 := r.U16(seg.udinfo.cksum).1;
    ReadingConsumes(r, 2, seg.udinfo.cksum);
    ReadingConsumes(r1, 2, 0);
    hide Reader.Integer;
  }

  lemma TopReads(seg: TCPSegment, bytes: seq<u8>)
    requires |bytes| >= 20
    ensures var m := SegmentIn(bytes).message;
            ParseSegmentTop(seg, Reader(bytes, false)) ==
            (TCPSegment(m.(sender := m.sender.(payload := seg.message.sender.payload)),
                        SegmentIn(bytes).udinfo.(cksum := seg.udinfo.cksum)),
             bytes[12] / 16, At(bytes, 16))
  {
    assert bytes[0..] == bytes;
    ReadsShort(bytes, 0, seg.udinfo.srcPort);
    ReadsShort(bytes, 2, seg.udinfo.dstPort);
    ReadsWord(bytes, 4, 0);
    ReadsWord(bytes, 8, WordAt(bytes, 4));
    ReadsByte(bytes, 12, 0);
    ReadsByte(bytes, 13, bytes[12]);
    ReadsShort(bytes, 14, seg.message.receiver.windowSize);
    hide Reader.Integer, Reader.U8, Reader.U16, Reader.U32, ShortAt, WordAt;
  }

  lemma BackReads(seg: TCPSegment, bytes: seq<u8>)
    requires |bytes| >= 20 && bytes[12] / 16 >= 5
    ensures var got := ParseBack(seg, bytes[12] / 16, At(bytes, 16)).0;
            && got.message == seg.message.(sender := seg.message.sender.(payload := SegmentIn(bytes).message.sender.payload))
            && got.udinfo == seg.udinfo.(cksum := SegmentIn(bytes).udinfo.cksum)
  {
    ReadsShort(bytes, 16, seg.udinfo.cksum);
    ReadsShort(bytes, 18, 0);
    hide Reader.Integer, Reader.U16, ShortAt, WordAt;
    var skip := 4 * (bytes[12] / 16) - 20;
    assert bytes[20..][Min(skip, |bytes| - 20)..] == bytes[Min(skip + 20, |bytes|)..];
  }

  /**
   * Parsing succeeds exactly for the bytes that are a segment: complete checksum, at least 20 bytes, and a header of
   * at least 5 words. It then yields that segment, whatever the fields were before.
   */
  lemma ParsesExactlySegments(seg0: TCPSegment, bytes: seq<u8>, pseudo: u32)
    ensures !ParseSegment(seg0, Reader(bytes, false), pseudo).1.error <==> IsSegment(bytes, pseudo)
    ensures IsSegment(bytes, pseudo) ==> ParseSegment(seg0, Reader(bytes, false), pseudo).0 == SegmentIn(bytes)
  {
    ValueIsZero(pseudo, bytes);
    hide Check.Add, Check.Value, WordSum, SegmentIn, ParseBack, ParseSegmentTop, TCPSegment.WithCksum;
    var (seg1, dataOffset, r1) := ParseSegmentTop(seg0, Reader(bytes, false));
    TopConsumes(seg0, Reader(bytes, false));
    BackConsumes(seg1, dataOffset, r1);
    if |bytes| >= 20 {
      TopReads(seg0, bytes);
      if bytes[12] / 16 >= 5 {
        BackReads(seg1, bytes);
      }
    }
  }

  /** A segment of which one byte was changed on the way is rejected. */
  lemma ChangedSegmentIsRejected(seg: TCPSegment, pseudo: u32, seg0: TCPSegment, i: nat, b: u8)
    requires 20 + |seg.message.sender.payload| <= 65535 && pseudo <= 8 * 65535
    requires i < |seg.ComputeChecksum(pseudo).Encode()| && b != seg.ComputeChecksum(pseudo).Encode()[i]
    ensures ParseSegment(seg0, Reader(seg.ComputeChecksum(pseudo).Encode()[i := b], false), pseudo).1.error
  {
    hide Check.Add, Check.Value, TCPSegment.Encode, TCPSegment.ComputeChecksum, ParseSegmentTop, ParseBack;
    SegmentChecksumVerifies(seg, pseudo);
    OneByteIsNoticed(pseudo, seg.ComputeChecksum(pseudo).Encode(), i, b);
  }
}
