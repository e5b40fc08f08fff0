/** What an adapter writes, and exactly what it accepts, in terms of the bytes on the wire. */
module AdapterLaws {
  import opened Machine
  import opened Checksums
  import opened WireFields
  import opened Ipv4
  import opened TcpSegments
  import opened TcpOverIp
  import opened HeaderLayouts
  import opened SegmentLayouts

  // ---- The pseudo-header ----

  /** The pseudo-header of section 3.1 of RFC 9293: addresses, a zero byte, the protocol, and the segment's length. */
  function PseudoHeader(src: u32, dst: u32, proto: u8, length: u16): seq<u8> {
    Word(src) + (Word(dst) + ([0] + ([proto] + Short(length))))
  }

  lemma ShortWeighs(s: u16, rest: seq<u8>)
    ensures WordSum(Short(s) + rest) == s + WordSum(rest)
  {
    assert (Short(s) + rest)[2..] == rest;
  }

  lemma WordWeighs(w: u32, rest: seq<u8>)
    ensures WordSum(Word(w) + rest) == w / 0x1_0000 + w % 0x1_0000 + WordSum(rest)
  {
    hide WordSum, Short;
    ShortWeighs(w % 0x1_0000, rest);
    ShortWeighs(w / 0x1_0000, Short(w % 0x1_0000) + rest);
    assert Word(w) + rest == Short(w / 0x1_0000) + (Short(w % 0x1_0000) + rest);
  }

  lemma LastWordsWeigh(proto: u8, length: u16)
    ensures WordSum([0] + ([proto] + Short(length))) == proto + length
  {
    ShortWeighs(length, []);
    assert Short(length) + [] == Short(length);
    var bytes := [0] + ([proto] + Short(length));
    assert bytes[2..] == Short(length);
    hide Short;
  }

  /** What the header contributes to the TCP checksum is the sum of the 12 bytes of the pseudo-header. */
  lemma PseudoChecksumIsSum(h: IPv4Header)
    ensures h.PseudoChecksum() == WordSum(PseudoHeader(h.src, h.dst, h.proto, (h.len - 4 * h.hlen) % 0x1_0000))
  {
    var length: u16 := (h.len - 4 * h.hlen) % 0x1_0000;
    hide WordSum, Word, Short;
    LastWordsWeigh(h.proto, length);
    WordWeighs(h.dst, [0] + ([h.proto] + Short(length)));
    WordWeighs(h.src, Word(h.dst) + ([0] + ([h.proto] + Short(length))));
  }

  // ---- What is written ----

  lemma HeaderSumIsComplete(h: IPv4Header)
    requires h.ver == 4 && h.hlen < 16 && h.offset < 0x2000
    ensures WordSum(h.ComputeChecksum().Encode([])) % 65535 == 0
  {
    hide WordSum, IPv4Header.Encode, Check.Add, Check.Value;
    assert h.ComputeChecksum().ComputeChecksum() == h.ComputeChecksum();
    ChecksumIsRight(h.ComputeChecksum());
  }

  /** The header written for a message: 20 bytes, not to be fragmented, for at most 128 hops, with a complete checksum. */
  lemma HeaderWritten(a: Adapter, msg: TCPMessage)
    ensures var h := a.WrapHeader(msg);
            && h == IPv4Header(4, 5, 0, (40 + |msg.sender.payload|) % 0x1_0000, 0, true, false, 0, 128, 6, h.cksum,
                               a.source.ip, a.destination.ip)
            && WordSum(h.Encode([])) % 65535 == 0
  {
    HeaderSumIsComplete(a.BareHeader(msg));
    hide WordSum, IPv4Header.Encode, Check.Add, Check.Value;
  }

  lemma SumIsMultiple(start: u32, data: seq<u8>)
    requires |data| <= 65535 && start <= 8 * 65535 && Check(start, false).Add(data).Value() == 0
    ensures (start + WordSum(data)) % 65535 == 0
  {
    hide WordSum, ByteSum, Check.Add, Check.Value;
    ValueIsZero(start, data);
    ByteSumIsWordSum(data);
    ByteSumBound(data, false);
    var sum := start + WordSum(data);
    assert sum < TWO32 && sum % TWO32 == sum;
  }

  lemma PseudoHeaderWritten(a: Adapter, msg: TCPMessage)
    requires 20 + |msg.sender.payload| <= 65535
    ensures a.BareHeader(msg).PseudoChecksum()
            == WordSum(PseudoHeader(a.source.ip, a.destination.ip, 6, 20 + |msg.sender.payload|))
  {
    PseudoChecksumIsSum(a.BareHeader(msg));
    TwiceReduced(|msg.sender.payload|);
    hide WordSum, PseudoHeader, IPv4Header.PseudoChecksum;
  }

  lemma SegmentFields(a: Adapter, msg: TCPMessage)
    ensures var seg := a.WrapSegment(msg);
            seg.message == msg && seg.udinfo.srcPort == a.source.port && seg.udinfo.dstPort == a.destination.port
  {
    hide TCPSegment.Encode, IPv4Header.PseudoChecksum, Check.Add, Check.Value;
  }

  /**
   * The segment written for a message carries the message and the two ports. If it fits 65535 bytes, the sum over
   * the pseudo-header and the segment is complete.
   */
  lemma SegmentWritten(a: Adapter, msg: TCPMessage)
    ensures var seg := a.WrapSegment(msg);
            && seg.message == msg && seg.udinfo.srcPort == a.source.port && seg.udinfo.dstPort == a.destination.port
            && (20 + |msg.sender.payload| <= 65535 ==>
                  var pseudo := PseudoHeader(a.source.ip, a.destination.ip, 6, 20 + |msg.sender.payload|);
                  |SegmentBytes(seg)| == 20 + |msg.sender.payload|
                  && (WordSum(pseudo) + WordSum(SegmentBytes(seg))) % 65535 == 0)
  {
    hide WordSum, Check.Add, Check.Value, TCPSegment.Encode, TCPSegment.ComputeChecksum, SegmentBytes, PseudoHeader,
      IPv4Header.PseudoChecksum, Adapter.BareHeader;
    SegmentFields(a, msg);
    if 20 + |msg.sender.payload| <= 65535 {
      var pseudo := a.BareHeader(msg).PseudoChecksum();
      PseudoChecksumFits(a.BareHeader(msg));
      PseudoHeaderWritten(a, msg);
      SegmentLayout(a.WrapSegment(msg));
      SegmentChecksumVerifies(TCPSegment(msg, UserDatagramInfo(a.source.port, a.destination.port, 0)), pseudo);
      SumIsMultiple(pseudo, a.WrapSegment(msg).Encode());
    }
  }

  // ---- What is accepted ----

  /** The datagram is TCP, between the right addresses unless the adapter listens, holds a segment, and is for the port. */
  predicate IsForUs(a: Adapter, h: IPv4Header, payload: seq<u8>) {
    && h.proto == 6
    && (a.listening || (h.dst == a.source.ip && h.src == a.destination.ip))
    && IsSegment(payload, h.PseudoChecksum())
    && SegmentIn(payload).udinfo.dstPort == a.source.port
  }

  /**
   * Exactly which datagrams give a message, and which: from the peer's port only, or for a listening adapter SYN
   * without RST from any. A listening adapter that accepts one has found its peer; no other adapter changes.
   */
  lemma AcceptsExactly(a: Adapter, h: IPv4Header, payload: seq<u8>)
    ensures var (got, a') := a.Unwrap(h, payload);
            && (got.Some? <==>
                && IsForUs(a, h, payload)
                && var seg := SegmentIn(payload);
                   if a.listening then seg.message.sender.SYN && !seg.message.sender.RST
                   else seg.udinfo.srcPort == a.destination.port)
            && (got.Some? ==> got.value == SegmentIn(payload).message)
            && a' == if got.Some? && a.listening
                     then Adapter(Endpoint(h.dst, a.source.port), Endpoint(h.src, SegmentIn(payload).udinfo.srcPort), false) else a
  {
    ParsesExactlySegments(NO_SEGMENT, payload, h.PseudoChecksum());
    hide ParseSegment, SegmentIn, IPv4Header.PseudoChecksum, WordSum;
  }

  /** A listening adapter answers from the address contacted: after the first SYN it is the mirror image of the client. */
  lemma ListenerMirrorsClient(client: Adapter, b: Adapter, msg: TCPMessage)
    requires !client.listening && b.listening && b.source.port == client.destination.port
    requires |msg.sender.payload| <= MAX_TCP_PAYLOAD && msg.sender.SYN && !msg.Reset()
    ensures b.Unwrap(client.WrapHeader(msg), client.WrapSegment(msg).Encode()) == (Some(msg.ResetShared()), client.Mirrored())
  {
    SegmentComesBack(client, msg);
    HeaderWritten(client, msg);
    hide ParseSegment, TCPSegment.Encode, Adapter.WrapHeader, Adapter.WrapSegment, IPv4Header.PseudoChecksum,
      IPv4Header.Encode, WordSum;
  }

  /** A message of which one byte of the segment was changed on the way is not delivered by any adapter. */
  lemma ChangedMessageIsLost(a: Adapter, b: Adapter, msg: TCPMessage, i: nat, x: u8)
    requires |msg.sender.payload| <= MAX_TCP_PAYLOAD
    requires i < |a.WrapSegment(msg).Encode()| && x != a.WrapSegment(msg).Encode()[i]
    ensures b.Unwrap(a.WrapHeader(msg), a.WrapSegment(msg).Encode()[i := x]) == (None, b)
  {
    WrappedLengths(a, msg);
    var seg := TCPSegment(msg, UserDatagramInfo(a.source.port, a.destination.port, 0));
    hide ParseSegment, TCPSegment.Encode, TCPSegment.ComputeChecksum, Adapter.WrapHeader, Adapter.BareHeader, IPv4Header.PseudoChecksum;
    ChangedSegmentIsRejected(seg, a.BareHeader(msg).PseudoChecksum(), NO_SEGMENT, i, x);
  }
}
