/** IPv4 headers byte by byte: what is written where, and exactly which bytes are accepted as which header. */
module HeaderLayouts {
  import opened Machine
  import opened Checksums
  import opened BigEndians
  import opened Parsing
  import opened WireFields
  import opened Ipv4

  /** The flags and the fragment offset: the reserved flag is 0. */
  function Fragment(h: IPv4Header): u16
    requires h.offset < 0x2000
  {
    (if h.df then 0x4000 else 0) + (if h.mf then 0x2000 else 0) + h.offset
  }

  /** The header of section 3.1 of RFC 791, without options, and what follows it. */
  function HeaderBytes(h: IPv4Header, tail: seq<u8>): seq<u8>
    requires h.ver < 16 && h.hlen < 16 && h.offset < 0x2000
  {
    [16 * h.ver + h.hlen] + ([h.tos] + (Short(h.len) + (Short(h.id) + (Short(Fragment(h))
    + ([h.ttl] + ([h.proto] + (Short(h.cksum) + (Word(h.src) + (Word(h.dst) + tail)))))))))
  }

  lemma FieldsFit(h: IPv4Header)
    requires h.ver < 16 && h.hlen < 16 && h.offset < 0x2000
    ensures h.FirstByte() == 16 * h.ver + h.hlen && h.FragmentField() == Fragment(h)
  {
  }

  lemma HeaderLayout(h: IPv4Header, tail: seq<u8>)
    requires h.ver < 16 && h.hlen < 16 && h.offset < 0x2000
    ensures h.Encode(tail) == HeaderBytes(h, tail)
  {
    FieldsFit(h);
    hide IPv4Header.FirstByte, IPv4Header.FragmentField, Fragment;
    ByteIs(h.FirstByte());
    ByteIs(h.tos);
    ShortIs(h.len);
    ShortIs(h.id);
    ShortIs(h.FragmentField());
    ByteIs(h.ttl);
    ByteIs(h.proto);
    ShortIs(h.cksum);
    WordIs(h.src);
    WordIs(h.dst);
    hide ToBytes;
  }

  // ---- Parsing ----

  /** The header that some bytes are. */
  function HeaderIn(bytes: seq<u8>): IPv4Header
    requires |bytes| >= 20
  {
    IPv4Header(
      bytes[0] / 16, bytes[0] % 16, bytes[1], ShortAt(bytes, 2), ShortAt(bytes, 4),
      bytes[6] / 64 % 2 == 1, bytes[6] / 32 % 2 == 1, ShortAt(bytes, 6) % 0x2000,
      bytes[8], bytes[9], ShortAt(bytes, 10), WordAt(bytes, 12), WordAt(bytes, 16))
  }

  /** What the checksum is verified over: the first 20 bytes, never any options, with the reserved flag cleared. */
  function Summed(bytes: seq<u8>): seq<u8>
    requires |bytes| >= 20
  {
    bytes[..20][6 := bytes[6] % 128]
  }

  /** Which bytes start with a header: version 4, at least 5 words, and a complete checksum that is not 0xffff. */
  predicate IsHeader(bytes: seq<u8>) {
    && |bytes| >= 20 && bytes[0] / 16 == 4 && bytes[0] % 16 >= 5
    && ShortAt(bytes, 10) != 65535 && WordSum(Summed(bytes)) % 65535 == 0
  }

  lemma FrontConsumes(h: IPv4Header, r: Reader)
    ensures var r' := ParseFront(h, r).1;
            (!r'.error ==> !r.error && |r.rest| >= 10) && |r'.rest| == if r'.error then |r'.rest| else |r.rest| - 10
  {
    var r1 := r.U8(0).1;
    var r2 := r1.U8(h.tos).1;
    var r3 := r2.U16(h.len).1;
    var r4 := r3.U16(h.id).1;
    var r5 := r4.U16(0).1;
    var r6 := r5.U8(h.ttl).1;
    ReadingConsumes(r, 1, 0);
    ReadingConsumes(r1, 1, h.tos);
    ReadingConsumes(r2, 2, h.len);
    ReadingConsumes(r3, 2, h.id);
    ReadingConsumes(r4, 2, 0);
    ReadingConsumes(r5, 1, h.ttl);
    ReadingConsumes(r6, 1, h.proto);
    hide Reader.Integer;
  }

  lemma BackConsumes(h: IPv4Header, r: Reader)
    ensures !ParseBack(h, r).1.error ==> !r.error && |r.rest| >= 10
  {
    var r1 := r.U16(h.cksum).1;
    var r2 := r1.U32(h.src).1;
    ReadingConsumes(r, 2, h.cksum);
    ReadingConsumes(r1, 4, h.src);
    ReadingConsumes(r2, 4, h.dst);
    hide Reader.Integer;
  }

  lemma FragmentBits(bytes: seq<u8>)
    requires |bytes| >= 8
    ensures (ShortAt(bytes, 6) / 0x4000 % 2 == 1) == (bytes[6] / 64 % 2 == 1)
    ensures (ShortAt(bytes, 6) / 0x2000 % 2 == 1) == (bytes[6] / 32 % 2 == 1)
  {
  }

  lemma FrontReads(h: IPv4Header, bytes: seq<u8>)
    requires |bytes| >= 20
    ensures ParseFront(h, Reader(bytes, false))
            == (HeaderIn(bytes).(cksum := h.cksum, src := h.src, dst := h.dst), At(bytes, 10))
  {
    assert bytes[0..] == bytes;
    FragmentBits(bytes);
    ReadsByte(bytes, 0, 0);
    ReadsByte(bytes, 1, h.tos);
    ReadsShort(bytes, 2, h.len);
    ReadsShort(bytes, 4, h.id);
    ReadsShort(bytes, 6, 0);
    ReadsByte(bytes, 8, h.ttl);
    ReadsByte(bytes, 9, h.proto);
    hide Reader.Integer, Reader.U8, Reader.U16, ShortAt, WordAt;
  }

  lemma BackReads(h: IPv4Header, bytes: seq<u8>)
    requires |bytes| >= 20
    ensures var got := HeaderIn(bytes);
            ParseBack(h, At(bytes, 10)) == (h.(cksum := got.cksum, src := got.src, dst := got.dst), At(bytes, 20))
  {
    ReadsShort(bytes, 10, h.cksum);
    ReadsWord(bytes, 12, h.src);
    ReadsWord(bytes, 16, h.dst);
    hide Reader.Integer, Reader.U16, Reader.U32, ShortAt, WordAt;
  }

  lemma ShortFromBytes(bytes: seq<u8>, i: nat)
    requires i + 2 <= |bytes|
    ensures Short(ShortAt(bytes, i)) == bytes[i..i + 2]
  {
  }

  lemma WordFromBytes(bytes: seq<u8>, i: nat)
    requires i + 4 <= |bytes|
    ensures Word(WordAt(bytes, i)) == bytes[i..i + 4]
  {
    ShortFromBytes(bytes, i);
    ShortFromBytes(bytes, i + 2);
    hide Short, ShortAt;
  }

  lemma HighBits(high: nat)
    ensures high % 128 == 64 * (high / 64 % 2) + 32 * (high / 32 % 2) + high % 32
  {
    assert high / 64 == high / 32 / 2 && high / 128 == high / 64 / 2;
  }

  lemma LowBits(high: nat, low: nat)
    requires low < 0x100
    ensures (0x100 * high + low) % 0x2000 == 0x100 * (high % 32) + low
  {
    assert 0x100 * high + low == 0x2000 * (high / 32) + (0x100 * (high % 32) + low);
  }

  lemma FragmentRewritten(high: nat, low: nat)
    requires low < 0x100
    ensures (if high / 64 % 2 == 1 then 0x4000 else 0) + (if high / 32 % 2 == 1 then 0x2000 else 0) + (0x100 * high + low) % 0x2000
            == 0x100 * (high % 128) + low
  {
    HighBits(high);
    LowBits(high, low);
  }

  lemma FragmentIs(bytes: seq<u8>)
    requires |bytes| >= 20
    ensures HeaderIn(bytes).offset < 0x2000 && HeaderIn(bytes).ver < 16 && HeaderIn(bytes).hlen < 16
    ensures Fragment(HeaderIn(bytes)) == ShortAt(Summed(bytes), 6)
  {
    FragmentRewritten(bytes[6], bytes[7]);
    hide WordAt;
  }

  lemma Rejoined(b: seq<u8>)
    requires |b| == 20
    ensures b == [b[0]] + ([b[1]] + (b[2..4] + (b[4..6] + (b[6..8]
                 + ([b[8]] + ([b[9]] + (b[10..12] + (b[12..16] + (b[16..20] + [])))))))))
  {
    assert b[16..] == b[16..20] + [];
    assert b[12..] == b[12..16] + b[16..];
    assert b[10..] == b[10..12] + b[12..];
    assert b[9..] == [b[9]] + b[10..];
    assert b[8..] == [b[8]] + b[9..];
    assert b[6..] == b[6..8] + b[8..];
    assert b[4..] == b[4..6] + b[6..];
    assert b[2..] == b[2..4] + b[4..];
    assert b[1..] == [b[1]] + b[2..];
    assert b == [b[0]] + b[1..];
  }

  /** The fields of the header, as they stand in the bytes summed. */
  lemma FieldsOf(bytes: seq<u8>)
    requires |bytes| >= 20
    ensures var h, b := HeaderIn(bytes), Summed(bytes);
            && [16 * h.ver + h.hlen] == [b[0]] && [h.tos] == [b[1]] && Short(h.len) == b[2..4] && Short(h.id) == b[4..6]
            && [h.ttl] == [b[8]] && [h.proto] == [b[9]] && Short(h.cksum) == b[10..12]
            && Word(h.src) == b[12..16] && Word(h.dst) == b[16..20]
  {
    hide Short, Word, ShortAt, WordAt;
    ShortFromBytes(bytes, 2);
    ShortFromBytes(bytes, 4);
    ShortFromBytes(bytes, 10);
    WordFromBytes(bytes, 12);
    WordFromBytes(bytes, 16);
  }

  lemma SummedIsShort(bytes: seq<u8>)
    requires |bytes| >= 20
    ensures |Summed(bytes)| == 20
  {
  }

  /** Writing the header that was read gives the same bytes, but for the reserved flag. */
  lemma RewritesBytes(bytes: seq<u8>)
    requires |bytes| >= 20
    ensures HeaderIn(bytes).ver < 16 && HeaderIn(bytes).hlen < 16 && HeaderIn(bytes).offset < 0x2000
    ensures HeaderBytes(HeaderIn(bytes), []) == Summed(bytes)
  {
    hide Short, Word, ShortAt, WordAt, Summed, HeaderIn, Fragment;
    FieldsOf(bytes);
    FragmentIs(bytes);
    SummedIsShort(bytes);
    ShortFromBytes(Summed(bytes), 6);
    Rejoined(Summed(bytes));
  }

  // ---- The checksum ----

  lemma FieldWeighs(before: seq<u8>, c: u16, after: seq<u8>)
    requires |before| % 2 == 0
    ensures WordSum(before + Field(c) + after) == WordSum(before) + c + WordSum(after)
  {
    FieldInside(before, c, after);
    ByteSumIsWordSum(before + Field(c) + after);
    ByteSumIsWordSum(before);
    ByteSumIsWordSum(after);
    hide ByteSum, WordSum, Field;
  }

  lemma FirstByteWeighs(h: IPv4Header)
    requires h.ver == 4 && h.hlen < 16 && h.offset < 0x2000
    ensures WordSum(h.(cksum := 0).Encode([])) > 0
  {
    HeaderLayout(h.(cksum := 0), []);
    hide Short, Word, Fragment;
    var bytes := h.(cksum := 0).Encode([]);
    assert bytes[0] == 64 + h.hlen && |bytes| >= 2;
  }

  /** The checksum field adds itself to the sum of everything else, which is positive. */
  lemma SumWithoutField(h: IPv4Header)
    requires h.ver == 4 && h.hlen < 16 && h.offset < 0x2000
    ensures var rest := WordSum(h.(cksum := 0).Encode([]));
            rest > 0 && WordSum(h.Encode([])) == rest + h.cksum
  {
    var h0 := h.(cksum := 0);
    EncodeSplits(h);
    EncodeSplits(h0);
    SameFields(h, h0);
    var front, back := h.EncodeFront([]), h.EncodeBack([]);
    FieldWeighs(front, h.cksum, back);
    FieldWeighs(front, 0, back);
    FirstByteWeighs(h);
    hide WordSum, Field, IPv4Header.EncodeFront, IPv4Header.EncodeBack, IPv4Header.Encode;
  }

  /** The complement of a positive sum is the one value, 65535 excepted, that completes it. */
  lemma ComplementCompletes(sum: nat, c: u16)
    requires sum > 0
    ensures c == 65535 - Fold(sum) <==> c != 65535 && (sum + c) % 65535 == 0
  {
    FoldIsRemainder(sum);
    hide Fold;
    assert sum == 65535 * (sum / 65535) + sum % 65535;
  }

  lemma ChecksumIsRight(h: IPv4Header)
    requires h.ver == 4 && h.hlen < 16 && h.offset < 0x2000
    ensures h.ComputeChecksum() == h <==> h.cksum != 65535 && WordSum(h.Encode([])) % 65535 == 0
  {
    var h0 := h.(cksum := 0);
    var rest := WordSum(h0.Encode([]));
    SumWithoutField(h);
    ComplementCompletes(rest, h.cksum);
    EncodeSplits(h0);
    ByteSumIsWordSum(h0.Encode([]));
    ValueOfBytes(0, h0.Encode([]));
    hide WordSum, ByteSum, Fold, IPv4Header.Encode, Check.Add, Check.Value, Field;
  }

  lemma CheckPasses(h: IPv4Header, r: Reader)
    ensures var (h', r') := CheckHeader(h, r);
            && (!r'.error <==> !r.error && h.ver == 4 && h.hlen >= 5 && h.ComputeChecksum() == h)
            && (!r'.error ==> h' == h && r' == r.RemovePrefix(4 * h.hlen - 20))
  {
    hide IPv4Header.Encode, Check.Add, Check.Value;
  }

  lemma SkipsOptions(bytes: seq<u8>, n: nat)
    requires |bytes| >= 20 && n >= 20
    ensures At(bytes, 20).RemovePrefix(n - 20) == At(bytes, Min(n, |bytes|))
  {
    assert bytes[20..][Min(n - 20, |bytes| - 20)..] == bytes[Min(n, |bytes|)..];
  }

  lemma ReadsHeader(h0: IPv4Header, bytes: seq<u8>)
    ensures |bytes| < 20 ==> ParseHeader(h0, Reader(bytes, false)).1.error
    ensures |bytes| >= 20 ==> ParseHeader(h0, Reader(bytes, false)) == CheckHeader(HeaderIn(bytes), At(bytes, 20))
  {
    hide ParseFront, ParseBack, IPv4Header.ComputeChecksum, ShortAt, WordAt;
    var (h1, r1) := ParseFront(h0, Reader(bytes, false));
    var (h2, r2) := ParseBack(h1, r1);
    FrontConsumes(h0, Reader(bytes, false));
    BackConsumes(h1, r1);
    if |bytes| >= 20 {
      FrontReads(h0, bytes);
      BackReads(h1, bytes);
    }
  }

  lemma ChecksExactly(bytes: seq<u8>)
    requires |bytes| >= 20
    ensures var h := HeaderIn(bytes);
            h.ver == 4 && h.hlen >= 5 && h.ComputeChecksum() == h <==> IsHeader(bytes)
  {
    FragmentIs(bytes);
    RewritesBytes(bytes);
    if bytes[0] / 16 == 4 {
      HeaderLayout(HeaderIn(bytes), []);
      ChecksumIsRight(HeaderIn(bytes));
    }
    hide WordSum, Summed, IPv4Header.ComputeChecksum, IPv4Header.Encode, HeaderBytes, ShortAt, WordAt, Fragment;
  }

  lemma HeaderLength(bytes: seq<u8>)
    requires |bytes| >= 20
    ensures HeaderIn(bytes).hlen == bytes[0] % 16
  {
  }

  /**
   * Parsing succeeds exactly for bytes that start with a header, whatever the fields were before; it yields that
   * header and leaves what follows the options.
   */
  lemma ParsesExactlyHeaders(h0: IPv4Header, bytes: seq<u8>)
    ensures !ParseHeader(h0, Reader(bytes, false)).1.error <==> IsHeader(bytes)
    ensures IsHeader(bytes) ==>
              ParseHeader(h0, Reader(bytes, false)) == (HeaderIn(bytes), At(bytes, Min(4 * (bytes[0] % 16), |bytes|)))
  {
    hide ParseHeader, CheckHeader, HeaderIn, WordSum, Summed, IPv4Header.ComputeChecksum, ShortAt;
    ReadsHeader(h0, bytes);
    if |bytes| >= 20 {
      ChecksExactly(bytes);
      CheckPasses(HeaderIn(bytes), At(bytes, 20));
      HeaderLength(bytes);
      if bytes[0] % 16 >= 5 {
        SkipsOptions(bytes, 4 * (bytes[0] % 16));
      }
    }
  }

  lemma SliceTwice(bytes: seq<u8>, first: nat, n: nat)
    requires first <= |bytes|
    ensures bytes[first..][..Min(|bytes| - first, n)] == bytes[first..Min(first + n, |bytes|)]
  {
  }

  /** A datagram is its header and the bytes after the options, as many as the total length promises, or as there are. */
  lemma ParsesExactlyDatagrams(bytes: seq<u8>)
    ensures ParseDatagram(bytes).Some? <==> IsHeader(bytes)
    ensures IsHeader(bytes) ==>
              var h, first := HeaderIn(bytes), Min(4 * (bytes[0] % 16), |bytes|);
              ParseDatagram(bytes) == Some((h, bytes[first..Min(first + (h.len - 4 * h.hlen) % 0x1_0000, |bytes|)]))
  {
    hide ParseHeader, HeaderIn, WordSum, Summed, ShortAt;
    ParsesExactlyHeaders(DEFAULT_HEADER, bytes);
    if IsHeader(bytes) {
      SliceTwice(bytes, Min(4 * (bytes[0] % 16), |bytes|), HeaderIn(bytes).PayloadLength());
    }
  }

  // ---- Options ----

  lemma WordSumSplits(a: seq<u8>, b: seq<u8>)
    requires |a| % 2 == 0
    ensures WordSum(a + b) == WordSum(a) + WordSum(b)
  {
    ByteSumIsWordSum(a + b);
    ByteSumIsWordSum(a);
    ByteSumIsWordSum(b);
    ByteSumSplits(a, b, false);
    hide ByteSum, WordSum;
  }

  lemma SumsToMultiple(a: nat, b: nat)
    requires (a + b) % 65535 == 0
    ensures a % 65535 == 0 <==> b % 65535 == 0
  {
  }

  /**
   * A header with options whose checksum is right over all of it (section 3.1 of RFC 791) is accepted if and only if
   * the options do not count.
   */
  lemma OptionsBreakTheChecksum(bytes: seq<u8>)
    requires |bytes| >= 20 && bytes[0] / 16 == 4 && 20 <= 4 * (bytes[0] % 16) <= |bytes|
    requires bytes[6] < 128 && ShortAt(bytes, 10) != 65535 && WordSum(bytes[..4 * (bytes[0] % 16)]) % 65535 == 0
    ensures IsHeader(bytes) <==> WordSum(bytes[20..4 * (bytes[0] % 16)]) % 65535 == 0
  {
    var n := 4 * (bytes[0] % 16);
    var front, options := bytes[..20], bytes[20..n];
    assert bytes[..n] == front + options && Summed(bytes) == front;
    WordSumSplits(front, options);
    hide WordSum, Summed, ShortAt;
    SumsToMultiple(WordSum(front), WordSum(options));
  }

  lemma TwoWords(bytes: seq<u8>, i: nat)
    requires i + 4 <= |bytes|
    ensures WordSum(bytes[i..]) == ShortAt(bytes, i) + ShortAt(bytes, i + 2) + WordSum(bytes[i + 4..])
  {
    assert bytes[i..][2..][2..] == bytes[i + 4..];
  }

  /** A header of 24 bytes: the fifth word of the header proper is followed by four No-Operation options. */
  const HEADER_WITH_OPTIONS: seq<u8> :=
    [70, 0, 0, 24, 0, 0, 64, 0, 128, 6, 247, 222, 0, 0, 0, 0, 0, 0, 0, 0, 1, 1, 1, 1]

  lemma ShortsThere(bytes: seq<u8>)
    requires bytes == HEADER_WITH_OPTIONS
    ensures |bytes| == 24 && bytes[0] == 70 && bytes[6] == 64
    ensures ShortAt(bytes, 0) == 17920 && ShortAt(bytes, 2) == 24 && ShortAt(bytes, 4) == 0 && ShortAt(bytes, 6) == 16384
    ensures ShortAt(bytes, 8) == 32774 && ShortAt(bytes, 10) == 63454 && ShortAt(bytes, 12) == ShortAt(bytes, 14) == 0
    ensures ShortAt(bytes, 16) == ShortAt(bytes, 18) == 0 && ShortAt(bytes, 20) == ShortAt(bytes, 22) == 257
  {
  }

  lemma EmptySum(bytes: seq<u8>)
    requires bytes == []
    ensures WordSum(bytes) == 0
  {
  }

  lemma TwelveWords(bytes: seq<u8>)
    requires |bytes| == 24
    ensures WordSum(bytes[0..])
            == ShortAt(bytes, 0) + ShortAt(bytes, 2) + ShortAt(bytes, 4) + ShortAt(bytes, 6) + ShortAt(bytes, 8) + ShortAt(bytes, 10)
               + ShortAt(bytes, 12) + ShortAt(bytes, 14) + ShortAt(bytes, 16) + ShortAt(bytes, 18) + WordSum(bytes[20..])
    ensures WordSum(bytes[20..]) == ShortAt(bytes, 20) + ShortAt(bytes, 22)
  {
    hide WordSum, ShortAt;
    TwoWords(bytes, 0);
    TwoWords(bytes, 4);
    TwoWords(bytes, 8);
    TwoWords(bytes, 12);
    TwoWords(bytes, 16);
    TwoWords(bytes, 20);
    EmptySum(bytes[24..]);
  }

  /** Its checksum is right, and it is rejected. */
  lemma HeaderWithOptionsIsRejected(bytes: seq<u8>)
    requires bytes == HEADER_WITH_OPTIONS
    ensures WordSum(bytes) % 65535 == 0 && ParseDatagram(bytes) == None
  {
    hide WordSum, ParseDatagram, IsHeader, ShortAt, HEADER_WITH_OPTIONS;
    ShortsThere(bytes);
    TwelveWords(bytes);
    assert bytes[..24] == bytes == bytes[0..] && bytes[20..24] == bytes[20..];
    ParsesExactlyDatagrams(bytes);
    OptionsBreakTheChecksum(bytes);
  }
}
