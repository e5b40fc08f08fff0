/** IPv4 headers (RFC 791, section 3.1, without options) and datagrams. */
module Ipv4 {
  import opened Machine
  import opened Checksums
  import opened BigEndians
  import opened Parsing

  const PROTO_TCP: u8 := 6
  const IP_HEADER_LENGTH := 20

  datatype IPv4Header = IPv4Header(
    ver: u8, hlen: u8, tos: u8, len: u16, id: u16, df: bool, mf: bool, offset: u16,
    ttl: u8, proto: u8, cksum: u16, src: u32, dst: u32)
  {
    function FirstByte(): u8 {
      (16 * ver + hlen % 16) % 0x100
    }

    /** The flags and the fragment offset. */
    function FragmentField(): u16 {
      (if df then 0x4000 else 0) + (if mf then 0x2000 else 0) + offset % 0x2000
    }

    /** The length of the payload, in 16 bits. */
    function PayloadLength(): u16 {
      (len - 4 * hlen) % TWO16
    }

    /** The pseudo-header's part of the TCP checksum. */
    function PseudoChecksum(): u32 {
      src / TWO16 + src % TWO16 + dst / TWO16 + dst % TWO16 + proto + PayloadLength()
    }

    /** The fields before the checksum. */
    function EncodeFront(tail: seq<u8>): seq<u8> {
      ToBytes(FirstByte(), 1) + (ToBytes(tos, 1) + (ToBytes(len, 2) + (ToBytes(id, 2) + (ToBytes(FragmentField(), 2)
      + (ToBytes(ttl, 1) + (ToBytes(proto, 1) + tail))))))
    }

    function EncodeBack(tail: seq<u8>): seq<u8> {
      ToBytes(src, 4) + (ToBytes(dst, 4) + tail)
    }

    /** The header on the wire, followed by something. */
    function Encode(tail: seq<u8>): seq<u8> {
      EncodeFront(ToBytes(cksum, 2) + EncodeBack(tail))
    }

    function ComputeChecksum(): IPv4Header {
      this.(cksum := Check(0, false).Add(this.(cksum := 0).Encode([])).Value())
    }
  }

  const DEFAULT_HEADER := IPv4Header(4, 5, 0, 0, 0, true, false, 0, 128, PROTO_TCP, 0, 0, 0)

  datatype InternetDatagram = InternetDatagram(header: IPv4Header, payload: seq<seq<u8>>)

  // ---- Parsing ----

  function ParseFront(h: IPv4Header, r: Reader): (IPv4Header, Reader) {
    var (first, r1) := r.U8(0);
    var (tos, r2) := r1.U8(h.tos);
    var (len, r3) := r2.U16(h.len);
    var (id, r4) := r3.U16(h.id);
    var (frag, r5) := r4.U16(0);
    var (ttl, r6) := r5.U8(h.ttl);
    var (proto, r7) := r6.U8(h.proto);
    (h.(ver := first / 16, hlen := first % 16, tos := tos, len := len, id := id,
        df := frag / 0x4000 % 2 == 1, mf := frag / 0x2000 % 2 == 1, offset := frag % 0x2000, ttl := ttl, proto := proto),
     r7)
  }

  function ParseBack(h: IPv4Header, r: Reader): (IPv4Header, Reader) {
    var (cksum, r1) := r.U16(h.cksum);
    var (src, r2) := r1.U32(h.src);
    var (dst, r3) := r2.U32(h.dst);
    (h.(cksum := cksum, src := src, dst := dst), r3)
  }

  /** The version, the header length, options to skip, and the checksum. */
  function CheckHeader(h: IPv4Header, r: Reader): (IPv4Header, Reader) {
    var r1 := if h.ver != 4 || h.hlen < 5 then r.SetError() else r;
    if r1.error then (h, r1)
    else
      var r2 := r1.RemovePrefix(4 * h.hlen - IP_HEADER_LENGTH);
      (h.ComputeChecksum(), if h.ComputeChecksum().cksum != h.cksum then r2.SetError() else r2)
  }

  function ParseHeader(h: IPv4Header, r: Reader): (IPv4Header, Reader) {
    var (h1, r1) := ParseFront(h, r);
    var (h2, r2) := ParseBack(h1, r1);
    CheckHeader(h2, r2)
  }

  // ---- Round trip ----

  lemma FieldsDecode(h: IPv4Header)
    requires h.ver == 4 && h.hlen < 16 && h.offset < 0x2000
    ensures h.FirstByte() / 16 == h.ver && h.FirstByte() % 16 == h.hlen
    ensures (h.FragmentField() / 0x4000 % 2 == 1) == h.df && (h.FragmentField() / 0x2000 % 2 == 1) == h.mf
    ensures h.FragmentField() % 0x2000 == h.offset
  {
  }

  lemma FrontRoundTrip(h: IPv4Header, h0: IPv4Header, tail: seq<u8>)
    requires h.ver == 4 && h.hlen < 16 && h.offset < 0x2000
    ensures ParseFront(h0, Reader(h.EncodeFront(tail), false))
            == (h.(cksum := h0.cksum, src := h0.src, dst := h0.dst), Reader(tail, false))
  {
    var t7 := ToBytes(h.proto, 1) + tail;
    var t6 := ToBytes(h.ttl, 1) + t7;
    var t5 := ToBytes(h.FragmentField(), 2) + t6;
    var t4 := ToBytes(h.id, 2) + t5;
    var t3 := ToBytes(h.len, 2) + t4;
    var t2 := ToBytes(h.tos, 1) + t3;
    FieldsDecode(h);
    hide ToBytes, Reader.U8, Reader.U16, IPv4Header.FirstByte, IPv4Header.FragmentField;
    ReadsU8(h.FirstByte(), t2, 0);
    ReadsU8(h.tos, t3, h0.tos);
    ReadsU16(h.len, t4, h0.len);
    ReadsU16(h.id, t5, h0.id);
    ReadsU16(h.FragmentField(), t6, 0);
    ReadsU8(h.ttl, t7, h0.ttl);
    ReadsU8(h.proto, tail, h0.proto);
  }

  lemma BackRoundTrip(h: IPv4Header, h0: IPv4Header, tail: seq<u8>)
    ensures ParseBack(h0, Reader(ToBytes(h.cksum, 2) + h.EncodeBack(tail), false))
            == (h0.(cksum := h.cksum, src := h.src, dst := h.dst), Reader(tail, false))
  {
    hide ToBytes, Reader.U16, Reader.U32;
    ReadsU16(h.cksum, h.EncodeBack(tail), h0.cksum);
    ReadsU32(h.src, ToBytes(h.dst, 4) + tail, h0.src);
    ReadsU32(h.dst, tail, h0.dst);
  }

  /** A header with the computed checksum is read back as it was written, whatever follows. */
  lemma HeaderRoundTrip(h: IPv4Header, h0: IPv4Header, tail: seq<u8>)
    requires h.ver == 4 && h.hlen == 5 && h.offset < 0x2000
    ensures var sent := h.ComputeChecksum();
            ParseHeader(h0, Reader(sent.Encode(tail), false)) == (sent, Reader(tail, false))
  {
    var sent := h.ComputeChecksum();
    hide ToBytes, ParseFront, ParseBack, IPv4Header.EncodeFront, IPv4Header.EncodeBack, Check.Add, Check.Value;
    FrontRoundTrip(sent, h0, ToBytes(sent.cksum, 2) + sent.EncodeBack(tail));
    BackRoundTrip(sent, sent.(cksum := h0.cksum, src := h0.src, dst := h0.dst), tail);
    assert sent.ComputeChecksum() == sent;
  }

  lemma SameFields(h: IPv4Header, h': IPv4Header)
    requires h' == h.(cksum := h'.cksum)
    ensures h'.EncodeFront([]) == h.EncodeFront([]) && h'.EncodeBack([]) == h.EncodeBack([])
  {
    hide ToBytes;
  }

  lemma FrontThen(h: IPv4Header, tail: seq<u8>)
    ensures h.EncodeFront(tail) == h.EncodeFront([]) + tail
  {
    hide ToBytes, IPv4Header.FirstByte, IPv4Header.FragmentField;
    assert [] + tail == tail;
  }

  /** The checksum lies between the other fields, at an even offset. */
  lemma EncodeSplits(h: IPv4Header)
    ensures h.Encode([]) == h.EncodeFront([]) + Field(h.cksum) + h.EncodeBack([])
    ensures |h.EncodeFront([])| == 10 && |h.EncodeBack([])| == 8
  {
    FieldIsToBytes(h.cksum);
    FrontThen(h, ToBytes(h.cksum, 2) + h.EncodeBack([]));
    hide ToBytes, IPv4Header.EncodeFront, IPv4Header.EncodeBack;
  }

  /** The one's-complement sum over a header with the computed checksum is complete. */
  lemma HeaderChecksumVerifies(h: IPv4Header)
    ensures Check(0, false).Add(h.ComputeChecksum().Encode([])).Value() == 0
  {
    var front, back := h.EncodeFront([]), h.EncodeBack([]);
    var sent := h.ComputeChecksum();
    EncodeSplits(h.(cksum := 0));
    EncodeSplits(sent);
    SameFields(h, h.(cksum := 0));
    SameFields(h, sent);
    hide ToBytes, IPv4Header.EncodeFront, IPv4Header.EncodeBack, IPv4Header.Encode, Check.Add, Check.Value, Field;
    ComputedChecksumVerifies(0, front, back);
  }

  lemma BackThen(h: IPv4Header, tail: seq<u8>)
    ensures h.EncodeBack(tail) == h.EncodeBack([]) + tail
  {
    hide ToBytes;
    assert [] + tail == tail;
  }

  lemma EncodeThen(h: IPv4Header, tail: seq<u8>)
    ensures h.Encode(tail) == h.Encode([]) + tail
  {
    FrontThen(h, ToBytes(h.cksum, 2) + h.EncodeBack(tail));
    FrontThen(h, ToBytes(h.cksum, 2) + h.EncodeBack([]));
    BackThen(h, tail);
    hide ToBytes, IPv4Header.EncodeFront, IPv4Header.EncodeBack;
  }

  // ---- The operations on buffers ----

  /** Only version 4 can be written; for any other the source throws. */
  method SerializeHeader(h: IPv4Header, serializer: Serializer)
    requires h.ver == 4
    modifies serializer
    ensures serializer.Written() == old(serializer.Written()) + h.Encode([]) && serializer.output == old(serializer.output)
  {
    hide ToBytes, Concat;
    serializer.Integer(h.FirstByte(), 1);
    serializer.Integer(h.tos, 1);
    serializer.Integer(h.len, 2);
    serializer.Integer(h.id, 2);
    serializer.Integer(h.FragmentField(), 2);
    serializer.Integer(h.ttl, 1);
    serializer.Integer(h.proto, 1);
    serializer.Integer(h.cksum, 2);
    serializer.Integer(h.src, 4);
    serializer.Integer(h.dst, 4);
  }

  method ComputeHeaderChecksum(h: IPv4Header) returns (h': IPv4Header)
    requires h.ver == 4
    ensures h' == h.ComputeChecksum()
  {
    var bare := h.(cksum := 0);
    var s := new Serializer();
    assert NoneEmpty(s.output);
    SerializeHeader(bare, s);
    assert [] + bare.Encode([]) == bare.Encode([]);
    hide IPv4Header.Encode, Concat, NoneEmpty, Check.Add, Check.Value;
    var check := new InternetChecksum(0);
    var bytes := s.Finish();
    check.AddBuffers(bytes);
    var cksum := check.Value();
    h' := h.(cksum := cksum);
  }

  method ParseHeaderFront(h: IPv4Header, parser: Parser) returns (h': IPv4Header)
    requires parser.Valid()
    modifies parser, parser.input
    ensures parser.Valid() && (h', parser.View()) == ParseFront(h, old(parser.View()))
  {
    hide Reader.U8, Reader.U16;
    var firstByte := parser.U8(0);
    var tos := parser.U8(h.tos);
    var len := parser.U16(h.len);
    var id := parser.U16(h.id);
    var foVal := parser.U16(0);
    var ttl := parser.U8(h.ttl);
    var proto := parser.U8(h.proto);
    h' := h.(ver := firstByte / 16, hlen := firstByte % 16, tos := tos, len := len, id := id,
             df := foVal / 0x4000 % 2 == 1, mf := foVal / 0x2000 % 2 == 1, offset := foVal % 0x2000,
             ttl := ttl, proto := proto);
  }

  method ParseHeaderBack(h: IPv4Header, parser: Parser) returns (h': IPv4Header)
    requires parser.Valid()
    modifies parser, parser.input
    ensures parser.Valid() && (h', parser.View()) == ParseBack(h, old(parser.View()))
  {
    hide Reader.U16, Reader.U32;
    var cksum := parser.U16(h.cksum);
    var src := parser.U32(h.src);
    var dst := parser.U32(h.dst);
    h' := h.(cksum := cksum, src := src, dst := dst);
  }

  method CheckHeaderFrom(h: IPv4Header, parser: Parser) returns (h': IPv4Header)
    requires parser.Valid()
    modifies parser, parser.input
    ensures parser.Valid() && (h', parser.View()) == CheckHeader(h, old(parser.View()))
  {
    hide IPv4Header.ComputeChecksum, Parser.Valid, Buffers.Rest;
    h' := h;
    if h'.ver != 4 {
      parser.SetError();
    }
    if h'.hlen < 5 {
      parser.SetError();
    }
    if parser.error {
      return;
    }
    parser.RemovePrefix(4 * h'.hlen - IP_HEADER_LENGTH);
    var givenCksum := h'.cksum;
    h' := ComputeHeaderChecksum(h');
    if h'.cksum != givenCksum {
      parser.SetError();
    }
  }

  method ParseHeaderFrom(h: IPv4Header, parser: Parser) returns (h': IPv4Header)
    requires parser.Valid()
    modifies parser, parser.input
    ensures parser.Valid() && (h', parser.View()) == ParseHeader(h, old(parser.View()))
  {
    hide ParseFront, ParseBack, CheckHeader, Parser.Valid, Buffers.Rest;
    h' := ParseHeaderFront(h, parser);
    h' := ParseHeaderBack(h', parser);
    h' := CheckHeaderFrom(h', parser);
  }

  // ---- Datagrams ----

  /** Parse a datagram: its header, then as much as the header says; `None` if anything went wrong. */
  function ParseDatagram(bytes: seq<u8>): Option<(IPv4Header, seq<u8>)> {
    var (h, r) := ParseHeader(DEFAULT_HEADER, Reader(bytes, false));
    if r.error then None else Some((h, r.rest[..Min(|r.rest|, h.PayloadLength())]))
  }

  function EncodeDatagram(d: InternetDatagram): seq<u8> {
    d.header.Encode(Concat(d.payload))
  }

  method SerializeDatagram(d: InternetDatagram) returns (bytes: seq<seq<u8>>)
    requires d.header.ver == 4
    ensures Concat(bytes) == EncodeDatagram(d) && NoneEmpty(bytes)
  {
    EncodeThen(d.header, Concat(d.payload));
    var s := new Serializer();
    assert NoneEmpty(s.output);
    hide IPv4Header.Encode, Concat, NoneEmpty;
    SerializeHeader(d.header, s);
    s.Buffers(d.payload);
    bytes := s.Finish();
  }

  /** The bytes end where the header says, or earlier. */
  predicate NothingFollows(bytes: seq<u8>) {
    var (h, r) := ParseHeader(DEFAULT_HEADER, Reader(bytes, false));
    |r.rest| <= h.PayloadLength()
  }

  // ---- Parsing from buffers ----

  /** What parsing a datagram comes to; `Undefined` if the front of an empty list would be taken. */
  datatype Parsed = Undefined | Malformed | Complete(header: IPv4Header, payload: seq<u8>)

  /** The buffers left after the header. */
  function AfterHeader(buffers: seq<seq<u8>>): Buffers {
    Whole(buffers).Drop(Minus(|Concat(buffers)|, |ParseHeader(DEFAULT_HEADER, Reader(Concat(buffers), false)).1.rest|))
  }

  /** Parse the header, truncate what is left to the length it gives, and take all of that as the payload. */
  function ParsePieces(buffers: seq<seq<u8>>): Parsed {
    var (h, r) := ParseHeader(DEFAULT_HEADER, Reader(Concat(buffers), false));
    var left := AfterHeader(buffers).Truncate(h.PayloadLength());
    if left.size > 0 && left.list == [] then Undefined
    else if r.error then Malformed
    else Complete(h, left.Rest())
  }

  function AsParsed(o: Option<(IPv4Header, seq<u8>)>): Parsed {
    if o.None? then Malformed else Complete(o.value.0, o.value.1)
  }

  /** Nothing or everything after the header is cut, or buffers end where the header ends and where the payload should. */
  predicate CutsRight(buffers: seq<seq<u8>>) {
    var (h, r) := ParseHeader(DEFAULT_HEADER, Reader(Concat(buffers), false));
    var used := Minus(|Concat(buffers)|, |r.rest|);
    || NothingFollows(Concat(buffers)) || h.PayloadLength() == 0
    || (BoundaryAt(buffers, used) && BoundaryAt(buffers, used + h.PayloadLength()))
  }

  lemma FrontLeavesEnd(a: seq<u8>, h: IPv4Header, r: Reader)
    requires IsEnd(r.rest, a)
    ensures IsEnd(ParseFront(h, r).1.rest, a)
  {
    hide IsEnd, Reader.Integer;
    IntegerLeavesEnd(a, r, 1, 0);
    var r1 := r.U8(0).1;
    IntegerLeavesEnd(a, r1, 1, h.tos);
    var r2 := r1.U8(h.tos).1;
    IntegerLeavesEnd(a, r2, 2, h.len);
    var r3 := r2.U16(h.len).1;
    IntegerLeavesEnd(a, r3, 2, h.id);
    var r4 := r3.U16(h.id).1;
    IntegerLeavesEnd(a, r4, 2, 0);
    var r5 := r4.U16(0).1;
    IntegerLeavesEnd(a, r5, 1, h.ttl);
    IntegerLeavesEnd(a, r5.U8(h.ttl).1, 1, h.proto);
  }

  lemma BackLeavesEnd(a: seq<u8>, h: IPv4Header, r: Reader)
    requires IsEnd(r.rest, a)
    ensures IsEnd(ParseBack(h, r).1.rest, a)
  {
    hide IsEnd, Reader.Integer;
    IntegerLeavesEnd(a, r, 2, h.cksum);
    var r1 := r.U16(h.cksum).1;
    IntegerLeavesEnd(a, r1, 4, h.src);
    IntegerLeavesEnd(a, r1.U32(h.src).1, 4, h.dst);
  }

  lemma CheckLeavesEnd(a: seq<u8>, h: IPv4Header, r: Reader)
    requires IsEnd(r.rest, a)
    ensures IsEnd(CheckHeader(h, r).1.rest, a)
  {
    hide IsEnd, IPv4Header.ComputeChecksum;
    if h.ver == 4 && h.hlen >= 5 {
      PrefixLeavesEnd(a, r, 4 * h.hlen - IP_HEADER_LENGTH);
    }
  }

  /** What parsing a header leaves is the end of what there was. */
  lemma HeaderLeavesEnd(h: IPv4Header, bytes: seq<u8>)
    ensures IsEnd(ParseHeader(h, Reader(bytes, false)).1.rest, bytes)
  {
    var r := Reader(bytes, false);
    FrontLeavesEnd(bytes, h, r);
    var (h1, r1) := ParseFront(h, r);
    BackLeavesEnd(bytes, h1, r1);
    var (h2, r2) := ParseBack(h1, r1);
    CheckLeavesEnd(bytes, h2, r2);
    hide ParseFront, ParseBack, CheckHeader, IsEnd;
  }

  lemma AfterHeaderHolds(buffers: seq<seq<u8>>)
    requires NoneEmpty(buffers)
    ensures AfterHeader(buffers).Valid()
    ensures AfterHeader(buffers).Rest() == ParseHeader(DEFAULT_HEADER, Reader(Concat(buffers), false)).1.rest
  {
    hide ParseHeader, Concat, NoneEmpty, Buffers.Drop;
    HeaderLeavesEnd(DEFAULT_HEADER, Concat(buffers));
    WholeIsValid(buffers);
    var rest := ParseHeader(DEFAULT_HEADER, Reader(Concat(buffers), false)).1.rest;
    DropLeavesRest(Whole(buffers), |Concat(buffers)| - |rest|);
  }

  lemma AtBoundary(b: Buffers)
    requires b.Valid() && b.size > 0
    ensures BoundaryAt(b.list, b.skip) <==> b.skip == 0
  {
    SomethingLeft(b);
  }

  /** Where the cut falls, seen from the buffers given. */
  lemma CutSeenFromStart(buffers: seq<seq<u8>>, len: nat)
    requires NoneEmpty(buffers) && 0 < len < AfterHeader(buffers).size
    ensures var used := Minus(|Concat(buffers)|, AfterHeader(buffers).size);
            AfterHeader(buffers).skip == 0 && BoundaryAt(AfterHeader(buffers).list, len)
            <==> BoundaryAt(buffers, used) && BoundaryAt(buffers, used + len)
  {
    hide ParseHeader, Concat, NoneEmpty, Buffers.Drop, BoundaryAt;
    HeaderLeavesEnd(DEFAULT_HEADER, Concat(buffers));
    AfterHeaderHolds(buffers);
    WholeIsValid(buffers);
    var used := Minus(|Concat(buffers)|, AfterHeader(buffers).size);
    DropKeepsBoundaries(Whole(buffers), used, 0);
    DropKeepsBoundaries(Whole(buffers), used, len);
    AtBoundary(AfterHeader(buffers));
  }

  /** What `truncate` leaves is the first bytes, exactly when the cut falls right. */
  lemma TruncatesRight(b: Buffers, len: nat)
    requires b.Valid()
    ensures var cutsRight := b.size <= len || len == 0 || (b.skip == 0 && BoundaryAt(b.list, len));
            && (cutsRight ==> b.Truncate(len).size > 0 ==> b.Truncate(len).list != [])
            && (cutsRight <==> b.Truncate(len).Rest() == b.Rest()[..Min(len, b.size)])
  {
    TruncateIsPrefix(b, len);
    if b.Truncate(len).Valid() {
      SomethingLeft(b.Truncate(len));
    }
    if 0 < len < b.size {
      WholeBuffersIsPrefix(b.list, len);
    }
    hide Concat, NoneEmpty;
  }

  lemma CutsRightIs(buffers: seq<seq<u8>>, h: IPv4Header, r: Reader)
    requires NoneEmpty(buffers) && (h, r) == ParseHeader(DEFAULT_HEADER, Reader(Concat(buffers), false))
    ensures var b := AfterHeader(buffers);
            CutsRight(buffers) <==>
            b.size <= h.PayloadLength() || h.PayloadLength() == 0 || (b.skip == 0 && BoundaryAt(b.list, h.PayloadLength()))
  {
    hide ParseHeader, Concat, NoneEmpty, BoundaryAt, AfterHeader, Buffers.Rest, IPv4Header.PayloadLength;
    AfterHeaderHolds(buffers);
    assert AfterHeader(buffers).size == |r.rest|;
    if 0 < h.PayloadLength() < |r.rest| {
      CutSeenFromStart(buffers, h.PayloadLength());
    }
  }

  /** If the header is in order, parsing from buffers gives what parsing their bytes gives exactly when the cut falls right. */
  lemma PiecesParseAsBytes(buffers: seq<seq<u8>>)
    requires NoneEmpty(buffers)
    ensures var whole := ParseDatagram(Concat(buffers));
            && (CutsRight(buffers) ==> ParsePieces(buffers) == AsParsed(whole))
            && (whole.Some? && ParsePieces(buffers) == AsParsed(whole) ==> CutsRight(buffers))
  {
    hide ParseHeader, Concat, NoneEmpty, BoundaryAt, AfterHeader, Buffers.Truncate, Buffers.Rest, IPv4Header.PayloadLength;
    var (h, r) := ParseHeader(DEFAULT_HEADER, Reader(Concat(buffers), false));
    AfterHeaderHolds(buffers);
    TruncatesRight(AfterHeader(buffers), h.PayloadLength());
    CutsRightIs(buffers, h, r);
    hide CutsRight;
  }

  lemma WholeBuffersStart(list: seq<seq<u8>>, len: nat)
    ensures WholeBuffers(list, len) != [] ==> list != [] && WholeBuffers(list, len)[0] == list[0]
  {
  }

  /** Truncate what is left after the header, and take it. */
  method TakePayload(parser: Parser, h: IPv4Header) returns (payload: seq<seq<u8>>)
    requires parser.Valid()
    requires var left := parser.input.View().Truncate(h.PayloadLength()); left.size == 0 || left.list != []
    modifies parser.input
    ensures Concat(payload) == old(parser.input.View()).Truncate(h.PayloadLength()).Rest() && NoneEmpty(payload)
  {
    parser.InputIsValid();
    SomethingLeft(parser.input.View());
    WholeBuffersIsPrefix(parser.input.buffer, h.PayloadLength());
    WholeBuffersStart(parser.input.buffer, h.PayloadLength());
    hide Concat, WholeBuffers, Buffers.Rest;
    parser.input.Truncate(h.PayloadLength());
    payload := parser.input.DumpAll();
  }

  lemma InputIsAfterHeader(parser: Parser, buffers: seq<seq<u8>>)
    requires parser.Valid() && parser.original == buffers
    requires parser.View() == ParseHeader(DEFAULT_HEADER, Reader(Concat(buffers), false)).1
    ensures parser.input.View() == AfterHeader(buffers)
  {
    hide ParseHeader, Concat, Parser.Valid, Buffers.Drop, Whole;
    parser.InputIsDropped();
  }

  /**
   * Parse a datagram from non-empty buffers. If truncating leaves an empty list with a size, the source goes on to
   * take the front of that list, which is not defined.
   */
  method ParseDatagramFrom(buffers: seq<seq<u8>>) returns (d: Option<InternetDatagram>)
    requires NoneEmpty(buffers) && !ParsePieces(buffers).Undefined?
    ensures d.None? ==> ParsePieces(buffers) == Malformed
    ensures d.Some? ==> ParsePieces(buffers) == Complete(d.value.header, Concat(d.value.payload))
    ensures d.Some? ==> NoneEmpty(d.value.payload)
  {
    hide ParseHeader, Concat, NoneEmpty, Buffers.Drop, Buffers.Truncate, Buffers.Rest;
    var parser := new Parser(buffers);
    var h := ParseHeaderFrom(DEFAULT_HEADER, parser);
    InputIsAfterHeader(parser, buffers);
    var payload := TakePayload(parser, h);
    d := if parser.error then None else Some(InternetDatagram(h, payload));
  }

  lemma DropOfOne(buffer: seq<u8>, k: nat)
    requires buffer != []
    ensures var b := Whole([buffer]).Drop(k); b.list == [buffer] || b.list == []
  {
  }

  /**
   * A datagram in one buffer with bytes after it, once its header was read: `truncate` drops the whole buffer, and
   * with it the payload that the size still promises.
   */
  lemma TrailingBytesLoseThePayload(buffer: seq<u8>)
    requires buffer != [] && 0 < ParseHeader(DEFAULT_HEADER, Reader(buffer, false)).0.PayloadLength() < AfterHeader([buffer]).size
    ensures ParsePieces([buffer]).Undefined?
  {
    AfterHeaderHolds([buffer]);
    ConcatOne(buffer);
    var b := AfterHeader([buffer]);
    SomethingLeft(b);
    DropOfOne(buffer, Minus(|buffer|, b.size));
    hide ParseHeader, IPv4Header.PayloadLength;
  }
}
