/** TCP messages inside IPv4 datagrams. */
module TcpOverIp {
  import opened Machine
  import opened WrappingIntegers
  import opened TcpMessages
  import opened Checksums
  import opened BigEndians
  import opened Parsing
  import opened Ipv4
  import opened TcpSegments

  datatype Endpoint = Endpoint(ip: u32, port: u16)

  const NO_SEGMENT := TCPSegment(
    TCPMessage(SenderMessage(Wrap32(0), false, [], false, false), ReceiverMessage(None, 0, false)),
    UserDatagramInfo(0, 0, 0))

  /** The longest payload that survives: its TCP segment still fits 16 bits. */
  const MAX_TCP_PAYLOAD := 65515

  datatype Adapter = Adapter(source: Endpoint, destination: Endpoint, listening: bool) {

    /** The header for a message; the length is stored in 16 bits. */
    function BareHeader(msg: TCPMessage): IPv4Header {
      DEFAULT_HEADER.(
        src := source.ip, dst := destination.ip,
        len := (4 * DEFAULT_HEADER.hlen + TCP_HEADER_LENGTH + |msg.sender.payload|) % TWO16)
    }

    function WrapHeader(msg: TCPMessage): IPv4Header {
      BareHeader(msg).ComputeChecksum()
    }

    function WrapSegment(msg: TCPMessage): TCPSegment {
      TCPSegment(msg, UserDatagramInfo(source.port, destination.port, 0)).ComputeChecksum(BareHeader(msg).PseudoChecksum())
    }

    /** The bytes of the whole datagram. */
    function WrapBytes(msg: TCPMessage): seq<u8> {
      WrapHeader(msg).Encode(WrapSegment(msg).Encode())
    }

    predicate RejectsHeader(h: IPv4Header) {
      || (!listening && h.dst != source.ip)
      || (!listening && h.src != destination.ip)
      || h.proto != PROTO_TCP
    }

    /** The ports must match; a listening adapter takes the sender of the first SYN as its peer. */
    function AcceptSegment(seg: TCPSegment, h: IPv4Header): (Option<TCPMessage>, Adapter) {
      if seg.udinfo.dstPort != source.port then (None, this)
      else if listening && (!seg.message.sender.SYN || seg.message.sender.RST) then (None, this)
      else
        var a := if listening then Adapter(Endpoint(h.dst, source.port), Endpoint(h.src, seg.udinfo.srcPort), false) else this;
        (if seg.udinfo.srcPort != a.destination.port then None else Some(seg.message), a)
    }

    /** What becomes of a datagram with a given header and payload. */
    function Unwrap(h: IPv4Header, payload: seq<u8>): (Option<TCPMessage>, Adapter) {
      if RejectsHeader(h) then (None, this)
      else
        var (seg, r) := ParseSegment(NO_SEGMENT, Reader(payload, false), h.PseudoChecksum());
        if r.error then (None, this) else AcceptSegment(seg, h)
    }

    /** Parse a datagram, then unwrap it. */
    function Accept(bytes: seq<u8>): Option<TCPMessage> {
      match ParseDatagram(bytes)
      case None => None
      case Some((h, payload)) => Unwrap(h, payload).0
    }

    /** Parse a datagram from the buffers read, then unwrap it; nothing is accepted where parsing is not defined. */
    function ReadPieces(buffers: seq<seq<u8>>): (Option<TCPMessage>, Adapter) {
      match ParsePieces(buffers)
      case Complete(h, payload) => Unwrap(h, payload)
      case _ => (None, this)
    }

    function Mirrored(): Adapter {
      Adapter(destination, source, listening)
    }
  }

  lemma PseudoChecksumFits(h: IPv4Header)
    ensures h.PseudoChecksum() <= 8 * 65535
  {
  }

  lemma PseudoIgnoresChecksum(h: IPv4Header)
    ensures h.ComputeChecksum().PseudoChecksum() == h.PseudoChecksum()
  {
    hide Check.Add, Check.Value, IPv4Header.Encode;
  }

  lemma TwiceReduced(n: nat)
    ensures ((40 + n) % TWO16 - 20) % TWO16 == (20 + n) % TWO16
  {
  }

  /** Both length fields are 16 bits wide, and the second reduction makes up for the first. */
  lemma WrappedPayloadLength(a: Adapter, msg: TCPMessage)
    ensures a.WrapHeader(msg).PayloadLength() == (TCP_HEADER_LENGTH + |msg.sender.payload|) % TWO16
  {
    hide Check.Add, Check.Value, IPv4Header.Encode;
    TwiceReduced(|msg.sender.payload|);
  }

  lemma WrappedLengths(a: Adapter, msg: TCPMessage)
    requires |msg.sender.payload| <= MAX_TCP_PAYLOAD
    ensures a.WrapHeader(msg).PayloadLength() == TCP_HEADER_LENGTH + |msg.sender.payload| == |a.WrapSegment(msg).Encode()|
    ensures a.WrapHeader(msg).PseudoChecksum() == a.BareHeader(msg).PseudoChecksum() <= 8 * 65535
  {
    var h := a.BareHeader(msg);
    PseudoChecksumFits(h);
    PseudoIgnoresChecksum(h);
    WrappedPayloadLength(a, msg);
    hide TCPSegment.Encode, TCPSegment.ComputeChecksum, IPv4Header.ComputeChecksum,
      IPv4Header.PseudoChecksum, IPv4Header.PayloadLength, Adapter.BareHeader;
    SegmentChecksumVerifies(TCPSegment(msg, UserDatagramInfo(a.source.port, a.destination.port, 0)), h.PseudoChecksum());
  }

  lemma HeaderComesBack(a: Adapter, msg: TCPMessage, tail: seq<u8>)
    ensures ParseHeader(DEFAULT_HEADER, Reader(a.WrapHeader(msg).Encode(tail), false)) == (a.WrapHeader(msg), Reader(tail, false))
  {
    HeaderRoundTrip(a.BareHeader(msg), DEFAULT_HEADER, tail);
  }

  /** What parsing makes of a header followed by some bytes. */
  lemma HeaderThenBytes(a: Adapter, msg: TCPMessage, bytes: seq<u8>)
    ensures var wire, length := a.WrapHeader(msg).Encode(bytes), a.WrapHeader(msg).PayloadLength();
            && (NothingFollows(wire) <==> |bytes| <= length)
            && ParseDatagram(wire) == Some((a.WrapHeader(msg), bytes[..Min(|bytes|, length)]))
  {
    HeaderComesBack(a, msg, bytes);
    hide ParseHeader, IPv4Header.Encode, Adapter.WrapHeader, IPv4Header.PayloadLength;
  }

  /** The datagram is parsed into its header and the whole segment, with nothing to cut off. */
  lemma DatagramComesBack(a: Adapter, msg: TCPMessage)
    requires |msg.sender.payload| <= MAX_TCP_PAYLOAD
    ensures NothingFollows(a.WrapBytes(msg))
    ensures ParseDatagram(a.WrapBytes(msg)) == Some((a.WrapHeader(msg), a.WrapSegment(msg).Encode()))
  {
    hide ParseDatagram, NothingFollows, TCPSegment.Encode, IPv4Header.Encode, Adapter.WrapSegment, Adapter.WrapHeader,
      IPv4Header.PayloadLength, IPv4Header.PseudoChecksum, Adapter.BareHeader;
    var bytes := a.WrapSegment(msg).Encode();
    WrappedLengths(a, msg);
    HeaderThenBytes(a, msg, bytes);
    assert bytes[..|bytes|] == bytes;
  }

  lemma SegmentComesBack(a: Adapter, msg: TCPMessage)
    requires |msg.sender.payload| <= MAX_TCP_PAYLOAD
    ensures var (seg, r) := ParseSegment(NO_SEGMENT, Reader(a.WrapSegment(msg).Encode(), false), a.WrapHeader(msg).PseudoChecksum());
            && !r.error && seg.message == msg.ResetShared()
            && seg.udinfo.srcPort == a.source.port && seg.udinfo.dstPort == a.destination.port
  {
    WrappedLengths(a, msg);
    var seg := TCPSegment(msg, UserDatagramInfo(a.source.port, a.destination.port, 0));
    SegmentRoundTrip(seg, NO_SEGMENT, a.BareHeader(msg).PseudoChecksum());
    hide ParseSegment, TCPSegment.Encode, Check.Add, Check.Value, Adapter.BareHeader, IPv4Header.PseudoChecksum, Adapter.WrapHeader;
  }

  /** Between mirrored adapters every message that fits comes back, with the two RST flags made one. */
  lemma RoundTrip(a: Adapter, msg: TCPMessage)
    requires !a.listening && |msg.sender.payload| <= MAX_TCP_PAYLOAD
    ensures a.Mirrored().Accept(a.WrapBytes(msg)) == Some(msg.ResetShared())
  {
    DatagramComesBack(a, msg);
    SegmentComesBack(a, msg);
    assert !a.Mirrored().RejectsHeader(a.WrapHeader(msg));
    hide ParseSegment, ParseDatagram, TCPSegment.Encode, Adapter.WrapHeader, Adapter.WrapSegment, Adapter.WrapBytes;
  }

  lemma UnwrapKeepsAdapter(a: Adapter, h: IPv4Header, payload: seq<u8>)
    requires !a.listening
    ensures a.Unwrap(h, payload).1 == a
  {
    hide ParseSegment, IPv4Header.PseudoChecksum;
  }

  /** However the datagram is cut into non-empty buffers, it is read back whole. */
  lemma RoundTripHoweverCut(a: Adapter, msg: TCPMessage, cut: seq<seq<u8>>)
    requires !a.listening && |msg.sender.payload| <= MAX_TCP_PAYLOAD
    requires NoneEmpty(cut) && Concat(cut) == a.WrapBytes(msg)
    ensures ParsePieces(cut) == Complete(a.WrapHeader(msg), a.WrapSegment(msg).Encode())
    ensures a.Mirrored().ReadPieces(cut) == (Some(msg.ResetShared()), a.Mirrored())
  {
    hide ParseDatagram, NothingFollows, ParsePieces, Adapter.WrapBytes, Adapter.WrapHeader, Adapter.WrapSegment,
      TCPSegment.Encode, ParseSegment;
    DatagramComesBack(a, msg);
    PiecesParseAsBytes(cut);
    RoundTrip(a, msg);
    UnwrapKeepsAdapter(a.Mirrored(), a.WrapHeader(msg), a.WrapSegment(msg).Encode());
  }

  // ---- A payload that does not fit ----

  lemma FrontShrinks(seg: TCPSegment, r: Reader)
    ensures |ParseSegmentTop(seg, r).2.rest| <= |r.rest|
    ensures ParseSegmentTop(seg, r).0.message.sender.payload == seg.message.sender.payload
  {
    hide BigEndian;
  }

  /** No parsed payload is longer than what was parsed. */
  lemma PayloadShrinks(r: Reader, pseudo: u32)
    ensures |ParseSegment(NO_SEGMENT, r, pseudo).0.message.sender.payload| <= |r.rest|
  {
    FrontShrinks(NO_SEGMENT, r);
    hide ParseSegmentTop, Check.Add, Check.Value, BigEndian;
  }

  /** Nothing an adapter accepts is longer than what it was given. */
  lemma AcceptedIsShorter(b: Adapter, h: IPv4Header, bytes: seq<u8>, msg: TCPMessage)
    requires |bytes| < |msg.sender.payload|
    ensures b.Unwrap(h, bytes).0 != Some(msg)
  {
    PayloadShrinks(Reader(bytes, false), h.PseudoChecksum());
    hide ParseSegment, IPv4Header.PseudoChecksum;
  }

  /** Truncating leaves at most what it is asked for, wherever the buffers end. */
  lemma TruncatedIsShort(b: Buffers, len: nat)
    requires b.Valid()
    ensures |b.Truncate(len).Rest()| <= len
  {
    if 0 < len < b.size {
      WholeBuffersIsPrefix(b.list, len);
    }
  }

  lemma PayloadOfPiecesIsShort(buffers: seq<seq<u8>>)
    requires NoneEmpty(buffers)
    ensures var (h, r) := ParseHeader(DEFAULT_HEADER, Reader(Concat(buffers), false));
            ParsePieces(buffers).Complete? ==>
              ParsePieces(buffers).header == h && |ParsePieces(buffers).payload| <= h.PayloadLength()
  {
    hide ParseHeader, Buffers.Truncate, Buffers.Rest, IPv4Header.PayloadLength;
    AfterHeaderHolds(buffers);
    TruncatedIsShort(AfterHeader(buffers), ParseHeader(DEFAULT_HEADER, Reader(Concat(buffers), false)).0.PayloadLength());
  }

  /** Whatever the buffers and the adapter, a message that is too long does not come back. */
  lemma TooLongIsLostHoweverCut(a: Adapter, b: Adapter, msg: TCPMessage, cut: seq<seq<u8>>)
    requires |msg.sender.payload| > MAX_TCP_PAYLOAD
    requires NoneEmpty(cut) && Concat(cut) == a.WrapBytes(msg)
    ensures b.ReadPieces(cut).0 != Some(msg.ResetShared())
  {
    hide ParseHeader, ParsePieces, Adapter.WrapHeader, Adapter.WrapSegment, IPv4Header.Encode, TCPSegment.Encode,
      IPv4Header.PayloadLength, Adapter.Unwrap;
    HeaderComesBack(a, msg, a.WrapSegment(msg).Encode());
    WrappedPayloadLength(a, msg);
    PayloadOfPiecesIsShort(cut);
    if ParsePieces(cut).Complete? {
      AcceptedIsShorter(b, ParsePieces(cut).header, ParsePieces(cut).payload, msg.ResetShared());
    }
  }

  /**
   * A message survives wrapping, serializing, any cut into non-empty buffers, parsing (with `truncate` as it is) and
   * unwrapping exactly when its payload has at most 65515 bytes.
   */
  lemma SurvivesExactlyIfItFits(a: Adapter, msg: TCPMessage, cut: seq<seq<u8>>)
    requires !a.listening && NoneEmpty(cut) && Concat(cut) == a.WrapBytes(msg)
    ensures a.Mirrored().ReadPieces(cut).0 == Some(msg.ResetShared()) <==> |msg.sender.payload| <= MAX_TCP_PAYLOAD
  {
    hide ParsePieces, Adapter.ReadPieces, Adapter.WrapBytes;
    if |msg.sender.payload| <= MAX_TCP_PAYLOAD {
      RoundTripHoweverCut(a, msg, cut);
    } else {
      TooLongIsLostHoweverCut(a, a.Mirrored(), msg, cut);
    }
  }

  // ---- The adapter ----

  class TCPOverIPv4Adapter {
    var source: Endpoint
    var destination: Endpoint
    var listening: bool

    ghost function View(): Adapter
      reads this
    {
      Adapter(source, destination, listening)
    }

    constructor (source: Endpoint, destination: Endpoint, listening: bool)
      ensures View() == Adapter(source, destination, listening)
    {
      this.source, this.destination, this.listening := source, destination, listening;
    }

    method WrapTcpInIp(msg: TCPMessage) returns (d: InternetDatagram)
      ensures d.header == View().WrapHeader(msg) && Concat(d.payload) == View().WrapSegment(msg).Encode()
      ensures EncodeDatagram(d) == View().WrapBytes(msg) && NoneEmpty(d.payload)
    {
      var payloadSize := |msg.sender.payload|;
      var seg := TCPSegment(msg, UserDatagramInfo(source.port, destination.port, 0));
      var header := DEFAULT_HEADER.(
        src := source.ip, dst := destination.ip,
        len := (4 * DEFAULT_HEADER.hlen + TCP_HEADER_LENGTH + payloadSize) % TWO16);
      hide TCPSegment.Encode, TCPSegment.ComputeChecksum, IPv4Header.Encode, IPv4Header.ComputeChecksum, Concat;
      seg := ComputeSegmentChecksum(seg, header.PseudoChecksum());
      header := ComputeHeaderChecksum(header);
      var s := new Serializer();
      assert NoneEmpty(s.output);
      SerializeSegment(seg, s);
      var payload := s.Finish();
      d := InternetDatagram(header, payload);
    }

    /** `unwrap_tcp_in_ip` once the segment is parsed. */
    method AcceptSegment(seg: TCPSegment, h: IPv4Header) returns (msg: Option<TCPMessage>)
      modifies this
      ensures (msg, View()) == old(View()).AcceptSegment(seg, h)
    {
      msg := None;
      if seg.udinfo.dstPort != source.port {
        return;
      }
      if listening {
        if seg.message.sender.SYN && !seg.message.sender.RST {
          source := Endpoint(h.dst, source.port);
          destination := Endpoint(h.src, seg.udinfo.srcPort);
          listening := false;
        } else {
          return;
        }
      }
      if seg.udinfo.srcPort != destination.port {
        return;
      }
      msg := Some(seg.message);
    }

    method UnwrapTcpInIp(d: InternetDatagram) returns (msg: Option<TCPMessage>)
      requires NoneEmpty(d.payload)
      modifies this
      ensures (msg, View()) == old(View()).Unwrap(d.header, Concat(d.payload))
    {
      msg := None;
      if !listening && d.header.dst != source.ip {
        return;
      }
      if !listening && d.header.src != destination.ip {
        return;
      }
      if d.header.proto != PROTO_TCP {
        return;
      }
      hide ParseSegment, Concat, NoneEmpty, IPv4Header.PseudoChecksum, Adapter.AcceptSegment;
      var parser := new Parser(d.payload);
      var seg := ParseSegmentFrom(NO_SEGMENT, parser, d.header.PseudoChecksum());
      if parser.error {
        return;
      }
      msg := AcceptSegment(seg, d.header);
    }

    /** Read a datagram from its buffers: what a mirrored adapter wrapped comes back, however it was cut. */
    method Read(buffers: seq<seq<u8>>) returns (msg: Option<TCPMessage>)
      requires NoneEmpty(buffers) && !ParsePieces(buffers).Undefined?
      modifies this
      ensures (msg, View()) == old(View()).ReadPieces(buffers)
      ensures forall sent: TCPMessage ::
                !old(listening) && |sent.sender.payload| <= MAX_TCP_PAYLOAD && Concat(buffers) == old(View()).Mirrored().WrapBytes(sent)
                ==> msg == Some(sent.ResetShared())
    {
      hide ParsePieces, Adapter.Unwrap, Adapter.WrapBytes, Concat, NoneEmpty;
      ghost var a := View();
      forall sent: TCPMessage | !listening && |sent.sender.payload| <= MAX_TCP_PAYLOAD && Concat(buffers) == a.Mirrored().WrapBytes(sent)
        ensures a.ReadPieces(buffers).0 == Some(sent.ResetShared())
      {
        RoundTripHoweverCut(a.Mirrored(), sent, buffers);
      }
      msg := None;
      var d := ParseDatagramFrom(buffers);
      if d.Some? {
        msg := UnwrapTcpInIp(d.value);
      }
    }
  }
}
