/** Integers on the wire, byte by byte. */
module WireFields {
  import opened Machine
  import opened BigEndians
  import opened Parsing

  /** 16 bits, high byte first. */
  function Short(v: u16): seq<u8> {
    [v / 0x100, v % 0x100]
  }

  /** 32 bits, high byte first. */
  function Word(v: u32): seq<u8> {
    Short(v / 0x1_0000) + Short(v % 0x1_0000)
  }

  function ShortAt(bytes: seq<u8>, i: nat): u16
    requires i + 2 <= |bytes|
  {
    var a: nat, b: nat := bytes[i], bytes[i + 1];
    0x100 * a + b
  }

  function WordAt(bytes: seq<u8>, i: nat): u32
    requires i + 4 <= |bytes|
  {
    var high: nat, low: nat := ShortAt(bytes, i), ShortAt(bytes, i + 2);
    0x1_0000 * high + low
  }

  lemma OneMoreByte(v: nat, width: nat)
    ensures ToBytes(v, width + 1) == ToBytes(v / 0x100, width) + [v % 0x100]
    ensures ToBytes(v, 0) == []
  {
  }

  lemma ByteIs(b: u8)
    ensures ToBytes(b, 1) == [b]
  {
    hide ToBytes;
    OneMoreByte(b, 0);
    OneMoreByte(b / 0x100, 0);
    assert b % 0x100 == b;
    assert [] + [b] == [b];
  }

  lemma ShortIs(s: u16)
    ensures ToBytes(s, 2) == Short(s)
  {
    OneMoreByte(s, 1);
    hide ToBytes;
    ByteIs(s / 0x100);
  }

  lemma QuotientTwice(v: nat)
    ensures v / 0x100 / 0x100 == v / 0x1_0000
    ensures v % 0x1_0000 / 0x100 == v / 0x100 % 0x100 && v % 0x1_0000 % 0x100 == v % 0x100
  {
  }

  lemma WordIs(w: u32)
    ensures ToBytes(w, 4) == Word(w)
  {
    QuotientTwice(w);
    OneMoreByte(w, 3);
    OneMoreByte(w / 0x100, 2);
    ShortIs(w / 0x1_0000);
    hide ToBytes;
  }

  lemma FieldOfBytes(a: u8, b: u8, c: u8, d: u8)
    ensures BigEndian([a]) == a && BigEndian([a, b]) == 256 * a + b
    ensures BigEndian([a, b, c, d]) == 0x100_0000 * a + 0x1_0000 * b + 0x100 * c + d
  {
    assert [a][..0] == [] && [a, b][..1] == [a] && [a, b, c][..2] == [a, b] && [a, b, c, d][..3] == [a, b, c];
    assert BigEndian([a, b, c]) == 256 * BigEndian([a, b]) + c;
  }

  /** The reader at an offset. */
  function At(bytes: seq<u8>, i: nat): Reader
    requires i <= |bytes|
  {
    Reader(bytes[i..], false)
  }

  lemma ReadsByte(bytes: seq<u8>, i: nat, before: u8)
    requires i + 1 <= |bytes|
    ensures At(bytes, i).U8(before) == (bytes[i], At(bytes, i + 1))
  {
    assert bytes[i..][..1] == [bytes[i]];
    FieldOfBytes(bytes[i], 0, 0, 0);
    hide BigEndian;
  }

  lemma ReadsShort(bytes: seq<u8>, i: nat, before: u16)
    requires i + 2 <= |bytes|
    ensures At(bytes, i).U16(before) == (ShortAt(bytes, i), At(bytes, i + 2))
  {
    assert bytes[i..][..2] == [bytes[i], bytes[i + 1]];
    FieldOfBytes(bytes[i], bytes[i + 1], 0, 0);
    hide BigEndian;
  }

  lemma ReadsWord(bytes: seq<u8>, i: nat, before: u32)
    requires i + 4 <= |bytes|
    ensures At(bytes, i).U32(before) == (WordAt(bytes, i), At(bytes, i + 4))
  {
    assert bytes[i..][..4] == [bytes[i], bytes[i + 1], bytes[i + 2], bytes[i + 3]];
    FieldOfBytes(bytes[i], bytes[i + 1], bytes[i + 2], bytes[i + 3]);
    hide BigEndian;
  }

  /** Reading succeeds exactly if there are enough bytes, and an error stays. */
  lemma ReadingConsumes(r: Reader, width: nat, before: nat)
    ensures var r' := r.Integer(width, before).1;
            && (r'.error <==> r.error || |r.rest| < width)
            && |r'.rest| == if r'.error then |r.rest| else |r.rest| - width
  {
    hide BigEndian;
  }
}
