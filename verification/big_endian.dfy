/** Big-endian integers. */
module BigEndians {
  import opened Machine

  function BigEndian(bytes: seq<u8>): nat {
    if bytes == [] then 0 else 256 * BigEndian(bytes[..|bytes| - 1]) + bytes[|bytes| - 1]
  }

  function ToBytes(val: nat, width: nat): (bytes: seq<u8>)
    ensures |bytes| == width
  {
    if width == 0 then [] else ToBytes(val / 256, width - 1) + [val % 256]
  }

  function Pow256(k: nat): nat {
    if k == 0 then 1 else 256 * Pow256(k - 1)
  }

  /** Right shift by k bytes. */
  function ShiftRight(val: nat, k: nat): nat {
    if k == 0 then val else ShiftRight(val, k - 1) / 256
  }

  lemma {:induction false} RoundTrip(val: nat, width: nat)
    requires val < Pow256(width)
    ensures BigEndian(ToBytes(val, width)) == val
  {
    if width == 0 {
    } else {
      RoundTrip(val / 256, width - 1);
      assert ToBytes(val, width)[..width - 1] == ToBytes(val / 256, width - 1);
    }
  }

  lemma {:induction false} RoundTripBack(bytes: seq<u8>)
    ensures BigEndian(bytes) < Pow256(|bytes|) && ToBytes(BigEndian(bytes), |bytes|) == bytes
  {
    if bytes == [] {
    } else {
      var n := |bytes| - 1;
      RoundTripBack(bytes[..n]);
      assert bytes == bytes[..n] + [bytes[n]];
    }
  }
}
