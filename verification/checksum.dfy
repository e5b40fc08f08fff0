/** The Internet checksum (RFC 1071): a one's-complement sum of 16-bit words. */
module Checksums {
  import opened Machine

  /** What a byte adds to the sum: the first of each pair is the high half of a word. */
  function Weigh(b: u8, odd: bool): nat {
    if odd then b else 256 * b
  }

  predicate IsOdd(n: nat) {
    n % 2 == 1
  }

  /** The sum of a sequence of bytes when an odd or even number of bytes came before, without wrap-around. */
  function ByteSum(data: seq<u8>, odd: bool): nat {
    if data == [] then 0
    else
      var n := |data| - 1;
      ByteSum(data[..n], odd) + Weigh(data[n], odd != IsOdd(n))
  }

  /** Adding the carries back in until 16 bits are left. */
  function Fold(x: nat): (r: u16)
    ensures x > 0 ==> r > 0
  {
    if x > 0xffff then Fold(x / 0x10000 + x % 0x10000) else x
  }

  /** The state of a checksum computation. */
  datatype Check = Check(sum: u32, odd: bool) {

    function Add(data: seq<u8>): Check {
      Check((sum + ByteSum(data, odd)) % TWO32, odd != IsOdd(|data|))
    }

    function Value(): u16 {
      65535 - Fold(sum)
    }
  }

  lemma SameRemainder(y: nat, q: nat)
    ensures (65535 * q + y) % 65535 == y % 65535
  {
  }

  /** Folding keeps the remainder modulo 65535, and only 0 folds to 0. */
  lemma {:induction false} FoldIsRemainder(x: nat)
    ensures Fold(x) == if x > 0 && x % 65535 == 0 then 65535 else x % 65535
  {
    if x <= 0xffff {
    } else {
      var q, r := x / 0x10000, x % 0x10000;
      FoldIsRemainder(q + r);
      assert x == 65535 * q + (q + r);
      SameRemainder(q + r, q);
    }
  }

  /** Splitting the bytes makes no difference. */
  lemma {:induction false} ByteSumSplits(a: seq<u8>, b: seq<u8>, odd: bool)
    ensures ByteSum(a + b, odd) == ByteSum(a, odd) + ByteSum(b, odd != IsOdd(|a|))
  {
    if b == [] {
      assert a + b == a;
    } else {
      assert (a + b)[..|a + b| - 1] == a + b[..|b| - 1];
      ByteSumSplits(a, b[..|b| - 1], odd);
    }
  }

  lemma WrapTwice(s: nat, x: nat, y: nat)
    ensures ((s + x) % TWO32 + y) % TWO32 == (s + x + y) % TWO32
  {
  }

  lemma OddSum(a: nat, b: nat)
    ensures IsOdd(a + b) <==> IsOdd(a) != IsOdd(b)
  {
  }

  lemma AddSplits(c: Check, a: seq<u8>, b: seq<u8>)
    ensures c.Add(a).Add(b) == c.Add(a + b)
  {
    ByteSumSplits(a, b, c.odd);
    OddSum(|a|, |b|);
    WrapTwice(c.sum, ByteSum(a, c.odd), ByteSum(b, c.odd != IsOdd(|a|)));
    hide ByteSum, IsOdd;
  }

  lemma AddOne(c: Check, data: seq<u8>, i: nat)
    requires i < |data|
    ensures var before := c.Add(data[..i]);
            c.Add(data[..i + 1]) == Check((before.sum + Weigh(data[i], before.odd)) % TWO32, !before.odd)
  {
    assert data[..i + 1][..i] == data[..i];
    OddSum(i, 1);
    WrapTwice(c.sum, ByteSum(data[..i], c.odd), Weigh(data[i], c.odd != IsOdd(i)));
  }

  function Concat(pieces: seq<seq<u8>>): seq<u8> {
    if pieces == [] then [] else Concat(pieces[..|pieces| - 1]) + pieces[|pieces| - 1]
  }

  function AddAll(c: Check, pieces: seq<seq<u8>>): Check {
    if pieces == [] then c else AddAll(c, pieces[..|pieces| - 1]).Add(pieces[|pieces| - 1])
  }

  /** The checksum depends on the bytes only, not on how they are split into buffers. */
  lemma {:induction false} SplitDoesNotMatter(c: Check, pieces: seq<seq<u8>>)
    ensures AddAll(c, pieces) == c.Add(Concat(pieces))
  {
    if pieces == [] {
    } else {
      var n := |pieces| - 1;
      SplitDoesNotMatter(c, pieces[..n]);
      AddSplits(c, Concat(pieces[..n]), pieces[n]);
    }
  }

  lemma {:induction false} ByteSumBound(data: seq<u8>, odd: bool)
    ensures ByteSum(data, odd) <= 65280 * |data|
  {
    if data == [] {
    } else {
      ByteSumBound(data[..|data| - 1], odd);
    }
  }

  /** Up to 65535 bytes the 32-bit sum does not wrap around, so the value is a function of the true sum. */
  lemma ValueOfBytes(start: u32, data: seq<u8>)
    requires |data| <= 65535 && start <= 8 * 65535
    ensures Check(start, false).Add(data).sum == start + ByteSum(data, false)
    ensures Check(start, false).Add(data).Value() == 65535 - Fold(start + ByteSum(data, false))
  {
    ByteSumBound(data, false);
    hide ByteSum, Fold;
  }

  /** The sum of the 16-bit big-endian words of some bytes; an odd last byte is the high half of a word. */
  function WordSum(data: seq<u8>): nat {
    if data == [] then 0
    else if |data| == 1 then 256 * data[0]
    else 256 * data[0] + data[1] + WordSum(data[2..])
  }

  lemma TwoBytes(a: u8, b: u8)
    ensures ByteSum([a], false) == 256 * a && ByteSum([a, b], false) == 256 * a + b
  {
    assert [a, b][..1] == [a] && [a][..0] == [];
  }

  lemma {:induction false} ByteSumIsWordSum(data: seq<u8>)
    ensures ByteSum(data, false) == WordSum(data)
  {
    if data == [] {
    } else if |data| == 1 {
      assert data == [data[0]];
      TwoBytes(data[0], 0);
    } else {
      assert data == [data[0], data[1]] + data[2..];
      TwoBytes(data[0], data[1]);
      ByteSumSplits([data[0], data[1]], data[2..], false);
      ByteSumIsWordSum(data[2..]);
      hide ByteSum;
    }
  }

  /** The value is 0 exactly for a sum, in 32 bits, that is a positive multiple of 65535. */
  lemma ValueIsZero(start: u32, data: seq<u8>)
    ensures var sum := (start + WordSum(data)) % TWO32;
            Check(start, false).Add(data).Value() == 0 <==> sum > 0 && sum % 65535 == 0
  {
    ByteSumIsWordSum(data);
    FoldIsRemainder((start + WordSum(data)) % TWO32);
    hide ByteSum, WordSum, Fold;
  }

  lemma OneByteSum(b: u8, odd: bool)
    ensures ByteSum([b], odd) == Weigh(b, odd)
  {
    assert [b][..0] == [];
  }

  lemma CutAt(data: seq<u8>, i: nat)
    requires i < |data|
    ensures data == data[..i] + ([data[i]] + data[i + 1..])
  {
  }

  lemma ByteSumAt(data: seq<u8>, i: nat)
    requires i < |data|
    ensures ByteSum(data, false) == ByteSum(data[..i], false) + Weigh(data[i], IsOdd(i)) + ByteSum(data[i + 1..], IsOdd(i + 1))
  {
    assert IsOdd(1);
    hide ByteSum, IsOdd, Weigh;
    var front, one, rest := data[..i], [data[i]], data[i + 1..];
    CutAt(data, i);
    ByteSumSplits(front, one + rest, false);
    ByteSumSplits(one, rest, IsOdd(i));
    OneByteSum(data[i], IsOdd(i));
    OddSum(i, 1);
  }

  lemma SumsDiffer(x: nat, y: nat)
    requires x < y < x + 65535
    ensures x % 65535 != y % 65535
  {
  }

  /** A single changed byte is always noticed, in up to 65535 bytes. */
  lemma OneByteIsNoticed(start: u32, data: seq<u8>, i: nat, b: u8)
    requires |data| <= 65535 && start <= 8 * 65535 && i < |data| && b != data[i]
    requires Check(start, false).Add(data).Value() == 0
    ensures Check(start, false).Add(data[i := b]).Value() != 0
  {
    hide ByteSum, Fold, Check.Add, Check.Value, IsOdd;
    var data' := data[i := b];
    var sum, sum' := start + ByteSum(data, false), start + ByteSum(data', false);
    ByteSumAt(data, i);
    ByteSumAt(data', i);
    assert data'[..i] == data[..i] && data'[i + 1..] == data[i + 1..];
    ValueOfBytes(start, data);
    ValueOfBytes(start, data');
    FoldIsRemainder(sum);
    FoldIsRemainder(sum');
    if sum < sum' {
      SumsDiffer(sum, sum');
    } else {
      SumsDiffer(sum', sum);
    }
  }

  /** The 16-bit big-endian field. */
  function Field(c: u16): seq<u8> {
    [c / 256, c % 256]
  }

  lemma FieldSum(c: u16)
    ensures ByteSum(Field(c), false) == c
  {
    assert Field(c)[..1] == [c / 256] && [c / 256][..0] == [];
    assert ByteSum([c / 256], false) == 256 * (c / 256);
  }

  lemma FieldInside(before: seq<u8>, c: u16, after: seq<u8>)
    requires |before| % 2 == 0
    ensures ByteSum(before + Field(c) + after, false) == ByteSum(before, false) + c + ByteSum(after, false)
  {
    ByteSumSplits(before + Field(c), after, false);
    ByteSumSplits(before, Field(c), false);
    FieldSum(c);
  }

  lemma ComplementFolds(sum: nat)
    ensures Fold(sum + (65535 - Fold(sum))) == 65535
  {
    FoldIsRemainder(sum);
    FoldIsRemainder(sum + (65535 - Fold(sum)));
    SameRemainder(65535, sum / 65535);
  }

  /**
   * A message whose checksum field, at an even offset, was computed with the field set to 0 has the checksum
   * value 0, whatever the pseudo-header contributes.
   */
  lemma ComputedChecksumVerifies(start: u32, before: seq<u8>, after: seq<u8>)
    requires |before| % 2 == 0 && |before| + 2 + |after| <= 65535 && start <= 8 * 65535
    ensures var c := Check(start, false).Add(before + Field(0) + after).Value();
            Check(start, false).Add(before + Field(c) + after).Value() == 0
  {
    var sum := start + ByteSum(before, false) + ByteSum(after, false);
    var c := Check(start, false).Add(before + Field(0) + after).Value();
    FieldInside(before, 0, after);
    FieldInside(before, c, after);
    ValueOfBytes(start, before + Field(0) + after);
    ValueOfBytes(start, before + Field(c) + after);
    hide ByteSum, Field, Fold, Check.Add, Check.Value;
    ComplementFolds(sum);
  }

  class InternetChecksum {
    var sum: u32
    var parity: bool

    ghost function View(): Check
      reads this
    {
      Check(sum, parity)
    }

    constructor (sum: u32)
      ensures View() == Check(sum, false)
    {
      this.sum, parity := sum, false;
    }

    method Add(data: seq<u8>)
      modifies this
      ensures View() == old(View()).Add(data)
    {
      var i := 0;
      while i < |data|
        invariant i <= |data|
        invariant View() == old(View()).Add(data[..i])
      {
        AddOne(old(View()), data, i);
        var val: u16 := data[i];
        if !parity {
          val := 256 * val;
        }
        sum := (sum + val) % TWO32;
        parity := !parity;
        i := i + 1;
      }
      assert data[..i] == data;
    }

    method AddBuffers(pieces: seq<seq<u8>>)
      modifies this
      ensures View() == old(View()).Add(Concat(pieces))
    {
      var i := 0;
      while i < |pieces|
        invariant i <= |pieces|
        invariant View() == old(View()).Add(Concat(pieces[..i]))
      {
        assert pieces[..i + 1][..i] == pieces[..i];
        AddSplits(old(View()), Concat(pieces[..i]), pieces[i]);
        Add(pieces[i]);
        i := i + 1;
      }
      assert pieces[..i] == pieces;
    }

    method Value() returns (value: u16)
      ensures value == View().Value()
    {
      var ret: nat := sum;
      while ret > 0xffff
        invariant Fold(ret) == Fold(sum)
        decreases ret
      {
        ret := ret / 0x10000 + ret % 0x10000;
      }
      value := 65535 - ret;
    }
  }
}
