/** 32-bit sequence numbers that wrap around, and the search that turns one back into a 64-bit number. */
module WrappingIntegers {
  import opened Machine

  /** `quotient * 2^32 + diff` in 64-bit arithmetic. */
  function Candidate(quotient: nat, diff: u32): (r: u64)
    ensures quotient < TWO32 ==> r == quotient * TWO32 + diff
    ensures quotient == TWO32 ==> r == diff
  {
    (quotient * TWO32 + diff) % TWO64
  }

  /** The winner after `rounds` rounds of the search. */
  ghost function Best(checkpoint: u64, diff: u32, mult: nat, rounds: nat): u64 {
    if rounds == 0 then
      if mult == 0 then diff else Candidate(mult - 1, diff)
    else
      var before := Best(checkpoint, diff, mult, rounds - 1);
      var next := Candidate(mult + rounds - 1, diff);
      if Distance(checkpoint, next) < Distance(checkpoint, before) then next else before
  }

  datatype Wrap32 = Wrap32(raw: u32) {

    function Plus(n: u32): Wrap32 {
      Wrap32((raw + n) % TWO32)
    }

    /** How far this number lies after `zero`, modulo 2^32. */
    function Offset(zero: Wrap32): u32 {
      (raw - zero.raw) % TWO32
    }

    /**
     * The 64-bit number this one stands for: the largest candidate not above the checkpoint, or the
     * next one up when that is strictly nearer and still fits in 64 bits.
     */
    function Unwrap(zero: Wrap32, checkpoint: u64): u64 {
      var offset := Offset(zero);
      if checkpoint < offset then offset
      else
        var below := checkpoint - (checkpoint - offset) % TWO32;
        if below + TWO32 < TWO64 && below + TWO32 - checkpoint < checkpoint - below then below + TWO32 else below
    }

    /** The source's search: try the candidates with quotient mult - 1, mult and mult + 1. */
    method UnwrapBySearch(zero: Wrap32, checkpoint: u64) returns (closest: u64)
      ensures closest == Unwrap(zero, checkpoint)
    {
      var diff := Offset(zero);
      var mult := checkpoint / TWO32;
      closest := if mult == 0 then diff else Candidate(mult - 1, diff);
      var currentDiff := Distance(checkpoint, closest);
      var x := mult;
      while x <= mult + 1
        invariant mult <= x <= mult + 2
        invariant currentDiff == Distance(checkpoint, closest)
        invariant closest == Best(checkpoint, diff, mult, x - mult)
      {
        var newClosest := Candidate(x, diff);
        var newDiff := Distance(checkpoint, newClosest);
        if newDiff < currentDiff {
          closest := newClosest;
          currentDiff := newDiff;
        }
        x := x + 1;
      }
      BestOfThreeIsUnwrap(this, zero, checkpoint);
    }
  }

  /** Where the largest number congruent to `diff` and not above the checkpoint lies. */
  lemma LargestBelow(checkpoint: u64, diff: u32)
    ensures var low := checkpoint % TWO32;
            (checkpoint - diff) % TWO32 == if diff <= low then low - diff else TWO32 + low - diff
  {
  }

  lemma BestOfThreeIsUnwrap(w: Wrap32, zero: Wrap32, checkpoint: u64)
    ensures Best(checkpoint, w.Offset(zero), checkpoint / TWO32, 2) == w.Unwrap(zero, checkpoint)
  {
    hide Wrap32.Offset, Candidate;
    var mult, low, diff := checkpoint / TWO32, checkpoint % TWO32, w.Offset(zero);
    assert checkpoint == mult * TWO32 + low;
    var start := Best(checkpoint, diff, mult, 0);
    var second := Best(checkpoint, diff, mult, 1);
    assert start == if mult == 0 then diff else checkpoint - low - TWO32 + diff;
    assert Candidate(mult, diff) == checkpoint - low + diff;
    assert second == if mult == 0 || Distance(low, diff) < TWO32 + low - diff then checkpoint - low + diff else start;
    assert Candidate(mult + 1, diff) == if mult + 1 == TWO32 then diff else checkpoint - low + diff + TWO32;
    LargestBelow(checkpoint, diff);
  }

  function Wrap(n: u64, zero: Wrap32): Wrap32 {
    Wrap32((zero.raw + n % TWO32) % TWO32)
  }

  /** `r` is at least as near to the checkpoint as every 64-bit number with the same remainder; ties go down. */
  ghost predicate IsNearest(w: Wrap32, zero: Wrap32, checkpoint: u64, r: u64) {
    && Wrap(r, zero) == w
    && forall v: u64 :: Wrap(v, zero) == w ==>
         Distance(r, checkpoint) < Distance(v, checkpoint)
         || (Distance(r, checkpoint) == Distance(v, checkpoint) && r <= v)
  }

  /** Numbers that wrap to `w` are those with the remainder `w` stands for. */
  lemma WrapIsOffset(n: u64, zero: Wrap32, w: Wrap32)
    ensures Wrap(n, zero) == w <==> n % TWO32 == w.Offset(zero)
  {
  }

  lemma CongruentNumbersLieApart(a: u64, b: u64)
    requires a % TWO32 == b % TWO32
    ensures a == b || Distance(a, b) == TWO32 || Distance(a, b) >= 2 * TWO32
  {
    assert a == a / TWO32 * TWO32 + a % TWO32;
    assert b == b / TWO32 * TWO32 + b % TWO32;
  }

  lemma RemainderOf(q: nat, offset: u32)
    ensures (q * TWO32 + offset) % TWO32 == offset
  {
  }

  /** The result has the right remainder and lies within half a turn unless 0 or the range of uint64 is in the way. */
  lemma UnwrapIsCandidate(w: Wrap32, zero: Wrap32, checkpoint: u64) returns (q: nat)
    ensures var r := w.Unwrap(zero, checkpoint);
            && r == q * TWO32 + w.Offset(zero)
            && (r < TWO32 || r - checkpoint < TWO31) && (r + TWO32 >= TWO64 || checkpoint - r <= TWO31)
  {
    var offset, low := w.Offset(zero), checkpoint % TWO32;
    hide Wrap32.Offset;
    q := checkpoint / TWO32;
    assert checkpoint == q * TWO32 + low;
    LargestBelow(checkpoint, offset);
    if checkpoint < offset {
      q := 0;
    } else {
      q := if offset <= low then q else q - 1;
      assert checkpoint - (checkpoint - offset) % TWO32 == q * TWO32 + offset;
      if w.Unwrap(zero, checkpoint) != q * TWO32 + offset {
        q := q + 1;
      }
    }
  }

  /** The result is congruent, and within 2^31 of the checkpoint unless the range of uint64 cuts the search short. */
  lemma UnwrapIsCongruent(w: Wrap32, zero: Wrap32, checkpoint: u64)
    ensures Wrap(w.Unwrap(zero, checkpoint), zero) == w
    ensures var r := w.Unwrap(zero, checkpoint);
            (r < TWO32 || r - checkpoint < TWO31) && (r + TWO32 >= TWO64 || checkpoint - r <= TWO31)
  {
    var q := UnwrapIsCandidate(w, zero, checkpoint);
    RemainderOf(q, w.Offset(zero));
    WrapIsOffset(w.Unwrap(zero, checkpoint), zero, w);
  }

  /** For every checkpoint, including those near 2^64, `Unwrap` is the one nearest number. */
  lemma UnwrapIsNearest(w: Wrap32, zero: Wrap32, checkpoint: u64)
    ensures IsNearest(w, zero, checkpoint, w.Unwrap(zero, checkpoint))
    ensures forall r: u64 :: IsNearest(w, zero, checkpoint, r) ==> r == w.Unwrap(zero, checkpoint)
  {
    var r := w.Unwrap(zero, checkpoint);
    UnwrapIsCongruent(w, zero, checkpoint);
    forall v: u64 | Wrap(v, zero) == w
      ensures Distance(r, checkpoint) < Distance(v, checkpoint)
              || (Distance(r, checkpoint) == Distance(v, checkpoint) && r <= v)
    {
      WrapIsOffset(v, zero, w);
      WrapIsOffset(r, zero, w);
      CongruentNumbersLieApart(v, r);
    }
  }

  /** Round trip: a number within 2^31 of the checkpoint (inclusive when it is behind) survives wrap and unwrap. */
  lemma WrapRoundTrip(n: u64, zero: Wrap32, checkpoint: u64)
    requires n - checkpoint < TWO31 && checkpoint - n <= TWO31
    ensures Wrap(n, zero).Unwrap(zero, checkpoint) == n
  {
    var w := Wrap(n, zero);
    UnwrapIsNearest(w, zero, checkpoint);
    var r := w.Unwrap(zero, checkpoint);
    WrapIsOffset(n, zero, w);
    WrapIsOffset(r, zero, w);
    CongruentNumbersLieApart(n, r);
  }
}
