/**
 * The reassembler's ordered map of cached segments, keyed by first index. A segment records its last index
 * and its bytes; a segment without bytes ends one index before it starts.
 */
module SegmentCaches {
  import opened Machine
  import opened OrderedKeys

  datatype Segment = Segment(last: nat, data: seq<u8>)

  type Cache = map<nat, Segment>

  predicate Precedes(j: nat, k: nat) {
    j < k
  }

  /** Segments are as long as they say, sorted and disjoint. */
  ghost predicate WellFormed(c: Cache) {
    && (forall k :: k in c ==> c[k].last + 1 == k + |c[k].data|)
    && (forall j, k {:trigger Precedes(j, k), c[j], c[k]} :: j in c && k in c && Precedes(j, k) ==> c[j].last < k)
  }

  /** The greatest segment holds a byte, so a cache without bytes is empty. */
  ghost predicate Solid(c: Cache) {
    c != map[] ==> c[Greatest(c.Keys)].data != []
  }

  ghost predicate Covers(c: Cache, k: nat, i: nat) {
    k in c && k <= i <= c[k].last
  }

  /** The cached byte at index `i`, if there is one. */
  ghost function Lookup(c: Cache, i: nat): Option<u8>
    requires WellFormed(c)
  {
    if k :| Covers(c, k, i) then Some(c[k].data[i - k]) else None
  }

  lemma LookupAt(c: Cache, k: nat, i: nat)
    requires WellFormed(c) && Covers(c, k, i)
    ensures Lookup(c, i) == Some(c[k].data[i - k])
  {
    forall j | Covers(c, j, i)
      ensures j == k
    {
      assert Precedes(j, k) || Precedes(k, j) || j == k;
    }
  }

  ghost function Indices(c: Cache): set<nat> {
    set k: nat, i: nat | k in c.Keys && k <= i <= c[k].last && Covers(c, k, i) :: i
  }

  /** The index-to-byte map the cache stands for. */
  ghost function Flatten(c: Cache): map<nat, u8>
    requires WellFormed(c)
  {
    map i | i in Indices(c) && Lookup(c, i).Some? :: Lookup(c, i).value
  }

  lemma FlattenIsLookup(c: Cache, i: nat)
    requires WellFormed(c)
    ensures i in Flatten(c) <==> Lookup(c, i).Some?
    ensures i in Flatten(c) ==> Lookup(c, i) == Some(Flatten(c)[i])
  {
    if Lookup(c, i).Some? {
      var k :| Covers(c, k, i);
      assert i in Indices(c);
    }
  }

  lemma EmptyWhenFlat(c: Cache)
    requires WellFormed(c) && Solid(c)
    ensures Flatten(c) == map[] <==> c == map[]
  {
    if c != map[] {
      var k := Greatest(c.Keys);
      assert Covers(c, k, k);
      LookupAt(c, k, k);
      FlattenIsLookup(c, k);
    }
  }

  /** Storing a segment adds exactly its bytes. */
  lemma LookupAfterStore(c: Cache, k: nat, s: Segment)
    requires WellFormed(c) && WellFormed(c[k := s])
    requires k in c ==> c[k].data == []
    ensures forall i: nat :: Lookup(c[k := s], i) == if k <= i < k + |s.data| then Some(s.data[i - k]) else Lookup(c, i)
  {
    var c' := c[k := s];
    forall i: nat
      ensures Lookup(c', i) == if k <= i < k + |s.data| then Some(s.data[i - k]) else Lookup(c, i)
    {
      assert c'[k].last + 1 == k + |s.data|;
      if k <= i < k + |s.data| {
        LookupAt(c', k, i);
      } else if j :| Covers(c, j, i) {
        LookupAt(c, j, i);
        LookupAt(c', j, i);
      } else if j :| Covers(c', j, i) {
        assert Covers(c, j, i);
      }
    }
  }

  /** Removing the least segment removes exactly its bytes. */
  lemma LookupAfterErase(c: Cache, k: nat)
    requires WellFormed(c) && k in c && k == Least(c.Keys)
    ensures WellFormed(c - {k})
    ensures forall i: nat :: Lookup(c - {k}, i) == if i <= c[k].last then None else Lookup(c, i)
  {
    var c' := c - {k};
    forall i: nat
      ensures Lookup(c', i) == if i <= c[k].last then None else Lookup(c, i)
    {
      if j :| Covers(c', j, i) {
        LookupAt(c, j, i);
        LookupAt(c', j, i);
        assert Precedes(k, j);
      } else if j :| Covers(c, j, i) && j != k {
        assert Covers(c', j, i);
      } else if i > c[k].last {
        assert !exists j :: Covers(c, j, i);
      }
    }
  }

  /** `c` holds what `c0` held, plus the bytes of `data` (starting at index `from`) that `c0` lacked. */
  ghost predicate IsFill(c: Cache, c0: Cache, from: nat, data: seq<u8>) {
    && WellFormed(c) && WellFormed(c0)
    && forall i: nat :: Lookup(c, i) ==
         if Lookup(c0, i).Some? then Lookup(c0, i)
         else if from <= i < from + |data| then Some(data[i - from])
         else None
  }

  /** No segment reaches into [lo, hi). */
  ghost predicate Gap(c: Cache, lo: nat, hi: nat) {
    forall k :: k in c ==> c[k].last < lo || hi <= k
  }

  lemma LookupInGap(c: Cache, lo: nat, hi: nat)
    requires WellFormed(c) && Gap(c, lo, hi)
    ensures forall i: nat :: lo <= i < hi ==> Lookup(c, i).None?
  {
    forall i: nat | lo <= i < hi
      ensures Lookup(c, i).None?
    {
      assert !exists k :: Covers(c, k, i);
    }
  }

  lemma LookupInside(c: Cache, k: nat)
    requires WellFormed(c) && k in c
    ensures forall i: nat :: k <= i <= c[k].last ==> Lookup(c, i).Some?
  {
    forall i: nat | k <= i <= c[k].last
      ensures Lookup(c, i).Some?
    {
      LookupAt(c, k, i);
    }
  }

  /** Filling a gap with the next bytes of the substring. */
  lemma FillGap(c: Cache, c0: Cache, from: nat, data: seq<u8>, w: nat, s: Segment)
    requires from <= w <= w + |s.data| <= from + |data|
    requires IsFill(c, c0, from, data[..w - from]) && Gap(c, w, w + |s.data|)
    requires WellFormed(c[w := s]) && (w in c ==> c[w].data == [])
    requires s.data == data[w - from..w - from + |s.data|]
    ensures IsFill(c[w := s], c0, from, data[..w - from + |s.data|])
  {
    LookupInGap(c, w, w + |s.data|);
    LookupAfterStore(c, w, s);
  }

  /** Skipping bytes of the substring that were cached before, in the segment at `k`. */
  lemma FillSkip(c: Cache, c0: Cache, from: nat, data: seq<u8>, w: nat, upto: nat, k: nat)
    requires from <= w <= upto <= from + |data|
    requires IsFill(c, c0, from, data[..w - from])
    requires k in c0 && k <= w && upto <= Max(w, c0[k].last + 1)
    ensures IsFill(c, c0, from, data[..upto - from])
  {
    LookupInside(c0, k);
  }

  /**
   * How far the splitting loop has come, as far as keys are concerned: segments from the iterator on are the
   * original ones, everything before it ends below `w`, and no original segment is lost.
   */
  ghost predicate Shape(c: Cache, c0: Cache, lo: nat, hi: nat, w: nat, it: Option<nat>) {
    && WellFormed(c)
    && c0 != map[] && Solid(c0)
    && (forall k :: k in c0 ==> k in c && (c0[k].data != [] ==> c[k] == c0[k]))
    && (forall k :: k in c ==> k <= Greatest(c0.Keys) && (k in c0 || lo <= k <= hi))
    && (it.Some? ==> it.value in c0)
    && (forall k :: k in c && it.Some? && it.value <= k ==> k in c0 && c[k] == c0[k])
    && (forall k :: k in c && (it.Some? ==> k < it.value) ==> c[k].last < w)
  }

  ghost predicate Progress(c: Cache, c0: Cache, from: nat, data: seq<u8>, w: nat, it: Option<nat>) {
    && from <= w <= from + |data|
    && Shape(c, c0, from, from + |data|, w, it)
    && IsFill(c, c0, from, data[..w - from])
  }

  /** The greatest segment survives the loop, so the cache stays solid. */
  lemma ShapeKeepsGreatest(c: Cache, c0: Cache, lo: nat, hi: nat, w: nat, it: Option<nat>)
    requires Shape(c, c0, lo, hi, w, it)
    ensures c != map[] && Greatest(c.Keys) == Greatest(c0.Keys) && c[Greatest(c.Keys)] == c0[Greatest(c0.Keys)]
    ensures Solid(c)
    ensures it.Some? ==> it.value in c && it.value <= Greatest(c.Keys) && c[it.value].last <= c[Greatest(c.Keys)].last
  {
    var g := Greatest(c0.Keys);
    assert it.Some? ==> it.value == g || Precedes(it.value, g);
  }

  /** Storing a segment that fits just before the iterator. */
  lemma ShapeAfterStore(c: Cache, c0: Cache, lo: nat, hi: nat, w: nat, it: nat, s: Segment)
    requires Shape(c, c0, lo, hi, w, Some(it)) && lo <= w < it
    requires s.last + 1 == w + |s.data| <= Min(it, hi)
    ensures w in c ==> c[w].data == []
    ensures Gap(c, w, w + |s.data|)
    ensures Shape(c[w := s], c0, lo, hi, w + |s.data|, Some(it))
  {
    assert WellFormed(c[w := s]);
  }

  lemma ShapeAfterAdvance(c: Cache, c0: Cache, lo: nat, hi: nat, w: nat, it: nat)
    requires Shape(c, c0, lo, hi, w, Some(it)) && c[it].last < w
    ensures Shape(c, c0, lo, hi, w, Next(c.Keys, it))
  {
    var next := Next(c.Keys, it);
    if next.Some? {
      assert next.value in c && it <= next.value;
    }
    forall k | k in c && (next.Some? ==> k < next.value)
      ensures c[k].last < w
    {
      assert k > it ==> next.Some?;
    }
  }

  lemma ShapeAtEnd(c: Cache, c0: Cache, lo: nat, hi: nat, w: nat, s: Segment)
    requires Shape(c, c0, lo, hi, w, None)
    requires s.data != [] && s.last + 1 == w + |s.data|
    ensures w in c ==> c[w].data == []
    ensures WellFormed(c[w := s]) && Gap(c, w, w + |s.data|) && Solid(c[w := s])
  {
    var c' := c[w := s];
    forall k | k in c
      ensures c[k].last < w && k <= w
    {
      assert c[k].last + 1 == k + |c[k].data|;
    }
    var g := Greatest(c'.Keys);
    assert w in c'.Keys && (g == w || g in c);
  }

  lemma ShapeIsMonotone(c: Cache, c0: Cache, lo: nat, hi: nat, w: nat, w': nat, it: Option<nat>)
    requires Shape(c, c0, lo, hi, w, it) && w <= w'
    ensures Shape(c, c0, lo, hi, w', it)
  {
  }

  /** Storing a piece in the gap just before the iterator. */
  lemma StoreBefore(c: Cache, c0: Cache, from: nat, data: seq<u8>, w: nat, it: nat, s: Segment)
    requires Progress(c, c0, from, data, w, Some(it))
    requires w < it && s.last + 1 == w + |s.data| <= Min(it, from + |data|)
    requires s.data == data[w - from..w - from + |s.data|]
    ensures Progress(c[w := s], c0, from, data, w + |s.data|, Some(it))
    ensures it in c && c[w := s][it] == c[it]
  {
    ShapeKeepsGreatest(c, c0, from, from + |data|, w, Some(it));
    ShapeAfterStore(c, c0, from, from + |data|, w, it, s);
    hide WellFormed, IsFill, Gap;
    assert WellFormed(c[w := s]);
    FillGap(c, c0, from, data, w, s);
  }

  /** The segment under the iterator is already cached: skip its indices. */
  lemma SkipSegment(c: Cache, c0: Cache, from: nat, data: seq<u8>, w: nat, it: nat, w': nat)
    requires Progress(c, c0, from, data, w, Some(it)) && it <= w
    requires it in c && w <= w' <= from + |data| && w' <= Max(w, c[it].last + 1)
    ensures Progress(c, c0, from, data, w', Some(it))
  {
    ShapeIsMonotone(c, c0, from, from + |data|, w, w', Some(it));
    assert c[it] == c0[it];
    hide WellFormed, IsFill;
    FillSkip(c, c0, from, data, w, w', it);
  }

  lemma ProgressKeepsKeys(c: Cache, c0: Cache, from: nat, data: seq<u8>, w: nat, it: nat)
    requires Progress(c, c0, from, data, w, Some(it))
    ensures it in c && it in c0 && w <= from + |data|
  {
  }

  /** Everything is filled in, and no key is foreign. */
  ghost predicate Filled(c: Cache, c0: Cache, from: nat, data: seq<u8>) {
    && IsFill(c, c0, from, data) && Solid(c)
    && forall k :: k in c ==> k in c0 || from <= k <= from + |data|
  }

  /** Everything is filled in, and nothing is left to store beyond the greatest segment. */
  ghost predicate IsComplete(c: Cache, c0: Cache, from: nat, data: seq<u8>, last: nat) {
    Filled(c, c0, from, data) && c != map[] && (data == [] || last <= c[Greatest(c.Keys)].last)
  }

  lemma ProgressCompletes(c: Cache, c0: Cache, from: nat, data: seq<u8>, it: Option<nat>, last: nat)
    requires Progress(c, c0, from, data, from + |data|, it)
    requires data == [] || (it.Some? && (last <= it.value || (it.value in c && last <= c[it.value].last)))
    ensures IsComplete(c, c0, from, data, last)
  {
    assert data[..|data|] == data;
    ShapeKeepsGreatest(c, c0, from, from + |data|, from + |data|, it);
    hide IsFill;
  }

  /** The rest of the substring ends before the segment under the iterator. */
  lemma RestFitsBefore(c: Cache, c0: Cache, from: nat, data: seq<u8>, w: nat, it: nat, s: Segment)
    requires Progress(c, c0, from, data, w, Some(it))
    requires from <= w <= from + |data|
    requires w < it && s.last + 1 == from + |data| <= it && s.data == data[w - from..]
    ensures IsComplete(c[w := s], c0, from, data, s.last)
  {
    hide Progress, IsComplete;
    StoreBefore(c, c0, from, data, w, it, s);
    ProgressCompletes(c[w := s], c0, from, data, Some(it), s.last);
  }

  /** The rest of the substring ends inside the segment under the iterator. */
  lemma RestEndsInside(c: Cache, c0: Cache, from: nat, data: seq<u8>, w: nat, it: nat, last: nat)
    requires Progress(c, c0, from, data, w, Some(it)) && it <= w <= from + |data|
    requires it in c && last + 1 == from + |data| <= c[it].last + 1
    ensures IsComplete(c, c0, from, data, last)
  {
    hide Progress, IsComplete;
    SkipSegment(c, c0, from, data, w, it, from + |data|);
    ProgressCompletes(c, c0, from, data, Some(it), last);
  }

  /** The substring reaches beyond the segment under the iterator: go on after it. */
  lemma RestGoesOn(c: Cache, c0: Cache, from: nat, data: seq<u8>, w: nat, it: nat, w': nat)
    requires Progress(c, c0, from, data, w, Some(it)) && it <= w <= from + |data|
    requires it in c && c[it].last + 1 < from + |data| && w' == Max(c[it].last + 1, w)
    ensures Progress(c, c0, from, data, w', Next(c.Keys, it))
  {
    hide Shape, IsFill, WellFormed;
    SkipSegment(c, c0, from, data, w, it, w');
    ShapeAfterAdvance(c, c0, from, from + |data|, w', it);
  }

  /** Past the last segment: what remains goes in as one new greatest segment. */
  lemma StoreAtEnd(c: Cache, c0: Cache, from: nat, data: seq<u8>, w: nat, s: Segment)
    requires Progress(c, c0, from, data, w, None)
    requires w < from + |data| && s.last + 1 == from + |data| && s.data == data[w - from..]
    ensures Filled(c[w := s], c0, from, data)
  {
    var c' := c[w := s];
    ShapeAtEnd(c, c0, from, from + |data|, w, s);
    hide IsFill;
    FillGap(c, c0, from, data, w, s);
    assert data[..|data|] == data;
  }

  /** Where the loop starts. */
  lemma StartProgress(c: Cache, from: nat, data: seq<u8>)
    requires WellFormed(c) && Solid(c)
    ensures c != map[] ==> Progress(c, c, from, data, from, First(c.Keys))
    ensures c == map[] && data == [] ==> Filled(c, c, from, data)
  {
  }

  /** Storing into an empty cache: the new segment is the greatest, and there is nothing left after it. */
  lemma StoreInEmpty(c: Cache, from: nat, data: seq<u8>, last: nat)
    requires c == map[] && from <= last && (last + 1 == from + |data| || data == [])
    ensures var c' := c[from := Segment(last, data)];
            && c' != map[] && c'[Greatest(c'.Keys)].last == last
            && (last + 1 == from + |data| ==> Filled(c', c, from, data))
  {
    var s := Segment(last, data);
    var c' := c[from := s];
    assert from in c'.Keys && c'.Keys == {from};
    assert Greatest(c'.Keys) in c'.Keys;
    if last + 1 == from + |data| {
      FillGap(c, c, from, data, from, s);
      assert data[..|data|] == data;
    }
  }

  /** Draining: the segments of `c` below `next` are gone, and their bytes from `from` on are in `bytes`. */
  ghost predicate Drained(c': Cache, c: Cache, from: nat, next: nat, bytes: seq<u8>) {
    && WellFormed(c) && WellFormed(c') && Solid(c')
    && next == from + |bytes|
    && (forall k :: k in c' ==> k in c && next <= k && c'[k] == c[k])
    && (forall i: nat :: from <= i < next ==> Lookup(c, i) == Some(bytes[i - from]))
    && (forall i: nat :: next <= i ==> Lookup(c', i) == Lookup(c, i))
  }

  lemma SolidAfterErase(c: Cache, k: nat)
    requires Solid(c) && k in c && k == Least(c.Keys)
    ensures Solid(c - {k})
  {
    var c' := c - {k};
    if c' != map[] {
      var g, g' := Greatest(c.Keys), Greatest(c'.Keys);
      assert g' in c.Keys && g' != k && k <= g' <= g;
      assert g in c'.Keys;
    }
  }

  lemma DrainOne(c': Cache, c: Cache, from: nat, next: nat, bytes: seq<u8>)
    requires Drained(c', c, from, next, bytes) && next in c' && next == Least(c'.Keys)
    ensures Drained(c' - {next}, c, from, c'[next].last + 1, bytes + c'[next].data)
  {
    var c'', s := c' - {next}, c'[next];
    LookupAfterErase(c', next);
    forall k | k in c''
      ensures k in c && s.last + 1 <= k
    {
      assert Precedes(next, k);
    }
    assert Solid(c'') by {
      if c'' != map[] {
        SolidAfterErase(c', next);
      }
    }
    forall i: nat | from <= i < s.last + 1
      ensures Lookup(c, i) == Some((bytes + s.data)[i - from])
    {
      if next <= i {
        LookupAt(c', next, i);
      }
    }
  }

  /** When the least segment starts later, nothing is known at `next`. */
  lemma DrainEnds(c': Cache, c: Cache, from: nat, next: nat, bytes: seq<u8>)
    requires Drained(c', c, from, next, bytes)
    requires c' == map[] || Least(c'.Keys) != next
    ensures Lookup(c, next).None?
    ensures forall k :: k in c' ==> next < k
    ensures forall i: nat :: Lookup(c', i) == if i < next then None else Lookup(c, i)
  {
    assert Gap(c', next, next + 1);
    LookupInGap(c', next, next + 1);
    assert Gap(c', 0, next);
    LookupInGap(c', 0, next);
  }

  lemma DrainStarts(c: Cache, from: nat)
    requires WellFormed(c) && Solid(c) && forall k :: k in c ==> from <= k
    ensures Drained(c, c, from, from, [])
  {
  }

  ghost predicate PhantomFirst(c: Cache, from: nat) {
    WellFormed(c) && Solid(c) && from == 1 && forall k :: k in c ==> 1 <= k
  }

  /** The state of the draining loop; at first an entry (0, 0) without bytes may be in front. */
  ghost predicate AtDrain(c': Cache, c: Cache, from: nat, next: nat, bytes: seq<u8>) {
    || Drained(c', c, from, next, bytes)
    || (PhantomFirst(c, from) && c' == c[0 := Segment(0, [])] && next == 0 && bytes == [])
  }

  lemma DrainStep(c': Cache, c: Cache, from: nat, next: nat, bytes: seq<u8>, next': nat)
    requires AtDrain(c', c, from, next, bytes)
    requires next in c' && next == Least(c'.Keys) && next' == c'[next].last + 1
    ensures AtDrain(c' - {next}, c, from, next', bytes + c'[next].data)
  {
    if Drained(c', c, from, next, bytes) {
      DrainOne(c', c, from, next, bytes);
    } else {
      assert c' - {0} == c;
      DrainStarts(c, from);
    }
  }

  lemma DrainStops(c': Cache, c: Cache, from: nat, next: nat, bytes: seq<u8>)
    requires AtDrain(c', c, from, next, bytes)
    requires c' == map[] || Least(c'.Keys) != next
    ensures Drained(c', c, from, next, bytes)
    ensures Lookup(c, next).None?
    ensures forall k :: k in c' ==> next < k
    ensures forall i: nat :: Lookup(c', i) == if i < next then None else Lookup(c, i)
  {
    assert !Drained(c', c, from, next, bytes) ==> 0 in c'.Keys;
    DrainEnds(c', c, from, next, bytes);
  }

  // ---- Counting ----

  /** The cached indices below `k`. */
  ghost function BytesBelow(c: Cache, k: nat): set<nat>
    requires WellFormed(c)
  {
    set i | i in Flatten(c) && i < k
  }

  ghost function Interval(lo: nat, n: nat): (s: set<nat>)
    ensures |s| == n
    ensures forall i :: i in s <==> lo <= i < lo + n
  {
    if n == 0 then {} else Interval(lo, n - 1) + {lo + n - 1}
  }

  lemma BytesBelowStart(c: Cache, it: Option<nat>)
    requires WellFormed(c) && it == First(c.Keys)
    ensures it.Some? ==> BytesBelow(c, it.value) == {}
    ensures it.None? ==> Flatten(c) == map[]
  {
    if it.Some? {
      assert Gap(c, 0, it.value);
      LookupInGap(c, 0, it.value);
      forall i: nat
        ensures i in Flatten(c) ==> i >= it.value
      {
        FlattenIsLookup(c, i);
      }
    }
  }

  /** Between one segment and the next exactly the segment's bytes are cached. */
  lemma BytesBelowNext(c: Cache, k: nat)
    requires WellFormed(c) && k in c
    ensures var next := Next(c.Keys, k);
            |BytesBelow(c, k)| + |c[k].data| == if next.Some? then |BytesBelow(c, next.value)| else |Flatten(c)|
  {
    var next, n := Next(c.Keys, k), |c[k].data|;
    var upper := if next.Some? then BytesBelow(c, next.value) else Flatten(c).Keys;
    forall i: nat
      ensures i in upper <==> i in BytesBelow(c, k) || i in Interval(k, n)
    {
      FlattenIsLookup(c, i);
      if k <= i <= c[k].last {
        LookupAt(c, k, i);
        assert next.Some? ==> Precedes(k, next.value);
      } else if j :| Covers(c, j, i) {
        assert j == k || Precedes(j, k) || Precedes(k, j);
      }
    }
    assert upper == BytesBelow(c, k) + Interval(k, n);
    assert BytesBelow(c, k) !! Interval(k, n);
  }
}
