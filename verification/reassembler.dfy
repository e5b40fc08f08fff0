/** The reassembler: puts indexed, possibly overlapping substrings back into one stream. */
module Reassembly {
  import opened Machine
  import opened ByteStreams
  import opened Assembling
  import opened OrderedKeys
  import opened SegmentCaches

  /** `substr`: at most `count` bytes from position `pos`. */
  function Substr(s: seq<u8>, pos: nat, count: nat): seq<u8>
    requires pos <= |s|
  {
    s[pos..][..Min(count, |s| - pos)]
  }

  /** What is left of `data` after its first `k` bytes. */
  ghost predicate IsTail(rest: seq<u8>, data: seq<u8>, k: int) {
    0 <= k <= |data| && rest == data[k..]
  }

  lemma TailLength(rest: seq<u8>, data: seq<u8>, k: int)
    requires IsTail(rest, data, k)
    ensures |rest| == |data| - k
  {
  }

  /** Cutting the tail at a later index leaves a later tail. */
  lemma SubstrOfTail(rest: seq<u8>, data: seq<u8>, k: int, k': int, count: nat)
    requires IsTail(rest, data, k) && k <= k' <= |data| <= k' + count
    ensures k' - k <= |rest| && IsTail(Substr(rest, k' - k, count), data, k')
  {
  }

  /** The front of the tail goes into the gap before the iterator. */
  lemma StorePiece(c: Cache, c0: Cache, from: nat, data: seq<u8>, w: nat, it: nat, rest: seq<u8>, s: Segment)
    requires Progress(c, c0, from, data, w, Some(it)) && IsTail(rest, data, w - from)
    requires w < it < from + |data| && s == Segment(it - 1, Substr(rest, 0, it - w))
    ensures it in c && Progress(c[w := s], c0, from, data, it, Some(it)) && c[w := s][it] == c[it]
  {
    StoreBefore(c, c0, from, data, w, it, s);
  }

  /** Where the loop stands after a round that did not stop. */
  ghost predicate AfterRound(c: Cache, c0: Cache, from: nat, data: seq<u8>, last: nat, w: nat, rest: seq<u8>, it: Option<nat>) {
    && last + 1 == from + |data| && c0 != map[]
    && Progress(c, c0, from, data, w, it) && IsTail(rest, data, w - from) && (w <= last || data == [])
  }

  /** A substring of length 0 whose last index came out as 0: it stays as it is until the first cached segment. */
  ghost predicate PhantomWaits(c: Cache, c0: Cache, from: nat, data: seq<u8>, last: nat, w: nat, rest: seq<u8>, it: Option<nat>) {
    && c == c0 != map[] && it == First(c0.Keys) && (it.Some? ==> last < it.value)
    && w == from == last == 0 && rest == data == []
  }

  /** The loop invariant. */
  ghost predicate AtLoopHead(c: Cache, c0: Cache, from: nat, data: seq<u8>, last: nat, w: nat, rest: seq<u8>, it: Option<nat>) {
    || PhantomWaits(c, c0, from, data, last, w, rest, it)
    || (c == c0 == map[] && it.None? && data == rest == [] && last + 1 == from)
    || (AfterRound(c, c0, from, data, last, w, rest, it) && (w <= last || it.Some?))
  }

  /** When the loop is left early nothing remains to be stored. */
  ghost predicate AtLoopExit(c: Cache, c0: Cache, from: nat, data: seq<u8>, last: nat, rest: seq<u8>) {
    if last + 1 != from + |data| then c == c0[0 := Segment(0, [])] && rest == []
    else IsComplete(c, c0, from, data, last) && (data == [] ==> rest == [])
  }

  lemma LoopStarts(c0: Cache, from: nat, data: seq<u8>, last: nat)
    requires WellFormed(c0) && Solid(c0)
    requires last + 1 == from + |data| || (from == last == 0 && data == [] && forall k :: k in c0 ==> 0 < k)
    requires !(c0 == map[] && last >= from)
    ensures AtLoopHead(c0, c0, from, data, last, from, data, First(c0.Keys))
  {
    StartProgress(c0, from, data);
  }

  lemma IteratorInBounds(c: Cache, c0: Cache, from: nat, data: seq<u8>, last: nat, w: nat, rest: seq<u8>, it: Option<nat>)
    requires AtLoopHead(c, c0, from, data, last, w, rest, it)
    ensures it.Some? ==> c0 != map[] && it.value <= Greatest(c0.Keys)
  {
  }

  lemma PhantomOrNot(c: Cache, c0: Cache, from: nat, data: seq<u8>, last: nat, w: nat, rest: seq<u8>, it: nat)
    requires AtLoopHead(c, c0, from, data, last, w, rest, Some(it))
    ensures if last + 1 == from + |data| then AfterRound(c, c0, from, data, last, w, rest, Some(it))
            else PhantomWaits(c, c0, from, data, last, w, rest, Some(it))
  {
  }

  /** The rest of the substring, possibly empty, ends before the segment under the iterator. */
  lemma RoundStoresRest(c: Cache, c0: Cache, from: nat, data: seq<u8>, last: nat, w: nat, rest: seq<u8>, it: nat)
    requires AtLoopHead(c, c0, from, data, last, w, rest, Some(it)) && w < it && last < it
    ensures AtLoopExit(c[w := Segment(last, rest)], c0, from, data, last, rest)
  {
    PhantomOrNot(c, c0, from, data, last, w, rest, it);
    if last + 1 == from + |data| {
      RestFitsBefore(c, c0, from, data, w, it, Segment(last, rest));
    }
  }

  lemma RoundStops(c: Cache, c0: Cache, from: nat, data: seq<u8>, last: nat, w: nat, rest: seq<u8>, it: Option<nat>)
    requires AfterRound(c, c0, from, data, last, w, rest, it) && last < w
    ensures AtLoopExit(c, c0, from, data, last, rest)
  {
    ProgressCompletes(c, c0, from, data, it, last);
  }

  lemma SkipEndsHere(c: Cache, c0: Cache, from: nat, data: seq<u8>, last: nat, w: nat, rest: seq<u8>, it: nat)
    requires AfterRound(c, c0, from, data, last, w, rest, Some(it)) && it <= w
    requires it in c && last <= c[it].last
    ensures AtLoopExit(c, c0, from, data, last, rest)
  {
    ProgressKeepsKeys(c, c0, from, data, w, it);
    TailLength(rest, data, w - from);
    hide Progress, IsComplete, IsTail;
    RestEndsInside(c, c0, from, data, w, it, last);
  }

  lemma SkipGoesOn(c: Cache, c0: Cache, from: nat, data: seq<u8>, last: nat, w: nat, rest: seq<u8>, it: nat, w': nat)
    requires AfterRound(c, c0, from, data, last, w, rest, Some(it)) && it <= w
    requires it in c && c[it].last < last && w' == Max(c[it].last + 1, w)
    ensures w' - w <= |rest|
    ensures AfterRound(c, c0, from, data, last, w', Substr(rest, w' - w, last - it + 1), Next(c.Keys, it))
  {
    hide Progress, IsTail, Substr, Next;
    ProgressKeepsKeys(c, c0, from, data, w, it);
    RestGoesOn(c, c0, from, data, w, it, w');
    SubstrOfTail(rest, data, w - from, w' - from, last - it + 1);
  }

  /** The loop ran to the end: what remains lies beyond the greatest segment. */
  lemma LoopEnds(c: Cache, c0: Cache, from: nat, data: seq<u8>, last: nat, w: nat, rest: seq<u8>)
    requires AtLoopHead(c, c0, from, data, last, w, rest, None)
    ensures last + 1 == from + |data|
    ensures c == map[] ==> Filled(c, c0, from, data)
    ensures c != map[] ==> c[Greatest(c.Keys)].last < w <= last && rest != [] && IsTail(rest, data, w - from)
                           && Progress(c, c0, from, data, w, None)
  {
    if c0 == map[] {
      StartProgress(c0, from, data);
    } else {
      ShapeKeepsGreatest(c, c0, from, from + |data|, w, None);
    }
  }

  predicate NothingLeft(c: Cache, last: nat, rest: seq<u8>) {
    c == map[] || last <= c[Greatest(c.Keys)].last || rest == []
  }

  /** The loop was left early: the final store is skipped. */
  lemma LoopLeft(c: Cache, c0: Cache, from: nat, data: seq<u8>, last: nat, rest: seq<u8>)
    requires AtLoopExit(c, c0, from, data, last, rest)
    ensures NothingLeft(c, last, rest)
    ensures if last + 1 == from + |data| then Filled(c, c0, from, data) else c == c0[0 := Segment(0, [])]
  {
  }

  /** What the middle of `insert` is to achieve. */
  ghost predicate Stored(c: Cache, c0: Cache, from: nat, data: seq<u8>, last: nat) {
    if last + 1 == from + |data| then Filled(c, c0, from, data) else c == c0[0 := Segment(0, [])]
  }

  /** After the loop: all is stored, or what remains lies beyond the greatest segment. */
  ghost predicate AfterLoop(c: Cache, c0: Cache, from: nat, data: seq<u8>, last: nat, w: nat, rest: seq<u8>) {
    if NothingLeft(c, last, rest) then Stored(c, c0, from, data, last)
    else last + 1 == from + |data| && w <= last && IsTail(rest, data, w - from) && Progress(c, c0, from, data, w, None)
  }

  lemma StoreInEmptyIsAll(c0: Cache, from: nat, data: seq<u8>, last: nat)
    requires c0 == map[] && from <= last && (last + 1 == from + |data| || (from == last == 0 && data == []))
    ensures AfterLoop(c0[from := Segment(last, data)], c0, from, data, last, from, data)
  {
    StoreInEmpty(c0, from, data, last);
    hide Filled, Progress, IsTail;
  }

  lemma LoopLeavesAll(c: Cache, c0: Cache, from: nat, data: seq<u8>, last: nat, w: nat, rest: seq<u8>)
    requires AtLoopExit(c, c0, from, data, last, rest)
    ensures AfterLoop(c, c0, from, data, last, w, rest)
  {
    LoopLeft(c, c0, from, data, last, rest);
    hide AtLoopExit, Filled, Progress, IsTail, NothingLeft;
  }

  lemma LoopEndsRight(c: Cache, c0: Cache, from: nat, data: seq<u8>, last: nat, w: nat, rest: seq<u8>)
    requires AtLoopHead(c, c0, from, data, last, w, rest, None)
    ensures AfterLoop(c, c0, from, data, last, w, rest)
  {
    LoopEnds(c, c0, from, data, last, w, rest);
    hide AtLoopHead, Filled, Progress, IsTail;
  }

  lemma ProgressBeyondGreatest(c: Cache, c0: Cache, from: nat, data: seq<u8>, w: nat)
    requires Progress(c, c0, from, data, w, None) && c != map[]
    ensures c[Greatest(c.Keys)].last < w
  {
    ShapeKeepsGreatest(c, c0, from, from + |data|, w, None);
  }

  /** The greatest segment ends before what remains: the rest becomes a new greatest segment. */
  lemma RestGoesLast(c: Cache, c0: Cache, from: nat, data: seq<u8>, last: nat, w: nat, rest: seq<u8>)
    requires AfterLoop(c, c0, from, data, last, w, rest) && !NothingLeft(c, last, rest)
    ensures Max(w, c[Greatest(c.Keys)].last + 1) == w && |rest| == last + 1 - w
    ensures Stored(c[w := Segment(last, rest)], c0, from, data, last)
  {
    TailLength(rest, data, w - from);
    ProgressBeyondGreatest(c, c0, from, data, w);
    StoreAtEnd(c, c0, from, data, w, Segment(last, rest));
    hide Filled, Progress;
  }

  lemma LearnIgnoresEnd(a: Assembly, b: Assembly, first: nat, data: seq<u8>)
    requires b == a.(end := b.end)
    ensures b.Learn(first, data) == a.Learn(first, data)
  {
  }

  /** Nothing pending and no new byte: an insert can only reach the end. */
  lemma NothingToWrite(a: Assembly, first: nat, data: seq<u8>, end: Option<nat>)
    requires a.Valid() && a.pending == map[]
    requires Min(a.out.Limit(), first + |data|) <= Max(|a.out.accepted|, first)
    ensures WriteRun(a.out, a.Learn(first, data), end, |a.out.accepted|) == a.(end := end).CloseAtEnd()
  {
    var out := a.out;
    assert a.Learn(first, data) == map[];
    RunEndIsUnique(map[], |out.accepted|, out.Limit(), |out.accepted|);
    assert out.accepted + [] == out.accepted && out.Push([]) == out;
  }

  /** If nothing is cached and the last index is below the first, nothing is meant to be stored either. */
  lemma NothingToStore(a: Assembly, first: nat, data: seq<u8>, last: bool)
    requires a.Valid() && a.pending == map[] && !a.Ignored(first, data) && a.CastsAreHarmless(first, data, last)
    requires Min(LastIndex(a.out.Limit()), LastIndex(first + |data|)) < Max(|a.out.accepted|, first)
    ensures a.Insert(first, data, last) == a.(end := a.EndAsRecorded(first, data, last)).CloseAtEnd()
  {
    NothingToWrite(a, first, data, a.EndAfter(first, data, last));
    hide LastIndex, WriteRun, Assembly.Learn;
  }

  /** Harmless casts give the last index meant. */
  lemma LastIndexIsRight(a: Assembly, first: nat, data: seq<u8>, last: bool)
    requires a.Valid() && !a.Ignored(first, data) && a.CastsAreHarmless(first, data, last)
    ensures Min(LastIndex(a.out.Limit()), LastIndex(first + |data|))
            == if a.Phantom(first, data) then 0 else Min(a.out.Limit(), first + |data|) - 1
    ensures a.EndAsRecorded(first, data, last) == a.EndAfter(first, data, last)
  {
    hide LastIndex;
  }

  // ---- From segments to bytes ----

  ghost predicate InWindow(c: Cache, lo: nat, limit: nat) {
    forall k :: k in c ==> lo <= k && c[k].last < limit
  }

  lemma WindowOfBytes(c: Cache, lo: nat, limit: nat)
    requires WellFormed(c) && InWindow(c, lo, limit)
    ensures forall i :: i in Flatten(c) ==> lo <= i < limit
  {
    forall i | i in Flatten(c)
      ensures lo <= i < limit
    {
      FlattenIsLookup(c, i);
      var k :| Covers(c, k, i);
    }
  }

  lemma FlattenPointwise(c: Cache)
    requires WellFormed(c)
    ensures forall i: nat :: i in Flatten(c) <==> Lookup(c, i).Some?
    ensures forall i: nat :: i in Flatten(c) ==> Lookup(c, i) == Some(Flatten(c)[i])
  {
    forall i: nat
      ensures i in Flatten(c) <==> Lookup(c, i).Some?
      ensures i in Flatten(c) ==> Lookup(c, i) == Some(Flatten(c)[i])
    {
      FlattenIsLookup(c, i);
    }
  }

  lemma KnownRun(known: map<nat, u8>, from: nat, next: nat, bytes: seq<u8>, limit: nat)
    requires next == from + |bytes| && next !in known
    requires forall i: nat :: from <= i < next ==> i in known && known[i] == bytes[i - from]
    requires forall i :: i in known ==> i < limit
    ensures RunEnd(known, from, limit) == next
    ensures Collect(known, from, next) == bytes
  {
    assert from < next ==> next - 1 in known;
    RunEndIsUnique(known, from, limit, next);
  }

  /** Draining takes out exactly the run of known bytes. */
  lemma DrainedIsRun(c': Cache, c: Cache, from: nat, next: nat, bytes: seq<u8>, limit: nat)
    requires Drained(c', c, from, next, bytes) && Lookup(c, next).None?
    requires InWindow(c, from, limit)
    ensures RunEnd(Flatten(c), from, limit) == next
    ensures Collect(Flatten(c), from, next) == bytes
  {
    FlattenPointwise(c);
    WindowOfBytes(c, from, limit);
    KnownRun(Flatten(c), from, next, bytes, limit);
  }

  /** What stays cached is what lies beyond the run. */
  lemma DrainedLeavesRest(c': Cache, c: Cache, from: nat, next: nat, limit: nat)
    requires WellFormed(c) && WellFormed(c')
    requires forall i: nat :: Lookup(c', i) == if i < next then None else Lookup(c, i)
    requires InWindow(c, from, limit)
    ensures Flatten(c') == map i | i in Flatten(c) && !(from <= i < next) :: Flatten(c)[i]
  {
    hide Lookup, Flatten, WellFormed, InWindow;
    FlattenPointwise(c);
    FlattenPointwise(c');
    WindowOfBytes(c, from, limit);
    var rest := map i | i in Flatten(c) && !(from <= i < next) :: Flatten(c)[i];
    assert forall i: nat :: i in Flatten(c') <==> i in rest;
  }

  /** Draining, pushing and closing amount to writing out the run. */
  lemma DrainWritesRun(c': Cache, c: Cache, from: nat, next: nat, bytes: seq<u8>, out: Stream, end: Option<nat>)
    requires Drained(c', c, from, next, bytes) && Lookup(c, next).None?
    requires forall k :: k in c' ==> next < k
    requires forall i: nat :: Lookup(c', i) == if i < next then None else Lookup(c, i)
    requires out.Valid() && out.capacity >= 1 && CanStartAt(out, Flatten(c), from)
    requires InWindow(c, from, out.Limit())
    ensures var out' := out.Push(bytes);
            WriteRun(out, Flatten(c), end, from) ==
            Assembly(if end.Some? && c' == map[] && end.value <= next then out'.Close() else out', Flatten(c'), end)
    ensures out.Push(bytes).accepted == out.accepted + bytes
    ensures WellFormed(c') && Solid(c') && InWindow(c', |out.accepted + bytes| + 1, out.Limit())
  {
    hide Lookup, Flatten, RunEnd, Collect, AtDrain, WellFormed, Solid;
    DrainedIsRun(c', c, from, next, bytes, out.Limit());
    DrainedLeavesRest(c', c, from, next, out.Limit());
    WindowOfBytes(c, from, out.Limit());
    WriteRunKeepsWindow(out, Flatten(c), end, from);
    EmptyWhenFlat(c');
  }

  lemma FilledFlattens(c: Cache, c0: Cache, from: nat, data: seq<u8>)
    requires IsFill(c, c0, from, data)
    ensures Flatten(c) == Bytes(from, data) + Flatten(c0)
  {
    FlattenPointwise(c);
    FlattenPointwise(c0);
    hide Lookup, Flatten, WellFormed;
  }

  /** What a substring adds to the known bytes is its part inside the window. */
  lemma LearnIsBytes(a: Assembly, first: nat, data: seq<u8>, from: nat, trimmed: seq<u8>)
    requires a.out.Valid()
    requires !a.Ignored(first, data) && from == Max(|a.out.accepted|, first)
    requires trimmed == data[from - first..][..Min(a.out.Limit(), first + |data|) - from]
    ensures a.Learn(first, data) == Bytes(from, trimmed) + a.pending
  {
  }

  /** After storing, the real segments `c` hold the known bytes and can be written out from the right index. */
  ghost predicate IsReady(c': Cache, c: Cache, a: Assembly, first: nat, data: seq<u8>, from: nat)
    requires a.out.Valid()
  {
    && from == (if a.Phantom(first, data) then 1 else |a.out.accepted|)
    && AtDrain(c', c, from, |a.out.accepted|, [])
    && InWindow(c, from, a.out.Limit())
    && Flatten(c) == a.Learn(first, data)
    && CanStartAt(a.out, Flatten(c), from)
  }

  lemma StoredFitsWindow(c: Cache, c0: Cache, next: nat, limit: nat, from: nat, trimmed: seq<u8>)
    requires InWindow(c0, next + 1, limit) && Filled(c, c0, from, trimmed)
    requires next <= from <= from + |trimmed| <= limit
    ensures AtDrain(c, c, next, next, [])
    ensures InWindow(c, next, limit)
  {
    DrainStarts(c, next);
    FlattenPointwise(c);
    FlattenPointwise(c0);
    forall k | k in c
      ensures next <= k && c[k].last < limit
    {
      if k <= c[k].last {
        LookupAt(c, k, c[k].last);
        WindowOfBytes(c0, next + 1, limit);
        assert c[k].last in Flatten(c0) || c[k].last < from + |trimmed|;
      }
    }
  }

  lemma StoredIsReady(c: Cache, c0: Cache, a: Assembly, first: nat, data: seq<u8>, from: nat, trimmed: seq<u8>)
    requires a.out.Valid() && !a.Phantom(first, data)
    requires WellFormed(c0) && a.pending == Flatten(c0) && InWindow(c0, |a.out.accepted| + 1, a.out.Limit())
    requires !a.Ignored(first, data) && from == Max(|a.out.accepted|, first)
    requires trimmed == data[from - first..][..Min(a.out.Limit(), first + |data|) - from]
    requires Filled(c, c0, from, trimmed)
    ensures IsReady(c, c, a, first, data, |a.out.accepted|)
  {
    FilledFlattens(c, c0, from, trimmed);
    LearnIsBytes(a, first, data, from, trimmed);
    StoredFitsWindow(c, c0, |a.out.accepted|, a.out.Limit(), from, trimmed);
    hide Flatten, WellFormed, AtDrain, InWindow, Filled, Assembly.Learn, Bytes;
  }

  lemma PhantomIsReady(c0: Cache, a: Assembly, data: seq<u8>)
    requires a.out.Valid() && a.out.capacity >= 1 && a.Phantom(0, data)
    requires WellFormed(c0) && Solid(c0) && a.pending == Flatten(c0) && InWindow(c0, 1, a.out.Limit())
    ensures IsReady(c0[0 := Segment(0, [])], c0, a, 0, data, 1)
  {
    WindowOfBytes(c0, 1, a.out.Limit());
    assert a.Learn(0, data) == a.pending;
  }

  /** The trimmed substring is as long as its first and last index say, except for the phantom. */
  lemma TrimmedLength(out: Stream, first: nat, data: seq<u8>, w: nat, last: nat)
    requires out.Valid() && out.capacity >= 1 && out.Limit() > first && first + |data| >= |out.accepted|
    requires w == Max(|out.accepted|, first)
    requires last == if out.accepted == [] && first + |data| == 0 then 0 else Min(out.Limit(), first + |data|) - 1
    ensures w <= last + 1 && w - first <= |data|
    ensures var trimmed := Substr(data, w - first, last + 1 - w);
            && trimmed == data[w - first..][..Min(out.Limit(), first + |data|) - w]
            && (last + 1 == w + |trimmed| || (w == last == 0 && trimmed == []))
            && (last + 1 == w + |trimmed| <==> !(out.accepted == [] && first + |data| == 0))
  {
  }

  class Reassembler {
    const output: ByteStream
    var cache: Cache
    var finish: bool
    var finishSet: nat

    ghost predicate Valid()
      reads this, output
    {
      && output.Valid()
      && output.capacity >= 1
      && WellFormed(cache)
      && Solid(cache)
      && forall k :: k in cache ==> output.numBytesPushed < k && cache[k].last < output.View().Limit()
    }

    ghost function View(): (a: Assembly)
      reads this, output
      requires Valid()
    {
      Assembly(output.View(), Flatten(cache), End())
    }

    lemma ViewIsValid()
      requires Valid()
      ensures View().Valid() && (View().pending == map[] <==> cache == map[])
    {
      WindowOfBytes(cache, output.numBytesPushed + 1, output.View().Limit());
      EmptyWhenFlat(cache);
      hide WellFormed, Solid, Flatten;
    }

    /** Where the stream ends, once that is known. */
    ghost function End(): Option<nat>
      reads this
    {
      if finish then Some(finishSet) else None
    }

    constructor (output: ByteStream)
      requires output.Valid() && output.capacity >= 1
      ensures Valid() && this.output == output
      ensures View() == Assembly(output.View(), map[], None)
    {
      this.output := output;
      cache := map[];
      finish, finishSet := false, TWO64 - 1;
      new;
      assert Flatten(cache) == map[];
    }

    /** The substring starts before the cached segment at `start` and reaches it: store the part in between. */
    method SplitAround(start: nat, w: nat, lastDataIndex: nat, rest: seq<u8>, ghost c0: Cache, ghost from: nat, ghost data: seq<u8>)
      returns (w': nat, rest': seq<u8>, stop: bool)
      requires AfterRound(cache, c0, from, data, lastDataIndex, w, rest, Some(start)) && w < start <= lastDataIndex
      modifies this`cache
      ensures stop ==> AtLoopExit(cache, c0, from, data, lastDataIndex, rest')
      ensures !stop ==> AfterRound(cache, c0, from, data, lastDataIndex, w', rest', Next(cache.Keys, start))
    {
      hide Progress, IsComplete, IsTail, Substr, Next;
      ProgressKeepsKeys(cache, c0, from, data, w, start);
      TailLength(rest, data, w - from);
      w', rest', stop := w, rest, true;
      var trimSize := start - w;
      var piece := Segment(start - 1, Substr(rest, 0, trimSize));
      StorePiece(cache, c0, from, data, w, start, rest, piece);
      cache := cache[w := piece];
      var newStart := Max(w + trimSize, cache[start].last + 1);
      if lastDataIndex < newStart {
        RestEndsInside(cache, c0, from, data, start, start, lastDataIndex);
        return;
      }
      RestGoesOn(cache, c0, from, data, start, start, newStart);
      SubstrOfTail(rest, data, w - from, newStart - from, lastDataIndex - newStart + 1);
      w', rest', stop := newStart, Substr(rest, newStart - w, lastDataIndex - newStart + 1), false;
    }

    /** The substring starts inside or after the cached segment at `start`: skip what that segment covers. */
    method SkipPast(start: nat, w: nat, lastDataIndex: nat, rest: seq<u8>, ghost c0: Cache, ghost from: nat, ghost data: seq<u8>)
      returns (w': nat, rest': seq<u8>, stop: bool)
      requires AfterRound(cache, c0, from, data, lastDataIndex, w, rest, Some(start)) && start <= w
      ensures stop ==> AtLoopExit(cache, c0, from, data, lastDataIndex, rest')
      ensures !stop ==> AfterRound(cache, c0, from, data, lastDataIndex, w', rest', Next(cache.Keys, start))
    {
      ProgressKeepsKeys(cache, c0, from, data, w, start);
      w', rest', stop := w, rest, true;
      hide AfterRound, AtLoopExit;
      var end := cache[start].last;
      if lastDataIndex <= end {
        SkipEndsHere(cache, c0, from, data, lastDataIndex, w, rest, start);
        return;
      }
      var newStart := Max(end + 1, w);
      SkipGoesOn(cache, c0, from, data, lastDataIndex, w, rest, start, newStart);
      w', rest', stop := newStart, Substr(rest, newStart - w, lastDataIndex - start + 1), false;
    }

    /** One round of the splitting loop, at the cached segment that starts at `start`. */
    method Round(start: nat, w: nat, lastDataIndex: nat, rest: seq<u8>, ghost c0: Cache, ghost from: nat, ghost data: seq<u8>)
      returns (w': nat, rest': seq<u8>, stop: bool)
      requires AtLoopHead(cache, c0, from, data, lastDataIndex, w, rest, Some(start))
      modifies this`cache
      ensures stop ==> AtLoopExit(cache, c0, from, data, lastDataIndex, rest')
      ensures !stop ==> AtLoopHead(cache, c0, from, data, lastDataIndex, w', rest', Next(cache.Keys, start))
    {
      PhantomOrNot(cache, c0, from, data, lastDataIndex, w, rest, start);
      w', rest', stop := w, rest, true;
      hide AfterRound, AtLoopExit;
      if w < start {
        if lastDataIndex < start {
          RoundStoresRest(cache, c0, from, data, lastDataIndex, w, rest, start);
          cache := cache[w := Segment(lastDataIndex, rest)];
          return;
        }
        w', rest', stop := SplitAround(start, w, lastDataIndex, rest, c0, from, data);
      } else {
        w', rest', stop := SkipPast(start, w, lastDataIndex, rest, c0, from, data);
      }
      if !stop && w' > lastDataIndex {
        RoundStops(cache, c0, from, data, lastDataIndex, w', rest', Next(cache.Keys, start));
        stop := true;
      }
    }

    /** The splitting loop: walk over the cached segments in order and store what falls between them. */
    method Split(writeIndex: nat, lastDataIndex: nat, trimmed: seq<u8>, ghost c0: Cache)
      returns (w: nat, rest: seq<u8>, stop: bool)
      requires AtLoopHead(cache, c0, writeIndex, trimmed, lastDataIndex, writeIndex, trimmed, First(cache.Keys))
      modifies this`cache
      ensures stop ==> AtLoopExit(cache, c0, writeIndex, trimmed, lastDataIndex, rest)
      ensures !stop ==> AtLoopHead(cache, c0, writeIndex, trimmed, lastDataIndex, w, rest, None)
    {
      w, rest, stop := writeIndex, trimmed, false;
      hide AtLoopHead, AtLoopExit;
      var it := First(cache.Keys);
      while it.Some? && !stop
        invariant stop ==> AtLoopExit(cache, c0, writeIndex, trimmed, lastDataIndex, rest)
        invariant !stop ==> AtLoopHead(cache, c0, writeIndex, trimmed, lastDataIndex, w, rest, it)
        decreases !stop, if it.None? || c0 == map[] then 0 else Greatest(c0.Keys) + 1 - it.value
      {
        var start := it.value;
        IteratorInBounds(cache, c0, writeIndex, trimmed, lastDataIndex, w, rest, it);
        w, rest, stop := Round(start, w, lastDataIndex, rest, c0, writeIndex, trimmed);
        if !stop {
          it := Next(cache.Keys, start);
          IteratorInBounds(cache, c0, writeIndex, trimmed, lastDataIndex, w, rest, it);
        }
      }
    }

    /** The first part of the middle of `insert`: an empty cache takes everything, otherwise the loop runs. */
    method StoreBetween(writeIndex: nat, lastDataIndex: nat, trimmed: seq<u8>, ghost c0: Cache)
      returns (w: nat, rest: seq<u8>)
      requires WellFormed(cache) && Solid(cache) && c0 == cache
      requires lastDataIndex + 1 == writeIndex + |trimmed|
               || (writeIndex == lastDataIndex == 0 && trimmed == [] && forall k :: k in cache ==> 0 < k)
      modifies this`cache
      ensures AfterLoop(cache, c0, writeIndex, trimmed, lastDataIndex, w, rest)
    {
      hide AfterLoop, AtLoopHead, AtLoopExit;
      w, rest := writeIndex, trimmed;
      if cache == map[] && lastDataIndex >= w {
        StoreInEmptyIsAll(c0, writeIndex, trimmed, lastDataIndex);
        cache := cache[w := Segment(lastDataIndex, rest)];
      } else {
        LoopStarts(c0, writeIndex, trimmed, lastDataIndex);
        var stop;
        w, rest, stop := Split(w, lastDataIndex, rest, c0);
        if stop {
          LoopLeavesAll(cache, c0, writeIndex, trimmed, lastDataIndex, w, rest);
        } else {
          LoopEndsRight(cache, c0, writeIndex, trimmed, lastDataIndex, w, rest);
        }
      }
    }

    /**
     * The middle of `insert`: store the parts of the trimmed substring that were not cached before. An empty
     * substring whose last index came out as 0 leaves an entry (0, 0) without bytes.
     */
    method Store(writeIndex: nat, lastDataIndex: nat, trimmed: seq<u8>)
      requires WellFormed(cache) && Solid(cache)
      requires lastDataIndex + 1 == writeIndex + |trimmed|
               || (writeIndex == lastDataIndex == 0 && trimmed == [] && forall k :: k in cache ==> 0 < k)
      modifies this`cache
      ensures Stored(cache, old(cache), writeIndex, trimmed, lastDataIndex)
    {
      ghost var c0 := cache;
      var w, rest := StoreBetween(writeIndex, lastDataIndex, trimmed, c0);
      hide WellFormed, Solid, Stored;
      if cache != map[] && lastDataIndex > cache[Greatest(cache.Keys)].last && rest != [] {
        RestGoesLast(cache, c0, writeIndex, trimmed, lastDataIndex, w, rest);
        hide AfterLoop;
        var lastStart := Max(w, cache[Greatest(cache.Keys)].last + 1);
        var piece := Substr(rest, lastStart - w, lastDataIndex - lastStart + 1);
        assert piece == rest;
        cache := cache[lastStart := Segment(lastDataIndex, piece)];
      }
    }

    /**
     * The tail of `insert`: take out the segments that follow each other from `nextExpected` on. The entry
     * (0, 0) without bytes counts for one index.
     */
    method Drain(nextExpected: nat, ghost c: Cache, ghost from: nat) returns (next: nat, bytes: seq<u8>)
      requires AtDrain(cache, c, from, nextExpected, [])
      modifies this`cache
      ensures Drained(cache, c, from, next, bytes)
      ensures Lookup(c, next).None? && forall k :: k in cache ==> next < k
      ensures forall i: nat :: Lookup(cache, i) == if i < next then None else Lookup(c, i)
    {
      next, bytes := nextExpected, [];
      hide AtDrain, Drained;
      while cache != map[] && Least(cache.Keys) == next
        invariant AtDrain(cache, c, from, next, bytes)
        decreases |cache|
      {
        var size := cache[next].last - next + 1;
        DrainStep(cache, c, from, next, bytes, next + size);
        bytes := bytes + cache[next].data;
        cache := cache - {next};
        next := next + size;
      }
      DrainStops(cache, c, from, next, bytes);
    }

    /** Push the drained bytes, and close the output when everything is there. */
    method PushAndClose(next: nat, bytes: seq<u8>)
      requires output.Valid() && output.capacity >= 1
      requires WellFormed(cache) && Solid(cache)
      requires output.View().Push(bytes).accepted == output.View().accepted + bytes
      requires InWindow(cache, |output.View().accepted + bytes| + 1, output.View().Limit())
      modifies output
      ensures Valid()
      ensures output.View() == var out := old(output.View()).Push(bytes);
                               if finish && cache == map[] && next >= finishSet then out.Close() else out
    {
      hide WellFormed, Solid;
      if bytes != [] {
        output.Push(bytes);
      }
      if finish && cache == map[] && next >= finishSet {
        output.Close();
      }
    }

    /** Drain, push and close: the cached bytes that follow each other go to the output. */
    method WriteOut(nextExpected: nat, ghost c: Cache, ghost from: nat)
      requires output.Valid() && output.capacity >= 1
      requires AtDrain(cache, c, from, nextExpected, [])
      requires InWindow(c, from, output.View().Limit())
      requires CanStartAt(output.View(), Flatten(c), from)
      modifies this, output
      ensures Valid()
      ensures View() == WriteRun(old(output.View()), Flatten(c), old(End()), from)
    {
      hide Drained, AtDrain, Flatten, WellFormed, Solid, Lookup, WriteRun, CanStartAt;
      ghost var out := output.View();
      var next, bytes := Drain(nextExpected, c, from);
      DrainWritesRun(cache, c, from, next, bytes, out, End());
      PushAndClose(next, bytes);
    }

    /** Trim the substring to the window and store it; `c` are then the real segments, to be written out from `from`. */
    method StoreTrimmed(firstIndex: nat, data: seq<u8>, writeIndex: nat, lastDataIndex: nat)
      returns (ghost c: Cache, ghost from: nat)
      requires Valid() && !View().Ignored(firstIndex, data) && writeIndex == Max(output.numBytesPushed, firstIndex)
      requires lastDataIndex == if View().Phantom(firstIndex, data) then 0 else Min(output.View().Limit(), firstIndex + |data|) - 1
      modifies this`cache
      ensures IsReady(cache, c, old(View()), firstIndex, data, from)
    {
      ghost var a, c0 := View(), cache;
      TrimmedLength(a.out, firstIndex, data, writeIndex, lastDataIndex);
      var trimmed := Substr(data, writeIndex - firstIndex, lastDataIndex - writeIndex + 1);
      Store(writeIndex, lastDataIndex, trimmed);
      hide Flatten, WellFormed, Solid, IsReady, Substr, Filled;
      if a.Phantom(firstIndex, data) {
        PhantomIsReady(c0, a, data);
        c, from := c0, 1;
      } else {
        StoredIsReady(cache, c0, a, firstIndex, data, writeIndex, trimmed);
        c, from := cache, |a.out.accepted|;
      }
    }

    /** The part of `insert` after the early return. */
    method InsertTrimmed(firstIndex: nat, data: seq<u8>, nextExpected: nat, writeIndex: nat, lastDataIndex: nat)
      requires Valid() && nextExpected == output.numBytesPushed
      requires !View().Ignored(firstIndex, data) && writeIndex == Max(nextExpected, firstIndex)
      requires lastDataIndex == if View().Phantom(firstIndex, data) then 0 else Min(output.View().Limit(), firstIndex + |data|) - 1
      modifies this, output
      ensures Valid()
      ensures View() == WriteRun(old(output.View()), old(View()).Learn(firstIndex, data), old(End()),
                                 if old(View()).Phantom(firstIndex, data) then 1 else nextExpected)
    {
      ghost var c, from := StoreTrimmed(firstIndex, data, writeIndex, lastDataIndex);
      hide AtDrain, InWindow, Flatten, CanStartAt, WriteRun, Assembly.Learn;
      WriteOut(nextExpected, c, from);
    }

    /** Nothing is cached and nothing is to be stored: the loops have no rounds, and only the end may be reached. */
    method InsertNothing(nextExpected: nat)
      requires Valid() && cache == map[] && nextExpected == output.numBytesPushed
      modifies output
      ensures Valid() && View() == old(View()).CloseAtEnd()
    {
      ghost var out := output.View();
      assert out.accepted + [] == out.accepted && out.Push([]) == out;
      PushAndClose(nextExpected, []);
    }

    /**
     * Insert a substring. The source computes its last indices in 32-bit signed arithmetic, so the result is the
     * one meant where the casts do no harm; from 2^31 bytes on, with nothing cached, nothing is stored any more.
     */
    method Insert(firstIndex: nat, data: seq<u8>, isLastSubstring: bool)
      requires Valid()
      requires View().CastsAreHarmless(firstIndex, data, isLastSubstring) || (output.numBytesPushed >= TWO31 && cache == map[])
      modifies this, output
      ensures Valid()
      ensures old(View()).CastsAreHarmless(firstIndex, data, isLastSubstring)
              ==> View() == old(View()).Insert(firstIndex, data, isLastSubstring)
      ensures old(output.numBytesPushed) >= TWO31 && old(cache) == map[]
              ==> View() == old(View()).InsertBeyond(firstIndex, data, isLastSubstring)
    {
      hide Flatten, WellFormed, Solid, WriteRun, LastIndex, Assembly.Learn;
      ghost var a := View();
      ViewIsValid();
      var nextExpected := output.BytesPushed();
      var availableCapacity := output.AvailableCapacity();
      var lastAvailableIndex := LastIndex(nextExpected + availableCapacity);
      var dataSize := |data|;
      var lastDataIndex := LastIndex(firstIndex + dataSize);
      var writeIndex := Max(nextExpected, firstIndex);
      if isLastSubstring && lastDataIndex <= lastAvailableIndex {
        finish := true;
        finishSet := firstIndex + dataSize;
      }
      ghost var b := View();
      assert b == a.(end := a.EndAsRecorded(firstIndex, data, isLastSubstring));
      lastDataIndex := Min(lastAvailableIndex, lastDataIndex);
      if firstIndex > nextExpected + availableCapacity - 1 || dataSize + firstIndex < nextExpected {
        return;
      }
      if cache == map[] && lastDataIndex < writeIndex {
        if a.CastsAreHarmless(firstIndex, data, isLastSubstring) {
          NothingToStore(a, firstIndex, data, isLastSubstring);
        }
        InsertNothing(nextExpected);
      } else {
        LearnIgnoresEnd(a, b, firstIndex, data);
        LastIndexIsRight(a, firstIndex, data, isLastSubstring);
        InsertTrimmed(firstIndex, data, nextExpected, writeIndex, lastDataIndex);
      }
    }

    /** How many bytes are cached: the sum of the segments' sizes. */
    method CountBytesPending() returns (total: nat)
      requires Valid()
      ensures total == |View().pending|
    {
      total := 0;
      var it := First(cache.Keys);
      BytesBelowStart(cache, it);
      hide Valid, BytesBelow, WellFormed, Flatten;
      while it.Some?
        invariant it.Some? ==> it.value in cache && total == |BytesBelow(cache, it.value)|
        invariant it.None? ==> total == |Flatten(cache)|
        decreases if it.None? then 0 else Greatest(cache.Keys) + 1 - it.value
      {
        total := total + |cache[it.value].data|;
        BytesBelowNext(cache, it.value);
        it := Next(cache.Keys, it.value);
      }
    }
  }
}
