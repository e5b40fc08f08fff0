/** Reassembling a whole stream from overlapping, repeated, reordered substrings. */
module Completion {
  import opened Machine
  import opened ByteStreams
  import opened Assembling
  import opened AssemblyRuns

  datatype Substring = Substring(first: nat, data: seq<u8>, last: bool) {

    /** A piece of the stream `s`, marked last only if it reaches the end. */
    ghost predicate Of(s: seq<u8>) {
      && first + |data| <= |s|
      && data == s[first..first + |data|]
      && (last ==> first + |data| == |s|)
    }

    ghost predicate Has(i: nat) {
      first <= i < first + |data|
    }
  }

  /** Some substring contains index `i`. */
  ghost predicate Covered(subs: seq<Substring>, i: nat) {
    exists e :: e in subs && e.Has(i)
  }

  ghost predicate LastSeen(subs: seq<Substring>) {
    exists e :: e in subs && e.last
  }

  /**
   * The inputs that trip over the empty substring at index 0: byte 0 is still missing, but byte 1 is there,
   * or the stream is known to have one byte only.
   */
  ghost predicate Trips(s: seq<u8>, before: seq<Substring>, e: Substring) {
    && e.first == 0 && e.data == [] && !Covered(before, 0)
    && (Covered(before, 1) || (|s| == 1 && LastSeen(before)))
  }

  ghost predicate Admissible(s: seq<u8>, subs: seq<Substring>) {
    forall k :: 0 <= k < |subs| ==> subs[k].Of(s) && !Trips(s, subs[..k], subs[k])
  }

  function Start(capacity: nat): Assembly {
    Assembly(Empty(capacity), map[], None)
  }

  /** Insert all substrings, in order, without reading. */
  function InsertAll(capacity: nat, subs: seq<Substring>): (a: Assembly)
    ensures a.out.Valid() && a.out.capacity == capacity && a.out.popped == 0 && !a.out.error
  {
    if subs == [] then Start(capacity)
    else
      var e := subs[|subs| - 1];
      InsertAll(capacity, subs[..|subs| - 1]).Insert(e.first, e.data, e.last)
  }

  /** The reassembler knows exactly the covered part of the stream, and closes when it is complete. */
  ghost predicate Determined(s: seq<u8>, subs: seq<Substring>, a: Assembly) {
    && a.Valid() && |s| < a.out.capacity && a.out.popped == 0
    && (forall i: nat :: i in a.Known() <==> Covered(subs, i))
    && (forall i: nat :: Covered(subs, i) ==> i < |s| && a.Known()[i] == s[i])
    && a.end == (if LastSeen(subs) then Some(|s|) else None)
    && (a.out.closed <==> LastSeen(subs) && |a.out.accepted| == |s|)
  }

  lemma CoveredMore(subs: seq<Substring>, e: Substring)
    ensures forall i: nat :: Covered(subs + [e], i) <==> Covered(subs, i) || e.Has(i)
    ensures LastSeen(subs + [e]) <==> LastSeen(subs) || e.last
  {
    assert e in subs + [e];
    assert forall f :: f in subs + [e] <==> f in subs || f == e;
  }

  lemma TrippingIsHazard(s: seq<u8>, subs: seq<Substring>, e: Substring, a: Assembly)
    requires Determined(s, subs, a) && e.Of(s)
    ensures a.Hazard(e.first, e.data, e.last) ==> Trips(s, subs, e)
  {
    FrontierIsOutput(a);
  }

  lemma OneMoreIsKnown(s: seq<u8>, subs: seq<Substring>, e: Substring, a: Assembly)
    requires Determined(s, subs, a) && e.Of(s)
    ensures var b := a.Intended(e.first, e.data, e.last);
            && (forall i: nat :: i in b.Known() <==> Covered(subs + [e], i))
            && (forall i: nat :: Covered(subs + [e], i) ==> i < |s| && b.Known()[i] == s[i])
  {
    var b := a.Intended(e.first, e.data, e.last);
    hide Covered, LastSeen, Assembly.Known, Assembly.Intended, Assembly.Valid;
    InsertExtendsKnown(a, e.first, e.data, e.last);
    CoveredMore(subs, e);
    forall i: nat
      ensures i in b.Known() <==> Covered(subs + [e], i)
      ensures Covered(subs + [e], i) ==> i < |s| && b.Known()[i] == s[i]
    {
      if e.Has(i) {
        assert ByteAt(e.data, e.first, i) == s[i];
      }
    }
  }

  /** Known bytes reach as far as the output at least, and no further than the stream. */
  lemma OutputWithinStream(s: seq<u8>, a: Assembly)
    requires a.Valid() && forall i: nat :: i in a.Known() ==> i < |s|
    ensures |a.out.accepted| <= |s|
    ensures |a.out.accepted| == |s| ==> a.pending == map[]
  {
    FrontierIsOutput(a);
    assert |a.out.accepted| > |s| ==> |s| in a.Known();
  }

  /** The insert that completes the stream closes it, and no other does. */
  lemma ClosesWhenComplete(s: seq<u8>, subs: seq<Substring>, e: Substring, a: Assembly)
    requires Determined(s, subs, a) && e.Of(s)
    ensures var b := a.Intended(e.first, e.data, e.last);
            && b.end == (if LastSeen(subs + [e]) then Some(|s|) else None)
            && (b.out.closed <==> LastSeen(subs + [e]) && |b.out.accepted| == |s|)
  {
    hide Covered, LastSeen, Assembly.Known;
    var b := a.Intended(e.first, e.data, e.last);
    CoveredMore(subs, e);
    OneMoreIsKnown(s, subs, e, a);
    OutputWithinStream(s, a);
    InsertCloses(a, e.first, e.data, e.last);
    OutputWithinStream(s, b);
    assert |a.out.accepted| <= |b.out.accepted|;
  }

  /** One more substring. */
  lemma InsertKeepsDetermined(s: seq<u8>, subs: seq<Substring>, e: Substring, a: Assembly)
    requires Determined(s, subs, a) && e.Of(s) && !Trips(s, subs, e)
    ensures Determined(s, subs + [e], a.Insert(e.first, e.data, e.last))
  {
    TrippingIsHazard(s, subs, e, a);
    InsertMeetsIntent(a, e.first, e.data, e.last);
    InsertKeepsWindow(a, e.first, e.data, e.last);
    OneMoreIsKnown(s, subs, e, a);
    ClosesWhenComplete(s, subs, e, a);
    hide Covered, LastSeen, Assembly.Known, Assembly.Intended, Assembly.Hazard, Trips, Assembly.Valid;
    assert a.Insert(e.first, e.data, e.last).out.popped == 0;
  }

  lemma AdmissibleUpTo(s: seq<u8>, subs: seq<Substring>, n: nat)
    requires Admissible(s, subs) && n <= |subs|
    ensures Admissible(s, subs[..n])
  {
    forall k | 0 <= k < n
      ensures subs[..n][..k] == subs[..k] && subs[..n][k] == subs[k]
    {
    }
  }

  lemma StartIsDetermined(s: seq<u8>, capacity: nat)
    requires |s| < capacity
    ensures Determined(s, [], Start(capacity))
  {
    assert forall i: nat :: i !in Start(capacity).Known();
  }

  lemma {:induction false} InsertAllDetermined(s: seq<u8>, capacity: nat, subs: seq<Substring>)
    requires |s| < capacity && Admissible(s, subs)
    ensures Determined(s, subs, InsertAll(capacity, subs))
  {
    hide Determined, Trips, Assembly.Insert;
    if subs == [] {
      StartIsDetermined(s, capacity);
    } else {
      var n := |subs| - 1;
      AdmissibleUpTo(s, subs, n);
      InsertAllDetermined(s, capacity, subs[..n]);
      InsertKeepsDetermined(s, subs[..n], subs[n], InsertAll(capacity, subs[..n]));
      assert subs[..n] + [subs[n]] == subs;
    }
  }

  // ---- Nothing but tripping goes wrong ----

  lemma HazardIsTripping(s: seq<u8>, subs: seq<Substring>, e: Substring, a: Assembly)
    requires Determined(s, subs, a) && e.Of(s) && Trips(s, subs, e)
    ensures a.Hazard(e.first, e.data, e.last) && !e.last
  {
    FrontierIsOutput(a);
    OutputWithinStream(s, a);
    assert 0 !in a.Known() && a.out.accepted == [];
    if !Covered(subs, 1) {
      assert a.pending == map[] by {
        assert forall i :: i in a.pending ==> i in a.Known();
      }
    }
    hide Covered, LastSeen, Assembly.Known;
  }

  lemma LearnNothing(a: Assembly, i: nat)
    ensures a.Learn(i, []) == a.pending
  {
    assert a.WindowBytes(i, []) == map[];
  }

  /** A hazardous insert writes a byte out in the place of byte 0, or closes the output without it. */
  lemma HazardDoesHarm(a: Assembly)
    requires a.Valid() && a.Hazard(0, [], false)
    ensures var b := a.Insert(0, [], false);
            0 in b.Known() || (b.out.closed && b.out.accepted == [])
  {
    var b := a.Insert(0, [], false);
    LearnNothing(a, 0);
    WriteRunKeepsWindow(a.out, a.pending, a.end, 1);
    if 1 in a.pending {
      assert |b.out.accepted| > 0;
      hide Assembly.Insert;
    }
  }

  lemma StreamIsNotEmpty(s: seq<u8>, subs: seq<Substring>, e: Substring)
    requires Trips(s, subs, e) && forall i: nat :: Covered(subs, i) ==> i < |s|
    ensures |s| > 0
  {
    hide Covered, LastSeen;
  }

  /** After a tripping substring the output is not what was covered. */
  lemma TrippingIsNotDetermined(s: seq<u8>, subs: seq<Substring>, e: Substring, a: Assembly)
    requires Determined(s, subs, a) && e.Of(s) && Trips(s, subs, e)
    ensures !Determined(s, subs + [e], a.Insert(e.first, e.data, e.last))
  {
    HazardIsTripping(s, subs, e, a);
    HazardDoesHarm(a);
    CoveredMore(subs, e);
    StreamIsNotEmpty(s, subs, e);
    hide Covered, LastSeen, Assembly.Known, Assembly.Insert, Assembly.Hazard;
    assert !Covered(subs + [e], 0);
  }

  lemma InsertAllStep(capacity: nat, subs: seq<Substring>, k: nat)
    requires k < |subs|
    ensures subs[..k] + [subs[k]] == subs[..k + 1]
    ensures InsertAll(capacity, subs[..k + 1]) == InsertAll(capacity, subs[..k]).Insert(subs[k].first, subs[k].data, subs[k].last)
  {
    assert subs[..k + 1][..k] == subs[..k];
  }

  /** For pieces of a stream: the reassembler is right at every moment if and only if no piece trips. */
  lemma RightExactlyIfAdmissible(s: seq<u8>, capacity: nat, subs: seq<Substring>)
    requires |s| < capacity && forall e :: e in subs ==> e.Of(s)
    ensures (forall n :: 0 <= n <= |subs| ==> Determined(s, subs[..n], InsertAll(capacity, subs[..n]))) <==> Admissible(s, subs)
  {
    if Admissible(s, subs) {
      forall n | 0 <= n <= |subs|
        ensures Determined(s, subs[..n], InsertAll(capacity, subs[..n]))
      {
        AdmissibleUpTo(s, subs, n);
        InsertAllDetermined(s, capacity, subs[..n]);
      }
    } else {
      var k :| 0 <= k < |subs| && !(subs[k].Of(s) && !Trips(s, subs[..k], subs[k]));
      assert subs[k] in subs;
      hide Determined, Trips;
      if Determined(s, subs[..k], InsertAll(capacity, subs[..k])) {
        InsertAllStep(capacity, subs, k);
        TrippingIsNotDetermined(s, subs[..k], subs[k], InsertAll(capacity, subs[..k]));
      }
    }
  }

  /**
   * At every moment the output is the stream up to the first index not covered, what is covered beyond it is
   * pending, and the output is closed exactly when it is the whole stream and the last substring was seen.
   */
  lemma Reassembled(s: seq<u8>, capacity: nat, subs: seq<Substring>)
    requires |s| < capacity && Admissible(s, subs)
    ensures var a := InsertAll(capacity, subs);
            && a.out.accepted <= s
            && (forall i: nat :: i < |a.out.accepted| ==> Covered(subs, i))
            && !Covered(subs, |a.out.accepted|)
            && (forall i: nat :: i in a.pending <==> Covered(subs, i) && |a.out.accepted| < i)
            && (forall i :: i in a.pending ==> i < |s| && a.pending[i] == s[i])
            && (a.out.closed <==> a.out.accepted == s && LastSeen(subs))
  {
    hide Covered, LastSeen, Admissible, InsertAll;
    var a := InsertAll(capacity, subs);
    InsertAllDetermined(s, capacity, subs);
    FrontierIsOutput(a);
    OutputWithinStream(s, a);
    forall i: nat | i < |a.out.accepted|
      ensures a.out.accepted[i] == s[i]
    {
      assert i in a.Known() && a.Known()[i] == a.out.accepted[i];
    }
  }

  /** When every byte is covered and the last substring was seen, the stream is complete and closed. */
  lemma Completes(s: seq<u8>, capacity: nat, subs: seq<Substring>)
    requires |s| < capacity && Admissible(s, subs)
    requires (forall i: nat :: i < |s| ==> Covered(subs, i)) && LastSeen(subs)
    ensures var a := InsertAll(capacity, subs);
            a.out.accepted == s && a.pending == map[] && a.out.closed
  {
    Reassembled(s, capacity, subs);
    InsertAllDetermined(s, capacity, subs);
    OutputWithinStream(s, InsertAll(capacity, subs));
  }

  lemma SameIndices(subs: seq<Substring>, subs': seq<Substring>)
    requires forall e :: e in subs <==> e in subs'
    ensures forall i: nat :: Covered(subs, i) <==> Covered(subs', i)
    ensures LastSeen(subs) <==> LastSeen(subs')
  {
  }

  lemma SameKnown(s: seq<u8>, subs: seq<Substring>, subs': seq<Substring>, a: Assembly, a': Assembly)
    requires Determined(s, subs, a) && Determined(s, subs', a')
    requires forall i: nat :: Covered(subs, i) <==> Covered(subs', i)
    ensures a.Known() == a'.Known()
  {
    hide Covered, LastSeen, Assembly.Known, Assembly.Valid;
  }

  lemma DeterminedIsUnique(s: seq<u8>, subs: seq<Substring>, subs': seq<Substring>, a: Assembly, a': Assembly)
    requires Determined(s, subs, a) && Determined(s, subs', a')
    requires a.out.capacity == a'.out.capacity && a.out.error == a'.out.error
    requires forall e :: e in subs <==> e in subs'
    ensures a == a'
  {
    SameIndices(subs, subs');
    SameKnown(s, subs, subs', a, a');
    FrontierIsOutput(a);
    FrontierIsOutput(a');
    hide Covered, LastSeen, Assembly.Known, RunEnd;
    assert Abstract(a).Frontier() == Abstract(a').Frontier();
    KnownDeterminesAssembly(a, a');
  }

  /** Order and repetition do not matter: the same set of substrings gives the same state. */
  lemma OrderDoesNotMatter(s: seq<u8>, capacity: nat, subs: seq<Substring>, subs': seq<Substring>)
    requires |s| < capacity && Admissible(s, subs) && Admissible(s, subs')
    requires forall e :: e in subs <==> e in subs'
    ensures InsertAll(capacity, subs) == InsertAll(capacity, subs')
  {
    InsertAllDetermined(s, capacity, subs);
    InsertAllDetermined(s, capacity, subs');
    DeterminedIsUnique(s, subs, subs', InsertAll(capacity, subs), InsertAll(capacity, subs'));
  }

  // ---- Why the exclusions are needed ----

  /** Evaluating a run by giving its result. */
  lemma WriteRunIs(out: Stream, known: map<nat, u8>, end: Option<nat>, from: nat, bytes: seq<u8>, rest: map<nat, u8>)
    requires out.Valid() && from + |bytes| <= out.Limit() && |out.accepted| <= from
    requires forall i: nat :: from <= i < from + |bytes| ==> i in known && known[i] == bytes[i - from]
    requires from + |bytes| !in known
    requires rest == map i | i in known && !(from <= i < from + |bytes|) :: known[i]
    ensures WriteRun(out, known, end, from) ==
            var out' := out.(accepted := out.accepted + bytes);
            Assembly(if end.Some? && rest == map[] && end.value <= from + |bytes| then out'.Close() else out', rest, end)
  {
    RunEndIsUnique(known, from, out.Limit(), from + |bytes|);
    assert Collect(known, from, from + |bytes|) == bytes;
    assert bytes[..|bytes|] == bytes;
  }

  lemma InsertTwo(capacity: nat, d: Substring, e: Substring)
    ensures InsertAll(capacity, [d, e]) ==
            Start(capacity).Insert(d.first, d.data, d.last).Insert(e.first, e.data, e.last)
  {
    assert [d, e][..1] == [d] && [d][..0] == [];
    assert InsertAll(capacity, [d]) == Start(capacity).Insert(d.first, d.data, d.last);
  }

  lemma LearnByte(a: Assembly, i: nat, b: u8)
    requires |a.out.accepted| <= i < a.out.Limit()
    ensures a.Learn(i, [b]) == map[i := b] + a.pending
  {
    assert ByteAt([b], i, i) == b;
    assert a.WindowBytes(i, [b]) == map[i := b];
  }

  /** A byte that arrives early stays pending. */
  lemma EarlyByte(i: nat, b: u8)
    requires i > 0
    ensures Start(i + 2).Insert(i, [b], false) == Assembly(Empty(i + 2), map[i := b], None)
  {
    var a := Start(i + 2);
    LearnByte(a, i, b);
    assert map[i := b] + a.pending == map[i := b];
    WriteRunIs(a.out, map[i := b], None, 0, [], map[i := b]);
  }

  /** An empty substring at index 0 writes out the byte at index 1. */
  lemma PhantomMovesByte(b: u8)
    ensures Assembly(Empty(3), map[1 := b], None).Insert(0, [], false).out.accepted == [b]
  {
    var a := Assembly(Empty(3), map[1 := b], None);
    LearnNothing(a, 0);
    WriteRunIs(a.out, map[1 := b], None, 1, [b], map[]);
  }

  lemma LaterByteTrips(x: u8, y: u8)
    ensures var s, d, e := [x, y], Substring(1, [y], false), Substring(0, [], false);
            d.Of(s) && e.Of(s) && Trips(s, [d], e)
  {
    var d := Substring(1, [y], false);
    assert d in [d] && d.Has(1);
    assert [x, y][1..2] == [y];
    assert forall f :: f in [d] ==> f == d;
  }

  /** Byte 1 arrives, then an empty substring at index 0: byte 1 is written out in the place of byte 0. */
  lemma EmptySubstringMisplacesByte(x: u8, y: u8)
    ensures var s, d, e := [x, y], Substring(1, [y], false), Substring(0, [], false);
            d.Of(s) && e.Of(s) && Trips(s, [d], e) && InsertAll(3, [d, e]).out.accepted == [y]
  {
    var d, e := Substring(1, [y], false), Substring(0, [], false);
    InsertTwo(3, d, e);
    EarlyByte(1, y);
    PhantomMovesByte(y);
    hide Assembly.Insert, InsertAll;
    LaterByteTrips(x, y);
  }

  lemma EndOfOneByte()
    ensures Start(2).Insert(1, [], true) == Assembly(Empty(2), map[], Some(1))
    ensures var a := Assembly(Empty(2), map[], Some(1)).Insert(0, [], false); a.out.accepted == [] && a.out.closed
  {
    LearnNothing(Start(2), 1);
    WriteRunIs(Empty(2), map[], Some(1), 0, [], map[]);
    LearnNothing(Assembly(Empty(2), map[], Some(1)), 0);
    WriteRunIs(Empty(2), map[], Some(1), 1, [], map[]);
  }

  lemma KnownEndTrips(x: u8)
    ensures var s, d, e := [x], Substring(1, [], true), Substring(0, [], false);
            d.Of(s) && e.Of(s) && Trips(s, [d], e)
  {
    var d := Substring(1, [], true);
    assert d in [d] && d.last;
    assert forall f :: f in [d] ==> f == d;
  }

  /** The end of a one-byte stream is known, then an empty substring at index 0: the stream closes without its byte. */
  lemma EmptySubstringClosesEarly(x: u8)
    ensures var s, d, e := [x], Substring(1, [], true), Substring(0, [], false);
            && d.Of(s) && e.Of(s) && Trips(s, [d], e)
            && InsertAll(2, [d, e]).out.accepted == [] && InsertAll(2, [d, e]).out.closed
  {
    var d, e := Substring(1, [], true), Substring(0, [], false);
    InsertTwo(2, d, e);
    EndOfOneByte();
    hide Assembly.Insert, InsertAll;
    KnownEndTrips(x);
  }

  lemma OnlyByte(x: u8)
    ensures Start(1).Insert(0, [x], false) == Assembly(Empty(1).(accepted := [x]), map[], None)
  {
    LearnByte(Start(1), 0, x);
    WriteRunIs(Empty(1), map[0 := x], None, 0, [x], map[]);
    assert map[0 := x] + Start(1).pending == map[0 := x];
  }

  lemma FullStreamIgnoresEnd(a: Assembly)
    requires a.out.Valid() && |a.out.accepted| == a.out.Limit()
    ensures a.Insert(|a.out.accepted|, [], true) == a.(end := Some(|a.out.accepted|))
  {
  }

  lemma ByteAndEnd(x: u8)
    ensures var s, d, e := [x], Substring(0, [x], false), Substring(1, [], true);
            d.Of(s) && e.Of(s) && Covered([d, e], 0) && LastSeen([d, e])
  {
    var d, e := Substring(0, [x], false), Substring(1, [], true);
    assert d in [d, e] && d.Has(0) && e in [d, e] && e.last;
  }

  /** An empty last substring just past a full stream records the end but does not close it. */
  lemma FullStreamStaysOpen(x: u8)
    ensures var s, d, e := [x], Substring(0, [x], false), Substring(1, [], true);
            && d.Of(s) && e.Of(s) && Covered([d, e], 0) && LastSeen([d, e])
            && InsertAll(1, [d, e]).out.accepted == s && !InsertAll(1, [d, e]).out.closed
  {
    var d, e := Substring(0, [x], false), Substring(1, [], true);
    hide Assembly.Insert, InsertAll, Covered, LastSeen, Substring.Of;
    ByteAndEnd(x);
    InsertTwo(1, d, e);
    OnlyByte(x);
    FullStreamIgnoresEnd(Assembly(Empty(1).(accepted := [x]), map[], None));
  }
}
