/** What becomes of a stream of more than 2^31 bytes. */
module AssemblyLimits {
  import opened Machine
  import ByteStreams
  import opened Assembling
  import opened AssemblyRuns

  /** As long as no index exceeds 2^31 the casts do nothing. */
  lemma SmallIndicesAreHarmless(a: Assembly, first: nat, data: seq<u8>, last: bool)
    requires a.Valid() && first + |data| <= TWO31 && a.out.Limit() <= TWO31
    ensures a.CastsAreHarmless(first, data, last)
  {
  }

  /** Once the smaller of the two limits lies beyond 2^31, they never are. */
  lemma LargeIndicesAreNot(a: Assembly, first: nat, data: seq<u8>, last: bool)
    requires first + |data| > TWO31 && a.out.Limit() > TWO31
    ensures !a.CastsAreHarmless(first, data, last)
  {
  }

  /** 2^31 bytes or more are written, and nothing is pending. */
  ghost predicate Full(a: Assembly) {
    a.Valid() && |a.out.accepted| >= TWO31 && a.pending == map[]
  }

  /** The substring has the next byte, and there is room for it. */
  predicate HasNext(a: Assembly, first: nat, data: seq<u8>)
    requires a.out.Valid()
  {
    first <= |a.out.accepted| < Min(a.out.Limit(), first + |data|)
  }

  lemma LearnsNext(a: Assembly, first: nat, data: seq<u8>)
    requires Full(a)
    ensures |a.out.accepted| in a.Learn(first, data) <==> HasNext(a, first, data)
  {
    var n := |a.out.accepted|;
    assert n in a.WindowBytes(first, data) <==> HasNext(a, first, data);
    assert n in a.Learn(first, data) <==> n in a.WindowBytes(first, data);
  }

  function ApplyBeyond(a: Assembly, op: Op): Assembly
    requires a.out.Valid()
  {
    match op
    case Insert(first, data, last) => a.InsertBeyond(first, data, last)
    case Pop(len) => a.(out := a.out.Pop(len))
  }

  lemma StaysFull(a: Assembly, op: Op)
    requires Full(a)
    ensures Full(ApplyBeyond(a, op)) && ApplyBeyond(a, op).out.accepted == a.out.accepted
  {
  }

  /** Beyond 2^31 the code writes what it should exactly when that is nothing. */
  lemma BeyondIsRightIffNothingIsDue(a: Assembly, first: nat, data: seq<u8>, last: bool)
    requires Full(a)
    ensures a.InsertBeyond(first, data, last).out.accepted == a.Intended(first, data, last).out.accepted
            <==> !HasNext(a, first, data)
    ensures Full(a.InsertBeyond(first, data, last))
  {
    StaysFull(a, Insert(first, data, last));
    if !a.Ignored(first, data) {
      var n, known, b := |a.out.accepted|, a.Learn(first, data), a.Intended(first, data, last);
      LearnsNext(a, first, data);
      hide Assembly.Learn, Assembly.InsertBeyond;
      WriteRunKeepsWindow(a.out, known, a.EndAfter(first, data, last), n);
      assert |b.out.accepted| == n + |Collect(known, n, RunEnd(known, n, a.out.Limit()))|;
    }
  }

  /** The end may still be recorded, in the order of the casts, and reaching it closes the stream. */
  lemma BeyondClosesExactly(a: Assembly, first: nat, data: seq<u8>, last: bool)
    requires Full(a)
    ensures var b, m, n := a.InsertBeyond(first, data, last), a.out.Limit(), first + |data|;
            && b.end == (if last && Max(ToInt32(n - 1), 0) <= Max(ToInt32(m - 1), 0) then Some(n) else a.end)
            && (b.out.closed <==> a.out.closed
                                  || (first < m && |a.out.accepted| <= n && b.end.Some? && b.end.value <= |a.out.accepted|))
  {
  }

  /** From then on nothing is ever written again, whatever arrives and however much is read. */
  lemma {:induction false} NothingIsWrittenAgain(run: seq<Assembly>, ops: seq<Op>)
    requires |run| == |ops| + 1 && Full(run[0])
    requires forall i :: 0 <= i < |ops| ==> run[i].out.Valid() && run[i + 1] == ApplyBeyond(run[i], ops[i])
    ensures Full(run[|ops|]) && run[|ops|].out.accepted == run[0].out.accepted
  {
    if ops == [] {
    } else {
      var n := |ops| - 1;
      hide Full, ApplyBeyond;
      NothingIsWrittenAgain(run[..n + 1], ops[..n]);
      StaysFull(run[n], ops[n]);
    }
  }

  lemma LearnAll(a: Assembly, s: seq<u8>)
    requires a.out.accepted == [] && a.pending == map[] && |s| <= a.out.Limit()
    ensures a.Learn(0, s) == Bytes(0, s)
  {
    assert Bytes(0, s) + map[] == Bytes(0, s);
  }

  lemma BytesFromStart(s: seq<u8>)
    ensures forall i: nat :: i in Bytes(0, s) <==> i < |s|
    ensures forall i: nat :: i < |s| ==> Bytes(0, s)[i] == s[i]
    ensures (map i | i in Bytes(0, s) && !(0 <= i < |s|) :: Bytes(0, s)[i]) == map[]
  {
    assert forall i: nat :: i < |s| ==> ByteAt(s, 0, i) == s[i];
  }

  lemma AllIsWritten(out: ByteStreams.Stream, s: seq<u8>)
    requires out.Valid() && out.capacity >= 1 && out.accepted == [] && |s| <= out.Limit()
    ensures WriteRun(out, Bytes(0, s), None, 0) == Assembly(out.(accepted := s), map[], None)
  {
    hide Bytes, RunEnd, Collect;
    var known, n := Bytes(0, s), |s|;
    BytesFromStart(s);
    RunEndIsUnique(known, 0, out.Limit(), n);
    WriteRunKeepsWindow(out, known, None, 0);
    assert Collect(known, 0, n) == s;
    assert [] + s == s;
  }

  lemma WholeStreamAtOnce(s: seq<u8>)
    requires |s| == TWO31
    ensures Assembly(ByteStreams.Empty(TWO31), map[], None).Insert(0, s, false)
            == Assembly(ByteStreams.Empty(TWO31).(accepted := s), map[], None)
  {
    hide Assembly.Learn, WriteRun, Bytes;
    var out := ByteStreams.Empty(TWO31);
    LearnAll(Assembly(out, map[], None), s);
    AllIsWritten(out, s);
  }

  lemma AllIsRead(s: seq<u8>)
    requires |s| == TWO31
    ensures Apply(Apply(Assembly(ByteStreams.Empty(TWO31), map[], None), Insert(0, s, false)), Pop(TWO31))
            == Assembly(ByteStreams.Empty(TWO31).(accepted := s, popped := TWO31), map[], None)
  {
    hide Assembly.Insert;
    WholeStreamAtOnce(s);
  }

  /**
   * A run that gets there: 2^31 bytes arrive in order and are read. The next byte fits, and should be written, but
   * the code loses it.
   */
  lemma NextByteIsLost(s: seq<u8>, x: u8)
    requires |s| == TWO31
    ensures var a0 := Assembly(ByteStreams.Empty(TWO31), map[], None);
            var a := Apply(Apply(a0, Insert(0, s, false)), Pop(TWO31));
            && a0.CastsAreHarmless(0, s, false)
            && Full(a) && a.out.popped == TWO31 && HasNext(a, TWO31, [x])
            && a.InsertBeyond(TWO31, [x], false).out.accepted == s != a.Intended(TWO31, [x], false).out.accepted
  {
    var a0 := Assembly(ByteStreams.Empty(TWO31), map[], None);
    hide Assembly.Insert, Assembly.Intended, Assembly.InsertBeyond, Assembly.CastsAreHarmless;
    SmallIndicesAreHarmless(a0, 0, s, false);
    AllIsRead(s);
    var a := Apply(Apply(a0, Insert(0, s, false)), Pop(TWO31));
    hide Apply;
    StaysFull(a, Insert(TWO31, [x], false));
    BeyondIsRightIffNothingIsDue(a, TWO31, [x], false);
  }
}
