/** What a reassembler does over whole runs, against two simpler descriptions. */
module AssemblyRuns {
  import opened Machine
  import opened ByteStreams
  import opened Assembling

  // ---- Refinement of an index-to-byte map ----

  /** The part of an index-to-byte map below a limit. */
  function Clip(m: map<nat, u8>, limit: nat): map<nat, u8> {
    map i | i in m && i < limit :: m[i]
  }

  /** The simple description: the set of known bytes, a window, and where the stream ends. */
  datatype IndexMap = IndexMap(known: map<nat, u8>, popped: nat, capacity: nat, end: Option<nat>, closed: bool) {

    function Limit(): nat {
      popped + capacity
    }

    /** The first unknown index: everything below it is written out. */
    function Frontier(): nat {
      RunEnd(known, 0, Limit())
    }

    predicate Contiguous() {
      forall i :: i in known ==> i < Frontier()
    }

    /** Learn the bytes below the limit that are not known yet. */
    function Insert(first: nat, data: seq<u8>, last: bool): IndexMap {
      var known' := Clip(Bytes(first, data), Limit()) + known;
      var end' := if last && first + |data| <= Limit() then Some(first + |data|) else end;
      var m := IndexMap(known', popped, capacity, end', closed);
      if first >= Limit() || first + |data| < Frontier() then m else m.CloseIfComplete()
    }

    function CloseIfComplete(): IndexMap {
      if end.Some? && Contiguous() && end.value <= Frontier() then this.(closed := true) else this
    }

    function Pop(len: nat): IndexMap {
      this.(popped := popped + Min(len, Max(0, Frontier() - popped)))
    }
  }

  ghost function Abstract(a: Assembly): IndexMap {
    IndexMap(a.Known(), a.out.popped, a.out.capacity, a.end, a.out.closed)
  }

  /** The output is the known bytes below the frontier, and the pending bytes are those above. */
  lemma FrontierIsOutput(a: Assembly)
    requires a.Valid()
    ensures Abstract(a).Frontier() == |a.out.accepted|
    ensures forall i :: i in a.Known() <==> (0 <= i < |a.out.accepted| || i in a.pending)
    ensures Abstract(a).Contiguous() <==> a.pending == map[]
  {
    RunEndIsUnique(a.Known(), 0, a.out.Limit(), |a.out.accepted|);
  }

  /** The index map determines output and pending bytes: nothing else of the state matters. */
  lemma KnownDeterminesAssembly(a: Assembly, b: Assembly)
    requires a.Valid() && b.Valid() && Abstract(a) == Abstract(b) && a.out.error == b.out.error
    ensures a == b
  {
    FrontierIsOutput(a);
    FrontierIsOutput(b);
    forall i: nat | i < |a.out.accepted|
      ensures a.out.accepted[i] == b.out.accepted[i]
    {
      assert a.Known()[i] == b.Known()[i];
    }
    assert a.out.accepted == b.out.accepted;
    forall i
      ensures i in a.pending <==> i in b.pending
      ensures i in a.pending ==> a.pending[i] == b.pending[i]
    {
      if i in a.pending || i in b.pending {
        assert i in a.Known() && i in b.Known() && a.Known()[i] == b.Known()[i];
      }
    }
    assert a.pending == b.pending;
  }

  /** The bytes continue the output, and each is the known byte at its index. */
  ghost predicate ContinuesWith(from: nat, bytes: seq<u8>, known: map<nat, u8>) {
    forall i :: from <= i < from + |bytes| ==> i in known && known[i] == ByteAt(bytes, from, i)
  }

  lemma WrittenByte(accepted: seq<u8>, bytes: seq<u8>, known: map<nat, u8>, i: nat)
    requires ContinuesWith(|accepted|, bytes, known)
    requires |accepted| <= i < |accepted| + |bytes|
    ensures i in known && ByteAt(accepted + bytes, 0, i) == known[i]
  {
    assert known[i] == ByteAt(bytes, |accepted|, i);
  }

  lemma MoveRun(accepted: seq<u8>, bytes: seq<u8>, known: map<nat, u8>, rest: map<nat, u8>)
    requires forall i :: i in known ==> |accepted| <= i
    requires ContinuesWith(|accepted|, bytes, known)
    requires rest == map i | i in known && !(|accepted| <= i < |accepted| + |bytes|) :: known[i]
    ensures Bytes(0, accepted + bytes) + rest == Bytes(0, accepted) + known
  {
    var n, n' := |accepted|, |accepted| + |bytes|;
    var left, right := Bytes(0, accepted + bytes) + rest, Bytes(0, accepted) + known;
    hide ContinuesWith;
    forall i: nat
      ensures i in left <==> i in right
      ensures i in left ==> left[i] == right[i]
    {
      if n <= i < n' {
        WrittenByte(accepted, bytes, known, i);
      } else if i < n {
        assert ByteAt(accepted + bytes, 0, i) == ByteAt(accepted, 0, i);
      }
    }
  }

  /** The run that is written out, and what stays pending. */
  lemma WriteRunParts(out: Stream, known: map<nat, u8>, end: Option<nat>) returns (bytes: seq<u8>)
    requires out.Valid() && out.capacity >= 1
    requires forall i :: i in known ==> |out.accepted| <= i < out.Limit()
    ensures ContinuesWith(|out.accepted|, bytes, known)
    ensures var b := WriteRun(out, known, end, |out.accepted|);
            && b.out.accepted == out.accepted + bytes
            && b.pending == map i | i in known && !(|out.accepted| <= i < |out.accepted| + |bytes|) :: known[i]
  {
    hide RunEnd, Collect, Stream.Push;
    var from := |out.accepted|;
    WriteRunKeepsWindow(out, known, end, from);
    bytes := Collect(known, from, RunEnd(known, from, out.Limit()));
  }

  /** Writing out changes where bytes are kept, not which bytes are known. */
  lemma WriteRunKeepsKnown(out: Stream, known: map<nat, u8>, end: Option<nat>)
    requires out.Valid() && out.capacity >= 1
    requires forall i :: i in known ==> |out.accepted| <= i < out.Limit()
    ensures WriteRun(out, known, end, |out.accepted|).Known() == Bytes(0, out.accepted) + known
  {
    var bytes := WriteRunParts(out, known, end);
    hide WriteRun, RunEnd, Collect, Bytes, ContinuesWith;
    MoveRun(out.accepted, bytes, known, WriteRun(out, known, end, |out.accepted|).pending);
  }

  lemma WindowIsClip(a: Assembly, first: nat, data: seq<u8>, i: nat)
    requires a.Valid() && i >= |a.out.accepted|
    ensures i in a.WindowBytes(first, data) <==> i in Clip(Bytes(first, data), a.out.Limit())
    ensures i in a.WindowBytes(first, data) ==> a.WindowBytes(first, data)[i] == Clip(Bytes(first, data), a.out.Limit())[i]
  {
  }

  /** What is written wins over everything; what is added or pending lies beyond it. */
  lemma MergeMaps(written: map<nat, u8>, added: map<nat, u8>, clip: map<nat, u8>, pending: map<nat, u8>, n: nat)
    requires forall i :: i in written <==> 0 <= i < n
    requires forall i :: i in added ==> n <= i
    requires forall i :: i in pending ==> n <= i
    requires forall i: nat :: n <= i ==> (i in added <==> i in clip) && (i in added ==> added[i] == clip[i])
    ensures written + (added + pending) == clip + (written + pending)
  {
  }

  lemma LearnIsClip(a: Assembly, first: nat, data: seq<u8>)
    requires a.Valid()
    ensures Bytes(0, a.out.accepted) + a.Learn(first, data) == Clip(Bytes(first, data), a.out.Limit()) + a.Known()
    ensures forall i :: i in a.Learn(first, data) ==> |a.out.accepted| <= i < a.out.Limit()
  {
    var written, clip, added := Bytes(0, a.out.accepted), Clip(Bytes(first, data), a.out.Limit()), a.WindowBytes(first, data);
    assert forall i :: i in written <==> 0 <= i < |a.out.accepted|;
    assert forall i :: i in added ==> |a.out.accepted| <= i < a.out.Limit();
    hide Bytes, Clip, Assembly.WindowBytes;
    forall i: nat | i >= |a.out.accepted|
      ensures (i in added <==> i in clip) && (i in added ==> added[i] == clip[i])
    {
      WindowIsClip(a, first, data, i);
    }
    MergeMaps(written, added, clip, a.pending, |a.out.accepted|);
  }

  /** The stream is closed by an insert that is not ignored and leaves no gap before the end. */
  lemma InsertCloses(a: Assembly, first: nat, data: seq<u8>, last: bool)
    requires a.Valid()
    ensures var b := a.Intended(first, data, last);
            b.out.closed <==> a.out.closed || (!a.Ignored(first, data) && b.end.Some? && b.pending == map[]
                                               && b.end.value <= |b.out.accepted|)
    ensures a.Intended(first, data, last).Valid()
    ensures a.Intended(first, data, last).out.popped == a.out.popped
    ensures a.Intended(first, data, last).out.capacity == a.out.capacity
    ensures a.Intended(first, data, last).end == a.EndAfter(first, data, last)
  {
    if !a.Ignored(first, data) {
      WriteRunKeepsWindow(a.out, a.Learn(first, data), a.EndAfter(first, data, last), |a.out.accepted|);
    }
  }

  lemma InsertExtendsKnown(a: Assembly, first: nat, data: seq<u8>, last: bool)
    requires a.Valid()
    ensures a.Intended(first, data, last).Known() == Clip(Bytes(first, data), a.out.Limit()) + a.Known()
    ensures a.Intended(first, data, last).out.Limit() == a.out.Limit()
  {
    LearnIsClip(a, first, data);
    if a.Ignored(first, data) {
      assert a.WindowBytes(first, data) == map[];
      assert Bytes(0, a.out.accepted) + a.Learn(first, data) == a.Known();
    } else {
      WriteRunKeepsKnown(a.out, a.Learn(first, data), a.EndAfter(first, data, last));
      WriteRunKeepsWindow(a.out, a.Learn(first, data), a.EndAfter(first, data, last), |a.out.accepted|);
    }
  }

  /** The index map after an insert, written with what the reassembler then knows. */
  ghost function OpenMap(a: Assembly, b: Assembly): IndexMap {
    IndexMap(b.Known(), a.out.popped, a.out.capacity, b.end, a.out.closed)
  }

  lemma MapInsertIs(a: Assembly, first: nat, data: seq<u8>, last: bool)
    requires a.Valid()
    ensures var open := OpenMap(a, a.Intended(first, data, last));
            Abstract(a).Insert(first, data, last) == if a.Ignored(first, data) then open else open.CloseIfComplete()
  {
    var m, b := Abstract(a), a.Intended(first, data, last);
    assert m.Limit() == a.out.Limit() && b.end == a.EndAfter(first, data, last);
    FrontierIsOutput(a);
    InsertExtendsKnown(a, first, data, last);
    hide IndexMap.Frontier, IndexMap.CloseIfComplete, Assembly.Known, Bytes, Clip, Assembly.Intended;
    var known' := Clip(Bytes(first, data), m.Limit()) + m.known;
    assert known' == b.Known();
  }

  lemma IntendedClosesIfComplete(a: Assembly, first: nat, data: seq<u8>, last: bool)
    requires a.Valid()
    ensures var b := a.Intended(first, data, last);
            Abstract(b) == if a.Ignored(first, data) then OpenMap(a, b) else OpenMap(a, b).CloseIfComplete()
  {
    var b := a.Intended(first, data, last);
    InsertCloses(a, first, data, last);
    FrontierIsOutput(b);
    var open := OpenMap(a, b);
    assert open.Frontier() == Abstract(b).Frontier() && open.Contiguous() == Abstract(b).Contiguous();
    hide IndexMap.Frontier, IndexMap.Contiguous, Assembly.Known, Assembly.Intended;
  }

  /** Every harmless insert does to the known bytes what the simple description does. */
  lemma InsertRefinesIndexMap(a: Assembly, first: nat, data: seq<u8>, last: bool)
    requires a.Valid() && !a.Hazard(first, data, last)
    ensures Abstract(a.Insert(first, data, last)) == Abstract(a).Insert(first, data, last)
  {
    InsertMeetsIntent(a, first, data, last);
    MapInsertIs(a, first, data, last);
    IntendedClosesIfComplete(a, first, data, last);
  }

  lemma PopRefinesIndexMap(a: Assembly, len: nat)
    requires a.Valid()
    ensures a.(out := a.out.Pop(len)).Valid()
    ensures Abstract(a.(out := a.out.Pop(len))) == Abstract(a).Pop(len)
  {
    FrontierIsOutput(a);
  }

  datatype Op = Insert(first: nat, data: seq<u8>, last: bool) | Pop(len: nat)

  function Apply(a: Assembly, op: Op): Assembly
    requires a.out.Valid()
  {
    match op
    case Insert(first, data, last) => a.Insert(first, data, last)
    case Pop(len) => a.(out := a.out.Pop(len))
  }

  ghost function ApplyMap(m: IndexMap, op: Op): IndexMap {
    match op
    case Insert(first, data, last) => m.Insert(first, data, last)
    case Pop(len) => m.Pop(len)
  }

  lemma ApplyKeepsValid(a: Assembly, op: Op)
    requires a.Valid()
    ensures Apply(a, op).Valid()
  {
    if op.Insert? {
      InsertKeepsWindow(a, op.first, op.data, op.last);
    }
  }

  /** The states along a run, from `a` on. */
  ghost predicate IsRun(run: seq<Assembly>, ops: seq<Op>) {
    && |run| == |ops| + 1
    && run[0].Valid()
    && forall i :: 0 <= i < |ops| ==> run[i].Valid() && run[i + 1] == Apply(run[i], ops[i])
  }

  ghost function RunMap(m: IndexMap, ops: seq<Op>): IndexMap {
    if ops == [] then m else ApplyMap(RunMap(m, ops[..|ops| - 1]), ops[|ops| - 1])
  }

  ghost predicate Harmless(a: Assembly, op: Op) {
    op.Insert? ==> !a.Hazard(op.first, op.data, op.last)
  }

  /** After any harmless sequence of inserts and pops, the reassembler knows exactly what the index map knows. */
  lemma {:induction false} RunRefinesIndexMap(run: seq<Assembly>, ops: seq<Op>)
    requires IsRun(run, ops)
    requires forall i :: 0 <= i < |ops| ==> Harmless(run[i], ops[i])
    ensures run[|ops|].Valid()
    ensures Abstract(run[|ops|]) == RunMap(Abstract(run[0]), ops)
  {
    if ops == [] {
    } else {
      var n := |ops| - 1;
      RunRefinesIndexMap(run[..n + 1], ops[..n]);
      ApplyKeepsValid(run[n], ops[n]);
      match ops[n]
      case Insert(first, data, last) => InsertRefinesIndexMap(run[n], first, data, last);
      case Pop(len) => PopRefinesIndexMap(run[n], len);
    }
  }
}
