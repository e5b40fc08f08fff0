/** What a reassembler means: bytes already written out, later bytes it knows, and where the stream ends. */
module Assembling {
  import opened Machine
  import opened ByteStreams

  /** The byte at stream index `i` of a substring that starts at index `first`. */
  function ByteAt(data: seq<u8>, first: nat, i: nat): u8
    requires first <= i < first + |data|
  {
    data[i - first]
  }

  /** A substring as an index-to-byte map. */
  function Bytes(first: nat, data: seq<u8>): map<nat, u8> {
    map i: nat | first <= i < first + |data| :: ByteAt(data, first, i)
  }

  /** The last of the indices below `n` as the source computes it: converted to a 32-bit int, and at least 0. */
  function LastIndex(n: nat): (r: nat)
    ensures r < TWO31
    ensures n <= TWO31 ==> r == Max(n - 1, 0)
  {
    Max(ToInt32(n - 1), 0)
  }

  datatype Assembly = Assembly(out: Stream, pending: map<nat, u8>, end: Option<nat>) {

    ghost predicate Valid() {
      && out.Valid()
      && out.capacity >= 1
      && forall i :: i in pending ==> |out.accepted| < i < out.Limit()
    }

    /** An empty substring at index 0 while nothing is written: the source then stores a one-byte entry without a byte. */
    predicate Phantom(first: nat, data: seq<u8>) {
      out.accepted == [] && first == 0 && data == []
    }

    /** The end is recorded when the last substring ends inside the window. */
    function EndAfter(first: nat, data: seq<u8>, last: bool): Option<nat> {
      if last && first + |data| <= out.Limit() then Some(first + |data|) else end
    }

    /** The substring lies beyond the window, or strictly before the next byte. */
    predicate Ignored(first: nat, data: seq<u8>) {
      first >= out.Limit() || first + |data| < |out.accepted|
    }

    /** The part of a substring inside the window. */
    function WindowBytes(first: nat, data: seq<u8>): map<nat, u8> {
      map i: nat | Max(|out.accepted|, first) <= i < Min(out.Limit(), first + |data|) :: ByteAt(data, first, i)
    }

    /** Known bytes win; the substring adds only the missing indices inside the window. */
    function Learn(first: nat, data: seq<u8>): map<nat, u8> {
      WindowBytes(first, data) + pending
    }

    /** What the code does with a substring. */
    function Insert(first: nat, data: seq<u8>, last: bool): Assembly
      requires out.Valid()
    {
      var end' := EndAfter(first, data, last);
      if Ignored(first, data) then this.(end := end')
      else WriteRun(out, Learn(first, data), end', if Phantom(first, data) then 1 else |out.accepted|)
    }

    /** What its documentation asks for: always write from the next missing byte. */
    function Intended(first: nat, data: seq<u8>, last: bool): Assembly
      requires out.Valid()
    {
      var end' := EndAfter(first, data, last);
      if Ignored(first, data) then this.(end := end')
      else WriteRun(out, Learn(first, data), end', |out.accepted|)
    }

    /** The states in which an empty substring at index 0 does harm. */
    predicate Hazard(first: nat, data: seq<u8>, last: bool) {
      && Phantom(first, data)
      && (1 in pending || (pending == map[] && !out.closed && EndAfter(first, data, last) == Some(1)))
    }

    function EndAsRecorded(first: nat, data: seq<u8>, last: bool): Option<nat> {
      if last && LastIndex(first + |data|) <= LastIndex(out.Limit()) then Some(first + |data|) else end
    }

    function CloseAtEnd(): Assembly {
      if end.Some? && end.value <= |out.accepted| then this.(out := out.Close()) else this
    }

    /** The 32-bit casts leave the smaller last index as it is, and which of the two it is where that decides the end. */
    predicate CastsAreHarmless(first: nat, data: seq<u8>, last: bool) {
      var m, n := out.Limit(), first + |data|;
      && Min(LastIndex(m), LastIndex(n)) == Max(Min(m, n) - 1, 0)
      && (last ==> (LastIndex(n) <= LastIndex(m) <==> n <= m))
    }

    /**
     * What the code does with nothing pending once 2^31 bytes are written: every last index it computes lies below
     * the next byte, so nothing is stored; only the end may be recorded.
     */
    function InsertBeyond(first: nat, data: seq<u8>, last: bool): Assembly {
      var a := this.(end := EndAsRecorded(first, data, last));
      if Ignored(first, data) then a else a.CloseAtEnd()
    }

    /** All bytes known so far, written out or pending. */
    ghost function Known(): map<nat, u8> {
      Bytes(0, out.accepted) + pending
    }
  }

  /** The first index at or after `from` that is not known (indices from `limit` on never are). */
  function RunEnd(known: map<nat, u8>, from: nat, limit: nat): (upto: nat)
    ensures from <= upto <= Max(from, limit)
    ensures forall i :: from <= i < upto ==> i in known
    ensures upto < limit ==> upto !in known
    decreases limit - from
  {
    if from < limit && from in known then RunEnd(known, from + 1, limit) else from
  }

  function Collect(known: map<nat, u8>, from: nat, upto: nat): (bytes: seq<u8>)
    requires from <= upto && forall i :: from <= i < upto ==> i in known
    ensures |bytes| == upto - from && forall i :: from <= i < upto ==> bytes[i - from] == known[i]
  {
    seq(upto - from, j requires 0 <= j < upto - from => known[from + j])
  }

  /** Write out the run of known bytes that starts at `from`, and close once the end is reached. */
  function WriteRun(out: Stream, known: map<nat, u8>, end: Option<nat>, from: nat): Assembly
    requires out.Valid()
  {
    var upto := RunEnd(known, from, out.Limit());
    var out' := out.Push(Collect(known, from, upto));
    var rest := map i | i in known && !(from <= i < upto) :: known[i];
    Assembly(if end.Some? && rest == map[] && end.value <= upto then out'.Close() else out', rest, end)
  }

  /** Writing may start at the next byte, or one later if that byte is not known. */
  ghost predicate CanStartAt(out: Stream, known: map<nat, u8>, from: nat)
    requires out.Valid()
  {
    && from <= out.Limit()
    && (from == |out.accepted| || (from == |out.accepted| + 1 && |out.accepted| !in known))
  }

  lemma RunEndIsUnique(known: map<nat, u8>, from: nat, limit: nat, upto: nat)
    requires from <= upto <= Max(from, limit)
    requires forall i :: from <= i < upto ==> i in known
    requires upto < limit ==> upto !in known
    ensures RunEnd(known, from, limit) == upto
  {
  }

  /** Writing out a run of window bytes is never truncated and leaves only bytes beyond it pending. */
  lemma WriteRunKeepsWindow(out: Stream, known: map<nat, u8>, end: Option<nat>, from: nat)
    requires out.Valid() && out.capacity >= 1
    requires forall i :: i in known ==> |out.accepted| <= i < out.Limit()
    requires CanStartAt(out, known, from)
    ensures var b := WriteRun(out, known, end, from);
            && b.Valid()
            && b.out.accepted == out.accepted + Collect(known, from, RunEnd(known, from, out.Limit()))
            && b.out.Limit() == out.Limit()
  {
    hide RunEnd, Collect;
    var b, limit := WriteRun(out, known, end, from), out.Limit();
    var upto := RunEnd(known, from, limit);
    var bytes := Collect(known, from, upto);
    assert upto <= limit;
    assert bytes[..|bytes|] == bytes;
    assert b.out.accepted == out.accepted + bytes;
    forall i | i in b.pending
      ensures |b.out.accepted| < i < limit
    {
      assert i in known && !(from <= i < upto);
    }
  }

  /** Every insert keeps the pending bytes strictly inside the window and only appends to the output. */
  lemma InsertKeepsWindow(a: Assembly, first: nat, data: seq<u8>, last: bool)
    requires a.Valid()
    ensures a.Insert(first, data, last).Valid()
    ensures a.out.accepted <= a.Insert(first, data, last).out.accepted
    ensures a.Insert(first, data, last).out.Limit() == a.out.Limit()
  {
    if !a.Ignored(first, data) {
      WriteRunKeepsWindow(a.out, a.Learn(first, data), a.EndAfter(first, data, last),
                          if a.Phantom(first, data) then 1 else |a.out.accepted|);
    }
  }

  lemma InsertMeetsIntent(a: Assembly, first: nat, data: seq<u8>, last: bool)
    requires a.Valid()
    ensures a.Insert(first, data, last) == a.Intended(first, data, last) <==> !a.Hazard(first, data, last)
  {
    if a.Phantom(first, data) {
      assert a.Learn(first, data) == a.pending;
      var end' := a.EndAfter(first, data, last);
      var x, y := WriteRun(a.out, a.pending, end', 1), WriteRun(a.out, a.pending, end', 0);
      if 1 in a.pending {
        assert |x.out.accepted| > |y.out.accepted|;
      } else {
        assert Collect(a.pending, 0, 0) == Collect(a.pending, 1, 1) == [];
        assert x.pending == y.pending == a.pending;
      }
    }
  }
}
