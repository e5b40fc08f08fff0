/** A bounded in-memory byte stream: a writer pushes at one end, a reader pops at the other. */
module ByteStreams {
  import opened Machine

  /** What a stream means: every byte ever accepted, and how many of them have been popped. */
  datatype Stream = Stream(capacity: nat, accepted: seq<u8>, popped: nat, closed: bool, error: bool) {

    ghost predicate Valid() {
      popped <= |accepted| <= popped + capacity
    }

    function Buffered(): seq<u8>
      requires Valid()
    {
      accepted[popped..]
    }

    /** One past the last index the stream could hold now: bytes pushed plus available capacity. */
    function Limit(): nat {
      popped + capacity
    }

    function Available(): nat
      requires Valid()
    {
      Limit() - |accepted|
    }

    function Push(data: seq<u8>): (s: Stream)
      requires Valid()
      ensures s.Valid()
    {
      this.(accepted := accepted + data[..Min(Available(), |data|)])
    }

    function Pop(len: nat): (s: Stream)
      requires Valid()
      ensures s.Valid()
    {
      this.(popped := popped + Min(len, |accepted| - popped))
    }

    function Close(): Stream {
      this.(closed := true)
    }

    predicate Finished()
      requires Valid()
    {
      closed && |accepted| == popped
    }
  }

  function Empty(capacity: nat): Stream {
    Stream(capacity, [], 0, false, false)
  }

  /** The stream object: a growing buffer whose popped prefix is erased lazily. */
  class ByteStream {
    const capacity: nat
    var error: bool
    var buffer: seq<u8>
    var numBytesPushed: nat
    var numBytesPopped: nat
    var closed: bool
    var startIndex: nat
    var endIndex: nat
    var bufferSize: nat

    ghost var accepted: seq<u8>  // every byte ever accepted
    ghost var moved: nat         // bytes moved to the front by all erasures so far

    /**
     * Besides tying the buffer to the accepted bytes, the invariant bounds the storage by twice the
     * capacity and the cost of compaction by the number of bytes popped.
     */
    ghost predicate Valid()
      reads this
    {
      && bufferSize <= capacity
      && |buffer| == endIndex == startIndex + bufferSize
      && |buffer| <= 2 * capacity
      && numBytesPushed == |accepted|
      && numBytesPopped + bufferSize == |accepted|
      && buffer[startIndex..] == accepted[numBytesPopped..]
      && moved + startIndex <= numBytesPopped
    }

    ghost function View(): (s: Stream)
      reads this
      requires Valid()
      ensures s.Valid()
    {
      Stream(capacity, accepted, numBytesPopped, closed, error)
    }

    constructor (capacity: nat)
      ensures Valid() && View() == Empty(capacity) && moved == 0
    {
      this.capacity := capacity;
      error, closed := false, false;
      buffer, accepted := [], [];
      numBytesPushed, numBytesPopped := 0, 0;
      startIndex, endIndex, bufferSize, moved := 0, 0, 0, 0;
    }

    /** Erase the popped bytes at the front once they are more than half of the storage. */
    method Compact()
      requires Valid()
      modifies this`moved, this`buffer, this`endIndex, this`startIndex
      ensures Valid() && View() == old(View()) && startIndex <= |buffer| / 2
    {
      if startIndex > |buffer| / 2 {
        moved := moved + bufferSize;
        buffer := buffer[startIndex..];
        endIndex := endIndex - startIndex;
        startIndex := 0;
      }
    }

    method Push(data: seq<u8>)
      requires Valid()
      modifies this
      ensures Valid() && View() == old(View()).Push(data)
      ensures moved <= numBytesPopped && |buffer| <= 2 * capacity
    {
      Compact();
      var dataSize := |data|;
      var numBytesToPush := Min(AvailableCapacity(), dataSize);
      buffer := buffer + data[..numBytesToPush];
      accepted := accepted + data[..numBytesToPush];
      numBytesPushed := numBytesPushed + numBytesToPush;
      endIndex := endIndex + numBytesToPush;
      bufferSize := bufferSize + numBytesToPush;
    }

    method Close()
      requires Valid()
      modifies this
      ensures Valid() && View() == old(View()).Close()
    {
      closed := true;
    }

    method SetError()
      requires Valid()
      modifies this
      ensures Valid() && View() == old(View()).(error := true)
    {
      error := true;
    }

    function AvailableCapacity(): (n: nat)
      reads this
      requires Valid()
      ensures n == View().Available()
    {
      capacity - bufferSize
    }

    function BytesPushed(): (n: nat)
      reads this
      requires Valid()
      ensures n == |View().accepted|
    {
      numBytesPushed
    }

    /** The buffered bytes, in the order they were accepted. */
    method Peek() returns (view: seq<u8>)
      requires Valid()
      ensures view == View().Buffered()
    {
      if buffer == [] {
        return [];
      }
      return buffer[startIndex..][..bufferSize];
    }

    method Pop(len: nat)
      requires Valid()
      modifies this
      ensures Valid() && View() == old(View()).Pop(len)
      ensures moved <= numBytesPopped
    {
      var numBytesToPop := Min(len, BytesBuffered());
      startIndex := startIndex + numBytesToPop;
      bufferSize := bufferSize - numBytesToPop;
      numBytesPopped := numBytesPopped + numBytesToPop;
    }

    predicate IsFinished(): (b: bool)
      reads this
      requires Valid()
      ensures b == View().Finished()
    {
      closed && BytesBuffered() == 0
    }

    function BytesBuffered(): (n: nat)
      reads this
      requires Valid()
      ensures n == |View().Buffered()|
    {
      bufferSize
    }
  }

  // ---- Runs of a stream ----

  datatype Op = Push(data: seq<u8>) | Pop(len: nat) | Close

  function Apply(s: Stream, op: Op): (s': Stream)
    requires s.Valid()
    ensures s'.Valid()
  {
    match op
    case Push(data) => s.Push(data)
    case Pop(len) => s.Pop(len)
    case Close => s.Close()
  }

  function Run(s: Stream, ops: seq<Op>): (s': Stream)
    requires s.Valid()
    ensures s'.Valid()
    decreases |ops|
  {
    if ops == [] then s else Run(Apply(s, ops[0]), ops[1..])
  }

  /** What the writer puts in by one operation: the part of a push that fits. */
  function PutBy(s: Stream, op: Op): seq<u8>
    requires s.Valid()
  {
    if op.Push? then op.data[..Min(s.Available(), |op.data|)] else []
  }

  /** What the reader takes out by one operation: the front of what is buffered. */
  function TakenBy(s: Stream, op: Op): seq<u8>
    requires s.Valid()
  {
    if op.Pop? then s.Buffered()[..Min(op.len, |s.Buffered()|)] else []
  }

  function Put(s: Stream, ops: seq<Op>): seq<u8>
    requires s.Valid()
    decreases |ops|
  {
    if ops == [] then [] else PutBy(s, ops[0]) + Put(Apply(s, ops[0]), ops[1..])
  }

  function Taken(s: Stream, ops: seq<Op>): seq<u8>
    requires s.Valid()
    decreases |ops|
  {
    if ops == [] then [] else TakenBy(s, ops[0]) + Taken(Apply(s, ops[0]), ops[1..])
  }

  lemma OneOperation(s: Stream, op: Op)
    requires s.Valid()
    ensures s.Buffered() + PutBy(s, op) == TakenBy(s, op) + Apply(s, op).Buffered()
  {
  }

  lemma Regroup<T>(a: seq<T>, b: seq<T>, c: seq<T>, d: seq<T>, e: seq<T>, f: seq<T>, g: seq<T>)
    requires a + b == d + e && e + c == f + g
    ensures a + (b + c) == (d + f) + g
  {
    calc {
      a + (b + c);
      (a + b) + c;
      d + (e + c);
      (d + f) + g;
    }
  }

  /** First in, first out over every run: buffered ++ put in == taken out ++ still buffered. */
  lemma {:induction false} FirstInFirstOut(s: Stream, ops: seq<Op>)
    requires s.Valid()
    ensures s.Buffered() + Put(s, ops) == Taken(s, ops) + Run(s, ops).Buffered()
    decreases |ops|
  {
    if ops == [] {
    } else {
      var s', rest := Apply(s, ops[0]), ops[1..];
      OneOperation(s, ops[0]);
      FirstInFirstOut(s', rest);
      Regroup(s.Buffered(), PutBy(s, ops[0]), Put(s', rest),
              TakenBy(s, ops[0]), s'.Buffered(), Taken(s', rest), Run(s', rest).Buffered());
    }
  }
  lemma {:induction false} RunKeeps(s: Stream, ops: seq<Op>)
    requires s.Valid()
    ensures Run(s, ops).closed <==> s.closed || Op.Close in ops
    ensures Run(s, ops).capacity == s.capacity && Run(s, ops).error == s.error
    decreases |ops|
  {
    if ops == [] {
    } else {
      RunKeeps(Apply(s, ops[0]), ops[1..]);
      assert ops == [ops[0]] + ops[1..];
    }
  }

  /**
   * In every run of a new stream: it is finished exactly when it was closed and everything put in was taken out, and
   * what is buffered and what is available make up the capacity.
   */
  lemma FinishedExactly(capacity: nat, ops: seq<Op>)
    ensures var s0 := Empty(capacity);
            var s := Run(s0, ops);
            && (s.Finished() <==> Op.Close in ops && Put(s0, ops) == Taken(s0, ops))
            && s.Available() + |s.Buffered()| == capacity
  {
    var s0 := Empty(capacity);
    RunKeeps(s0, ops);
    FirstInFirstOut(s0, ops);
    hide Run, Put, Taken;
    assert s0.Buffered() + Put(s0, ops) == Put(s0, ops);
    assert |Taken(s0, ops) + Run(s0, ops).Buffered()| == |Taken(s0, ops)| + |Run(s0, ops).Buffered()|;
    assert Taken(s0, ops) + [] == Taken(s0, ops);
  }
}
