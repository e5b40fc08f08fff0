/** Reading bytes from a list of buffers, and writing bytes into one. */
module Parsing {
  import opened Machine
  import opened Checksums
  import opened BigEndians

  // ---- Lists of buffers ----

  predicate NoneEmpty(pieces: seq<seq<u8>>) {
    forall i :: 0 <= i < |pieces| ==> pieces[i] != []
  }

  lemma {:induction false} ConcatSplits(a: seq<seq<u8>>, b: seq<seq<u8>>)
    ensures Concat(a + b) == Concat(a) + Concat(b)
  {
    if b == [] {
      assert a + b == a;
    } else {
      var front, last := b[..|b| - 1], b[|b| - 1];
      ConcatSplits(a, front);
      assert (a + b)[..|a + b| - 1] == a + front;
      assert Concat(a) + (Concat(front) + last) == (Concat(a) + Concat(front)) + last;
    }
  }

  lemma ConcatOne(a: seq<u8>)
    ensures Concat([a]) == a
  {
    assert [a][..0] == [];
  }

  lemma ConcatFront(pieces: seq<seq<u8>>)
    requires pieces != []
    ensures Concat(pieces) == pieces[0] + Concat(pieces[1..])
  {
    ConcatSplits([pieces[0]], pieces[1..]);
    ConcatOne(pieces[0]);
    assert pieces == [pieces[0]] + pieces[1..];
  }

  function Minus(a: nat, b: nat): nat {
    if a <= b then 0 else a - b
  }

  /** The leading buffers that fit in a number of bytes. */
  function WholeBuffers(list: seq<seq<u8>>, len: nat): seq<seq<u8>> {
    if list == [] || len < |list[0]| then [] else [list[0]] + WholeBuffers(list[1..], len - |list[0]|)
  }

  /** A list of buffers of which the first `skip` bytes are used up, and the number of bytes left. */
  datatype Buffers = Buffers(size: nat, list: seq<seq<u8>>, skip: nat) {

    function Rest(): seq<u8> {
      if list == [] || skip > |Concat(list)| then [] else Concat(list)[skip..]
    }

    ghost predicate Valid() {
      && NoneEmpty(list)
      && (list != [] ==> skip < |list[0]|)
      && size == |Rest()|
    }

    /** What removing a prefix leaves: buffers that are used up go, of the next one more is skipped. */
    function Drop(k: nat): Buffers
      decreases |list|
    {
      if k == 0 || list == [] then this
      else if skip + k < |list[0]| then Buffers(Minus(size, k), list, skip + k)
      else
        var used := Minus(|list[0]|, skip);
        Buffers(Minus(size, used), list[1..], 0).Drop(Minus(k, used))
    }

    /**
     * What `truncate` leaves: it counts from the start of the first buffer, whatever was skipped, and of a buffer
     * that would have to be cut short it keeps nothing.
     */
    function Truncate(len: nat): Buffers {
      if size <= len then this
      else if len == 0 then this.(list := [], size := 0)
      else this.(list := WholeBuffers(list, len), size := len)
    }
  }

  /** Some buffer ends after exactly this many bytes, or there are none to take. */
  predicate BoundaryAt(list: seq<seq<u8>>, len: nat) {
    len == 0 || (list != [] && |list[0]| <= len && BoundaryAt(list[1..], len - |list[0]|))
  }

  lemma {:induction false} WholeBuffersIsPrefix(list: seq<seq<u8>>, len: nat)
    requires NoneEmpty(list)
    ensures var whole := WholeBuffers(list, len);
            && Concat(whole) <= Concat(list) && |Concat(whole)| <= len && NoneEmpty(whole)
            && (|Concat(whole)| == len <==> BoundaryAt(list, len))
  {
    if list == [] || len < |list[0]| {
    } else {
      WholeBuffersIsPrefix(list[1..], len - |list[0]|);
      ConcatFront(list);
      ConcatFront(WholeBuffers(list, len));
    }
  }

  /**
   * `truncate` leaves the first bytes of the rest exactly when nothing or everything is cut, or nothing is skipped
   * and the cut falls between two buffers.
   */
  lemma TruncateIsPrefix(b: Buffers, len: nat)
    requires b.Valid()
    ensures b.Truncate(len).Valid() && b.Truncate(len).Rest() == b.Rest()[..Min(len, b.size)]
            <==> b.size <= len || len == 0 || (b.skip == 0 && BoundaryAt(b.list, len))
  {
    if 0 < len < b.size {
      WholeBuffersIsPrefix(b.list, len);
      var t := b.Truncate(len);
      assert |t.Rest()| == len ==> |Concat(t.list)| == len && b.skip == 0;
    }
  }

  lemma RestFront(b: Buffers)
    requires NoneEmpty(b.list) && b.list != [] && b.skip < |b.list[0]|
    ensures b.Rest() == b.list[0][b.skip..] + Concat(b.list[1..])
  {
    ConcatFront(b.list);
  }

  lemma RestInPieces(b: Buffers)
    requires NoneEmpty(b.list) && b.list != [] && b.skip < |b.list[0]|
    ensures Concat([b.list[0][b.skip..]] + b.list[1..]) == b.Rest()
    ensures NoneEmpty([b.list[0][b.skip..]] + b.list[1..])
  {
    RestFront(b);
    ConcatSplits([b.list[0][b.skip..]], b.list[1..]);
    ConcatOne(b.list[0][b.skip..]);
  }

  lemma SomethingLeft(b: Buffers)
    requires b.Valid()
    ensures b.size > 0 <==> b.list != []
  {
    if b.list == [] {
    } else {
      RestFront(b);
    }
  }

  /** Using up the first buffer. */
  lemma DropFront(b: Buffers)
    requires b.Valid() && b.list != []
    ensures var used := |b.list[0]| - b.skip;
            var b' := Buffers(Minus(b.size, used), b.list[1..], 0);
            0 < used <= b.size && b'.Valid() && b'.size == b.size - used && b'.Rest() == b.Rest()[used..]
  {
    RestFront(b);
    if |b.list| > 1 {
      ConcatFront(b.list[1..]);
    }
  }

  lemma FrontFits(b: Buffers)
    requires b.Valid() && b.list != []
    ensures 0 < |b.list[0]| - b.skip <= b.size == |b.Rest()|
  {
    RestFront(b);
  }

  lemma DropInside(b: Buffers, k: nat)
    requires b.Valid() && b.list != [] && b.skip + k < |b.list[0]|
    ensures k <= b.size && b.Drop(k).Valid() && b.Drop(k).size == b.size - k && b.Drop(k).Rest() == b.Rest()[k..]
  {
    hide Concat, NoneEmpty;
    FrontFits(b);
    assert k > 0 ==> b.Drop(k) == Buffers(b.size - k, b.list, b.skip + k);
  }

  lemma DropPastFront(b: Buffers, k: nat) returns (used: nat, b': Buffers)
    requires b.Valid() && b.list != [] && |b.list[0]| <= b.skip + k
    ensures 0 < used == |b.list[0]| - b.skip <= b.size && used <= k
    ensures b' == Buffers(b.size - used, b.list[1..], 0) && b'.Valid() && b'.Rest() == b.Rest()[used..]
    ensures b.Drop(k) == b'.Drop(k - used)
  {
    hide Concat, NoneEmpty, Buffers.Rest;
    DropFront(b);
    used := |b.list[0]| - b.skip;
    b' := Buffers(b.size - used, b.list[1..], 0);
  }

  lemma {:induction false} DropLeavesRest(b: Buffers, k: nat)
    requires b.Valid() && k <= b.size
    ensures b.Drop(k).Valid() && b.Drop(k).size == b.size - k && b.Drop(k).Rest() == b.Rest()[k..]
    decreases |b.list|
  {
    hide Concat, NoneEmpty;
    if b.list == [] {
    } else if b.skip + k < |b.list[0]| {
      DropInside(b, k);
    } else {
      var used, b' := DropPastFront(b, k);
      hide Buffers.Rest, Buffers.Drop;
      DropLeavesRest(b', k - used);
      assert b.Rest()[used..][k - used..] == b.Rest()[k..];
    }
  }

  lemma DropInsideTwice(b: Buffers, i: nat, j: nat)
    requires b.Valid() && i + j <= b.size && (b.list == [] || b.skip + i < |b.list[0]|)
    ensures b.Drop(i).Drop(j) == b.Drop(i + j)
  {
    hide Concat, NoneEmpty, Buffers.Rest;
    if b.list == [] {
    } else {
      assert b.Drop(i) == Buffers(b.size - i, b.list, b.skip + i);
    }
  }

  lemma {:induction false} DropTwice(b: Buffers, i: nat, j: nat)
    requires b.Valid() && i + j <= b.size
    ensures b.Drop(i).Drop(j) == b.Drop(i + j)
    decreases |b.list|
  {
    if b.list == [] || b.skip + i < |b.list[0]| {
      DropInsideTwice(b, i, j);
    } else {
      hide Concat, NoneEmpty, Buffers.Rest, Buffers.Drop;
      var used, b' := DropPastFront(b, i);
      var _, _ := DropPastFront(b, i + j);
      DropTwice(b', i - used, j);
    }
  }

  lemma BoundaryAfterFront(list: seq<seq<u8>>, n: nat)
    requires list != [] && list[0] != []
    ensures BoundaryAt(list, |list[0]| + n) <==> BoundaryAt(list[1..], n)
  {
  }

  lemma DropInsideKeepsBoundaries(b: Buffers, k: nat, n: nat)
    requires b.Valid() && k <= b.size && (b.list == [] || b.skip + k < |b.list[0]|)
    ensures BoundaryAt(b.Drop(k).list, b.Drop(k).skip + n) <==> BoundaryAt(b.list, b.skip + k + n)
  {
    hide BoundaryAt, Concat, NoneEmpty;
    assert b.Drop(k).list == b.list && b.Drop(k).skip == b.skip + k;
  }

  /** Where the remaining buffers end does not depend on how much was removed. */
  lemma {:induction false} DropKeepsBoundaries(b: Buffers, k: nat, n: nat)
    requires b.Valid() && k <= b.size
    ensures BoundaryAt(b.Drop(k).list, b.Drop(k).skip + n) <==> BoundaryAt(b.list, b.skip + k + n)
    decreases |b.list|
  {
    if b.list == [] || b.skip + k < |b.list[0]| {
      DropInsideKeepsBoundaries(b, k, n);
    } else {
      hide BoundaryAt, Buffers.Drop, Buffers.Rest, Concat;
      var used, b' := DropPastFront(b, k);
      BoundaryAfterFront(b.list, k - used + n);
      DropKeepsBoundaries(b', k - used, n);
    }
  }

  /** A list of which nothing is used up. */
  function Whole(list: seq<seq<u8>>): Buffers {
    Buffers(|Concat(list)|, list, 0)
  }

  lemma WholeIsValid(list: seq<seq<u8>>)
    requires NoneEmpty(list)
    ensures Whole(list).Valid() && Whole(list).Rest() == Concat(list)
  {
    if list == [] {
    } else {
      ConcatFront(list);
    }
  }

  lemma DropMore(list: seq<seq<u8>>, b: Buffers, used: nat, k: nat)
    requires NoneEmpty(list) && b == Whole(list).Drop(used) && used + k <= |Concat(list)|
    ensures b.Drop(k) == Whole(list).Drop(used + k) && b.Drop(k).size == |Concat(list)| - used - k
    ensures b.Valid() && k <= b.size && b.Drop(k).Rest() == b.Rest()[k..]
  {
    WholeIsValid(list);
    DropTwice(Whole(list), used, k);
    DropLeavesRest(Whole(list), used);
    DropLeavesRest(b, k);
  }

  lemma NothingDropped(b: Buffers)
    ensures b.Drop(0) == b
  {
  }

  lemma WholeBuffersStep(list: seq<seq<u8>>, it: nat, len: nat, left: nat)
    requires NoneEmpty(list) && it < |list| && left > 0
    requires WholeBuffers(list, len) == list[..it] + WholeBuffers(list[it..], left)
    ensures |list[it]| <= left ==> WholeBuffers(list, len) == list[..it + 1] + WholeBuffers(list[it + 1..], left - |list[it]|)
    ensures |list[it]| == left ==> WholeBuffers(list, len) == list[..it + 1]
    ensures left < |list[it]| ==> WholeBuffers(list, len) == list[..it]
  {
    var rest := list[it..];
    assert rest[0] == list[it] && rest[1..] == list[it + 1..];
    assert list[..it + 1] == list[..it] + [list[it]];
    assert it + 1 < |list| ==> list[it + 1] != [];
    assert |list[it]| == left ==> WholeBuffers(list[it + 1..], 0) == [];
  }

  class BufferList {
    var size: nat
    var buffer: seq<seq<u8>>
    var skip: nat

    ghost function View(): Buffers
      reads this
    {
      Buffers(size, buffer, skip)
    }

    constructor (buffers: seq<seq<u8>>)
      ensures View() == Buffers(|Concat(buffers)|, buffers, 0)
    {
      size, buffer, skip := 0, [], 0;
      new;
      var i := 0;
      while i < |buffers|
        invariant i <= |buffers| && buffer == buffers[..i] && size == |Concat(buffer)| && skip == 0
      {
        assert buffers[..i + 1][..i] == buffers[..i];
        buffer := buffer + [buffers[i]];
        size := size + |buffers[i]|;
        i := i + 1;
      }
      assert buffers[..i] == buffers;
    }

    method Peek() returns (view: seq<u8>)
      requires View().Valid() && buffer != []
      ensures view == buffer[0][skip..] && view != []
    {
      view := buffer[0][skip..];
    }

    /** One round of the loop that removes a prefix. */
    method RemoveFront(len: nat) returns (toPopNow: nat)
      requires View().Valid() && buffer != [] && len > 0
      modifies this
      ensures 0 < toPopNow <= len && toPopNow <= old(size) && View() == old(View()).Drop(toPopNow)
    {
      FrontFits(View());
      var view := Peek();
      toPopNow := Min(len, |view|);
      skip := skip + toPopNow;
      size := size - toPopNow;
      if skip == |buffer[0]| {
        buffer := buffer[1..];
        skip := 0;
      }
    }

    method RemovePrefix(len: nat)
      requires View().Valid()
      modifies this
      ensures View() == old(View()).Drop(Min(len, old(size)))
    {
      ghost var b := View();
      hide Buffers.Drop, Concat, NoneEmpty;
      DropLeavesRest(b, 0);
      NothingDropped(b);
      ghost var done: nat := 0;
      var left: nat := len;
      while left > 0 && buffer != []
        invariant done + left == len && done <= b.size && View() == b.Drop(done)
        invariant View().Valid() && size == b.size - done
        decreases left
      {
        var popped := RemoveFront(left);
        DropTwice(b, done, popped);
        left := left - popped;
        done := done + popped;
        DropLeavesRest(b, done);
      }
      assert buffer == [] ==> size == 0;
    }

    method Truncate(len: nat)
      requires View().Valid()
      modifies this
      ensures View() == old(View()).Truncate(len)
    {
      hide Concat, Buffers.Rest;
      if size <= len {
        return;
      }
      if len == 0 {
        buffer := [];
        size := 0;
        return;
      }
      var sizeSoFar, it := 0, 0;
      while it < |buffer|
        invariant it <= |buffer| && sizeSoFar < len && buffer == old(buffer) && size == old(size) && skip == old(skip)
        invariant WholeBuffers(buffer, len) == buffer[..it] + WholeBuffers(buffer[it..], len - sizeSoFar)
      {
        WholeBuffersStep(buffer, it, len, len - sizeSoFar);
        if sizeSoFar + |buffer[it]| < len {
          sizeSoFar := sizeSoFar + |buffer[it]|;
          it := it + 1;
          continue;
        }
        if sizeSoFar + |buffer[it]| == len {
          it := it + 1;
          assert buffer[..it] == WholeBuffers(old(buffer), len);
          break;
        }
        buffer := buffer[it := buffer[it][..len - sizeSoFar]];
        assert buffer[..it] == old(buffer)[..it];
        break;
      }
      buffer := buffer[..it];
      size := len;
    }

    /**
     * All bytes left, in non-empty buffers. There must be a buffer to take unless the size is 0. (The buffers are
     * moved out; the list is not used afterwards.)
     */
    method DumpAll() returns (out: seq<seq<u8>>)
      requires NoneEmpty(buffer) && (size > 0 ==> buffer != [] && skip < |buffer[0]|) && (size == 0 ==> buffer == [])
      ensures Concat(out) == View().Rest() && NoneEmpty(out)
    {
      out := [];
      if size == 0 {
        return;
      }
      RestInPieces(View());
      out := [if skip > 0 then buffer[0][skip..] else buffer[0]];
      out := out + buffer[1..];
    }

    /** The bytes left, without using them up. */
    method AllViews() returns (views: seq<seq<u8>>)
      requires View().Valid()
      ensures Concat(views) == View().Rest()
    {
      views := [];
      if size == 0 {
        return;
      }
      SomethingLeft(View());
      RestInPieces(View());
      hide Concat, NoneEmpty, Buffers.Valid;
      var tmpSkip, i := skip, 0;
      while i < |buffer|
        invariant i <= |buffer| && tmpSkip == if i == 0 then skip else 0
        invariant |views| == i && forall j :: 0 <= j < i ==> views[j] == if j == 0 then buffer[0][skip..] else buffer[j]
      {
        views := views + [buffer[i][tmpSkip..]];
        tmpSkip := 0;
        i := i + 1;
      }
      assert views == [buffer[0][skip..]] + buffer[1..];
    }
  }

  // ---- Parser ----

  /** The bytes not read yet, and whether something went wrong. */
  datatype Reader = Reader(rest: seq<u8>, error: bool) {

    function CheckSize(n: nat): Reader {
      this.(error := error || n > |rest|)
    }

    /** Read a big-endian integer; after an error nothing is read, and the old value stays. */
    function Integer(width: nat, before: nat): (nat, Reader) {
      var r := CheckSize(width);
      if r.error then (before, r) else (BigEndian(rest[..width]), Reader(rest[width..], false))
    }

    // The instances of `integer` that are used.

    function U8(before: u8): (u8, Reader) {
      (Integer(1, before).0 % 0x100, Integer(1, before).1)
    }

    function U16(before: u16): (u16, Reader) {
      (Integer(2, before).0 % TWO16, Integer(2, before).1)
    }

    function U32(before: u32): (u32, Reader) {
      (Integer(4, before).0 % TWO32, Integer(4, before).1)
    }

    function RemovePrefix(n: nat): Reader {
      this.(rest := rest[Min(n, |rest|)..])
    }

    function SetError(): Reader {
      this.(error := true)
    }
  }

  /** `b` is the end of `a`. */
  ghost predicate IsEnd(b: seq<u8>, a: seq<u8>) {
    |b| <= |a| && b == a[|a| - |b|..]
  }

  lemma EndTwice(a: seq<u8>, b: seq<u8>, c: seq<u8>)
    requires IsEnd(b, a) && IsEnd(c, b)
    ensures IsEnd(c, a)
  {
  }

  /** Reading leaves an end of what there was. */
  lemma IntegerLeavesEnd(a: seq<u8>, r: Reader, width: nat, before: nat)
    requires IsEnd(r.rest, a)
    ensures IsEnd(r.Integer(width, before).1.rest, a)
  {
    EndTwice(a, r.rest, r.Integer(width, before).1.rest);
    hide BigEndian;
  }

  lemma PrefixLeavesEnd(a: seq<u8>, r: Reader, n: nat)
    requires IsEnd(r.rest, a)
    ensures IsEnd(r.RemovePrefix(n).rest, a)
  {
    EndTwice(a, r.rest, r.RemovePrefix(n).rest);
  }

  /** Reading back what was written. */
  lemma IntegerReads(val: nat, width: nat, tail: seq<u8>, before: nat)
    requires val < Pow256(width)
    ensures Reader(ToBytes(val, width) + tail, false).Integer(width, before) == (val, Reader(tail, false))
  {
    RoundTrip(val, width);
  }

  lemma FieldIsToBytes(c: u16)
    ensures ToBytes(c, 2) == Field(c)
  {
    assert ToBytes(c / 256, 1) == ToBytes(c / 256 / 256, 0) + [c / 256 % 256];
  }

  lemma Powers()
    ensures Pow256(1) == 0x100 && Pow256(2) == TWO16 && Pow256(4) == TWO32
  {
    assert Pow256(4) == 256 * Pow256(3) && Pow256(3) == 256 * Pow256(2);
  }

  lemma ReadsU8(val: u8, tail: seq<u8>, before: u8)
    ensures Reader(ToBytes(val, 1) + tail, false).U8(before) == (val, Reader(tail, false))
  {
    Powers();
    hide ToBytes, Pow256, Reader.Integer;
    IntegerReads(val, 1, tail, before);
  }

  lemma ReadsU16(val: u16, tail: seq<u8>, before: u16)
    ensures Reader(ToBytes(val, 2) + tail, false).U16(before) == (val, Reader(tail, false))
  {
    Powers();
    hide ToBytes, Pow256, Reader.Integer;
    IntegerReads(val, 2, tail, before);
  }

  lemma ReadsU32(val: u32, tail: seq<u8>, before: u32)
    ensures Reader(ToBytes(val, 4) + tail, false).U32(before) == (val, Reader(tail, false))
  {
    Powers();
    hide ToBytes, Pow256, Reader.Integer;
    IntegerReads(val, 4, tail, before);
  }

  class Parser {
    const input: BufferList
    var error: bool

    ghost const original: seq<seq<u8>>  // the buffers given to the constructor

    /** How many bytes are used up. */
    ghost function Used(): int
      reads input
    {
      |Concat(original)| - input.size
    }

    ghost predicate Valid()
      reads this, input
    {
      && NoneEmpty(original)
      && 0 <= Used() && input.View() == Whole(original).Drop(Used())
    }

    ghost function View(): Reader
      reads this, input
    {
      Reader(input.View().Rest(), error)
    }

    constructor (buffers: seq<seq<u8>>)
      requires NoneEmpty(buffers)
      ensures Valid() && fresh(input) && View() == Reader(Concat(buffers), false) && original == buffers
    {
      input := new BufferList(buffers);
      error, original := false, buffers;
      new;
      WholeIsValid(buffers);
      NothingDropped(Whole(buffers));
    }

    /** In a valid parser the list of buffers is valid, and its bytes are the last ones of the original. */
    lemma InputIsValid()
      requires Valid()
      ensures input.View().Valid() && input.View().Rest() == Concat(original)[Used()..]
    {
      WholeIsValid(original);
      DropLeavesRest(Whole(original), Used());
    }

    method CheckSize(size: nat)
      requires Valid()
      modifies this
      ensures Valid() && View() == old(View()).CheckSize(size)
    {
      InputIsValid();
      if size > input.size {
        error := true;
      }
    }

    method SetError()
      requires Valid()
      modifies this
      ensures Valid() && View() == old(View()).SetError()
    {
      error := true;
    }

    /** The list of buffers is determined by how many bytes are left. */
    lemma InputIsDropped()
      requires Valid()
      ensures input.View() == Whole(original).Drop(Minus(|Concat(original)|, |View().rest|))
    {
      InputIsValid();
      hide Concat, NoneEmpty, Buffers.Drop, Buffers.Rest;
    }

    method RemovePrefix(n: nat)
      requires Valid()
      modifies input
      ensures Valid() && View() == old(View()).RemovePrefix(n)
    {
      hide Buffers.Drop, Buffers.Rest, Concat, NoneEmpty;
      InputIsValid();
      DropMore(original, input.View(), Used(), Min(n, input.size));
      hide Whole, Buffers.Valid;
      input.RemovePrefix(n);
    }

    method NextByte() returns (b: u8)
      requires Valid() && View().rest != []
      modifies input
      ensures Valid() && b == old(View()).rest[0] && View() == old(View()).(rest := old(View()).rest[1..])
    {
      InputIsValid();
      SomethingLeft(input.View());
      RestFront(input.View());
      var view := input.Peek();
      b := view[0];
      RemovePrefix(1);
    }

    /** `integer`, for an unsigned type of `width` bytes. */
    method Integer(width: nat, before: nat) returns (out: nat)
      requires Valid() && width > 0
      modifies this, input
      ensures Valid() && (out, View()) == old(View()).Integer(width, before)
    {
      hide Parser.Valid, Buffers.Rest;
      out := before;
      ghost var rest := View().rest;
      CheckSize(width);
      if error {
        return;
      }
      out := 0;
      var i := 0;
      while i < width
        invariant Valid() && i <= width <= |rest| && !error
        invariant out == BigEndian(rest[..i]) && View().rest == rest[i..]
      {
        assert rest[..i + 1][..i] == rest[..i];
        var b := NextByte();
        out := 256 * out + b;
        i := i + 1;
      }
    }

    method U8(before: u8) returns (out: u8)
      requires Valid()
      modifies this, input
      ensures Valid() && (out, View()) == old(View()).U8(before)
    {
      var val := Integer(1, before);
      out := val % 0x100;
    }

    method U16(before: u16) returns (out: u16)
      requires Valid()
      modifies this, input
      ensures Valid() && (out, View()) == old(View()).U16(before)
    {
      var val := Integer(2, before);
      out := val % TWO16;
    }

    method U32(before: u32) returns (out: u32)
      requires Valid()
      modifies this, input
      ensures Valid() && (out, View()) == old(View()).U32(before)
    {
      var val := Integer(4, before);
      out := val % TWO32;
    }

    method AllRemaining() returns (out: seq<seq<u8>>)
      requires Valid()
      ensures Concat(out) == View().rest && NoneEmpty(out)
    {
      InputIsValid();
      SomethingLeft(input.View());
      out := input.DumpAll();
    }

    method ConcatenateAllRemaining() returns (out: seq<u8>)
      requires Valid()
      ensures out == View().rest
    {
      var concat := AllRemaining();
      if concat == [] {
        return [];
      }
      out := concat[0];
      ConcatOne(concat[0]);
      assert concat[..1] == [concat[0]];
      var it := 1;
      while it < |concat|
        invariant 1 <= it <= |concat|
        invariant out == Concat(concat[..it])
      {
        assert concat[..it + 1][..it] == concat[..it];
        out := out + concat[it];
        it := it + 1;
      }
      assert concat[..it] == concat;
    }

    method Buffer() returns (views: seq<seq<u8>>)
      requires Valid()
      ensures Concat(views) == View().rest
    {
      InputIsValid();
      views := input.AllViews();
    }
  }

  // ---- Serializer ----

  class Serializer {
    var output: seq<seq<u8>>
    var buffer: seq<u8>

    /** Everything written so far. */
    ghost function Written(): seq<u8>
      reads this
    {
      Concat(output) + buffer
    }

    constructor ()
      ensures Written() == [] && output == []
    {
      output, buffer := [], [];
    }

    method Integer(val: nat, width: nat)
      modifies this
      ensures Written() == old(Written()) + ToBytes(val, width) && output == old(output)
    {
      ghost var start := buffer;
      var i := 0;
      while i < width
        invariant i <= width && output == old(output)
        invariant buffer == start + ToBytes(ShiftRight(val, width - i), i)
      {
        var byteVal := ShiftRight(val, width - i - 1) % 256;
        buffer := buffer + [byteVal];
        i := i + 1;
      }
    }

    method Flush()
      requires NoneEmpty(output)
      modifies this
      ensures NoneEmpty(output) && buffer == [] && Written() == old(Written())
    {
      if buffer != [] {
        ConcatSplits(output, [buffer]);
        ConcatOne(buffer);
        output := output + [buffer];
        buffer := [];
      }
    }

    method Buffer(buf: seq<u8>)
      requires NoneEmpty(output)
      modifies this
      ensures NoneEmpty(output) && Written() == old(Written()) + buf
    {
      if buf != [] {
        Flush();
        ConcatSplits(output, [buf]);
        ConcatOne(buf);
        output := output + [buf];
      }
    }

    method Buffers(bufs: seq<seq<u8>>)
      requires NoneEmpty(output)
      modifies this
      ensures NoneEmpty(output) && Written() == old(Written()) + Concat(bufs)
    {
      var i := 0;
      while i < |bufs|
        invariant i <= |bufs| && NoneEmpty(output) && Written() == old(Written()) + Concat(bufs[..i])
      {
        assert bufs[..i + 1][..i] == bufs[..i];
        Buffer(bufs[i]);
        i := i + 1;
      }
      assert bufs[..i] == bufs;
    }

    method Finish() returns (result: seq<seq<u8>>)
      requires NoneEmpty(output)
      modifies this
      ensures Concat(result) == old(Written()) && NoneEmpty(result)
    {
      Flush();
      result := output;
    }
  }
}
