/** Longest-prefix matching: the bucketed table against a plain scan of the routes. */
module RoutingTables {
  import opened Machine
  import opened OrderedKeys

  datatype RouteToNext = RouteToNext(nextHop: Option<u32>, interfaceNum: nat)

  /** One call of `add_route`. */
  datatype Entry = Entry(prefix: u32, length: u8, route: RouteToNext)

  type Table = map<u8, map<u32, RouteToNext>>

  function AddRoute(table: Table, e: Entry): Table {
    table[e.length := (if e.length in table then table[e.length] else map[])[e.prefix := e.route]]
  }

  function ShiftRight(x: nat, n: nat): nat {
    if n == 0 then x else ShiftRight(x / 2, n - 1)
  }

  function ShiftLeft(x: nat, n: nat): nat {
    if n == 0 then x else 2 * ShiftLeft(x, n - 1)
  }

  lemma {:induction false} ShiftBackBelow(x: nat, n: nat)
    ensures ShiftLeft(ShiftRight(x, n), n) <= x
  {
    if n == 0 {
    } else {
      ShiftBackBelow(x / 2, n - 1);
    }
  }

  /** The destination with all but its first `length` bits cleared, by shifting to the right and back. */
  function Mask(dst: u32, length: u8): (masked: u32)
    ensures masked <= dst
  {
    if length > 32 then dst
    else
      ShiftBackBelow(dst, 32 - length);
      ShiftLeft(ShiftRight(dst, 32 - length), 32 - length)
  }

  function Pow2(n: nat): (p: nat)
    ensures p > 0
  {
    if n == 0 then 1 else 2 * Pow2(n - 1)
  }

  lemma {:induction false} NextMultiple(p: nat, a: nat, b: nat)
    ensures a < b ==> p * a + p <= p * b
    decreases b
  {
    if b == 0 {
    } else {
      NextMultiple(p, a, b - 1);
      assert p * b == p * (b - 1) + p;
    }
  }

  lemma QuotientIs(x: nat, p: nat, q: nat, r: nat)
    requires p > 0 && r < p && x == p * q + r
    ensures x / p == q
  {
    assert p * (x / p) + x % p == x;
    NextMultiple(p, x / p, q);
    NextMultiple(p, q, x / p);
  }

  /** Halving, then dividing. */
  lemma HalfThenQuotient(x: nat, p: nat)
    requires p > 0
    ensures x / 2 / p == x / (2 * p)
  {
    var q, r := x / 2 / p, x / 2 % p;
    var m := p * q;
    assert x / 2 == m + r;
    assert x == 2 * m + (2 * r + x % 2);
    assert 2 * p * q == 2 * m;
    QuotientIs(x, 2 * p, q, 2 * r + x % 2);
  }

  lemma {:induction false} ShiftIsQuotient(x: nat, n: nat)
    ensures ShiftRight(x, n) == x / Pow2(n) && ShiftLeft(x, n) == x * Pow2(n)
  {
    if n == 0 {
    } else {
      ShiftIsQuotient(x / 2, n - 1);
      ShiftIsQuotient(x, n - 1);
      HalfThenQuotient(x, Pow2(n - 1));
    }
  }

  /** The key looked up in a bucket; the bucket of length 0 is asked for the address itself first. */
  function BucketKey(bucket: map<u32, RouteToNext>, length: u8, dst: u32): u32 {
    if length == 0 then if dst in bucket then dst else 0 else Mask(dst, length)
  }

  /** The scan over the buckets, longest prefixes first. */
  function Scan(table: Table, lengths: set<u8>, dst: u32): Option<(u8, RouteToNext)>
    requires lengths <= table.Keys
    decreases |lengths|
  {
    if lengths == {} then None
    else
      var longest := Greatest(lengths);
      var key := BucketKey(table[longest], longest, dst);
      if key in table[longest] then Some((longest, table[longest][key])) else Scan(table, lengths - {longest}, dst)
  }

  function Lookup(table: Table, dst: u32): Option<(u8, RouteToNext)> {
    Scan(table, table.Keys, dst)
  }

  // ---- A plain scan of the routes ----

  function Build(routes: seq<Entry>): Table {
    if routes == [] then map[] else AddRoute(Build(routes[..|routes| - 1]), routes[|routes| - 1])
  }

  /** The first `length` bits of prefix and destination agree. */
  predicate Matches(e: Entry, dst: u32) {
    Mask(e.prefix, e.length) == Mask(dst, e.length)
  }

  lemma SameProduct(a: nat, b: nat, p: nat)
    requires p > 0
    ensures a * p == b * p <==> a == b
  {
  }

  /** A route matches exactly when prefix and destination are equal after the bits beyond its length are dropped. */
  lemma MatchesIsSamePrefix(e: Entry, dst: u32)
    requires e.length <= 32
    ensures Matches(e, dst) <==> e.prefix / Pow2(32 - e.length) == dst / Pow2(32 - e.length)
  {
    var n := 32 - e.length;
    ShiftIsQuotient(e.prefix, n);
    ShiftIsQuotient(dst, n);
    ShiftIsQuotient(e.prefix / Pow2(n), n);
    ShiftIsQuotient(dst / Pow2(n), n);
    hide ShiftRight, ShiftLeft;
    SameProduct(e.prefix / Pow2(n), dst / Pow2(n), Pow2(n));
  }

  /** The index of the longest matching route, the latest of equally long ones. */
  function Best(routes: seq<Entry>, dst: u32): (best: Option<nat>)
    ensures best.Some? ==> best.value < |routes|
  {
    if routes == [] then None
    else
      var n := |routes| - 1;
      var before := Best(routes[..n], dst);
      if Matches(routes[n], dst) && (before.None? || routes[before.value].length <= routes[n].length) then Some(n) else before
  }

  /** The length and the route at an index. */
  function Picked(routes: seq<Entry>, i: Option<nat>): Option<(u8, RouteToNext)>
    requires i.Some? ==> i.value < |routes|
  {
    if i.None? then None else Some((routes[i.value].length, routes[i.value].route))
  }

  /** What the plain scan finds, as a length and a route. */
  function LinearLookup(routes: seq<Entry>, dst: u32): Option<(u8, RouteToNext)> {
    Picked(routes, Best(routes, dst))
  }

  /** The plain scan picks a route exactly when one matches, and then a longest one, the latest of those. */
  lemma {:induction false} BestIsLongestAndLatest(routes: seq<Entry>, dst: u32)
    ensures var best := Best(routes, dst);
            && (best.None? <==> forall i :: 0 <= i < |routes| ==> !Matches(routes[i], dst))
            && (best.Some? ==> Matches(routes[best.value], dst)
                               && forall i :: 0 <= i < |routes| && Matches(routes[i], dst) ==>
                                    routes[i].length < routes[best.value].length
                                    || (routes[i].length == routes[best.value].length && i <= best.value))
  {
    if routes == [] {
    } else {
      BestIsLongestAndLatest(routes[..|routes| - 1], dst);
      hide Matches;
    }
  }

  // ---- What the table can find ----

  /**
   * The lookup masks the destination but not the prefix; in the bucket of length 0 it asks for the destination
   * itself, and for 0 only if that fails.
   */
  predicate Findable(e: Entry, dst: u32) {
    if e.length == 0 then e.prefix == dst || e.prefix == 0 else e.prefix == Mask(dst, e.length)
  }

  /** Longer prefixes first; of length 0, the destination itself before 0. */
  function Rank(e: Entry, dst: u32): nat {
    if e.length > 0 then e.length + 1 else if e.prefix == dst then 1 else 0
  }

  /** A plain scan of the routes that can be found, for the highest rank, the latest of equal ones. */
  function Found(routes: seq<Entry>, dst: u32): (found: Option<nat>)
    ensures found.Some? ==> found.value < |routes|
  {
    if routes == [] then None
    else
      var n := |routes| - 1;
      var before := Found(routes[..n], dst);
      if Findable(routes[n], dst) && (before.None? || Rank(routes[before.value], dst) <= Rank(routes[n], dst)) then Some(n)
      else before
  }

  lemma {:induction false} FoundIsHighestAndLatest(routes: seq<Entry>, dst: u32)
    ensures var found := Found(routes, dst);
            && (found.None? <==> forall i :: 0 <= i < |routes| ==> !Findable(routes[i], dst))
            && (found.Some? ==> Findable(routes[found.value], dst)
                                && forall i :: 0 <= i < |routes| && Findable(routes[i], dst) ==>
                                     Rank(routes[i], dst) < Rank(routes[found.value], dst)
                                     || (Rank(routes[i], dst) == Rank(routes[found.value], dst) && i <= found.value))
  {
    if routes == [] {
    } else {
      FoundIsHighestAndLatest(routes[..|routes| - 1], dst);
      hide Findable, Rank;
    }
  }

  /** The index of the latest route with a given length and prefix. */
  function Latest(routes: seq<Entry>, length: u8, prefix: u32): (latest: Option<nat>)
    ensures latest.Some? ==>
              latest.value < |routes| && routes[latest.value].length == length && routes[latest.value].prefix == prefix
  {
    if routes == [] then None
    else
      var n := |routes| - 1;
      if routes[n].length == length && routes[n].prefix == prefix then Some(n) else Latest(routes[..n], length, prefix)
  }

  /** What the table holds. */
  function Held(table: Table, length: u8, prefix: u32): Option<RouteToNext> {
    if length in table && prefix in table[length] then Some(table[length][prefix]) else None
  }

  lemma {:induction false} TableHoldsLatest(routes: seq<Entry>, length: u8, prefix: u32)
    ensures var latest := Latest(routes, length, prefix);
            Held(Build(routes), length, prefix) == if latest.None? then None else Some(routes[latest.value].route)
  {
    if routes == [] {
    } else {
      TableHoldsLatest(routes[..|routes| - 1], length, prefix);
    }
  }

  /** The key looked up among the routes of a length. */
  function Key(routes: seq<Entry>, length: u8, dst: u32): u32 {
    if length > 0 then Mask(dst, length) else if Latest(routes, 0, dst).Some? then dst else 0
  }

  /** `o` is the latest route under the key of the longest length that has one. */
  ghost predicate IsLongest(routes: seq<Entry>, dst: u32, o: Option<nat>) {
    && (o.Some? ==> o.value < |routes|)
    && (o.Some? ==> Latest(routes, routes[o.value].length, Key(routes, routes[o.value].length, dst)) == o)
    && forall length: u8 :: (o.Some? ==> routes[o.value].length < length) ==> Latest(routes, length, Key(routes, length, dst)) == None
  }

  lemma LongestIsUnique(routes: seq<Entry>, dst: u32, o: Option<nat>, o': Option<nat>)
    requires IsLongest(routes, dst, o) && IsLongest(routes, dst, o')
    ensures o == o'
  {
    hide Latest, Key;
    if o.Some? && o'.Some? {
      assert !(routes[o.value].length < routes[o'.value].length) && !(routes[o'.value].length < routes[o.value].length);
    }
  }

  lemma KeyIsFindable(routes: seq<Entry>, e: Entry, dst: u32)
    ensures Key(routes + [e], e.length, dst) == e.prefix <==>
            Findable(e, dst) && (e.length == 0 && e.prefix != dst ==> Latest(routes, 0, dst) == None)
    ensures forall length: u8 :: length != e.length ==> Key(routes + [e], length, dst) == Key(routes, length, dst)
    ensures Key(routes + [e], e.length, dst) != e.prefix ==> Key(routes + [e], e.length, dst) == Key(routes, e.length, dst)
  {
    assert (routes + [e])[..|routes|] == routes;
    hide Mask;
  }

  lemma {:induction false} FoundIsLongest(routes: seq<Entry>, dst: u32)
    ensures IsLongest(routes, dst, Found(routes, dst))
  {
    if routes == [] {
    } else {
      var n := |routes| - 1;
      FoundIsLongest(routes[..n], dst);
      KeyIsFindable(routes[..n], routes[n], dst);
      assert routes == routes[..n] + [routes[n]];
      hide Mask, Findable;
    }
  }

  /** The key the bucket scan uses is the key among the routes entered. */
  lemma BucketKeyIsKey(routes: seq<Entry>, length: u8, dst: u32)
    requires length in Build(routes)
    ensures BucketKey(Build(routes)[length], length, dst) == Key(routes, length, dst)
  {
    TableHoldsLatest(routes, 0, dst);
  }

  lemma {:induction false} ScanIsLongest(routes: seq<Entry>, lengths: set<u8>, dst: u32) returns (o: Option<nat>)
    requires lengths <= Build(routes).Keys
    requires forall length: u8 :: length !in lengths ==> Latest(routes, length, Key(routes, length, dst)) == None
    ensures IsLongest(routes, dst, o) && Scan(Build(routes), lengths, dst) == Picked(routes, o)
    decreases |lengths|
  {
    if lengths == {} {
      o := None;
    } else {
      var longest := Greatest(lengths);
      var key := Key(routes, longest, dst);
      BucketKeyIsKey(routes, longest, dst);
      TableHoldsLatest(routes, longest, key);
      hide Latest, Key, Build, BucketKey;
      if key in Build(routes)[longest] {
        o := Latest(routes, longest, key);
      } else {
        o := ScanIsLongest(routes, lengths - {longest}, dst);
      }
    }
  }

  /**
   * For every sequence of routes and every destination, prefixes with bits beyond their length included, the
   * bucket scan finds what the plain scan of the findable routes finds.
   */
  lemma LookupFindsFindable(routes: seq<Entry>, dst: u32)
    ensures Lookup(Build(routes), dst) == Picked(routes, Found(routes, dst))
  {
    forall length: u8 | length !in Build(routes).Keys
      ensures Latest(routes, length, Key(routes, length, dst)) == None
    {
      TableHoldsLatest(routes, length, Key(routes, length, dst));
    }
    var o := ScanIsLongest(routes, Build(routes).Keys, dst);
    FoundIsLongest(routes, dst);
    LongestIsUnique(routes, dst, o, Found(routes, dst));
  }

  // ---- When the two agree ----

  lemma {:induction false} ShiftedBack(x: nat, n: nat)
    ensures ShiftRight(ShiftLeft(x, n), n) == x
  {
    if n == 0 {
    } else {
      ShiftedBack(x, n - 1);
    }
  }

  lemma {:induction false} AllBitsGone(x: nat, n: nat)
    requires x < ShiftLeft(1, n)
    ensures ShiftRight(x, n) == 0 && ShiftLeft(0, n) == 0
  {
    if n == 0 {
    } else {
      AllBitsGone(x / 2, n - 1);
    }
  }

  lemma MaskOfZeroLength(dst: u32)
    ensures Mask(dst, 0) == 0
  {
    assert ShiftLeft(1, 8) == 0x100;
    assert ShiftLeft(1, 16) == 0x100 * ShiftLeft(1, 8);
    assert ShiftLeft(1, 24) == 0x100 * ShiftLeft(1, 16);
    assert ShiftLeft(1, 32) == 0x100 * ShiftLeft(1, 24);
    AllBitsGone(dst, 32);
  }

  lemma MaskTwice(dst: u32, length: u8)
    ensures Mask(Mask(dst, length), length) == Mask(dst, length)
  {
    if length <= 32 {
      ShiftedBack(ShiftRight(dst, 32 - length), 32 - length);
    }
  }

  /** Every route that is found matches. */
  lemma FindableMatches(e: Entry, dst: u32)
    requires Findable(e, dst)
    ensures Matches(e, dst)
  {
    MaskTwice(dst, e.length);
    MaskOfZeroLength(dst);
    MaskOfZeroLength(e.prefix);
  }

  /** The lookup reaches route `i`: it is findable, and of length 0 no route for the destination itself hides it. */
  predicate Reached(routes: seq<Entry>, i: nat, dst: u32)
    requires i < |routes|
  {
    && Findable(routes[i], dst)
    && (routes[i].length == 0 && routes[i].prefix != dst ==>
          forall j :: 0 <= j < |routes| && routes[j].length == 0 ==> routes[j].prefix != dst)
  }

  /** The bucket scan and the plain scan choose the same route exactly when the route the plain scan chooses is reached. */
  lemma FoundIsBestIfReached(routes: seq<Entry>, dst: u32)
    ensures var best := Best(routes, dst);
            Found(routes, dst) == best <==> (best.Some? ==> Reached(routes, best.value, dst))
  {
    var best, found := Best(routes, dst), Found(routes, dst);
    BestIsLongestAndLatest(routes, dst);
    FoundIsHighestAndLatest(routes, dst);
    forall i | 0 <= i < |routes| && Findable(routes[i], dst)
      ensures Matches(routes[i], dst)
    {
      FindableMatches(routes[i], dst);
    }
    hide Best, Found, Mask, Matches;
    assert forall j :: 0 <= j < |routes| && routes[j].length == 0 && routes[j].prefix == dst ==> Findable(routes[j], dst);
  }

  /**
   * For every sequence of routes and every destination: the table answers as a plain scan of all routes does if and
   * only if the longest match is reached, or an equally long route with the same next hop is found in its place.
   */
  lemma LookupAgreesIfReached(routes: seq<Entry>, dst: u32)
    ensures var best, found := Best(routes, dst), Found(routes, dst);
            Lookup(Build(routes), dst) == LinearLookup(routes, dst) <==>
            (best.Some? ==>
               Reached(routes, best.value, dst)
               || (found.Some? && routes[found.value].length == routes[best.value].length
                   && routes[found.value].route == routes[best.value].route))
  {
    LookupFindsFindable(routes, dst);
    FoundIsBestIfReached(routes, dst);
    var best, found := Best(routes, dst), Found(routes, dst);
    hide Best, Found, Lookup, Reached;
  }

  /** The prefix has no bits set beyond its length. */
  predicate Normalised(e: Entry) {
    e.length <= 32 && Mask(e.prefix, e.length) == e.prefix
  }

  /** For every sequence of normalised routes and every destination the bucket scan and the plain scan agree. */
  lemma LookupAgrees(routes: seq<Entry>, dst: u32)
    requires forall e :: e in routes ==> Normalised(e)
    ensures Lookup(Build(routes), dst) == LinearLookup(routes, dst)
    ensures Found(routes, dst) == Best(routes, dst)
  {
    LookupAgreesIfReached(routes, dst);
    FoundIsBestIfReached(routes, dst);
    BestIsLongestAndLatest(routes, dst);
    forall j | 0 <= j < |routes|
      ensures Normalised(routes[j]) && (routes[j].length == 0 ==> routes[j].prefix == 0)
    {
      assert routes[j] in routes;
      MaskOfZeroLength(routes[j].prefix);
    }
    hide Best, Found, Lookup, LinearLookup, Mask;
  }

  /**
   * A single route is found for exactly the destinations it matches if and only if its prefix is normalised:
   * the lookup masks the destination but not the prefix.
   */
  lemma OneRouteIsFoundIffNormalised(e: Entry)
    requires e.length <= 32
    ensures (forall dst: u32 :: Lookup(Build([e]), dst).Some? <==> LinearLookup([e], dst).Some?) <==> Normalised(e)
  {
    forall dst: u32
      ensures Lookup(Build([e]), dst).Some? <==> Findable(e, dst)
      ensures LinearLookup([e], dst).Some? <==> Matches(e, dst)
    {
      LookupFindsFindable([e], dst);
      assert [e][..0] == [];
    }
    forall dst: u32
      ensures Mask(dst, 0) == 0
    {
      MaskOfZeroLength(dst);
    }
    hide Lookup, LinearLookup, Build, Mask;
    if e.length == 0 {
      var other: u32 := if e.prefix == 1 then 2 else 1;
      assert Lookup(Build([e]), other).Some? <==> other == e.prefix || e.prefix == 0;
      assert LinearLookup([e], other).Some?;
    } else {
      assert LinearLookup([e], e.prefix).Some?;
    }
  }
}
