/** The router: takes datagrams from all interfaces and sends each one where its route says. */
module Routers {
  import opened Machine
  import opened Checksums
  import opened Ipv4
  import opened OrderedKeys
  import opened NetworkInterfaces
  import opened RoutingTables

  /** A datagram handed to an interface for a next hop. */
  datatype Handed = Handed(interfaceNum: nat, hop: u32, d: InternetDatagram)

  /** The datagram as it is forwarded: one hop less to live, and a new header checksum. */
  function Forwarded(d: InternetDatagram): InternetDatagram
    requires d.header.ttl > 1
  {
    d.(header := d.header.(ttl := d.header.ttl - 1).ComputeChecksum())
  }

  /** Where a datagram goes: nowhere if no route matches. */
  function Hand(table: Table, d: InternetDatagram): Option<Handed>
    requires d.header.ttl > 1
  {
    match Lookup(table, d.header.dst)
    case None => None
    case Some((_, route)) =>
      Some(Handed(route.interfaceNum, if route.nextHop.Some? then route.nextHop.value else d.header.dst, Forwarded(d)))
  }

  /**
   * What ends the routing of all datagrams: one that is expired, or one whose route names an interface that does not
   * exist (asking for it throws).
   */
  predicate Stops(table: Table, d: InternetDatagram, n: nat) {
    d.header.ttl <= 1 || (Hand(table, d).Some? && Hand(table, d).value.interfaceNum >= n)
  }

  lemma StopsByRoute(table: Table, d: InternetDatagram, n: nat)
    requires d.header.ttl > 1
    ensures Stops(table, d, n) <==> Lookup(table, d.header.dst).Some? && Lookup(table, d.header.dst).value.1.interfaceNum >= n
  {
  }

  /** The interfaces after the loops, what they transmitted, what was handed to them, and whether the router threw. */
  datatype Outcome = Outcome(interfaces: seq<Interface>, sent: seq<Transmission>, handed: seq<Handed>, threw: bool)

  /** Give a datagram to its interface. */
  function Submit(ifs: seq<Interface>, h: Handed): (r: (seq<Interface>, seq<Transmission>))
    requires h.interfaceNum < |ifs|
    ensures |r.0| == |ifs|
  {
    var (s, out) := ifs[h.interfaceNum].SendDatagram(h.d, h.hop);
    (ifs[h.interfaceNum := s], out)
  }

  function PopFront(ifs: seq<Interface>, i: nat): (ifs': seq<Interface>)
    requires i < |ifs| && ifs[i].received != []
    ensures |ifs'| == |ifs|
  {
    ifs[i := ifs[i].(received := ifs[i].received[1..])]
  }

  function QueuedFrom(ifs: seq<Interface>, i: nat): nat
    requires i <= |ifs|
    decreases |ifs| - i
  {
    if i == |ifs| then 0 else |ifs[i].received| + QueuedFrom(ifs, i + 1)
  }

  lemma {:induction false} QueuedAfter(ifs: seq<Interface>, ifs': seq<Interface>, i: nat)
    requires i <= |ifs| == |ifs'| && forall k :: i <= k < |ifs| ==> ifs'[k].received == ifs[k].received
    ensures QueuedFrom(ifs', i) == QueuedFrom(ifs, i)
    decreases |ifs| - i
  {
    if i == |ifs| {
    } else {
      QueuedAfter(ifs, ifs', i + 1);
    }
  }

  /** One datagram from the queue of interface `i`, which does not stop the routing. */
  function RouteOne(ifs: seq<Interface>, table: Table, i: nat): (o: Outcome)
    requires i < |ifs| && ifs[i].received != [] && !Stops(table, ifs[i].received[0], |ifs|)
    ensures |o.interfaces| == |ifs|
    ensures forall k :: 0 <= k < |ifs| ==> o.interfaces[k].received == PopFront(ifs, i)[k].received
  {
    var d := ifs[i].received[0];
    var popped := PopFront(ifs, i);
    match Hand(table, d)
    case None => Outcome(popped, [], [], false)
    case Some(h) =>
      var (ifs', out) := Submit(popped, h);
      Outcome(ifs', out, [h], false)
  }

  lemma RouteOneShrinks(ifs: seq<Interface>, table: Table, i: nat)
    requires i < |ifs| && ifs[i].received != [] && !Stops(table, ifs[i].received[0], |ifs|)
    ensures QueuedFrom(RouteOne(ifs, table, i).interfaces, i) < QueuedFrom(ifs, i)
  {
    QueuedAfter(ifs, RouteOne(ifs, table, i).interfaces, i + 1);
    hide RouteOne, Hand;
  }

  /** The two nested loops from interface `i` on. */
  function RouteFrom(ifs: seq<Interface>, table: Table, i: nat): (o: Outcome)
    requires i <= |ifs|
    ensures |o.interfaces| == |ifs|
    decreases QueuedFrom(ifs, i), |ifs| - i
  {
    if i == |ifs| then Outcome(ifs, [], [], false)
    else if ifs[i].received == [] then RouteFrom(ifs, table, i + 1)
    else if Stops(table, ifs[i].received[0], |ifs|) then Outcome(PopFront(ifs, i), [], [], ifs[i].received[0].header.ttl > 1)
    else
      RouteOneShrinks(ifs, table, i);
      var one := RouteOne(ifs, table, i);
      var rest := RouteFrom(one.interfaces, table, i);
      Outcome(rest.interfaces, one.sent + rest.sent, one.handed + rest.handed, rest.threw)
  }

  // ---- Where datagrams go ----

  /** The datagram handed on by the route at an index. */
  function HandedBy(routes: seq<Entry>, i: Option<nat>, d: InternetDatagram): Option<Handed>
    requires (i.Some? ==> i.value < |routes|) && d.header.ttl > 1
  {
    if i.None? then None
    else
      var route := routes[i.value].route;
      Some(Handed(route.interfaceNum, if route.nextHop.Some? then route.nextHop.value else d.header.dst, Forwarded(d)))
  }

  /**
   * For every sequence of routes a datagram goes where the best findable one says. That is the longest match exactly
   * when the longest match is reached, as it is if all prefixes are normalised.
   */
  lemma HandFollowsLongestPrefix(routes: seq<Entry>, d: InternetDatagram)
    requires d.header.ttl > 1
    ensures var dst := d.header.dst;
            && Hand(Build(routes), d) == HandedBy(routes, Found(routes, dst), d)
            && (Found(routes, dst) == Best(routes, dst) <==>
                (Best(routes, dst).Some? ==> Reached(routes, Best(routes, dst).value, dst)))
            && ((forall e :: e in routes ==> Normalised(e)) ==> Found(routes, dst) == Best(routes, dst))
  {
    LookupFindsFindable(routes, d.header.dst);
    FoundIsBestIfReached(routes, d.header.dst);
    if forall e :: e in routes ==> Normalised(e) {
      LookupAgrees(routes, d.header.dst);
    }
    hide Best, Found, Reached, Lookup, Normalised;
  }

  /**
   * What ends the routing, in terms of the routes entered: a datagram that is expired, or one whose route names an
   * interface that does not exist.
   */
  predicate Ends(routes: seq<Entry>, d: InternetDatagram, n: nat) {
    var found := Found(routes, d.header.dst);
    d.header.ttl <= 1 || (found.Some? && routes[found.value].route.interfaceNum >= n)
  }

  lemma StopsExactly(routes: seq<Entry>, d: InternetDatagram, n: nat)
    ensures Stops(Build(routes), d, n) <==> Ends(routes, d, n)
  {
    if d.header.ttl > 1 {
      HandFollowsLongestPrefix(routes, d);
      hide Hand, Found, Best, Reached, Normalised;
    }
  }

  // ---- What routing amounts to ----

  /** The queues from interface `i` on, one after the other. */
  function AllQueued(ifs: seq<Interface>, i: nat): seq<InternetDatagram>
    requires i <= |ifs|
    decreases |ifs| - i
  {
    if i == |ifs| then [] else ifs[i].received + AllQueued(ifs, i + 1)
  }

  /** What is handed on: every datagram with a route, in order, up to the first that stops the routing. */
  function Handled(ds: seq<InternetDatagram>, routes: seq<Entry>, n: nat): seq<Handed> {
    if ds == [] || Ends(routes, ds[0], n) then []
    else
      var rest := Handled(ds[1..], routes, n);
      match HandedBy(routes, Found(routes, ds[0].header.dst), ds[0]) case None => rest case Some(h) => [h] + rest
  }

  /** What stays queued: everything after the datagram that stops the routing. */
  function Left(ds: seq<InternetDatagram>, routes: seq<Entry>, n: nat): seq<InternetDatagram> {
    if ds == [] then [] else if Ends(routes, ds[0], n) then ds[1..] else Left(ds[1..], routes, n)
  }

  /** Whether the routing ends with an exception. */
  predicate Throws(ds: seq<InternetDatagram>, routes: seq<Entry>, n: nat) {
    ds != [] && if Ends(routes, ds[0], n) then ds[0].header.ttl > 1 else Throws(ds[1..], routes, n)
  }

  function SubmitAll(ifs: seq<Interface>, hs: seq<Handed>): (seq<Interface>, seq<Transmission>)
    requires forall h :: h in hs ==> h.interfaceNum < |ifs|
    decreases |hs|
  {
    if hs == [] then (ifs, [])
    else
      var k := hs[0].interfaceNum;
      var (s, out) := ifs[k].SendDatagram(hs[0].d, hs[0].hop);
      var (ifs', more) := SubmitAll(ifs[k := s], hs[1..]);
      (ifs', out + more)
  }

  ghost predicate SameButQueues(ifs: seq<Interface>, ifs': seq<Interface>) {
    && |ifs| == |ifs'|
    && forall k :: 0 <= k < |ifs| ==> ifs'[k] == ifs[k].(received := ifs'[k].received)
  }

  lemma {:induction false} AllQueuedAfter(ifs: seq<Interface>, ifs': seq<Interface>, i: nat)
    requires i <= |ifs| == |ifs'| && forall k :: i <= k < |ifs| ==> ifs'[k].received == ifs[k].received
    ensures AllQueued(ifs', i) == AllQueued(ifs, i)
    decreases |ifs| - i
  {
    if i == |ifs| {
    } else {
      AllQueuedAfter(ifs, ifs', i + 1);
    }
  }

  lemma FirstThenRest<T>(a: seq<T>, b: seq<T>)
    requires a != []
    ensures a + b == [a[0]] + (a[1..] + b)
  {
    assert a == [a[0]] + a[1..];
  }

  lemma PopTakesFirst(ifs: seq<Interface>, ifs': seq<Interface>, i: nat)
    requires i < |ifs| == |ifs'| && ifs[i].received != [] && ifs'[i].received == ifs[i].received[1..]
    requires forall k :: i < k < |ifs| ==> ifs'[k].received == ifs[k].received
    ensures AllQueued(ifs, i) == [ifs[i].received[0]] + AllQueued(ifs', i)
  {
    AllQueuedAfter(ifs, ifs', i + 1);
    FirstThenRest(ifs[i].received, AllQueued(ifs, i + 1));
  }

  lemma {:induction false} SubmitAllIgnoresQueues(ifs: seq<Interface>, ifs': seq<Interface>, hs: seq<Handed>)
    requires SameButQueues(ifs, ifs') && forall h :: h in hs ==> h.interfaceNum < |ifs|
    ensures SameButQueues(SubmitAll(ifs, hs).0, SubmitAll(ifs', hs).0)
    ensures SubmitAll(ifs', hs).1 == SubmitAll(ifs, hs).1
    decreases |hs|
  {
    if hs == [] {
    } else {
      SubmitAllIgnoresQueues(Submit(ifs, hs[0]).0, Submit(ifs', hs[0]).0, hs[1..]);
    }
  }

  /** What routing must have done to the queues and the interfaces. */
  ghost predicate Routed(ifs: seq<Interface>, routes: seq<Entry>, i: nat, o: Outcome)
    requires i <= |ifs| == |o.interfaces|
  {
    && o.handed == Handled(AllQueued(ifs, i), routes, |ifs|)
    && AllQueued(o.interfaces, i) == Left(AllQueued(ifs, i), routes, |ifs|)
    && o.threw == Throws(AllQueued(ifs, i), routes, |ifs|)
    && (forall h :: h in o.handed ==> h.interfaceNum < |ifs|)
    && o.sent == SubmitAll(ifs, o.handed).1
    && SameButQueues(SubmitAll(ifs, o.handed).0, o.interfaces)
    && forall k :: 0 <= k < i ==> o.interfaces[k].received == ifs[k].received
  }

  lemma FirstIsHandled(d: InternetDatagram, ds: seq<InternetDatagram>, routes: seq<Entry>, n: nat)
    requires !Stops(Build(routes), d, n)
    ensures Handled([d] + ds, routes, n)
            == (match Hand(Build(routes), d) case None => [] case Some(h) => [h]) + Handled(ds, routes, n)
    ensures Left([d] + ds, routes, n) == Left(ds, routes, n) && Throws([d] + ds, routes, n) == Throws(ds, routes, n)
  {
    StopsExactly(routes, d, n);
    HandFollowsLongestPrefix(routes, d);
    hide Hand, HandedBy, Ends, Stops, Found, Best, Reached, Normalised;
    assert ([d] + ds)[1..] == ds;
  }

  /** A datagram without a route is dropped. */
  lemma DroppedIsRouted(ifs: seq<Interface>, routes: seq<Entry>, i: nat, one: Outcome, rest: Outcome)
    requires i < |ifs| && ifs[i].received != [] && !Stops(Build(routes), ifs[i].received[0], |ifs|)
    requires Hand(Build(routes), ifs[i].received[0]) == None && one == Outcome(PopFront(ifs, i), [], [], false)
    requires |rest.interfaces| == |ifs| && Routed(one.interfaces, routes, i, rest)
    ensures Routed(ifs, routes, i, Outcome(rest.interfaces, one.sent + rest.sent, one.handed + rest.handed, rest.threw))
  {
    PopTakesFirst(ifs, one.interfaces, i);
    FirstIsHandled(ifs[i].received[0], AllQueued(one.interfaces, i), routes, |ifs|);
    SubmitAllIgnoresQueues(ifs, one.interfaces, rest.handed);
    hide AllQueued, Handled, Left, Throws, SubmitAll, Hand;
    assert [] + rest.handed == rest.handed && [] + rest.sent == rest.sent;
  }

  lemma SubmitFirst(ifs: seq<Interface>, h: Handed, rest: seq<Handed>)
    requires h.interfaceNum < |ifs| && forall x :: x in rest ==> x.interfaceNum < |ifs|
    ensures forall x :: x in [h] + rest ==> x.interfaceNum < |ifs|
    ensures var (ifs1, out) := Submit(ifs, h);
            SubmitAll(ifs, [h] + rest) == (SubmitAll(ifs1, rest).0, out + SubmitAll(ifs1, rest).1)
  {
    assert ([h] + rest)[1..] == rest;
  }

  lemma SubmitCommutes(ifs: seq<Interface>, ifs': seq<Interface>, h: Handed)
    requires SameButQueues(ifs, ifs') && h.interfaceNum < |ifs|
    ensures SameButQueues(Submit(ifs, h).0, Submit(ifs', h).0) && Submit(ifs', h).1 == Submit(ifs, h).1
  {
  }

  /** A datagram with a route is given to its interface. */
  lemma HandedIsRouted(ifs: seq<Interface>, routes: seq<Entry>, i: nat, h: Handed, one: Outcome, rest: Outcome)
    requires i < |ifs| && ifs[i].received != [] && !Stops(Build(routes), ifs[i].received[0], |ifs|)
    requires Hand(Build(routes), ifs[i].received[0]) == Some(h) && h.interfaceNum < |ifs|
    requires one == Outcome(Submit(PopFront(ifs, i), h).0, Submit(PopFront(ifs, i), h).1, [h], false)
    requires |rest.interfaces| == |ifs| && Routed(one.interfaces, routes, i, rest)
    ensures Routed(ifs, routes, i, Outcome(rest.interfaces, one.sent + rest.sent, one.handed + rest.handed, rest.threw))
  {
    hide AllQueued, Handled, Left, Throws, SubmitAll, Hand;
    var ifs1 := Submit(ifs, h).0;
    PopTakesFirst(ifs, one.interfaces, i);
    FirstIsHandled(ifs[i].received[0], AllQueued(one.interfaces, i), routes, |ifs|);
    SubmitCommutes(ifs, PopFront(ifs, i), h);
    hide Submit, SameButQueues;
    SubmitAllIgnoresQueues(ifs1, one.interfaces, rest.handed);
    SubmitFirst(ifs, h, rest.handed);
  }

  lemma RouteOneIsRouted(ifs: seq<Interface>, routes: seq<Entry>, i: nat, one: Outcome, rest: Outcome)
    requires i < |ifs| && ifs[i].received != [] && !Stops(Build(routes), ifs[i].received[0], |ifs|)
    requires one == RouteOne(ifs, Build(routes), i) && |rest.interfaces| == |ifs| && Routed(one.interfaces, routes, i, rest)
    ensures Routed(ifs, routes, i, Outcome(rest.interfaces, one.sent + rest.sent, one.handed + rest.handed, rest.threw))
  {
    hide Routed, Submit, PopFront, Hand;
    var h := Hand(Build(routes), ifs[i].received[0]);
    if h.Some? {
      HandedIsRouted(ifs, routes, i, h.value, one, rest);
    } else {
      DroppedIsRouted(ifs, routes, i, one, rest);
    }
  }

  lemma EmptyQueueIsRouted(ifs: seq<Interface>, routes: seq<Entry>, i: nat, o: Outcome)
    requires i < |ifs| == |o.interfaces| && ifs[i].received == [] && Routed(ifs, routes, i + 1, o)
    ensures Routed(ifs, routes, i, o)
  {
    assert AllQueued(ifs, i) == AllQueued(ifs, i + 1);
    assert AllQueued(o.interfaces, i) == AllQueued(o.interfaces, i + 1);
    hide AllQueued, Handled, Left, Throws, SubmitAll, SameButQueues;
  }

  lemma StopIsRouted(ifs: seq<Interface>, routes: seq<Entry>, i: nat)
    requires i < |ifs| && ifs[i].received != [] && Stops(Build(routes), ifs[i].received[0], |ifs|)
    ensures Routed(ifs, routes, i, Outcome(PopFront(ifs, i), [], [], ifs[i].received[0].header.ttl > 1))
  {
    hide AllQueued, Stops, Ends;
    PopTakesFirst(ifs, PopFront(ifs, i), i);
    StopsExactly(routes, ifs[i].received[0], |ifs|);
  }

  /**
   * The nested loops take the datagrams of all queues in order, hand on those with a route, and stop after the
   * first expired one or the first whose route names no interface, leaving the rest queued.
   */
  lemma {:induction false} RouteIsInOrder(ifs: seq<Interface>, routes: seq<Entry>, i: nat)
    requires i <= |ifs|
    ensures Routed(ifs, routes, i, RouteFrom(ifs, Build(routes), i))
    decreases QueuedFrom(ifs, i), |ifs| - i
  {
    if i == |ifs| {
    } else {
      hide Routed, RouteOne, Stops;
      if ifs[i].received == [] {
        RouteIsInOrder(ifs, routes, i + 1);
        EmptyQueueIsRouted(ifs, routes, i, RouteFrom(ifs, Build(routes), i + 1));
      } else if Stops(Build(routes), ifs[i].received[0], |ifs|) {
        StopIsRouted(ifs, routes, i);
      } else {
        RouteOneShrinks(ifs, Build(routes), i);
        var one := RouteOne(ifs, Build(routes), i);
        RouteIsInOrder(one.interfaces, routes, i);
        RouteOneIsRouted(ifs, routes, i, one, RouteFrom(one.interfaces, Build(routes), i));
      }
    }
  }

  /** What is forwarded has one hop less to live, a header checksum that verifies, and is otherwise unchanged. */
  lemma ForwardedVerifies(d: InternetDatagram)
    requires d.header.ttl > 1
    ensures var h := Forwarded(d).header;
            && Check(0, false).Add(h.Encode([])).Value() == 0
            && h == d.header.(ttl := d.header.ttl - 1, cksum := h.cksum)
            && Forwarded(d).payload == d.payload
  {
    HeaderChecksumVerifies(d.header.(ttl := d.header.ttl - 1));
    hide IPv4Header.Encode, Check.Add, Check.Value;
  }

  // ---- The router ----

  /** In the loops: the goal is what was transmitted so far and what routing from interface `i` on still does. */
  ghost predicate StillToRoute(goal: Outcome, sent: seq<Transmission>, ifs: seq<Interface>, table: Table, i: nat) {
    && i <= |ifs|
    && goal.interfaces == RouteFrom(ifs, table, i).interfaces
    && goal.sent == sent + RouteFrom(ifs, table, i).sent
    && goal.threw == RouteFrom(ifs, table, i).threw
  }

  lemma RoutingStarts(ifs: seq<Interface>, table: Table)
    ensures StillToRoute(RouteFrom(ifs, table, 0), [], ifs, table, 0)
  {
    assert [] + RouteFrom(ifs, table, 0).sent == RouteFrom(ifs, table, 0).sent;
  }

  lemma RoutingGoesOn(goal: Outcome, sent: seq<Transmission>, ifs: seq<Interface>, table: Table, i: nat)
    requires StillToRoute(goal, sent, ifs, table, i) && i < |ifs|
    requires ifs[i].received != [] && !Stops(table, ifs[i].received[0], |ifs|)
    ensures StillToRoute(goal, sent + RouteOne(ifs, table, i).sent, RouteOne(ifs, table, i).interfaces, table, i)
    ensures QueuedFrom(RouteOne(ifs, table, i).interfaces, i) < QueuedFrom(ifs, i)
  {
    hide RouteOne, QueuedFrom, Stops;
    RouteOneShrinks(ifs, table, i);
    var one := RouteOne(ifs, table, i);
    assert sent + (one.sent + RouteFrom(one.interfaces, table, i).sent) == (sent + one.sent) + RouteFrom(one.interfaces, table, i).sent;
  }

  lemma RoutingEnds(goal: Outcome, sent: seq<Transmission>, ifs: seq<Interface>, table: Table, i: nat)
    requires StillToRoute(goal, sent, ifs, table, i)
    ensures i == |ifs| ==> goal.interfaces == ifs && goal.sent == sent && !goal.threw
    ensures i < |ifs| && ifs[i].received == [] ==> StillToRoute(goal, sent, ifs, table, i + 1)
    ensures i < |ifs| && ifs[i].received != [] && Stops(table, ifs[i].received[0], |ifs|) ==>
              goal.interfaces == PopFront(ifs, i) && goal.sent == sent && goal.threw == (ifs[i].received[0].header.ttl > 1)
  {
    hide Stops, RouteOne;
    assert sent + [] == sent;
  }

  class Router {
    var interfaces: seq<NetworkInterface>
    var routingTable: Table
    ghost var routes: seq<Entry>  // every route entered so far

    /** The table was built from the routes entered. */
    ghost predicate Built()
      reads this
    {
      routingTable == Build(routes)
    }

    /** The interfaces are different objects. */
    ghost predicate Distinct()
      reads this
    {
      forall i, j :: 0 <= i < j < |interfaces| ==> interfaces[i] != interfaces[j]
    }

    ghost function Views(): (views: seq<Interface>)
      reads this, interfaces
      ensures |views| == |interfaces| && forall i :: 0 <= i < |views| ==> views[i] == interfaces[i].View()
    {
      seq(|interfaces|, i requires 0 <= i < |interfaces| reads this, interfaces => interfaces[i].View())
    }

    constructor ()
      ensures interfaces == [] && routes == [] && Built()
    {
      interfaces, routingTable, routes := [], map[], [];
    }

    method AddInterface(interface_: NetworkInterface) returns (n: nat)
      modifies this`interfaces
      ensures interfaces == old(interfaces) + [interface_] && n == |old(interfaces)|
      ensures Distinct() <==> old(Distinct()) && interface_ !in old(interfaces)
    {
      ghost var before := interfaces;
      interfaces := interfaces + [interface_];
      n := |interfaces| - 1;
      assert forall i :: 0 <= i < n ==> interfaces[i] == before[i];
      assert interfaces[n] == interface_;
    }

    method AddRoute(prefix: u32, length: u8, nextHop: Option<u32>, interfaceNum: nat)
      requires Built()
      modifies this`routingTable, this`routes
      ensures Built() && routes == old(routes) + [Entry(prefix, length, RouteToNext(nextHop, interfaceNum))]
    {
      var nextDst := RouteToNext(nextHop, interfaceNum);
      var bucket: map<u32, RouteToNext> := if length in routingTable then routingTable[length] else map[];
      bucket := bucket[prefix := nextDst];
      routingTable := routingTable[length := bucket];
      routes := routes + [Entry(prefix, length, nextDst)];
      assert routes[..|routes| - 1] == old(routes);
    }

    /** The innermost loop: over the buckets, longest prefixes first, until one has the key. */
    method FindRoute(dst: u32) returns (found: Option<RouteToNext>)
      ensures found == match Lookup(routingTable, dst) case None => None case Some((_, route)) => Some(route)
    {
      var todo := routingTable.Keys;
      while todo != {}
        invariant todo <= routingTable.Keys
        invariant Scan(routingTable, todo, dst) == Lookup(routingTable, dst)
        decreases |todo|
      {
        var length: u8 := Greatest(todo);
        var bucket := routingTable[length];
        var dstRoutePrefix: u32 := dst;
        if length == 0 {
          if dstRoutePrefix !in bucket {
            dstRoutePrefix := 0;
          }
        } else {
          dstRoutePrefix := Mask(dst, length);
        }
        if dstRoutePrefix in bucket {
          return Some(bucket[dstRoutePrefix]);
        }
        todo := todo - {length};
      }
      return None;
    }

    method PopDatagram(i: nat)
      requires Distinct() && i < |interfaces| && interfaces[i].datagramsReceived != []
      modifies interfaces
      ensures Views() == PopFront(old(Views()), i)
    {
      interfaces[i].datagramsReceived := interfaces[i].datagramsReceived[1..];
    }

    /** Lower the hop limit, renew the checksum, and give the datagram to the interface its route names. */
    method Forward(d: InternetDatagram) returns (sent: seq<Transmission>, threw: bool)
      requires Distinct() && d.header.ttl > 1
      modifies interfaces
      ensures threw <==> Lookup(routingTable, d.header.dst).Some?
                         && Lookup(routingTable, d.header.dst).value.1.interfaceNum >= |interfaces|
      ensures threw || Hand(routingTable, d).None? ==> Views() == old(Views()) && sent == []
      ensures !threw && Hand(routingTable, d).Some? ==> (Views(), sent) == Submit(old(Views()), Hand(routingTable, d).value)
    {
      assert Forwarded(d).header.dst == d.header.dst;
      hide IPv4Header.ComputeChecksum, Lookup;
      sent, threw := [], false;
      var dgram := d.(header := d.header.(ttl := d.header.ttl - 1));
      dgram := dgram.(header := dgram.header.ComputeChecksum());
      var found := FindRoute(dgram.header.dst);
      if found.Some? {
        var hop := if found.value.nextHop.Some? then found.value.nextHop.value else dgram.header.dst;
        if found.value.interfaceNum >= |interfaces| {
          threw := true;
          return;
        }
        sent := interfaces[found.value.interfaceNum].SendDatagram(dgram, hop);
        assert Views() == Submit(old(Views()), Hand(routingTable, d).value).0;
      }
    }

    /** One round of the inner loop, for a datagram that is not expired. */
    method RouteDatagram(i: nat) returns (sent: seq<Transmission>, threw: bool)
      requires Distinct() && i < |interfaces|
      requires interfaces[i].datagramsReceived != [] && interfaces[i].datagramsReceived[0].header.ttl > 1
      modifies interfaces
      ensures threw == Stops(routingTable, old(interfaces[i].datagramsReceived[0]), |interfaces|)
      ensures threw ==> Views() == PopFront(old(Views()), i) && sent == []
      ensures !threw ==> Views() == RouteOne(old(Views()), routingTable, i).interfaces
                         && sent == RouteOne(old(Views()), routingTable, i).sent
    {
      hide Hand, PopFront, Submit, Stops, Lookup;
      var dgram := interfaces[i].datagramsReceived[0];
      StopsByRoute(routingTable, dgram, |interfaces|);
      PopDatagram(i);
      sent, threw := Forward(dgram);
    }

    /** The inner loop: drain the queue of interface `i`; `stop` tells the caller to stop. */
    method DrainInterface(i: nat, ghost goal: Outcome, before: seq<Transmission>)
      returns (sent: seq<Transmission>, stop: bool, threw: bool)
      requires Distinct() && i < |interfaces| && StillToRoute(goal, before, Views(), routingTable, i)
      modifies interfaces
      ensures !stop ==> StillToRoute(goal, sent, Views(), routingTable, i + 1)
      ensures !stop ==> !threw
      ensures stop ==> goal.interfaces == Views() && goal.sent == sent && goal.threw == threw
    {
      hide RouteOne, RouteFrom, QueuedFrom, StillToRoute, Hand, PopFront;
      sent, stop, threw := before, false, false;
      while interfaces[i].datagramsReceived != []
        invariant StillToRoute(goal, sent, Views(), routingTable, i)
        decreases QueuedFrom(Views(), i)
      {
        RoutingEnds(goal, sent, Views(), routingTable, i);
        if interfaces[i].datagramsReceived[0].header.ttl <= 1 {
          PopDatagram(i);
          stop := true;
          return;
        }
        ghost var ifs := Views();
        var out;
        out, threw := RouteDatagram(i);
        if threw {
          stop := true;
          return;
        }
        RoutingGoesOn(goal, sent, ifs, routingTable, i);
        sent := sent + out;
      }
      RoutingEnds(goal, sent, Views(), routingTable, i);
    }

    /** Drain all queues, one interface after the other. */
    method Route() returns (sent: seq<Transmission>, threw: bool)
      requires Distinct() && Built()
      modifies interfaces
      ensures var o := RouteFrom(old(Views()), routingTable, 0);
              Views() == o.interfaces && sent == o.sent && threw == o.threw && Routed(old(Views()), routes, 0, o)
    {
      hide Routed, Build, StillToRoute, RouteFrom;
      RouteIsInOrder(Views(), routes, 0);
      ghost var goal := RouteFrom(Views(), routingTable, 0);
      RoutingStarts(Views(), routingTable);
      sent, threw := [], false;
      var i := 0;
      while i < |interfaces|
        invariant i <= |interfaces| && !threw && StillToRoute(goal, sent, Views(), routingTable, i)
      {
        var stop;
        sent, stop, threw := DrainInterface(i, goal, sent);
        if stop {
          return;
        }
        i := i + 1;
      }
      RoutingEnds(goal, sent, Views(), routingTable, i);
    }
  }
}
