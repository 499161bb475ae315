/** The route table: declarative routes, their compilation into per-family
    lists of RTInfo entries, and the Router object that owns the interfaces
    and the two lists and answers lookups. */
module Routing {
  import opened Base
  import opened Addresses
  import opened Selectors
  import opened RouteTable

  /** A route as configured, with its CIDR and next-hop strings already
      parsed: an unparsable source or next hop is absent, and the
      destination is absent when it does not parse. */
  datatype Route = Route(
    iface: Interface,
    src: Option<Prefix>,
    dst: Option<Prefix>,
    priority: uint32,
    nextHop: Option<IP>)

  /** The destination of a route is an address of family `f`, which decides
      the list its entry goes to. */
  predicate RouteIn(r: Route, f: Family)
  {
    r.dst.Some? && r.dst.value.addr.family == f
  }

  predicate EntryIn(e: RTInfo, f: Family)
  {
    e.dst.Some? && e.dst.value.addr.family == f
  }

  /** The RTInfo that AddRoutes builds for one route: the route's prefixes
      and next hop, the first-address selector that `Route.Selector` always
      gives, the priority shifted by the batch offset, and the interface id. */
  function Compile(r: Route, offset: uint32): (e: RTInfo)
    ensures e.priority as int == (r.priority as int + offset as int) % 0x1_0000_0000
  {
    RTInfo(r.src, r.dst, Some(First), AddU32(r.priority, offset), r.iface.id, r.nextHop)
  }

  /** The entries one batch appends to the list of family `f`, in input
      order. */
  function Bucket(rs: seq<Route>, offset: uint32, f: Family): (r: seq<RTInfo>)
    ensures |r| <= |rs|
    ensures forall i :: 0 <= i < |r| ==> EntryIn(r[i], f)
  {
    if rs == [] then []
    else
      var last := rs[|rs| - 1];
      Bucket(rs[..|rs| - 1], offset, f) + (if RouteIn(last, f) then [Compile(last, offset)] else [])
  }

  /** The interface map after a batch: each route registers its interface
      under its id, a later route overwriting an earlier one. */
  function Register(m: map<int64, Interface>, rs: seq<Route>): (r: map<int64, Interface>)
    ensures m.Keys <= r.Keys
  {
    if rs == [] then m
    else
      var last := rs[|rs| - 1];
      Register(m, rs[..|rs| - 1])[last.iface.id := last.iface]
  }

  /** Every route with a destination lands in exactly one of the two lists:
      a batch grows them by one entry per route in all. */
  lemma {:induction false} BucketsPartition(rs: seq<Route>, offset: uint32)
    requires forall r :: r in rs ==> r.dst.Some?
    ensures |Bucket(rs, offset, IPv4)| + |Bucket(rs, offset, IPv6)| == |rs|
  {
    if rs != [] {
      var init := rs[..|rs| - 1];
      assert forall r :: r in init ==> r in rs;
      BucketsPartition(init, offset);
    }
  }

  /** Compiling a concatenation of batches appends their entries in order. */
  lemma {:induction false} BucketAppend(a: seq<Route>, b: seq<Route>, offset: uint32, f: Family)
    ensures Bucket(a + b, offset, f) == Bucket(a, offset, f) + Bucket(b, offset, f)
  {
    if b == [] {
      assert a + b == a;
    } else {
      var init := b[..|b| - 1];
      assert (a + b)[..|a + b| - 1] == a + init;
      BucketAppend(a, init, offset, f);
    }
  }

  /** The entries of a bucket are exactly the compiled routes of that family. */
  lemma {:induction false} BucketContents(rs: seq<Route>, offset: uint32, f: Family)
    ensures forall e :: e in Bucket(rs, offset, f) ==>
      exists r :: r in rs && RouteIn(r, f) && e == Compile(r, offset)
    ensures forall r :: r in rs && RouteIn(r, f) ==> Compile(r, offset) in Bucket(rs, offset, f)
  {
    if rs != [] {
      var init := rs[..|rs| - 1];
      var last := rs[|rs| - 1];
      BucketContents(init, offset, f);
      assert rs == init + [last];
      assert forall r :: r in rs <==> r in init || r == last;
    }
  }

  /** One step of a batch: the prefix of length `i + 1` compiles to that of
      length `i` and the entry of route `i`, if it is of family `f`. */
  lemma BucketStep(rs: seq<Route>, i: int, offset: uint32, f: Family)
    requires 0 <= i < |rs|
    ensures RouteIn(rs[i], f) ==> Bucket(rs[..i + 1], offset, f) == Bucket(rs[..i], offset, f) + [Compile(rs[i], offset)]
    ensures !RouteIn(rs[i], f) ==> Bucket(rs[..i + 1], offset, f) == Bucket(rs[..i], offset, f)
  {
    assert rs[..i + 1][..i] == rs[..i];
  }

  lemma RegisterStep(m: map<int64, Interface>, rs: seq<Route>, i: int)
    requires 0 <= i < |rs|
    ensures Register(m, rs[..i + 1]) == Register(m, rs[..i])[rs[i].iface.id := rs[i].iface]
  {
    assert rs[..i + 1][..i] == rs[..i];
  }

  /** A batch whose routes all have destinations of family `f` compiles to
      one entry per route, in input order, and adds nothing to the other list. */
  lemma {:induction false} BucketOneFamily(rs: seq<Route>, offset: uint32, f: Family, g: Family)
    requires forall i :: 0 <= i < |rs| ==> RouteIn(rs[i], f)
    requires g != f
    ensures |Bucket(rs, offset, f)| == |rs|
    ensures forall i :: 0 <= i < |rs| ==> Bucket(rs, offset, f)[i] == Compile(rs[i], offset)
    ensures Bucket(rs, offset, g) == []
  {
    if rs != [] {
      var init := rs[..|rs| - 1];
      BucketOneFamily(init, offset, f, g);
    }
  }

  /** The interface ids a batch registers are added to the map's keys. */
  lemma {:induction false} RegisterKeys(m: map<int64, Interface>, rs: seq<Route>)
    ensures Register(m, rs).Keys == m.Keys + set r | r in rs :: r.iface.id
  {
    if rs != [] {
      var init := rs[..|rs| - 1];
      var last := rs[|rs| - 1];
      RegisterKeys(m, init);
      assert rs == init + [last];
      assert (set r | r in rs :: r.iface.id) == (set r | r in init :: r.iface.id) + {last.iface.id};
    }
  }

  /** Last write wins: an id maps to the interface of the last route of the
      batch that names it. */
  lemma {:induction false} RegisterLastWins(m: map<int64, Interface>, rs: seq<Route>, i: int)
    requires 0 <= i < |rs|
    requires forall j :: i < j < |rs| ==> rs[j].iface.id != rs[i].iface.id
    ensures rs[i].iface.id in Register(m, rs)
    ensures Register(m, rs)[rs[i].iface.id] == rs[i].iface
  {
    if i < |rs| - 1 {
      RegisterLastWins(m, rs[..|rs| - 1], i);
    }
  }

  /** An id that no route of the batch names keeps its old interface, or
      stays unregistered. */
  lemma {:induction false} RegisterKeepsOthers(m: map<int64, Interface>, rs: seq<Route>, id: int64)
    requires forall j :: 0 <= j < |rs| ==> rs[j].iface.id != id
    ensures id in Register(m, rs) <==> id in m
    ensures id in m ==> Register(m, rs)[id] == m[id]
  {
    if rs != [] {
      RegisterKeepsOthers(m, rs[..|rs| - 1], id);
    }
  }

  /** What RouteWithSrc returns on success. */
  datatype SrcRoute = SrcRoute(iface: Interface, preferredSrc: Option<InterfaceAddress>)

  /** What RouteWithNextHop returns on success. */
  datatype NextHopRoute = NextHopRoute(iface: Interface, preferredSrc: Option<InterfaceAddress>, nextHop: Option<IP>)

  /** The strategy RouteWithSrc applies: the entry's own, or the first-address
      strategy when it has none. */
  function SelectorOf(e: RTInfo): Selector
  {
    if e.selector.Some? then e.selector.value else First
  }

  /** The address RouteWithNextHop aims the selector at: the next hop when the
      entry has one, the destination otherwise. */
  function Target(e: RTInfo, dst: IP): IP
  {
    if e.nextHop.Some? then e.nextHop.value else dst
  }

  /** The invariant of a router's state: every interface is stored under its
      own id; every entry of a list has a destination of that list's family
      and an interface that is registered. */
  ghost predicate Consistent(ifaces: map<int64, Interface>, v4: seq<RTInfo>, v6: seq<RTInfo>)
  {
    && (forall id | id in ifaces :: ifaces[id].id == id)
    && (forall e | e in v4 :: EntryIn(e, IPv4) && e.iface in ifaces)
    && (forall e | e in v6 :: EntryIn(e, IPv6) && e.iface in ifaces)
  }

  /** Registering a route's interface and appending its entry to the list of
      its destination's family keeps the state consistent. */
  lemma AddKeepsConsistent(ifaces: map<int64, Interface>, v4: seq<RTInfo>, v6: seq<RTInfo>, r: Route, offset: uint32)
    requires Consistent(ifaces, v4, v6)
    requires r.dst.Some?
    ensures Consistent(ifaces[r.iface.id := r.iface],
                       v4 + (if RouteIn(r, IPv4) then [Compile(r, offset)] else []),
                       v6 + (if RouteIn(r, IPv6) then [Compile(r, offset)] else []))
  {
  }

  /** A batch of routes with destinations keeps the state consistent: the
      interfaces it registers are stored under their ids, and each entry it
      appends lands in the list of its family with a registered interface. */
  lemma {:induction false} BatchKeepsConsistent(ifaces: map<int64, Interface>, v4: seq<RTInfo>, v6: seq<RTInfo>,
                                                rs: seq<Route>, offset: uint32)
    requires Consistent(ifaces, v4, v6)
    requires forall r :: r in rs ==> r.dst.Some?
    ensures Consistent(Register(ifaces, rs), v4 + Bucket(rs, offset, IPv4), v6 + Bucket(rs, offset, IPv6))
  {
    if rs != [] {
      var init, last := rs[..|rs| - 1], rs[|rs| - 1];
      assert forall r :: r in init ==> r in rs;
      BatchKeepsConsistent(ifaces, v4, v6, init, offset);
      var tail4 := if RouteIn(last, IPv4) then [Compile(last, offset)] else [];
      var tail6 := if RouteIn(last, IPv6) then [Compile(last, offset)] else [];
      AddKeepsConsistent(Register(ifaces, init), v4 + Bucket(init, offset, IPv4), v6 + Bucket(init, offset, IPv6), last, offset);
      assert (v4 + Bucket(init, offset, IPv4)) + tail4 == v4 + Bucket(rs, offset, IPv4);
      assert (v6 + Bucket(init, offset, IPv6)) + tail6 == v6 + Bucket(rs, offset, IPv6);
    }
  }

  class Router {
    var ifaces: map<int64, Interface>
    var v4: seq<RTInfo>
    var v6: seq<RTInfo>

    ghost predicate Valid()
      reads this
    {
      Consistent(ifaces, v4, v6)
    }

    /** Both lists are in Less order, as Update leaves them. */
    ghost predicate Finalized()
      reads this
    {
      Sorted(v4) && Sorted(v6)
    }

    /** The list a query of family `f` scans. */
    function Table(f: Family): (t: seq<RTInfo>)
      reads this
      ensures Valid() ==> forall e | e in t :: EntryIn(e, f) && e.iface in ifaces
    {
      match f
      case IPv4 => v4
      case IPv6 => v6
    }

    /** NewRouter: no interfaces and no routes. */
    constructor ()
      ensures Valid() && Finalized()
      ensures ifaces == map[] && v4 == [] && v6 == []
    {
      ifaces := map[];
      v4 := [];
      v6 := [];
    }

    /** AddRoutes: registers each route's interface and appends its entry to
        the list of its destination's family, in input order. The lists are
        not re-sorted. */
    method AddRoutes(offset: uint32, routes: seq<Route>)
      requires Valid()
      requires forall k :: 0 <= k < |routes| ==> routes[k].dst.Some?
      modifies this
      ensures Valid()
      ensures ifaces == Register(old(ifaces), routes)
      ensures v4 == old(v4) + Bucket(routes, offset, IPv4)
      ensures v6 == old(v6) + Bucket(routes, offset, IPv6)
    {
      var i := 0;
      while i < |routes|
        invariant 0 <= i <= |routes|
        invariant ifaces == Register(old(ifaces), routes[..i])
        invariant v4 == old(v4) + Bucket(routes[..i], offset, IPv4)
        invariant v6 == old(v6) + Bucket(routes[..i], offset, IPv6)
      {
        var route := routes[i];
        BucketStep(routes, i, offset, IPv4);
        BucketStep(routes, i, offset, IPv6);
        RegisterStep(old(ifaces), routes, i);
        ifaces := ifaces[route.iface.id := route.iface];
        var rt := Compile(route, offset);
        if route.dst.value.addr.family == IPv4 {
          v4 := v4 + [rt];
        } else {
          v6 := v6 + [rt];
        }
        i := i + 1;
      }
      assert routes[..|routes|] == routes;
      assert forall r :: r in routes ==> r.dst.Some?;
      BatchKeepsConsistent(old(ifaces), old(v4), old(v6), routes, offset);
    }

    /** Update: sorts both lists into Less order. Each list keeps its
        entries; ties may come out in any order. */
    method Update()
      requires Valid()
      modifies this
      ensures Valid() && Finalized()
      ensures ifaces == old(ifaces)
      ensures multiset(v4) == multiset(old(v4))
      ensures multiset(v6) == multiset(old(v6))
    {
      ghost var old4, old6 := v4, v6;
      v4 := SortRoutes(v4);
      v6 := SortRoutes(v6);
      forall e | e in v4 ensures e in old4 {
        assert e in multiset(v4);
      }
      forall e | e in v6 ensures e in old6 {
        assert e in multiset(v6);
      }
    }

    /** RouteWithSrc: picks the list by the destination's family, takes the
        first matching entry, and applies the entry's selector (the first
        address by default) to its interface's addresses. */
    function RouteWithSrc(src: IP, dst: IP): (r: Result<SrcRoute, RouteError>)
      reads this
      requires Valid()
      ensures r == Err(InvalidFamily) <==> !WellFormed(dst)
      ensures r.Err? ==> r.error == InvalidFamily || r.error == NoRoute(dst)
      ensures WellFormed(dst) ==> (r.Err? <==> NoMatch(Table(dst.family), src, dst))
      ensures r.Ok? ==> WellFormed(dst)
      ensures r.Ok? ==>
        exists i :: IsFirstMatch(Table(dst.family), i, src, dst) &&
          var e := Table(dst.family)[i];
          && e.iface in ifaces
          && r.value.iface == ifaces[e.iface]
          && r.value.iface.id == e.iface
          && r.value.preferredSrc == Select(SelectorOf(e), ifaces[e.iface].addrs, src, dst)
    {
      match Classify(dst)
      case None => Err(InvalidFamily)
      case Some(f) =>
        match FindRoute(Table(f), src, dst)
        case Err(err) => Err(err)
        case Ok(rt) =>
          var iface := ifaces[rt.iface];
          Ok(SrcRoute(iface, Select(SelectorOf(rt), iface.addrs, src, dst)))
    }

    /** RouteWithNextHop: the same match as RouteWithSrc, then the address of
        the interface whose network contains the entry's next hop (or the
        destination when there is none), and the next hop itself. No fitting
        address is a success with no address, not an error. */
    function RouteWithNextHop(src: IP, dst: IP): (r: Result<NextHopRoute, RouteError>)
      reads this
      requires Valid()
      ensures r == Err(InvalidFamily) <==> !WellFormed(dst)
      ensures r.Err? ==> r.error == InvalidFamily || r.error == NoRoute(dst)
      ensures WellFormed(dst) ==> (r.Err? <==> NoMatch(Table(dst.family), src, dst))
      ensures r.Ok? ==> WellFormed(dst)
      ensures r.Ok? ==>
        exists i :: IsFirstMatch(Table(dst.family), i, src, dst) &&
          var e := Table(dst.family)[i];
          && e.iface in ifaces
          && r.value.iface == ifaces[e.iface]
          && r.value.iface.id == e.iface
          && r.value.nextHop == e.nextHop
          && r.value.preferredSrc == FitAddress(ifaces[e.iface].addrs, src, Target(e, dst))
      ensures r.Ok? ==> var target := if r.value.nextHop.Some? then r.value.nextHop.value else dst;
        && (r.value.preferredSrc.Some? ==>
              r.value.preferredSrc.value in r.value.iface.addrs && Fits(r.value.preferredSrc.value, target))
        && (r.value.preferredSrc.None? <==> NoneFits(r.value.iface.addrs, target))
    {
      match Classify(dst)
      case None => Err(InvalidFamily)
      case Some(f) =>
        match FindRoute(Table(f), src, dst)
        case Err(err) => Err(err)
        case Ok(rt) =>
          var iface := ifaces[rt.iface];
          Ok(NextHopRoute(iface, FitAddress(iface.addrs, src, Target(rt, dst)), rt.nextHop))
    }
  }
}
