/** The sample configuration of the program's `main`: two interfaces, five
    IPv4 routes added in one batch with offset 0, then finalized; and the
    answers its queries get. */
module Demo {
  import opened Base
  import opened Addresses
  import opened Selectors
  import opened RouteTable
  import opened Routing

  function Eth0(): Interface
  {
    Interface(0, "eth0", [InterfaceAddress(V4(192, 168, 1, 2), 24), InterfaceAddress(V4(192, 168, 1, 3), 24)])
  }

  function Eth1(): Interface
  {
    Interface(1, "eth1", [InterfaceAddress(V4(10, 0, 0, 2), 8)])
  }

  function AnyV4(): Option<Prefix>
  {
    Some(Prefix(V4(0, 0, 0, 0), 0))
  }

  function SampleRoutes(): seq<Route>
  {
    [ Route(Eth0(), AnyV4(), AnyV4(), 0, Some(V4(192, 168, 1, 3))),
      Route(Eth0(), AnyV4(), Some(Prefix(V4(172, 16, 1, 0), 24)), 0, Some(V4(192, 168, 1, 2))),
      Route(Eth1(), AnyV4(), Some(Prefix(V4(172, 16, 1, 0), 26)), 0, Some(V4(10, 0, 0, 1))),
      Route(Eth1(), AnyV4(), Some(Prefix(V4(172, 16, 2, 0), 24)), 0, Some(V4(10, 0, 0, 10))),
      Route(Eth1(), AnyV4(), Some(Prefix(V4(172, 16, 3, 0), 24)), 0, Some(V4(10, 0, 0, 1))) ]
  }

  /** The compiled entries of the sample batch, in input order. */
  function SampleEntries(): seq<RTInfo>
  {
    var rs := SampleRoutes();
    [Compile(rs[0], 0), Compile(rs[1], 0), Compile(rs[2], 0), Compile(rs[3], 0), Compile(rs[4], 0)]
  }

  /** The sample batch fills only the IPv4 list, with its entries in input
      order. */
  lemma SampleBatchEntries()
    ensures Bucket(SampleRoutes(), 0, IPv4) == SampleEntries()
    ensures Bucket(SampleRoutes(), 0, IPv6) == []
  {
    var rs := SampleRoutes();
    var es := SampleEntries();
    BucketOneFamily(rs, 0, IPv4, IPv6);
  }

  /** The sample batch registers eth0 under 0 and eth1 under 1. */
  lemma SampleBatchInterfaces()
    ensures Register(map[], SampleRoutes()) == map[0 := Eth0(), 1 := Eth1()]
  {
    var rs := SampleRoutes();
    forall id: int64 | id != 0 && id != 1
      ensures id !in Register(map[], rs)
    {
      RegisterKeepsOthers(map[], rs, id);
    }
    RegisterLastWins(map[], rs, 1);
    RegisterLastWins(map[], rs, 4);
  }

  /** The prefixes of the sample entries: every source is the default
      network; the destinations in input order. */
  lemma SampleShape()
    ensures forall k :: 0 <= k < 5 ==> SampleEntries()[k].src == AnyV4() && SampleEntries()[k].dst.Some?
    ensures SampleEntries()[0].dst == AnyV4()
    ensures SampleEntries()[1].dst.value == Prefix(V4(172, 16, 1, 0), 24)
    ensures SampleEntries()[2].dst.value == Prefix(V4(172, 16, 1, 0), 26)
    ensures SampleEntries()[3].dst.value == Prefix(V4(172, 16, 2, 0), 24)
    ensures SampleEntries()[4].dst.value == Prefix(V4(172, 16, 3, 0), 24)
  {
  }

  /** The source address of the sample queries lies in the default network. */
  lemma SampleSource()
    ensures Contains(AnyV4().value, V4(192, 168, 1, 2))
  {
    ContainsDefault(AnyV4().value, V4(192, 168, 1, 2));
  }

  /** What the sample's networks say about one IPv4 address: the default
      network holds it; the three /24 networks and the /26 one hold it as
      their octets agree with its own. */
  lemma SampleNetworks(x: nat, y: nat, z: nat, w: nat)
    requires x < 256 && y < 256 && z < 256 && w < 256
    ensures Contains(AnyV4().value, V4(x, y, z, w))
    ensures Contains(Prefix(V4(172, 16, 1, 0), 24), V4(x, y, z, w)) <==> x == 172 && y == 16 && z == 1
    ensures Contains(Prefix(V4(172, 16, 1, 0), 26), V4(x, y, z, w)) <==> x == 172 && y == 16 && z == 1 && w < 64
    ensures Contains(Prefix(V4(172, 16, 2, 0), 24), V4(x, y, z, w)) <==> x == 172 && y == 16 && z == 2
    ensures Contains(Prefix(V4(172, 16, 3, 0), 24), V4(x, y, z, w)) <==> x == 172 && y == 16 && z == 3
  {
    ContainsDefault(AnyV4().value, V4(x, y, z, w));
    ContainsV4Slash24(172, 16, 1, 0, x, y, z, w);
    ContainsV4Slash26(172, 16, 1, 0, x, y, z, w);
    ContainsV4Slash24(172, 16, 2, 0, x, y, z, w);
    ContainsV4Slash24(172, 16, 3, 0, x, y, z, w);
  }

  /** Which sample entries match 223.5.5.5. */
  lemma MatchesFor223()
    ensures Matches(SampleEntries()[0], V4(192, 168, 1, 2), V4(223, 5, 5, 5))
    ensures !Matches(SampleEntries()[1], V4(192, 168, 1, 2), V4(223, 5, 5, 5))
    ensures !Matches(SampleEntries()[2], V4(192, 168, 1, 2), V4(223, 5, 5, 5))
    ensures !Matches(SampleEntries()[3], V4(192, 168, 1, 2), V4(223, 5, 5, 5))
    ensures !Matches(SampleEntries()[4], V4(192, 168, 1, 2), V4(223, 5, 5, 5))
  {
    SampleShape();
    SampleSource();
    SampleNetworks(223, 5, 5, 5);
  }

  /** 223.5.5.5 only matches the default route. */
  lemma DefaultOnlyMatch()
    ensures IsUniqueBest(SampleEntries(), 0, V4(192, 168, 1, 2), V4(223, 5, 5, 5))
  {
    MatchesFor223();
  }

  /** Which sample entries match 172.16.1.10 (the first two match as well). */
  lemma MatchesFor172_16_1_10()
    ensures Matches(SampleEntries()[2], V4(192, 168, 1, 2), V4(172, 16, 1, 10))
    ensures !Matches(SampleEntries()[3], V4(192, 168, 1, 2), V4(172, 16, 1, 10))
    ensures !Matches(SampleEntries()[4], V4(192, 168, 1, 2), V4(172, 16, 1, 10))
  {
    SampleShape();
    SampleSource();
    SampleNetworks(172, 16, 1, 10);
  }

  /** 172.16.1.10 matches the default route and both 172.16.1.0 routes; the
      /26 one is best. */
  lemma LongestOfThree()
    ensures IsUniqueBest(SampleEntries(), 2, V4(192, 168, 1, 2), V4(172, 16, 1, 10))
  {
    MatchesFor172_16_1_10();
  }

  /** Which sample entries match 172.16.2.100 (the default route matches as well). */
  lemma MatchesFor172_16_2_100()
    ensures Matches(SampleEntries()[3], V4(192, 168, 1, 2), V4(172, 16, 2, 100))
    ensures !Matches(SampleEntries()[1], V4(192, 168, 1, 2), V4(172, 16, 2, 100))
    ensures !Matches(SampleEntries()[2], V4(192, 168, 1, 2), V4(172, 16, 2, 100))
    ensures !Matches(SampleEntries()[4], V4(192, 168, 1, 2), V4(172, 16, 2, 100))
  {
    SampleShape();
    SampleSource();
    SampleNetworks(172, 16, 2, 100);
  }

  /** 172.16.2.100 matches the default route and 172.16.2.0/24; the latter
      is best. */
  lemma SecondNetMatch()
    ensures IsUniqueBest(SampleEntries(), 3, V4(192, 168, 1, 2), V4(172, 16, 2, 100))
  {
    MatchesFor172_16_2_100();
  }

  /** Which sample entries match 172.16.1.100 (the default route matches as
      well); the /26 network ends at 172.16.1.63. */
  lemma MatchesFor172_16_1_100()
    ensures Matches(SampleEntries()[1], V4(192, 168, 1, 2), V4(172, 16, 1, 100))
    ensures !Matches(SampleEntries()[2], V4(192, 168, 1, 2), V4(172, 16, 1, 100))
    ensures !Matches(SampleEntries()[3], V4(192, 168, 1, 2), V4(172, 16, 1, 100))
    ensures !Matches(SampleEntries()[4], V4(192, 168, 1, 2), V4(172, 16, 1, 100))
  {
    SampleShape();
    SampleSource();
    SampleNetworks(172, 16, 1, 100);
  }

  /** 172.16.1.100 lies outside the /26 network, so the /24 route is best. */
  lemma OutsideSlash26Match()
    ensures IsUniqueBest(SampleEntries(), 1, V4(192, 168, 1, 2), V4(172, 16, 1, 100))
  {
    MatchesFor172_16_1_100();
  }

  /** The state `main` leaves the router in after AddRoutes and Update. */
  ghost predicate SampleState(router: Router)
    reads router
  {
    && router.Valid()
    && router.ifaces == map[0 := Eth0(), 1 := Eth1()]
    && Sorted(router.v4)
    && multiset(router.v4) == multiset(SampleEntries())
  }

  /** 223.5.5.5 leaves by the default route on eth0, from its first address. */
  lemma AnswerDefault(router: Router)
    requires SampleState(router)
    ensures router.RouteWithSrc(V4(192, 168, 1, 2), V4(223, 5, 5, 5)) == Ok(SrcRoute(Eth0(), Some(Eth0().addrs[0])))
  {
    DefaultOnlyMatch();
    BestSurvivesSorting(router.v4, SampleEntries(), 0, V4(192, 168, 1, 2), V4(223, 5, 5, 5));
  }

  /** 172.16.1.10 takes the /26 route on eth1 over the /24 on eth0. */
  lemma AnswerLongest(router: Router)
    requires SampleState(router)
    ensures router.RouteWithSrc(V4(192, 168, 1, 2), V4(172, 16, 1, 10)) == Ok(SrcRoute(Eth1(), Some(Eth1().addrs[0])))
  {
    LongestOfThree();
    BestSurvivesSorting(router.v4, SampleEntries(), 2, V4(192, 168, 1, 2), V4(172, 16, 1, 10));
  }

  /** 172.16.2.100 takes its own /24 route on eth1, from eth1's first address. */
  lemma AnswerSecondNet(router: Router)
    requires SampleState(router)
    ensures router.RouteWithSrc(V4(192, 168, 1, 2), V4(172, 16, 2, 100)) == Ok(SrcRoute(Eth1(), Some(Eth1().addrs[0])))
  {
    SecondNetMatch();
    BestSurvivesSorting(router.v4, SampleEntries(), 3, V4(192, 168, 1, 2), V4(172, 16, 2, 100));
  }

  /** 172.16.2.100 by next hop 10.0.0.10 leaves eth1 from 10.0.0.2, whose /8
      network holds the next hop. */
  lemma AnswerNextHop(router: Router)
    requires SampleState(router)
    ensures router.RouteWithNextHop(V4(192, 168, 1, 2), V4(172, 16, 2, 100))
      == Ok(NextHopRoute(Eth1(), Some(Eth1().addrs[0]), Some(V4(10, 0, 0, 10))))
  {
    SecondNetMatch();
    BestSurvivesSorting(router.v4, SampleEntries(), 3, V4(192, 168, 1, 2), V4(172, 16, 2, 100));
    Eth1ReachesNextHop();
  }

  /** 172.16.1.100 is not in the /26 network and leaves by the /24 route on
      eth0. */
  lemma AnswerOutsideSlash26(router: Router)
    requires SampleState(router)
    ensures router.RouteWithSrc(V4(192, 168, 1, 2), V4(172, 16, 1, 100)) == Ok(SrcRoute(Eth0(), Some(Eth0().addrs[0])))
  {
    OutsideSlash26Match();
    BestSurvivesSorting(router.v4, SampleEntries(), 1, V4(192, 168, 1, 2), V4(172, 16, 1, 100));
  }

  /** 223.5.5.5 by next hop 192.168.1.3 leaves eth0 from 192.168.1.2, the
      first address whose /24 network holds the next hop. */
  lemma AnswerDefaultNextHop(router: Router)
    requires SampleState(router)
    ensures router.RouteWithNextHop(V4(192, 168, 1, 2), V4(223, 5, 5, 5))
      == Ok(NextHopRoute(Eth0(), Some(Eth0().addrs[0]), Some(V4(192, 168, 1, 3))))
  {
    DefaultOnlyMatch();
    BestSurvivesSorting(router.v4, SampleEntries(), 0, V4(192, 168, 1, 2), V4(223, 5, 5, 5));
    Eth0ReachesNextHop();
  }

  /** 192.168.1.3 lies in 192.168.1.2/24. */
  lemma Eth0ReachesNextHop()
    ensures FitAddress(Eth0().addrs, V4(192, 168, 1, 2), V4(192, 168, 1, 3)) == Some(Eth0().addrs[0])
  {
    assert Fits(Eth0().addrs[0], V4(192, 168, 1, 3)) by {
      ContainsV4Slash24(192, 168, 1, 2, 192, 168, 1, 3);
    }
    assert IsFirstFit(Eth0().addrs, 0, V4(192, 168, 1, 3));
  }

  /** 10.0.0.10 lies in 10.0.0.2/8. */
  lemma Eth1ReachesNextHop()
    ensures FitAddress(Eth1().addrs, V4(192, 168, 1, 2), V4(10, 0, 0, 10)) == Some(Eth1().addrs[0])
  {
    assert Fits(Eth1().addrs[0], V4(10, 0, 0, 10)) by {
      ContainsV4Slash8(10, 0, 0, 2, 10, 0, 0, 10);
    }
    assert IsFirstFit(Eth1().addrs, 0, V4(10, 0, 0, 10));
  }

  /** The queries of `main` against the sample table. */
  method SampleQueries() returns (toDefault: Result<SrcRoute, RouteError>,
                                  toLongest: Result<SrcRoute, RouteError>,
                                  viaNextHop: Result<NextHopRoute, RouteError>)
    ensures toDefault == Ok(SrcRoute(Eth0(), Some(Eth0().addrs[0])))
    ensures toLongest == Ok(SrcRoute(Eth1(), Some(Eth1().addrs[0])))
    ensures viaNextHop == Ok(NextHopRoute(Eth1(), Some(Eth1().addrs[0]), Some(V4(10, 0, 0, 10))))
  {
    var router := new Router();
    SampleBatchEntries();
    SampleBatchInterfaces();
    router.AddRoutes(0, SampleRoutes());
    router.Update();
    assert SampleState(router);
    AnswerDefault(router);
    AnswerLongest(router);
    AnswerNextHop(router);
    var src := V4(192, 168, 1, 2);
    toDefault := router.RouteWithSrc(src, V4(223, 5, 5, 5));
    toLongest := router.RouteWithSrc(src, V4(172, 16, 1, 10));
    viaNextHop := router.RouteWithNextHop(src, V4(172, 16, 2, 100));
  }

  /** A router without routes answers every IPv4 or IPv6 query with the
      no-route error and every other one with the family error. */
  method EmptyRouterQueries(src: IP, dst: IP) returns (r: Result<SrcRoute, RouteError>, n: Result<NextHopRoute, RouteError>)
    ensures WellFormed(dst) ==> r == Err(NoRoute(dst)) && n == Err(NoRoute(dst))
    ensures !WellFormed(dst) ==> r == Err(InvalidFamily) && n == Err(InvalidFamily)
  {
    var router := new Router();
    r := router.RouteWithSrc(src, dst);
    n := router.RouteWithNextHop(src, dst);
  }

  /** A route on eth0 whose next hop lies outside both of eth0's networks. */
  function StrayRoute(): Route
  {
    Route(Eth0(), None, Some(Prefix(V4(172, 16, 4, 0), 24)), 7, Some(V4(10, 0, 0, 10)))
  }

  lemma StrayFacts()
    ensures Matches(Compile(StrayRoute(), 0), V4(192, 168, 1, 2), V4(172, 16, 4, 9))
    ensures !Fits(Eth0().addrs[0], V4(10, 0, 0, 10)) && !Fits(Eth0().addrs[1], V4(10, 0, 0, 10))
  {
    ContainsV4Slash24(172, 16, 4, 0, 172, 16, 4, 9);
    ContainsDefault(AnyV4().value, V4(172, 16, 4, 9));
    ContainsV4Slash24(192, 168, 1, 2, 10, 0, 0, 10);
    ContainsV4Slash24(192, 168, 1, 3, 10, 0, 0, 10);
  }

  lemma AnswerStray(router: Router)
    requires router.Valid() && router.ifaces == map[0 := Eth0()]
    requires router.v4 == [Compile(StrayRoute(), 0)]
    ensures router.RouteWithSrc(V4(192, 168, 1, 2), V4(172, 16, 4, 9)) == Ok(SrcRoute(Eth0(), Some(Eth0().addrs[0])))
    ensures router.RouteWithNextHop(V4(192, 168, 1, 2), V4(172, 16, 4, 9)) == Ok(NextHopRoute(Eth0(), None, Some(V4(10, 0, 0, 10))))
  {
    StrayFacts();
    assert NoneFits(Eth0().addrs, V4(10, 0, 0, 10));
  }

  /** A next hop outside every network of the interface: RouteWithNextHop
      still finds the route and returns its next hop, with no address, while
      RouteWithSrc gives the interface's first address. */
  method UnreachableNextHop() returns (r: Result<SrcRoute, RouteError>, n: Result<NextHopRoute, RouteError>)
    ensures r == Ok(SrcRoute(Eth0(), Some(Eth0().addrs[0])))
    ensures n == Ok(NextHopRoute(Eth0(), None, Some(V4(10, 0, 0, 10))))
  {
    var router := new Router();
    var batch := [StrayRoute()];
    BucketOneFamily(batch, 0, IPv4, IPv6);
    assert Bucket(batch, 0, IPv4) == [Compile(StrayRoute(), 0)];
    router.AddRoutes(0, batch);
    assert router.v4 == [Compile(StrayRoute(), 0)];
    router.Update();
    assert router.v4 == [Compile(StrayRoute(), 0)] by {
      assert |router.v4| == 1;
      assert router.v4[0] in multiset(router.v4);
    }
    AnswerStray(router);
    r := router.RouteWithSrc(V4(192, 168, 1, 2), V4(172, 16, 4, 9));
    n := router.RouteWithNextHop(V4(192, 168, 1, 2), V4(172, 16, 4, 9));
  }
}
