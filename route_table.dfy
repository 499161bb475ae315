/** Compiled routes (`RTInfo`), the order `routeSlice` sorts them in, the
    in-place sort, and the first-match scan the lookups run over a sorted
    list. */
module RouteTable {
  import opened Base
  import opened Addresses
  import opened Selectors

  /** A compiled route. An absent source or destination matches any
      address; `selector` absent means the default strategy. */
  datatype RTInfo = RTInfo(
    src: Option<Prefix>,
    dst: Option<Prefix>,
    selector: Option<Selector>,
    priority: uint32,
    iface: int64,
    nextHop: Option<IP>)

  datatype RouteError =
    | InvalidFamily   // "IP is not valid as IPv4 or IPv6"
    | NoRoute(dst: IP) // "no route found for <dst>"

  /** The destination prefix length `Dst.Mask.Size()` reports. */
  function DstLen(e: RTInfo): nat
  {
    if e.dst.Some? then e.dst.value.len else 0
  }

  /** `routeSlice.Less`: a longer destination prefix first; for equal lengths
      the smaller priority first. */
  predicate Less(a: RTInfo, b: RTInfo): (r: bool)
    ensures DstLen(b) < DstLen(a) ==> r
    ensures r ==> DstLen(b) <= DstLen(a)
    ensures r && DstLen(a) == DstLen(b) ==> a.priority < b.priority
  {
    if DstLen(a) != DstLen(b) then DstLen(b) < DstLen(a) else a.priority < b.priority
  }

  /** Less is a strict weak order whose ties are exactly the entries with the
      same prefix length and priority, the order `sort.Sort` needs. */
  lemma LessIsStrictWeakOrder(a: RTInfo, b: RTInfo, c: RTInfo)
    ensures !Less(a, a)
    ensures Less(a, b) ==> !Less(b, a)
    ensures Less(a, b) && Less(b, c) ==> Less(a, c)
    ensures !Less(a, b) && !Less(b, c) ==> !Less(a, c)
    ensures (!Less(a, b) && !Less(b, a)) <==> (DstLen(a) == DstLen(b) && a.priority == b.priority)
  {
  }

  /** No entry is Less than one before it. */
  ghost predicate Sorted(s: seq<RTInfo>)
  {
    forall i, j :: 0 <= i < j < |s| ==> !Less(s[j], s[i])
  }

  /** `routeSlice.Swap`: exchanges two entries and leaves the rest alone. */
  method Swap(a: array<RTInfo>, i: int, j: int)
    requires 0 <= i < a.Length && 0 <= j < a.Length
    modifies a
    ensures a[..] == old(a[..])[i := old(a[j])][j := old(a[i])]
    ensures multiset(a[..]) == multiset(old(a[..]))
  {
    a[i], a[j] := a[j], a[i];
  }

  /** `sort.Sort` on a routeSlice, as an insertion sort through Swap and
      Less. Only sortedness and being a permutation are promised: nothing is
      said about the relative order of ties. */
  method Sort(a: array<RTInfo>)
    modifies a
    ensures Sorted(a[..])
    ensures multiset(a[..]) == multiset(old(a[..]))
  {
    var i := 0;
    while i < a.Length
      invariant 0 <= i <= a.Length
      invariant forall k, l :: 0 <= k < l < i ==> !Less(a[l], a[k])
      invariant multiset(a[..]) == multiset(old(a[..]))
    {
      var j := i;
      while j > 0 && Less(a[j], a[j - 1])
        invariant 0 <= j <= i
        invariant forall k, l :: 0 <= k < l <= i && k != j && l != j ==> !Less(a[l], a[k])
        invariant forall l :: j < l <= i ==> !Less(a[l], a[j])
        invariant multiset(a[..]) == multiset(old(a[..]))
      {
        Swap(a, j - 1, j);
        j := j - 1;
      }
      i := i + 1;
    }
  }

  /** Sorting a slice value: the result is a sorted permutation of `s`. */
  method SortRoutes(s: seq<RTInfo>) returns (t: seq<RTInfo>)
    ensures Sorted(t)
    ensures multiset(t) == multiset(s)
  {
    var a := new RTInfo[|s|](i requires 0 <= i < |s| => s[i]);
    assert a[..] == s;
    Sort(a);
    t := a[..];
  }

  /** The filter of `route`: the source prefix is absent or contains `src`,
      and the destination prefix is absent or contains `dst`. */
  predicate Matches(e: RTInfo, src: IP, dst: IP): (r: bool)
    ensures r && e.src.Some? ==> WellFormed(src) && src.family == e.src.value.addr.family
    ensures r && e.dst.Some? ==> WellFormed(dst) && dst.family == e.dst.value.addr.family
  {
    && (e.src.None? || Contains(e.src.value, src))
    && (e.dst.None? || Contains(e.dst.value, dst))
  }

  /** Index `i` holds a matching entry and no entry before it matches. */
  ghost predicate IsFirstMatch(routes: seq<RTInfo>, i: int, src: IP, dst: IP)
  {
    && 0 <= i < |routes|
    && Matches(routes[i], src, dst)
    && forall k :: 0 <= k < i ==> !Matches(routes[k], src, dst)
  }

  ghost predicate NoMatch(routes: seq<RTInfo>, src: IP, dst: IP)
  {
    forall k :: 0 <= k < |routes| ==> !Matches(routes[k], src, dst)
  }

  /** The loop of `route` from index `i` on. */
  function FirstMatchFrom(routes: seq<RTInfo>, src: IP, dst: IP, i: nat): (r: Option<nat>)
    requires i <= |routes|
    requires forall k :: 0 <= k < i ==> !Matches(routes[k], src, dst)
    decreases |routes| - i
    ensures r.Some? ==> IsFirstMatch(routes, r.value, src, dst)
    ensures r.None? <==> NoMatch(routes, src, dst)
  {
    if i == |routes| then None
    else if Matches(routes[i], src, dst) then Some(i)
    else FirstMatchFrom(routes, src, dst, i + 1)
  }

  /** `Router.route`: the first matching entry in list order, or the
      no-route error carrying the destination. */
  function FindRoute(routes: seq<RTInfo>, src: IP, dst: IP): (r: Result<RTInfo, RouteError>)
    ensures r.Ok? ==> r.value in routes && Matches(r.value, src, dst)
    ensures r.Ok? ==> exists i :: IsFirstMatch(routes, i, src, dst) && routes[i] == r.value
    ensures r.Err? <==> NoMatch(routes, src, dst)
    ensures r.Err? ==> r.error == NoRoute(dst)
  {
    match FirstMatchFrom(routes, src, dst, 0)
    case Some(i) => Ok(routes[i])
    case None => Err(NoRoute(dst))
  }

  /** On a sorted list the first match is a longest-prefix match: no matching
      entry has a longer destination prefix, and none with the same length
      has a smaller priority. */
  lemma SortedFirstMatchIsLongest(routes: seq<RTInfo>, i: int, src: IP, dst: IP)
    requires Sorted(routes)
    requires IsFirstMatch(routes, i, src, dst)
    ensures forall j :: 0 <= j < |routes| && Matches(routes[j], src, dst) ==>
      && DstLen(routes[j]) <= DstLen(routes[i])
      && (DstLen(routes[j]) == DstLen(routes[i]) ==> routes[i].priority <= routes[j].priority)
  {
    forall j | 0 <= j < |routes| && Matches(routes[j], src, dst)
      ensures !Less(routes[j], routes[i])
    {
      if j > i {
        assert !Less(routes[j], routes[i]);
      }
    }
  }

  /** The entry `route` returns from a sorted list is at least as good, in
      the Less order, as every matching entry of the list. */
  lemma FindRouteIsLongestMatch(routes: seq<RTInfo>, src: IP, dst: IP)
    requires Sorted(routes)
    ensures FindRoute(routes, src, dst).Ok? ==>
      forall e :: e in routes && Matches(e, src, dst) ==>
        && DstLen(e) <= DstLen(FindRoute(routes, src, dst).value)
        && (DstLen(e) == DstLen(FindRoute(routes, src, dst).value) ==>
              FindRoute(routes, src, dst).value.priority <= e.priority)
  {
    var r := FindRoute(routes, src, dst);
    if r.Ok? {
      var i :| IsFirstMatch(routes, i, src, dst) && routes[i] == r.value;
      SortedFirstMatchIsLongest(routes, i, src, dst);
      forall e | e in routes && Matches(e, src, dst)
        ensures DstLen(e) <= DstLen(r.value)
        ensures DstLen(e) == DstLen(r.value) ==> r.value.priority <= e.priority
      {
        var j :| 0 <= j < |routes| && routes[j] == e;
      }
    }
  }

  /** An entry that matches and beats every other matching entry strictly
      is what `route` returns from any sorted list holding it. */
  lemma StrictlyBestIsChosen(routes: seq<RTInfo>, e: RTInfo, src: IP, dst: IP)
    requires Sorted(routes)
    requires e in routes && Matches(e, src, dst)
    requires forall x :: x in routes && Matches(x, src, dst) && x != e ==> Less(e, x)
    ensures FindRoute(routes, src, dst) == Ok(e)
  {
    FindRouteIsLongestMatch(routes, src, dst);
    var r := FindRoute(routes, src, dst);
    assert r.Ok?;
    assert !Less(e, r.value);
  }

  /** Entry `k` of `es` matches the query and is strictly Less than every
      other entry of `es` that matches it. */
  ghost predicate IsUniqueBest(es: seq<RTInfo>, k: int, src: IP, dst: IP)
  {
    && 0 <= k < |es|
    && Matches(es[k], src, dst)
    && forall j :: 0 <= j < |es| && j != k && Matches(es[j], src, dst) ==> Less(es[k], es[j])
  }

  /** Whatever order a sort leaves ties in, a query whose best match among
      the entries is unique gets that entry. */
  lemma BestSurvivesSorting(s: seq<RTInfo>, es: seq<RTInfo>, k: int, src: IP, dst: IP)
    requires Sorted(s) && multiset(s) == multiset(es)
    requires IsUniqueBest(es, k, src, dst)
    ensures FindRoute(s, src, dst) == Ok(es[k])
  {
    assert forall x :: x in s <==> x in es by {
      forall x ensures x in s <==> x in es {
        assert x in s <==> x in multiset(s);
        assert x in es <==> x in multiset(es);
      }
    }
    forall x | x in s && Matches(x, src, dst) && x != es[k]
      ensures Less(es[k], x)
    {
      var j :| 0 <= j < |es| && es[j] == x;
    }
    StrictlyBestIsChosen(s, es[k], src, dst);
  }

  /** Sorting is not stable, so two sorted orders of the same entries may
      differ on ties; `route` still finds a route in one exactly when it finds
      one in the other, and the two entries it returns tie under Less. When no
      two matching entries tie, the two lookups return the same entry. */
  lemma LookupAgreesAcrossSortedOrders(s: seq<RTInfo>, t: seq<RTInfo>, src: IP, dst: IP)
    requires Sorted(s) && Sorted(t)
    requires multiset(s) == multiset(t)
    ensures FindRoute(s, src, dst).Err? <==> FindRoute(t, src, dst).Err?
    ensures FindRoute(s, src, dst).Err? ==> FindRoute(s, src, dst) == FindRoute(t, src, dst)
    ensures FindRoute(s, src, dst).Ok? ==>
      && DstLen(FindRoute(s, src, dst).value) == DstLen(FindRoute(t, src, dst).value)
      && FindRoute(s, src, dst).value.priority == FindRoute(t, src, dst).value.priority
  {
    var a, b := FindRoute(s, src, dst), FindRoute(t, src, dst);
    assert forall x :: x in s <==> x in t by {
      forall x ensures x in s <==> x in t {
        assert x in s <==> x in multiset(s);
        assert x in t <==> x in multiset(t);
      }
    }
    if a.Ok? {
      assert a.value in t;
      assert b.Ok?;
    }
    if b.Ok? {
      assert b.value in s;
      assert a.Ok?;
    }
    if a.Ok? && b.Ok? {
      FindRouteIsLongestMatch(s, src, dst);
      FindRouteIsLongestMatch(t, src, dst);
    }
  }
}
