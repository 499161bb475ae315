# goRoute route table, modelled in Dafny

goRoute is a small user-space IP route table written in Go (`myRoute.go`).
A *route* names an interface, a source CIDR, a destination CIDR, a priority
and a next hop. `AddRoutes` compiles every route of a batch into an `RTInfo`
entry. It registers the route's interface under the interface's id, adds
the batch offset to the priority (as unsigned 32-bit arithmetic) and appends
the entry to the IPv4 list or the IPv6 list, according to the destination's
family. `Update` sorts both lists with `routeSlice.Less`: longer destination
prefixes come first, and for equal lengths the smaller priority comes first.
A lookup (`RouteWithSrc`, `RouteWithNextHop`) picks the list by the
destination's family. It takes the first entry in list order whose source
and destination networks are absent or contain the query's addresses. Then it asks an
address selector which local address of the entry's interface to use:
the first address (`FirstAddressSelector`), or the first address whose
network contains the target (`FitAddressSelector`).

The project has six modules:

- `Base`: `Option`, `Result`, the `uint32`/`int64` newtypes and `AddU32`, a
  wrapping addition.
- `Addresses`: an IP address as a family and a number, a CIDR prefix as an
  address and a length, and `Contains`. It also proves what the usual IPv4
  netmasks contain.
- `Selectors`: interfaces and their addresses, and the two address
  selectors.
- `RouteTable`: `RTInfo`, the `Less` order, `Swap`, an in-place sort over an
  array, and `route` (`FindRoute`). It proves the longest-prefix-match
  properties of a lookup on a sorted list.
- `Routing`: routes, their compilation, and the `Router` class. The class's
  fields are the interface map and the two lists. Its methods are
  `AddRoutes` and `Update`, and its lookups read the fields.
- `Demo`: the configuration that `main` builds, with the answers its
  queries get.

Go's `sort.Sort`, which `Update` calls, is not stable, so entries that tie
under `Less` may come out in any order. The model therefore promises no tie
order:

- `Sort` promises only a sorted permutation.
- `RouteTable.LookupAgreesAcrossSortedOrders` shows what still holds
  whatever the order of ties: a lookup on any two sorted orders of the
  same entries either fails on both, or returns entries that tie on prefix
  length and priority.

## Model

| member | source | states |
|---|---|---|
| Base.AddU32 | myRoute.go:115 | the sum of two `uint32` values wraps modulo 2^32, and equals the exact sum when that is below 2^32 |
| Addresses.Contains | myRoute.go:197-200 | `IPNet.Contains`: a network never contains an invalid address or one of the other family, and it contains its own valid network address |
| Addresses.ContainsShorter | myRoute.go:197-200 | a network that contains an address still contains it when its prefix is shortened |
| Addresses.ContainsDefault | myRoute.go:273-274 | a zero-length prefix (`0.0.0.0/0`) contains exactly the valid addresses of its family |
| Addresses.ContainsV4Slash24 | myRoute.go:197-200 | an IPv4 /24 network contains exactly the addresses whose first three octets are its own |
| Addresses.ContainsV4Slash26 | myRoute.go:197-200 | an IPv4 /26 network contains exactly the addresses that agree with it on three octets and on the top two bits of the fourth |
| Addresses.ContainsV4Slash8 | myRoute.go:64-68 | an IPv4 /8 network contains exactly the addresses with its first octet |
| Addresses.LeadingShorter | myRoute.go:197-200 | the leading bits of a shorter prefix are the leading bits of a longer one, shifted right |
| Addresses.V4Leading | myRoute.go:197-200 | the leading 0, 8, 24 and 26 bits of an IPv4 address written in octets |
| Selectors.Network | myRoute.go:64-67 | the network built from an address and its netmask contains that address, and only addresses of its family |
| Selectors.FirstAddress | myRoute.go:53-58 | no address exactly when the list is empty, otherwise the first address |
| Selectors.FitFrom | myRoute.go:63-72 | the scan from index `i` returns the lowest fitting index, and returns none exactly when no address fits |
| Selectors.FitAddress | myRoute.go:62-73 | the result is an address of the list whose network contains the target, with no earlier address fitting; none is returned exactly when no address fits |
| Selectors.Select | myRoute.go:159-163 | calling the strategy a selector names returns an address of the list; the first-address strategy returns none exactly for an empty list, and the fit strategy returns an address that fits the target, or none exactly when none fits |
| Selectors.SelectorsIgnoreSource | myRoute.go:53-73 | neither selector depends on the source address, the first-address selector does not depend on the target, and both return a member of the list |
| Selectors.FitAgreesWithFirstWhenFirstFits | myRoute.go:53-73 | when the first address fits the target, the two selectors agree |
| RouteTable.Less | myRoute.go:222-229 | a longer destination prefix always sorts first and a shorter one never does; between equal lengths only a smaller priority sorts first |
| RouteTable.LessIsStrictWeakOrder | myRoute.go:222-229 | `Less` is irreflexive, asymmetric and transitive, and incomparability is transitive; two entries tie exactly when they have the same prefix length and priority |
| RouteTable.Swap | myRoute.go:230-232 | exactly the two entries are exchanged, so the multiset of entries is unchanged |
| RouteTable.Sort | myRoute.go:127-128 | afterwards the array is sorted by `Less` and is a permutation of its old contents |
| RouteTable.SortRoutes | myRoute.go:126-129 | the returned list is sorted and has the same multiset of entries as its input |
| RouteTable.Matches | myRoute.go:197-202 | an entry matches only a source and a destination that are valid and of its prefixes' families |
| RouteTable.FirstMatchFrom | myRoute.go:196-204 | the scan from index `i` returns the first matching index, and returns none exactly when no entry matches |
| RouteTable.FindRoute | myRoute.go:195-207 | on success there is a matching entry of the list and no earlier entry matches; the no-route error carrying the destination is returned exactly when no entry matches |
| RouteTable.SortedFirstMatchIsLongest | myRoute.go:195-207 | on a sorted list the first match has the longest matching prefix, and among equal lengths the smallest priority |
| RouteTable.FindRouteIsLongestMatch | myRoute.go:195-207 | on a sorted list the returned entry is at least as good, in the `Less` order, as every matching entry |
| RouteTable.StrictlyBestIsChosen | myRoute.go:195-207 | an entry that strictly beats every other matching entry is the one returned from any sorted list holding it |
| RouteTable.BestSurvivesSorting | myRoute.go:126-129 | every sorted permutation of a list returns the list's unique best match |
| RouteTable.LookupAgreesAcrossSortedOrders | myRoute.go:126-129 | on two sorted permutations a lookup fails on both or on neither, and the two entries returned tie on prefix length and priority |
| Routing.Compile | myRoute.go:111-118 | the compiled entry's priority is the route's priority plus the offset, modulo 2^32 |
| Routing.Bucket | myRoute.go:111-123 | the entries a batch appends to the list of a family: at most one per route, each with a destination of that family |
| Routing.Register | myRoute.go:110 | the interface map after a batch keeps every old key (what it maps them to is stated by the Register lemmas below) |
| Routing.BucketsPartition | myRoute.go:119-123 | every route of a batch lands in exactly one of the two lists |
| Routing.BucketAppend | myRoute.go:105-124 | a batch split in two compiles, under one offset, to the two halves' entries in order |
| Routing.BucketContents | myRoute.go:111-123 | a list's new entries are exactly the compiled routes of that list's family |
| Routing.BucketStep | myRoute.go:119-123 | one route adds its entry to the list of its family and leaves the other list as it was |
| Routing.BucketOneFamily | myRoute.go:119-123 | a batch whose routes all have one family adds one entry per route to that list, in input order, and nothing to the other |
| Routing.RegisterStep | myRoute.go:110 | one route stores its interface under its id |
| Routing.RegisterKeys | myRoute.go:110 | the batch's interface ids are added to the map's keys |
| Routing.RegisterLastWins | myRoute.go:110 | an id maps to the interface of the last route of the batch that names it |
| Routing.RegisterKeepsOthers | myRoute.go:110 | an id that no route of the batch names keeps its old entry, or stays absent |
| Routing.BatchKeepsConsistent | myRoute.go:104-125 | a batch keeps the router's invariant: each registered interface is stored under its own id, and each entry sits in the list of its family with a registered interface |
| Routing.Router.constructor | myRoute.go:87-91 | a new router has no interfaces and no routes, is valid and is sorted |
| Routing.Router.Table | myRoute.go:145-149 | the list a query of a family scans; in a valid router it holds only entries of that family whose interfaces are registered |
| Routing.Router.AddRoutes | myRoute.go:104-125 | it keeps the invariant; the interface map becomes the registered batch, and each list becomes its old contents followed by the batch's entries of its family, in input order |
| Routing.Router.Update | myRoute.go:126-129 | both lists are sorted and keep their entries; the interfaces are unchanged |
| Routing.Router.RouteWithSrc | myRoute.go:143-164 | the `To4`/`To16` switch of lines 145-151 becomes: the family error is returned exactly for an invalid destination, and otherwise the destination's family picks the list, and the no-route error exactly when no entry of the family's list matches; on success the first matching entry's interface, and what that entry's selector (lines 159-162: its own, or the first-address strategy) picks from it |
| Routing.Router.RouteWithNextHop | myRoute.go:168-193 | the same errors as RouteWithSrc; on success the first matching entry's interface and next hop, and the first address on that interface whose network holds the next hop, or the destination when there is no next hop; no address is returned exactly when none fits |
| Demo.SampleBatchEntries | myRoute.go:270-307 | the sample batch fills the IPv4 list with its five entries in order, and leaves the IPv6 list empty |
| Demo.SampleBatchInterfaces | myRoute.go:238-268 | the sample batch registers eth0 under 0 and eth1 under 1 |
| Demo.SampleNetworks | myRoute.go:273-303 | which IPv4 addresses the sample's networks contain |
| Demo.DefaultOnlyMatch | myRoute.go:313-314 | 223.5.5.5 matches only the default route |
| Demo.LongestOfThree | myRoute.go:321-322 | 172.16.1.10 matches three routes, and the /26 route is the unique best |
| Demo.OutsideSlash26Match | myRoute.go:317-318 | 172.16.1.100 lies outside the /26 network, so the /24 route is the unique best |
| Demo.SecondNetMatch | myRoute.go:325-326 | 172.16.2.100 is best served by 172.16.2.0/24 |
| Demo.AnswerDefault | myRoute.go:313-315 | RouteWithSrc to 223.5.5.5 gives eth0 and its first address, whatever order the sort left ties in |
| Demo.AnswerLongest | myRoute.go:321-323 | RouteWithSrc to 172.16.1.10 gives eth1 over eth0 |
| Demo.AnswerSecondNet | myRoute.go:325-327 | RouteWithSrc to 172.16.2.100 gives eth1 and its first address |
| Demo.AnswerOutsideSlash26 | myRoute.go:317-319 | RouteWithSrc to 172.16.1.100 gives eth0 |
| Demo.AnswerNextHop | myRoute.go:347-349 | RouteWithNextHop to 172.16.2.100 gives eth1, its address 10.0.0.2 and the next hop 10.0.0.10 |
| Demo.AnswerDefaultNextHop | myRoute.go:335-337 | RouteWithNextHop to 223.5.5.5 gives eth0, its address 192.168.1.2 and the next hop 192.168.1.3 |
| Demo.SampleQueries | myRoute.go:234-349 | building the sample router and querying it gives those exact answers |
| Demo.EmptyRouterQueries | myRoute.go:87-91 | a new router answers a valid destination with the no-route error, and any other destination with the family error |
| Demo.UnreachableNextHop | myRoute.go:182-192 | when a next hop is outside every network of the interface, RouteWithNextHop still succeeds, with no address and with that next hop |

## Left out

- Parsing is left out: `ParseCIDR`, `ParseIP`, `CIDRMask` and the `SrcNet`/`DstNet`/`NextHopIP` methods. Routes carry their prefixes and next hop already parsed. A source or next hop that does not parse is absent.
- Routing.Router.AddRoutes: requires every route to have a destination. With an unparsable destination the source dereferences a nil network and panics.
- Routing.Router.AddRoutes: a nil `*Route`, or a route with a nil interface, panics in the source at lines 106 and 110. A `Route` here is a value that always has an interface, so these cases cannot be written.
- Routing.Router.AddRoutes: the `err != nil` branch of `Interface()` is left out, because that method always returns nil.
- Routing.Compile: `Route.Selector` always gives the first-address selector, so every compiled entry carries `First`. Selectors are a datatype, not function values.
- Bytes are left out: the byte layout of `net.IP` and `net.IPMask`, `To4`/`To16` and `Mask.Size`. An address is a family and a number. An IPv4-mapped IPv6 address is tagged IPv4, as `To4` would treat it. Any slice of the wrong length is an address too wide for its family.
- IPv6-family values in the IPv4-mapped range `::ffff:0:0/96` are accepted by `WellFormed` but stand for no Go slice, because `To4` turns such a slice into an IPv4 address. Statements that quantify over all valid addresses (`ContainsDefault` for `::/0`, `EmptyRouterQueries`) include these unused values.
- Netmasks are modelled as prefix lengths. A 16-byte mask on an IPv4 interface address counts only with its last four bytes, as `IPNet.Contains` does, so it is written as its length minus 96 (`CIDRMask(120, 128)` on 192.168.1.2 is /24). Non-contiguous masks, for which `Mask.Size` reports 0, are not modelled.
- IPv6 networks written in IPv4-mapped form, whose network address `ParseCIDR` returns as 16 bytes, are not modelled: such a prefix is tagged IPv4 here.
- RouteTable.Less: an entry without a destination counts as prefix length 0. Such entries never reach the lists, because AddRoutes requires a destination.
- RouteTable.Sort: `sort.Sort` is an unspecified algorithm with an unstable tie order. It is modelled as an insertion sort through `Swap`, and only a sorted permutation is promised.
- Routing.Router.Update: the sorting is modelled on values. The new list is a copy that was sorted in an array. Go slices that share one backing array are not modelled.
- `Router.String`, `main`'s printing, and the `Broadaddr`/`Gateway` fields it prints are left out.
- The getters `V4Route`, `V6Route`, `Interfaces`, `Interface.Addresses` and `routeSlice.Len` are left out: each only returns a field, and the model reads the fields directly.
- `main`'s queries to 172.16.3.100 and its other next-hop queries are not stated; the queries that are stated cover each kind of answer.
- Concurrency is left out: the source takes no locks and is not safe for concurrent use.
