/** Network interfaces, their addresses, and the two strategies that pick the
    local address a route leaves from. */
module Selectors {
  import opened Base
  import opened Addresses

  /** One address of an interface: its IP and its netmask, the mask written as
      its prefix length. */
  datatype InterfaceAddress = InterfaceAddress(ip: IP, maskLen: nat)

  /** The network `IPNet{IP: a.IP, Mask: a.Netmask}` that FitAddressSelector
      builds for a candidate address. */
  function Network(a: InterfaceAddress): (r: Prefix)
    ensures WellFormed(a.ip) && a.maskLen <= Width(a.ip.family) ==> Contains(r, a.ip)
    ensures forall x :: Contains(r, x) ==> x.family == a.ip.family
  {
    Prefix(a.ip, a.maskLen)
  }

  /** A network attachment: an id, a name, and its addresses in their
      preference order. */
  datatype Interface = Interface(id: int64, name: string, addrs: seq<InterfaceAddress>)

  /** The strategies a route can carry, in place of a function value. */
  datatype Selector = First | Fit

  /** The address `a` can reach `target` directly: its network contains it. */
  predicate Fits(a: InterfaceAddress, target: IP)
  {
    Contains(Network(a), target)
  }

  /** FirstAddressSelector: the first candidate, none for an empty list. */
  function FirstAddress(addrs: seq<InterfaceAddress>, src: IP, dst: IP): (r: Option<InterfaceAddress>)
    ensures r.None? <==> |addrs| == 0
    ensures r.Some? ==> r.value == addrs[0]
  {
    if |addrs| > 0 then Some(addrs[0]) else None
  }

  /** `IsFirstFit(addrs, i, target)`: index `i` is the lowest whose network
      contains `target`. */
  ghost predicate IsFirstFit(addrs: seq<InterfaceAddress>, i: int, target: IP)
  {
    && 0 <= i < |addrs|
    && Fits(addrs[i], target)
    && forall k :: 0 <= k < i ==> !Fits(addrs[k], target)
  }

  ghost predicate NoneFits(addrs: seq<InterfaceAddress>, target: IP)
  {
    forall k :: 0 <= k < |addrs| ==> !Fits(addrs[k], target)
  }

  /** The scan of FitAddressSelector from index `i` on. */
  function FitFrom(addrs: seq<InterfaceAddress>, target: IP, i: nat): (r: Option<nat>)
    requires i <= |addrs|
    requires forall k :: 0 <= k < i ==> !Fits(addrs[k], target)
    decreases |addrs| - i
    ensures r.Some? ==> IsFirstFit(addrs, r.value, target)
    ensures r.None? <==> NoneFits(addrs, target)
  {
    if i == |addrs| then None
    else if Fits(addrs[i], target) then Some(i)
    else FitFrom(addrs, target, i + 1)
  }

  /** FitAddressSelector: the first candidate whose network contains the
      target (the selector's `dst` argument), none when no candidate's does. */
  function FitAddress(addrs: seq<InterfaceAddress>, src: IP, dst: IP): (r: Option<InterfaceAddress>)
    ensures r.Some? ==> r.value in addrs && Fits(r.value, dst)
    ensures r.Some? ==> exists i :: IsFirstFit(addrs, i, dst) && addrs[i] == r.value
    ensures r.None? <==> NoneFits(addrs, dst)
  {
    match FitFrom(addrs, dst, 0)
    case Some(i) => Some(addrs[i])
    case None => None
  }

  /** Calling the strategy a selector names. */
  function Select(s: Selector, addrs: seq<InterfaceAddress>, src: IP, dst: IP): (r: Option<InterfaceAddress>)
    ensures r.Some? ==> r.value in addrs
    ensures s == First ==> (r.None? <==> |addrs| == 0)
    ensures s == Fit ==> (r.None? <==> NoneFits(addrs, dst)) && (r.Some? ==> Fits(r.value, dst))
  {
    match s
    case First => FirstAddress(addrs, src, dst)
    case Fit => FitAddress(addrs, src, dst)
  }

  /** Both strategies pick one of the candidates, and neither looks at the
      source address; FirstAddress does not look at the target either. */
  lemma SelectorsIgnoreSource(s: Selector, addrs: seq<InterfaceAddress>, src: IP, src': IP, dst: IP, dst': IP)
    ensures Select(s, addrs, src, dst) == Select(s, addrs, src', dst)
    ensures FirstAddress(addrs, src, dst) == FirstAddress(addrs, src', dst')
    ensures Select(s, addrs, src, dst).Some? ==> Select(s, addrs, src, dst).value in addrs
  {
  }

  /** When the first candidate's network contains the target the two
      strategies pick the same address. */
  lemma FitAgreesWithFirstWhenFirstFits(addrs: seq<InterfaceAddress>, src: IP, dst: IP)
    requires |addrs| > 0 && Fits(addrs[0], dst)
    ensures FitAddress(addrs, src, dst) == FirstAddress(addrs, src, dst)
  {
    assert IsFirstFit(addrs, 0, dst);
  }
}
