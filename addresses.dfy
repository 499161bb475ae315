/** IP addresses and CIDR prefixes, at the level of abstraction the router
    needs: an address is a family and a number, a prefix is an address and a
    length, and a prefix contains an address when their leading bits agree. */
module Addresses {
  import opened Base

  datatype Family = IPv4 | IPv6

  /** Width of an address of the family, in bits (4 and 16 bytes). */
  function Width(f: Family): nat
  {
    match f
    case IPv4 => 32
    case IPv6 => 128
  }

  function Pow2(n: nat): (r: nat)
    ensures r >= 1
  {
    if n == 0 then 1 else 2 * Pow2(n - 1)
  }

  /** An address: its family and its big-endian value. An address of the IPv4
      family stands for every slice that `To4` accepts (4 bytes, or 16 bytes in
      the IPv4-mapped range); one of the IPv6 family for any other 16-byte
      slice. A value too wide for its family stands for a slice of any other
      length, the nil address included. */
  datatype IP = IP(family: Family, value: nat)

  predicate WellFormed(ip: IP)
  {
    ip.value < Pow2(Width(ip.family))
  }

  /** The `dst.To4() != nil` / `dst.To16() != nil` switch that picks the
      route list: the family of a well-formed address, none otherwise. */
  function Classify(ip: IP): Option<Family>
  {
    if WellFormed(ip) then Some(ip.family) else None
  }

  /** A parsed CIDR block: the network address and the prefix length. */
  datatype Prefix = Prefix(addr: IP, len: nat)

  /** The leading `len` bits of an address of width `w`. */
  function Leading(value: nat, w: nat, len: nat): int
    requires len <= w
  {
    value / Pow2(w - len)
  }

  /** `IPNet.Contains`: the address has the prefix's family (a 4-byte network
      never contains a 16-byte address and vice versa) and agrees with the
      network address on every bit the mask keeps. */
  predicate Contains(p: Prefix, ip: IP): (r: bool)
    ensures r ==> WellFormed(ip) && ip.family == p.addr.family
    ensures ip == p.addr && WellFormed(ip) && p.len <= Width(ip.family) ==> r
  {
    && WellFormed(p.addr)
    && WellFormed(ip)
    && p.addr.family == ip.family
    && p.len <= Width(ip.family)
    && Leading(p.addr.value, Width(ip.family), p.len) == Leading(ip.value, Width(ip.family), p.len)
  }

  /** A well-formed IPv4 address written as four octets. */
  function V4(a: nat, b: nat, c: nat, d: nat): (ip: IP)
    requires a < 256 && b < 256 && c < 256 && d < 256
    ensures WellFormed(ip) && ip.family == IPv4
  {
    Pow2Values();
    IP(IPv4, ((a * 256 + b) * 256 + c) * 256 + d)
  }

  lemma {:induction false} Pow2Add(m: nat, n: nat)
    ensures Pow2(m + n) == Pow2(m) * Pow2(n)
  {
    if n > 0 {
      Pow2Add(m, n - 1);
    }
  }

  lemma Pow2Byte()
    ensures Pow2(6) == 64 && Pow2(8) == 256
  {
    assert Pow2(4) == 16;
    Pow2Add(2, 4);
    Pow2Add(4, 4);
  }

  lemma Pow2Word()
    ensures Pow2(16) == 0x1_0000 && Pow2(24) == 0x100_0000 && Pow2(32) == 0x1_0000_0000
  {
    Pow2Byte();
    Pow2Add(8, 8);
    Pow2Add(16, 8);
    Pow2Add(16, 16);
  }

  lemma Pow2Wide()
    ensures Pow2(128) == 0x1_0000_0000_0000_0000_0000_0000_0000_0000
  {
    Pow2Word();
    Pow2Add(32, 32);
    Pow2Add(64, 64);
  }

  /** The powers of two the IPv4 examples and the two address widths use. */
  lemma Pow2Values()
    ensures Pow2(6) == 64 && Pow2(8) == 256 && Pow2(24) == 0x100_0000
    ensures Pow2(32) == 0x1_0000_0000
    ensures Pow2(128) == 0x1_0000_0000_0000_0000_0000_0000_0000_0000
  {
    Pow2Byte();
    Pow2Word();
    Pow2Wide();
  }

  lemma MulSign(t: int, d: int)
    requires d >= 1
    ensures t >= 1 ==> t * d >= d
    ensures t <= -1 ==> t * d <= -d
  {
    if t >= 1 {
      assert t * d == d + (t - 1) * d;
    } else if t <= -1 {
      assert t * d == -d + (t + 1) * d;
    }
  }

  /** Euclidean division is determined by any quotient/remainder pair. */
  lemma DivUnique(x: int, d: int, k: int, r: int)
    requires d >= 1 && 0 <= r < d && x == k * d + r
    ensures x / d == k
  {
    var q, m := x / d, x % d;
    assert x == q * d + m;
    assert (q - k) * d == r - m;
    MulSign(q - k, d);
  }

  lemma DivDiv(x: nat, p: nat, q: nat)
    requires p >= 1 && q >= 1
    ensures x / (p * q) == (x / p) / q
  {
    var a := x / p;
    var b := a / q;
    var r1, r2 := x % p, a % q;
    var r := r2 * p + r1;
    assert x == a * p + r1;
    assert a == b * q + r2;
    assert a * p == b * (p * q) + r2 * p by {
      assert (b * q + r2) * p == b * q * p + r2 * p;
      assert b * q * p == b * (p * q);
    }
    assert 0 <= r < p * q by {
      MulSign(q - r2, p);
      assert (q - r2) * p == q * p - r2 * p;
    }
    DivUnique(x, p * q, b, r);
  }

  /** The leading bits of a shorter prefix are determined by those of a
      longer one. */
  lemma LeadingShorter(value: nat, w: nat, m: nat, n: nat)
    requires m <= n <= w
    ensures Leading(value, w, m) == Leading(value, w, n) / Pow2(n - m)
  {
    Pow2Add(w - n, n - m);
    assert w - m == (w - n) + (n - m);
    DivDiv(value, Pow2(w - n), Pow2(n - m));
  }

  /** The leading bits of an IPv4 address written as octets, for the prefix
      lengths of whole and partial octets that common netmasks use. */
  lemma V4Leading(a: nat, b: nat, c: nat, d: nat)
    requires a < 256 && b < 256 && c < 256 && d < 256
    ensures Leading(V4(a, b, c, d).value, 32, 0) == 0
    ensures Leading(V4(a, b, c, d).value, 32, 8) == a
    ensures Leading(V4(a, b, c, d).value, 32, 24) == (a * 256 + b) * 256 + c
    ensures Leading(V4(a, b, c, d).value, 32, 26) == ((a * 256 + b) * 256 + c) * 4 + d / 64
  {
    var v := V4(a, b, c, d).value;
    Pow2Values();
    DivUnique(v, Pow2(32), 0, v);
    DivUnique(v, Pow2(24), a, (b * 256 + c) * 256 + d);
    DivUnique(v, Pow2(8), (a * 256 + b) * 256 + c, d);
    DivUnique(v, Pow2(6), ((a * 256 + b) * 256 + c) * 4 + d / 64, d % 64);
  }

  lemma OctetSplit(a: int, b: nat, x: int, y: nat)
    requires b < 256 && y < 256
    requires a * 256 + b == x * 256 + y
    ensures a == x && b == y
  {
    DivUnique(a * 256 + b, 256, a, b);
    DivUnique(x * 256 + y, 256, x, y);
  }

  /** A /24 IPv4 network contains exactly the addresses that share its first
      three octets. */
  lemma ContainsV4Slash24(a: nat, b: nat, c: nat, d: nat, x: nat, y: nat, z: nat, w: nat)
    requires a < 256 && b < 256 && c < 256 && d < 256
    requires x < 256 && y < 256 && z < 256 && w < 256
    ensures Contains(Prefix(V4(a, b, c, d), 24), V4(x, y, z, w)) <==> a == x && b == y && c == z
  {
    V4Leading(a, b, c, d);
    V4Leading(x, y, z, w);
    if (a * 256 + b) * 256 + c == (x * 256 + y) * 256 + z {
      OctetSplit(a * 256 + b, c, x * 256 + y, z);
      OctetSplit(a, b, x, y);
    }
  }

  /** A /26 IPv4 network contains exactly the addresses that share its first
      three octets and the top two bits of the fourth. */
  lemma ContainsV4Slash26(a: nat, b: nat, c: nat, d: nat, x: nat, y: nat, z: nat, w: nat)
    requires a < 256 && b < 256 && c < 256 && d < 256
    requires x < 256 && y < 256 && z < 256 && w < 256
    ensures Contains(Prefix(V4(a, b, c, d), 26), V4(x, y, z, w)) <==>
      a == x && b == y && c == z && d / 64 == w / 64
  {
    V4Leading(a, b, c, d);
    V4Leading(x, y, z, w);
    var m, n := (a * 256 + b) * 256 + c, (x * 256 + y) * 256 + z;
    if m * 4 + d / 64 == n * 4 + w / 64 {
      DivUnique(m * 4 + d / 64, 4, m, d / 64);
      DivUnique(n * 4 + w / 64, 4, n, w / 64);
      OctetSplit(a * 256 + b, c, x * 256 + y, z);
      OctetSplit(a, b, x, y);
    }
  }

  /** A /8 IPv4 network contains exactly the addresses that share its first
      octet. */
  lemma ContainsV4Slash8(a: nat, b: nat, c: nat, d: nat, x: nat, y: nat, z: nat, w: nat)
    requires a < 256 && b < 256 && c < 256 && d < 256
    requires x < 256 && y < 256 && z < 256 && w < 256
    ensures Contains(Prefix(V4(a, b, c, d), 8), V4(x, y, z, w)) <==> a == x
  {
    V4Leading(a, b, c, d);
    V4Leading(x, y, z, w);
  }

  /** A network that contains an address still contains it when its prefix is
      shortened: every prefix of a matching prefix matches. */
  lemma ContainsShorter(p: Prefix, ip: IP, m: nat)
    requires Contains(p, ip)
    requires m <= p.len
    ensures Contains(Prefix(p.addr, m), ip)
  {
    var w := Width(ip.family);
    LeadingShorter(p.addr.value, w, m, p.len);
    LeadingShorter(ip.value, w, m, p.len);
  }

  /** A zero-length prefix (`0.0.0.0/0`, `::/0`) contains exactly the
      well-formed addresses of its family. */
  lemma ContainsDefault(p: Prefix, ip: IP)
    requires p.len == 0 && WellFormed(p.addr)
    ensures Contains(p, ip) <==> WellFormed(ip) && ip.family == p.addr.family
  {
    if WellFormed(ip) && ip.family == p.addr.family {
      var w := Width(ip.family);
      DivUnique(p.addr.value, Pow2(w), 0, p.addr.value);
      DivUnique(ip.value, Pow2(w), 0, ip.value);
    }
  }
}
