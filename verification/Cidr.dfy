/** Network membership by mask, for both address families, and the dotted-prefix form. */
module Cidr {
  import opened Bytes

  // ----- machine words of `w` bits, as numbers

  function Pow2(n: nat): (p: nat)
    ensures p > 0
  {
    if n == 0 then 1 else 2 * Pow2(n - 1)
  }

  /** Bitwise and of two `w`-bit words. */
  function And(x: nat, y: nat, w: nat): (r: nat) {
    if w == 0 then 0 else 2 * And(x / 2, y / 2, w - 1) + (if x % 2 == 1 && y % 2 == 1 then 1 else 0)
  }

  /** `MAX.checked_shl(shift).unwrap_or(0)`: a shift by the whole width does not happen. */
  function ShiftedOnes(w: nat, shift: nat): (mask: nat) {
    if shift >= w then 0 else (Pow2(w) - 1) * Pow2(shift) % Pow2(w)
  }

  predicate SameNetwork(network: nat, address: nat, prefix: nat, w: nat)
    requires prefix <= w
  {
    var mask := ShiftedOnes(w, w - prefix);
    And(network, mask, w) == And(address, mask, w)
  }

  // ----- the mask cuts off the low bits

  lemma {:induction false} Pow2Add(a: nat, b: nat)
    ensures Pow2(a + b) == Pow2(a) * Pow2(b)
  {
    if a > 0 {
      Pow2Add(a - 1, b);
      Assoc(2, Pow2(a - 1), Pow2(b));
    }
  }

  lemma Assoc(a: int, b: int, c: int)
    ensures a * b * c == a * (b * c)
  {
  }

  lemma {:induction false} Pow2Mono(a: nat, b: nat)
    requires a <= b
    ensures Pow2(a) <= Pow2(b)
  {
    if a < b {
      Pow2Mono(a, b - 1);
    }
  }

  lemma SmallMultiple(m: int, d: nat)
    requires -(d as int) < m * d < d
    ensures m == 0
  {
  }

  lemma ModUnique(q: int, d: nat, r: nat)
    requires 0 <= r < d
    ensures (q * d + r) % d == r && (q * d + r) / d == q
  {
    var n := q * d + r;
    var delta := n / d - q;
    assert delta * d == r - n % d by {
      assert n == (n / d) * d + n % d;
      assert delta * d == (n / d) * d - q * d;
    }
    SmallMultiple(delta, d);
  }

  lemma Expand(p: int, s: int)
    ensures (p - 1) * s == (s - 1) * p + (p - s)
  {
  }

  lemma OnesShifted(w: nat, shift: nat)
    requires shift <= w
    ensures ShiftedOnes(w, shift) == Pow2(w) - Pow2(shift)
  {
    if shift < w {
      Pow2Mono(shift, w);
      Expand(Pow2(w), Pow2(shift));
      ModUnique(Pow2(shift) - 1, Pow2(w), Pow2(w) - Pow2(shift));
    }
  }

  lemma {:induction false} AndOnes(x: nat, w: nat)
    requires x < Pow2(w)
    ensures And(x, Pow2(w) - 1, w) == x
  {
    if w > 0 {
      AndOnes(x / 2, w - 1);
      assert (Pow2(w) - 1) / 2 == Pow2(w - 1) - 1 && (Pow2(w) - 1) % 2 == 1;
    }
  }

  /** Dividing by two and then by `2^n` is dividing by `2^(n+1)`. */
  lemma HalveThenDivide(x: nat, n: nat)
    ensures x / Pow2(n + 1) == x / 2 / Pow2(n)
  {
    var p := Pow2(n);
    var q := x / 2 / p;
    var r := x / 2 % p;
    assert x / 2 == q * p + r;
    assert x == q * (2 * p) + (2 * r + x % 2) by {
      assert x == 2 * (x / 2) + x % 2;
      assert 2 * (q * p) == q * (2 * p);
    }
    ModUnique(q, 2 * p, 2 * r + x % 2);
  }

  lemma AndEven(x: nat, m: nat, w: nat)
    requires w > 0
    ensures And(x, 2 * m, w) == 2 * And(x / 2, m, w - 1)
  {
  }

  /** `x` with its `shift` low bits cleared. */
  function Cleared(x: nat, shift: nat): nat {
    if shift == 0 then x else 2 * Cleared(x / 2, shift - 1)
  }

  /** Masking clears the low bits and nothing else. */
  lemma {:induction false} AndMask(x: nat, shift: nat, w: nat)
    requires shift <= w && x < Pow2(w)
    ensures Pow2(shift) <= Pow2(w)
    ensures And(x, Pow2(w) - Pow2(shift), w) == Cleared(x, shift)
  {
    Pow2Mono(shift, w);
    if shift == 0 {
      AndOnes(x, w);
    } else {
      AndMask(x / 2, shift - 1, w - 1);
      AndEven(x, Pow2(w - 1) - Pow2(shift - 1), w);
    }
  }

  /** What the cleared number remembers is the quotient by `2^shift`. */
  lemma {:induction false} ClearedIsQuotient(x: nat, y: nat, shift: nat)
    ensures Cleared(x, shift) == Cleared(y, shift) <==> x / Pow2(shift) == y / Pow2(shift)
    decreases shift
  {
    if shift == 0 {
      assert x / 1 == x && y / 1 == y;
    } else {
      ClearedIsQuotient(x / 2, y / 2, shift - 1);
      HalveThenDivide(x, shift - 1);
      HalveThenDivide(y, shift - 1);
    }
  }

  /** An address is in a network exactly when the two agree above the host bits, whatever the prefix. */
  lemma SameNetworkIsSameQuotient(network: nat, address: nat, prefix: nat, w: nat)
    requires prefix <= w && network < Pow2(w) && address < Pow2(w)
    ensures SameNetwork(network, address, prefix, w) <==> network / Pow2(w - prefix) == address / Pow2(w - prefix)
  {
    var shift := w - prefix;
    OnesShifted(w, shift);
    AndMask(network, shift, w);
    AndMask(address, shift, w);
    ClearedIsQuotient(network, address, shift);
  }

  // ----- addresses

  datatype Ip = V4(bits: nat) | V6(bits: nat)

  predicate ProperIp(ip: Ip) {
    ip.bits < if ip.V4? then Pow2(32) else Pow2(128)
  }

  /** An IPv4-mapped IPv6 address is the IPv4 address it carries. */
  function Canonical(ip: Ip): Ip {
    if ip.V6? && ip.bits / 0x1_0000_0000 == 0xFFFF then V4(ip.bits % 0x1_0000_0000) else ip
  }

  datatype Network = Network(network: Ip, prefix: nat)

  function Width(ip: Ip): nat {
    if ip.V4? then 32 else 128
  }

  predicate ProperNetwork(n: Network) {
    ProperIp(n.network) && n.prefix <= Width(n.network)
  }

  predicate Contains(n: Network, address: Ip)
    requires ProperNetwork(n)
  {
    var a := Canonical(address);
    n.network.V4? == a.V4? && SameNetwork(n.network.bits, a.bits, n.prefix, Width(a))
  }

  lemma Pow2Of32()
    ensures Pow2(32) == 0x1_0000_0000
  {
    assert Pow2(8) == 256;
    Pow2Add(8, 8);
    Pow2Add(16, 16);
  }

  lemma CanonicalIsProper(ip: Ip)
    requires ProperIp(ip)
    ensures ProperIp(Canonical(ip))
  {
    Pow2Of32();
  }

  /** Membership, in numbers: same family after unmapping, same quotient. */
  lemma ContainsIffQuotient(n: Network, address: Ip)
    requires ProperNetwork(n) && ProperIp(address)
    ensures var a := Canonical(address);
            Contains(n, address) <==>
            && n.network.V4? == a.V4?
            && var host := Pow2(Width(n.network) - n.prefix);
            n.network.bits / host == a.bits / host
  {
    CanonicalIsProper(address);
    var a := Canonical(address);
    if n.network.V4? == a.V4? {
      SameNetworkIsSameQuotient(n.network.bits, a.bits, n.prefix, Width(a));
    }
  }

  /**
   * Membership with the unmapping written out: an IPv4 network holds an IPv4 address, or `::ffff:a.b.c.d`
   * as the `a.b.c.d` it carries, and no other IPv6 address; an IPv6 network holds no IPv4 address in
   * either spelling.
   */
  lemma MembershipInNumbers(n: Network, v4: nat, v6: nat)
    requires ProperNetwork(n) && v4 < 0x1_0000_0000 && v6 < Pow2(128)
    ensures var host := Pow2((if n.network.V4? then 32 else 128) - n.prefix);
            && (Contains(n, V4(v4)) <==> n.network.V4? && n.network.bits / host == v4 / host)
            && (0xFFFF * 0x1_0000_0000 + v4 < Pow2(128))
            && (Contains(n, V6(0xFFFF * 0x1_0000_0000 + v4)) <==> Contains(n, V4(v4)))
            && (v6 / 0x1_0000_0000 != 0xFFFF ==>
                  (Contains(n, V6(v6)) <==> n.network.V6? && n.network.bits / host == v6 / host))
  {
    Pow2Of32();
    MappedIsProper(v4);
    ContainsIffQuotient(n, V4(v4));
    ContainsIffQuotient(n, V6(v6));
    Unmapped(v4);
  }

  lemma MappedIsProper(v4: nat)
    requires v4 < 0x1_0000_0000
    ensures 0xFFFF * 0x1_0000_0000 + v4 < Pow2(128)
  {
    Pow2Of32();
    Pow2Add(32, 32);
    Pow2Add(64, 64);
  }

  lemma Unmapped(v4: nat)
    requires v4 < 0x1_0000_0000
    ensures Canonical(V6(0xFFFF * 0x1_0000_0000 + v4)) == V4(v4)
  {
  }

  lemma {:induction false} DivideFurther(x: nat, n: nat, k: nat)
    ensures x / Pow2(n + k) == x / Pow2(n) / Pow2(k)
    decreases n
  {
    if n == 0 {
      assert x / 1 == x;
    } else {
      HalveThenDivide(x, n - 1 + k);
      DivideFurther(x / 2, n - 1, k);
      HalveThenDivide(x, n - 1);
    }
  }

  /** Two networks are nested or disjoint: sharing one address, the wider holds all of the narrower. */
  lemma NestedOrDisjoint(wide: Network, narrow: Network, shared: Ip, other: Ip)
    requires ProperNetwork(wide) && ProperNetwork(narrow) && ProperIp(shared) && ProperIp(other)
    requires wide.network.V4? == narrow.network.V4? && wide.prefix <= narrow.prefix
    requires Contains(wide, shared) && Contains(narrow, shared)
    requires Contains(narrow, other)
    ensures Contains(wide, other)
  {
    ContainsIffQuotient(wide, shared);
    ContainsIffQuotient(narrow, shared);
    ContainsIffQuotient(narrow, other);
    ContainsIffQuotient(wide, other);
    var w := Width(wide.network);
    var n, k := w - narrow.prefix, narrow.prefix - wide.prefix;
    DivideFurther(Canonical(shared).bits, n, k);
    DivideFurther(Canonical(other).bits, n, k);
  }

  // ----- the dotted prefix

  function FromOctets(o: seq<Byte>): nat
    requires |o| == 4
  {
    (o[0] as int) * 0x100_0000 + (o[1] as int) * 0x1_0000 + (o[2] as int) * 0x100 + o[3]
  }

  /** `"10."`, `"10.128."`, `"10.128.3."`: one to three whole octets, the rest zero. */
  method DottedPrefix(octets: seq<Byte>) returns (r: Option<Network>)
    ensures r.Some? <==> 1 <= |octets| <= 3
    ensures r.Some? ==>
              && r.value.prefix == 8 * |octets|
              && r.value.network == V4(FromOctets(octets + seq(4 - |octets|, _ => 0)))
  {
    if octets == [] || |octets| > 3 {
      return None;
    }
    var bytes := new Byte[4](_ => 0);
    for i := 0 to |octets|
      invariant forall j | 0 <= j < 4 :: bytes[j] == if j < i then octets[j] else 0
    {
      bytes[i] := octets[i];
    }
    assert bytes[..] == octets + seq(4 - |octets|, _ => 0);
    return Some(Network(V4(FromOctets(bytes[..])), 8 * |octets|));
  }

  lemma HostBits(k: nat)
    requires 1 <= k <= 3
    ensures Pow2(32 - 8 * k) == if k == 1 then 0x100_0000 else if k == 2 then 0x1_0000 else 0x100
  {
    assert Pow2(8) == 256;
    Pow2Add(8, 8);
    Pow2Add(16, 8);
  }

  lemma Quotients(o: seq<Byte>)
    requires |o| == 4
    ensures FromOctets(o) < 0x1_0000_0000
    ensures FromOctets(o) / 0x100_0000 == o[0]
    ensures FromOctets(o) / 0x1_0000 == (o[0] as int) * 256 + o[1]
    ensures FromOctets(o) / 0x100 == (o[0] as int) * 65536 + (o[1] as int) * 256 + o[2]
  {
  }

  /** Equal quotients by the host bits are equal leading octets. */
  lemma LeadingOctets(a: seq<Byte>, b: seq<Byte>, k: nat)
    requires |a| == |b| == 4 && 1 <= k <= 3
    ensures FromOctets(a) / Pow2(32 - 8 * k) == FromOctets(b) / Pow2(32 - 8 * k) <==> a[..k] == b[..k]
  {
    HostBits(k);
    Quotients(a);
    Quotients(b);
    assert a[..k] == b[..k] <==> a[0] == b[0] && (k > 1 ==> a[1] == b[1]) && (k > 2 ==> a[2] == b[2]) by {
      assert forall i | 0 <= i < k :: a[..k][i] == a[i] && b[..k][i] == b[i];
    }
  }

  /** The dotted form holds exactly the addresses that start with its octets. */
  lemma DottedPrefixMatchesOctets(octets: seq<Byte>, address: seq<Byte>)
    requires 1 <= |octets| <= 3 && |address| == 4
    ensures var n := Network(V4(FromOctets(octets + seq(4 - |octets|, _ => 0))), 8 * |octets|);
            && ProperNetwork(n)
            && (Contains(n, V4(FromOctets(address))) <==> octets <= address)
  {
    var k := |octets|;
    var full := octets + seq(4 - k, _ => 0);
    var n := Network(V4(FromOctets(full)), 8 * k);
    Pow2Of32();
    Quotients(full);
    Quotients(address);
    ContainsIffQuotient(n, V4(FromOctets(address)));
    LeadingOctets(full, address, k);
    assert full[..k] == octets;
  }
}
