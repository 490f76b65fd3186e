/**
  Internet addresses, networks and the texts that denote them, as Python's
  `ipaddress` reads them with `strict=False`.

  A text is represented by what it spells, before any check: a bare address, an address
  followed by a prefix length, or something else. Two texts that spell different bytes stay
  different values ("10.0.0.5/8" is not "10.0.0.0/8"), because the Redis sets hold texts.
 */
module Cidr {
  import opened Wrappers

  datatype Family = V4 | V6

  datatype Address = Address(family: Family, value: nat)

  datatype Text =
    | Host(address: Address)
    | Prefixed(address: Address, length: nat)
    | Malformed(text: string)

  /** A network after masking: `base` has no host bits. */
  datatype Network = Network(family: Family, base: nat, length: nat)

  function Width(f: Family): nat {
    match f
    case V4 => 32
    case V6 => 128
  }

  function Pow2(n: nat): (p: nat)
    ensures p > 0
  {
    if n == 0 then 1 else 2 * Pow2(n - 1)
  }

  predicate IsAddress(a: Address) {
    a.value < Pow2(Width(a.family))
  }

  /** `x & netmask` when the mask clears the lowest `hostBits` bits. */
  function Mask(x: nat, hostBits: nat): nat {
    Scale(Quotient(x, Pow2(hostBits)), Pow2(hostBits))
  }

  function Quotient(x: nat, d: nat): (q: nat)
    requires d > 0
    ensures q == x / d
  {
    x / d
  }

  function Scale(k: nat, unit: nat): (product: nat)
    ensures product == k * unit
  {
    k * unit
  }

  /** `ipaddress.ip_address`; None is the ValueError. */
  function ParseAddress(t: Text): Option<Address> {
    if t.Host? && IsAddress(t.address) then Some(t.address) else None
  }

  /** `ipaddress.ip_network(t, strict=False)`; None is the ValueError. */
  function ParseNetwork(t: Text): Option<Network> {
    match t
    case Host(a) =>
      if IsAddress(a) then Some(Network(a.family, a.value, Width(a.family))) else None
    case Prefixed(a, n) =>
      if IsAddress(a) && n <= Width(a.family)
      then Some(Network(a.family, Mask(a.value, Width(a.family) - n), n))
      else None
    case Malformed(_) => None
  }

  /** `address in network`. */
  predicate Contains(n: Network, a: Address)
    requires n.length <= Width(n.family)
  {
    n.family == a.family && Mask(a.value, Width(n.family) - n.length) == n.base
  }

  /** The text parses as a network and that network contains the address. */
  predicate Covers(t: Text, a: Address) {
    match ParseNetwork(t)
    case None => false
    case Some(n) => Contains(n, a)
  }

  /** The text `create_ip_block` stores: an address for a one-address network, else the masked prefix. */
  function Canonical(n: Network): Text {
    if n.length == Width(n.family) then Host(Address(n.family, n.base))
    else Prefixed(Address(n.family, n.base), n.length)
  }

  // ---- The meaning of a prefix, stated without masks -----------------------------------------

  /** Bit `i` of `x`, bit 0 lowest. */
  function Bit(x: nat, i: nat): nat {
    (x / Pow2(i)) % 2
  }

  /** Section 3.1 of RFC 4632: the leading bits, from `low` up to the address width, are the same. */
  ghost predicate LeadingBitsAgree(x: nat, y: nat, low: nat, width: nat) {
    forall i :: low <= i < width ==> Bit(x, i) == Bit(y, i)
  }

  lemma MultipleAtLeast(k: int, d: nat)
    requires k >= 1
    ensures k * d >= d
  {
  }

  /** Euclidean division has one answer. */
  lemma DivUnique(x: nat, d: nat, q: int, r: nat)
    requires d > 0 && x == q * d + r && r < d
    ensures x / d == q
  {
    var q', r' := x / d, x % d;
    assert x == q' * d + r' && 0 <= r' < d;
    assert (q' - q) * d == r - r' && (q - q') * d == r' - r;
    if q' > q {
      MultipleAtLeast(q' - q, d);
    } else if q' < q {
      MultipleAtLeast(q - q', d);
    }
  }

  lemma HalveQuotient(x: nat, h: nat)
    ensures x / Pow2(h + 1) == (x / Pow2(h)) / 2
  {
    var p := Pow2(h);
    var q, r := x / p, x % p;
    var half, odd := q / 2, q % 2;
    assert x == q * p + r;
    assert q * p == half * (2 * p) + odd * p;
    assert odd * p + r < 2 * p;
    DivUnique(x, 2 * p, half, odd * p + r);
  }

  lemma {:induction false} QuotientIffLeadingBits(x: nat, y: nat, low: nat, width: nat)
    requires low <= width && x < Pow2(width) && y < Pow2(width)
    ensures x / Pow2(low) == y / Pow2(low) <==> LeadingBitsAgree(x, y, low, width)
    decreases width - low
  {
    if low == width {
      DivUnique(x, Pow2(width), 0, x);
      DivUnique(y, Pow2(width), 0, y);
    } else {
      HalveQuotient(x, low);
      HalveQuotient(y, low);
      QuotientIffLeadingBits(x, y, low + 1, width);
      assert LeadingBitsAgree(x, y, low, width) <==>
             Bit(x, low) == Bit(y, low) && LeadingBitsAgree(x, y, low + 1, width);
    }
  }

  lemma MaskIffQuotient(x: nat, y: nat, h: nat)
    ensures Mask(x, h) == Mask(y, h) <==> x / Pow2(h) == y / Pow2(h)
  {
    var p := Pow2(h);
    assert x == (x / p) * p + x % p && y == (y / p) * p + y % p;
    if Mask(x, h) == Mask(y, h) {
      DivUnique(Mask(x, h), p, x / p, 0);
      DivUnique(Mask(y, h), p, y / p, 0);
    }
  }

  lemma MaskIffRange(x: nat, base: nat, h: nat)
    ensures Mask(x, h) == Mask(base, h) <==> Mask(base, h) <= x < Mask(base, h) + Pow2(h)
  {
    var p, m := Pow2(h), Mask(base, h);
    assert base == (base / p) * p + base % p;
    if m <= x < m + p {
      DivUnique(x, p, base / p, x - m);
    }
  }

  /**
    Membership in a prefix, three ways: the code's masks, the standard's leading bits, and the
    range from network address to broadcast address. Host bits of the stored text never matter.
   */
  lemma CoversMeansLeadingBits(t: Text, a: Address)
    requires t.Prefixed? && IsAddress(a) && IsAddress(t.address) && t.length <= Width(t.address.family)
    ensures var w := Width(t.address.family);
            var low := Mask(t.address.value, w - t.length);
            && (Covers(t, a) <==>
                a.family == t.address.family && LeadingBitsAgree(a.value, t.address.value, w - t.length, w))
            && (Covers(t, a) <==>
                a.family == t.address.family && low <= a.value < low + Pow2(w - t.length))
  {
    var w := Width(t.address.family);
    if a.family == t.address.family {
      MaskIffQuotient(a.value, t.address.value, w - t.length);
      QuotientIffLeadingBits(a.value, t.address.value, w - t.length, w);
      MaskIffRange(a.value, t.address.value, w - t.length);
    }
  }

  /** A bare address covers itself and nothing else. */
  lemma HostCoversOnlyItself(b: Address, a: Address)
    requires IsAddress(b)
    ensures Covers(Host(b), a) <==> a == b
  {
    assert Pow2(0) == 1;
  }

  /** A shorter prefix of the same address covers at least as much. */
  lemma ShorterPrefixCoversMore(b: Address, m: nat, n: nat, a: Address)
    requires IsAddress(a) && m <= n && Covers(Prefixed(b, n), a)
    ensures Covers(Prefixed(b, m), a)
  {
    CoversMeansLeadingBits(Prefixed(b, n), a);
    CoversMeansLeadingBits(Prefixed(b, m), a);
  }

  lemma MaskAtMost(x: nat, h: nat)
    ensures Mask(x, h) <= x
  {
    assert x == (x / Pow2(h)) * Pow2(h) + x % Pow2(h);
  }

  lemma MaskIsIdempotent(x: nat, h: nat)
    ensures Mask(Mask(x, h), h) == Mask(x, h)
  {
    var p := Pow2(h);
    assert x == (x / p) * p + x % p;
    DivUnique(Mask(x, h), p, x / p, 0);
  }

  /** The canonical text denotes the same network, so storing it changes no verdict. */
  lemma CanonicalKeepsCoverage(t: Text, a: Address)
    requires ParseNetwork(t).Some?
    ensures var n := ParseNetwork(t).value;
            && ParseNetwork(Canonical(n)) == Some(n)
            && (Covers(Canonical(n), a) <==> Covers(t, a))
            && (Canonical(n).Host? <==> n.length == Width(n.family))
  {
    var n := ParseNetwork(t).value;
    match t
    case Host(_) =>
    case Prefixed(b, k) =>
      var h := Width(n.family) - n.length;
      MaskIsIdempotent(b.value, h);
      MaskAtMost(b.value, h);
      if h == 0 {
        assert Pow2(0) == 1;
      }
  }
}
