/** Addresses and prefixes of both families, as the net/netip package computes with them:
    an address is a number below 2^W, a prefix an address with a length (RFC 4632, section 3.1). */
module Cidrs {
  import opened Powers

  datatype Family = V4 | V6

  function Width(f: Family): nat {
    if f.V4? then 32 else 128
  }

  datatype RawAddr = Ip(family: Family, value: nat)

  type Addr = a: RawAddr | a.value < Pow2(Width(a.family)) witness Ip(V4, 0)

  datatype RawCidr = Net(family: Family, addr: nat, bits: nat)

  /** A prefix may carry host bits; see Canonical. */
  type Cidr = c: RawCidr | c.bits <= Width(c.family) && c.addr < Pow2(Width(c.family)) witness Net(V4, 0, 0)

  function HostBits(c: Cidr): nat {
    Width(c.family) - c.bits
  }

  function Size(c: Cidr): nat {
    Pow2(HostBits(c))
  }

  function First(c: Cidr): nat {
    ClearLow(c.addr, HostBits(c))
  }

  function Last(c: Cidr): nat {
    First(c) + Size(c) - 1
  }

  function Masked(c: Cidr): (m: Cidr) {
    c.(addr := First(c))
  }

  /** No host bits set. */
  predicate Canonical(c: Cidr) {
    c.addr == First(c)
  }

  predicate Contains(c: Cidr, a: Addr) {
    c.family == a.family && First(c) <= a.value <= Last(c)
  }

  predicate Within(inner: Cidr, outer: Cidr) {
    inner.family == outer.family && First(outer) <= First(inner) && Last(inner) <= Last(outer)
  }

  function Min(a: nat, b: nat): nat {
    if a < b then a else b
  }

  /** netip's test: cut both addresses to the shorter length and compare. */
  predicate Overlaps(a: Cidr, b: Cidr) {
    && a.family == b.family
    && var cut := Width(a.family) - Min(a.bits, b.bits);
    ClearLow(a.addr, cut) == ClearLow(b.addr, cut)
  }

  /** IPv4 has 2^32 addresses and IPv6 2^128. */
  lemma AddressSpaces(f: Family)
    ensures First(Net(f, 0, 0)) == 0
    ensures f.V4? ==> Size(Net(f, 0, 0)) == 0x1_0000_0000
    ensures f.V6? ==> Size(Net(f, 0, 0)) == 0x1_0000_0000_0000_0000_0000_0000_0000_0000
  {
    Pow2Values();
    Pow2Add(64, 64);
  }

  /** Every prefix ends inside its family's address space. */
  lemma LastInFamily(c: Cidr)
    ensures Last(c) < Pow2(Width(c.family))
  {
    PowerAligned(Width(c.family), HostBits(c));
    ClearLowAligned(c.addr, HostBits(c));
    AlignedApart(First(c), Pow2(Width(c.family)), HostBits(c));
  }

  lemma MaskedIsCanonical(c: Cidr)
    ensures Canonical(Masked(c)) && First(Masked(c)) == First(c) && Size(Masked(c)) == Size(c)
  {
    ClearLowAligned(c.addr, HostBits(c));
  }

  function FirstAddr(c: Cidr): (a: Addr)
    ensures a.family == c.family && a.value == First(c)
  {
    Ip(c.family, First(c))
  }

  function LastAddr(c: Cidr): (a: Addr)
    ensures a.family == c.family && a.value == Last(c)
  {
    LastInFamily(c);
    Ip(c.family, Last(c))
  }

  /** The prefix holding one address only. */
  function Host(a: Addr): (c: Cidr)
  {
    Net(a.family, a.value, Width(a.family))
  }

  lemma HostIsAddress(a: Addr)
    ensures First(Host(a)) == a.value == Last(Host(a)) && Canonical(Host(a))
  {
  }

  lemma NestedOrApart(a: Cidr, b: Cidr)
    requires a.family == b.family && a.bits <= b.bits
    ensures Overlaps(a, b) <==> First(a) <= Last(b) && First(b) <= Last(a)
    ensures Overlaps(a, b) <==> Within(b, a)
  {
    var n, m := HostBits(a), HostBits(b);
    Pow2Mono(m, n);
    ClearLowAligned(a.addr, n);
    ClearLowAligned(b.addr, m);
    AlignedFiner(First(a), m, n);
    PowerAligned(n, m);
    AlignedSum(First(a), Pow2(n), m);
    // b's start is inside a, or a whole block of b away from a's ends
    if First(b) < First(a) {
      AlignedApart(First(b), First(a), m);
    }
    if First(b) < First(a) + Pow2(n) {
      AlignedApart(First(b), First(a) + Pow2(n), m);
    }
    if First(a) <= b.addr < First(a) + Pow2(n) {
      ClearLowUnique(b.addr, n, First(a));
    }
  }

  /** Two prefixes overlap exactly when their ranges meet, and then one lies inside the other. */
  lemma Geometry(a: Cidr, b: Cidr)
    ensures Overlaps(a, b) == Overlaps(b, a)
    ensures Overlaps(a, b) <==> a.family == b.family && First(a) <= Last(b) && First(b) <= Last(a)
    ensures Overlaps(a, b) && a.bits <= b.bits ==> Within(b, a)
    ensures Within(b, a) ==> a.bits <= b.bits && Overlaps(a, b)
    ensures Within(b, a) && a.bits == b.bits ==> Masked(a) == Masked(b)
  {
    if a.family == b.family {
      if a.bits <= b.bits {
        NestedOrApart(a, b);
      } else {
        NestedOrApart(b, a);
        Pow2Mono(HostBits(a), HostBits(b));
      }
    }
  }

  /** netip's overlap test is exact: it answers yes just when some address lies in both. */
  lemma OverlapsIffShared(a: Cidr, b: Cidr)
    ensures Overlaps(a, b) <==> exists x: Addr :: Contains(a, x) && Contains(b, x)
  {
    Geometry(a, b);
    if Overlaps(a, b) {
      var x := SharedAddress(a, b);
    } else {
      forall x: Addr | Contains(a, x) && Contains(b, x)
        ensures false
      {
      }
    }
  }

  lemma SharedAddress(a: Cidr, b: Cidr) returns (x: Addr)
    requires Overlaps(a, b)
    ensures Contains(a, x) && Contains(b, x)
  {
    Geometry(a, b);
    Geometry(b, a);
    x := Ip(a.family, if a.bits <= b.bits then First(b) else First(a));
  }

  lemma ContainsIsOverlap(c: Cidr, a: Addr)
    ensures Contains(c, a) <==> Overlaps(c, Host(a))
    ensures Contains(c, a) <==> Within(Host(a), c)
  {
    Geometry(c, Host(a));
    HostIsAddress(a);
  }

  /** The two halves of a prefix. */
  function Low(c: Cidr): (l: Cidr)
    requires c.bits < Width(c.family)
    ensures l.family == c.family && l.bits == c.bits + 1 && Canonical(l)
    ensures First(l) == First(c) && 2 * Size(l) == Size(c)
  {
    ClearLowAligned(c.addr, HostBits(c));
    AlignedFiner(First(c), HostBits(c) - 1, HostBits(c));
    Net(c.family, First(c), c.bits + 1)
  }

  function High(c: Cidr): (h: Cidr)
    requires c.bits < Width(c.family)
    ensures h.family == c.family && h.bits == c.bits + 1 && Canonical(h)
    ensures First(h) == First(c) + Size(Low(c)) && 2 * Size(h) == Size(c)
  {
    var n := HostBits(c) - 1;
    LastInFamily(c);
    PowerAligned(n, n);
    assert Canonical(Low(c));
    AlignedSum(First(c), Pow2(n), n);
    Net(c.family, First(c) + Pow2(n), c.bits + 1)
  }

  /** A prefix properly inside another lies in one of its halves. */
  lemma InOneHalf(q: Cidr, p: Cidr)
    requires Within(q, p) && p.bits < q.bits
    ensures Within(q, Low(p)) != Within(q, High(p))
  {
    assert Last(Low(p)) + 1 == First(High(p)) && Last(High(p)) == Last(p);
    Geometry(Low(p), q);
    Geometry(High(p), q);
  }
}
