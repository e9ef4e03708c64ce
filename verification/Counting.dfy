/** Sizes and counts of free space: conservation, and the usage figures with their 64-bit sum. */
module Counting {
  import opened Powers
  import opened Cidrs
  import opened FreeSpace

  /** The blocks of length `length` that tile `p`. */
  function AllBlocks(p: Cidr, length: nat): set<Cidr>
    requires p.bits <= length <= Width(p.family)
    decreases length - p.bits
  {
    if length == p.bits then MaskedIsCanonical(p); {Masked(p)}
    else AllBlocks(Low(p), length) + AllBlocks(High(p), length)
  }

  lemma {:induction false} AllBlocksExact(p: Cidr, length: nat, q: Cidr)
    requires p.bits <= length <= Width(p.family)
    ensures q in AllBlocks(p, length) <==> Canonical(q) && q.bits == length && Within(q, p)
    decreases length - p.bits
  {
    Geometry(p, q);
    Geometry(q, p);
    MaskedIsCanonical(p);
    if length > p.bits {
      AllBlocksExact(Low(p), length, q);
      AllBlocksExact(High(p), length, q);
      if Within(q, p) && q.bits == length { InOneHalf(q, p); }
    }
  }

  lemma HalvesCount(p: Cidr, length: nat)
    requires p.bits < length <= Width(p.family)
    ensures |AllBlocks(p, length)| == |AllBlocks(Low(p), length)| + |AllBlocks(High(p), length)|
  {
    HalvesApart(p, length);
    CardUnion(AllBlocks(p, length), AllBlocks(Low(p), length), AllBlocks(High(p), length));
  }

  lemma {:induction false} AllBlocksCount(p: Cidr, length: nat)
    requires p.bits <= length <= Width(p.family)
    ensures |AllBlocks(p, length)| == Pow2(length - p.bits)
    decreases length - p.bits
  {
    if length > p.bits {
      var n := length - p.bits - 1;
      assert length - Low(p).bits == n && length - High(p).bits == n && length - p.bits == n + 1;
      AllBlocksCount(Low(p), length);
      AllBlocksCount(High(p), length);
      HalvesCount(p, length);
    }
  }

  lemma {:induction false} HostsCount(p: Cidr)
    ensures |AllBlocks(p, Width(p.family))| == Size(p)
  {
    AllBlocksCount(p, Width(p.family));
  }

  lemma CardUnion<T>(all: set<T>, a: set<T>, b: set<T>)
    requires all == a + b && a !! b
    ensures |all| == |a| + |b|
  {
  }

  lemma HalvesApart(p: Cidr, length: nat)
    requires p.bits < length <= Width(p.family)
    ensures AllBlocks(Low(p), length) !! AllBlocks(High(p), length)
  {
    forall q | q in AllBlocks(Low(p), length)
      ensures q !in AllBlocks(High(p), length)
    {
      AllBlocksExact(Low(p), length, q);
      AllBlocksExact(High(p), length, q);
    }
  }

  /** The free blocks of one length: what a caller could still acquire one by one. */
  function FreeOfLength(p: Cidr, taken: set<Cidr>, length: nat): set<Cidr>
    requires p.bits <= length <= Width(p.family)
  {
    set q | q in AllBlocks(p, length) && FreeOf(q, taken)
  }

  /** How many blocks of the given length the listed blocks hold. */
  function BlockCount(bs: seq<Cidr>, length: nat): nat {
    if bs == [] then 0
    else
      var last := bs[|bs| - 1];
      BlockCount(bs[..|bs| - 1], length) + if last.bits <= length then Pow2(length - last.bits) else 0
  }

  lemma {:induction false} BlockCountAppend(xs: seq<Cidr>, ys: seq<Cidr>, length: nat)
    ensures BlockCount(xs + ys, length) == BlockCount(xs, length) + BlockCount(ys, length)
  {
    if ys == [] {
      assert xs + ys == xs;
    } else {
      BlockCountAppend(xs, ys[..|ys| - 1], length);
      assert (xs + ys)[..|xs + ys| - 1] == xs + ys[..|ys| - 1];
    }
  }

  /** Summing over the free list counts the free blocks of a length exactly. */
  lemma {:induction false} FreeCountExact(p: Cidr, taken: set<Cidr>, length: nat)
    requires p.bits <= length <= Width(p.family)
    ensures BlockCount(FreeBlocks(p, taken), length) == |FreeOfLength(p, taken, length)|
    decreases HostBits(p)
  {
    SameRange(p, taken);
    if FreeOf(p, taken) {
      forall q | q in AllBlocks(p, length) ensures FreeOf(q, taken) {
        AllBlocksExact(p, length, q);
        FreeInside(q, p, taken);
      }
      assert FreeOfLength(p, taken, length) == AllBlocks(p, length);
      AllBlocksCount(p, length);
      assert BlockCount([Masked(p)], length) == BlockCount([], length) + Pow2(length - p.bits) by {
        assert [Masked(p)][..0] == [];
      }
    } else if p.bits == Width(p.family) || Covered(p, taken) {
      forall q | q in AllBlocks(p, length) ensures !FreeOf(q, taken) {
        AllBlocksExact(p, length, q);
        if Covered(p, taken) { NotBothFreeAndCovered(q, p, taken); }
      }
      assert FreeOfLength(p, taken, length) == {};
    } else if length == p.bits {
      assert FreeOfLength(p, taken, length) == {};
      NothingShorter(p, taken, length);
    } else {
      FreeCountExact(Low(p), taken, length);
      FreeCountExact(High(p), taken, length);
      BlockCountAppend(FreeBlocks(Low(p), taken), FreeBlocks(High(p), taken), length);
      FreeHalvesCount(p, taken, length);
    }
  }

  lemma FreeHalvesCount(p: Cidr, taken: set<Cidr>, length: nat)
    requires p.bits < length <= Width(p.family)
    ensures |FreeOfLength(p, taken, length)|
         == |FreeOfLength(Low(p), taken, length)| + |FreeOfLength(High(p), taken, length)|
  {
    HalvesApart(p, length);
    CardUnion(FreeOfLength(p, taken, length),
              FreeOfLength(Low(p), taken, length), FreeOfLength(High(p), taken, length));
  }

  lemma NothingShorter(p: Cidr, taken: set<Cidr>, length: nat)
    requires length < p.bits || (length == p.bits && !FreeOf(p, taken))
    ensures BlockCount(FreeBlocks(p, taken), length) == 0
  {
    BlocksSound(p, taken);
    forall b | b in FreeBlocks(p, taken) ensures b.bits > length {
      Geometry(b, p);
      Geometry(p, b);
      if b.bits == p.bits { SameRange(p, taken); assert b == Masked(p); }
    }
    CountNone(FreeBlocks(p, taken), length);
  }

  lemma {:induction false} CountNone(bs: seq<Cidr>, length: nat)
    requires forall b :: b in bs ==> b.bits > length
    ensures BlockCount(bs, length) == 0
  {
    if bs != [] { CountNone(bs[..|bs| - 1], length); }
  }

  /** The addresses in a list of blocks, counted. */
  function TotalSize(bs: seq<Cidr>): nat {
    if bs == [] then 0 else TotalSize(bs[..|bs| - 1]) + Size(bs[|bs| - 1])
  }

  ghost function Pick(cs: set<Cidr>): (c: Cidr)
    requires cs != {}
    ensures c in cs
  {
    var c :| c in cs; c
  }

  ghost function SumSizes(cs: set<Cidr>): nat {
    if cs == {} then 0 else Size(Pick(cs)) + SumSizes(cs - {Pick(cs)})
  }

  /** The taken children of a parent: inside it and pairwise apart. */
  ghost predicate Siblings(p: Cidr, taken: set<Cidr>) {
    && (forall c :: c in taken ==> Within(c, p))
    && forall c, d :: c in taken && d in taken && c != d ==> !Overlaps(c, d)
  }

  /** The single addresses of `p` that some taken prefix holds. */
  function TakenHosts(p: Cidr, taken: set<Cidr>): set<Cidr> {
    set q | q in AllBlocks(p, Width(p.family)) && !FreeOf(q, taken)
  }

  lemma HeldBy(p: Cidr, taken: set<Cidr>, c: Cidr)
    requires Siblings(p, taken) && c in taken
    ensures c.family == p.family
    ensures TakenHosts(p, taken) == AllBlocks(c, Width(c.family)) + TakenHosts(p, taken - {c})
    ensures AllBlocks(c, Width(c.family)) !! TakenHosts(p, taken - {c})
  {
    var w, rest := Width(p.family), taken - {c};
    var held := AllBlocks(c, w);
    forall q
      ensures q in held <==> q in AllBlocks(p, w) && Overlaps(c, q)
      ensures q in held ==> FreeOf(q, rest)
    {
      AllBlocksExact(c, w, q);
      AllBlocksExact(p, w, q);
      Geometry(c, q);
      forall d | d in rest && q in held ensures !Overlaps(d, q) {
        Geometry(d, c);
        Geometry(d, q);
      }
    }
  }

  lemma TakenHostsSplit(p: Cidr, taken: set<Cidr>, c: Cidr)
    requires Siblings(p, taken) && c in taken
    ensures |TakenHosts(p, taken)| == Size(c) + |TakenHosts(p, taken - {c})|
  {
    HeldBy(p, taken, c);
    HostsCount(c);
    CardUnion(TakenHosts(p, taken), AllBlocks(c, Width(c.family)), TakenHosts(p, taken - {c}));
  }

  lemma {:induction false} TakenHostsCount(p: Cidr, taken: set<Cidr>)
    requires Siblings(p, taken)
    ensures |TakenHosts(p, taken)| == SumSizes(taken)
    decreases taken
  {
    if taken == {} {
      assert TakenHosts(p, taken) == {};
    } else {
      var c := Pick(taken);
      TakenHostsCount(p, taken - {c});
      TakenHostsSplit(p, taken, c);
    }
  }

  lemma {:induction false} TotalSizeIsCount(bs: seq<Cidr>, f: Family)
    requires forall b :: b in bs ==> b.family == f
    ensures TotalSize(bs) == BlockCount(bs, Width(f))
  {
    if bs != [] {
      TotalSizeIsCount(bs[..|bs| - 1], f);
      assert bs[|bs| - 1] in bs;
    }
  }

  /** Conservation: free sizes and taken sizes add up to the parent's size. */
  lemma {:induction false} SizesConserved(p: Cidr, taken: set<Cidr>)
    requires Siblings(p, taken)
    ensures TotalSize(FreeBlocks(p, taken)) + SumSizes(taken) == Size(p)
  {
    BlocksSound(p, taken);
    TotalSizeIsCount(FreeBlocks(p, taken), p.family);
    FreeCountExact(p, taken, Width(p.family));
    TakenHostsCount(p, taken);
    HostsSplit(p, taken);
  }

  lemma HostsSplit(p: Cidr, taken: set<Cidr>)
    ensures |FreeOfLength(p, taken, Width(p.family))| + |TakenHosts(p, taken)| == Size(p)
  {
    CardUnion(AllBlocks(p, Width(p.family)), FreeOfLength(p, taken, Width(p.family)), TakenHosts(p, taken));
    HostsCount(p);
  }

  const UINT64 := 0x1_0000_0000_0000_0000
  const MAX_INT32 := 0x7fff_ffff

  /** Go's `1 << bits` on uint64: all bits shifted out from 64 on. */
  function ShiftOne(bits: nat): nat {
    if bits >= 64 then 0 else Pow2(bits)
  }

  lemma ShiftOneIsModular(sum: nat, bits: nat)
    ensures (sum % UINT64 + ShiftOne(bits)) % UINT64 == (sum + Pow2(bits)) % UINT64
  {
    WholeWords(sum % UINT64 + ShiftOne(bits), sum / UINT64);
    if bits >= 64 {
      LargePower(bits);
      WholeWords(sum, Pow2(bits) / UINT64);
    }
  }

  lemma WholeWords(sum: nat, k: nat)
    ensures (sum + k * 0x1_0000_0000_0000_0000) % 0x1_0000_0000_0000_0000 == sum % 0x1_0000_0000_0000_0000
  {
  }

  /** The figure the source reports for a true count `n`: summed in uint64, capped at 2^31-1. */
  function Reported(n: nat): nat {
    Min(n % UINT64, MAX_INT32)
  }

  function Usable(bs: seq<Cidr>, length: nat): seq<Cidr> {
    if bs == [] then []
    else
      var last := bs[|bs| - 1];
      Usable(bs[..|bs| - 1], length) + if last.bits <= length then [last] else []
  }

  /** The set of children marked taken. */
  function Taken(children: map<Cidr, bool>): set<Cidr> {
    set c | c in children && !children[c]
  }

  lemma NextBlock(bs: seq<Cidr>, i: nat, length: nat)
    requires i < |bs|
    ensures BlockCount(bs[..i + 1], length)
         == BlockCount(bs[..i], length) + if bs[i].bits <= length then Pow2(length - bs[i].bits) else 0
    ensures Usable(bs[..i + 1], length) == Usable(bs[..i], length) + if bs[i].bits <= length then [bs[i]] else []
  {
    assert bs[..i + 1][..i] == bs[..i];
  }

  /** What one more block adds to the wrapped sum. */
  lemma NextSum(bs: seq<Cidr>, i: nat, length: nat)
    requires i < |bs|
    ensures bs[i].bits <= length ==>
              (BlockCount(bs[..i], length) % UINT64 + ShiftOne(length - bs[i].bits)) % UINT64
              == BlockCount(bs[..i + 1], length) % UINT64
    ensures bs[i].bits > length ==> BlockCount(bs[..i + 1], length) == BlockCount(bs[..i], length)
    ensures Usable(bs[..i + 1], length) == Usable(bs[..i], length) + if bs[i].bits <= length then [bs[i]] else []
  {
    NextBlock(bs, i, length);
    if bs[i].bits <= length { ShiftOneIsModular(BlockCount(bs[..i], length), length - bs[i].bits); }
  }

  /** What is kept are the blocks that are large enough, in their order. */
  lemma UsableKeeps(bs: seq<Cidr>, length: nat)
    ensures forall b :: b in Usable(bs, length) <==> b in bs && b.bits <= length
    ensures Ascending(bs) ==> Ascending(Usable(bs, length))
  {
    if bs != [] {
      var rest, last := bs[..|bs| - 1], bs[|bs| - 1];
      UsableKeeps(rest, length);
      assert bs == rest + [last];
      if Ascending(bs) && last.bits <= length { AscendingAppend(Usable(rest, length), last, rest); }
    }
  }

  lemma AscendingAppend(kept: seq<Cidr>, last: Cidr, rest: seq<Cidr>)
    requires Ascending(kept) && Ascending(rest + [last]) && forall b :: b in kept ==> b in rest
    ensures Ascending(kept + [last])
  {
    forall i | 0 <= i < |kept| ensures Last(kept[i]) < First(last) {
      assert kept[i] in rest;
      var j :| 0 <= j < |rest| && rest[j] == kept[i];
      assert (rest + [last])[j] == kept[i] && (rest + [last])[|rest|] == last;
    }
  }

  method AvailablePrefixes(p: Cidr, children: map<Cidr, bool>) returns (total: nat, available: seq<Cidr>)
    ensures total == Reported(BlockCount(FreeBlocks(p, Taken(children)), Width(p.family) - 2))
    ensures available == Usable(FreeBlocks(p, Taken(children)), Width(p.family) - 2)
    ensures forall b :: b in available <==> b in FreeBlocks(p, Taken(children)) && b.bits <= Width(p.family) - 2
    ensures Ascending(available)
  {
    var pfxs := FreeBlocks(p, Taken(children));
    var maxBits := Width(p.family) - 2;
    total, available := 0, [];
    for i := 0 to |pfxs|
      invariant total == BlockCount(pfxs[..i], maxBits) % UINT64
      invariant available == Usable(pfxs[..i], maxBits)
    {
      NextSum(pfxs, i, maxBits);
      var bits := maxBits - pfxs[i].bits;
      if bits < 0 {
        continue;
      }
      total := (total + ShiftOne(bits)) % UINT64;
      available := available + [pfxs[i]];
    }
    assert pfxs[..|pfxs|] == pfxs;
    BlocksSound(p, Taken(children));
    UsableKeeps(pfxs, maxBits);
    if total > MAX_INT32 {
      total := MAX_INT32;
    }
  }

  /** How many wholly free blocks of the length lie in `p`; a block longer than `p` there is none. */
  function FreeCount(p: Cidr, taken: set<Cidr>, length: nat): nat
    requires length <= Width(p.family)
  {
    if p.bits <= length then |FreeOfLength(p, taken, length)| else 0
  }

  lemma FreeCountMeans(p: Cidr, taken: set<Cidr>, length: nat, q: Cidr)
    requires length <= Width(p.family)
    ensures p.bits <= length ==> (q in FreeOfLength(p, taken, length) <==> FreeBlockIn(q, p, taken) && q.bits == length)
    ensures p.bits > length ==> !(FreeBlockIn(q, p, taken) && q.bits == length)
  {
    Geometry(q, p);
    Geometry(p, q);
    if p.bits <= length { AllBlocksExact(p, length, q); }
  }

  /** The reported count is the capped true count exactly when the true count fits 64 bits, or its
      low 64 bits still reach the cap; for IPv4, and for IPv6 from length 63 on, it always fits. */
  lemma ReportedIff(p: Cidr, taken: set<Cidr>)
    ensures var n := FreeCount(p, taken, Width(p.family) - 2);
            && BlockCount(FreeBlocks(p, taken), Width(p.family) - 2) == n
            && (Reported(n) == Min(n, 2147483647)
                <==> n < 0x1_0000_0000_0000_0000 || n % 0x1_0000_0000_0000_0000 >= 2147483647)
            && (n % 0x1_0000_0000_0000_0000 < 2147483647 ==> Reported(n) == n % 0x1_0000_0000_0000_0000)
            && (p.family.V4? || p.bits >= 63 ==> n < 0x1_0000_0000_0000_0000)
  {
    var length := Width(p.family) - 2;
    CapIsExact(FreeCount(p, taken, length));
    if p.bits <= length {
      FreeCountExact(p, taken, length);
      if p.family.V4? || p.bits >= 63 { FreeCountFits(p, taken); }
    } else {
      NothingShorter(p, taken, length);
    }
  }

  lemma FreeCountFits(p: Cidr, taken: set<Cidr>)
    requires p.bits <= Width(p.family) - 2
    requires p.family.V4? || p.bits >= 63
    ensures |FreeOfLength(p, taken, Width(p.family) - 2)| < UINT64
  {
    var length := Width(p.family) - 2;
    CardSubset(FreeOfLength(p, taken, length), AllBlocks(p, length));
    AllBlocksCount(p, length);
    Pow2Values();
    Pow2Mono(length - p.bits, 63);
  }

  lemma CapIsExact(n: nat)
    ensures Reported(n) == Min(n, 2147483647)
       <==> n < 0x1_0000_0000_0000_0000 || n % 0x1_0000_0000_0000_0000 >= 2147483647
    ensures n % 0x1_0000_0000_0000_0000 < 2147483647 ==> Reported(n) == n % 0x1_0000_0000_0000_0000
  {
  }

  /** What two sets hold beyond each other accounts for their difference in size. */
  lemma CardExchange<T>(a: set<T>, b: set<T>)
    ensures |a| + |b - a| == |a - b| + |b|
  {
    CardUnion(a + b, a, b - a);
    CardUnion(a + b, b, a - b);
  }

  lemma CardSubset<T>(a: set<T>, b: set<T>)
    requires a <= b
    ensures |a| <= |b|
    ensures |a| == |b| ==> a == b
  {
    assert b == a + (b - a);
    assert |b| == |a| + |b - a|;
  }

  lemma Missing<T>(a: set<T>, b: set<T>) returns (x: T)
    requires a <= b && |a| < |b|
    ensures x in b && x !in a
  {
    assert b == a + (b - a);
    assert |b - a| > 0;
    x :| x in b - a;
  }

  /** Every untouched IPv6 prefix of length 62 or less has 2^64 or more free /126 blocks, and is
      reported to have none. */
  lemma {:induction false} UntouchedV6CountIsZero(p: Cidr)
    requires p.family.V6? && p.bits <= 62
    ensures |FreeOfLength(p, {}, 126)| >= UINT64
    ensures Reported(BlockCount(FreeBlocks(p, {}), 126)) == 0
  {
    FreeCountExact(p, {}, 126);
    AllBlocksCount(p, 126);
    assert FreeOfLength(p, {}, 126) == AllBlocks(p, 126);
    LargePower(126 - p.bits);
  }

  lemma LargePower(n: nat)
    requires n >= 64
    ensures Pow2(n) % UINT64 == 0 && Pow2(n) >= UINT64
  {
    var rest := Pow2(n - 64);
    assert Pow2(64) == 0x1_0000_0000_0000_0000 by { Pow2Values(); }
    assert Pow2(n) == rest * 0x1_0000_0000_0000_0000 by { Pow2Add(n - 64, 64); }
    WholeWords(0, rest);
  }
}
