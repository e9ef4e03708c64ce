/** What netipx computes for the allocator: the free part of a parent prefix as the ascending
    list of its maximal aligned blocks, and the choice of a block to cut a child from. */
module FreeSpace {
  import opened Wrappers
  import opened Powers
  import opened Cidrs

  /** No taken prefix meets `q`. */
  predicate FreeOf(q: Cidr, taken: set<Cidr>) {
    forall c :: c in taken ==> !Overlaps(c, q)
  }

  predicate Covered(q: Cidr, taken: set<Cidr>) {
    exists c :: c in taken && Within(q, c)
  }

  /** The free blocks of `p` without `taken`: halve until a block is wholly free or wholly taken. */
  function FreeBlocks(p: Cidr, taken: set<Cidr>): seq<Cidr>
    decreases HostBits(p)
  {
    if FreeOf(p, taken) then [Masked(p)]
    else if p.bits == Width(p.family) || Covered(p, taken) then []
    else FreeBlocks(Low(p), taken) + FreeBlocks(High(p), taken)
  }

  ghost predicate Ascending(bs: seq<Cidr>) {
    forall i, j :: 0 <= i < j < |bs| ==> Last(bs[i]) < First(bs[j])
  }

  /** A canonical block inside `p` that is wholly free. */
  predicate FreeBlockIn(q: Cidr, p: Cidr, taken: set<Cidr>) {
    Canonical(q) && Within(q, p) && FreeOf(q, taken)
  }

  lemma SameRange(p: Cidr, taken: set<Cidr>)
    ensures Canonical(Masked(p)) && Within(Masked(p), p) && Within(p, Masked(p))
    ensures FreeOf(Masked(p), taken) == FreeOf(p, taken)
  {
    MaskedIsCanonical(p);
    forall c | c in taken
      ensures Overlaps(c, Masked(p)) == Overlaps(c, p)
    {
      Geometry(c, p);
      Geometry(c, Masked(p));
    }
  }

  /** Every listed block is free and inside the parent, and the list ascends without overlap. */
  lemma {:induction false} BlocksSound(p: Cidr, taken: set<Cidr>)
    ensures forall b :: b in FreeBlocks(p, taken) ==> FreeBlockIn(b, p, taken)
    ensures Ascending(FreeBlocks(p, taken))
    decreases HostBits(p)
  {
    SameRange(p, taken);
    if FreeOf(p, taken) || p.bits == Width(p.family) || Covered(p, taken) {
    } else {
      BlocksSound(Low(p), taken);
      BlocksSound(High(p), taken);
      AscendingJoin(FreeBlocks(Low(p), taken), FreeBlocks(High(p), taken), First(High(p)));
    }
  }

  lemma AscendingJoin(lo: seq<Cidr>, hi: seq<Cidr>, cut: nat)
    requires Ascending(lo) && Ascending(hi)
    requires forall b :: b in lo ==> Last(b) < cut
    requires forall b :: b in hi ==> cut <= First(b)
    ensures Ascending(lo + hi)
  {
  }

  lemma FreeInside(q: Cidr, p: Cidr, taken: set<Cidr>)
    requires Within(q, p) && FreeOf(p, taken)
    ensures FreeOf(q, taken)
  {
    forall c | c in taken
      ensures !Overlaps(c, q)
    {
      Geometry(c, p);
      Geometry(c, q);
    }
  }

  lemma NotBothFreeAndCovered(q: Cidr, p: Cidr, taken: set<Cidr>)
    requires Within(q, p) && Covered(p, taken)
    ensures !FreeOf(q, taken)
  {
    var c :| c in taken && Within(p, c);
    Geometry(c, q);
  }

  /** Every wholly free block lies inside one listed block: the listed blocks are the maximal ones. */
  lemma {:induction false} MaximalBlock(p: Cidr, taken: set<Cidr>, q: Cidr) returns (b: Cidr)
    requires Within(q, p) && FreeOf(q, taken)
    ensures b in FreeBlocks(p, taken) && Within(q, b)
    decreases HostBits(p)
  {
    SameRange(p, taken);
    if FreeOf(p, taken) {
      b := Masked(p);
    } else {
      assert !Covered(p, taken) by {
        if Covered(p, taken) { NotBothFreeAndCovered(q, p, taken); }
      }
      Geometry(q, p);
      Geometry(p, q);
      if q.bits <= p.bits {
        FreeInside(p, q, taken);
        assert false;
      }
      InOneHalf(q, p);
      if Within(q, Low(p)) {
        b := MaximalBlock(Low(p), taken, q);
      } else {
        b := MaximalBlock(High(p), taken, q);
      }
    }
  }

  ghost predicate FreeAddress(p: Cidr, taken: set<Cidr>, a: Addr) {
    Contains(p, a) && forall c :: c in taken ==> !Contains(c, a)
  }

  /** The blocks hold exactly the addresses of the parent that no taken child holds. */
  lemma BlocksPartition(p: Cidr, taken: set<Cidr>, a: Addr)
    ensures FreeAddress(p, taken, a) <==> exists b :: b in FreeBlocks(p, taken) && Contains(b, a)
  {
    BlocksSound(p, taken);
    if FreeAddress(p, taken, a) {
      forall c | c in taken ensures !Overlaps(c, Host(a)) { ContainsIsOverlap(c, a); }
      ContainsIsOverlap(p, a);
      var b := MaximalBlock(p, taken, Host(a));
      ContainsIsOverlap(b, a);
    }
    forall b, c | b in FreeBlocks(p, taken) && Contains(b, a) && c in taken
      ensures !Contains(c, a)
    {
      assert !Overlaps(c, b);
      OverlapsIffShared(c, b);
    }
  }

  /** The list is the only ascending list of maximal free aligned blocks, however it is computed. */
  lemma BlocksUnique(p: Cidr, taken: set<Cidr>, ds: seq<Cidr>)
    requires Ascending(ds)
    requires forall d :: d in ds ==> FreeBlockIn(d, p, taken)
    requires forall q: Cidr :: FreeBlockIn(q, p, taken) ==> Covered(q, set d | d in ds)
    ensures ds == FreeBlocks(p, taken)
  {
    var bs := FreeBlocks(p, taken);
    BlocksSound(p, taken);
    forall d | d in ds
      ensures d in bs
    {
      var b := MaximalBlock(p, taken, d);
      var e :| e in ds && Within(b, e);
      SameBlock(ds, d, b, e);
    }
    forall b | b in bs
      ensures b in ds
    {
      assert FreeBlockIn(b, p, taken);
      var d :| d in ds && Within(b, d);
      var e := MaximalBlock(p, taken, d);
      SameBlock(bs, b, d, e);
    }
    SortedUnique(ds, bs);
  }

  lemma SameBlock(bs: seq<Cidr>, b: Cidr, d: Cidr, e: Cidr)
    requires Ascending(bs) && b in bs && e in bs && Canonical(b) && Canonical(d)
    requires Within(b, d) && Within(d, e)
    ensures b == d
  {
    var i :| 0 <= i < |bs| && bs[i] == b;
    var j :| 0 <= j < |bs| && bs[j] == e;
    assert i == j;
    Geometry(b, d);
    Geometry(d, b);
  }

  lemma {:induction false} SortedUnique(xs: seq<Cidr>, bs: seq<Cidr>)
    requires Ascending(xs) && Ascending(bs)
    requires forall c :: c in xs <==> c in bs
    ensures xs == bs
  {
    assert bs != [] ==> bs[0] in xs;
    if xs != [] {
      assert xs[0] in bs;
      assert bs[0] in xs;
      assert xs[0] == bs[0];
      forall c ensures c in xs[1..] <==> c in bs[1..] {
        if c in xs[1..] { assert c in bs; }
        if c in bs[1..] { assert c in xs; }
      }
      SortedUnique(xs[1..], bs[1..]);
      assert xs == [xs[0]] + xs[1..] && bs == [bs[0]] + bs[1..];
    }
  }

  /** netipx's scan over the free list: the first block of the longest prefix length not above `length`. */
  function BestFit(bs: seq<Cidr>, length: nat): Option<Cidr> {
    if bs == [] then None
    else
      var best, last := BestFit(bs[..|bs| - 1], length), bs[|bs| - 1];
      if last.bits <= length && (best.None? || last.bits > best.value.bits) then Some(last) else best
  }

  /** `b` is the tightest-fitting block for `length`, and the lowest of those equally tight. */
  ghost predicate Tightest(bs: seq<Cidr>, length: nat, b: Cidr) {
    && b in bs && b.bits <= length
    && forall d :: d in bs && d.bits <= length ==> d.bits < b.bits || (d.bits == b.bits && First(b) <= First(d))
  }

  /** What the scan has found after `last`, given what it had found before. */
  lemma BestFitStep(rest: seq<Cidr>, last: Cidr, length: nat)
    requires Ascending(rest + [last])
    requires BestFit(rest, length).None? <==> forall d :: d in rest ==> d.bits > length
    requires BestFit(rest, length).Some? ==> Tightest(rest, length, BestFit(rest, length).value)
    ensures BestFit(rest + [last], length).None? <==> forall d :: d in rest + [last] ==> d.bits > length
    ensures BestFit(rest + [last], length).Some? ==>
              Tightest(rest + [last], length, BestFit(rest + [last], length).value)
  {
    var bs, best := rest + [last], BestFit(rest, length);
    assert bs[..|bs| - 1] == rest && bs[|bs| - 1] == last;
    LastIsHighest(rest, last);
    if last.bits <= length && (best.None? || last.bits > best.value.bits) {
      assert BestFit(bs, length) == Some(last);
    } else {
      assert BestFit(bs, length) == best;
    }
  }

  lemma LastIsHighest(rest: seq<Cidr>, last: Cidr)
    requires Ascending(rest + [last])
    ensures forall d :: d in rest ==> First(d) < First(last)
  {
    forall d | d in rest ensures First(d) < First(last) {
      var i :| 0 <= i < |rest| && rest[i] == d;
      assert (rest + [last])[i] == d && (rest + [last])[|rest|] == last;
    }
  }

  lemma {:induction false} BestFitIsTightest(bs: seq<Cidr>, length: nat)
    requires Ascending(bs)
    ensures BestFit(bs, length).None? <==> forall d :: d in bs ==> d.bits > length
    ensures BestFit(bs, length).Some? ==> Tightest(bs, length, BestFit(bs, length).value)
  {
    if bs != [] {
      var rest, last := bs[..|bs| - 1], bs[|bs| - 1];
      assert bs == rest + [last];
      BestFitIsTightest(rest, length);
      BestFitStep(rest, last, length);
    }
  }

  /** The block of the given length at the low end of `b`. */
  function CutLow(b: Cidr, length: nat): (c: Cidr)
    requires b.bits <= length <= Width(b.family)
    ensures Canonical(c) && Within(c, b)
  {
    ClearLowAligned(b.addr, HostBits(b));
    AlignedFiner(First(b), Width(b.family) - length, HostBits(b));
    Pow2Mono(Width(b.family) - length, HostBits(b));
    Net(b.family, First(b), length)
  }

  /** The prefix RemoveFreePrefix cuts off, if a block is large enough. */
  function FreeChild(p: Cidr, taken: set<Cidr>, length: nat): Option<Cidr>
    requires length <= Width(p.family)
  {
    var best := BestFit(FreeBlocks(p, taken), length);
    BlocksSound(p, taken);
    if best.None? then None
    else BestFitIsTightest(FreeBlocks(p, taken), length); Some(CutLow(best.value, length))
  }

  /** Selection succeeds exactly when some aligned block of the length is wholly free, and then it
      cuts the low end of a tightest-fitting maximal free block. */
  lemma SelectionExact(p: Cidr, taken: set<Cidr>, length: nat)
    requires p.bits < length <= Width(p.family)
    ensures FreeChild(p, taken, length).Some? <==> exists q: Cidr :: FreeBlockIn(q, p, taken) && q.bits == length
    ensures FreeChild(p, taken, length).Some? ==>
              var c := FreeChild(p, taken, length).value;
              && FreeBlockIn(c, p, taken) && c.bits == length
              && exists b :: Tightest(FreeBlocks(p, taken), length, b) && First(c) == First(b) && Within(c, b)
  {
    var bs := FreeBlocks(p, taken);
    BlocksSound(p, taken);
    BestFitIsTightest(bs, length);
    if FreeChild(p, taken, length).Some? {
      var b, c := BestFit(bs, length).value, FreeChild(p, taken, length).value;
      FreeInside(c, b, taken);
      assert FreeBlockIn(c, p, taken) && c.bits == length;
      assert Tightest(bs, length, b);
    }
    if q: Cidr :| FreeBlockIn(q, p, taken) && q.bits == length {
      var b := MaximalBlock(p, taken, q);
      Geometry(b, q);
      Geometry(q, b);
    }
  }

  /** netipx's ContainsPrefix on the free set. */
  predicate ContainsPrefix(bs: seq<Cidr>, c: Cidr) {
    exists b :: b in bs && Within(c, b)
  }

  /** A specific child is available exactly when each of its addresses is free. */
  lemma ContainsPrefixExact(p: Cidr, taken: set<Cidr>, c: Cidr)
    ensures ContainsPrefix(FreeBlocks(p, taken), c) <==> Within(c, p) && FreeOf(c, taken)
    ensures ContainsPrefix(FreeBlocks(p, taken), c) <==>
            forall a: Addr :: Contains(c, a) ==> FreeAddress(p, taken, a)
  {
    BlocksSound(p, taken);
    if ContainsPrefix(FreeBlocks(p, taken), c) {
      var b :| b in FreeBlocks(p, taken) && Within(c, b);
      FreeInside(c, b, taken);
    }
    if Within(c, p) && FreeOf(c, taken) {
      var b := MaximalBlock(p, taken, c);
      forall t, a | t in taken && Contains(c, a)
        ensures !Contains(t, a)
      {
        OverlapsIffShared(t, c);
      }
    }
    if forall a: Addr :: Contains(c, a) ==> FreeAddress(p, taken, a) {
      assert FreeAddress(p, taken, FirstAddr(c)) && FreeAddress(p, taken, LastAddr(c));
      forall t | t in taken
        ensures !Overlaps(t, c)
      {
        if Overlaps(t, c) {
          var a := SharedAddress(t, c);
        }
      }
    }
  }
}
