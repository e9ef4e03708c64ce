/** One prefix record and the local edits the allocator makes on its snapshot of it. */
module Records {
  import opened Wrappers
  import opened Cidrs
  import opened FreeSpace
  import opened Counting

  /** `children` maps a child to true when it is available again; `ips` holds the acquired addresses. */
  datatype Record = Record(cidr: Cidr, parentCidr: Option<Cidr>, isParent: bool, children: map<Cidr, bool>,
                           childPrefixLength: int, ips: set<Addr>, version: int)

  /** The addresses blocked in a new prefix: network address, and broadcast address for IPv4. */
  function Reserved(c: Cidr): set<Addr> {
    {FirstAddr(c)} + if c.family.V4? then {LastAddr(c)} else {}
  }

  function MaskedOption(c: Option<Cidr>): Option<Cidr> {
    if c.None? then None else Some(Masked(c.value))
  }

  function NewRecord(cidr: Cidr, parentCidr: Option<Cidr>): Record {
    Record(Masked(cidr), MaskedOption(parentCidr), false, map[], 0, Reserved(cidr), 0)
  }

  predicate HasIPs(r: Record) {
    (r.cidr.family.V4? && |r.ips| > 2) || (r.cidr.family.V6? && |r.ips| > 1)
  }

  /** The address `x` of `c`'s range. */
  function AddrAt(c: Cidr, x: nat): (a: Addr)
    requires x <= Last(c)
  {
    LastInFamily(c);
    Ip(c.family, x)
  }

  /** The scan for a free address: upwards from `x`, until the address leaves the prefix. */
  function ScanFrom(c: Cidr, ips: set<Addr>, x: nat): Option<Addr>
    requires First(c) <= x
    decreases Last(c) + 1 - x
  {
    if x > Last(c) then None
    else if AddrAt(c, x) in ips then ScanFrom(c, ips, x + 1)
    else Some(AddrAt(c, x))
  }

  function FirstFree(c: Cidr, ips: set<Addr>): Option<Addr> {
    ScanFrom(c, ips, First(c))
  }

  lemma {:induction false} ScanFindsLeast(c: Cidr, ips: set<Addr>, x: nat)
    requires First(c) <= x
    ensures ScanFrom(c, ips, x).Some? ==>
              var a := ScanFrom(c, ips, x).value;
              && Contains(c, a) && x <= a.value && a !in ips
              && forall b: Addr :: Contains(c, b) && x <= b.value < a.value ==> b in ips
    ensures ScanFrom(c, ips, x).None? ==> forall b: Addr :: Contains(c, b) && x <= b.value ==> b in ips
    decreases Last(c) + 1 - x
  {
    if x <= Last(c) && AddrAt(c, x) in ips {
      ScanFindsLeast(c, ips, x + 1);
      forall b: Addr | Contains(c, b) && x <= b.value ensures b == AddrAt(c, x) || x + 1 <= b.value {}
    }
  }

  /** Acquire the given address, or the first free one. */
  function AcquireIp(r: Record, want: Option<Addr>): Result<(Record, Addr), Error> {
    if r.isParent then Err(ErrHasChildren)
    else if want.Some? then
      if !Contains(r.cidr, want.value) then Err(ErrNotInPrefix)
      else if want.value in r.ips then Err(ErrAlreadyAllocated)
      else Ok((r.(ips := r.ips + {want.value}), want.value))
    else
      var free := FirstFree(r.cidr, r.ips);
      if free.None? then Err(ErrNoIPAvailable)
      else Ok((r.(ips := r.ips + {free.value}), free.value))
  }

  function ReleaseIp(r: Record, ip: Addr): Result<Record, Error> {
    if ip !in r.ips then Err(ErrNotFound) else Ok(r.(ips := r.ips - {ip}))
  }

  datatype ChildRequest = OfLength(length: nat) | Specific(child: Cidr)

  function RequestedLength(want: ChildRequest): nat {
    if want.OfLength? then want.length else want.child.bits
  }

  /** The checks and the choice of the child, before the parent is edited. */
  function SelectChild(r: Record, want: ChildRequest): Result<Cidr, Error> {
    if r.cidr.bits >= RequestedLength(want) then Err(ErrLengthNotGreater)
    else if HasIPs(r) then Err(ErrHasIPs)
    else
      var free := FreeBlocks(r.cidr, Taken(r.children));
      if want.Specific? then
        if ContainsPrefix(free, want.child) then Ok(want.child) else Err(ErrChildNotAvailable)
      else
        var best := BestFit(free, want.length);
        if best.None? then Err(ErrNoFreePrefix)
        else if want.length > Width(r.cidr.family) then Err(ErrInvalidChild)
        else
          BlocksSound(r.cidr, Taken(r.children));
          BestFitIsTightest(free, want.length);
          Ok(CutLow(best.value, want.length))
  }

  function AcquireChild(r: Record, want: ChildRequest): Result<(Record, Cidr), Error> {
    var child := SelectChild(r, want);
    if child.Err? then Err(child.error)
    else Ok((r.(children := r.children[child.value := false], isParent := true), child.value))
  }

  /** Mark a child available again; `held` is the number of addresses in the caller's copy of the child. */
  function ReleaseChild(r: Record, child: Cidr, held: nat): Result<Record, Error> {
    if !r.isParent then Err(ErrNoChildPrefix)
    else if held > 2 then Err(ErrHasIPs)
    else Ok(r.(children := r.children[child := true]))
  }

  /** A record with a child prefix length is a parent: reading it back by the legacy rule changes nothing. */
  predicate Normal(r: Record) {
    r.childPrefixLength <= 0 || r.isParent
  }

  /** What every stored record and every snapshot keeps. */
  ghost predicate RecordOk(r: Record) {
    && Canonical(r.cidr)
    && (forall a :: a in r.ips ==> Contains(r.cidr, a))
    && Siblings(r.cidr, Taken(r.children))
    && (forall c :: c in Taken(r.children) ==> r.cidr.bits < c.bits)
    && (r.isParent ==> !HasIPs(r))
    && (!r.isParent ==> r.children == map[])
    && Normal(r)
  }

  lemma NewRecordOk(cidr: Cidr, parentCidr: Option<Cidr>)
    ensures RecordOk(NewRecord(cidr, parentCidr))
    ensures NewRecord(cidr, parentCidr).ips == Reserved(Masked(cidr))
  {
    MaskedIsCanonical(cidr);
  }

  lemma AcquireIpOk(r: Record, want: Option<Addr>)
    requires RecordOk(r) && AcquireIp(r, want).Ok?
    ensures RecordOk(AcquireIp(r, want).value.0)
  {
    ScanFindsLeast(r.cidr, r.ips, First(r.cidr));
  }

  lemma ReleaseIpOk(r: Record, ip: Addr)
    requires RecordOk(r) && ReleaseIp(r, ip).Ok?
    ensures RecordOk(ReleaseIp(r, ip).value)
  {
    assert |r.ips - {ip}| == |r.ips| - 1;
  }

  /** The selected child is wholly free, strictly inside the parent, and of the requested length. */
  lemma SelectedChildIsFree(r: Record, want: ChildRequest)
    requires SelectChild(r, want).Ok?
    ensures var c := SelectChild(r, want).value;
            && Within(c, r.cidr) && FreeOf(c, Taken(r.children))
            && r.cidr.bits < c.bits == RequestedLength(want)
            && (want.OfLength? ==> Canonical(c))
  {
    var taken := Taken(r.children);
    BlocksSound(r.cidr, taken);
    if want.OfLength? {
      var free := FreeBlocks(r.cidr, taken);
      BestFitIsTightest(free, want.length);
      FreeInside(CutLow(BestFit(free, want.length).value, want.length), BestFit(free, want.length).value, taken);
    } else {
      ContainsPrefixExact(r.cidr, taken, want.child);
    }
  }

  lemma AcquireChildOk(r: Record, want: ChildRequest)
    requires RecordOk(r) && AcquireChild(r, want).Ok?
    ensures RecordOk(AcquireChild(r, want).value.0)
    ensures var (r', c) := AcquireChild(r, want).value;
            c !in Taken(r.children) && Taken(r'.children) == Taken(r.children) + {c}
  {
    var (r', c) := AcquireChild(r, want).value;
    SelectedChildIsFree(r, want);
    Geometry(c, c);
    assert Taken(r'.children) == Taken(r.children) + {c};
    forall d | d in Taken(r.children) ensures !Overlaps(c, d) && !Overlaps(d, c) { Geometry(c, d); }
  }

  lemma ReleaseChildOk(r: Record, child: Cidr, held: nat)
    requires RecordOk(r) && ReleaseChild(r, child, held).Ok?
    ensures RecordOk(ReleaseChild(r, child, held).value)
    ensures Taken(ReleaseChild(r, child, held).value.children) == Taken(r.children) - {child}
  {
  }

  /** When acquiring an address succeeds and with which error it fails, and the address granted:
      without a wish it is the least free one, and only a full prefix has none. */
  lemma AcquireIpExact(r: Record, want: Option<Addr>)
    ensures AcquireIp(r, want) == Err(ErrHasChildren) <==> r.isParent
    ensures AcquireIp(r, want) == Err(ErrNotInPrefix) <==> !r.isParent && want.Some? && !Contains(r.cidr, want.value)
    ensures AcquireIp(r, want) == Err(ErrNoIPAvailable) <==>
            !r.isParent && want.None? && forall b: Addr :: Contains(r.cidr, b) ==> b in r.ips
    ensures AcquireIp(r, want) == Err(ErrAlreadyAllocated) <==>
            !r.isParent && want.Some? && Contains(r.cidr, want.value) && want.value in r.ips
    ensures AcquireIp(r, want).Ok? ==>
              var (r', a) := AcquireIp(r, want).value;
              && !r.isParent && Contains(r.cidr, a) && a !in r.ips && (want.Some? ==> a == want.value)
              && (want.None? ==> forall b: Addr :: Contains(r.cidr, b) && b.value < a.value ==> b in r.ips)
              && r'.ips == r.ips + {a} && r' == r.(ips := r'.ips)
  {
    ScanFindsLeast(r.cidr, r.ips, First(r.cidr));
  }

  /** When acquiring a child succeeds: by length exactly if some aligned block of that length is
      wholly free, a specific one exactly if each of its addresses is free. */
  lemma SelectChildExact(r: Record, want: ChildRequest)
    requires r.cidr.bits < RequestedLength(want) && !HasIPs(r)
    ensures want.OfLength? && want.length <= Width(r.cidr.family) ==>
              (SelectChild(r, want).Ok? <==>
               exists q: Cidr :: FreeBlockIn(q, r.cidr, Taken(r.children)) && q.bits == want.length)
    ensures want.OfLength? && want.length > Width(r.cidr.family) ==> SelectChild(r, want).Err?
    ensures want.OfLength? && SelectChild(r, want).Ok? ==>
              var c := SelectChild(r, want).value;
              exists b :: Tightest(FreeBlocks(r.cidr, Taken(r.children)), want.length, b)
                          && First(c) == First(b) && Within(c, b)
    ensures want.Specific? ==>
              (SelectChild(r, want).Ok? <==>
               forall a: Addr :: Contains(want.child, a) ==> FreeAddress(r.cidr, Taken(r.children), a))
    ensures want.Specific? && SelectChild(r, want).Ok? ==> SelectChild(r, want).value == want.child
  {
    if want.Specific? {
      ContainsPrefixExact(r.cidr, Taken(r.children), want.child);
    } else if want.length <= Width(r.cidr.family) {
      SelectionExact(r.cidr, Taken(r.children), want.length);
    }
  }

  /** The acquired addresses that are not reserved. */
  function Hosts(r: Record): set<Addr> {
    r.ips - Reserved(r.cidr)
  }

  /** The reserved addresses that were released. */
  function ReservedFreed(r: Record): set<Addr> {
    Reserved(r.cidr) - r.ips
  }

  lemma SplitIps(r: Record)
    ensures |r.ips| + |ReservedFreed(r)| == |Hosts(r)| + |Reserved(r.cidr)|
  {
    CardExchange(r.ips, Reserved(r.cidr));
  }

  lemma OneAddressHasNoHosts(r: Record)
    requires (forall a :: a in r.ips ==> Contains(r.cidr, a)) && FirstAddr(r.cidr) == LastAddr(r.cidr)
    ensures Hosts(r) == {}
  {
    forall a | a in r.ips ensures a == FirstAddr(r.cidr) {}
  }

  /** hasIPs counts hosts against released reserved addresses: it holds exactly if there are more hosts. */
  lemma {:induction false} HasIPsCounts(r: Record)
    requires forall a :: a in r.ips ==> Contains(r.cidr, a)
    ensures HasIPs(r) <==> |Hosts(r)| > |ReservedFreed(r)|
  {
    SplitIps(r);
    if FirstAddr(r.cidr) == LastAddr(r.cidr) {
      OneAddressHasNoHosts(r);
      assert Reserved(r.cidr) == {FirstAddr(r.cidr)};
    } else if r.cidr.family.V4? {
      assert |Reserved(r.cidr)| == 2;
    }
  }

  /** hasIPs tells whether a host address is held exactly if none is, or more are than reserved
      addresses were released; so always while the reserved addresses are held. */
  lemma {:induction false} HasIPsExact(r: Record)
    requires forall a :: a in r.ips ==> Contains(r.cidr, a)
    ensures (HasIPs(r) <==> Hosts(r) != {}) <==> Hosts(r) == {} || |Hosts(r)| > |ReservedFreed(r)|
    ensures Reserved(r.cidr) <= r.ips ==> (HasIPs(r) <==> Hosts(r) != {})
  {
    HasIPsCounts(r);
    if Reserved(r.cidr) <= r.ips { assert ReservedFreed(r) == {}; }
  }

  /** Releasing a reserved address hides what is held exactly if that is a single host address. */
  lemma {:induction false} ReservedReleaseHidesAHost(r: Record, freed: Addr)
    requires Reserved(r.cidr) <= r.ips && freed in Reserved(r.cidr)
    requires forall a :: a in r.ips ==> Contains(r.cidr, a)
    ensures var after := ReleaseIp(r, freed).value;
            && Hosts(after) == Hosts(r)
            && (!HasIPs(after) && Hosts(after) != {} <==> |Hosts(r)| == 1)
  {
    var after := ReleaseIp(r, freed).value;
    assert Hosts(after) == Hosts(r) && ReservedFreed(after) == {freed};
    HasIPsCounts(after);
  }

  /** How many addresses a fresh prefix hands out. */
  function Capacity(c: Cidr): nat {
    if c.family.V6? then Size(c) - 1
    else if HostBits(c) == 0 then 0
    else Size(c) - 2
  }

  /** After `k` addresses were handed out: held are the first, the `k` following it, and the reserved. */
  ghost predicate HeldUpTo(c: Cidr, ips: set<Addr>, k: nat) {
    forall b: Addr :: Contains(c, b) ==> (b in ips <==> b.value <= First(c) + k || b in Reserved(c))
  }

  /** Handing out the next address of a fresh prefix: strictly ascending, until capacity. */
  lemma DrainStep(r: Record, k: nat)
    requires !r.isParent && k <= Capacity(r.cidr) && HeldUpTo(r.cidr, r.ips, k)
    ensures k < Capacity(r.cidr) ==>
              var a := AddrAt(r.cidr, First(r.cidr) + 1 + k);
              && AcquireIp(r, None) == Ok((r.(ips := r.ips + {a}), a))
              && HeldUpTo(r.cidr, r.ips + {a}, k + 1)
    ensures k == Capacity(r.cidr) ==> AcquireIp(r, None) == Err(ErrNoIPAvailable)
  {
    var c := r.cidr;
    ScanFindsLeast(c, r.ips, First(c));
    if k < Capacity(c) {
      var a := AddrAt(c, First(c) + 1 + k);
      assert a !in r.ips && Contains(c, a);
      assert FirstFree(c, r.ips).Some? && FirstFree(c, r.ips).value.value == a.value;
    } else {
      forall b: Addr | Contains(c, b) ensures b in r.ips {
        assert b.value <= First(c) + k || (c.family.V4? && b == LastAddr(c));
      }
    }
  }
}
