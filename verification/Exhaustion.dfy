/** Using a prefix up: draining its addresses, and tiling it with children of one length. */
module Exhaustion {
  import opened Wrappers
  import opened Powers
  import opened Cidrs
  import opened FreeSpace
  import opened Counting
  import opened Records
  import opened Store
  import opened Ops
  import opened Forests

  /** `n` calls of AcquireIP in a row, with their results. */
  function AcquireMany(space: Space, c: Cidr, n: nat): (Space, seq<Result<Addr, Error>>) {
    if n == 0 then (space, [])
    else
      var (before, got) := AcquireMany(space, c, n - 1);
      var (after, last) := DoAcquireIp(before, c, None);
      (after, got + [last])
  }

  /** A prefix nobody has touched since it was created. */
  ghost predicate Fresh(space: Space, c: Cidr) {
    && c in space && space[c].cidr == c && Canonical(c) && !space[c].isParent
    && space[c].ips == Reserved(c)
  }

  ghost predicate DrainedTo(space: Space, c: Cidr, k: nat)
    requires k <= Capacity(c)
  {
    c in space && space[c].cidr == c && !space[c].isParent && HeldUpTo(c, space[c].ips, k)
  }

  lemma DrainOnce(space: Space, c: Cidr, k: nat)
    requires Canonical(c) && 0 < k <= Capacity(c) && DrainedTo(space, c, k - 1)
    ensures var (after, got) := DoAcquireIp(space, c, None);
            DrainedTo(after, c, k) && got == Ok(AddrAt(c, First(c) + k))
  {
    DrainStep(space[c], k - 1);
    UpdateNow(space, AcquireIp(space[c], None).value.0);
  }

  lemma FreshIsUndrained(space: Space, c: Cidr)
    requires Fresh(space, c)
    ensures DrainedTo(space, c, 0)
  {
    forall b: Addr | Contains(c, b) && b.value <= First(c) ensures b == FirstAddr(c) {}
  }

  /** After `k` calls. */
  ghost predicate DrainedBy(run: (Space, seq<Result<Addr, Error>>), c: Cidr, k: nat)
    requires k <= Capacity(c)
  {
    && DrainedTo(run.0, c, k) && |run.1| == k
    && forall i :: 0 <= i < k ==> run.1[i] == Ok(AddrAt(c, First(c) + 1 + i))
  }

  lemma DrainRunOnce(run: (Space, seq<Result<Addr, Error>>), c: Cidr, k: nat)
    requires Canonical(c) && 0 < k <= Capacity(c) && DrainedBy(run, c, k - 1)
    ensures var next := DoAcquireIp(run.0, c, None);
            DrainedBy((next.0, run.1 + [next.1]), c, k)
  {
    DrainOnce(run.0, c, k);
  }

  lemma {:induction false} DrainedSoFar(space: Space, c: Cidr, k: nat)
    requires Fresh(space, c) && k <= Capacity(c)
    ensures DrainedBy(AcquireMany(space, c, k), c, k)
    decreases k
  {
    if k == 0 {
      FreshIsUndrained(space, c);
    } else {
      DrainedSoFar(space, c, k - 1);
      DrainRunOnce(AcquireMany(space, c, k - 1), c, k);
    }
  }

  /** Draining: a fresh prefix yields exactly its capacity of addresses in strictly ascending order,
      and then the no-address error. */
  lemma Draining(space: Space, c: Cidr)
    requires Fresh(space, c)
    ensures var (after, got) := AcquireMany(space, c, Capacity(c));
            && |got| == Capacity(c)
            && (forall i :: 0 <= i < |got| ==> got[i] == Ok(AddrAt(c, First(c) + 1 + i)))
            && DoAcquireIp(after, c, None) == (after, Err(ErrNoIPAvailable))
  {
    DrainedSoFar(space, c, Capacity(c));
    var after := AcquireMany(space, c, Capacity(c)).0;
    DrainStep(after[c], Capacity(c));
  }

  /** One more call of AcquireChildPrefix after a run of them. */
  function AcquireOneMore(run: (Space, seq<Result<Record, Error>>), p: Cidr, length: nat)
    : (Space, seq<Result<Record, Error>>) {
    var (after, last) := DoAcquireChild(run.0, p, OfLength(length));
    (after, run.1 + [last])
  }

  /** `n` calls of AcquireChildPrefix with one length, with their results. */
  function AcquireChildren(space: Space, p: Cidr, length: nat, n: nat): (Space, seq<Result<Record, Error>>) {
    if n == 0 then (space, []) else AcquireOneMore(AcquireChildren(space, p, length, n - 1), p, length)
  }

  /** All taken children of `p` have the given length. */
  ghost predicate Tiled(space: Space, p: Cidr, length: nat)
    requires p.bits <= length <= Width(p.family)
  {
    && Forest(space) && p in space && !HasIPs(space[p])
    && Taken(space[p].children) <= AllBlocks(p, length)
  }

  lemma FreeTile(space: Space, p: Cidr, length: nat) returns (q: Cidr)
    requires p.bits < length <= Width(p.family) && Tiled(space, p, length)
    requires |Taken(space[p].children)| < Pow2(length - p.bits)
    ensures q.bits == length && FreeBlockIn(q, p, Taken(space[p].children))
  {
    var taken, all := Taken(space[p].children), AllBlocks(p, length);
    AllBlocksCount(p, length);
    q := Missing(taken, all);
    AllBlocksExact(p, length, q);
    forall c | c in taken ensures !Overlaps(c, q) {
      AllBlocksExact(p, length, c);
      Geometry(c, q);
    }
  }

  lemma TileMore(space: Space, p: Cidr, length: nat)
    requires p.bits < length <= Width(p.family) && Tiled(space, p, length)
    requires |Taken(space[p].children)| < Pow2(length - p.bits)
    ensures var (after, got) := DoAcquireChild(space, p, OfLength(length));
            && got.Ok? && Tiled(after, p, length) && got.value.cidr !in Taken(space[p].children)
            && Taken(after[p].children) == Taken(space[p].children) + {got.value.cidr}
  {
    SelectTile(space, p, length);
    AcquiredState(space, p, OfLength(length));
    AcquireChildStores(space, p, OfLength(length));
    var c := DoMark(space, p, OfLength(length)).1.value;
    assert NewRecord(c, Some(p)).cidr == c;
  }

  /** There is a free tile to select. */
  lemma SelectTile(space: Space, p: Cidr, length: nat)
    requires p.bits < length <= Width(p.family) && Tiled(space, p, length)
    requires |Taken(space[p].children)| < Pow2(length - p.bits)
    ensures Masked(p) == p
    ensures var marked := DoMark(space, p, OfLength(length)).1;
            marked.Ok? && Canonical(marked.value) && marked.value in AllBlocks(p, length)
  {
    var want := OfLength(length);
    assert StoredOk(space, p);
    var q := FreeTile(space, p, length);
    SelectChildExact(space[p], want);
    SelectedChildIsFree(space[p], want);
    UpdateNow(space, AcquireChild(space[p], want).value.0);
    AllBlocksExact(p, length, SelectChild(space[p], want).value);
  }

  /** The prefixes of the children granted. */
  function Granted(got: seq<Result<Record, Error>>): set<Cidr> {
    if got == [] then {}
    else
      var last := got[|got| - 1];
      Granted(got[..|got| - 1]) + if last.Ok? then {last.value.cidr} else {}
  }

  lemma GrantedMore(got: seq<Result<Record, Error>>, last: Result<Record, Error>)
    requires last.Ok?
    ensures Granted(got + [last]) == Granted(got) + {last.value.cidr}
  {
    assert (got + [last])[..|got|] == got;
  }

  /** After `n` successful requests. */
  ghost predicate TiledBy(run: (Space, seq<Result<Record, Error>>), p: Cidr, length: nat, n: nat)
    requires p.bits <= length <= Width(p.family)
  {
    && Tiled(run.0, p, length) && |Taken(run.0[p].children)| == n == |run.1|
    && (forall g :: g in run.1 ==> g.Ok?)
    && Taken(run.0[p].children) == Granted(run.1)
  }

  lemma TileOnce(run: (Space, seq<Result<Record, Error>>), p: Cidr, length: nat, n: nat)
    requires p.bits < length <= Width(p.family) && TiledBy(run, p, length, n) && n < Pow2(length - p.bits)
    ensures TiledBy(AcquireOneMore(run, p, length), p, length, n + 1)
  {
    TileMore(run.0, p, length);
    GrantedMore(run.1, DoAcquireChild(run.0, p, OfLength(length)).1);
  }

  lemma NothingGranted(space: Space, p: Cidr, length: nat)
    requires p.bits < length <= Width(p.family) && Tiled(space, p, length) && Taken(space[p].children) == {}
    ensures TiledBy((space, []), p, length, 0)
  {
  }

  lemma {:induction false} TilesSoFar(space: Space, p: Cidr, length: nat, n: nat)
    requires p.bits < length <= Width(p.family) && n <= Pow2(length - p.bits)
    requires TiledBy((space, []), p, length, 0)
    ensures TiledBy(AcquireChildren(space, p, length, n), p, length, n)
    decreases n
  {
    if n > 0 {
      var before := AcquireChildren(space, p, length, n - 1);
      assert AcquireChildren(space, p, length, n) == AcquireOneMore(before, p, length);
      TilesSoFar(space, p, length, n - 1);
      TileOnce(before, p, length, n - 1);
    }
  }

  /** Tiling: from a parent without children exactly 2^(length - parent length) requests for children
      of the length succeed, the children tile the parent, and the next request fails. */
  lemma Tiling(space: Space, p: Cidr, length: nat)
    requires p.bits < length <= Width(p.family)
    requires Forest(space) && p in space && !HasIPs(space[p]) && Taken(space[p].children) == {}
    ensures var (after, got) := AcquireChildren(space, p, length, Pow2(length - p.bits));
            && (forall g :: g in got ==> g.Ok?) && |got| == Pow2(length - p.bits)
            && Granted(got) == AllBlocks(p, length)
            && DoAcquireChild(after, p, OfLength(length)) == (after, Err(ErrNoFreePrefix))
  {
    var n := Pow2(length - p.bits);
    NothingGranted(space, p, length);
    TilesSoFar(space, p, length, n);
    var after := AcquireChildren(space, p, length, n).0;
    var taken := Taken(after[p].children);
    AllBlocksCount(p, length);
    CardSubset(taken, AllBlocks(p, length));
    assert StoredOk(after, p);
    NoTileLeft(p, length);
    SelectChildExact(after[p], OfLength(length));
    BestFitNone(p, taken, length);
  }

  lemma NoTileLeft(p: Cidr, length: nat)
    requires p.bits < length <= Width(p.family)
    ensures forall q: Cidr :: q.bits == length ==> !FreeBlockIn(q, p, AllBlocks(p, length))
  {
    forall q: Cidr | q.bits == length ensures !FreeBlockIn(q, p, AllBlocks(p, length)) {
      AllBlocksExact(p, length, q);
      Geometry(q, q);
    }
  }

  lemma BestFitNone(p: Cidr, taken: set<Cidr>, length: nat)
    requires p.bits < length <= Width(p.family)
    requires forall q: Cidr :: q.bits == length ==> !FreeBlockIn(q, p, taken)
    ensures BestFit(FreeBlocks(p, taken), length).None?
  {
    SelectionExact(p, taken, length);
  }
}
