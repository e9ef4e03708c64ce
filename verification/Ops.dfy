/** The allocator's operations on one namespace, run alone, as functions of the stored records. */
module Ops {
  import opened Wrappers
  import opened Cidrs
  import opened Records
  import opened Store
  import opened Json

  /** An edited snapshot goes back into the store with a conditional update. */
  function Commit(space: Space, r: Record): (Space, Result<(), Error>) {
    match Update(space, r)
    case Ok(after) => (after, Ok(()))
    case Err(e) => (space, Err(e))
  }

  function DoAcquireIp(space: Space, cidr: Cidr, want: Option<Addr>): (Space, Result<Addr, Error>) {
    if Masked(cidr) !in space then (space, Err(ErrNotFound))
    else
      match AcquireIp(space[Masked(cidr)], want)
      case Err(e) => (space, Err(e))
      case Ok((r, ip)) =>
        match Update(space, r)
        case Err(e) => (space, Err(e))
        case Ok(after) => (after, Ok(ip))
  }

  function DoReleaseIp(space: Space, cidr: Cidr, ip: Addr): (Space, Result<(), Error>) {
    if Masked(cidr) !in space then (space, Err(ErrNotFound))
    else
      match ReleaseIp(space[Masked(cidr)], ip)
      case Err(e) => (space, Err(e))
      case Ok(r) => Commit(space, r)
  }

  predicate Clashes(space: Space, cidr: Cidr) {
    exists c :: c in space && Overlaps(c, cidr)
  }

  function DoNewPrefix(space: Space, cidr: Cidr): (Space, Result<Record, Error>) {
    if Clashes(space, Masked(cidr)) then (space, Err(ErrOverlap))
    else
      match Create(space, NewRecord(cidr, None))
      case Err(e) => (space, Err(e))
      case Ok(after) => (after, Ok(NewRecord(cidr, None)))
  }

  function DoDelete(space: Space, cidr: Cidr): (Space, Result<Record, Error>) {
    if Masked(cidr) !in space then (space, Err(ErrNotFound))
    else
      var r := space[Masked(cidr)];
      if HasIPs(r) then (space, Err(ErrHasIPs)) else (Remove(space, r.cidr), Ok(r))
  }

  /** First half of acquiring a child: select it, mark it taken in the parent, write the parent. */
  function DoMark(space: Space, parent: Cidr, want: ChildRequest): (Space, Result<Cidr, Error>) {
    if Masked(parent) !in space then (space, Err(ErrNotFound))
    else
      match AcquireChild(space[Masked(parent)], want)
      case Err(e) => (space, Err(e))
      case Ok((r, child)) =>
        match Update(space, r)
        case Err(e) => (space, Err(e))
        case Ok(marked) => (marked, Ok(child))
  }

  /** Second half: store the child's record. */
  function DoCreate(space: Space, child: Cidr, parent: Cidr): (Space, Result<Record, Error>) {
    match Create(space, NewRecord(child, Some(parent)))
    case Err(e) => (space, Err(e))
    case Ok(after) => (after, Ok(NewRecord(child, Some(parent))))
  }

  /** The parent is written first; if the child then cannot be created, the mark stays. */
  function DoAcquireChild(space: Space, parent: Cidr, want: ChildRequest): (Space, Result<Record, Error>) {
    var (marked, child) := DoMark(space, parent, want);
    if child.Err? then (marked, Err(child.error)) else DoCreate(marked, child.value, parent)
  }

  /** First half of releasing a child: mark it available in the parent named by the caller's copy. */
  function DoUnmark(space: Space, child: Record): (Space, Result<(), Error>) {
    if child.parentCidr.None? || Masked(child.parentCidr.value) !in space then (space, Err(ErrNotFound))
    else
      match ReleaseChild(space[Masked(child.parentCidr.value)], child.cidr, |child.ips|)
      case Err(e) => (space, Err(e))
      case Ok(r) => Commit(space, r)
  }

  /** The parent is written before the stored child is looked at. */
  function DoReleaseChild(space: Space, child: Record): (Space, Result<(), Error>) {
    var (unmarked, done) := DoUnmark(space, child);
    if done.Err? then (unmarked, done)
    else
      var (after, deleted) := DoDelete(unmarked, child.cidr);
      (after, if deleted.Ok? then Ok(()) else Err(deleted.error))
  }

  datatype Request =
    | ReqAcquireIp(cidr: Cidr, want: Option<Addr>)
    | ReqReleaseIp(cidr: Cidr, ip: Addr)
    | ReqAcquireChild(parent: Cidr, child: ChildRequest)
    | ReqReleaseChild(copy: Record)
    | ReqNewPrefix(cidr: Cidr)
    | ReqDelete(cidr: Cidr)

  function Apply(space: Space, q: Request): Space {
    match q
    case ReqAcquireIp(c, want) => DoAcquireIp(space, c, want).0
    case ReqReleaseIp(c, ip) => DoReleaseIp(space, c, ip).0
    case ReqAcquireChild(c, want) => DoAcquireChild(space, c, want).0
    case ReqReleaseChild(copy) => DoReleaseChild(space, copy).0
    case ReqNewPrefix(c) => DoNewPrefix(space, c).0
    case ReqDelete(c) => DoDelete(space, c).0
  }

  function ApplyAll(space: Space, qs: seq<Request>): Space {
    if qs == [] then space else Apply(ApplyAll(space, qs[..|qs| - 1]), qs[|qs| - 1])
  }

  /** Create the records one by one, stopping at the first that exists already. */
  function LoadFrom(space: Space, rs: seq<Record>): (Space, Result<(), Error>)
    decreases |rs|
  {
    if rs == [] then (space, Ok(()))
    else
      match Create(space, rs[0])
      case Err(e) => (space, Err(e))
      case Ok(after) => LoadFrom(after, rs[1..])
  }

  /** Load refuses a namespace with prefixes. */
  function DoLoad(space: Space, dump: seq<PrefixJson>): (Space, Result<(), Error>) {
    if space != map[] then (space, Err(ErrPrefixesExist)) else LoadFrom(map[], Decoded(dump))
  }

  function NormalisedSpace(space: Space): Space {
    map c | c in space :: Normalised(space[c])
  }

  lemma {:induction false} LoadFromLists(before: seq<Record>, done: Space, rs: seq<Record>)
    requires Lists(before, done)
    requires forall i, j :: 0 <= i < j < |before + rs| ==> (before + rs)[i].cidr != (before + rs)[j].cidr
    ensures LoadFrom(done, rs).1 == Ok(())
    ensures Lists(before + rs, LoadFrom(done, rs).0)
    decreases |rs|
  {
    if rs == [] {
      assert before + rs == before;
    } else {
      assert rs[0] == (before + rs)[|before|];
      assert forall i :: 0 <= i < |before| ==> before[i] == (before + rs)[i];
      ListsAppend(before, done, rs[0]);
      assert before + rs == (before + [rs[0]]) + rs[1..];
      LoadFromLists(before + [rs[0]], With(done, rs[0]), rs[1..]);
    }
  }

  /** Dump, then Load into an emptied namespace: in whatever order the records were dumped, the
      normalised records come back, and those are the old ones exactly if all were normal. */
  lemma DumpThenLoad(space: Space, rs: seq<Record>)
    requires Lists(rs, space) && Keyed(space)
    ensures DoLoad(map[], Encoded(rs)) == (NormalisedSpace(space), Ok(()))
    ensures NormalisedSpace(space) == space <==> forall c :: c in space ==> Normal(space[c])
  {
    LoadNormalised(space, rs, Decoded(Encoded(rs)));
    NormalisedSpaceSame(space);
  }

  lemma NormalisedLists(space: Space, rs: seq<Record>, ds: seq<Record>)
    requires Lists(rs, space)
    requires |ds| == |rs| && forall i :: 0 <= i < |rs| ==> ds[i] == Normalised(rs[i])
    ensures Lists(ds, NormalisedSpace(space))
  {
    forall c | c in space
      ensures exists i :: 0 <= i < |ds| && ds[i].cidr == c
    {
      var i :| 0 <= i < |rs| && rs[i].cidr == c;
      assert ds[i].cidr == c;
    }
  }

  lemma {:induction false} LoadNormalised(space: Space, rs: seq<Record>, ds: seq<Record>)
    requires Lists(rs, space) && Keyed(space)
    requires |ds| == |rs| && forall i :: 0 <= i < |rs| ==> ds[i] == Normalised(rs[i])
    ensures LoadFrom(map[], ds) == (NormalisedSpace(space), Ok(()))
  {
    assert forall i :: 0 <= i < |rs| ==> ds[i].cidr == rs[i].cidr;
    assert [] + ds == ds;
    LoadFromLists([], map[], ds);
    NormalisedLists(space, rs, ds);
    ListsUnique(ds, LoadFrom(map[], ds).0, NormalisedSpace(space));
  }

  lemma NormalisedSpaceSame(space: Space)
    ensures NormalisedSpace(space) == space <==> forall c :: c in space ==> Normal(space[c])
  {
    forall c | c in space
      ensures NormalisedSpace(space)[c] == space[c] <==> Normal(space[c])
    {
      RecordRoundTrip(space[c]);
    }
  }
}
