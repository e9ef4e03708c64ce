/** The local edit a request makes on its snapshot of a record, and when an older snapshot does the
    same as the record stored now. */
module Edits {
  import opened Wrappers
  import opened Cidrs
  import opened Counting
  import opened Records
  import opened Store
  import opened Ops

  /** What a call was granted: by a committed write, by creating a prefix, or by deleting one. */
  datatype Grant =
    | GotIp(ip: Addr) | FreedIp(ip: Addr)
    | GotChild(child: Cidr) | FreedChild(child: Cidr)
    | Born | Gone

  /** The record a call reads and writes. */
  function Target(q: Request): Cidr {
    match q
    case ReqAcquireIp(c, _) => Masked(c)
    case ReqReleaseIp(c, _) => Masked(c)
    case ReqAcquireChild(p, _) => Masked(p)
    case ReqReleaseChild(copy) => if copy.parentCidr.None? then Masked(copy.cidr) else Masked(copy.parentCidr.value)
    case ReqNewPrefix(c) => Masked(c)
    case ReqDelete(c) => Masked(c)
  }

  /** Requests that read a record, edit it and write it back. */
  predicate IsEdit(q: Request) {
    q.ReqAcquireIp? || q.ReqReleaseIp? || q.ReqAcquireChild? || (q.ReqReleaseChild? && q.copy.parentCidr.Some?)
  }

  /** The local edit of a snapshot. */
  function EditOf(q: Request, snap: Record): Result<(Record, Grant), Error> {
    match q
    case ReqAcquireIp(_, want) =>
      (match AcquireIp(snap, want) case Ok((r, ip)) => Ok((r, GotIp(ip))) case Err(e) => Err(e))
    case ReqReleaseIp(_, ip) =>
      (match ReleaseIp(snap, ip) case Ok(r) => Ok((r, FreedIp(ip))) case Err(e) => Err(e))
    case ReqAcquireChild(_, want) =>
      (match AcquireChild(snap, want) case Ok((r, c)) => Ok((r, GotChild(c))) case Err(e) => Err(e))
    case ReqReleaseChild(copy) =>
      (match ReleaseChild(snap, copy.cidr, |copy.ips|)
       case Ok(r) => Ok((r, FreedChild(copy.cidr))) case Err(e) => Err(e))
    case ReqNewPrefix(_) => Err(ErrNotFound)
    case ReqDelete(_) => Err(ErrNotFound)
  }

  /** A local edit keeps the record good and its identity. */
  lemma EditKeepsRecord(q: Request, snap: Record)
    requires RecordOk(snap) && EditOf(q, snap).Ok?
    ensures var r := EditOf(q, snap).value.0;
            && RecordOk(r) && RecordOk(Bump(r)) && r.cidr == snap.cidr && r.version == snap.version
            && r.parentCidr == snap.parentCidr && (snap.isParent ==> r.isParent)
  {
    match q {
      case ReqAcquireIp(_, want) => AcquireIpOk(snap, want);
      case ReqReleaseIp(_, ip) => ReleaseIpOk(snap, ip);
      case ReqAcquireChild(_, want) => AcquireChildOk(snap, want);
      case ReqReleaseChild(copy) => ReleaseChildOk(snap, copy.cidr, |copy.ips|);
      case _ =>
    }
    BumpOk(EditOf(q, snap).value.0);
  }

  lemma EditKeepsName(q: Request, snap: Record)
    requires EditOf(q, snap).Ok?
    ensures var r := EditOf(q, snap).value.0; r.cidr == snap.cidr && r.version == snap.version
  {
  }

  lemma BumpOk(r: Record)
    requires RecordOk(r)
    ensures RecordOk(Bump(r))
  {
  }

  function WithoutChild(r: Record, c: Cidr): Record {
    r.(children := r.children - {c})
  }

  /** The snapshot and the stored record agree on all that matters for the grant: for an address on
      everything, for a child on everything but the entry of that child, which must not be taken, and
      but the parent flag that taking a child sets anyway. */
  predicate Matches(g: Grant, snap: Record, now: Record) {
    match g
    case GotChild(c) =>
      && WithoutChild(snap, c).(isParent := true) == WithoutChild(now, c).(isParent := true)
      && c !in Taken(now.children)
    case FreedChild(c) => WithoutChild(snap, c) == WithoutChild(now, c)
    case _ => snap == now
  }

  lemma SameIsMatch(q: Request, snap: Record)
    requires EditOf(q, snap).Ok?
    ensures Matches(EditOf(q, snap).value.1, snap, snap)
  {
    if q.ReqAcquireChild? { SelectedIsNotTaken(snap, q.child); }
  }

  lemma SelectedIsNotTaken(r: Record, want: ChildRequest)
    requires SelectChild(r, want).Ok?
    ensures SelectChild(r, want).value !in Taken(r.children)
  {
    var c := SelectChild(r, want).value;
    SelectedChildIsFree(r, want);
    Geometry(c, c);
  }

  /** An address edit and its grant determine the record edited. */
  lemma IpEditUndone(q: Request, snap: Record)
    requires (q.ReqAcquireIp? || q.ReqReleaseIp?) && EditOf(q, snap).Ok?
    ensures var (r, g) := EditOf(q, snap).value;
            && (q.ReqAcquireIp? ==> g.GotIp? && snap == r.(ips := r.ips - {g.ip}))
            && (q.ReqReleaseIp? ==> g.FreedIp? && snap == r.(ips := r.ips + {g.ip}))
  {
    var (r, g) := EditOf(q, snap).value;
    if q.ReqAcquireIp? {
      AcquireIpExact(snap, q.want);
      assert r.ips - {g.ip} == snap.ips;
    } else {
      assert r.ips + {g.ip} == snap.ips;
    }
  }

  lemma IpEditMatches(q: Request, snap: Record, now: Record)
    requires (q.ReqAcquireIp? || q.ReqReleaseIp?) && EditOf(q, snap).Ok?
    ensures EditOf(q, now) == EditOf(q, snap) <==> now == snap
  {
    IpEditUndone(q, snap);
    if EditOf(q, now) == EditOf(q, snap) { IpEditUndone(q, now); }
  }

  lemma SetOverwrites(a: map<Cidr, bool>, b: map<Cidr, bool>, c: Cidr, v: bool)
    ensures a[c := v] == b[c := v] <==> a - {c} == b - {c}
  {
    if a[c := v] == b[c := v] { assert a - {c} == a[c := v] - {c} && b - {c} == b[c := v] - {c}; }
    if a - {c} == b - {c} { assert a[c := v] == (a - {c})[c := v] && b[c := v] == (b - {c})[c := v]; }
  }

  /** Two records that differ only in one untaken entry select the same child. */
  lemma SameSelection(snap: Record, now: Record, want: ChildRequest, c: Cidr)
    requires snap.cidr == now.cidr && snap.ips == now.ips && snap.children - {c} == now.children - {c}
    requires c !in Taken(snap.children) && c !in Taken(now.children)
    ensures SelectChild(snap, want) == SelectChild(now, want)
  {
    forall d ensures d in Taken(snap.children) <==> d in Taken(now.children) {
      assert d in snap.children - {c} <==> d in now.children - {c};
      if d != c && d in snap.children { assert (snap.children - {c})[d] == (now.children - {c})[d]; }
    }
    assert Taken(snap.children) == Taken(now.children);
  }

  lemma AcquireChildMatches(q: Request, snap: Record, now: Record)
    requires q.ReqAcquireChild? && EditOf(q, snap).Ok?
    ensures EditOf(q, now) == EditOf(q, snap) <==> Matches(EditOf(q, snap).value.1, snap, now)
  {
    var (r, g) := EditOf(q, snap).value;
    var c := g.child;
    SelectedIsNotTaken(snap, q.child);
    SetOverwrites(snap.children, now.children, c, false);
    if Matches(g, snap, now) {
      SameSelection(snap, now, q.child, c);
    }
    if EditOf(q, now) == EditOf(q, snap) {
      SelectedIsNotTaken(now, q.child);
      assert r == now.(children := now.children[c := false], isParent := true);
    }
  }

  lemma ReleaseChildMatches(q: Request, snap: Record, now: Record)
    requires q.ReqReleaseChild? && EditOf(q, snap).Ok?
    ensures EditOf(q, now) == EditOf(q, snap) <==> Matches(EditOf(q, snap).value.1, snap, now)
  {
    var c := q.copy.cidr;
    SetOverwrites(snap.children, now.children, c, true);
  }

  /** An edit of the snapshot yields record and grant as the same edit of the stored record would,
      exactly if the two match for the grant. */
  lemma MatchesIff(q: Request, snap: Record, now: Record)
    requires EditOf(q, snap).Ok?
    ensures EditOf(q, now) == EditOf(q, snap) <==> Matches(EditOf(q, snap).value.1, snap, now)
  {
    match q
    case ReqAcquireIp(_, _) => IpEditMatches(q, snap, now);
    case ReqReleaseIp(_, _) => IpEditMatches(q, snap, now);
    case ReqAcquireChild(_, _) => AcquireChildMatches(q, snap, now);
    case ReqReleaseChild(_) => ReleaseChildMatches(q, snap, now);
    case _ =>
  }
}
