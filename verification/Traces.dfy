/** What holds of every run of the protocol, whatever calls are made and however they interleave. */
module Traces {
  import opened Wrappers
  import opened Cidrs
  import opened FreeSpace
  import opened Counting
  import opened Records
  import opened Store
  import opened Ops
  import opened Edits
  import opened Json
  import opened Effects
  import opened Protocol

  /** What any interleaving leaves is given back exactly by Dump and Load. */
  lemma {:induction false} StatesComeBack(steps: seq<Step>, rs: seq<Record>)
    requires Lists(rs, After(steps).space)
    ensures DoLoad(map[], Encoded(rs)) == (After(steps).space, Ok(()))
  {
    AlwaysInv(steps);
    var space := After(steps).space;
    forall c | c in space ensures GoodAt(space, c) { assert LifeOk(c, After(steps).hist[c]); }
    GoodComesBack(space, rs);
  }

  /** In its current life `c` was never overwritten by a snapshot that no longer matched it. */
  predicate Untainted(s: State, c: Cidr) {
    c in s.hist && !s.hist[c].tainted
  }

  /** Every stored record and every snapshot a call is about to write is good: taken children apart
      and strictly inside, addresses in range, never both parent and holder of addresses. */
  lemma {:induction false} RecordsStayGood(steps: seq<Step>)
    ensures var s := After(steps);
            && (forall c :: c in s.space ==> s.space[c].cidr == c && RecordOk(s.space[c]))
            && (forall k :: k in s.calls && s.calls[k].Writing? ==> RecordOk(s.calls[k].snap))
  {
    AlwaysInv(steps);
    var s := After(steps);
    forall c | c in s.space ensures s.space[c].cidr == c && RecordOk(s.space[c]) { assert LifeOk(c, s.hist[c]); }
    forall k | k in s.calls && s.calls[k].Writing? ensures RecordOk(s.calls[k].snap) {
      assert CallOk(k, s.calls[k], s.hist);
    }
  }

  /** A prefix that was never created a second time is untainted. */
  lemma {:induction false} FirstLifeIsUntainted(steps: seq<Step>, c: Cidr)
    requires c in After(steps).hist && After(steps).hist[c].number <= 1
    ensures Untainted(After(steps), c)
  {
    AlwaysInv(steps);
    assert LifeOk(c, After(steps).hist[c]);
  }

  /** The flag is exact: a life is untainted exactly if each of its records is what its request makes
      of the record before. */
  lemma {:induction false} UntaintedIffChain(steps: seq<Step>, c: Cidr)
    requires c in After(steps).hist
    ensures Untainted(After(steps), c) <==> Chain(After(steps).hist[c].log)
  {
    AlwaysInv(steps);
    assert LifeOk(c, After(steps).hist[c]);
  }

  /** The committed requests of a life, run one after another, each alone, from the new record. */
  function Replay(c: Cidr, parentCidr: Option<Cidr>, reqs: seq<Request>): Result<Record, Error> {
    if reqs == [] then Ok(NewRecord(c, parentCidr))
    else
      match Replay(c, parentCidr, reqs[..|reqs| - 1])
      case Err(e) => Err(e)
      case Ok(before) =>
        match EditOf(reqs[|reqs| - 1], before)
        case Err(e) => Err(e)
        case Ok((r, _)) => Ok(Bump(r))
  }

  function Requests(log: seq<Entry>): seq<Request> {
    seq(|log|, i requires 0 <= i < |log| => log[i].req)
  }

  lemma {:induction false} LogReplays(log: seq<Entry>, n: nat)
    requires n < |log| && Chain(log) && IsBirth(log[0])
    ensures Replay(log[0].record.cidr, log[0].record.parentCidr, Requests(log[1..n + 1])) == Ok(log[n].record)
  {
    var reqs := Requests(log[1..n + 1]);
    if n > 0 {
      LogReplays(log, n - 1);
      assert reqs[..n - 1] == Requests(log[1..n]);
      assert reqs[n - 1] == log[n].req;
      assert Follows(log[n - 1].record, log[n]);
    }
  }

  /** No update is lost: the stored record is what the committed requests yield one by one. */
  lemma {:induction false} StoredIsReplayed(steps: seq<Step>, c: Cidr)
    requires var s := After(steps); c in s.space && Untainted(s, c)
    ensures var s := After(steps);
            && c in s.hist && s.hist[c].log != []
            && Replay(c, s.space[c].parentCidr, Requests(s.hist[c].log[1..])) == Ok(s.space[c])
            && s.space[c].version == |s.hist[c].log| - 1
  {
    AlwaysInv(steps);
    LifeReplays(c, After(steps).hist[c]);
  }

  lemma LifeReplays(c: Cidr, h: Life)
    requires LifeOk(c, h) && !h.tainted
    ensures var last := h.log[|h.log| - 1].record;
            Replay(c, last.parentCidr, Requests(h.log[1..])) == Ok(last) && last.version == |h.log| - 1
  {
    LogReplays(h.log, |h.log| - 1);
    assert h.log[1..|h.log|] == h.log[1..];
    ParentKept(h.log, |h.log| - 1);
  }

  lemma {:induction false} ParentKept(log: seq<Entry>, n: nat)
    requires n < |log| && Chain(log) && forall v :: 0 <= v < |log| ==> RecordOk(log[v].record)
    ensures log[n].record.parentCidr == log[0].record.parentCidr
  {
    if n > 0 {
      ParentKept(log, n - 1);
      assert Follows(log[n - 1].record, log[n]);
      EditKeepsRecord(log[n].req, log[n - 1].record);
    }
  }

  /** One request on one record of the store as a single atomic step: an IP operation, or the half of
      a child operation that edits the parent. */
  function Atomically(space: Space, q: Request): (Space, Result<Grant, Error>)
    requires IsEdit(q)
  {
    match q
    case ReqAcquireIp(c, want) =>
      var (after, out) := DoAcquireIp(space, c, want);
      (after, if out.Ok? then Ok(GotIp(out.value)) else Err(out.error))
    case ReqReleaseIp(c, ip) =>
      var (after, out) := DoReleaseIp(space, c, ip);
      (after, if out.Ok? then Ok(FreedIp(ip)) else Err(out.error))
    case ReqAcquireChild(p, want) =>
      var (after, out) := DoMark(space, p, want);
      (after, if out.Ok? then Ok(GotChild(out.value)) else Err(out.error))
    case ReqReleaseChild(copy) =>
      var (after, out) := DoUnmark(space, copy);
      (after, if out.Ok? then Ok(FreedChild(copy.cidr)) else Err(out.error))
  }

  lemma EditIsAtomic(space: Space, q: Request)
    requires Target(q) in space && space[Target(q)].cidr == Target(q) && IsEdit(q)
    ensures match EditOf(q, space[Target(q)])
            case Ok((r, g)) => Atomically(space, q) == (With(space, Bump(r)), Ok(g))
            case Err(e) => Atomically(space, q) == (space, Err(e))
  {
    if EditOf(q, space[Target(q)]).Ok? { EditKeepsName(q, space[Target(q)]); }
  }

  /** A write on a store with the snapshot's version acts as the atomic request, with the same grant,
      exactly if snapshot and stored record match for the grant. */
  lemma WriteIsAtomicIff(space: Space, q: Request, snap: Record)
    requires IsEdit(q) && Target(q) in space && snap.cidr == space[Target(q)].cidr == Target(q)
    requires snap.version == space[Target(q)].version && EditOf(q, snap).Ok?
    ensures var (r, g) := EditOf(q, snap).value;
            Atomically(space, q) == (With(space, Bump(r)), Ok(g)) <==> Matches(g, snap, space[Target(q)])
  {
    var now := space[Target(q)];
    var (r, g) := EditOf(q, snap).value;
    EditIsAtomic(space, q);
    MatchesIff(q, snap, now);
    EditKeepsName(q, snap);
    if EditOf(q, now).Ok? {
      var (r', g') := EditOf(q, now).value;
      EditKeepsName(q, now);
      assert With(space, Bump(r))[Target(q)] == Bump(r) && With(space, Bump(r'))[Target(q)] == Bump(r');
    }
  }

  lemma CommittedIsWritten(s: State, k: CallId, c: Call, r: Record, g: Grant)
    requires c.Writing? && r.cidr in s.space
    ensures Committed(s, k, c, r, g).space == With(s.space, Bump(r))
  {
  }

  lemma CommitMatches(s: State, k: CallId, c: Call, r: Record, g: Grant)
    requires Inv(s) && k in s.calls && c == s.calls[k] && c.Writing?
    requires EditOf(c.req, c.snap) == Ok((r, g)) && Update(s.space, r).Ok?
    ensures IsEdit(c.req) && Target(c.req) in s.space
    ensures var t := Target(c.req);
            && (Atomically(s.space, c.req) == (Committed(s, k, c, r, g).space, Ok(g))
                <==> Matches(g, c.snap, s.space[t]))
            && (c.life == LifeNumber(s, t) ==> Matches(g, c.snap, s.space[t]))
  {
    CommittedIsWritten(s, k, c, r, g);
    CommitMeetsVersion(s, k, c, r, g);
    WriteIsAtomicIff(s.space, c.req, c.snap);
    SameIsMatch(c.req, c.snap);
  }

  lemma CommitMeetsVersion(s: State, k: CallId, c: Call, r: Record, g: Grant)
    requires Inv(s) && k in s.calls && c == s.calls[k] && c.Writing?
    requires EditOf(c.req, c.snap) == Ok((r, g)) && Update(s.space, r).Ok?
    ensures var t := Target(c.req);
            && IsEdit(c.req) && t in s.space && c.snap.cidr == t && s.space[t].cidr == t
            && c.snap.version == s.space[t].version && (c.life == LifeNumber(s, t) ==> c.snap == s.space[t])
  {
    CommitMeets(s, k, c, r, g);
    EditKeepsName(c.req, c.snap);
    assert CallOk(k, c, s.hist);
  }

  /** A write step changes the store only by committing. The commit is the request done in one atomic
      step on the store as it is now, with the same grant, exactly if the snapshot matches the stored
      record; and it does if it was read in the life the prefix is in. */
  lemma {:induction false} CommitIsAtomic(steps: seq<Step>, k: CallId)
    ensures var s, s' := After(steps), Exec(After(steps), Go(k));
            k in s.calls && s.calls[k].Writing? ==>
              var c, t := s.calls[k], Target(s.calls[k].req);
              && IsEdit(c.req) && (s'.commits == s.commits ==> s'.space == s.space)
              && (s'.commits != s.commits ==>
                    && EditOf(c.req, c.snap).Ok? && t in s.space
                    && var g := EditOf(c.req, c.snap).value.1;
                    && (Atomically(s.space, c.req) == (s'.space, Ok(g)) <==> Matches(g, c.snap, s.space[t]))
                    && (c.life == LifeNumber(s, t) ==> Matches(g, c.snap, s.space[t])))
  {
    AlwaysInv(steps);
    var s := After(steps);
    if k in s.calls && s.calls[k].Writing? { WriteIsAtomic(s, k, s.calls[k]); }
  }

  lemma WriteIsAtomic(s: State, k: CallId, c: Call)
    requires Inv(s) && k in s.calls && c == s.calls[k] && c.Writing?
    ensures var s', t := Exec(s, Go(k)), Target(c.req);
            && IsEdit(c.req) && (s'.commits == s.commits ==> s'.space == s.space)
            && (s'.commits != s.commits ==>
                  && EditOf(c.req, c.snap).Ok? && t in s.space
                  && var g := EditOf(c.req, c.snap).value.1;
                  && (Atomically(s.space, c.req) == (s'.space, Ok(g)) <==> Matches(g, c.snap, s.space[t]))
                  && (c.life == LifeNumber(s, t) ==> Matches(g, c.snap, s.space[t])))
  {
    assert CallOk(k, c, s.hist);
    WriteCases(s, k, c);
    if EditOf(c.req, c.snap).Ok? && Update(s.space, EditOf(c.req, c.snap).value.0).Ok? {
      var (r, g) := EditOf(c.req, c.snap).value;
      CommitMatches(s, k, c, r, g);
    }
  }

  lemma WriteCases(s: State, k: CallId, c: Call)
    requires k in s.calls && c == s.calls[k] && c.Writing?
    ensures var s' := Exec(s, Go(k));
            if EditOf(c.req, c.snap).Ok? && Update(s.space, EditOf(c.req, c.snap).value.0).Ok?
            then var (r, g) := EditOf(c.req, c.snap).value; r.cidr in s.space && s' == Committed(s, k, c, r, g)
            else s'.space == s.space && s'.commits == s.commits
  {
  }

  /** An address granted at `i` and not released up to `j` is still held at `j`. */
  lemma {:induction false} HeldUntilFreed(log: seq<Entry>, a: Addr, i: nat, j: nat)
    requires Chain(log) && 0 < i <= j < |log| && log[i].grant == GotIp(a)
    requires forall m :: i < m <= j ==> log[m].grant != FreedIp(a)
    ensures a in log[j].record.ips
    decreases j
  {
    assert Follows(log[j - 1].record, log[j]);
    if i < j { HeldUntilFreed(log, a, i, j - 1); }
    FollowedIps(log[j - 1].record, log[j], a);
  }

  lemma FollowedIps(before: Record, e: Entry, a: Addr)
    requires Follows(before, e)
    ensures e.grant == GotIp(a) ==> a !in before.ips && a in e.record.ips
    ensures e.grant != FreedIp(a) && a in before.ips ==> a in e.record.ips
  {
    match e.req
    case ReqAcquireIp(_, want) => AcquireIpExact(before, want);
    case _ =>
  }

  lemma {:induction false} FreedBetween(log: seq<Entry>, a: Addr, i: nat, j: nat)
    requires Chain(log) && 0 < i < j < |log| && log[i].grant == GotIp(a) && log[j].grant == GotIp(a)
    ensures exists m :: i < m < j && log[m].grant == FreedIp(a)
  {
    if forall m :: i < m < j ==> log[m].grant != FreedIp(a) {
      HeldUntilFreed(log, a, i, j - 1);
      assert Follows(log[j - 1].record, log[j]);
      FollowedIps(log[j - 1].record, log[j], a);
    }
  }

  /** Between two grants of one address in a life, a release of it was committed. */
  lemma {:induction false} GrantsAreApart(steps: seq<Step>, c: Cidr, a: Addr, i: nat, j: nat)
    requires var s := After(steps);
             Untainted(s, c) && i < j < |s.hist[c].log|
             && s.hist[c].log[i].grant == GotIp(a) && s.hist[c].log[j].grant == GotIp(a)
    ensures exists m :: i < m < j && After(steps).hist[c].log[m].grant == FreedIp(a)
  {
    AlwaysInv(steps);
    var h := After(steps).hist[c];
    assert LifeOk(c, h);
    FreedBetween(h.log, a, i, j);
  }

  lemma FollowedChildren(before: Record, e: Entry, c: Cidr)
    requires Follows(before, e)
    ensures e.grant.GotChild? ==> FreeOf(e.grant.child, Taken(before.children))
    ensures e.grant == GotChild(c) ==> c in Taken(e.record.children)
    ensures e.grant != FreedChild(c) && c in Taken(before.children) ==> c in Taken(e.record.children)
  {
    match e.req
    case ReqAcquireChild(_, want) => SelectedChildIsFree(before, want);
    case _ =>
  }

  lemma {:induction false} MarkedUntilFreed(log: seq<Entry>, c: Cidr, i: nat, j: nat)
    requires Chain(log) && 0 < i <= j < |log| && log[i].grant == GotChild(c)
    requires forall m :: i < m <= j ==> log[m].grant != FreedChild(c)
    ensures c in Taken(log[j].record.children)
    decreases j
  {
    assert Follows(log[j - 1].record, log[j]);
    if i < j { MarkedUntilFreed(log, c, i, j - 1); }
    FollowedChildren(log[j - 1].record, log[j], c);
  }

  lemma {:induction false} ChildFreedBetween(log: seq<Entry>, c: Cidr, d: Cidr, i: nat, j: nat)
    requires Chain(log) && 0 < i < j < |log| && log[i].grant == GotChild(c) && log[j].grant == GotChild(d)
    requires Overlaps(c, d)
    ensures exists m :: i < m < j && log[m].grant == FreedChild(c)
  {
    if forall m :: i < m < j ==> log[m].grant != FreedChild(c) {
      MarkedUntilFreed(log, c, i, j - 1);
      assert Follows(log[j - 1].record, log[j]);
      FollowedChildren(log[j - 1].record, log[j], c);
    }
  }

  /** Between grants of children of one parent that share an address, in a life, a release of the
      first was committed. */
  lemma {:induction false} ChildGrantsAreApart(steps: seq<Step>, p: Cidr, c: Cidr, d: Cidr, a: Addr, i: nat, j: nat)
    requires var s := After(steps);
             Untainted(s, p) && i < j < |s.hist[p].log|
             && s.hist[p].log[i].grant == GotChild(c) && s.hist[p].log[j].grant == GotChild(d)
    requires Contains(c, a) && Contains(d, a)
    ensures exists m :: i < m < j && After(steps).hist[p].log[m].grant == FreedChild(c)
  {
    AlwaysInv(steps);
    var h := After(steps).hist[p];
    assert LifeOk(p, h);
    OverlapsIffShared(c, d);
    ChildFreedBetween(h.log, c, d, i, j);
  }

  lemma {:induction false} ParentStays(log: seq<Entry>, i: nat, j: nat)
    requires Chain(log) && i <= j < |log| && log[i].record.isParent
    requires forall v :: 0 <= v < |log| ==> RecordOk(log[v].record)
    ensures log[j].record.isParent
    decreases j
  {
    if i < j {
      ParentStays(log, i, j - 1);
      assert Follows(log[j - 1].record, log[j]);
      EditKeepsRecord(log[j].req, log[j - 1].record);
    }
  }

  /** Once a parent, always a parent: in a life the flag never goes back. */
  lemma {:induction false} StaysParent(steps: seq<Step>, c: Cidr, i: nat, j: nat)
    requires Untainted(After(steps), c) && i <= j < |After(steps).hist[c].log|
    requires After(steps).hist[c].log[i].record.isParent
    ensures After(steps).hist[c].log[j].record.isParent
  {
    AlwaysInv(steps);
    assert LifeOk(c, After(steps).hist[c]);
    ParentStays(After(steps).hist[c].log, i, j);
  }

  /** No committed release in the log was of a reserved address. */
  ghost predicate ReservedSpared(log: seq<Entry>, c: Cidr) {
    forall v, a :: 0 <= v < |log| && a in Reserved(c) ==> log[v].grant != FreedIp(a)
  }

  lemma {:induction false} ReservedStay(log: seq<Entry>, c: Cidr, n: nat)
    requires n < |log| && Chain(log) && IsBirth(log[0]) && ReservedSpared(log, c)
    requires log[0].record.cidr == c && Canonical(c)
    ensures Reserved(c) <= log[n].record.ips
  {
    if n > 0 {
      ReservedStay(log, c, n - 1);
      assert Follows(log[n - 1].record, log[n]);
      forall a | a in Reserved(c) ensures a in log[n].record.ips { FollowedIps(log[n - 1].record, log[n], a); }
    } else {
      NewRecordOk(c, log[0].record.parentCidr);
    }
  }

  /** In every reachable state hasIPs tells whether a host address is held exactly if none is, or more
      are than reserved addresses were released. */
  lemma {:induction false} CountsHostsIff(steps: seq<Step>, c: Cidr)
    requires c in After(steps).space
    ensures var r := After(steps).space[c];
            (HasIPs(r) <==> Hosts(r) != {}) <==> Hosts(r) == {} || |Hosts(r)| > |ReservedFreed(r)|
  {
    RecordsStayGood(steps);
    HasIPsExact(After(steps).space[c]);
  }

  /** So it always does in an untainted life in which no reserved address was released. */
  lemma {:induction false} CountsHosts(steps: seq<Step>, c: Cidr)
    requires var s := After(steps);
             c in s.space && Untainted(s, c) && ReservedSpared(s.hist[c].log, c)
    ensures HasIPs(After(steps).space[c]) <==> Hosts(After(steps).space[c]) != {}
  {
    AlwaysInv(steps);
    var s := After(steps);
    assert LifeOk(c, s.hist[c]);
    ReservedStay(s.hist[c].log, c, |s.hist[c].log| - 1);
    HasIPsExact(s.space[c]);
    assert ReservedFreed(s.space[c]) == {};
  }

  /** Since the call checked it, nothing was committed on the prefix, and it was not created again. */
  predicate UnchangedSinceCheck(s: State, k: CallId)
    requires k in s.calls && s.calls[k].Deleting?
  {
    var call := s.calls[k];
    call.cidr in s.hist && call.life == s.hist[call.cidr].number && call.version == |s.hist[call.cidr].log| - 1
  }

  /** Otherwise another call committed on it, or it was created again. */
  ghost predicate ChangedByOther(s: State, k: CallId)
    requires k in s.calls && s.calls[k].Deleting?
  {
    var call := s.calls[k];
    && call.cidr in s.hist
    && (call.life < s.hist[call.cidr].number
        || exists v :: 0 <= call.version < v < |s.hist[call.cidr].log| && s.hist[call.cidr].log[v].call != k)
  }

  /** A delete checks, and then deletes whatever is stored. It takes held addresses with it exactly if
      hasIPs holds by then, which needs a change by another call since the check, or if hasIPs does not
      notice them, being no more than the reserved addresses released. */
  lemma {:induction false} DeleteTakesHosts(steps: seq<Step>, k: CallId)
    ensures var s := After(steps);
            k in s.calls && s.calls[k].Deleting? && s.calls[k].cidr in s.space ==>
              var r := s.space[s.calls[k].cidr];
              && Exec(s, Go(k)).space == Remove(s.space, s.calls[k].cidr)
              && (Hosts(r) != {} <==>
                    (HasIPs(r) && !UnchangedSinceCheck(s, k)) || 0 < |Hosts(r)| <= |ReservedFreed(r)|)
              && (!UnchangedSinceCheck(s, k) <==> ChangedByOther(s, k))
  {
    AlwaysInv(steps);
    var s := After(steps);
    if k in s.calls && s.calls[k].Deleting? && s.calls[k].cidr in s.space {
      assert CallOk(k, s.calls[k], s.hist);
      ChangeSinceCheck(s, k);
      UnchangedHasNoIPs(s, k);
      HasIPsCounts(s.space[s.calls[k].cidr]);
      DeleteRemoves(s, k);
    }
  }

  lemma DeleteRemoves(s: State, k: CallId)
    requires k in s.calls && s.calls[k].Deleting?
    ensures Exec(s, Go(k)).space == Remove(s.space, s.calls[k].cidr)
  {
  }

  /** An unchanged prefix is deleted as it was checked. */
  lemma UnchangedHasNoIPs(s: State, k: CallId)
    requires SpaceInv(s.space, s.hist) && k in s.calls && s.calls[k].Deleting? && s.calls[k].cidr in s.space
    requires CallOk(k, s.calls[k], s.hist)
    ensures UnchangedSinceCheck(s, k) ==> !HasIPs(s.space[s.calls[k].cidr])
    ensures RecordOk(s.space[s.calls[k].cidr])
  {
    assert LifeOk(s.calls[k].cidr, s.hist[s.calls[k].cidr]);
  }

  lemma ChangeSinceCheck(s: State, k: CallId)
    requires k in s.calls && s.calls[k].Deleting? && s.calls[k].cidr in s.hist && CallOk(k, s.calls[k], s.hist)
    ensures !UnchangedSinceCheck(s, k) <==> ChangedByOther(s, k)
  {
    var call := s.calls[k];
    var log := s.hist[call.cidr].log;
    if call.life == s.hist[call.cidr].number && call.version < |log| - 1 {
      assert log[|log| - 1].call != k;
    }
  }

  /** A call gives up after ten attempts only if, while the prefix lived on, at least ten commits went
      in after the version it read first, all by other calls; and it has committed nothing itself. */
  lemma {:induction false} GivesUpOnlyAfterTenCommits(steps: seq<Step>, k: CallId)
    ensures var s := After(steps);
            k in s.calls && s.calls[k].Exhausted? ==>
              var t, seen := Target(s.calls[k].req), s.calls[k].seen;
              && t in s.hist && s.commits[k] == 0
              && (seen.life == s.hist[t].number ==>
                    && |s.hist[t].log| > seen.version + 10
                    && forall v :: 0 <= v < |s.hist[t].log| ==> s.hist[t].log[v].call != k)
  {
    AlwaysInv(steps);
    var s := After(steps);
    if k in s.calls { assert CallOk(k, s.calls[k], s.hist) && AnswerOk(k, s.calls[k], s.receipts); }
  }

  /** No call is about to write after ten lost writes. A write that meets another version is tried
      again unless it was the tenth, and changes nothing; one that meets no record at all is not. */
  lemma {:induction false} AtMostTenAttempts(steps: seq<Step>, k: CallId)
    ensures var s, s' := After(steps), Exec(After(steps), Go(k));
            k in s.calls && s.calls[k].Writing? ==>
              var c := s.calls[k];
              && c.tries < 10
              && (EditOf(c.req, c.snap).Ok? && Target(c.req) in s.space
                  && s.space[Target(c.req)].version != c.snap.version ==>
                    && s'.space == s.space && s'.commits == s.commits && k in s'.calls
                    && if c.tries == 9 then s'.calls[k].Exhausted?
                       else s'.calls[k].Reading? && s'.calls[k].tries == c.tries + 1)
              && (EditOf(c.req, c.snap).Ok? && Target(c.req) !in s.space ==>
                    s' == To(s, k, Done(c.req, Err(ErrPrefixMissing))))
  {
    AlwaysInv(steps);
    var s := After(steps);
    if k in s.calls && s.calls[k].Writing? {
      assert CallOk(k, s.calls[k], s.hist);
      LostWrite(s, k, s.calls[k]);
    }
  }

  lemma LostWrite(s: State, k: CallId, c: Call)
    requires k in s.calls && c == s.calls[k] && c.Writing? && c.snap.cidr == Target(c.req)
    ensures var t := Target(c.req);
            EditOf(c.req, c.snap).Ok? && t in s.space && s.space[t].version != c.snap.version ==>
              Exec(s, Go(k)) == To(s, k, if c.tries + 1 < 10 then Reading(c.req, c.tries + 1, Some(c.seen))
                                         else Exhausted(c.req, c.seen))
    ensures EditOf(c.req, c.snap).Ok? && Target(c.req) !in s.space ==>
              Exec(s, Go(k)) == To(s, k, Done(c.req, Err(ErrPrefixMissing)))
  {
    if EditOf(c.req, c.snap).Ok? { EditKeepsName(c.req, c.snap); }
  }

  /** A successful IP call has committed exactly once; a failed one, or one still trying, not at all.
      A child call commits its parent at most once, and exactly once if it succeeds. */
  lemma {:induction false} CommitsOnce(steps: seq<Step>, k: CallId)
    requires k in After(steps).calls
    ensures var c, n := After(steps).calls[k], After(steps).commits[k];
            && (Pending(c) ==> n == 0)
            && (c.Done? && (c.req.ReqAcquireIp? || c.req.ReqReleaseIp?) ==> n == if c.outcome.Ok? then 1 else 0)
            && (c.Done? && (c.req.ReqAcquireChild? || c.req.ReqReleaseChild?) ==> n <= 1 && (c.outcome.Ok? ==> n == 1))
  {
    AlwaysInv(steps);
    assert AnswerOk(k, After(steps).calls[k], After(steps).receipts);
  }

  /** What a successful call answers is what its committed entry says, wherever that life still lasts. */
  lemma {:induction false} AnswersAreLogged(steps: seq<Step>, k: CallId)
    requires var s := After(steps);
             k in s.calls && s.calls[k].Done? && s.calls[k].outcome.Ok? && IsEdit(s.calls[k].req)
    ensures var s := After(steps);
            && k in s.receipts && s.receipts[k].cidr == Target(s.calls[k].req) && s.receipts[k].cidr in s.hist
            && s.receipts[k].grant == s.calls[k].outcome.value
            && var log := s.hist[s.receipts[k].cidr].log;
               s.receipts[k].life == s.hist[s.receipts[k].cidr].number ==>
                 && 0 < s.receipts[k].version < |log|
                 && log[s.receipts[k].version].call == k && log[s.receipts[k].version].grant == s.calls[k].outcome.value
  {
    AlwaysInv(steps);
    var s := After(steps);
    assert AnswerOk(k, s.calls[k], s.receipts);
    assert ReceiptOk(k, s.receipts[k], s.hist);
  }

  /** The call succeeded with an address of `c` in the life `c` is in. */
  ghost predicate AnsweredIn(s: State, k: CallId, c: Cidr, a: Addr) {
    && k in s.calls && s.calls[k].Done? && s.calls[k].outcome == Ok(GotIp(a))
    && s.calls[k].req.ReqAcquireIp? && Target(s.calls[k].req) == c
    && k in s.receipts && c in s.hist && s.receipts[k].life == s.hist[c].number
  }

  /** Of two calls answered with the same address in one life, a release was committed in between. */
  lemma {:induction false} AnswersAreApart(steps: seq<Step>, k: CallId, l: CallId, c: Cidr, a: Addr)
    requires var s := After(steps);
             Untainted(s, c) && AnsweredIn(s, k, c, a) && AnsweredIn(s, l, c, a) && k != l
    ensures var s := After(steps);
            var i, j := s.receipts[k].version, s.receipts[l].version;
            exists m :: 0 <= m < |s.hist[c].log| && s.hist[c].log[m].grant == FreedIp(a) && (i < m < j || j < m < i)
  {
    var s := After(steps);
    AnswersAreLogged(steps, k);
    AnswersAreLogged(steps, l);
    var i, j := s.receipts[k].version, s.receipts[l].version;
    if i < j {
      GrantsAreApart(steps, c, a, i, j);
    } else {
      GrantsAreApart(steps, c, a, j, i);
    }
  }

  /** The stored prefixes that NewPrefix created never overlap; in an untainted life they are the
      ones without a parent in their record. */
  lemma {:induction false} RootsStayApart(steps: seq<Step>, c: Cidr, d: Cidr)
    requires var s := After(steps); c in s.space && d in s.space && c != d
    ensures var s := After(steps);
            && c in s.hist && d in s.hist
            && (s.hist[c].root && s.hist[d].root ==> !Overlaps(c, d))
            && (Untainted(s, c) ==> (s.hist[c].root <==> s.space[c].parentCidr.None?))
  {
    AlwaysInv(steps);
    var s := After(steps);
    assert RootIn(s.space, s.hist, c) && RootIn(s.space, s.hist, d) ==> !Overlaps(c, d);
    assert LifeOk(c, s.hist[c]);
    if Untainted(s, c) { ParentKept(s.hist[c].log, |s.hist[c].log| - 1); }
  }

  /** The next `n` steps of one call, without any other in between. */
  function GoOn(s: State, k: CallId, n: nat): State
    decreases n
  {
    if n == 0 then s else GoOn(Exec(s, Go(k)), k, n - 1)
  }

  lemma GoOnTwice(s: State, k: CallId)
    ensures GoOn(s, k, 4) == GoOn(GoOn(s, k, 2), k, 2)
  {
    var s1 := Exec(s, Go(k));
    var s2 := Exec(s1, Go(k));
    assert GoOn(s, k, 4) == GoOn(s1, k, 3) == GoOn(s2, k, 2);
    assert GoOn(s, k, 2) == GoOn(s1, k, 1) == GoOn(s2, k, 0);
  }

  /** One call from start to end: no call takes more than four storage accesses. */
  function RunAlone(s: State, k: CallId, q: Request): State {
    GoOn(Exec(s, Start(k, q)), k, 4)
  }

  function Answer<T>(out: Result<T, Error>, g: Grant): Result<Grant, Error> {
    if out.Ok? then Ok(g) else Err(out.error)
  }

  /** The answer of an operation run alone; a child is named as the parent marks it. */
  function Outcome(space: Space, q: Request): Result<Grant, Error> {
    match q
    case ReqAcquireIp(c, want) =>
      var out := DoAcquireIp(space, c, want).1;
      if out.Ok? then Ok(GotIp(out.value)) else Err(out.error)
    case ReqReleaseIp(c, ip) => Answer(DoReleaseIp(space, c, ip).1, FreedIp(ip))
    case ReqAcquireChild(p, want) =>
      var child := DoMark(space, p, want).1;
      if child.Ok? then Answer(DoAcquireChild(space, p, want).1, GotChild(child.value)) else Err(child.error)
    case ReqReleaseChild(copy) => Answer(DoReleaseChild(space, copy).1, FreedChild(copy.cidr))
    case ReqNewPrefix(c) => Answer(DoNewPrefix(space, c).1, Born)
    case ReqDelete(c) => Answer(DoDelete(space, c).1, Gone)
  }

  /** The call succeeded with the child `c` of `p` in the life `p` is in. */
  ghost predicate AnsweredChildIn(s: State, k: CallId, p: Cidr, c: Cidr) {
    && k in s.calls && s.calls[k].Done? && s.calls[k].outcome == Ok(GotChild(c))
    && s.calls[k].req.ReqAcquireChild? && Target(s.calls[k].req) == p
    && k in s.receipts && p in s.hist && s.receipts[k].life == s.hist[p].number
  }

  /** Of two calls answered with children of one parent that share an address, in one life, a release
      of the one answered first was committed in between. */
  lemma {:induction false} ChildAnswersAreApart(steps: seq<Step>, k: CallId, l: CallId, p: Cidr, c: Cidr, d: Cidr,
                                                a: Addr)
    requires var s := After(steps);
             && Untainted(s, p) && AnsweredChildIn(s, k, p, c) && AnsweredChildIn(s, l, p, d) && k != l
             && s.receipts[k].version <= s.receipts[l].version
    requires Contains(c, a) && Contains(d, a)
    ensures var s := After(steps);
            exists m :: s.receipts[k].version < m < s.receipts[l].version
                        && 0 <= m < |s.hist[p].log| && s.hist[p].log[m].grant == FreedChild(c)
  {
    var s := After(steps);
    AnswersAreLogged(steps, k);
    AnswersAreLogged(steps, l);
    ChildGrantsAreApart(steps, p, c, d, a, s.receipts[k].version, s.receipts[l].version);
  }

  /** The record a call is about to write was stored at some moment of the run. */
  lemma {:induction false} SnapshotWasStored(steps: seq<Step>, k: CallId) returns (i: nat)
    ensures i <= |steps|
    ensures var calls, past := After(steps).calls, After(steps[..i]);
            k in calls && calls[k].Writing? ==>
              var t := Target(calls[k].req);
              k in past.calls && t in past.space && past.space[t] == calls[k].snap
    decreases |steps|
  {
    if steps == [] {
      return 0;
    }
    var before, step := steps[..|steps| - 1], steps[|steps| - 1];
    var s := After(before);
    if step == Go(k) && k in s.calls && s.calls[k].Reading? {
      i := |steps| - 1;
    } else {
      StillWriting(s, step, k);
      i := SnapshotWasStored(before, k);
      assert before[..i] == steps[..i];
    }
  }

  /** Only a read makes a call ready to write. */
  lemma StillWriting(s: State, step: Step, k: CallId)
    requires !(step == Go(k) && k in s.calls && s.calls[k].Reading?)
    ensures k in Exec(s, step).calls && Exec(s, step).calls[k].Writing? ==>
              k in s.calls && s.calls[k] == Exec(s, step).calls[k]
  {
    match step
    case Start(_, _) =>
    case Go(j) =>
      if j != k {
        OneMoves(s, j, k);
      } else if k in s.calls {
        NeverWritesOn(s, k);
      }
  }

  lemma NeverWritesOn(s: State, k: CallId)
    requires k in s.calls && !s.calls[k].Reading?
    ensures k in Exec(s, Go(k)).calls && !Exec(s, Go(k)).calls[k].Writing?
  {
    if s.calls[k].Writing? { WrittenMovesOn(s, k, s.calls[k]); }
  }

  lemma WrittenMovesOn(s: State, k: CallId, c: Call)
    requires k in s.calls && c == s.calls[k] && c.Writing?
    ensures k in StepWrite(s, k, c).calls && !StepWrite(s, k, c).calls[k].Writing?
  {
  }

  /** A refusal is atomic as well: a call whose edit of the snapshot fails ends with the answer that the
      request would have had in one atomic step, without effect, on the store as it was when it read,
      so after the call began. */
  lemma {:induction false} RefusalIsAtomic(steps: seq<Step>, k: CallId)
    ensures var s := After(steps);
            k in s.calls && s.calls[k].Writing? && EditOf(s.calls[k].req, s.calls[k].snap).Err? ==>
              var q, e := s.calls[k].req, EditOf(s.calls[k].req, s.calls[k].snap).error;
              && IsEdit(q) && Exec(s, Go(k)) == To(s, k, Done(q, Err(e)))
              && exists i :: 0 <= i <= |steps| && k in After(steps[..i]).calls
                             && Atomically(After(steps[..i]).space, q) == (After(steps[..i]).space, Err(e))
  {
    AlwaysInv(steps);
    var s := After(steps);
    if k in s.calls && s.calls[k].Writing? && EditOf(s.calls[k].req, s.calls[k].snap).Err? {
      assert CallOk(k, s.calls[k], s.hist);
      var i := SnapshotWasStored(steps, k);
      EditIsAtomic(After(steps[..i]).space, s.calls[k].req);
    }
  }

  /** What a call in progress leads to when its next steps run without interference. */
  ghost predicate Ends(s: State, k: CallId, q: Request, space: Space, outcome: Result<Grant, Error>) {
    s.space == space && k in s.calls && s.calls[k] == Done(q, outcome) && s.lock.None?
  }

  /** Reading and writing alone: the edit is applied to the stored record, or nothing happens. */
  lemma ReadAndWriteAlone(s: State, k: CallId, q: Request)
    requires Keyed(s.space) && k in s.calls && s.calls[k] == Reading(q, 0, None) && s.lock.None?
    ensures var after, t := GoOn(s, k, 2), Target(q);
            if t !in s.space then Ends(after, k, q, s.space, Err(ErrNotFound))
            else
              match EditOf(q, s.space[t])
              case Err(e) => Ends(after, k, q, s.space, Err(e))
              case Ok((r, g)) =>
                && r.cidr == t && after.space == With(s.space, Bump(r)) && Update(s.space, r) == Ok(after.space)
                && k in after.calls && after.calls[k] == AfterCommit(q, g) && after.lock.None?
  {
    var read, t := Exec(s, Go(k)), Target(q);
    assert GoOn(s, k, 2) == GoOn(read, k, 1) == GoOn(Exec(read, Go(k)), k, 0);
    if t in s.space {
      assert read.calls[k].Writing? && read.calls[k].snap == s.space[t] && read.space == s.space;
      if EditOf(q, s.space[t]).Ok? { EditKeepsName(q, s.space[t]); }
    }
  }

  /** A call that has ended stays as it is. */
  lemma {:induction false} EndedStays(s: State, k: CallId, n: nat)
    requires k in s.calls && s.calls[k].Done?
    ensures GoOn(s, k, n) == s
    decreases n
  {
    if n > 0 { EndedStays(s, k, n - 1); }
  }

  lemma CreateAlone(s: State, k: CallId, q: Request, child: Cidr, n: nat)
    requires k in s.calls && s.calls[k] == Creating(q, child) && q.ReqAcquireChild? && s.lock.None? && n > 0
    ensures var (space, out) := DoCreate(s.space, child, q.parent);
            Ends(GoOn(s, k, n), k, q, space, Answer(out, GotChild(child)))
  {
    MaskedIsCanonical(q.parent);
    assert NewRecord(child, Some(Masked(q.parent))) == NewRecord(child, Some(q.parent));
    EndedStays(Exec(s, Go(k)), k, n - 1);
  }

  /** What has ended after one step has ended after more. */
  lemma EndsSoon(s: State, k: CallId, q: Request, space: Space, out: Result<Grant, Error>, n: nat)
    requires Ends(Exec(s, Go(k)), k, q, space, out) && n > 0
    ensures Ends(GoOn(s, k, n), k, q, space, out)
  {
    EndedStays(Exec(s, Go(k)), k, n - 1);
  }

  lemma CheckAlone(s: State, k: CallId, q: Request, c: Cidr)
    requires k in s.calls && s.calls[k] == Checking(q, c) && s.lock.None?
    ensures var next, m := Exec(s, Go(k)), Masked(c);
            if m !in s.space then Ends(next, k, q, s.space, Err(ErrNotFound))
            else if HasIPs(s.space[m]) then Ends(next, k, q, s.space, Err(ErrHasIPs))
            else next == To(s, k, Deleting(q, m, LifeNumber(s, m), s.space[m].version))
  {
  }

  lemma RemoveAlone(s: State, k: CallId, q: Request, m: Cidr)
    requires k in s.calls && s.calls[k].Deleting? && s.calls[k].req == q && s.calls[k].cidr == m && s.lock.None?
    ensures Ends(Exec(s, Go(k)), k, q, Remove(s.space, m), Ok(DeleteAnswer(q)))
  {
  }

  lemma DeleteAlone(s: State, k: CallId, q: Request, c: Cidr, n: nat)
    requires k in s.calls && s.calls[k] == Checking(q, c) && Keyed(s.space) && s.lock.None? && n > 1
    ensures var (space, out) := DoDelete(s.space, c);
            Ends(GoOn(s, k, n), k, q, space, Answer(out, DeleteAnswer(q)))
  {
    var m := Masked(c);
    CheckAlone(s, k, q, c);
    if m in s.space && !HasIPs(s.space[m]) {
      var next := To(s, k, Deleting(q, m, LifeNumber(s, m), s.space[m].version));
      RemoveAlone(next, k, q, m);
      EndsSoon(next, k, q, Remove(s.space, m), Ok(DeleteAnswer(q)), n - 1);
    } else {
      EndsSoon(s, k, q, s.space, Answer(DoDelete(s.space, c).1, DeleteAnswer(q)), n);
    }
  }

  lemma LockAlone(s: State, k: CallId, q: Request)
    requires k in s.calls && s.calls[k] == Waiting(q) && s.lock.None?
    ensures if Clashes(s.space, Target(q)) then Ends(Exec(s, Go(k)), k, q, s.space, Err(ErrOverlap))
            else Exec(s, Go(k)) == To(s, k, Adding(q)).(lock := Some(k))
  {
  }

  lemma BirthAlone(s: State, k: CallId, q: Request)
    requires k in s.calls && s.calls[k] == Adding(q) && q.ReqNewPrefix?
    ensures match Create(s.space, NewRecord(q.cidr, None))
            case Ok(space) => Ends(Exec(s, Go(k)), k, q, space, Ok(Born))
            case Err(e) => Ends(Exec(s, Go(k)), k, q, s.space, Err(e))
  {
    NewRecordAgain(q.cidr, None);
    assert NewRecord(Masked(q.cidr), None) == NewRecord(q.cidr, None);
  }

  lemma AddAlone(s: State, k: CallId, q: Request, n: nat)
    requires k in s.calls && s.calls[k] == Waiting(q) && q.ReqNewPrefix? && s.lock.None? && n > 1
    ensures var (space, out) := DoNewPrefix(s.space, q.cidr);
            Ends(GoOn(s, k, n), k, q, space, Answer(out, Born))
  {
    var (space, out) := DoNewPrefix(s.space, q.cidr);
    LockAlone(s, k, q);
    if Clashes(s.space, Target(q)) {
      EndsSoon(s, k, q, s.space, Err(ErrOverlap), n);
    } else {
      var next := To(s, k, Adding(q)).(lock := Some(k));
      BirthAlone(next, k, q);
      EndsSoon(next, k, q, space, Answer(out, Born), n - 1);
    }
  }

  /** An edit that is refused leaves the whole operation without effect. */
  lemma RefusedAlone(space: Space, q: Request, e: Error)
    requires Keyed(space) && IsEdit(q)
    requires if Target(q) in space then EditOf(q, space[Target(q)]) == Err(e) else e == ErrNotFound
    ensures Apply(space, q) == space && Outcome(space, q) == Err(e)
  {
  }

  /** An edit that goes through is the first half of a child operation, and all of an address operation. */
  lemma EditedAlone(space: Space, q: Request, r: Record, g: Grant)
    requires Keyed(space) && IsEdit(q) && Target(q) in space && EditOf(q, space[Target(q)]) == Ok((r, g))
    ensures var next := With(space, Bump(r));
            && (q.ReqAcquireIp? || q.ReqReleaseIp? ==> Apply(space, q) == next && Outcome(space, q) == Ok(g))
            && (q.ReqAcquireChild? ==> g.GotChild? && DoMark(space, q.parent, q.child) == (next, Ok(g.child)))
            && (q.ReqReleaseChild? ==> g == FreedChild(q.copy.cidr) && DoUnmark(space, q.copy) == (next, Ok(())))
  {
    EditIsAtomic(space, q);
  }

  lemma EditAlone(s: State, k: CallId, q: Request)
    requires Keyed(s.space) && k in s.calls && s.calls[k] == Reading(q, 0, None) && s.lock.None?
    requires IsEdit(q)
    ensures Ends(GoOn(s, k, 4), k, q, Apply(s.space, q), Outcome(s.space, q))
  {
    ReadAndWriteAlone(s, k, q);
    GoOnTwice(s, k);
    var next, t := GoOn(s, k, 2), Target(q);
    if t !in s.space || EditOf(q, s.space[t]).Err? {
      RefusedAlone(s.space, q, if t !in s.space then ErrNotFound else EditOf(q, s.space[t]).error);
      EndedStays(next, k, 2);
    } else {
      EditedAlone(s.space, q, EditOf(q, s.space[t]).value.0, EditOf(q, s.space[t]).value.1);
      AfterEditAlone(s.space, next, k, q);
    }
  }

  /** The second half of the operation. */
  lemma AfterEditAlone(space: Space, s: State, k: CallId, q: Request)
    requires Keyed(space) && IsEdit(q) && Target(q) in space && EditOf(q, space[Target(q)]).Ok?
    requires k in s.calls && s.lock.None?
    requires var (r, g) := EditOf(q, space[Target(q)]).value;
             s.calls[k] == AfterCommit(q, g) && r.cidr == Target(q) && s.space == With(space, Bump(r))
    ensures Ends(GoOn(s, k, 2), k, q, Apply(space, q), Outcome(space, q))
  {
    var (r, g) := EditOf(q, space[Target(q)]).value;
    EditedAlone(space, q, r, g);
    if q.ReqAcquireChild? {
      CreateAlone(s, k, q, g.child, 2);
    } else if q.ReqReleaseChild? {
      DeleteAlone(s, k, q, q.copy.cidr, 2);
    } else {
      EndedStays(s, k, 2);
    }
  }

  /** A step of one call leaves the others where they are. */
  lemma {:induction false} OthersStay(s: State, k: CallId, j: CallId, n: nat)
    requires j != k
    ensures j in GoOn(s, k, n).calls <==> j in s.calls
    ensures j in s.calls ==> GoOn(s, k, n).calls[j] == s.calls[j]
    decreases n
  {
    if n > 0 {
      OneMoves(s, k, j);
      OthersStay(Exec(s, Go(k)), k, j, n - 1);
    }
  }

  function Moved(calls: map<CallId, Call>, k: CallId, call: Call): map<CallId, Call> {
    calls[k := call]
  }

  /** Only call `k` has moved, if any, and it keeps its request. */
  ghost predicate OnlyMoved(calls: map<CallId, Call>, next: map<CallId, Call>, k: CallId) {
    next == calls || exists call :: next == Moved(calls, k, call) && k in calls && call.req == calls[k].req
  }

  lemma OneMoves(s: State, k: CallId, j: CallId)
    ensures j in s.calls ==> j in Exec(s, Go(k)).calls
    ensures j != k ==> (j in Exec(s, Go(k)).calls ==> j in s.calls)
    ensures j != k && j in s.calls ==> Exec(s, Go(k)).calls[j] == s.calls[j]
  {
    assert OnlyMoved(s.calls, Exec(s, Go(k)).calls, k) by { StepMoves(s, k); }
  }

  lemma StepMoves(s: State, k: CallId)
    ensures OnlyMoved(s.calls, Exec(s, Go(k)).calls, k)
  {
    if k in s.calls {
      if s.calls[k].Writing? {
        WriteMoves(s, k, s.calls[k]);
      } else if s.calls[k].Creating? {
        CreateMoves(s, k, s.calls[k]);
      } else if s.calls[k].Adding? {
        AddMoves(s, k, s.calls[k]);
      } else {
        QuietMoves(s, k, s.calls[k]);
      }
    }
  }

  lemma QuietMoves(s: State, k: CallId, c: Call)
    requires k in s.calls && c == s.calls[k] && !c.Writing? && !c.Creating? && !c.Adding?
    ensures OnlyMoved(s.calls, Exec(s, Go(k)).calls, k)
  {
    if c.Reading? {
      ReadMoves(s, k, c);
    } else if c.Checking? || c.Deleting? {
      DeleteMoves(s, k, c);
    } else if c.Waiting? && s.lock.None? {
      var call := StepLock(s, k, c).calls[k];
      assert call.req == c.req && Exec(s, Go(k)).calls == Moved(s.calls, k, call);
    }
  }

  lemma ReadMoves(s: State, k: CallId, c: Call)
    requires k in s.calls && c == s.calls[k] && c.Reading?
    ensures OnlyMoved(s.calls, Exec(s, Go(k)).calls, k)
  {
    var call := StepRead(s, k, c).calls[k];
    assert call.req == c.req && Exec(s, Go(k)).calls == Moved(s.calls, k, call);
  }

  lemma DeleteMoves(s: State, k: CallId, c: Call)
    requires k in s.calls && c == s.calls[k] && (c.Checking? || c.Deleting?)
    ensures OnlyMoved(s.calls, Exec(s, Go(k)).calls, k)
  {
    var call := if c.Checking? then StepCheck(s, k, c).calls[k] else StepDelete(s, k, c).calls[k];
    assert call.req == c.req && Exec(s, Go(k)).calls == Moved(s.calls, k, call);
  }

  lemma CreateMoves(s: State, k: CallId, c: Call)
    requires k in s.calls && c == s.calls[k] && c.Creating?
    ensures OnlyMoved(s.calls, Exec(s, Go(k)).calls, k)
  {
    var call := StepCreate(s, k, c).calls[k];
    assert call.req == c.req && Exec(s, Go(k)).calls == Moved(s.calls, k, call);
  }

  lemma AddMoves(s: State, k: CallId, c: Call)
    requires k in s.calls && c == s.calls[k] && c.Adding?
    ensures OnlyMoved(s.calls, Exec(s, Go(k)).calls, k)
  {
    var call := StepAdd(s, k, c).calls[k];
    assert call.req == c.req && Exec(s, Go(k)).calls == Moved(s.calls, k, call);
  }

  lemma WriteMoves(s: State, k: CallId, c: Call)
    requires k in s.calls && c == s.calls[k] && c.Writing?
    ensures OnlyMoved(s.calls, Exec(s, Go(k)).calls, k)
  {
    var call := StepWrite(s, k, c).calls[k];
    assert StepWrite(s, k, c).calls == Moved(s.calls, k, call) && call.req == c.req;
    assert Exec(s, Go(k)) == StepWrite(s, k, c);
  }

  lemma AloneOthersStay(s: State, k: CallId, q: Request)
    requires k !in s.calls
    ensures k in RunAlone(s, k, q).calls && RunAlone(s, k, q).calls == s.calls[k := RunAlone(s, k, q).calls[k]]
  {
    var s1, after := Exec(s, Start(k, q)), RunAlone(s, k, q);
    forall j | j != k
      ensures j in after.calls <==> j in s.calls
      ensures j in s.calls ==> after.calls[j] == s.calls[j]
    {
      OthersStay(s1, k, j, 4);
    }
    StaysStarted(s1, k, 4);
  }

  lemma {:induction false} StaysStarted(s: State, k: CallId, n: nat)
    requires k in s.calls
    ensures k in GoOn(s, k, n).calls
    decreases n
  {
    if n > 0 {
      OneMoves(s, k, k);
      StaysStarted(Exec(s, Go(k)), k, n - 1);
    }
  }

  /** The steps of a call, run without interference, do what the operation does as a whole. */
  lemma AloneIsApply(s: State, k: CallId, q: Request)
    requires Keyed(s.space) && k !in s.calls && s.lock.None?
    ensures var after := RunAlone(s, k, q);
            after.space == Apply(s.space, q) && after.lock.None?
            && after.calls == s.calls[k := Done(q, Outcome(s.space, q))]
  {
    var s1 := Exec(s, Start(k, q));
    AloneOthersStay(s, k, q);
    if q.ReqNewPrefix? {
      AddAlone(s1, k, q, 4);
    } else if q.ReqDelete? {
      DeleteAlone(s1, k, q, q.cidr, 4);
    } else if q.ReqReleaseChild? && q.copy.parentCidr.None? {
      EndedStays(s1, k, 4);
    } else {
      EditAlone(s1, k, q);
    }
  }

  /** Without interference no call ever meets a version conflict, so none is tried again. */
  lemma AloneNeverConflicts(space: Space, q: Request)
    requires Keyed(space)
    ensures Outcome(space, q) != Err(ErrOptimisticLock)
  {
    if IsEdit(q) && Target(q) in space {
      EditIsAtomic(space, q);
      if q.ReqReleaseChild? { assert Keyed(DoUnmark(space, q.copy).0); }
    }
  }
}
