/** Where the allocator falls short of its promises: the exact conditions, and runs that show it. */
module Limits {
  import opened Wrappers
  import opened Cidrs
  import opened FreeSpace
  import opened Counting
  import opened Records
  import opened Store
  import opened Ops
  import opened Edits
  import opened Forests
  import opened Protocol
  import opened Traces

  /** Some run leads to `s`. */
  ghost predicate Reachable(s: State) {
    exists steps :: After(steps) == s
  }

  /** Calls from `n` on have not started. */
  ghost predicate AllBelow(s: State, n: nat) {
    forall k :: k in s.calls ==> k < n
  }

  lemma ReachStart()
    ensures Reachable(INITIAL)
  {
    assert After([]) == INITIAL;
  }

  lemma ReachStep(s: State, step: Step)
    requires Reachable(s)
    ensures Reachable(Exec(s, step))
  {
    var steps :| After(steps) == s;
    assert (steps + [step])[..|steps|] == steps;
    assert After(steps + [step]) == Exec(s, step);
  }

  lemma {:induction false} ReachGoOn(s: State, k: CallId, n: nat)
    requires Reachable(s)
    ensures Reachable(GoOn(s, k, n))
    decreases n
  {
    if n > 0 {
      ReachStep(s, Go(k));
      ReachGoOn(Exec(s, Go(k)), k, n - 1);
    }
  }

  lemma ReachAlone(s: State, k: CallId, q: Request) returns (after: State)
    requires Reachable(s) && k !in s.calls && s.lock.None?
    ensures Reachable(after) && after.lock.None? && after.space == Apply(s.space, q)
    ensures after.calls == s.calls[k := Done(q, Outcome(s.space, q))]
  {
    var steps :| After(steps) == s;
    AlwaysInv(steps);
    forall c | c in s.space ensures s.space[c].cidr == c { assert LifeOk(c, s.hist[c]); }
    AloneIsApply(s, k, q);
    ReachStep(s, Start(k, q));
    ReachGoOn(Exec(s, Start(k, q)), k, 4);
    after := RunAlone(s, k, q);
  }

  /** A call has read its snapshot, and is about to write. */
  lemma ReachRead(s: State, k: CallId, q: Request) returns (after: State, c: Call)
    requires Reachable(s) && k !in s.calls && s.lock.None? && q.ReqAcquireIp? && Target(q) in s.space
    ensures Reachable(after) && after == s.(calls := s.calls[k := c])
    ensures c.Writing? && c.req == q && c.snap == s.space[Target(q)]
  {
    var started := Exec(s, Start(k, q));
    after := Exec(started, Go(k));
    c := after.calls[k];
    ReachStep(s, Start(k, q));
    ReachStep(started, Go(k));
  }

  /** The call's write goes through: the address is granted, and logged in the present life. */
  lemma ReachWrite(s: State, k: CallId, c: Call, t: Cidr) returns (after: State)
    requires Reachable(s) && k in s.calls && c == s.calls[k] && c.Writing? && c.req.ReqAcquireIp? && t == Target(c.req)
    requires EditOf(c.req, c.snap).Ok? && Update(s.space, EditOf(c.req, c.snap).value.0).Ok?
    ensures var (r, g) := EditOf(c.req, c.snap).value;
            && Reachable(after) && after.lock == s.lock && after.space == With(s.space, Bump(r))
            && after.calls == s.calls[k := Done(c.req, Ok(g))]
            && t in s.hist && t in after.hist && after.hist[t].number == s.hist[t].number
            && after.hist[t].log == s.hist[t].log + [Entry(k, c.req, g, Bump(r))]
            && after.receipts == s.receipts[k := Receipt(t, s.hist[t].number, |s.hist[t].log|, g)]
  {
    var steps :| After(steps) == s;
    AlwaysInv(steps);
    var (r, g) := EditOf(c.req, c.snap).value;
    WriteCases(s, k, c);
    CommitLife(s, k, c, r, g);
    after := Exec(s, Go(k));
    ReachStep(s, Go(k));
  }

  lemma AcquireOnly(s: State, k: CallId, c: Cidr, r: Record, a: Addr) returns (after: State)
    requires Reachable(s) && k !in s.calls && s.lock.None? && s.space == map[c := r]
    requires Canonical(c) && r.cidr == c && !r.isParent && Contains(c, a) && a !in r.ips
    ensures Reachable(after) && after.lock.None? && after.space == map[c := Bump(r.(ips := r.ips + {a}))]
    ensures after.calls == s.calls[k := Done(ReqAcquireIp(c, Some(a)), Ok(GotIp(a)))]
    ensures c in s.hist && c in after.hist && after.hist[c].number == s.hist[c].number
    ensures |after.hist[c].log| == |s.hist[c].log| + 1 && s.hist[c].log <= after.hist[c].log
    ensures after.hist[c].log[|s.hist[c].log|].grant == GotIp(a)
    ensures after.receipts == s.receipts[k := Receipt(c, s.hist[c].number, |s.hist[c].log|, GotIp(a))]
  {
    var q := ReqAcquireIp(c, Some(a));
    var edited := r.(ips := r.ips + {a});
    OnlyAcquired(c, r, a);
    var read, call := ReachRead(s, k, q);
    after := ReachWrite(read, k, call, c);
    assert read.calls[k := Done(q, Ok(GotIp(a)))] == s.calls[k := Done(q, Ok(GotIp(a)))];
  }

  lemma OnlyAcquired(c: Cidr, r: Record, a: Addr)
    requires Canonical(c) && r.cidr == c && !r.isParent && Contains(c, a) && a !in r.ips
    ensures var edited := r.(ips := r.ips + {a});
            && EditOf(ReqAcquireIp(c, Some(a)), r) == Ok((edited, GotIp(a)))
            && Update(map[c := r], edited) == Ok(map[c := Bump(edited)])
            && With(map[c := r], Bump(edited)) == map[c := Bump(edited)]
            && DoAcquireIp(map[c := r], c, Some(a)).0 == map[c := Bump(edited)]
  {
    var edited := r.(ips := r.ips + {a});
    UpdateNow(map[c := r], edited);
    assert With(map[c := r], Bump(edited)) == map[c := Bump(edited)];
  }

  lemma OnlyReleased(c: Cidr, r: Record, a: Addr)
    requires Canonical(c) && r.cidr == c && a in r.ips
    ensures DoReleaseIp(map[c := r], c, a).0 == map[c := Bump(r.(ips := r.ips - {a}))]
  {
    var edited := r.(ips := r.ips - {a});
    UpdateNow(map[c := r], edited);
    assert With(map[c := r], Bump(edited)) == map[c := Bump(edited)];
  }

  lemma ReleaseOnly(s: State, k: CallId, c: Cidr, r: Record, a: Addr) returns (after: State)
    requires Reachable(s) && k !in s.calls && s.lock.None? && s.space == map[c := r]
    requires Canonical(c) && r.cidr == c && a in r.ips
    ensures Reachable(after) && after.lock.None? && after.space == map[c := Bump(r.(ips := r.ips - {a}))]
    ensures after.calls == s.calls[k := Done(ReqReleaseIp(c, a), Ok(FreedIp(a)))]
  {
    var edited := r.(ips := r.ips - {a});
    UpdateNow(s.space, edited);
    assert With(s.space, Bump(edited)) == map[c := Bump(edited)];
    after := ReachAlone(s, k, ReqReleaseIp(c, a));
  }

  lemma DeleteOnly(s: State, k: CallId, c: Cidr, r: Record) returns (after: State)
    requires Reachable(s) && k !in s.calls && s.lock.None? && s.space == map[c := r]
    requires Canonical(c) && r.cidr == c && r.ips == Reserved(c)
    ensures Reachable(after) && after.lock.None? && after.space == map[]
    ensures after.calls == s.calls[k := Done(ReqDelete(c), Ok(Gone))]
  {
    HasIPsExact(r);
    assert Remove(s.space, c) == map[];
    after := ReachAlone(s, k, ReqDelete(c));
  }

  lemma NewOnly(s: State, k: CallId, c: Cidr) returns (after: State)
    requires Reachable(s) && k !in s.calls && s.lock.None? && s.space == map[] && Canonical(c)
    ensures Reachable(after) && after.lock.None? && after.space == map[c := NewRecord(c, None)]
    ensures after.calls == s.calls[k := Done(ReqNewPrefix(c), Ok(Born))] && after.receipts == s.receipts
    ensures c in after.hist && |after.hist[c].log| == 1 && after.hist[c].log[0].grant == Born
    ensures NewRecord(c, None).ips == Reserved(c) && NewRecord(c, None).cidr == c
  {
    NewRecordOk(c, None);
    var adding := ReachAdding(s, k, c);
    BornNow(adding, k, c);
    after := Exec(adding, Go(k));
    ReachStep(adding, Go(k));
    assert adding.calls[k := Done(ReqNewPrefix(c), Ok(Born))] == s.calls[k := Done(ReqNewPrefix(c), Ok(Born))];
  }

  lemma BornNow(adding: State, k: CallId, c: Cidr)
    requires k in adding.calls && adding.calls[k] == Adding(ReqNewPrefix(c)) && adding.space == map[] && Canonical(c)
    ensures var after := Exec(adding, Go(k));
            && after.lock.None? && after.space == map[c := NewRecord(c, None)]
            && after.calls == adding.calls[k := Done(ReqNewPrefix(c), Ok(Born))] && after.receipts == adding.receipts
            && c in after.hist && |after.hist[c].log| == 1 && after.hist[c].log[0].grant == Born
  {
    NewRecordOk(c, None);
    assert With(adding.space, NewRecord(c, None)) == map[c := NewRecord(c, None)];
    assert Exec(adding, Go(k)) == Birth(adding, k, ReqNewPrefix(c), NewRecord(c, None), Born).(lock := None);
  }

  lemma ReachAdding(s: State, k: CallId, c: Cidr) returns (adding: State)
    requires Reachable(s) && k !in s.calls && s.lock.None? && s.space == map[] && Canonical(c)
    ensures Reachable(adding) && adding == s.(calls := s.calls[k := Adding(ReqNewPrefix(c))], lock := Some(k))
  {
    var waiting := To(s, k, Waiting(ReqNewPrefix(c)));
    assert Exec(s, Start(k, ReqNewPrefix(c))) == waiting;
    ReachStep(s, Start(k, ReqNewPrefix(c)));
    ReachStep(waiting, Go(k));
    adding := Exec(waiting, Go(k));
    assert waiting.calls[k := Adding(ReqNewPrefix(c))] == s.calls[k := Adding(ReqNewPrefix(c))];
  }

  /** One address of a new prefix is held. */
  lemma OneHeld(c: Cidr, a: Addr) returns (s: State)
    requires Canonical(c) && Contains(c, a) && a !in Reserved(c)
    ensures Reachable(s) && s.lock.None? && s.space == map[c := Bump(NewRecord(c, None).(ips := Reserved(c) + {a}))]
    ensures AllBelow(s, 2) && forall k :: k in s.calls ==> !s.calls[k].req.ReqReleaseIp?
  {
    ReachStart();
    var born := NewOnly(INITIAL, 0, c);
    s := AcquireOnly(born, 1, c, NewRecord(c, None), a);
  }

  /** A call has read the record while `a` is held. */
  lemma LateReader(c: Cidr, a: Addr, q: Request) returns (s: State, late: Call)
    requires Canonical(c) && Contains(c, a) && a !in Reserved(c)
    requires q.ReqAcquireIp? && Target(q) == c
    ensures late.Writing? && late.req == q && Reachable(s) && s.lock.None? && s.space == map[c := late.snap]
    ensures AllBelow(s, 3) && 2 in s.calls && s.calls[2] == late
    ensures forall k :: k in s.calls ==> !s.calls[k].req.ReqReleaseIp?
    ensures late.snap == Bump(NewRecord(c, None).(ips := Reserved(c) + {a}))
  {
    var held := OneHeld(c, a);
    s, late := ReachRead(held, 2, q);
  }

  /** Then `a` was released and the prefix deleted. */
  lemma LeftOver(c: Cidr, a: Addr, q: Request) returns (s: State, late: Call)
    requires Canonical(c) && Contains(c, a) && a !in Reserved(c)
    requires q.ReqAcquireIp? && Target(q) == c
    ensures Reachable(s) && s.lock.None? && s.space == map[] && AllBelow(s, 5)
    ensures 2 in s.calls && late == s.calls[2] && late.Writing? && late.req == q
    ensures late.snap == Bump(NewRecord(c, None).(ips := Reserved(c) + {a}))
    ensures forall k, b :: k in s.calls && s.calls[k].req == ReqReleaseIp(c, b) ==> b == a
  {
    var s3;
    s3, late := LateReader(c, a, q);
    var s4 := ReleaseOnly(s3, 3, c, late.snap, a);
    assert late.snap.ips - {a} == Reserved(c);
    NewRecordOk(c, None);
    s := DeleteOnly(s4, 4, c, Bump(late.snap.(ips := Reserved(c))));
  }

  /** The prefix was created again and `b` granted in its new life. */
  lemma GrantedAnew(c: Cidr, a: Addr, b: Addr) returns (s: State, late: Call)
    requires Canonical(c) && Contains(c, a) && Contains(c, b) && a != b
    requires a !in Reserved(c) && b !in Reserved(c)
    ensures Reachable(s) && AllBelow(s, 7) && c in s.hist && |s.hist[c].log| == 2
    ensures 6 in s.calls && s.calls[6] == Done(ReqAcquireIp(c, Some(b)), Ok(GotIp(b)))
    ensures s.hist[c].log[1].grant == GotIp(b)
    ensures 6 in s.receipts && s.receipts[6].life == s.hist[c].number
    ensures 2 in s.calls && late == s.calls[2] && late.Writing? && late.req == ReqAcquireIp(c, Some(b))
    ensures late.snap == Bump(NewRecord(c, None).(ips := Reserved(c) + {a}))
    ensures c in s.space && s.space[c].version == late.snap.version
    ensures forall k :: k in s.calls ==> s.calls[k].req != ReqReleaseIp(c, b)
  {
    var s5;
    s5, late := LeftOver(c, a, ReqAcquireIp(c, Some(b)));
    var s6 := NewOnly(s5, 5, c);
    s := AcquireOnly(s6, 6, c, NewRecord(c, None), b);
  }

  /** Across lives of a prefix updates can be lost: for every prefix with two addresses to give, some
      run answers two calls with one address in one life, though no release of it was committed in that
      life, and none ever asked for. The version restarts when the prefix is created again, so a write
      left over from the earlier life goes through. */
  lemma GrantedTwice(c: Cidr, a: Addr, b: Addr) returns (s: State, k: CallId, l: CallId)
    requires Canonical(c) && Contains(c, a) && Contains(c, b) && a != b
    requires a !in Reserved(c) && b !in Reserved(c)
    ensures Reachable(s) && k != l && AnsweredIn(s, k, c, b) && AnsweredIn(s, l, c, b) && !Untainted(s, c)
    ensures exists i, j ::
              && 0 < i < j < |s.hist[c].log|
              && s.hist[c].log[i].grant == GotIp(b) && s.hist[c].log[j].grant == GotIp(b)
              && forall m :: i < m < j ==> s.hist[c].log[m].grant != FreedIp(b)
    ensures forall j :: j in s.calls ==> s.calls[j].req != ReqReleaseIp(c, b)
  {
    var s7, late := GrantedAnew(c, a, b);
    assert EditOf(late.req, late.snap).Ok? && EditOf(late.req, late.snap).value.1 == GotIp(b);
    s := ReachWrite(s7, 2, late, c);
    k, l := 2, 6;
    assert s.hist[c].log[1].grant == GotIp(b) && s.hist[c].log[2].grant == GotIp(b);
    TwiceInLog(s, c, b);
  }

  /** A log that grants `b` in its first two writes is not serial. */
  lemma TwiceInLog(s: State, c: Cidr, b: Addr)
    requires Reachable(s) && c in s.hist && |s.hist[c].log| == 3
    requires s.hist[c].log[1].grant == GotIp(b) && s.hist[c].log[2].grant == GotIp(b)
    ensures !Untainted(s, c)
  {
    if Untainted(s, c) {
      var steps :| After(steps) == s;
      GrantsAreApart(steps, c, b, 1, 2);
    }
  }

  /** A call has read the new record of `c`. */
  lemma EarlyReader(c: Cidr, q: Request) returns (s: State, early: Call)
    requires Canonical(c) && q.ReqAcquireIp? && Target(q) == c
    ensures Reachable(s) && s.lock.None? && s.space == map[c := NewRecord(c, None)] && AllBelow(s, 2)
    ensures 1 in s.calls && early == s.calls[1] && early.Writing? && early.req == q && early.snap == NewRecord(c, None)
    ensures NewRecord(c, None).cidr == c && NewRecord(c, None).ips == Reserved(c)
  {
    ReachStart();
    var s1 := NewOnly(INITIAL, 0, c);
    s, early := ReachRead(s1, 1, q);
  }

  /** Then `c` was deleted and `p` around it created. */
  lemma LeftOverInside(p: Cidr, c: Cidr, q: Request) returns (s: State, late: Call)
    requires Canonical(p) && Canonical(c) && q.ReqAcquireIp? && Target(q) == c
    ensures Reachable(s) && s.lock.None? && s.space == map[p := NewRecord(p, None)] && AllBelow(s, 4)
    ensures 1 in s.calls && late == s.calls[1] && late.Writing? && late.req == q && late.snap == NewRecord(c, None)
  {
    var s2;
    s2, late := EarlyReader(c, q);
    var s3 := DeleteOnly(s2, 2, c, NewRecord(c, None));
    s := NewOnly(s3, 3, p);
  }

  /** Then `c` was acquired as a child of `p`. */
  lemma LeftOverUnder(p: Cidr, c: Cidr, q: Request) returns (s: State, late: Call)
    requires Canonical(p) && Canonical(c) && Within(c, p) && p.bits < c.bits && q.ReqAcquireIp? && Target(q) == c
    ensures Reachable(s) && 1 in s.calls && late == s.calls[1]
    ensures late.Writing? && late.req == q && late.snap == NewRecord(c, None)
    ensures p in s.space && s.space[p].parentCidr.None? && c in s.space && s.space[c].version == 0
  {
    var s4;
    s4, late := LeftOverInside(p, c, q);
    OnlyChild(p, c);
    s := ReachAlone(s4, 4, ReqAcquireChild(p, Specific(c)));
  }

  /** Likewise a stale write brings back a parent field of an earlier life: of two stored prefixes
      whose records name no parent, one can lie inside the other. */
  lemma ParentlessMayOverlap(p: Cidr, c: Cidr, a: Addr) returns (s: State)
    requires Canonical(p) && Canonical(c) && Within(c, p) && p.bits < c.bits
    requires Contains(c, a) && a !in Reserved(c)
    ensures Reachable(s) && p in s.space && c in s.space && Overlaps(p, c)
    ensures s.space[p].parentCidr.None? && s.space[c].parentCidr.None?
  {
    var s5, late := LeftOverUnder(p, c, ReqAcquireIp(c, Some(a)));
    NewRecordOk(c, None);
    s := ReachWrite(s5, 1, late, c);
    Geometry(p, c);
  }

  /** A parent with a single, fresh child. */
  function WithChild(p: Cidr, c: Cidr): Space {
    map[p := Bump(NewRecord(p, None).(children := map[c := false], isParent := true)),
        Masked(c) := NewRecord(c, Some(p))]
  }

  lemma OnlyChild(p: Cidr, c: Cidr)
    requires Canonical(p) && Within(c, p) && p.bits < c.bits
    ensures Masked(c) != p && DoAcquireChild(map[p := NewRecord(p, None)], p, Specific(c)).0 == WithChild(p, c)
    ensures DoAcquireChild(map[p := NewRecord(p, None)], p, Specific(c)).1.Ok?
  {
    var r := NewRecord(p, None);
    NewRecordOk(p, None);
    MaskedIsCanonical(c);
    HasIPsExact(r);
    GrantableIff(r, c);
    SelectChildExact(r, Specific(c));
    var edited := AcquireChild(r, Specific(c)).value.0;
    assert edited.children == map[c := false];
    UpdateNow(map[p := r], edited);
    assert NewRecord(c, Some(p)).cidr == Masked(c) && MaskedOption(Some(p)) == Some(p);
    assert With(With(map[p := r], Bump(edited)), NewRecord(c, Some(p))) == WithChild(p, c);
  }

  /** Releasing a stored child by its own record: it goes exactly if it holds no host address. A
      refusal leaves the store alone, except for an IPv6 child with exactly one acquired address: the
      release limit counts as for IPv4, so its range is given back while it stays stored. */
  lemma ReleaseOfOwnRecord(space: Space, c: Cidr)
    requires Forest(space) && c in space && space[c].parentCidr.Some?
    ensures var copy, p := space[c], space[c].parentCidr.value;
            var (after, out) := DoReleaseChild(space, copy);
            && (out.Ok? <==> !HasIPs(copy)) && (out.Ok? ==> c !in after)
            && (out.Err? ==> out == Err(ErrHasIPs) && c in after && after[c] == copy
                             && (after == space <==> !(c.family.V6? && |copy.ips| == 2))
                             && (after != space ==> p in after && c !in Taken(after[p].children)))
  {
    var copy, p := space[c], space[c].parentCidr.value;
    ParentHolds(space, c);
    assert StoredOk(space, p) && StoredOk(space, c);
    assert Masked(p) == p && Masked(c) == c && space[p].isParent;
    if |copy.ips| <= 2 {
      var r := space[p].(children := space[p].children[c := true]);
      UpdateNow(space, r);
      assert DoUnmark(space, copy) == (With(space, Bump(r)), Ok(()));
      assert With(space, Bump(r))[p].version != space[p].version;
    }
  }

  lemma SpecificHeld(space: Space, parent: Cidr, c: Cidr)
    requires Forest(space) && DoAcquireChild(space, parent, Specific(c)).1.Ok?
    ensures var p := Masked(parent);
            var (held, child) := DoAcquireChild(space, parent, Specific(c));
            && p in space && Canonical(p) && p in held && child.value == NewRecord(c, Some(p))
            && Masked(c) in held && held[Masked(c)] == child.value && p != Masked(c)
            && held[p].isParent && held[p].cidr == p
            && c !in Taken(space[p].children) && Taken(held[p].children) == Taken(space[p].children) + {c}
            && Masked(c) !in Taken(space[p].children)
  {
    var p := Masked(parent);
    assert StoredOk(space, p);
    var r := AcquireChild(space[p], Specific(c)).value.0;
    SelectChildExact(space[p], Specific(c));
    UpdateNow(space, r);
    AcquireChildOk(space[p], Specific(c));
    SelectedChildIsFree(space[p], Specific(c));
    MaskedIsCanonical(parent);
    MaskedIsCanonical(c);
    Geometry(c, Masked(c));
  }

  /** A specific child is marked as the caller spelled it and stored masked, so releasing the record
      that was returned frees its range exactly if the request carried no host bits. */
  lemma ReleaseFreesIff(space: Space, parent: Cidr, c: Cidr)
    requires Forest(space) && DoAcquireChild(space, parent, Specific(c)).1.Ok?
    ensures var p := Masked(parent);
            var (held, child) := DoAcquireChild(space, parent, Specific(c));
            var (after, out) := DoReleaseChild(held, child.value);
            && out.Ok? && p in after
            && Taken(after[p].children) == Taken(space[p].children) + if Canonical(c) then {} else {c}
  {
    var p := Masked(parent);
    SpecificHeld(space, parent, c);
    FreshReleased(DoAcquireChild(space, parent, Specific(c)).0, p, c);
  }

  /** Releasing a fresh child by its record removes the mark of its masked name. */
  lemma FreshReleased(held: Space, p: Cidr, c: Cidr)
    requires p in held && Canonical(p) && held[p].cidr == p && held[p].isParent && p != Masked(c)
    requires Masked(c) in held && held[Masked(c)] == NewRecord(c, Some(p))
    ensures var (after, out) := DoReleaseChild(held, NewRecord(c, Some(p)));
            && out.Ok? && after.Keys == held.Keys - {Masked(c)} && p in after && after[p].cidr == p
            && after[p].ips == held[p].ips && Taken(after[p].children) == Taken(held[p].children) - {Masked(c)}
  {
    var child := NewRecord(c, Some(p));
    NewRecordOk(c, Some(p));
    MaskedIsCanonical(c);
    HasIPsExact(child);
    ReservedAtMostTwo(Masked(c));
    var freed := held[p].(children := held[p].children[Masked(c) := true]);
    UpdateNow(held, freed);
    assert DoUnmark(held, child) == (With(held, Bump(freed)), Ok(()));
    assert Taken(freed.children) == Taken(held[p].children) - {Masked(c)};
  }

  /** A delete has checked the prefix, and is about to delete. */
  lemma ReachChecked(s: State, k: CallId, c: Cidr, r: Record) returns (after: State)
    requires Reachable(s) && k !in s.calls && s.lock.None? && s.space == map[c := r]
    requires Canonical(c) && r.cidr == c && r.ips == Reserved(c)
    ensures Reachable(after)
    ensures after == s.(calls := s.calls[k := Deleting(ReqDelete(c), c, LifeNumber(s, c), r.version)])
  {
    HasIPsExact(r);
    var checking := To(s, k, Checking(ReqDelete(c), c));
    assert Exec(s, Start(k, ReqDelete(c))) == checking;
    ReachStep(s, Start(k, ReqDelete(c)));
    ReachStep(checking, Go(k));
    after := Exec(checking, Go(k));
    var call := Deleting(ReqDelete(c), c, LifeNumber(s, c), r.version);
    CheckAlone(checking, k, ReqDelete(c), c);
    assert checking.calls[k := call] == s.calls[k := call];
  }

  /** No call asks to release anything. */
  ghost predicate NothingReleased(s: State) {
    forall k :: k in s.calls ==> !s.calls[k].req.ReqReleaseIp? && !s.calls[k].req.ReqReleaseChild?
  }

  /** A prefix is created, and a delete of it has checked. */
  lemma {:induction false} CheckedFirst(c: Cidr) returns (s: State)
    requires Canonical(c)
    ensures Reachable(s) && s.lock.None? && NothingReleased(s) && AllBelow(s, 2) && 1 in s.calls
    ensures s.space == map[c := NewRecord(c, None)] && c in s.hist && |s.hist[c].log| == 1
    ensures s.calls[1] == Deleting(ReqDelete(c), c, s.hist[c].number, 0)
    ensures NewRecord(c, None).ips == Reserved(c) && NewRecord(c, None).cidr == c
  {
    ReachStart();
    var s1 := NewOnly(INITIAL, 0, c);
    s := ReachChecked(s1, 1, c, NewRecord(c, None));
  }

  lemma OneHost(c: Cidr, a: Addr)
    requires Canonical(c) && Contains(c, a) && a !in Reserved(c)
    ensures HasIPs(Bump(NewRecord(c, None).(ips := Reserved(c) + {a})))
  {
    var held := Bump(NewRecord(c, None).(ips := Reserved(c) + {a}));
    NewRecordOk(c, None);
    assert Hosts(held) == {a} && ReservedFreed(held) == {};
    HasIPsCounts(held);
  }

  /** A delete takes a held address although nothing was ever released: for every prefix with an address
      to give, call `k` acquires it between the check and the delete of call `d`. */
  lemma {:induction false} DeletedWhileHeld(c: Cidr, a: Addr) returns (s: State, k: CallId, d: CallId)
    requires Canonical(c) && Contains(c, a) && a !in Reserved(c)
    ensures Reachable(s) && s.lock.None? && NothingReleased(s) && AllBelow(s, 3)
    ensures s.space == map[c := Bump(NewRecord(c, None).(ips := Reserved(c) + {a}))] && HasIPs(s.space[c])
    ensures AnsweredIn(s, k, c, a) && s.calls[k] == Done(ReqAcquireIp(c, Some(a)), Ok(GotIp(a)))
    ensures d in s.calls && s.calls[d].Deleting? && s.calls[d].cidr == c && k != d
    ensures !UnchangedSinceCheck(s, d) && Exec(s, Go(d)).space == map[]
  {
    var checked := CheckedFirst(c);
    s := AcquireOnly(checked, 2, c, NewRecord(c, None), a);
    k, d := 2, 1;
    OneHost(c, a);
    DeleteRemoves(s, d);
    assert Remove(s.space, c) == map[];
  }

  /** After the delete the address is free to be granted again. */
  lemma {:induction false} GoneWhileHeld(c: Cidr, a: Addr) returns (s: State, k: CallId)
    requires Canonical(c) && Contains(c, a) && a !in Reserved(c)
    ensures Reachable(s) && s.lock.None? && NothingReleased(s) && AllBelow(s, 3) && s.space == map[]
    ensures k in s.calls && s.calls[k] == Done(ReqAcquireIp(c, Some(a)), Ok(GotIp(a)))
  {
    var held, first, d := DeletedWhileHeld(c, a);
    s := ReachDeleted(held, d);
    k := first;
  }

  /** Two calls are answered with one address, with no release ever asked for. */
  lemma {:induction false} GrantedAgain(c: Cidr, a: Addr) returns (s: State, k: CallId, l: CallId)
    requires Canonical(c) && Contains(c, a) && a !in Reserved(c)
    ensures Reachable(s) && NothingReleased(s) && k in s.calls && l in s.calls && k != l
    ensures s.calls[k] == s.calls[l] == Done(ReqAcquireIp(c, Some(a)), Ok(GotIp(a)))
  {
    var gone;
    gone, k := GoneWhileHeld(c, a);
    var anew := NewOnly(gone, 3, c);
    s := AcquireOnly(anew, 4, c, NewRecord(c, None), a);
    l := 4;
  }

  lemma ReachDeleted(s: State, d: CallId) returns (after: State)
    requires Reachable(s) && d in s.calls && s.calls[d].Deleting?
    ensures Reachable(after) && after.space == Exec(s, Go(d)).space && after.lock == s.lock
    ensures after.calls == s.calls[d := Done(s.calls[d].req, Ok(DeleteAnswer(s.calls[d].req)))]
  {
    ReachStep(s, Go(d));
    after := Exec(s, Go(d));
  }

  lemma {:induction false} ApplyOneMore(qs: seq<Request>, q: Request)
    ensures ApplyAll(map[], qs + [q]) == Apply(ApplyAll(map[], qs), q)
  {
    assert (qs + [q])[..|qs|] == qs;
  }

  lemma NewInEmpty(c: Cidr)
    requires Canonical(c)
    ensures NewRecord(c, None).cidr == c && NewRecord(c, None).ips == Reserved(c)
    ensures ApplyAll(map[], [ReqNewPrefix(c)]) == map[c := NewRecord(c, None)]
  {
    NewRecordOk(c, None);
    ApplyOneMore([], ReqNewPrefix(c));
    assert [] + [ReqNewPrefix(c)] == [ReqNewPrefix(c)];
    assert ApplyAll(map[], []) == map[];
  }

  /** Create a prefix, acquire an address, release a reserved one, delete the prefix. */
  function HidingRun(c: Cidr, a: Addr, freed: Addr): seq<Request> {
    [ReqNewPrefix(c)] + [ReqAcquireIp(c, Some(a))] + [ReqReleaseIp(c, freed)] + [ReqDelete(c)]
  }

  /** A run in which a prefix goes although its address `a` is held: possible for every prefix with an
      address to give, of either family. */
  lemma {:induction false} HeldAddressDeleted(c: Cidr, a: Addr, freed: Addr)
    requires Canonical(c) && Contains(c, a) && a !in Reserved(c) && freed in Reserved(c)
    ensures var before := ApplyAll(map[], HidingRun(c, a, freed)[..3]);
            c in before && Hosts(before[c]) == {a} && !HasIPs(before[c])
    ensures ApplyAll(map[], HidingRun(c, a, freed)) == map[]
  {
    var qs := HidingRun(c, a, freed);
    var born := NewRecord(c, None);
    var held := Bump(born.(ips := born.ips + {a}));
    var hidden := Bump(held.(ips := held.ips - {freed}));
    NewInEmpty(c);
    OnlyAcquired(c, born, a);
    OnlyReleased(c, held, freed);
    ApplyOneMore(qs[..1], qs[1]);
    ApplyOneMore(qs[..2], qs[2]);
    ApplyOneMore(qs[..3], qs[3]);
    assert qs[..1] == [qs[0]] && qs[..2] == qs[..1] + [qs[1]];
    assert qs[..3] == qs[..2] + [qs[2]] && qs == qs[..3] + [qs[3]];
    assert Hosts(held) == {a} && hidden.ips == held.ips - {freed};
    ReservedReleaseHidesAHost(held, freed);
    assert Remove(map[c := hidden], c) == map[];
  }

  /** The run that creates `p` and acquires the child `c` in it. */
  lemma ChildRun(p: Cidr, c: Cidr)
    requires Canonical(p) && Within(c, p) && p.bits < c.bits
    ensures Masked(c) != p
    ensures ApplyAll(map[], [ReqNewPrefix(p), ReqAcquireChild(p, Specific(c))]) == WithChild(p, c)
    ensures Canonical(c) ==> Forest(WithChild(p, c))
  {
    var qs := [ReqNewPrefix(p), ReqAcquireChild(p, Specific(c))];
    NewInEmpty(p);
    OnlyChild(p, c);
    assert qs == [qs[0]] + [qs[1]];
    ApplyOneMore([qs[0]], qs[1]);
    EmptyIsForest();
    KeepsForestIff(map[], qs[0]);
    assert Apply(map[], qs[0]) == map[p := NewRecord(p, None)] by {
      ApplyOneMore([], qs[0]);
      assert [] + [qs[0]] == [qs[0]];
    }
    KeepsForestIff(map[p := NewRecord(p, None)], qs[1]);
  }

  /** Deleting a parent leaves its live child without a stored parent. */
  lemma {:induction false} ParentDeleted(p: Cidr, c: Cidr)
    requires Canonical(p) && Canonical(c) && Within(c, p) && p.bits < c.bits
    ensures var qs := [ReqNewPrefix(p), ReqAcquireChild(p, Specific(c))];
            && Forest(ApplyAll(map[], qs))
            && var after := ApplyAll(map[], qs + [ReqDelete(p)]);
            && c in after && after[c].parentCidr == Some(p) && p !in after && !Forest(after)
  {
    var qs := [ReqNewPrefix(p), ReqAcquireChild(p, Specific(c))];
    ChildRun(p, c);
    ApplyOneMore(qs, ReqDelete(p));
    var held := WithChild(p, c);
    NewRecordOk(p, None);
    NewRecordOk(c, Some(p));
    HasIPsExact(held[p]);
    var after := Remove(held, p);
    assert DoDelete(held, p).0 == after;
    assert !ParentMarks(after, c);
  }

  /** A child with host bits is acquired and released again: nothing is stored below `p` any more, and
      still its range is refused. */
  lemma {:induction false} RangeLost(p: Cidr, c: Cidr)
    requires Canonical(p) && !Canonical(c) && Within(c, p) && p.bits < c.bits
    ensures var qs := [ReqNewPrefix(p), ReqAcquireChild(p, Specific(c))] + [ReqReleaseChild(NewRecord(c, Some(p)))];
            var after := ApplyAll(map[], qs);
            && after.Keys == {p} && !FreeOf(c, Taken(after[p].children))
            && SelectChild(after[p], Specific(Masked(c))).Err?
  {
    ChildRun(p, c);
    ApplyOneMore([ReqNewPrefix(p), ReqAcquireChild(p, Specific(c))], ReqReleaseChild(NewRecord(c, Some(p))));
    var held := WithChild(p, c);
    NewRecordOk(p, None);
    NewRecordOk(c, Some(p));
    MaskedIsCanonical(c);
    FreshReleased(held, p, c);
    var after := DoReleaseChild(held, NewRecord(c, Some(p))).0;
    assert held[p].children == map[c := false];
    assert Taken(held[p].children) == {c};
    Geometry(c, c);
    Geometry(c, Masked(c));
    GrantableIff(after[p], Masked(c));
  }

  /** The child `c` of `p` holds the address `a`. */
  function Occupied(p: Cidr, c: Cidr, a: Addr): Space {
    WithChild(p, c)[c := OccupiedChild(p, c, a)]
  }

  function OccupiedChild(p: Cidr, c: Cidr, a: Addr): Record {
    Bump(NewRecord(c, Some(p)).(ips := NewRecord(c, Some(p)).ips + {a}))
  }

  /** Its parent no longer marks it. */
  function Disowned(p: Cidr, c: Cidr, a: Addr): Space {
    var r := WithChild(p, c)[p];
    Occupied(p, c, a)[p := Bump(r.(children := map[c := true]))]
  }

  lemma OccupyChild(p: Cidr, c: Cidr, a: Addr)
    requires Canonical(p) && Canonical(c) && Within(c, p) && p.bits < c.bits && Contains(c, a) && a !in Reserved(c)
    ensures DoAcquireIp(WithChild(p, c), c, Some(a)).0 == Occupied(p, c, a)
  {
    var held, r := WithChild(p, c), NewRecord(c, Some(p));
    NewRecordOk(c, Some(p));
    assert held[c] == r && !r.isParent && a !in r.ips;
    UpdateNow(held, r.(ips := r.ips + {a}));
  }

  lemma DisownChild(p: Cidr, c: Cidr, a: Addr)
    requires Canonical(p) && Canonical(c) && Within(c, p) && p.bits < c.bits && Contains(c, a) && a !in Reserved(c)
    requires c.family.V6?
    ensures DoReleaseChild(Occupied(p, c, a), OccupiedChild(p, c, a)) == (Disowned(p, c, a), Err(ErrHasIPs))
  {
    var held, copy := Occupied(p, c, a), OccupiedChild(p, c, a);
    NewRecordOk(p, None);
    NewRecordOk(c, Some(p));
    assert c != p && copy.ips == {FirstAddr(c), a} && |copy.ips| == 2;
    assert held[p] == WithChild(p, c)[p] && held[p].cidr == p;
    var r := held[p].(children := held[p].children[c := true]);
    assert r.children == map[c := true];
    UpdateNow(held, r);
    assert DoUnmark(held, copy) == (With(held, Bump(r)), Ok(()));
    assert With(held, Bump(r)) == Disowned(p, c, a) && HasIPs(copy);
  }

  lemma GrantAround(p: Cidr, d: Cidr, c: Cidr, a: Addr)
    requires Canonical(p) && Canonical(d) && Canonical(c) && c.family.V6?
    requires Within(c, d) && Within(d, p) && p.bits < d.bits < c.bits
    ensures var (after, out) := DoAcquireChild(Disowned(p, c, a), p, Specific(d));
            && out.Ok? && after.Keys == {p, c, d} && after[c] == OccupiedChild(p, c, a)
            && after[d].parentCidr == Some(p) && after[p].parentCidr.None?
  {
    var space := Disowned(p, c, a);
    var r := space[p];
    NewRecordOk(d, Some(p));
    Geometry(p, c);
    assert c != p && d != c && d != p;
    AroundIsGrantable(p, d, c, a);
    UpdateNow(space, AcquireChild(r, Specific(d)).value.0);
  }

  lemma AroundIsGrantable(p: Cidr, d: Cidr, c: Cidr, a: Addr)
    requires Canonical(p) && Within(d, p) && p.bits < d.bits && Canonical(c) && c != p
    ensures var r := Disowned(p, c, a)[p];
            r.cidr == p && r.parentCidr.None? && SelectChild(r, Specific(d)) == Ok(d)
  {
    var r := Disowned(p, c, a)[p];
    NewRecordOk(p, None);
    assert Taken(r.children) == {};
    HasIPsExact(r);
    GrantableIff(r, d);
    SelectChildExact(r, Specific(d));
  }

  /** Create `p`, acquire the child `c` in it, acquire the address `a` in that. */
  function OccupyRun(p: Cidr, c: Cidr, a: Addr): seq<Request> {
    [ReqNewPrefix(p), ReqAcquireChild(p, Specific(c))] + [ReqAcquireIp(c, Some(a))]
  }

  lemma OccupiedByRun(p: Cidr, c: Cidr, a: Addr)
    requires Canonical(p) && Canonical(c) && Within(c, p) && p.bits < c.bits && Contains(c, a) && a !in Reserved(c)
    ensures ApplyAll(map[], OccupyRun(p, c, a)) == Occupied(p, c, a) && Forest(Occupied(p, c, a))
  {
    ChildRun(p, c);
    ApplyOneMore([ReqNewPrefix(p), ReqAcquireChild(p, Specific(c))], ReqAcquireIp(c, Some(a)));
    OccupyChild(p, c, a);
    AcquireIpKeeps(WithChild(p, c), c, Some(a));
  }

  /** An IPv6 child with one acquired address is released: it stays stored, yet a larger child is then
      granted around it. Two stored prefixes overlap with no ancestor link between them. */
  lemma {:induction false} OverlapAfterRelease(p: Cidr, d: Cidr, c: Cidr, a: Addr)
    requires Canonical(p) && Canonical(d) && Canonical(c) && c.family.V6?
    requires Within(c, d) && Within(d, p) && p.bits < d.bits < c.bits && Contains(c, a) && a !in Reserved(c)
    ensures var before := ApplyAll(map[], OccupyRun(p, c, a));
            && Forest(before) && c in before
            && var qs := OccupyRun(p, c, a) + [ReqReleaseChild(before[c])] + [ReqAcquireChild(p, Specific(d))];
            var after := ApplyAll(map[], qs);
            && c in after && d in after && after[c] == before[c] && Overlaps(c, d)
            && !Ancestor(after, c, d) && !Ancestor(after, d, c)
  {
    Geometry(p, c);
    OccupiedByRun(p, c, a);
    assert Occupied(p, c, a)[c] == OccupiedChild(p, c, a);
    AroundByRun(p, d, c, a);
    GrantAround(p, d, c, a);
    Unrelated(DoAcquireChild(Disowned(p, c, a), p, Specific(d)).0, p, d, c);
    Geometry(d, c);
    Geometry(c, d);
  }

  lemma AroundByRun(p: Cidr, d: Cidr, c: Cidr, a: Addr)
    requires Canonical(p) && Canonical(c) && c.family.V6? && Within(c, p) && p.bits < c.bits
    requires Contains(c, a) && a !in Reserved(c)
    ensures var release, acquire := ReqReleaseChild(OccupiedChild(p, c, a)), ReqAcquireChild(p, Specific(d));
            var qs := OccupyRun(p, c, a) + [release] + [acquire];
            ApplyAll(map[], qs) == DoAcquireChild(Disowned(p, c, a), p, Specific(d)).0
  {
    var qs, copy := OccupyRun(p, c, a), OccupiedChild(p, c, a);
    OccupiedByRun(p, c, a);
    ApplyOneMore(qs, ReqReleaseChild(copy));
    DisownChild(p, c, a);
    ApplyOneMore(qs + [ReqReleaseChild(copy)], ReqAcquireChild(p, Specific(d)));
  }

  /** Two children of one root are no ancestors of each other. */
  lemma Unrelated(space: Space, p: Cidr, d: Cidr, c: Cidr)
    requires p in space && c in space && d in space && p != d && p != c
    requires space[p].parentCidr.None? && space[c].parentCidr == Some(p) && space[d].parentCidr == Some(p)
    ensures !Ancestor(space, c, d) && !Ancestor(space, d, c)
  {
  }
}
