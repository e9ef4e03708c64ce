/** The tree of prefixes under concurrent calls. As long as nothing of it is given back, every
    interleaving leaves the store as some sequential run would, but for children just being stored. */
module Trees {
  import opened Wrappers
  import opened Cidrs
  import opened Counting
  import opened Records
  import opened Store
  import opened Ops
  import opened Edits
  import opened Forests
  import opened Protocol
  import opened Traces

  /** Requests that give nothing of the tree back: no delete, no release of a child or of a reserved
      address, and no child with host bits. */
  predicate Adds(q: Request) {
    match q
    case ReqAcquireIp(_, _) => true
    case ReqReleaseIp(c, ip) => ip !in Reserved(Masked(c))
    case ReqAcquireChild(_, want) => want.OfLength? || Canonical(want.child)
    case ReqNewPrefix(_) => true
    case ReqReleaseChild(_) => false
    case ReqDelete(_) => false
  }

  ghost predicate OnlyAdds(steps: seq<Step>) {
    forall step :: step in steps && step.Start? ==> Adds(step.req)
  }

  /** The call has taken effect: it succeeded, or has marked the child it is storing. */
  predicate Effective(call: Call) {
    call.Creating? || (call.Done? && call.outcome.Ok?)
  }

  /** The call took effect, with the answer that its request has when run alone on `full`. */
  ghost predicate AnswersOn(call: Call, full: Space, q: Request) {
    && call.req == q && Effective(call)
    && Outcome(full, q) == if call.Creating? then Ok(GotChild(call.child)) else call.outcome
  }

  ghost predicate AnswersAt(calls: map<CallId, Call>, ids: seq<CallId>, qs: seq<Request>, i: nat)
    requires i < |ids| && i < |qs|
  {
    ids[i] in calls && AnswersOn(calls[ids[i]], ApplyAll(map[], qs[..i]), qs[i])
  }

  /** The run `qs` serves the calls that took effect, each once: `ids[i]` made the request `qs[i]` and has
      the answer it has at that place of the run. */
  ghost predicate Serves(calls: map<CallId, Call>, ids: seq<CallId>, qs: seq<Request>) {
    && |ids| == |qs|
    && (forall i {:trigger AnswersAt(calls, ids, qs, i)} :: 0 <= i < |ids| ==> AnswersAt(calls, ids, qs, i))
    && (forall i, j :: 0 <= i < j < |ids| ==> ids[i] != ids[j])
    && (forall k :: k in calls ==> (k in ids <==> Effective(calls[k])))
  }

  ghost predicate OnlyAddingCalls(calls: map<CallId, Call>) {
    forall k :: k in calls ==> Adds(calls[k].req) && !calls[k].Checking? && !calls[k].Deleting?
  }

  ghost predicate FirstLives(space: Space, hist: map<Cidr, Life>) {
    forall c :: c in hist ==> c in space && hist[c].number == 1
  }

  /** Call `k` has marked `c` and is about to store its record. */
  ghost predicate Creates(calls: map<CallId, Call>, k: CallId, c: Cidr) {
    k in calls && calls[k].Creating? && calls[k].child == c
  }

  ghost predicate Upcoming(space: Space, calls: map<CallId, Call>, full: Space, k: CallId) {
    k in calls && calls[k].Creating? ==>
      var c := calls[k].child;
      && Canonical(c) && c !in space && c in full
      && full[c] == NewRecord(c, Some(Target(calls[k].req)))
  }

  /** `full` is the store together with the children that are about to be stored, each by one call. */
  ghost predicate Completes(space: Space, calls: map<CallId, Call>, full: Space) {
    && (forall c :: c in space ==> c in full && full[c] == space[c])
    && (forall k {:trigger Upcoming(space, calls, full, k)} :: Upcoming(space, calls, full, k))
    && (forall c :: c in full ==> c in space || exists k :: Creates(calls, k, c))
    && (forall k, l, c :: Creates(calls, k, c) && Creates(calls, l, c) ==> k == l)
  }

  /** A root about to be created clashes with nothing. */
  ghost predicate AddingApart(calls: map<CallId, Call>, full: Space) {
    forall k :: k in calls && calls[k].Adding? ==> !Clashes(full, Target(calls[k].req))
  }

  ghost predicate TreeInv(s: State, full: Space) {
    && OnlyAddingCalls(s.calls) && FirstLives(s.space, s.hist) && Forest(full)
    && Completes(s.space, s.calls, full) && AddingApart(s.calls, full)
  }

  /** A call moves between two accesses that write nothing. */
  lemma MoveKeepsTree(s: State, k: CallId, call: Call, full: Space)
    requires TreeInv(s, full) && (k in s.calls ==> !s.calls[k].Creating?)
    requires Adds(call.req) && !call.Creating? && !call.Checking? && !call.Deleting?
    requires call.Adding? ==> !Clashes(full, Target(call.req))
    ensures TreeInv(To(s, k, call), full)
  {
    var calls := s.calls[k := call];
    assert forall j, c :: Creates(calls, j, c) == Creates(s.calls, j, c);
    forall j ensures Upcoming(s.space, calls, full, j) { assert Upcoming(s.space, s.calls, full, j); }
  }

  /** A record with a taken child is stored: a new record has none. */
  lemma MarkerIsStored(s: State, full: Space, p: Cidr, c: Cidr)
    requires TreeInv(s, full) && MarkedIn(full, c, p)
    ensures p in s.space && s.space[p] == full[p]
  {
    forall k | Creates(s.calls, k, p) ensures full[p].children == map[] {
      assert Upcoming(s.space, s.calls, full, k);
    }
  }

  /** What does not clash with the stored prefixes does not clash with the upcoming ones. */
  lemma NoHiddenClash(s: State, full: Space, t: Cidr)
    requires TreeInv(s, full) && !Clashes(s.space, t)
    ensures !Clashes(full, t)
  {
    forall c | c in full ensures !Overlaps(c, t) {
      if c !in s.space {
        var k :| Creates(s.calls, k, c);
        assert Upcoming(s.space, s.calls, full, k);
        ParentHolds(full, c);
        var p := full[c].parentCidr.value;
        MarkerIsStored(s, full, p, c);
        InsideIsApart(c, p, t);
      }
    }
  }

  lemma InsideIsApart(c: Cidr, p: Cidr, t: Cidr)
    requires Within(c, p) && !Overlaps(p, t)
    ensures !Overlaps(c, t)
  {
    Geometry(p, t);
    Geometry(c, t);
  }

  /** The records change in place: the new record takes the old one's place in both. */
  lemma EditKeepsTree(s: State, k: CallId, call: Call, r: Record, hist: map<Cidr, Life>, full: Space)
    requires TreeInv(s, full) && k in s.calls && s.calls[k].Writing? && r.cidr in s.space && call.Done?
    requires call.req == s.calls[k].req && FirstLives(With(s.space, r), hist) && Forest(With(full, r))
    ensures TreeInv(s.(space := With(s.space, r), calls := s.calls[k := call], hist := hist), With(full, r))
  {
    EditCompletes(s.space, s.calls, k, call, full, r);
    SameKeysClash(full, r);
  }

  lemma EditCompletes(space: Space, calls: map<CallId, Call>, k: CallId, call: Call, full: Space, r: Record)
    requires Completes(space, calls, full) && k in calls && !calls[k].Creating? && call.Done? && r.cidr in space
    ensures Completes(With(space, r), calls[k := call], With(full, r))
  {
    var moved := calls[k := call];
    assert forall j, c :: Creates(moved, j, c) == Creates(calls, j, c);
    forall j ensures Upcoming(With(space, r), moved, With(full, r), j) { assert Upcoming(space, calls, full, j); }
  }

  lemma SameKeysClash(full: Space, r: Record)
    requires r.cidr in full
    ensures forall t :: Clashes(With(full, r), t) == Clashes(full, t)
  {
    assert With(full, r).Keys == full.Keys;
  }

  /** A child is marked in its stored parent, and its record is upcoming. */
  lemma MarkKeepsTree(s: State, k: CallId, q: Request, r: Record, c: Cidr, hist: map<Cidr, Life>,
                                         full: Space)
    requires TreeInv(s, full) && k in s.calls && s.calls[k].Writing? && s.calls[k].req == q && r.cidr in s.space
    requires r.cidr == Target(q) && Canonical(c) && c !in full && Within(c, r.cidr)
    requires FirstLives(With(s.space, r), hist) && Forest(With(With(full, r), NewRecord(c, Some(r.cidr))))
    ensures TreeInv(s.(space := With(s.space, r), calls := s.calls[k := Creating(q, c)], hist := hist),
                    With(With(full, r), NewRecord(c, Some(r.cidr))))
  {
    MarkedCompletes(s.space, s.calls, k, q, full, r, c);
    MarkedApart(s.calls, k, q, full, r, c);
  }

  lemma MarkedCompletes(space: Space, calls: map<CallId, Call>, k: CallId, q: Request, full: Space,
                                           r: Record, c: Cidr)
    requires Completes(space, calls, full) && k in calls && !calls[k].Creating? && r.cidr in space
    requires r.cidr == Target(q) && Canonical(c) && c !in full
    ensures Completes(With(space, r), calls[k := Creating(q, c)], With(With(full, r), NewRecord(c, Some(r.cidr))))
  {
    var after, moved := With(space, r), calls[k := Creating(q, c)];
    var next := With(With(full, r), NewRecord(c, Some(r.cidr)));
    assert NewRecord(c, Some(r.cidr)).cidr == c;
    assert forall j, d :: Creates(moved, j, d) <==> Creates(calls, j, d) || (j == k && d == c);
    forall j ensures Upcoming(after, moved, next, j) { assert Upcoming(space, calls, full, j); }
    forall j, d | Creates(calls, j, d) ensures d in full { assert Upcoming(space, calls, full, j); }
    forall d | d in next ensures d in after || exists j :: Creates(moved, j, d) {
      if d == c { assert Creates(moved, k, c); }
    }
  }

  lemma MarkedApart(calls: map<CallId, Call>, k: CallId, q: Request, full: Space, r: Record, c: Cidr)
    requires AddingApart(calls, full) && r.cidr in full && Within(c, r.cidr) && Canonical(c)
    ensures AddingApart(calls[k := Creating(q, c)], With(With(full, r), NewRecord(c, Some(r.cidr))))
  {
    var next := With(With(full, r), NewRecord(c, Some(r.cidr)));
    forall j, d | j in calls && calls[j].Adding? && d in next ensures !Overlaps(d, Target(calls[j].req)) {
      if d !in full { InsideIsApart(c, r.cidr, Target(calls[j].req)); }
    }
  }

  /** The upcoming child is stored. */
  lemma CreateKeepsTree(s: State, k: CallId, full: Space)
    requires Inv(s) && TreeInv(s, full) && k in s.calls && s.calls[k].Creating?
    ensures TreeInv(Exec(s, Go(k)), full)
  {
    var call := s.calls[k];
    var c, q := call.child, call.req;
    assert Upcoming(s.space, s.calls, full, k);
    var r := NewRecord(c, Some(Target(q)));
    assert r.cidr == c && c !in s.hist;
    var s' := Birth(s, k, q, r, GotChild(c));
    assert Exec(s, Go(k)) == s';
    StoredUpcoming(s, k, s'.calls[k], c, full);
  }

  lemma StoredUpcoming(s: State, k: CallId, call: Call, c: Cidr, full: Space)
    requires TreeInv(s, full) && Creates(s.calls, k, c) && call.Done? && call.req == s.calls[k].req
    ensures c in full && full[c].cidr == c
    ensures Completes(With(s.space, full[c]), s.calls[k := call], full)
    ensures AddingApart(s.calls[k := call], full) && OnlyAddingCalls(s.calls[k := call])
  {
    assert Upcoming(s.space, s.calls, full, k);
    var space, calls := With(s.space, full[c]), s.calls[k := call];
    assert forall j, d :: Creates(calls, j, d) <==> Creates(s.calls, j, d) && j != k;
    forall j ensures Upcoming(space, calls, full, j) {
      assert Upcoming(s.space, s.calls, full, j);
      if j != k && j in s.calls && s.calls[j].Creating? { assert Creates(s.calls, j, s.calls[j].child); }
    }
    forall d | d in full ensures d in space || exists j :: Creates(calls, j, d) {
      if d !in space {
        var j :| Creates(s.calls, j, d);
        assert Creates(calls, j, d);
      }
    }
  }

  /** A root is created: NewPrefix as a whole. */
  lemma AddKeepsTree(s: State, k: CallId, full: Space)
    requires Inv(s) && TreeInv(s, full) && k in s.calls && s.calls[k].Adding? && s.calls[k].req.ReqNewPrefix?
    ensures TreeInv(Exec(s, Go(k)), Apply(full, s.calls[k].req))
  {
    var q := s.calls[k].req;
    var r := NewRecord(Target(q), None);
    NewRootFits(full, q);
    RootIsBorn(s, k, q);
    NewPrefixKeeps(full, q.cidr);
    RootCompletes(s.space, s.calls, k, Done(q, Ok(Born)), full, r);
    LastAdding(s, k, Done(q, Ok(Born)), With(full, r));
  }

  lemma RootIsBorn(s: State, k: CallId, q: Request)
    requires OnlyAddingCalls(s.calls) && FirstLives(s.space, s.hist) && k in s.calls && s.calls[k] == Adding(q)
    requires Target(q) !in s.space && NewRecord(Target(q), None).cidr == Target(q)
    ensures var s', r := Exec(s, Go(k)), NewRecord(Target(q), None);
            && s'.space == With(s.space, r) && s'.calls == s.calls[k := Done(q, Ok(Born))]
            && OnlyAddingCalls(s'.calls) && FirstLives(s'.space, s'.hist)
  {
    assert StepAdd(s, k, s.calls[k]) == Birth(s, k, q, NewRecord(Target(q), None), Born).(lock := None);
  }

  /** The lock admits one adding call at a time. */
  lemma LastAdding(s: State, k: CallId, call: Call, full: Space)
    requires RootsInv(s) && k in s.calls && s.calls[k].Adding? && call.Done?
    ensures AddingApart(s.calls[k := call], full)
  {
    assert forall j :: j in s.calls && s.calls[j].Adding? ==> j == k;
  }

  lemma NewRootFits(full: Space, q: Request)
    requires q.ReqNewPrefix? && !Clashes(full, Target(q))
    ensures var r := NewRecord(Target(q), None);
            r.cidr == Target(q) && r.cidr !in full && Apply(full, q) == With(full, r)
  {
    var t := Target(q);
    MaskedIsCanonical(q.cidr);
    NewRecordAgain(q.cidr, None);
    Geometry(t, t);
    assert NewRecord(t, None) == NewRecord(q.cidr, None);
  }

  lemma RootCompletes(space: Space, calls: map<CallId, Call>, k: CallId, call: Call, full: Space, r: Record)
    requires Completes(space, calls, full) && k in calls && !calls[k].Creating? && call.Done? && r.cidr !in full
    ensures Completes(With(space, r), calls[k := call], With(full, r))
  {
    var moved := calls[k := call];
    assert forall j, d :: Creates(moved, j, d) == Creates(calls, j, d);
    forall j ensures Upcoming(With(space, r), moved, With(full, r), j) { assert Upcoming(space, calls, full, j); }
  }

  /** The snapshot a call writes in a first life is the record stored now. */
  lemma CommitShape(s: State, k: CallId, full: Space, r: Record, g: Grant)
    requires Inv(s) && TreeInv(s, full) && k in s.calls && s.calls[k].Writing?
    requires EditOf(s.calls[k].req, s.calls[k].snap) == Ok((r, g)) && Update(s.space, r).Ok?
    ensures var q := s.calls[k].req;
            && IsEdit(q) && r.cidr == Target(q) && r.cidr in s.space && full[Target(q)].cidr == Target(q)
            && full[Target(q)] == s.calls[k].snap
  {
    var c := s.calls[k];
    CommitMeetsVersion(s, k, c, r, g);
    EditKeepsName(c.req, c.snap);
    assert CallOk(k, c, s.hist);
    assert s.hist[r.cidr].number == 1;
  }

  lemma CommitInFirstLife(s: State, k: CallId, r: Record, g: Grant)
    requires Inv(s) && FirstLives(s.space, s.hist) && k in s.calls && s.calls[k].Writing?
    requires EditOf(s.calls[k].req, s.calls[k].snap) == Ok((r, g)) && Update(s.space, r).Ok?
    ensures FirstLives(With(s.space, Bump(r)), Committed(s, k, s.calls[k], r, g).hist)
  {
    CommitLife(s, k, s.calls[k], r, g);
  }

  lemma CommitKeepsTree(s: State, k: CallId, full: Space, r: Record, g: Grant)
    requires Inv(s) && TreeInv(s, full) && k in s.calls && s.calls[k].Writing?
    requires EditOf(s.calls[k].req, s.calls[k].snap) == Ok((r, g)) && Update(s.space, r).Ok?
    ensures Keeps(full, s.calls[k].req)
    ensures TreeInv(Committed(s, k, s.calls[k], r, g), Apply(full, s.calls[k].req))
  {
    var q, s' := s.calls[k].req, Committed(s, k, s.calls[k], r, g);
    CommitShape(s, k, full, r, g);
    CommitInFirstLife(s, k, r, g);
    EditIsAtomic(full, q);
    AddsKeeps(full, q);
    if q.ReqAcquireChild? {
      ChildCommit(s, k, full, r, g.child, s'.hist);
    } else {
      EditKeepsTree(s, k, s'.calls[k], Bump(r), s'.hist, full);
    }
  }

  lemma AddsKeeps(full: Space, q: Request)
    requires Forest(full) && Adds(q)
    ensures Keeps(full, q) && Forest(Apply(full, q))
  {
    KeepsForestIff(full, q);
  }

  lemma ChildCommit(s: State, k: CallId, full: Space, r: Record, c: Cidr, hist: map<Cidr, Life>)
    requires TreeInv(s, full) && k in s.calls && s.calls[k].Writing? && s.calls[k].req.ReqAcquireChild?
    requires var q := s.calls[k].req;
             && Target(q) in s.space && full[Target(q)].cidr == Target(q)
             && EditOf(q, full[Target(q)]) == Ok((r, GotChild(c)))
             && DoMark(full, q.parent, q.child) == (With(full, Bump(r)), Ok(c))
    requires FirstLives(With(s.space, Bump(r)), hist)
    ensures var q := s.calls[k].req;
            TreeInv(s.(space := With(s.space, Bump(r)), calls := s.calls[k := Creating(q, c)], hist := hist),
                    Apply(full, q))
  {
    var q := s.calls[k].req;
    var p := Target(q);
    SelectedChildIsFree(full[p], q.child);
    SelectChildExact(full[p], q.child);
    AcquireChildStores(full, q.parent, q.child);
    MarkKeepsTree(s, k, q, Bump(r), c, hist, full);
  }

  /** Steps that take effect on the tree. */
  predicate Applies(s: State, step: Step) {
    && step.Go? && step.call in s.calls
    && var c := s.calls[step.call];
    || c.Adding?
    || (c.Writing? && EditOf(c.req, c.snap).Ok? && Update(s.space, EditOf(c.req, c.snap).value.0).Ok?)
  }

  /** How a step moves its call if it does not take effect: answers stay, and a child being stored is
      answered. */
  ghost predicate Continues(call: Call, next: Call) {
    if call.Creating? then next == Done(call.req, Ok(GotChild(call.child)))
    else if Effective(call) then next == call
    else !Effective(next)
  }

  /** One step: the tree stays as it is, or the call's request is applied to it as a whole. */
  lemma StepKeepsTree(s: State, step: Step, full: Space)
    requires Inv(s) && TreeInv(s, full) && (step.Start? ==> Adds(step.req))
    ensures !Applies(s, step) ==> TreeInv(Exec(s, step), full)
    ensures Applies(s, step) ==>
              && Keeps(full, s.calls[step.call].req)
              && TreeInv(Exec(s, step), Apply(full, s.calls[step.call].req))
  {
    match step
    case Start(k, q) =>
      if k !in s.calls { MoveKeepsTree(s, k, StartCall(q), full); }
    case Go(k) =>
      if k in s.calls {
        match s.calls[k]
        case Reading(_, _, _) => ReadKeepsTree(s, k, full);
        case Writing(_, _, _, _, _) => WriteKeepsTree(s, k, full);
        case Creating(_, _) => CreateKeepsTree(s, k, full);
        case Waiting(_) => LockKeepsTree(s, k, full);
        case Adding(_) =>
          assert CallOk(k, s.calls[k], s.hist);
          AddKeepsTree(s, k, full);
        case _ =>
      }
  }

  /** The answer that the moving call gets. */
  lemma StepAnswers(s: State, k: CallId, full: Space)
    requires Inv(s) && TreeInv(s, full) && k in s.calls
    ensures k in Exec(s, Go(k)).calls
    ensures if Applies(s, Go(k)) then AnswersOn(Exec(s, Go(k)).calls[k], full, s.calls[k].req)
            else Continues(s.calls[k], Exec(s, Go(k)).calls[k])
  {
    if s.calls[k].Writing? {
      WriteAnswers(s, k, full);
    } else if s.calls[k].Creating? {
      assert Upcoming(s.space, s.calls, full, k);
      CreateAnswers(s, k);
    } else if s.calls[k].Adding? {
      assert CallOk(k, s.calls[k], s.hist);
      AddAnswers(s, k, full);
    } else {
      QuietAnswers(s, k);
    }
  }

  lemma CreateAnswers(s: State, k: CallId)
    requires k in s.calls && s.calls[k].Creating? && Canonical(s.calls[k].child) && s.calls[k].child !in s.space
    ensures k in Exec(s, Go(k)).calls && Continues(s.calls[k], Exec(s, Go(k)).calls[k])
  {
  }

  lemma QuietAnswers(s: State, k: CallId)
    requires k in s.calls && !s.calls[k].Writing? && !s.calls[k].Creating? && !s.calls[k].Adding?
    requires !s.calls[k].Checking? && !s.calls[k].Deleting?
    ensures k in Exec(s, Go(k)).calls && Continues(s.calls[k], Exec(s, Go(k)).calls[k])
  {
  }

  lemma AddAnswers(s: State, k: CallId, full: Space)
    requires TreeInv(s, full) && k in s.calls && s.calls[k].Adding? && s.calls[k].req.ReqNewPrefix?
    ensures k in Exec(s, Go(k)).calls && AnswersOn(Exec(s, Go(k)).calls[k], full, s.calls[k].req)
  {
    var q := s.calls[k].req;
    NewRootFits(full, q);
    RootIsBorn(s, k, q);
    MaskedIsCanonical(q.cidr);
    Geometry(Target(q), Target(q));
  }

  lemma WriteAnswers(s: State, k: CallId, full: Space)
    requires Inv(s) && TreeInv(s, full) && k in s.calls && s.calls[k].Writing?
    ensures k in Exec(s, Go(k)).calls
    ensures if Applies(s, Go(k)) then AnswersOn(Exec(s, Go(k)).calls[k], full, s.calls[k].req)
            else !Effective(Exec(s, Go(k)).calls[k])
  {
    var c := s.calls[k];
    WriteCases(s, k, c);
    if Applies(s, Go(k)) {
      var (r, g) := EditOf(c.req, c.snap).value;
      CommitShape(s, k, full, r, g);
      CommitAnswers(full, c.req, r, g);
    } else {
      LostWriteMoves(s, k, c);
    }
  }

  lemma CommitAnswers(full: Space, q: Request, r: Record, g: Grant)
    requires Forest(full) && Adds(q) && IsEdit(q) && Target(q) in full && full[Target(q)].cidr == Target(q)
    requires EditOf(q, full[Target(q)]) == Ok((r, g))
    ensures AnswersOn(AfterCommit(q, g), full, q)
  {
    assert StoredOk(full, Target(q));
    assert forall c :: c in full ==> StoredOk(full, c);
    EditedAlone(full, q, r, g);
    if q.ReqAcquireChild? {
      SelectedChildIsFree(full[Target(q)], q.child);
      SelectChildExact(full[Target(q)], q.child);
      AcquireChildStores(full, q.parent, q.child);
    }
  }

  lemma ReadKeepsTree(s: State, k: CallId, full: Space)
    requires TreeInv(s, full) && k in s.calls && s.calls[k].Reading?
    ensures TreeInv(Exec(s, Go(k)), full)
  {
    var call := StepRead(s, k, s.calls[k]).calls[k];
    assert Exec(s, Go(k)) == To(s, k, call);
    MoveKeepsTree(s, k, call, full);
  }

  lemma LockKeepsTree(s: State, k: CallId, full: Space)
    requires TreeInv(s, full) && k in s.calls && s.calls[k].Waiting?
    ensures TreeInv(Exec(s, Go(k)), full)
  {
    var q := s.calls[k].req;
    if s.lock.None? {
      if Clashes(s.space, Target(q)) {
        MoveKeepsTree(s, k, Done(q, Err(ErrOverlap)), full);
      } else {
        NoHiddenClash(s, full, Target(q));
        MoveKeepsTree(s, k, Adding(q), full);
      }
    }
  }

  lemma LostWriteKeepsTree(s: State, k: CallId, full: Space)
    requires TreeInv(s, full) && k in s.calls && s.calls[k].Writing? && !Applies(s, Go(k))
    ensures TreeInv(Exec(s, Go(k)), full)
  {
    LostWriteMoves(s, k, s.calls[k]);
    MoveKeepsTree(s, k, Exec(s, Go(k)).calls[k], full);
  }

  lemma LostWriteMoves(s: State, k: CallId, c: Call)
    requires k in s.calls && c == s.calls[k] && c.Writing?
    requires EditOf(c.req, c.snap).Err? || Update(s.space, EditOf(c.req, c.snap).value.0).Err?
    ensures k in Exec(s, Go(k)).calls && Exec(s, Go(k)) == To(s, k, Exec(s, Go(k)).calls[k])
    ensures var call := Exec(s, Go(k)).calls[k]; call.req == c.req && (call.Done? || call.Reading? || call.Exhausted?)
    ensures !Effective(Exec(s, Go(k)).calls[k])
  {
    if EditOf(c.req, c.snap).Err? {
      assert StepWrite(s, k, c) == To(s, k, Done(c.req, Err(EditOf(c.req, c.snap).error)));
    } else {
      var e := Update(s.space, EditOf(c.req, c.snap).value.0).error;
      if e != ErrOptimisticLock { assert StepWrite(s, k, c) == To(s, k, Done(c.req, Err(e))); }
    }
  }

  lemma WriteKeepsTree(s: State, k: CallId, full: Space)
    requires Inv(s) && TreeInv(s, full) && k in s.calls && s.calls[k].Writing?
    ensures !Applies(s, Go(k)) ==> TreeInv(Exec(s, Go(k)), full)
    ensures Applies(s, Go(k)) ==>
              Keeps(full, s.calls[k].req) && TreeInv(Exec(s, Go(k)), Apply(full, s.calls[k].req))
  {
    var c := s.calls[k];
    WriteCases(s, k, c);
    if Applies(s, Go(k)) {
      CommitKeepsTree(s, k, full, EditOf(c.req, c.snap).value.0, EditOf(c.req, c.snap).value.1);
    } else {
      LostWriteKeepsTree(s, k, full);
    }
  }

  /** A step that takes no effect leaves the run as it is. */
  lemma StillServes(calls: map<CallId, Call>, k: CallId, next: Call, ids: seq<CallId>, qs: seq<Request>)
    requires Serves(calls, ids, qs) && k in calls && Continues(calls[k], next) && next.req == calls[k].req
    ensures Serves(calls[k := next], ids, qs)
  {
    var moved := calls[k := next];
    forall i | 0 <= i < |ids| ensures AnswersAt(moved, ids, qs, i) { assert AnswersAt(calls, ids, qs, i); }
  }

  /** A call that is new has taken no effect. */
  lemma StartServes(calls: map<CallId, Call>, k: CallId, call: Call, ids: seq<CallId>, qs: seq<Request>)
    requires Serves(calls, ids, qs) && k !in calls && !Effective(call)
    ensures Serves(calls[k := call], ids, qs)
  {
    var moved := calls[k := call];
    forall i | 0 <= i < |ids| ensures AnswersAt(moved, ids, qs, i) && ids[i] != k {
      assert AnswersAt(calls, ids, qs, i);
    }
  }

  /** A step that takes effect adds its call and request to the run. */
  lemma MoreServes(calls: map<CallId, Call>, k: CallId, next: Call, ids: seq<CallId>, qs: seq<Request>)
    requires Serves(calls, ids, qs) && k in calls && !Effective(calls[k])
    requires AnswersOn(next, ApplyAll(map[], qs), calls[k].req)
    ensures Serves(calls[k := next], ids + [k], qs + [calls[k].req])
  {
    var moved, ids', qs' := calls[k := next], ids + [k], qs + [calls[k].req];
    forall i | 0 <= i < |ids'| ensures AnswersAt(moved, ids', qs', i) {
      if i < |ids| {
        assert AnswersAt(calls, ids, qs, i);
        assert qs'[..i] == qs[..i] && ids[i] in ids;
      } else {
        assert qs'[..i] == qs;
      }
    }
    forall j | j in moved ensures j in ids' <==> Effective(moved[j]) {
      assert j in ids' <==> j in ids || j == k;
    }
  }

  /** Every interleaving of calls that give nothing back has the effect of a sequential run `qs`, in which
      every guard is met: the store holds what that run leaves, except for children whose parent is
      marked and whose record is just about to be stored. The run has one request for each call that
      took effect, and the call's answer is the one the request has at its place in the run. */
  lemma {:induction false} InterleavingIsSequential(steps: seq<Step>) returns (qs: seq<Request>, ids: seq<CallId>)
    requires OnlyAdds(steps)
    ensures Kept(map[], qs) && TreeInv(After(steps), ApplyAll(map[], qs)) && Serves(After(steps).calls, ids, qs)
    decreases |steps|
  {
    if steps == [] {
      qs, ids := [], [];
      EmptyIsForest();
    } else {
      var before, step := steps[..|steps| - 1], steps[|steps| - 1];
      qs, ids := InterleavingIsSequential(before);
      AlwaysInv(before);
      var s, full := After(before), ApplyAll(map[], qs);
      StepKeepsTree(s, step, full);
      StepServes(s, step, qs, ids);
      if Applies(s, step) {
        var q := s.calls[step.call].req;
        assert (qs + [q])[..|qs|] == qs;
        qs, ids := qs + [q], ids + [step.call];
      }
    }
  }

  lemma StepServes(s: State, step: Step, qs: seq<Request>, ids: seq<CallId>)
    requires Inv(s) && TreeInv(s, ApplyAll(map[], qs)) && Serves(s.calls, ids, qs)
    ensures !Applies(s, step) ==> Serves(Exec(s, step).calls, ids, qs)
    ensures Applies(s, step) ==> Serves(Exec(s, step).calls, ids + [step.call], qs + [s.calls[step.call].req])
  {
    match step
    case Start(k, q) =>
      if k !in s.calls { StartServes(s.calls, k, StartCall(q), ids, qs); }
    case Go(k) =>
      if k in s.calls {
        OwnMove(s, k);
        StepAnswers(s, k, ApplyAll(map[], qs));
        if Applies(s, step) {
          MoreServes(s.calls, k, Exec(s, step).calls[k], ids, qs);
        } else {
          StillServes(s.calls, k, Exec(s, step).calls[k], ids, qs);
        }
      }
  }

  lemma OwnMove(s: State, k: CallId)
    requires k in s.calls
    ensures k in Exec(s, Go(k)).calls && Exec(s, Go(k)).calls[k].req == s.calls[k].req
    ensures Exec(s, Go(k)).calls == s.calls[k := Exec(s, Go(k)).calls[k]]
  {
    var next := Exec(s, Go(k)).calls;
    assert OnlyMoved(s.calls, next, k) by { StepMoves(s, k); }
    if next != s.calls {
      var call :| next == Moved(s.calls, k, call) && call.req == s.calls[k].req;
    }
  }

  /** While no child is being stored, the store is exactly what the sequential run leaves. */
  lemma {:induction false} QuietIsSequential(steps: seq<Step>) returns (qs: seq<Request>, ids: seq<CallId>)
    requires OnlyAdds(steps) && forall k :: k in After(steps).calls ==> !After(steps).calls[k].Creating?
    ensures Kept(map[], qs) && ApplyAll(map[], qs) == After(steps).space && Serves(After(steps).calls, ids, qs)
  {
    qs, ids := InterleavingIsSequential(steps);
    var s, full := After(steps), ApplyAll(map[], qs);
    assert forall k, c :: !Creates(s.calls, k, c);
  }

  lemma {:induction false} AncestorIsStored(s: State, full: Space, a: Cidr, d: Cidr)
    requires TreeInv(s, full) && Ancestor(full, a, d) && d in s.space
    ensures Ancestor(s.space, a, d)
    decreases d.bits
  {
    ParentHolds(full, d);
    var p := full[d].parentCidr.value;
    MarkerIsStored(s, full, p, d);
    if p != a { AncestorIsStored(s, full, a, p); }
  }

  /** In every such interleaving each stored child lies in a stored parent that marks it, and each
      marked child is stored or about to be. */
  lemma {:induction false} ChildrenLieInParents(steps: seq<Step>, c: Cidr)
    requires OnlyAdds(steps) && c in After(steps).space
    ensures var s := After(steps);
            && (s.space[c].parentCidr.Some? ==>
                  var p := s.space[c].parentCidr.value; MarkedIn(s.space, c, p) && Within(c, p) && p.bits < c.bits)
            && (forall d :: d in Taken(s.space[c].children) ==> d in s.space || exists k :: Creates(s.calls, k, d))
  {
    var qs, _ := InterleavingIsSequential(steps);
    var s, full := After(steps), ApplyAll(map[], qs);
    if s.space[c].parentCidr.Some? {
      ParentHolds(full, c);
      MarkerIsStored(s, full, full[c].parentCidr.value, c);
    }
    forall d | d in Taken(s.space[c].children) ensures d in full { assert MarkedIn(full, d, c); }
  }

  /** In every such interleaving two stored prefixes overlap only along ancestor links, and no host
      address is held by two. */
  lemma {:induction false} InterleavingsAreSafe(steps: seq<Step>, x: Cidr, y: Cidr)
    requires OnlyAdds(steps) && x in After(steps).space && y in After(steps).space && x != y
    ensures var space := After(steps).space;
            && (Overlaps(x, y) ==> Ancestor(space, x, y) || Ancestor(space, y, x))
            && Hosts(space[x]) !! Hosts(space[y])
  {
    var qs, _ := InterleavingIsSequential(steps);
    var s, full := After(steps), ApplyAll(map[], qs);
    assert StoredOk(full, x) && StoredOk(full, y);
    if Overlaps(x, y) {
      OverlapMeansAncestor(full, x, y);
      if Ancestor(full, x, y) { AncestorIsStored(s, full, x, y); }
      if Ancestor(full, y, x) { AncestorIsStored(s, full, y, x); }
    }
    forall a | a in Hosts(s.space[x]) ensures a !in Hosts(s.space[y]) {
      if a in Hosts(s.space[y]) { HostsApart(full, x, y, a); }
    }
  }
}
