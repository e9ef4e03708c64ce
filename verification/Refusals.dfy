/** Every refusal of a concurrent call is deserved: at some moment since it began the store gave the reason
    for it. And the lock of NewPrefix makes calls wait, and does nothing else. */
module Refusals {
  import opened Wrappers
  import opened Cidrs
  import opened Records
  import opened Store
  import opened Ops
  import opened Edits
  import opened Protocol
  import opened Traces

  /** The delete of `c` is refused on this store. */
  predicate DeleteRefused(space: Space, c: Cidr, e: Error) {
    || (e == ErrNotFound && Masked(c) !in space)
    || (e == ErrHasIPs && Masked(c) in space && HasIPs(space[Masked(c)]))
  }

  /** The edit is refused on this store, done in one atomic step, or its record is gone when it is to be
      written. */
  predicate EditRefused(space: Space, q: Request, e: Error) {
    && IsEdit(q)
    && (Atomically(space, q) == (space, Err(e)) || (e == ErrPrefixMissing && Target(q) !in space))
  }

  /** The reasons for which a request may be answered with an error; `granted` is what the call was granted
      before, if it had committed. */
  predicate Deserved(space: Space, q: Request, granted: Option<Grant>, e: Error) {
    match q
    case ReqNewPrefix(c) =>
      (e == ErrOverlap && Clashes(space, Masked(c))) || (e == ErrAlreadyCreated && Masked(c) in space)
    case ReqDelete(c) => DeleteRefused(space, c, e)
    case ReqAcquireIp(_, _) => EditRefused(space, q, e)
    case ReqReleaseIp(_, _) => EditRefused(space, q, e)
    case ReqAcquireChild(_, _) =>
      || EditRefused(space, q, e)
      || (e == ErrAlreadyCreated && granted.Some? && granted.value.GotChild? && Masked(granted.value.child) in space)
    case ReqReleaseChild(copy) =>
      || (e == ErrNotFound && copy.parentCidr.None?)
      || EditRefused(space, q, e)
      || (granted == Some(FreedChild(copy.cidr)) && DeleteRefused(space, copy.cidr, e))
  }

  function GrantedTo(s: State, k: CallId): Option<Grant> {
    if k in s.receipts then Some(s.receipts[k].grant) else None
  }

  /** A call that has ended stays ended, with its receipt. */
  lemma EndedCallStays(s: State, step: Step, k: CallId)
    requires k in s.calls && s.calls[k].Done?
    ensures k in Exec(s, step).calls && Exec(s, step).calls[k] == s.calls[k]
    ensures GrantedTo(Exec(s, step), k) == GrantedTo(s, k)
  {
    if step.Go? && step.call != k {
      OneMoves(s, step.call, k);
      ReceiptsMove(s, step.call, k);
    }
  }

  lemma ReceiptsMove(s: State, j: CallId, k: CallId)
    requires j != k
    ensures GrantedTo(Exec(s, Go(j)), k) == GrantedTo(s, k)
  {
    if j in s.calls && s.calls[j].Writing? { WriteKeepsReceipt(s, j, s.calls[j], k); }
  }

  lemma WriteKeepsReceipt(s: State, j: CallId, c: Call, k: CallId)
    requires j != k && c.Writing?
    ensures GrantedTo(StepWrite(s, j, c), k) == GrantedTo(s, k)
  {
  }

  /** The step by which a call other than a writing one is refused. */
  lemma RefusedNow(s: State, k: CallId)
    requires Inv(s) && k in s.calls && !s.calls[k].Done? && !s.calls[k].Writing?
    requires var next := Exec(s, Go(k)); k in next.calls && next.calls[k].Done? && next.calls[k].outcome.Err?
    ensures var next := Exec(s, Go(k));
            && next.calls[k].req == s.calls[k].req
            && Deserved(s.space, s.calls[k].req, GrantedTo(next, k), next.calls[k].outcome.error)
  {
    assert CallOk(k, s.calls[k], s.hist) && AnswerOk(k, s.calls[k], s.receipts);
    match s.calls[k]
    case Reading(_, _, _) => ReadRefused(s, k);
    case Creating(_, _) => CreateRefused(s, k);
    case Checking(_, _) => CheckRefused(s, k);
    case Waiting(_) => LockRefused(s, k);
    case Adding(_) => AddRefused(s, k);
    case _ =>
  }

  lemma ReadRefused(s: State, k: CallId)
    requires k in s.calls && s.calls[k].Reading? && IsEdit(s.calls[k].req)
    ensures var q, next := s.calls[k].req, Exec(s, Go(k));
            k in next.calls && next.calls[k].Done? ==>
              && next.calls[k] == Done(q, Err(ErrNotFound)) && EditRefused(s.space, q, ErrNotFound)
  {
  }

  lemma CreateRefused(s: State, k: CallId)
    requires k in s.calls && s.calls[k].Creating? && Holds(k, s.calls[k].req, GotChild(s.calls[k].child), s.receipts)
    ensures var q, next := s.calls[k].req, Exec(s, Go(k));
            && k in next.calls && next.calls[k].Done? && next.calls[k].req == q
            && (next.calls[k].outcome.Err? ==>
                  && next.calls[k].outcome.error == ErrAlreadyCreated
                  && GrantedTo(next, k) == Some(GotChild(s.calls[k].child)) && Masked(s.calls[k].child) in s.space)
  {
  }

  lemma CheckRefused(s: State, k: CallId)
    requires k in s.calls && s.calls[k].Checking?
    ensures var q, next := s.calls[k].req, Exec(s, Go(k));
            k in next.calls && next.calls[k].Done? ==>
              && next.calls[k].req == q && next.calls[k].outcome.Err? && GrantedTo(next, k) == GrantedTo(s, k)
              && DeleteRefused(s.space, s.calls[k].cidr, next.calls[k].outcome.error)
  {
  }

  lemma LockRefused(s: State, k: CallId)
    requires k in s.calls && s.calls[k].Waiting?
    ensures var q, next := s.calls[k].req, Exec(s, Go(k));
            k in next.calls && next.calls[k].Done? ==>
              next.calls[k] == Done(q, Err(ErrOverlap)) && Clashes(s.space, Target(q))
  {
  }

  lemma AddRefused(s: State, k: CallId)
    requires k in s.calls && s.calls[k].Adding? && s.calls[k].req.ReqNewPrefix?
    ensures var q, next := s.calls[k].req, Exec(s, Go(k));
            && k in next.calls && next.calls[k].Done? && next.calls[k].req == q
            && (next.calls[k].outcome.Err? ==>
                  next.calls[k].outcome.error == ErrAlreadyCreated && Target(q) in s.space)
  {
    MaskedIsCanonical(s.calls[k].req.cidr);
  }

  /** The step by which a writing call is refused: on its snapshot, or because its record is gone. */
  lemma WriteRefused(s: State, k: CallId)
    requires Inv(s) && k in s.calls && s.calls[k].Writing?
    requires var next := Exec(s, Go(k)); k in next.calls && next.calls[k].Done? && next.calls[k].outcome.Err?
    ensures var c, next := s.calls[k], Exec(s, Go(k)).calls[k];
            && IsEdit(c.req) && next.req == c.req && c.snap.cidr == Target(c.req)
            && (EditOf(c.req, c.snap) == Err(next.outcome.error)
                || (next.outcome.error == ErrPrefixMissing && Target(c.req) !in s.space))
  {
    var c := s.calls[k];
    assert CallOk(k, c, s.hist);
    WriteOutcome(s, k, c);
  }

  lemma WriteOutcome(s: State, k: CallId, c: Call)
    requires k in s.calls && c == s.calls[k] && c.Writing? && c.snap.cidr == Target(c.req) && IsEdit(c.req)
    ensures var next := StepWrite(s, k, c).calls;
            k in next && next[k].Done? && next[k].outcome.Err? ==>
              && next[k].req == c.req
              && (EditOf(c.req, c.snap) == Err(next[k].outcome.error)
                  || (next[k].outcome.error == ErrPrefixMissing && Target(c.req) !in s.space))
  {
    if EditOf(c.req, c.snap).Ok? { EditKeepsName(c.req, c.snap); }
  }

  /** The error was deserved on the store as it was after `i` steps, when the call had begun. */
  ghost predicate DeservedAt(steps: seq<Step>, i: nat, k: CallId, e: Error)
    requires k in After(steps).calls && i <= |steps|
  {
    && k in After(steps[..i]).calls
    && Deserved(After(steps[..i]).space, After(steps).calls[k].req, GrantedTo(After(steps), k), e)
  }

  /** In every run each refused call was refused for a reason that held at some moment since it began. */
  lemma {:induction false} RefusalsAreDeserved(steps: seq<Step>, k: CallId)
    ensures var s := After(steps);
            k in s.calls && s.calls[k].Done? && s.calls[k].outcome.Err? ==>
              exists i: nat :: i <= |steps| && DeservedAt(steps, i, k, s.calls[k].outcome.error)
    decreases |steps|
  {
    var s := After(steps);
    if steps != [] && k in s.calls && s.calls[k].Done? && s.calls[k].outcome.Err? {
      var before, step := steps[..|steps| - 1], steps[|steps| - 1];
      var was := After(before);
      if k in was.calls && was.calls[k].Done? {
        EndedCallStays(was, step, k);
        RefusalsAreDeserved(before, k);
        var i: nat :| i <= |before| && DeservedAt(before, i, k, was.calls[k].outcome.error);
        assert before[..i] == steps[..i];
        assert DeservedAt(steps, i, k, s.calls[k].outcome.error);
      } else if k in was.calls && was.calls[k].Writing? {
        WriteRefusedLast(steps, k);
      } else {
        RefusedLast(steps, k);
      }
    }
  }

  lemma {:induction false} RefusedLast(steps: seq<Step>, k: CallId)
    requires steps != []
    requires var s := After(steps); k in s.calls && s.calls[k].Done? && s.calls[k].outcome.Err?
    requires var was := After(steps[..|steps| - 1]); k in was.calls ==> !was.calls[k].Done? && !was.calls[k].Writing?
    ensures exists i: nat :: i <= |steps| && DeservedAt(steps, i, k, After(steps).calls[k].outcome.error)
  {
    var before, step := steps[..|steps| - 1], steps[|steps| - 1];
    var was := After(before);
    AlwaysInv(before);
    MoverIsNew(was, step, k);
    if k !in was.calls {
      assert steps[..|steps|] == steps;
      assert DeservedAt(steps, |steps|, k, After(steps).calls[k].outcome.error);
    } else {
      RefusedNow(was, k);
      assert DeservedAt(steps, |before|, k, After(steps).calls[k].outcome.error);
    }
  }

  lemma {:induction false} WriteRefusedLast(steps: seq<Step>, k: CallId)
    requires steps != []
    ensures var was, s := After(steps[..|steps| - 1]), After(steps);
            k in was.calls && was.calls[k].Writing? && k in s.calls && s.calls[k].Done? && s.calls[k].outcome.Err? ==>
              exists i: nat :: i <= |steps| && DeservedAt(steps, i, k, s.calls[k].outcome.error)
  {
    var before := steps[..|steps| - 1];
    var was, s := After(before), After(steps);
    if k in was.calls && was.calls[k].Writing? && k in s.calls && s.calls[k].Done? && s.calls[k].outcome.Err? {
      AlwaysInv(before);
      MoverIsNew(was, steps[|steps| - 1], k);
      WriteRefused(was, k);
      var i := SnapshotWasStored(before, k);
      EditIsAtomic(After(before[..i]).space, was.calls[k].req);
      assert before[..i] == steps[..i] && steps[..|before|] == before;
      assert DeservedAt(steps, i, k, s.calls[k].outcome.error)
             || DeservedAt(steps, |before|, k, s.calls[k].outcome.error);
    }
  }

  /** A call that has just ended has made the last step. */
  lemma MoverIsNew(s: State, step: Step, k: CallId)
    requires k in Exec(s, step).calls && (k !in s.calls || Exec(s, step).calls[k] != s.calls[k])
    ensures step.call == k
    ensures k !in s.calls ==> step.Start? && Exec(s, step).calls[k] == StartCall(step.req)
    ensures k in s.calls ==> step == Go(k)
  {
    if step.Go? { OneMoves(s, step.call, k); }
  }

  /** A waiting call does not move while another call holds the lock. */
  lemma WaitsForLock(s: State, k: CallId)
    requires k in s.calls && s.calls[k].Waiting? && s.lock.Some?
    ensures Exec(s, Go(k)) == s
  {
  }

  /** Calls other than NewPrefix neither look at the lock nor touch it. */
  lemma LockIsForNewPrefix(s: State, k: CallId, lock: Option<CallId>)
    requires k in s.calls && !s.calls[k].Waiting? && !s.calls[k].Adding?
    ensures Exec(s.(lock := lock), Go(k)) == Exec(s, Go(k)).(lock := lock)
  {
    var c := s.calls[k];
    if c.Writing? {
      WriteIgnoresLock(s, k, c, lock);
    } else if c.Creating? {
      CreateIgnoresLock(s, k, c, lock);
    } else {
      QuietIgnoresLock(s, k, c, lock);
    }
  }

  lemma QuietIgnoresLock(s: State, k: CallId, c: Call, lock: Option<CallId>)
    requires k in s.calls && c == s.calls[k]
    requires !c.Writing? && !c.Creating? && !c.Waiting? && !c.Adding?
    ensures Exec(s.(lock := lock), Go(k)) == Exec(s, Go(k)).(lock := lock)
  {
    if c.Reading? {
      assert StepRead(s.(lock := lock), k, c) == StepRead(s, k, c).(lock := lock);
    } else if c.Checking? {
      assert StepCheck(s.(lock := lock), k, c) == StepCheck(s, k, c).(lock := lock);
    } else if c.Deleting? {
      assert StepDelete(s.(lock := lock), k, c) == StepDelete(s, k, c).(lock := lock);
    }
  }

  lemma WriteIgnoresLock(s: State, k: CallId, c: Call, lock: Option<CallId>)
    requires c.Writing?
    ensures StepWrite(s.(lock := lock), k, c) == StepWrite(s, k, c).(lock := lock)
  {
    if EditOf(c.req, c.snap).Ok? {
      var (r, g) := EditOf(c.req, c.snap).value;
      if Update(s.space, r).Ok? { CommitIgnoresLock(s, k, c, r, g, lock); }
    }
  }

  lemma CommitIgnoresLock(s: State, k: CallId, c: Call, r: Record, g: Grant, lock: Option<CallId>)
    requires c.Writing? && r.cidr in s.space
    ensures Committed(s.(lock := lock), k, c, r, g) == Committed(s, k, c, r, g).(lock := lock)
  {
  }

  lemma CreateIgnoresLock(s: State, k: CallId, c: Call, lock: Option<CallId>)
    requires c.Creating?
    ensures StepCreate(s.(lock := lock), k, c) == StepCreate(s, k, c).(lock := lock)
  {
  }

  /** In every run the lock is held by a call that creates its prefix next, and frees it with that step. */
  lemma {:induction false} LockIsFreed(steps: seq<Step>)
    ensures var s := After(steps);
            s.lock.Some? ==>
              && s.lock.value in s.calls && s.calls[s.lock.value].Adding?
              && Exec(s, Go(s.lock.value)).lock.None?
    decreases |steps|
  {
    if steps != [] {
      var before, step := steps[..|steps| - 1], steps[|steps| - 1];
      LockIsFreed(before);
      LockMoves(After(before), step);
    }
  }

  lemma LockMoves(s: State, step: Step)
    requires s.lock.Some? ==> s.lock.value in s.calls && s.calls[s.lock.value].Adding?
    ensures var next := Exec(s, step);
            next.lock.Some? ==>
              && next.lock.value in next.calls && next.calls[next.lock.value].Adding?
              && Exec(next, Go(next.lock.value)).lock.None?
  {
    var next := Exec(s, step);
    if next.lock.Some? {
      var k := next.lock.value;
      if s.lock == Some(k) {
        if step.Go? && step.call != k { OneMoves(s, step.call, k); }
        if step == Go(k) { AddFrees(s, k); }
        assert next.calls[k].Adding?;
      } else {
        OnlyLockLocks(s, step);
      }
      AddFrees(next, k);
    }
  }

  lemma AddFrees(s: State, k: CallId)
    requires k in s.calls && s.calls[k].Adding?
    ensures Exec(s, Go(k)).lock.None?
  {
  }

  lemma OnlyLockLocks(s: State, step: Step)
    requires Exec(s, step).lock.Some? && Exec(s, step).lock != s.lock
    ensures var k := Exec(s, step).lock.value; k in Exec(s, step).calls && Exec(s, step).calls[k].Adding?
  {
    var k := step.call;
    if step.Go? && k in s.calls {
      if !s.calls[k].Waiting? && !s.calls[k].Adding? { LockIsForNewPrefix(s, k, s.lock); }
    }
  }
}
