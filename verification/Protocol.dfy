/** Concurrent calls on one namespace. A call reads a snapshot, edits it locally and writes it back if
    the version is unchanged, at most ten times; child operations then touch a second record. Each
    step of the machine is one storage access of one call; any number of calls interleave freely. */
module Protocol {
  import opened Wrappers
  import opened Cidrs
  import opened Records
  import opened Store
  import opened Ops
  import opened Edits

  type CallId = nat

  const ATTEMPTS: nat := 10

  /** The life and version a call met on its first read. */
  datatype Seen = Seen(life: nat, version: int)

  /** Where a call stands between two storage accesses; `tries` counts its failed writes, and a call about
      to delete notes the life and version it checked. */
  datatype Call =
    | Reading(req: Request, tries: nat, first: Option<Seen>)
    | Writing(req: Request, tries: nat, seen: Seen, snap: Record, life: nat)
    | Exhausted(req: Request, seen: Seen)
    | Creating(req: Request, child: Cidr)
    | Checking(req: Request, cidr: Cidr)
    | Deleting(req: Request, cidr: Cidr, life: nat, version: int)
    | Waiting(req: Request)
    | Adding(req: Request)
    | Done(req: Request, outcome: Result<Grant, Error>)

  datatype Entry = Entry(call: CallId, req: Request, grant: Grant, record: Record)

  /** The history of a prefix since it was last created: the how-many-th life this is, every record it
      had, whether a snapshot was written that no longer matched the stored record, and whether
      NewPrefix created it. */
  datatype Life = Life(number: nat, log: seq<Entry>, tainted: bool, root: bool)

  /** Where the committed write of a call is found: in which life of which prefix, and as what version. */
  datatype Receipt = Receipt(cidr: Cidr, life: nat, version: nat, grant: Grant)

  /** `hist`, `commits` and `receipts` only record what happened; no step depends on them. */
  datatype State = State(space: Space, calls: map<CallId, Call>, lock: Option<CallId>, hist: map<Cidr, Life>,
                         commits: multiset<CallId>, receipts: map<CallId, Receipt>)

  const INITIAL := State(map[], map[], None, map[], multiset{}, map[])

  function StartCall(q: Request): Call {
    match q
    case ReqNewPrefix(_) => Waiting(q)
    case ReqDelete(c) => Checking(q, c)
    case ReqReleaseChild(copy) => if copy.parentCidr.None? then Done(q, Err(ErrNotFound)) else Reading(q, 0, None)
    case _ => Reading(q, 0, None)
  }

  /** What a call does next once its write is in. */
  function AfterCommit(q: Request, g: Grant): Call {
    if q.ReqAcquireChild? && g.GotChild? then Creating(q, g.child)
    else if q.ReqReleaseChild? then Checking(q, q.copy.cidr)
    else Done(q, Ok(g))
  }

  function To(s: State, k: CallId, c: Call): State {
    s.(calls := s.calls[k := c])
  }

  function LifeNumber(s: State, c: Cidr): nat {
    if c in s.hist then s.hist[c].number else 0
  }

  function StepRead(s: State, k: CallId, c: Call): State
    requires c.Reading?
  {
    var t := Target(c.req);
    if t !in s.space then To(s, k, Done(c.req, Err(ErrNotFound)))
    else
      var now := Seen(LifeNumber(s, t), s.space[t].version);
      To(s, k, Writing(c.req, c.tries, if c.first.Some? then c.first.value else now, s.space[t], now.life))
  }

  /** A write that went through: the record is replaced, and the history notes it. */
  function Committed(s: State, k: CallId, c: Call, r: Record, g: Grant): State
    requires c.Writing? && r.cidr in s.space
  {
    var h := if r.cidr in s.hist then s.hist[r.cidr] else Life(0, [], false, false);
    var life := h.(log := h.log + [Entry(k, c.req, g, Bump(r))],
                   tainted := h.tainted || !Matches(g, c.snap, s.space[r.cidr]));
    State(With(s.space, Bump(r)), s.calls[k := AfterCommit(c.req, g)], s.lock, s.hist[r.cidr := life],
          s.commits + multiset{k}, s.receipts[k := Receipt(r.cidr, h.number, |h.log|, g)])
  }

  function StepWrite(s: State, k: CallId, c: Call): State
    requires c.Writing?
  {
    match EditOf(c.req, c.snap)
    case Err(e) => To(s, k, Done(c.req, Err(e)))
    case Ok((r, g)) =>
      match Update(s.space, r)
      case Ok(_) => Committed(s, k, c, r, g)
      case Err(e) =>
        if e != ErrOptimisticLock then To(s, k, Done(c.req, Err(e)))
        else if c.tries + 1 < ATTEMPTS then To(s, k, Reading(c.req, c.tries + 1, Some(c.seen)))
        else To(s, k, Exhausted(c.req, c.seen))
  }

  /** A record is created: a new life of its prefix begins. */
  function Birth(s: State, k: CallId, q: Request, r: Record, answer: Grant): State {
    s.(space := With(s.space, r), calls := s.calls[k := Done(q, Ok(answer))],
       hist := s.hist[r.cidr := Life(LifeNumber(s, r.cidr) + 1, [Entry(k, q, Born, r)], false, answer == Born)])
  }

  function StepCreate(s: State, k: CallId, c: Call): State
    requires c.Creating?
  {
    var r := NewRecord(c.child, Some(Target(c.req)));
    if r.cidr in s.space then To(s, k, Done(c.req, Err(ErrAlreadyCreated)))
    else Birth(s, k, c.req, r, GotChild(c.child))
  }

  function StepCheck(s: State, k: CallId, c: Call): State
    requires c.Checking?
  {
    var m := Masked(c.cidr);
    if m !in s.space then To(s, k, Done(c.req, Err(ErrNotFound)))
    else if HasIPs(s.space[m]) then To(s, k, Done(c.req, Err(ErrHasIPs)))
    else To(s, k, Deleting(c.req, m, LifeNumber(s, m), s.space[m].version))
  }

  /** What a call that deletes answers in the end. */
  function DeleteAnswer(q: Request): Grant {
    if q.ReqReleaseChild? then FreedChild(q.copy.cidr) else Gone
  }

  /** The delete looks at nothing any more. */
  function StepDelete(s: State, k: CallId, c: Call): State
    requires c.Deleting?
  {
    To(s, k, Done(c.req, Ok(DeleteAnswer(c.req)))).(space := Remove(s.space, c.cidr))
  }

  /** NewPrefix takes the lock, reads all prefixes and compares. */
  function StepLock(s: State, k: CallId, c: Call): State
    requires c.Waiting?
  {
    if s.lock.Some? then s
    else if Clashes(s.space, Target(c.req)) then To(s, k, Done(c.req, Err(ErrOverlap)))
    else To(s, k, Adding(c.req)).(lock := Some(k))
  }

  function StepAdd(s: State, k: CallId, c: Call): State
    requires c.Adding?
  {
    var r := NewRecord(Target(c.req), None);
    if r.cidr in s.space then To(s, k, Done(c.req, Err(ErrAlreadyCreated))).(lock := None)
    else Birth(s, k, c.req, r, Born).(lock := None)
  }

  datatype Step = Start(call: CallId, req: Request) | Go(call: CallId)

  /** One step of one call. A step that is not possible changes nothing. */
  function Exec(s: State, step: Step): State {
    match step
    case Start(k, q) => if k in s.calls then s else To(s, k, StartCall(q))
    case Go(k) =>
      if k !in s.calls then s
      else
        var c := s.calls[k];
        match c
        case Reading(_, _, _) => StepRead(s, k, c)
        case Writing(_, _, _, _, _) => StepWrite(s, k, c)
        case Creating(_, _) => StepCreate(s, k, c)
        case Checking(_, _) => StepCheck(s, k, c)
        case Deleting(_, _, _, _) => StepDelete(s, k, c)
        case Waiting(_) => StepLock(s, k, c)
        case Adding(_) => StepAdd(s, k, c)
        case Exhausted(_, _) => s
        case Done(_, _) => s
  }

  /** The state after a run. */
  function After(steps: seq<Step>): State {
    if steps == [] then INITIAL else Exec(After(steps[..|steps| - 1]), steps[|steps| - 1])
  }

  /** `e` is the call's edit applied to `before`, as if nothing had happened in between. */
  ghost predicate Follows(before: Record, e: Entry) {
    match EditOf(e.req, before)
    case Ok((r, g)) => e.grant == g && e.record == Bump(r)
    case Err(_) => false
  }

  ghost predicate Chain(log: seq<Entry>) {
    forall v :: 0 < v < |log| ==> Follows(log[v - 1].record, log[v])
  }

  ghost predicate IsBirth(e: Entry) {
    e.grant == Born && e.record == NewRecord(e.record.cidr, e.record.parentCidr)
  }

  /** The history of one prefix. */
  ghost predicate LifeOk(c: Cidr, h: Life) {
    && h.number >= 1 && |h.log| > 0 && IsBirth(h.log[0])
    && (forall v :: 0 <= v < |h.log| ==>
          h.log[v].record.version == v && h.log[v].record.cidr == c && RecordOk(h.log[v].record))
    && (h.tainted ==> h.number >= 2)
    && (!h.tainted <==> Chain(h.log))
    && (h.log[0].record.parentCidr.None? <==> h.root)
  }

  /** What a call knows about its target. */
  ghost predicate CallOk(k: CallId, call: Call, hist: map<Cidr, Life>) {
    match call
    case Reading(q, tries, None) => IsEdit(q) && tries == 0
    case Reading(q, tries, Some(seen)) =>
      var t := Target(q);
      && IsEdit(q) && 0 < tries < ATTEMPTS && t in hist && seen.life <= hist[t].number
      && (seen.life == hist[t].number ==> seen.version + tries < |hist[t].log|)
    case Writing(q, tries, seen, snap, life) =>
      var t := Target(q);
      && IsEdit(q) && tries < ATTEMPTS && t in hist && RecordOk(snap) && snap.cidr == t && 1 <= life <= hist[t].number
      && (life == hist[t].number ==> 0 <= snap.version < |hist[t].log| && hist[t].log[snap.version].record == snap)
      && seen.life <= life && (seen.life == life ==> seen.version + tries <= snap.version)
    case Exhausted(q, seen) =>
      var t := Target(q);
      && t in hist && seen.life <= hist[t].number
      && (seen.life == hist[t].number ==> seen.version + ATTEMPTS < |hist[t].log|)
    case Adding(q) => q.ReqNewPrefix?
    case Waiting(q) => q.ReqNewPrefix?
    case Creating(q, _) => q.ReqAcquireChild?
    case Checking(q, c) => (q.ReqDelete? && c == q.cidr) || (q.ReqReleaseChild? && IsEdit(q) && c == q.copy.cidr)
    case Deleting(q, c, life, version) =>
      && ((q.ReqDelete? && c == Masked(q.cidr)) || (q.ReqReleaseChild? && IsEdit(q) && c == Masked(q.copy.cidr)))
      && c in hist && life <= hist[c].number
      && (life == hist[c].number ==>
            && 0 <= version < |hist[c].log| && !HasIPs(hist[c].log[version].record)
            && forall v :: version < v < |hist[c].log| ==> hist[c].log[v].call != k)
    case Done(_, _) => true
  }

  /** A call that has not written anything yet, or never will. */
  predicate Pending(call: Call) {
    call.Reading? || call.Writing? || call.Exhausted? || call.Waiting? || call.Adding?
  }

  /** The call has committed its write, with this grant. */
  ghost predicate Holds(k: CallId, q: Request, g: Grant, receipts: map<CallId, Receipt>) {
    k in receipts && receipts[k].cidr == Target(q) && receipts[k].grant == g
  }

  /** A call has a receipt exactly when it has committed, and answers what the receipt says. */
  ghost predicate AnswerOk(k: CallId, call: Call, receipts: map<CallId, Receipt>) {
    match call
    case Creating(q, c) => Holds(k, q, GotChild(c), receipts)
    case Checking(q, _) => if q.ReqReleaseChild? then Holds(k, q, DeleteAnswer(q), receipts) else k !in receipts
    case Deleting(q, _, _, _) => if q.ReqReleaseChild? then Holds(k, q, DeleteAnswer(q), receipts) else k !in receipts
    case Done(q, Ok(g)) => if q.ReqNewPrefix? || q.ReqDelete? then k !in receipts else Holds(k, q, g, receipts)
    case Done(q, Err(_)) => q.ReqAcquireChild? || q.ReqReleaseChild? || k !in receipts
    case _ => k !in receipts
  }

  /** The receipt names the call's entry, as long as the life it was written in lasts. */
  ghost predicate ReceiptOk(k: CallId, receipt: Receipt, hist: map<Cidr, Life>) {
    var c := receipt.cidr;
    && c in hist && receipt.life <= hist[c].number
    && (receipt.life == hist[c].number ==>
          && 0 < receipt.version < |hist[c].log|
          && hist[c].log[receipt.version].call == k && hist[c].log[receipt.version].grant == receipt.grant)
  }

  ghost predicate SpaceInv(space: Space, hist: map<Cidr, Life>) {
    && (forall c {:trigger LifeOk(c, hist[c])} :: c in hist ==> LifeOk(c, hist[c]))
    && (forall c :: c in space ==> c in hist && hist[c].log != [] && space[c] == Last(hist[c].log))
  }

  function Last(log: seq<Entry>): Record
    requires log != []
  {
    log[|log| - 1].record
  }

  /** Entries come from calls that have written. */
  ghost predicate AuthorsInv(calls: map<CallId, Call>, hist: map<Cidr, Life>) {
    forall c, e :: c in hist && e in hist[c].log ==> e.call in calls && !Pending(calls[e.call])
  }

  ghost predicate CallsInv(calls: map<CallId, Call>, hist: map<Cidr, Life>) {
    forall k {:trigger CallOk(k, calls[k], hist)} :: k in calls ==> CallOk(k, calls[k], hist)
  }

  ghost predicate AnswersInv(calls: map<CallId, Call>, receipts: map<CallId, Receipt>) {
    && (forall k {:trigger AnswerOk(k, calls[k], receipts)} :: k in calls ==> AnswerOk(k, calls[k], receipts))
    && receipts.Keys <= calls.Keys
  }

  ghost predicate ReceiptsInv(receipts: map<CallId, Receipt>, hist: map<Cidr, Life>, commits: multiset<CallId>) {
    && (forall k {:trigger ReceiptOk(k, receipts[k], hist)} :: k in receipts ==> ReceiptOk(k, receipts[k], hist))
    && (forall k :: commits[k] == if k in receipts then 1 else 0)
  }

  ghost predicate RootIn(space: Space, hist: map<Cidr, Life>, c: Cidr) {
    c in space && c in hist && hist[c].root
  }

  ghost predicate RootsInv(s: State) {
    && (forall c, d :: RootIn(s.space, s.hist, c) && RootIn(s.space, s.hist, d) && c != d ==> !Overlaps(c, d))
    && (forall k, c :: k in s.calls && s.calls[k].Adding? && RootIn(s.space, s.hist, c) ==>
          !Overlaps(c, Target(s.calls[k].req)))
    && (forall k :: k in s.calls && s.calls[k].Adding? ==> s.lock == Some(k))
  }

  ghost predicate Inv(s: State) {
    && SpaceInv(s.space, s.hist) && AuthorsInv(s.calls, s.hist) && CallsInv(s.calls, s.hist)
    && AnswersInv(s.calls, s.receipts) && ReceiptsInv(s.receipts, s.hist, s.commits) && RootsInv(s)
  }

  /** Histories only grow by a step of call `k`: the log gets longer by entries of `k`, or a new life begins. */
  ghost predicate Grows(hist: map<Cidr, Life>, next: map<Cidr, Life>, k: CallId) {
    forall c :: c in hist ==>
      && c in next && hist[c].number <= next[c].number
      && (hist[c].number == next[c].number ==>
            && hist[c].log <= next[c].log
            && forall v :: |hist[c].log| <= v < |next[c].log| ==> next[c].log[v].call == k)
  }

  lemma CallOkGrows(j: CallId, call: Call, hist: map<Cidr, Life>, next: map<Cidr, Life>, k: CallId)
    requires CallOk(j, call, hist) && Grows(hist, next, k) && (j != k || !call.Deleting?)
    ensures CallOk(j, call, next)
  {
  }

  /** The other calls are not disturbed by a step of call `k`. */
  lemma OthersUndisturbed(s: State, k: CallId, call: Call, next: map<Cidr, Life>)
    requires CallsInv(s.calls, s.hist) && Grows(s.hist, next, k) && CallOk(k, call, next)
    ensures CallsInv(s.calls[k := call], next)
  {
    var calls := s.calls[k := call];
    forall j | j in calls
      ensures CallOk(j, calls[j], next)
    {
      if j != k { CallOkGrows(j, s.calls[j], s.hist, next, k); }
    }
  }

  /** Steps that only move one call. */
  lemma MoveKeepsInv(s: State, k: CallId, call: Call)
    requires Inv(s) && CallOk(k, call, s.hist) && AnswerOk(k, call, s.receipts)
    requires !call.Adding? && (k in s.calls && !Pending(s.calls[k]) ==> !Pending(call))
    ensures Inv(To(s, k, call))
    ensures k in s.calls && s.calls[k].Adding? ==> Inv(To(s, k, call).(lock := None))
  {
    OthersUndisturbed(s, k, call, s.hist);
    AnswersKept(s, k, call);
  }

  lemma AnswersKept(s: State, k: CallId, call: Call)
    requires AnswersInv(s.calls, s.receipts) && AnswerOk(k, call, s.receipts)
    ensures AnswersInv(s.calls[k := call], s.receipts)
  {
    var calls := s.calls[k := call];
    forall j | j in calls ensures AnswerOk(j, calls[j], s.receipts) {
      if j != k { assert AnswerOk(j, s.calls[j], s.receipts); }
    }
  }

  /** A call that has not committed fails. */
  lemma FailKeepsInv(s: State, k: CallId, e: Error)
    requires Inv(s) && k in s.calls && (s.calls[k].Reading? || s.calls[k].Writing?)
    ensures Inv(To(s, k, Done(s.calls[k].req, Err(e))))
  {
    assert AnswerOk(k, s.calls[k], s.receipts);
    MoveKeepsInv(s, k, Done(s.calls[k].req, Err(e)));
  }

  lemma ReadKeepsInv(s: State, k: CallId)
    requires Inv(s) && k in s.calls && s.calls[k].Reading?
    ensures Inv(StepRead(s, k, s.calls[k]))
  {
    var c := s.calls[k];
    var t := Target(c.req);
    if t !in s.space {
      FailKeepsInv(s, k, ErrNotFound);
    } else {
      assert StepRead(s, k, c) == To(s, k, StepRead(s, k, c).calls[k]);
      assert CallOk(k, c, s.hist) && AnswerOk(k, c, s.receipts);
      assert LifeOk(t, s.hist[t]);
      MoveKeepsInv(s, k, StepRead(s, k, c).calls[k]);
    }
  }

  /** A record may follow the last one of a log. */
  lemma LifeExtended(c: Cidr, h: Life, e: Entry, stale: bool)
    requires LifeOk(c, h) && e.record.version == |h.log| && e.record.cidr == c && RecordOk(e.record)
    requires stale ==> h.number >= 2
    requires !stale <==> Follows(Last(h.log), e)
    ensures LifeOk(c, h.(log := h.log + [e], tainted := h.tainted || stale))
  {
    ChainExtended(h.log, e);
  }

  lemma {:induction false} ChainExtended(log: seq<Entry>, e: Entry)
    requires log != []
    ensures Chain(log + [e]) <==> Chain(log) && Follows(Last(log), e)
  {
    var more := log + [e];
    if Chain(more) {
      forall v | 0 < v < |log| ensures Follows(log[v - 1].record, log[v]) {
        assert Follows(more[v - 1].record, more[v]);
      }
      assert Follows(more[|log| - 1].record, more[|log|]);
    }
  }

  /** A write that goes through meets the version its snapshot had; within a life, the snapshot itself. */
  lemma CommitMeets(s: State, k: CallId, c: Call, r: Record, g: Grant)
    requires Inv(s) && k in s.calls && c == s.calls[k] && c.Writing?
    requires EditOf(c.req, c.snap) == Ok((r, g)) && Update(s.space, r).Ok?
    ensures var t := Target(c.req);
            && r.cidr == t && RecordOk(Bump(r)) && t in s.space && t in s.hist && LifeOk(t, s.hist[t])
            && r.version == |s.hist[t].log| - 1 && Last(s.hist[t].log) == s.space[t]
            && (c.life == s.hist[t].number ==> c.snap == s.space[t])
            && (c.life != s.hist[t].number ==> s.hist[t].number >= 2)
  {
    assert CallOk(k, c, s.hist);
    EditKeepsRecord(c.req, c.snap);
    UpdateExact(s.space, r);
    assert LifeOk(r.cidr, s.hist[r.cidr]);
  }

  /** The history after a commit: the new entry follows the last one exactly if the snapshot matched. */
  lemma CommitLife(s: State, k: CallId, c: Call, r: Record, g: Grant)
    requires Inv(s) && k in s.calls && c == s.calls[k] && c.Writing?
    requires EditOf(c.req, c.snap) == Ok((r, g)) && Update(s.space, r).Ok?
    ensures var s', t := Committed(s, k, c, r, g), r.cidr;
            && t == Target(c.req) && t in s.hist && t in s.space && LifeOk(t, s'.hist[t])
            && s'.hist == s.hist[t := s'.hist[t]] && s'.hist[t].number == s.hist[t].number >= 1
            && s'.hist[t].root == s.hist[t].root && |s.hist[t].log| > 0
            && s'.hist[t].log == s.hist[t].log + [Entry(k, c.req, g, Bump(r))]
            && Grows(s.hist, s'.hist, k)
  {
    CommitMeets(s, k, c, r, g);
    var h, e, now := s.hist[r.cidr], Entry(k, c.req, g, Bump(r)), s.space[r.cidr];
    CommitHist(s, k, c, r, g);
    MatchesIff(c.req, c.snap, now);
    SameIsMatch(c.req, c.snap);
    FollowsIff(now, c.snap, e, r);
    LifeExtended(r.cidr, h, e, !Matches(g, c.snap, now));
  }

  lemma CommitHist(s: State, k: CallId, c: Call, r: Record, g: Grant)
    requires c.Writing? && r.cidr in s.space && r.cidr in s.hist
    ensures var h, next := s.hist[r.cidr], Committed(s, k, c, r, g).hist;
            && next == s.hist[r.cidr := h.(log := h.log + [Entry(k, c.req, g, Bump(r))],
                                           tainted := h.tainted || !Matches(g, c.snap, s.space[r.cidr]))]
            && Grows(s.hist, next, k)
  {
  }

  lemma FollowsIff(now: Record, snap: Record, e: Entry, r: Record)
    requires EditOf(e.req, snap) == Ok((r, e.grant)) && e.record == Bump(r)
    ensures Follows(now, e) <==> EditOf(e.req, now) == EditOf(e.req, snap)
  {
  }

  /** One life gets a new log whose entries are old ones or the moved call's. */
  lemma AuthorsKept(s: State, k: CallId, call: Call, c: Cidr, life: Life)
    requires AuthorsInv(s.calls, s.hist) && !Pending(call)
    requires forall e :: e in life.log ==> e.call == k || (c in s.hist && e in s.hist[c].log)
    ensures AuthorsInv(s.calls[k := call], s.hist[c := life])
  {
  }

  lemma SpaceKept(s: State, c: Cidr, r: Record, life: Life)
    requires SpaceInv(s.space, s.hist) && LifeOk(c, life) && r == Last(life.log) && r.cidr == c
    ensures SpaceInv(With(s.space, r), s.hist[c := life])
  {
    var hist := s.hist[c := life];
    forall d | d in hist ensures LifeOk(d, hist[d]) { assert d != c ==> LifeOk(d, s.hist[d]); }
  }

  lemma ReceiptsGrow(k: CallId, receipts: map<CallId, Receipt>, hist: map<Cidr, Life>, next: map<Cidr, Life>,
                                        commits: multiset<CallId>)
    requires ReceiptsInv(receipts, hist, commits) && Grows(hist, next, k)
    ensures ReceiptsInv(receipts, next, commits)
  {
    forall j | j in receipts ensures ReceiptOk(j, receipts[j], next) {
      assert ReceiptOk(j, receipts[j], hist);
    }
  }

  /** The call gets its receipt. */
  lemma ReceiptAdded(s: State, k: CallId, receipt: Receipt, next: map<Cidr, Life>)
    requires ReceiptsInv(s.receipts, s.hist, s.commits) && Grows(s.hist, next, k)
    requires k !in s.receipts && ReceiptOk(k, receipt, next)
    ensures ReceiptsInv(s.receipts[k := receipt], next, s.commits + multiset{k})
  {
    var receipts := s.receipts[k := receipt];
    forall j | j in receipts ensures ReceiptOk(j, receipts[j], next) {
      if j != k { assert ReceiptOk(j, s.receipts[j], s.hist); }
    }
  }

  lemma AnswerAdded(s: State, k: CallId, call: Call, receipt: Receipt)
    requires AnswersInv(s.calls, s.receipts) && AnswerOk(k, call, s.receipts[k := receipt])
    ensures AnswersInv(s.calls[k := call], s.receipts[k := receipt])
  {
    var calls, receipts := s.calls[k := call], s.receipts[k := receipt];
    forall j | j in calls ensures AnswerOk(j, calls[j], receipts) {
      if j != k { assert AnswerOk(j, s.calls[j], s.receipts); }
    }
  }

  lemma CommitKeepsRoots(s: State, k: CallId, c: Call, r: Record, g: Grant)
    requires RootsInv(s) && k in s.calls && c.Writing? && r.cidr in s.space && r.cidr in s.hist
    requires !s.calls[k].Adding?
    ensures RootsInv(Committed(s, k, c, r, g))
  {
    var s' := Committed(s, k, c, r, g);
    assert forall d :: RootIn(s'.space, s'.hist, d) == RootIn(s.space, s.hist, d);
    BirthRoots(s, s', k, r.cidr, false);
  }

  /** The records and the calls when call `k` moves and the life of `c` goes on by the entry `e`. */
  lemma EntryKeeps(s: State, k: CallId, call: Call, c: Cidr, life: Life, e: Entry)
    requires SpaceInv(s.space, s.hist) && AuthorsInv(s.calls, s.hist) && CallsInv(s.calls, s.hist)
    requires c in s.hist && LifeOk(c, life) && life.log == s.hist[c].log + [e] && e.call == k && e.record.cidr == c
    requires Grows(s.hist, s.hist[c := life], k) && CallOk(k, call, s.hist[c := life]) && !Pending(call)
    ensures SpaceInv(With(s.space, e.record), s.hist[c := life])
    ensures AuthorsInv(s.calls[k := call], s.hist[c := life]) && CallsInv(s.calls[k := call], s.hist[c := life])
  {
    OthersUndisturbed(s, k, call, s.hist[c := life]);
    AuthorsKept(s, k, call, c, life);
    SpaceKept(s, c, e.record, life);
  }

  lemma AfterCommitOk(k: CallId, c: Call, g: Grant, hist: map<Cidr, Life>, receipts: map<CallId, Receipt>)
    requires c.Writing? && CallOk(k, c, hist) && EditOf(c.req, c.snap).Ok? && EditOf(c.req, c.snap).value.1 == g
    requires Holds(k, c.req, g, receipts)
    ensures CallOk(k, AfterCommit(c.req, g), hist) && AnswerOk(k, AfterCommit(c.req, g), receipts)
    ensures !Pending(AfterCommit(c.req, g))
  {
  }

  lemma CommitKeepsInv(s: State, k: CallId, c: Call, r: Record, g: Grant)
    requires Inv(s) && k in s.calls && c == s.calls[k] && c.Writing?
    requires EditOf(c.req, c.snap) == Ok((r, g)) && Update(s.space, r).Ok?
    ensures Inv(Committed(s, k, c, r, g))
  {
    var s', t, call := Committed(s, k, c, r, g), r.cidr, AfterCommit(c.req, g);
    CommitLife(s, k, c, r, g);
    assert CallOk(k, c, s.hist) && AnswerOk(k, c, s.receipts);
    CallOkGrows(k, c, s.hist, s'.hist, k);
    AfterCommitOk(k, c, g, s'.hist, s'.receipts);
    EntryKeeps(s, k, call, t, s'.hist[t], Entry(k, c.req, g, Bump(r)));
    ReceiptAdded(s, k, s'.receipts[k], s'.hist);
    AnswerAdded(s, k, call, s'.receipts[k]);
    CommitKeepsRoots(s, k, c, r, g);
  }

  /** A write that met another version: the call tries again, or gives up after its last attempt. */
  lemma LostRaceKeepsInv(s: State, k: CallId, c: Call)
    requires Inv(s) && k in s.calls && c == s.calls[k] && c.Writing?
    requires Target(c.req) in s.space && s.space[Target(c.req)].version != c.snap.version
    ensures c.tries + 1 < ATTEMPTS ==> Inv(To(s, k, Reading(c.req, c.tries + 1, Some(c.seen))))
    ensures c.tries + 1 >= ATTEMPTS ==> Inv(To(s, k, Exhausted(c.req, c.seen)))
  {
    assert CallOk(k, c, s.hist) && AnswerOk(k, c, s.receipts);
    var t := Target(c.req);
    assert LifeOk(t, s.hist[t]);
    if c.tries + 1 < ATTEMPTS {
      MoveKeepsInv(s, k, Reading(c.req, c.tries + 1, Some(c.seen)));
    } else {
      MoveKeepsInv(s, k, Exhausted(c.req, c.seen));
    }
  }

  lemma WriteKeepsInv(s: State, k: CallId)
    requires Inv(s) && k in s.calls && s.calls[k].Writing?
    ensures Inv(StepWrite(s, k, s.calls[k]))
  {
    var c := s.calls[k];
    if EditOf(c.req, c.snap).Err? {
      FailKeepsInv(s, k, EditOf(c.req, c.snap).error);
    } else {
      EditedWriteKeepsInv(s, k, c, EditOf(c.req, c.snap).value.0, EditOf(c.req, c.snap).value.1);
    }
  }

  lemma RefusedWriteKeepsInv(s: State, k: CallId, c: Call, r: Record, g: Grant)
    requires Inv(s) && k in s.calls && c == s.calls[k] && c.Writing?
    requires EditOf(c.req, c.snap) == Ok((r, g)) && Update(s.space, r).Err?
    ensures Inv(StepWrite(s, k, c))
  {
    var e := Update(s.space, r).error;
    if e != ErrOptimisticLock {
      assert StepWrite(s, k, c) == To(s, k, Done(c.req, Err(e)));
      FailKeepsInv(s, k, e);
    } else {
      assert StepWrite(s, k, c) == To(s, k, if c.tries + 1 < ATTEMPTS then Reading(c.req, c.tries + 1, Some(c.seen))
                                            else Exhausted(c.req, c.seen));
      EditKeepsName(c.req, c.snap);
      assert CallOk(k, c, s.hist);
      LostRaceKeepsInv(s, k, c);
    }
  }

  lemma EditedWriteKeepsInv(s: State, k: CallId, c: Call, r: Record, g: Grant)
    requires Inv(s) && k in s.calls && c == s.calls[k] && c.Writing? && EditOf(c.req, c.snap) == Ok((r, g))
    ensures Inv(StepWrite(s, k, c))
  {
    if Update(s.space, r).Ok? {
      assert StepWrite(s, k, c) == Committed(s, k, c, r, g);
      CommitKeepsInv(s, k, c, r, g);
    } else {
      RefusedWriteKeepsInv(s, k, c, r, g);
    }
  }

  lemma BirthKeepsInv(s: State, k: CallId, q: Request, r: Record, answer: Grant)
    requires Inv(s) && k in s.calls && r.cidr !in s.space && RecordOk(r) && r.version == 0
    requires (r.parentCidr.None? <==> answer == Born) && r == NewRecord(r.cidr, r.parentCidr)
    requires answer == Born ==> s.calls[k].Adding? && Target(s.calls[k].req) == r.cidr
    requires AnswerOk(k, Done(q, Ok(answer)), s.receipts)
    ensures Inv(Birth(s, k, q, r, answer))
    ensures answer == Born ==> Inv(Birth(s, k, q, r, answer).(lock := None))
  {
    var s', c := Birth(s, k, q, r, answer), r.cidr;
    BirthLife(s, k, q, r, answer);
    OthersUndisturbed(s, k, Done(q, Ok(answer)), s'.hist);
    AuthorsKept(s, k, Done(q, Ok(answer)), c, s'.hist[c]);
    SpaceKept(s, c, r, s'.hist[c]);
    AnswersKept(s, k, Done(q, Ok(answer)));
    ReceiptsGrow(k, s.receipts, s.hist, s'.hist, s.commits);
    BirthRoots(s, s', k, c, answer == Born);
  }

  /** The history after a birth. */
  lemma BirthLife(s: State, k: CallId, q: Request, r: Record, answer: Grant)
    requires SpaceInv(s.space, s.hist) && r.cidr !in s.space && RecordOk(r) && r.version == 0
    requires (r.parentCidr.None? <==> answer == Born) && r == NewRecord(r.cidr, r.parentCidr)
    ensures var s' := Birth(s, k, q, r, answer);
            && LifeOk(r.cidr, s'.hist[r.cidr]) && Grows(s.hist, s'.hist, k)
            && forall d :: RootIn(s'.space, s'.hist, d) <==>
                           RootIn(s.space, s.hist, d) || (answer == Born && d == r.cidr)
  {
    var s', c := Birth(s, k, q, r, answer), r.cidr;
    assert c in s.hist ==> LifeOk(c, s.hist[c]);
    assert IsBirth(s'.hist[c].log[0]);
  }

  lemma BirthRoots(s: State, s': State, k: CallId, c: Cidr, root: bool)
    requires RootsInv(s) && k in s.calls
    requires root ==> s.calls[k].Adding? && Target(s.calls[k].req) == c
    requires k in s'.calls && s'.calls == s.calls[k := s'.calls[k]] && !s'.calls[k].Adding? && s'.lock == s.lock
    requires forall d :: RootIn(s'.space, s'.hist, d) <==> RootIn(s.space, s.hist, d) || (root && d == c)
    ensures RootsInv(s') && (root ==> RootsInv(s'.(lock := None)))
  {
    forall d | root && RootIn(s.space, s.hist, d) ensures !Overlaps(c, d) && !Overlaps(d, c) { Geometry(c, d); }
  }

  lemma NewRecordAgain(c: Cidr, p: Option<Cidr>)
    ensures NewRecord(NewRecord(c, p).cidr, NewRecord(c, p).parentCidr) == NewRecord(c, p)
  {
    MaskedIsCanonical(c);
    if p.Some? { MaskedIsCanonical(p.value); }
    assert FirstAddr(Masked(c)) == FirstAddr(c) && LastAddr(Masked(c)) == LastAddr(c);
  }

  lemma CreateKeepsInv(s: State, k: CallId)
    requires Inv(s) && k in s.calls && s.calls[k].Creating?
    ensures Inv(StepCreate(s, k, s.calls[k]))
  {
    var c := s.calls[k];
    assert CallOk(k, c, s.hist) && AnswerOk(k, c, s.receipts);
    var r := NewRecord(c.child, Some(Target(c.req)));
    NewRecordOk(c.child, Some(Target(c.req)));
    NewRecordAgain(c.child, Some(Target(c.req)));
    if r.cidr in s.space {
      MoveKeepsInv(s, k, Done(c.req, Err(ErrAlreadyCreated)));
    } else {
      BirthKeepsInv(s, k, c.req, r, GotChild(c.child));
    }
  }

  lemma AddKeepsInv(s: State, k: CallId)
    requires Inv(s) && k in s.calls && s.calls[k].Adding?
    ensures Inv(StepAdd(s, k, s.calls[k]))
  {
    var c := s.calls[k];
    assert CallOk(k, c, s.hist) && AnswerOk(k, c, s.receipts);
    var t := Target(c.req);
    var r := NewRecord(t, None);
    NewRecordOk(t, None);
    NewRecordAgain(t, None);
    MaskedIsCanonical(c.req.cidr);
    if r.cidr in s.space {
      MoveKeepsInv(s, k, Done(c.req, Err(ErrAlreadyCreated)));
    } else {
      BirthKeepsInv(s, k, c.req, r, Born);
    }
  }

  lemma DeleteKeepsInv(s: State, k: CallId)
    requires Inv(s) && k in s.calls && s.calls[k].Deleting?
    ensures Inv(StepDelete(s, k, s.calls[k]))
  {
    var c := s.calls[k];
    var s' := StepDelete(s, k, c);
    assert s' == To(s, k, s'.calls[k]).(space := s'.space);
    assert CallOk(k, c, s.hist) && AnswerOk(k, c, s.receipts);
    MoveKeepsInv(s, k, s'.calls[k]);
    assert forall d :: RootIn(s'.space, s'.hist, d) ==> RootIn(s.space, s.hist, d);
  }

  lemma CheckKeepsInv(s: State, k: CallId)
    requires Inv(s) && k in s.calls && s.calls[k].Checking?
    ensures Inv(StepCheck(s, k, s.calls[k]))
  {
    var c, m := s.calls[k], Masked(s.calls[k].cidr);
    assert CallOk(k, c, s.hist) && AnswerOk(k, c, s.receipts);
    if m !in s.space {
      MoveKeepsInv(s, k, Done(c.req, Err(ErrNotFound)));
    } else if HasIPs(s.space[m]) {
      MoveKeepsInv(s, k, Done(c.req, Err(ErrHasIPs)));
    } else {
      CheckNoted(s, k, c.req, m);
      MoveKeepsInv(s, k, Deleting(c.req, m, LifeNumber(s, m), s.space[m].version));
    }
  }

  /** What a check notes is true when it is made. */
  lemma CheckNoted(s: State, k: CallId, q: Request, m: Cidr)
    requires SpaceInv(s.space, s.hist) && m in s.space && !HasIPs(s.space[m])
    requires (q.ReqDelete? && m == Masked(q.cidr)) || (q.ReqReleaseChild? && IsEdit(q) && m == Masked(q.copy.cidr))
    ensures CallOk(k, Deleting(q, m, LifeNumber(s, m), s.space[m].version), s.hist)
  {
    assert LifeOk(m, s.hist[m]);
  }

  lemma LockKeepsInv(s: State, k: CallId)
    requires Inv(s) && k in s.calls && s.calls[k].Waiting?
    ensures Inv(StepLock(s, k, s.calls[k]))
  {
    var c := s.calls[k];
    assert CallOk(k, c, s.hist) && AnswerOk(k, c, s.receipts);
    if s.lock.None? {
      if Clashes(s.space, Target(c.req)) {
        MoveKeepsInv(s, k, Done(c.req, Err(ErrOverlap)));
      } else {
        OthersUndisturbed(s, k, Adding(c.req), s.hist);
        AnswersKept(s, k, Adding(c.req));
      }
    }
  }

  lemma ExecKeepsInv(s: State, step: Step)
    requires Inv(s)
    ensures Inv(Exec(s, step))
  {
    match step
    case Start(k, q) =>
      if k !in s.calls { MoveKeepsInv(s, k, StartCall(q)); }
    case Go(k) =>
      if k in s.calls {
        match s.calls[k]
        case Reading(_, _, _) => ReadKeepsInv(s, k);
        case Writing(_, _, _, _, _) => WriteKeepsInv(s, k);
        case Creating(_, _) => CreateKeepsInv(s, k);
        case Checking(_, _) => CheckKeepsInv(s, k);
        case Deleting(_, _, _, _) => DeleteKeepsInv(s, k);
        case Waiting(_) => LockKeepsInv(s, k);
        case Adding(_) => AddKeepsInv(s, k);
        case Exhausted(_, _) =>
        case Done(_, _) =>
      }
  }

  /** Every reachable state satisfies the invariant, whatever calls run and however they interleave. */
  lemma {:induction false} AlwaysInv(steps: seq<Step>)
    ensures Inv(After(steps))
    decreases |steps|
  {
    if steps != [] {
      AlwaysInv(steps[..|steps| - 1]);
      ExecKeepsInv(After(steps[..|steps| - 1]), steps[|steps| - 1]);
    }
  }
}
