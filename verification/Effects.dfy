/** What every operation of the store and the allocator does in each of its cases: when it succeeds, with
    which error it fails, that a failure changes nothing, and what a success changes. */
module Effects {
  import opened Wrappers
  import opened Cidrs
  import opened FreeSpace
  import opened Counting
  import opened Records
  import opened Store
  import opened Json
  import opened Ops

  /** A new record has the masked prefix and parent, no children, version 0, and holds the network
      address and, for IPv4, the broadcast address. */
  lemma NewRecordExact(c: Cidr, parentCidr: Option<Cidr>)
    ensures var r := NewRecord(c, parentCidr);
            && Canonical(r.cidr) && r.cidr.family == c.family && r.cidr.bits == c.bits && First(r.cidr) == First(c)
            && (parentCidr.None? <==> r.parentCidr.None?)
            && (parentCidr.Some? ==>
                  var p := parentCidr.value;
                  r.parentCidr.value == Net(p.family, First(p), p.bits))
            && !r.isParent && r.children == map[] && r.childPrefixLength == 0 && r.version == 0
            && forall a: Addr :: a in r.ips <==>
                                 a.family == c.family && (a.value == First(c) || (c.family.V4? && a.value == Last(c)))
    ensures Normalised(NewRecord(c, parentCidr)) == NewRecord(c, parentCidr)
  {
    MaskedIsCanonical(c);
    forall a: Addr
      ensures a == FirstAddr(c) <==> a.family == c.family && a.value == First(c)
      ensures a == LastAddr(c) <==> a.family == c.family && a.value == Last(c)
    {
    }
  }

  lemma ReleaseIpExact(r: Record, ip: Addr)
    ensures ip in r.ips ==> ReleaseIp(r, ip).Ok? && ip !in ReleaseIp(r, ip).value.ips
    ensures ip in r.ips ==> r == ReleaseIp(r, ip).value.(ips := ReleaseIp(r, ip).value.ips + {ip})
    ensures ip !in r.ips ==> ReleaseIp(r, ip) == Err(ErrNotFound)
  {
    if ip in r.ips { assert r.ips == r.ips - {ip} + {ip}; }
  }

  /** With which error a child is refused; the first that applies is reported. */
  lemma SelectChildErrors(r: Record, want: ChildRequest)
    ensures var length := if want.OfLength? then want.length else want.child.bits;
            var out := SelectChild(r, want);
            && (out == Err(ErrLengthNotGreater) <==> length <= r.cidr.bits)
            && (out == Err(ErrHasIPs) <==> r.cidr.bits < length && HasIPs(r))
            && (r.cidr.bits < length && !HasIPs(r) ==>
                  && (out == Err(ErrChildNotAvailable) <==>
                      want.Specific? && !(Within(want.child, r.cidr) && FreeOf(want.child, Taken(r.children))))
                  && (out == Err(ErrNoFreePrefix) <==>
                      want.OfLength? && forall b :: b in FreeBlocks(r.cidr, Taken(r.children)) ==> length < b.bits)
                  && (out == Err(ErrInvalidChild) <==>
                      && want.OfLength? && Width(r.cidr.family) < length
                      && exists b :: b in FreeBlocks(r.cidr, Taken(r.children)) && b.bits <= length))
  {
    if want.Specific? {
      ContainsPrefixExact(r.cidr, Taken(r.children), want.child);
    } else {
      BlocksSound(r.cidr, Taken(r.children));
      BestFitIsTightest(FreeBlocks(r.cidr, Taken(r.children)), want.length);
    }
  }

  lemma ReleaseChildExact(r: Record, child: Cidr, held: nat)
    ensures var out := ReleaseChild(r, child, held);
            && (out == Err(ErrNoChildPrefix) <==> !r.isParent)
            && (out == Err(ErrHasIPs) <==> r.isParent && held > 2)
            && (out.Ok? <==> r.isParent && held <= 2)
            && (out.Ok? ==>
                  && out.value == r.(children := out.value.children)
                  && child in out.value.children && out.value.children[child]
                  && out.value.children - {child} == r.children - {child})
  {
  }

  lemma CreateExact(space: Space, r: Record)
    ensures var out := Create(space, r);
            && (out.Ok? <==> r.cidr !in space) && (out.Err? ==> out.error == ErrAlreadyCreated)
            && (out.Ok? ==> out.value.Keys == space.Keys + {r.cidr} && out.value[r.cidr] == r
                            && forall c :: c in space ==> out.value[c] == space[c])
  {
  }

  /** An edited snapshot is written exactly if the stored record still has its version; then the record is
      replaced and its version raised, and nothing else changes. */
  lemma CommitExact(space: Space, r: Record)
    ensures var (after, out) := Commit(space, r);
            && (out.Ok? <==> r.cidr in space && space[r.cidr].version == r.version)
            && (out == Err(ErrOptimisticLock) <==> r.cidr in space && space[r.cidr].version != r.version)
            && (out == Err(ErrPrefixMissing) <==> r.cidr !in space)
            && (out.Err? ==> after == space)
            && (out.Ok? ==> after == space[r.cidr := r.(version := r.version + 1)])
  {
    UpdateExact(space, r);
  }

  /** The answer to writing back `r`: Ok exactly if it is stored with its version, the lock error exactly if
      it is stored with another, and nothing written on an error. */
  ghost predicate WriteAnswer<T>(before: Spaces, ns: Namespace, r: Record, after: Spaces, out: Result<T, Error>)
    requires ns in before
  {
    && (out.Ok? <==> r.cidr in before[ns] && before[ns][r.cidr].version == r.version)
    && (out == Err(ErrOptimisticLock) <==> r.cidr in before[ns] && before[ns][r.cidr].version != r.version)
    && (out.Err? ==> after == before)
    && (out.Ok? ==> after == before[ns := With(before[ns], r.(version := r.version + 1))])
  }

  lemma CreateInExact(s: Spaces, ns: Namespace, r: Record)
    ensures var out := CreateIn(s, ns, r);
            && (out.Ok? <==> ns in s && r.cidr !in s[ns])
            && (out == Err(ErrNamespaceDoesNotExist) <==> ns !in s)
            && (out == Err(ErrAlreadyCreated) <==> ns in s && r.cidr in s[ns])
            && (out.Ok? ==> out.value == s[ns := With(s[ns], r)])
  {
  }

  /** The answer to an update of `r` in a namespace that may be absent. */
  ghost predicate UpdateAnswer<T>(before: Spaces, ns: Namespace, r: Record, after: Spaces, out: Result<T, Error>) {
    && (ns in before ==> WriteAnswer(before, ns, r, after, out))
    && (ns !in before ==> out == Err(ErrNamespaceDoesNotExist) && after == before)
  }

  lemma UpdateInAnswer<T>(before: Spaces, ns: Namespace, r: Record, after: Spaces, out: Result<T, Error>)
    requires match UpdateIn(before, ns, r)
             case Ok(next) => out.Ok? && after == next
             case Err(e) => out == Err(e) && after == before
    ensures UpdateAnswer(before, ns, r, after, out)
  {
    UpdateInExact(before, ns, r);
  }

  /** The answer to creating `r` in a namespace that may be absent. */
  ghost predicate CreateAnswer<T>(before: Spaces, ns: Namespace, r: Record, after: Spaces, out: Result<T, Error>) {
    && (out.Ok? <==> ns in before && r.cidr !in before[ns])
    && (out.Ok? ==> after == before[ns := With(before[ns], r)])
    && (out.Err? ==>
          && after == before
          && out.error == if ns in before then ErrAlreadyCreated else ErrNamespaceDoesNotExist)
  }

  lemma CreateInAnswer<T>(before: Spaces, ns: Namespace, r: Record, after: Spaces, out: Result<T, Error>)
    requires match CreateIn(before, ns, r)
             case Ok(next) => out.Ok? && after == next
             case Err(e) => out == Err(e) && after == before
    ensures CreateAnswer(before, ns, r, after, out)
  {
    CreateInExact(before, ns, r);
  }

  lemma UpdateInExact(s: Spaces, ns: Namespace, r: Record)
    ensures var out := UpdateIn(s, ns, r);
            && (out.Ok? <==> ns in s && r.cidr in s[ns] && s[ns][r.cidr].version == r.version)
            && (out == Err(ErrNamespaceDoesNotExist) <==> ns !in s)
            && (out == Err(ErrPrefixMissing) <==> ns in s && r.cidr !in s[ns])
            && (out == Err(ErrOptimisticLock) <==> ns in s && r.cidr in s[ns] && s[ns][r.cidr].version != r.version)
            && (out.Ok? ==> out.value == s[ns := With(s[ns], r.(version := r.version + 1))])
  {
    if ns in s { UpdateExact(s[ns], r); }
  }

  /** `after` is `space` with one record edited to `r` and its version raised. */
  ghost predicate Edited(space: Space, after: Space, r: Record) {
    && r.cidr in space && after.Keys == space.Keys
    && after[r.cidr] == r.(version := space[r.cidr].version + 1)
    && forall c :: c in space && c != r.cidr ==> after[c] == space[c]
  }

  lemma AcquireIpEffect(space: Space, cidr: Cidr, want: Option<Addr>)
    requires Keyed(space)
    ensures var (after, out) := DoAcquireIp(space, cidr, want);
            var c := Masked(cidr);
            && (out == Err(ErrNotFound) <==> c !in space) && (out.Err? ==> after == space)
            && (c in space ==>
                  var r := space[c];
                  && (out == Err(ErrHasChildren) <==> r.isParent)
                  && (out == Err(ErrNotInPrefix) <==> !r.isParent && want.Some? && !Contains(c, want.value))
                  && (out == Err(ErrAlreadyAllocated) <==>
                      !r.isParent && want.Some? && Contains(c, want.value) && want.value in r.ips)
                  && (out == Err(ErrNoIPAvailable) <==>
                      !r.isParent && want.None? && forall b: Addr :: Contains(c, b) ==> b in r.ips)
                  && (out.Ok? <==> !r.isParent && if want.Some? then Contains(c, want.value) && want.value !in r.ips
                                                  else exists b: Addr :: Contains(c, b) && b !in r.ips)
                  && (out.Ok? ==>
                        && Contains(c, out.value) && out.value !in r.ips && (want.Some? ==> out.value == want.value)
                        && (want.None? ==> forall b: Addr :: Contains(c, b) && b.value < out.value.value ==> b in r.ips)
                        && Edited(space, after, r.(ips := r.ips + {out.value}))))
  {
    if Masked(cidr) in space { AcquireIpExact(space[Masked(cidr)], want); }
  }

  lemma ReleaseIpEffect(space: Space, cidr: Cidr, ip: Addr)
    requires Keyed(space)
    ensures var (after, out) := DoReleaseIp(space, cidr, ip);
            var c := Masked(cidr);
            && (out.Ok? <==> c in space && ip in space[c].ips)
            && (out.Err? ==> out.error == ErrNotFound && after == space)
            && (out.Ok? ==> Edited(space, after, space[c].(ips := space[c].ips - {ip})))
  {
  }

  lemma NewPrefixEffect(space: Space, cidr: Cidr)
    requires Keyed(space)
    ensures var (after, out) := DoNewPrefix(space, cidr);
            && (out.Ok? <==> forall c, a: Addr :: c in space && Contains(c, a) ==> !Contains(cidr, a))
            && (out.Err? ==> out.error == ErrOverlap && after == space)
            && (out.Ok? ==> out.value == NewRecord(cidr, None) && out.value.cidr !in space
                            && after == space[out.value.cidr := out.value])
  {
    var m := Masked(cidr);
    MaskedIsCanonical(cidr);
    forall c | c in space
      ensures Overlaps(c, m) <==> exists a: Addr :: Contains(c, a) && Contains(cidr, a)
    {
      OverlapsIffShared(c, m);
    }
    Geometry(m, m);
  }

  lemma DeleteEffect(space: Space, cidr: Cidr)
    requires Keyed(space)
    ensures var (after, out) := DoDelete(space, cidr);
            var c := Masked(cidr);
            && (out == Err(ErrNotFound) <==> c !in space)
            && (out == Err(ErrHasIPs) <==> c in space && |space[c].ips| > if c.family.V4? then 2 else 1)
            && (out.Err? ==> after == space && (out.error == ErrNotFound || out.error == ErrHasIPs))
            && (out.Ok? ==> out.value == space[c] && after == space - {c})
  {
  }

  lemma MarkEffect(space: Space, parent: Cidr, want: ChildRequest)
    requires Keyed(space)
    ensures var (after, out) := DoMark(space, parent, want);
            var p := Masked(parent);
            && (out == Err(ErrNotFound) <==> p !in space) && (out.Err? ==> after == space)
            && (p in space ==>
                  && out == SelectChild(space[p], want)
                  && (out.Ok? ==> Edited(space, after, space[p].(children := space[p].children[out.value := false],
                                                                 isParent := true))))
  {
  }

  /** The parent is marked first; the child's record follows unless one of its name is stored already, and
      then the mark stays. */
  lemma AcquireChildEffect(space: Space, parent: Cidr, want: ChildRequest)
    requires Keyed(space)
    ensures var (after, out) := DoAcquireChild(space, parent, want);
            var (marked, child) := DoMark(space, parent, want);
            && (child.Err? ==> out == Err(child.error) && after == space)
            && (child.Ok? ==>
                  var r := NewRecord(child.value, Some(parent));
                  && (out == Err(ErrAlreadyCreated) <==> r.cidr in space)
                  && (out.Err? ==> out.error == ErrAlreadyCreated && after == marked)
                  && (out.Ok? ==> out.value == r && after == marked[r.cidr := r]))
  {
  }

  lemma UnmarkEffect(space: Space, copy: Record)
    requires Keyed(space)
    ensures var (after, out) := DoUnmark(space, copy);
            var found := copy.parentCidr.Some? && Masked(copy.parentCidr.value) in space;
            && (out == Err(ErrNotFound) <==> !found)
            && (found ==>
                  var r := space[Masked(copy.parentCidr.value)];
                  && (out == Err(ErrNoChildPrefix) <==> !r.isParent)
                  && (out == Err(ErrHasIPs) <==> r.isParent && |copy.ips| > 2)
                  && (out.Ok? <==> r.isParent && |copy.ips| <= 2)
                  && (out.Ok? ==> Edited(space, after, r.(children := r.children[copy.cidr := true]))))
            && (out.Err? ==> after == space)
  {
  }

  /** The parent is written before the stored child is looked at, so a refused delete leaves the mark off. */
  lemma ReleaseChildEffect(space: Space, copy: Record)
    requires Keyed(space)
    ensures var (after, out) := DoReleaseChild(space, copy);
            var (unmarked, done) := DoUnmark(space, copy);
            var m := Masked(copy.cidr);
            && (done.Err? ==> out == done && after == space)
            && (done.Ok? ==>
                  && unmarked.Keys == space.Keys
                  && (out == Err(ErrNotFound) <==> m !in space)
                  && (out == Err(ErrHasIPs) <==> m in space && |space[m].ips| > if m.family.V4? then 2 else 1)
                  && (out.Err? ==> after == unmarked && (out.error == ErrNotFound || out.error == ErrHasIPs))
                  && (out.Ok? ==> after == unmarked - {m}))
  {
    UnmarkEffect(space, copy);
    if DoUnmark(space, copy).1.Ok? { DeleteEffect(DoUnmark(space, copy).0, copy.cidr); }
  }

  /** No prefix occurs twice. */
  predicate NoneTwice(rs: seq<Record>) {
    forall i, j :: 0 <= i < j < |rs| ==> rs[i].cidr != rs[j].cidr
  }

  lemma {:induction false} LoadFromExact(space: Space, rs: seq<Record>)
    ensures var (after, out) := LoadFrom(space, rs);
            && (out.Ok? <==> NoneTwice(rs) && forall r :: r in rs ==> r.cidr !in space)
            && (out.Err? ==> out.error == ErrAlreadyCreated)
            && (out.Ok? ==> after.Keys == space.Keys + (set r | r in rs :: r.cidr)
                            && (forall r :: r in rs ==> r.cidr in after && after[r.cidr] == r)
                            && forall c :: c in space ==> after[c] == space[c])
    decreases |rs|
  {
    if rs != [] {
      var r := rs[0];
      assert rs == [r] + rs[1..];
      if r.cidr in space {
        assert r in rs;
      } else {
        var more := With(space, r);
        LoadFromExact(more, rs[1..]);
        NoneTwiceSplit(rs, space);
      }
    }
  }

  lemma NoneTwiceSplit(rs: seq<Record>, space: Space)
    requires rs != [] && rs[0].cidr !in space
    ensures (NoneTwice(rs) && forall r :: r in rs ==> r.cidr !in space) <==>
            (NoneTwice(rs[1..]) && forall r :: r in rs[1..] ==> r.cidr !in With(space, rs[0]))
  {
    var rest := rs[1..];
    if NoneTwice(rest) && forall r :: r in rest ==> r.cidr !in With(space, rs[0]) {
      forall i, j | 0 <= i < j < |rs| ensures rs[i].cidr != rs[j].cidr {
        assert rs[j] == rest[j - 1] && rest[j - 1] in rest;
        if i > 0 { assert rs[i] == rest[i - 1]; }
      }
    }
    if NoneTwice(rs) && forall r :: r in rs ==> r.cidr !in space {
      forall r | r in rest ensures r.cidr !in With(space, rs[0]) {
        var i :| 0 <= i < |rest| && rest[i] == r;
        assert rs[i + 1] == r && r in rs;
      }
      forall i, j | 0 <= i < j < |rest| ensures rest[i].cidr != rest[j].cidr {
        assert rs[i + 1] == rest[i] && rs[j + 1] == rest[j];
      }
    }
  }

  /** The store holds exactly the decoded records. */
  ghost predicate HoldsDump(space: Space, dump: seq<PrefixJson>) {
    && (forall i :: 0 <= i < |dump| ==> dump[i].Cidr in space && space[dump[i].Cidr] == ToRecord(dump[i]))
    && forall c :: c in space ==> exists i :: 0 <= i < |dump| && dump[i].Cidr == c
  }

  predicate DumpDistinct(dump: seq<PrefixJson>) {
    forall i, j :: 0 <= i < j < |dump| ==> dump[i].Cidr != dump[j].Cidr
  }

  /** The store holds exactly the records in front of entry `n`, the first whose prefix occurs before. */
  ghost predicate StopsAt(space: Space, dump: seq<PrefixJson>, n: nat) {
    n < |dump| && DumpDistinct(dump[..n]) && HoldsDump(space, dump[..n]) && dump[n].Cidr in space
  }

  lemma {:induction false} LoadStops(space: Space, rs: seq<Record>) returns (n: nat)
    requires LoadFrom(space, rs).1.Err?
    ensures n < |rs| && LoadFrom(space, rs[..n]) == (LoadFrom(space, rs).0, Ok(()))
    ensures rs[n].cidr in LoadFrom(space, rs).0
    decreases |rs|
  {
    if rs[0].cidr in space {
      n := 0;
    } else {
      n := LoadStops(With(space, rs[0]), rs[1..]);
      n := n + 1;
      assert rs[..n][1..] == rs[1..][..n - 1];
    }
  }

  /** Loading distinct prefixes into an empty namespace. */
  lemma LoadsAll(dump: seq<PrefixJson>)
    ensures var (after, out) := LoadFrom(map[], Decoded(dump));
            (out.Ok? <==> DumpDistinct(dump)) && (out.Ok? ==> HoldsDump(after, dump))
  {
    var rs := Decoded(dump);
    LoadFromExact(map[], rs);
    assert forall i :: 0 <= i < |dump| ==> rs[i].cidr == dump[i].Cidr && rs[i] in rs;
  }

  /** Load refuses a namespace that has prefixes and leaves it alone. An empty one then holds exactly the
      decoded records, or those in front of the first prefix that occurs twice in the dump. */
  lemma LoadEffect(space: Space, dump: seq<PrefixJson>)
    ensures var (after, out) := DoLoad(space, dump);
            && (space != map[] ==> out == Err(ErrPrefixesExist) && after == space)
            && (space == map[] ==>
                  && (out.Ok? <==> DumpDistinct(dump)) && (out.Ok? ==> HoldsDump(after, dump))
                  && (out.Err? ==> out.error == ErrAlreadyCreated && exists n: nat :: StopsAt(after, dump, n)))
  {
    var rs := Decoded(dump);
    LoadFromExact(map[], rs);
    LoadsAll(dump);
    if space == map[] && DoLoad(space, dump).1.Err? {
      var n := LoadStops(map[], rs);
      assert rs[..n] == Decoded(dump[..n]);
      LoadsAll(dump[..n]);
      assert StopsAt(DoLoad(space, dump).0, dump, n);
    }
  }

  ghost predicate GoodAt(space: Space, c: Cidr)
    requires c in space
  {
    space[c].cidr == c && RecordOk(space[c])
  }

  /** Every record is stored under its own prefix and is good. */
  ghost predicate AllGood(space: Space) {
    forall c {:trigger GoodAt(space, c)} :: c in space ==> GoodAt(space, c)
  }

  lemma EditedGood(space: Space, after: Space, r: Record)
    requires AllGood(space) && Edited(space, after, r) && RecordOk(r)
    ensures AllGood(after)
  {
    forall c | c in after ensures GoodAt(after, c) { assert GoodAt(space, c); }
  }

  lemma AddedGood(space: Space, r: Record)
    requires AllGood(space) && RecordOk(r)
    ensures AllGood(With(space, r)) && Keyed(space)
  {
    var after := With(space, r);
    forall c | c in after ensures GoodAt(after, c) { if c != r.cidr { assert GoodAt(space, c); } }
    forall c | c in space ensures space[c].cidr == c { assert GoodAt(space, c); }
  }

  lemma RemovedGood(space: Space, c: Cidr)
    requires AllGood(space)
    ensures AllGood(Remove(space, c)) && Keyed(space)
  {
    var after := Remove(space, c);
    forall d | d in after ensures GoodAt(after, d) { assert GoodAt(space, d); }
    forall d | d in space ensures space[d].cidr == d { assert GoodAt(space, d); }
  }

  lemma AcquireIpGood(space: Space, c: Cidr, want: Option<Addr>)
    requires AllGood(space)
    ensures AllGood(DoAcquireIp(space, c, want).0)
  {
    RemovedGood(space, c);
    AcquireIpEffect(space, c, want);
    if DoAcquireIp(space, c, want).1.Ok? {
      assert GoodAt(space, Masked(c));
      AcquireIpExact(space[Masked(c)], want);
      AcquireIpOk(space[Masked(c)], want);
      EditedGood(space, DoAcquireIp(space, c, want).0, AcquireIp(space[Masked(c)], want).value.0);
    }
  }

  lemma ReleaseIpGood(space: Space, c: Cidr, ip: Addr)
    requires AllGood(space)
    ensures AllGood(DoReleaseIp(space, c, ip).0)
  {
    RemovedGood(space, c);
    ReleaseIpEffect(space, c, ip);
    if DoReleaseIp(space, c, ip).1.Ok? {
      assert GoodAt(space, Masked(c));
      ReleaseIpOk(space[Masked(c)], ip);
      EditedGood(space, DoReleaseIp(space, c, ip).0, ReleaseIp(space[Masked(c)], ip).value);
    }
  }

  lemma MarkGood(space: Space, p: Cidr, want: ChildRequest)
    requires AllGood(space)
    ensures AllGood(DoMark(space, p, want).0)
  {
    RemovedGood(space, p);
    MarkEffect(space, p, want);
    if DoMark(space, p, want).1.Ok? {
      assert GoodAt(space, Masked(p));
      AcquireChildOk(space[Masked(p)], want);
      EditedGood(space, DoMark(space, p, want).0, AcquireChild(space[Masked(p)], want).value.0);
    }
  }

  lemma AcquireChildGood(space: Space, p: Cidr, want: ChildRequest)
    requires AllGood(space)
    ensures AllGood(DoAcquireChild(space, p, want).0)
  {
    RemovedGood(space, p);
    AcquireChildEffect(space, p, want);
    MarkGood(space, p, want);
    var (marked, child) := DoMark(space, p, want);
    if child.Ok? {
      NewRecordOk(child.value, Some(p));
      AddedGood(marked, NewRecord(child.value, Some(p)));
    }
  }

  lemma UnmarkGood(space: Space, copy: Record)
    requires AllGood(space)
    ensures AllGood(DoUnmark(space, copy).0)
  {
    RemovedGood(space, copy.cidr);
    UnmarkEffect(space, copy);
    if DoUnmark(space, copy).1.Ok? {
      var p := Masked(copy.parentCidr.value);
      assert GoodAt(space, p);
      ReleaseChildOk(space[p], copy.cidr, |copy.ips|);
      EditedGood(space, DoUnmark(space, copy).0, ReleaseChild(space[p], copy.cidr, |copy.ips|).value);
    }
  }

  /** Every operation keeps every record good, whatever it is called with. */
  lemma ApplyKeepsGood(space: Space, q: Request)
    requires AllGood(space)
    ensures AllGood(Apply(space, q))
  {
    match q
    case ReqAcquireIp(c, want) => AcquireIpGood(space, c, want);
    case ReqReleaseIp(c, ip) => ReleaseIpGood(space, c, ip);
    case ReqAcquireChild(p, want) => AcquireChildGood(space, p, want);
    case ReqReleaseChild(copy) =>
      UnmarkGood(space, copy);
      DeleteGood(DoUnmark(space, copy).0, copy.cidr);
    case ReqNewPrefix(c) =>
      NewRecordOk(c, None);
      AddedGood(space, NewRecord(c, None));
      NewPrefixEffect(space, c);
    case ReqDelete(c) => DeleteGood(space, c);
  }

  lemma DeleteGood(space: Space, c: Cidr)
    requires AllGood(space)
    ensures AllGood(DoDelete(space, c).0)
  {
    RemovedGood(space, Masked(c));
    DeleteEffect(space, c);
  }

  lemma {:induction false} RunsKeepGood(qs: seq<Request>)
    ensures AllGood(ApplyAll(map[], qs))
  {
    if qs != [] {
      RunsKeepGood(qs[..|qs| - 1]);
      ApplyKeepsGood(ApplyAll(map[], qs[..|qs| - 1]), qs[|qs| - 1]);
    }
  }

  /** A good store is given back exactly by Dump and Load, in whatever order its records were dumped. */
  lemma GoodComesBack(space: Space, rs: seq<Record>)
    requires AllGood(space) && Lists(rs, space)
    ensures DoLoad(map[], Encoded(rs)) == (space, Ok(()))
  {
    RemovedGood(space, Net(V4, 0, 0));
    forall c | c in space ensures Normal(space[c]) { assert GoodAt(space, c); }
    DumpThenLoad(space, rs);
  }

  /** So is what any run of operations leaves, guarded or not. */
  lemma {:induction false} RunsComeBack(qs: seq<Request>, rs: seq<Record>)
    requires Lists(rs, ApplyAll(map[], qs))
    ensures DoLoad(map[], Encoded(rs)) == (ApplyAll(map[], qs), Ok(()))
  {
    RunsKeepGood(qs);
    GoodComesBack(ApplyAll(map[], qs), rs);
  }
}
