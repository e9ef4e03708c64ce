/** What runs of operations keep: the stored prefixes form a forest. */
module Forests {
  import opened Wrappers
  import opened Cidrs
  import opened FreeSpace
  import opened Counting
  import opened Records
  import opened Store
  import opened Ops

  ghost predicate StoredOk(space: Space, c: Cidr)
    requires c in space
  {
    space[c].cidr == c && RecordOk(space[c]) && Reserved(c) <= space[c].ips
  }

  ghost predicate IsRoot(space: Space, c: Cidr) {
    c in space && space[c].parentCidr.None?
  }

  /** `c` is marked taken in the stored record `p`. */
  ghost predicate MarkedIn(space: Space, c: Cidr, p: Cidr) {
    p in space && c in Taken(space[p].children)
  }

  ghost predicate AllStoredOk(space: Space) {
    forall c {:trigger StoredOk(space, c)} :: c in space ==> StoredOk(space, c)
  }

  ghost predicate ParentMarks(space: Space, c: Cidr)
    requires c in space
  {
    space[c].parentCidr.Some? ==> MarkedIn(space, c, space[c].parentCidr.value)
  }

  /** Marks and records agree, and roots are apart. `loose` may be stored as a child that its parent
      no longer marks: the state in the middle of a release. */
  ghost predicate Linked(space: Space, loose: Option<Cidr>) {
    && (forall c {:trigger ParentMarks(space, c)} :: c in space && Some(c) != loose ==> ParentMarks(space, c))
    && (forall p, c :: MarkedIn(space, c, p) ==> c in space && space[c].parentCidr == Some(p))
    && (forall c, d :: IsRoot(space, c) && IsRoot(space, d) && c != d ==> !Overlaps(c, d))
  }

  /** Every stored child is marked taken in its stored parent and vice versa, roots are apart. */
  ghost predicate Forest(space: Space) {
    AllStoredOk(space) && Linked(space, None)
  }

  ghost predicate Ancestor(space: Space, a: Cidr, d: Cidr)
    decreases d.bits
  {
    && d in space && space[d].parentCidr.Some?
    && var p := space[d].parentCidr.value;
    && p.bits < d.bits
    && (p == a || Ancestor(space, a, p))
  }

  lemma ParentHolds(space: Space, c: Cidr)
    requires Forest(space) && c in space && space[c].parentCidr.Some?
    ensures var p := space[c].parentCidr.value;
            p in space && c in Taken(space[p].children) && Within(c, p) && p.bits < c.bits
  {
    assert ParentMarks(space, c);
    assert StoredOk(space, space[c].parentCidr.value);
  }

  lemma {:induction false} AncestorHolds(space: Space, a: Cidr, d: Cidr) returns (c: Cidr)
    requires Forest(space) && Ancestor(space, a, d)
    ensures a in space && Within(d, a) && a.bits < d.bits
    ensures c in Taken(space[a].children) && Within(d, c) && (c == d || Ancestor(space, c, d))
    decreases d.bits
  {
    ParentHolds(space, d);
    var p := space[d].parentCidr.value;
    if p == a {
      c := d;
    } else {
      c := AncestorHolds(space, a, p);
    }
  }

  /** Two stored prefixes overlap only if one is an ancestor of the other. */
  lemma {:induction false} OverlapMeansAncestor(space: Space, x: Cidr, y: Cidr)
    requires Forest(space) && x in space && y in space && Overlaps(x, y) && x != y
    ensures Ancestor(space, x, y) || Ancestor(space, y, x)
    decreases x.bits + y.bits, if x.bits > y.bits then 1 else 0
  {
    Geometry(x, y);
    if x.bits > y.bits {
      OverlapMeansAncestor(space, y, x);
    } else if IsRoot(space, y) {
      if !IsRoot(space, x) {
        ParentHolds(space, x);
        var p := space[x].parentCidr.value;
        Geometry(p, y);
        OverlapMeansAncestor(space, p, y);
        if Ancestor(space, y, p) { var _ := AncestorHolds(space, y, p); }
      }
    } else {
      ParentHolds(space, y);
      var q := space[y].parentCidr.value;
      Geometry(x, q);
      if x != q {
        OverlapMeansAncestor(space, x, q);
        if Ancestor(space, q, x) {
          var c := AncestorHolds(space, q, x);
          if Ancestor(space, c, x) { var _ := AncestorHolds(space, c, x); }
          SiblingsMeet(space, q, c, y);
        }
      }
    }
  }

  /** Siblings that share an address are one and the same. */
  lemma SiblingsMeet(space: Space, q: Cidr, c: Cidr, y: Cidr)
    requires Forest(space) && MarkedIn(space, c, q) && MarkedIn(space, y, q) && Within(y, c)
    ensures c == y
  {
    Geometry(c, y);
    assert StoredOk(space, q);
  }

  /** No address other than a reserved one is held by two stored prefixes. */
  lemma HostsApart(space: Space, x: Cidr, y: Cidr, a: Addr)
    requires Forest(space) && x in space && y in space
    requires a in Hosts(space[x]) && a in Hosts(space[y])
    ensures x == y
  {
    if x != y {
      assert StoredOk(space, x) && StoredOk(space, y);
      OverlapsIffShared(x, y);
      OverlapMeansAncestor(space, x, y);
      var up := if Ancestor(space, x, y) then x else y;
      var _ := AncestorHolds(space, up, if up == x then y else x);
      HasIPsExact(space[up]);
      assert false;
    }
  }

  /** Delete and child acquire are refused exactly when an address beside the reserved ones is taken. */
  lemma RefusedExactlyWithHosts(space: Space, c: Cidr, want: ChildRequest)
    requires Forest(space) && Masked(c) in space
    ensures c.bits < RequestedLength(want) ==>
              (DoAcquireChild(space, c, want).1 == Err(ErrHasIPs) <==> Hosts(space[Masked(c)]) != {})
    ensures DoDelete(space, c).1 == Err(ErrHasIPs) <==> Hosts(space[Masked(c)]) != {}
  {
    assert StoredOk(space, Masked(c));
    HasIPsExact(space[Masked(c)]);
  }

  /** Rewriting a record without touching its links keeps the forest exactly if the record stays good. */
  lemma EditKeeps(space: Space, r: Record)
    requires Forest(space) && r.cidr in space && RecordOk(r)
    requires r.parentCidr == space[r.cidr].parentCidr && Taken(r.children) == Taken(space[r.cidr].children)
    ensures Forest(With(space, r)) <==> Reserved(r.cidr) <= r.ips
  {
    WithStoredOk(space, r);
    SameLinks(space, With(space, r));
  }

  lemma WithStoredOk(space: Space, r: Record)
    requires AllStoredOk(space) && RecordOk(r)
    ensures AllStoredOk(With(space, r)) <==> Reserved(r.cidr) <= r.ips
  {
    var after := With(space, r);
    assert StoredOk(after, r.cidr) <==> Reserved(r.cidr) <= r.ips;
    forall c | c in after && c != r.cidr ensures StoredOk(after, c) {
      assert StoredOk(space, c);
    }
  }

  lemma SameLinks(space: Space, after: Space)
    requires Linked(space, None) && after.Keys == space.Keys
    requires forall c :: c in space ==>
               after[c].parentCidr == space[c].parentCidr && Taken(after[c].children) == Taken(space[c].children)
    ensures Linked(after, None)
  {
    assert forall c, p :: MarkedIn(after, c, p) == MarkedIn(space, c, p);
    assert forall c :: IsRoot(after, c) == IsRoot(space, c);
    forall c | c in after ensures ParentMarks(after, c) { assert ParentMarks(space, c); }
  }

  lemma UpdateNow(space: Space, r: Record)
    requires r.cidr in space && r.version == space[r.cidr].version
    ensures Update(space, r) == Ok(With(space, Bump(r)))
  {
  }

  /** The child a parent selects is never stored already. */
  lemma SelectedIsNew(space: Space, p: Cidr, want: ChildRequest)
    requires Forest(space) && p in space && SelectChild(space[p], want).Ok?
    ensures SelectChild(space[p], want).value !in space
  {
    var c := SelectChild(space[p], want).value;
    SelectedChildIsFree(space[p], want);
    assert StoredOk(space, p);
    if c in space {
      Geometry(p, c);
      OverlapMeansAncestor(space, p, c);
      if Ancestor(space, c, p) {
        var _ := AncestorHolds(space, c, p);
      } else {
        var d := AncestorHolds(space, p, c);
        Geometry(d, c);
      }
      assert false;
    }
  }

  lemma AddChildKeeps(space: Space, r: Record, c: Cidr)
    requires Forest(space) && r.cidr in space && RecordOk(r) && Reserved(r.cidr) <= r.ips
    requires r.parentCidr == space[r.cidr].parentCidr
    requires Taken(r.children) == Taken(space[r.cidr].children) + {c} && c !in space
    requires Canonical(c) && Canonical(r.cidr)
    ensures Forest(With(With(space, r), NewRecord(c, Some(r.cidr))))
  {
    var child := NewRecord(c, Some(r.cidr));
    var after := With(With(space, r), child);
    NewRecordOk(c, Some(r.cidr));
    assert child.cidr == c && child.parentCidr == Some(r.cidr) && Taken(child.children) == {};
    WithStoredOk(space, r);
    WithStoredOk(With(space, r), child);
    assert after[c] == child && after[r.cidr] == r;
    assert forall d :: d in space && d != r.cidr ==> after[d] == space[d];
    ChildLinks(space, after, r.cidr, c);
  }

  lemma ChildLinks(space: Space, after: Space, p: Cidr, c: Cidr)
    requires Linked(space, None) && p in space && c !in space && after.Keys == space.Keys + {c}
    requires forall d :: d in space ==> after[d].parentCidr == space[d].parentCidr
    requires forall d :: d in space && d != p ==> Taken(after[d].children) == Taken(space[d].children)
    requires Taken(after[p].children) == Taken(space[p].children) + {c}
    requires after[c].parentCidr == Some(p) && Taken(after[c].children) == {}
    ensures Linked(after, None)
  {
    assert forall d, q :: MarkedIn(after, d, q) <==> MarkedIn(space, d, q) || (q == p && d == c);
    assert forall d :: IsRoot(after, d) == IsRoot(space, d);
    forall d | d in after ensures ParentMarks(after, d) {
      if d in space { assert ParentMarks(space, d); }
    }
  }

  lemma AddRootKeeps(space: Space, cidr: Cidr)
    requires Forest(space) && !Clashes(space, Masked(cidr))
    ensures Masked(cidr) !in space
    ensures Forest(With(space, NewRecord(cidr, None)))
  {
    var r := NewRecord(cidr, None);
    var after := With(space, r);
    NewRecordOk(cidr, None);
    Geometry(r.cidr, r.cidr);
    WithStoredOk(space, r);
    forall d | d in space ensures !Overlaps(d, r.cidr) && !Overlaps(r.cidr, d) { Geometry(d, r.cidr); }
    assert forall d, p :: MarkedIn(after, d, p) <==> MarkedIn(space, d, p);
    assert forall d :: IsRoot(after, d) <==> IsRoot(space, d) || d == r.cidr;
    forall d | d in after ensures ParentMarks(after, d) {
      if d in space { assert ParentMarks(space, d); }
    }
  }

  /** `c` could go without leaving a dangling link: a root, or unmarked by its parent, and no live children. */
  ghost predicate Loose(space: Space, c: Cidr)
    requires c in space
  {
    && Taken(space[c].children) == {}
    && forall p :: !MarkedIn(space, c, p)
  }

  lemma RemoveKeeps(space: Space, c: Cidr)
    requires AllStoredOk(space) && Linked(space, Some(c)) && c in space
    ensures Forest(Remove(space, c)) <==> Loose(space, c)
  {
    var after := Remove(space, c);
    forall d | d in after ensures StoredOk(after, d) { assert StoredOk(space, d); }
    assert forall p, d :: MarkedIn(after, d, p) <==> MarkedIn(space, d, p) && p != c;
    assert forall d :: IsRoot(after, d) ==> IsRoot(space, d);
    if Loose(space, c) {
      RemoveLoose(space, c);
    } else if Taken(space[c].children) != {} {
      var d :| d in Taken(space[c].children);
      assert MarkedIn(space, d, c) && StoredOk(space, c);
      assert d in after && after[d].parentCidr == Some(c) && !ParentMarks(after, d);
    } else {
      var p :| MarkedIn(space, c, p);
      assert StoredOk(space, p);
      assert MarkedIn(after, c, p) && c !in after;
    }
  }

  lemma RemoveLoose(space: Space, c: Cidr)
    requires Linked(space, Some(c)) && c in space && Loose(space, c)
    ensures Linked(Remove(space, c), None)
  {
    var after := Remove(space, c);
    assert forall p, d :: MarkedIn(after, d, p) <==> MarkedIn(space, d, p) && p != c;
    assert forall d :: IsRoot(after, d) ==> IsRoot(space, d);
    forall d | d in after
      ensures ParentMarks(after, d)
    {
      assert ParentMarks(space, d);
    }
  }

  /** A caller's copy of a child can be released without leaving a dangling link. `m` is the stored
      record its name denotes, `p` the parent the copy names. */
  ghost predicate ReleaseIsClean(space: Space, copy: Record, p: Cidr) {
    var m := Masked(copy.cidr);
    m in space ==>
      if HasIPs(space[m]) then !MarkedIn(space, copy.cidr, p)
      else Taken(space[m].children) == {} && (IsRoot(space, m) || (space[m].parentCidr == Some(p) && copy.cidr == m))
  }

  /** The parent can grant exactly this child: longer than itself, no addresses held, wholly free. */
  ghost predicate Grantable(r: Record, c: Cidr) {
    r.cidr.bits < c.bits && !HasIPs(r) && Within(c, r.cidr) && FreeOf(c, Taken(r.children))
  }

  lemma GrantableIff(r: Record, c: Cidr)
    ensures SelectChild(r, Specific(c)).Ok? <==> Grantable(r, c)
  {
    ContainsPrefixExact(r.cidr, Taken(r.children), c);
  }

  /** Unmarking is refused exactly for a child of no stored parent, or with more than two addresses. */
  lemma UnmarkedIff(space: Space, copy: Record)
    requires Forest(space)
    ensures DoUnmark(space, copy).1.Ok? <==>
            && copy.parentCidr.Some? && Masked(copy.parentCidr.value) in space
            && space[Masked(copy.parentCidr.value)].isParent && |copy.ips| <= 2
  {
    if copy.parentCidr.Some? && Masked(copy.parentCidr.value) in space {
      assert StoredOk(space, Masked(copy.parentCidr.value));
    }
  }

  /** The guard under which an operation keeps the forest, decided on the state before the call. */
  ghost predicate Keeps(space: Space, q: Request) {
    match q
    case ReqAcquireIp(_, _) => true
    case ReqNewPrefix(_) => true
    case ReqReleaseIp(c, ip) => Masked(c) in space ==> ip !in Reserved(Masked(c))
    case ReqAcquireChild(p, want) =>
      want.OfLength? || Canonical(want.child) || Masked(p) !in space || !Grantable(space[Masked(p)], want.child)
    case ReqDelete(c) =>
      Masked(c) in space ==>
        HasIPs(space[Masked(c)]) || (IsRoot(space, Masked(c)) && Taken(space[Masked(c)].children) == {})
    case ReqReleaseChild(copy) =>
      || copy.parentCidr.None? || Masked(copy.parentCidr.value) !in space
      || !space[Masked(copy.parentCidr.value)].isParent || |copy.ips| > 2
      || ReleaseIsClean(space, copy, Masked(copy.parentCidr.value))
  }

  lemma AcquireIpKeeps(space: Space, cidr: Cidr, want: Option<Addr>)
    requires Forest(space)
    ensures Forest(DoAcquireIp(space, cidr, want).0)
  {
    var c := Masked(cidr);
    if c in space && AcquireIp(space[c], want).Ok? {
      var (r, _) := AcquireIp(space[c], want).value;
      assert StoredOk(space, c);
      AcquireIpOk(space[c], want);
      UpdateNow(space, r);
      EditKeeps(space, Bump(r));
    }
  }

  lemma ReleaseIpKeeps(space: Space, cidr: Cidr, ip: Addr)
    requires Forest(space)
    ensures Forest(DoReleaseIp(space, cidr, ip).0) <==> Keeps(space, ReqReleaseIp(cidr, ip))
  {
    var c := Masked(cidr);
    if c in space {
      assert StoredOk(space, c);
      if ip in space[c].ips {
        var r := ReleaseIp(space[c], ip).value;
        ReleaseIpOk(space[c], ip);
        UpdateNow(space, r);
        EditKeeps(space, Bump(r));
        assert Reserved(c) <= r.ips <==> ip !in Reserved(c);
      }
    }
  }

  lemma NewPrefixKeeps(space: Space, cidr: Cidr)
    requires Forest(space)
    ensures Forest(DoNewPrefix(space, cidr).0)
    ensures DoNewPrefix(space, cidr).1.Ok? <==> !Clashes(space, Masked(cidr))
  {
    if !Clashes(space, Masked(cidr)) {
      AddRootKeeps(space, cidr);
    }
  }

  lemma DeleteKeeps(space: Space, cidr: Cidr)
    requires Forest(space)
    ensures Forest(DoDelete(space, cidr).0) <==> Keeps(space, ReqDelete(cidr))
  {
    var c := Masked(cidr);
    if c in space && !HasIPs(space[c]) {
      assert StoredOk(space, c);
      RemoveKeeps(space, c);
      if !IsRoot(space, c) { ParentHolds(space, c); }
    }
  }

  /** On a forest the child's record can always be created once the parent is marked. */
  lemma AcquireChildStores(space: Space, parent: Cidr, want: ChildRequest)
    requires Forest(space) && DoMark(space, parent, want).1.Ok?
    requires Canonical(DoMark(space, parent, want).1.value)
    ensures var p, c := Masked(parent), DoMark(space, parent, want).1.value;
            && p in space && SelectChild(space[p], want) == Ok(c) && c !in space
            && DoAcquireChild(space, parent, want).1 == Ok(NewRecord(c, Some(p)))
            && DoAcquireChild(space, parent, want).0
               == With(With(space, Bump(AcquireChild(space[p], want).value.0)), NewRecord(c, Some(p)))
            && Forest(DoAcquireChild(space, parent, want).0)
  {
    var p, c := Masked(parent), DoMark(space, parent, want).1.value;
    var r := AcquireChild(space[p], want).value.0;
    assert StoredOk(space, p);
    SelectedIsNew(space, p, want);
    AcquireChildOk(space[p], want);
    UpdateNow(space, r);
    MaskedIsCanonical(parent);
    assert NewRecord(c, Some(parent)) == NewRecord(c, Some(p));
    AddChildKeeps(space, Bump(r), c);
  }

  lemma AcquireChildKeeps(space: Space, parent: Cidr, want: ChildRequest)
    requires Forest(space)
    ensures Forest(DoAcquireChild(space, parent, want).0) <==> Keeps(space, ReqAcquireChild(parent, want))
  {
    var p := Masked(parent);
    if p in space && want.Specific? { GrantableIff(space[p], want.child); }
    if p in space && SelectChild(space[p], want).Ok? {
      var c := SelectChild(space[p], want).value;
      var r := AcquireChild(space[p], want).value.0;
      assert StoredOk(space, p);
      UpdateNow(space, r);
      SelectedChildIsFree(space[p], want);
      if Canonical(c) {
        AcquireChildStores(space, parent, want);
      } else {
        SelectChildExact(space[p], want);
        var after := DoAcquireChild(space, parent, want).0;
        MaskedIsCanonical(c);
        assert MarkedIn(after, c, p);
        assert c in space ==> StoredOk(space, c);
        assert c !in after;
      }
    }
  }

  /** `after` is `space` without the mark of `c` in `p`. */
  ghost predicate MarkDropped(space: Space, after: Space, c: Cidr, p: Cidr) {
    && after.Keys == space.Keys
    && (forall d :: d in space ==> after[d].ips == space[d].ips && after[d].cidr == space[d].cidr
                                   && after[d].parentCidr == space[d].parentCidr)
    && (forall d, q :: MarkedIn(after, d, q) <==> MarkedIn(space, d, q) && !(q == p && d == c))
  }

  lemma DroppedLinks(space: Space, after: Space, c: Cidr, p: Cidr)
    requires Linked(space, None) && MarkDropped(space, after, c, p)
    ensures Linked(after, Some(c))
    ensures !MarkedIn(space, c, p) ==> Linked(after, None)
  {
    assert forall d :: IsRoot(after, d) == IsRoot(space, d);
    forall d | d in after && (d != c || !MarkedIn(space, c, p)) ensures ParentMarks(after, d) {
      assert ParentMarks(space, d);
    }
  }

  /** Unmarking a child leaves everything in place except that mark. */
  lemma UnmarkLeaves(space: Space, copy: Record)
    requires Forest(space) && DoUnmark(space, copy).1.Ok?
    ensures var p, after := Masked(copy.parentCidr.value), DoUnmark(space, copy).0;
            && p in space && AllStoredOk(after) && MarkDropped(space, after, copy.cidr, p)
            && Linked(after, Some(copy.cidr)) && (!MarkedIn(space, copy.cidr, p) ==> Forest(after))
  {
    var p, after := Masked(copy.parentCidr.value), DoUnmark(space, copy).0;
    var r := ReleaseChild(space[p], copy.cidr, |copy.ips|).value;
    assert StoredOk(space, p);
    ReleaseChildOk(space[p], copy.cidr, |copy.ips|);
    UpdateNow(space, r);
    WithStoredOk(space, Bump(r));
    DropOneMark(space, Bump(r), copy.cidr);
    DroppedLinks(space, after, copy.cidr, p);
  }

  lemma DropOneMark(space: Space, r: Record, c: Cidr)
    requires r.cidr in space && r.ips == space[r.cidr].ips && r.parentCidr == space[r.cidr].parentCidr
    requires space[r.cidr].cidr == r.cidr && Taken(r.children) == Taken(space[r.cidr].children) - {c}
    ensures MarkDropped(space, With(space, r), c, r.cidr)
  {
  }

  lemma ReleaseChildKeeps(space: Space, copy: Record)
    requires Forest(space)
    ensures Forest(DoReleaseChild(space, copy).0) <==> Keeps(space, ReqReleaseChild(copy))
  {
    UnmarkedIff(space, copy);
    if DoUnmark(space, copy).1.Ok? { UnmarkedIsClean(space, copy); }
  }

  /** Once the mark is gone, all depends on what becomes of the stored child. */
  lemma UnmarkedIsClean(space: Space, copy: Record)
    requires Forest(space) && DoUnmark(space, copy).1.Ok?
    ensures Forest(DoReleaseChild(space, copy).0) <==> ReleaseIsClean(space, copy, Masked(copy.parentCidr.value))
  {
    var unmarked := DoUnmark(space, copy).0;
    var p, m := Masked(copy.parentCidr.value), Masked(copy.cidr);
    UnmarkLeaves(space, copy);
    if m !in space {
      if MarkedIn(space, copy.cidr, p) { MarkedIsStored(space, copy.cidr, p); }
      assert DoReleaseChild(space, copy).0 == unmarked;
    } else {
      DeleteAfterUnmark(unmarked, m, copy.cidr);
      assert StoredOk(space, m);
      if HasIPs(space[m]) {
        UnremovedIsClean(space, unmarked, copy, p);
      } else {
        RemovalIsClean(space, unmarked, copy, p);
      }
    }
  }

  lemma DeleteAfterUnmark(unmarked: Space, m: Cidr, c: Cidr)
    requires AllStoredOk(unmarked) && m in unmarked && m == Masked(c)
    ensures DoDelete(unmarked, c).0 == if HasIPs(unmarked[m]) then unmarked else Remove(unmarked, m)
  {
    assert StoredOk(unmarked, m);
  }

  lemma UnremovedIsClean(space: Space, unmarked: Space, copy: Record, p: Cidr)
    requires Forest(space) && MarkDropped(space, unmarked, copy.cidr, p)
    requires !MarkedIn(space, copy.cidr, p) ==> Forest(unmarked)
    requires Masked(copy.cidr) in space && HasIPs(space[Masked(copy.cidr)])
    ensures Forest(unmarked) <==> ReleaseIsClean(space, copy, p)
  {
    if MarkedIn(space, copy.cidr, p) {
      MarkedIsStored(space, copy.cidr, p);
      assert !ParentMarks(unmarked, copy.cidr);
    }
  }

  lemma MarkedIsStored(space: Space, c: Cidr, p: Cidr)
    requires Forest(space) && MarkedIn(space, c, p)
    ensures c in space && Masked(c) == c && space[c].parentCidr == Some(p)
  {
    assert StoredOk(space, c);
  }

  lemma RemovalIsClean(space: Space, unmarked: Space, copy: Record, p: Cidr)
    requires Forest(space) && AllStoredOk(unmarked) && Linked(unmarked, Some(copy.cidr))
    requires MarkDropped(space, unmarked, copy.cidr, p) && (!MarkedIn(space, copy.cidr, p) ==> Forest(unmarked))
    requires Masked(copy.cidr) in space && !HasIPs(space[Masked(copy.cidr)])
    ensures Forest(Remove(unmarked, Masked(copy.cidr))) <==> ReleaseIsClean(space, copy, p)
  {
    var m := Masked(copy.cidr);
    if MarkedIn(space, copy.cidr, p) { MarkedIsStored(space, copy.cidr, p); }
    RemoveKeeps(unmarked, m);
    NoSelfMark(space, copy.cidr, m);
    assert forall d :: d in Taken(unmarked[m].children) <==> MarkedIn(unmarked, d, m);
    assert forall d :: d in Taken(space[m].children) <==> MarkedIn(space, d, m);
    assert Taken(unmarked[m].children) == Taken(space[m].children);
    if !IsRoot(space, m) {
      ParentHolds(space, m);
      assert MarkedIn(space, m, space[m].parentCidr.value);
    }
  }

  /** A record never marks a prefix of its own range as its child. */
  lemma NoSelfMark(space: Space, c: Cidr, m: Cidr)
    requires Forest(space) && m in space && Masked(c) == m
    ensures !MarkedIn(space, c, m)
  {
    assert StoredOk(space, m);
  }

  /** An operation keeps the forest exactly under its guard. */
  lemma KeepsForestIff(space: Space, q: Request)
    requires Forest(space)
    ensures Forest(Apply(space, q)) <==> Keeps(space, q)
  {
    match q
    case ReqAcquireIp(c, want) => AcquireIpKeeps(space, c, want);
    case ReqReleaseIp(c, ip) => ReleaseIpKeeps(space, c, ip);
    case ReqAcquireChild(c, want) => AcquireChildKeeps(space, c, want);
    case ReqReleaseChild(copy) => ReleaseChildKeeps(space, copy);
    case ReqNewPrefix(c) => NewPrefixKeeps(space, c);
    case ReqDelete(c) => DeleteKeeps(space, c);
  }

  /** Each operation of the run met its guard. */
  ghost predicate Kept(space: Space, qs: seq<Request>) {
    qs == [] || (Kept(space, qs[..|qs| - 1]) && Keeps(ApplyAll(space, qs[..|qs| - 1]), qs[|qs| - 1]))
  }

  ghost predicate AlwaysForest(space: Space, qs: seq<Request>) {
    Forest(ApplyAll(space, qs)) && (qs != [] ==> AlwaysForest(space, qs[..|qs| - 1]))
  }

  /** Over whole runs: the store is a forest after every operation exactly if every guard was met. */
  lemma {:induction false} RunsKeepForestIff(space: Space, qs: seq<Request>)
    requires Forest(space)
    ensures AlwaysForest(space, qs) <==> Kept(space, qs)
    decreases |qs|
  {
    if qs != [] {
      var before := qs[..|qs| - 1];
      RunsKeepForestIff(space, before);
      if AlwaysForest(space, before) {
        KeepsForestIff(ApplyAll(space, before), qs[|qs| - 1]);
      }
    }
  }

  lemma EmptyIsForest()
    ensures Forest(map[])
  {
  }

  /** Every run from the empty store whose guards are met ends with prefixes that are apart or nested
      along ancestor links, and with no host address held twice. */
  lemma {:induction false} RunsAreSafe(qs: seq<Request>, x: Cidr, y: Cidr)
    requires Kept(map[], qs)
    requires x in ApplyAll(map[], qs) && y in ApplyAll(map[], qs) && x != y
    ensures var space := ApplyAll(map[], qs);
            && (Overlaps(x, y) <==> Ancestor(space, x, y) || Ancestor(space, y, x))
            && Hosts(space[x]) !! Hosts(space[y])
  {
    var space := ApplyAll(map[], qs);
    EmptyIsForest();
    RunsKeepForestIff(map[], qs);
    if Overlaps(x, y) { OverlapMeansAncestor(space, x, y); }
    if Ancestor(space, x, y) { var _ := AncestorHolds(space, x, y); Geometry(x, y); Geometry(y, x); }
    if Ancestor(space, y, x) { var _ := AncestorHolds(space, y, x); Geometry(x, y); Geometry(y, x); }
    forall a | a in Hosts(space[x]) ensures a !in Hosts(space[y]) {
      if a in Hosts(space[y]) { HostsApart(space, x, y, a); }
    }
  }

  /** Acquire a child and release it unused: the stored prefixes and the parent's free space are as
      before, every other record is untouched, and the same request yields the same child again. */
  lemma {:induction false} ChildRoundTrip(space: Space, parent: Cidr, want: ChildRequest)
    requires Forest(space) && DoMark(space, parent, want).1.Ok?
    requires want.OfLength? || Canonical(want.child)
    ensures var p := Masked(parent);
            var (held, child) := DoAcquireChild(space, parent, want);
            && child.Ok?
            && var (after, released) := DoReleaseChild(held, child.value);
            && released.Ok? && Forest(after) && after.Keys == space.Keys
            && (forall c :: c in space && c != p ==> after[c] == space[c])
            && after[p].ips == space[p].ips && Taken(after[p].children) == Taken(space[p].children)
            && DoAcquireChild(after, parent, want).1 == child
  {
    AcquiredState(space, parent, want);
    var (held, child) := DoAcquireChild(space, parent, want);
    UnmarkFresh(space, held, child.value, Masked(parent));
    AcquireChildStores(space, parent, want);
    SameChildAgain(space, DoReleaseChild(held, child.value).0, parent, want);
  }

  /** `held` is `space` with the fresh record `child` added below `p`. */
  ghost predicate JustAcquired(space: Space, held: Space, child: Record, p: Cidr) {
    && p in space && child.cidr !in space && held.Keys == space.Keys + {child.cidr}
    && child == NewRecord(child.cidr, Some(p)) && held[child.cidr] == child && held[p].isParent
    && held[p].ips == space[p].ips && (forall c :: c in space && c != p ==> held[c] == space[c])
    && Taken(held[p].children) == Taken(space[p].children) + {child.cidr}
    && child.cidr !in Taken(space[p].children)
  }

  lemma AcquiredState(space: Space, parent: Cidr, want: ChildRequest)
    requires Forest(space) && DoMark(space, parent, want).1.Ok?
    requires want.OfLength? || Canonical(want.child)
    ensures var (held, child) := DoAcquireChild(space, parent, want);
            child.Ok? && Forest(held) && JustAcquired(space, held, child.value, Masked(parent))
    ensures Canonical(DoMark(space, parent, want).1.value)
  {
    var p := Masked(parent);
    SelectedChildIsFree(space[p], want);
    SelectChildExact(space[p], want);
    AcquireChildStores(space, parent, want);
    assert StoredOk(space, p);
    AcquireChildOk(space[p], want);
    var r, c := AcquireChild(space[p], want).value.0, SelectChild(space[p], want).value;
    NewRecordOk(c, Some(p));
    MaskedIsCanonical(parent);
    AddedBelow(space, Bump(r), c);
  }

  lemma AddedBelow(space: Space, r: Record, c: Cidr)
    requires r.cidr in space && c !in space && Canonical(c) && Canonical(r.cidr) && r.isParent
    requires r.ips == space[r.cidr].ips && c !in Taken(space[r.cidr].children)
    requires Taken(r.children) == Taken(space[r.cidr].children) + {c}
    ensures JustAcquired(space, With(With(space, r), NewRecord(c, Some(r.cidr))), NewRecord(c, Some(r.cidr)), r.cidr)
  {
    assert NewRecord(c, Some(r.cidr)).cidr == c;
  }

  /** The choice of a child depends only on the parent's addresses and taken children. */
  lemma SameChildAgain(space: Space, after: Space, parent: Cidr, want: ChildRequest)
    requires Forest(space) && Forest(after) && Masked(parent) in space && Masked(parent) in after
    requires after[Masked(parent)].cidr == space[Masked(parent)].cidr
    requires after[Masked(parent)].ips == space[Masked(parent)].ips
    requires Taken(after[Masked(parent)].children) == Taken(space[Masked(parent)].children)
    requires SelectChild(space[Masked(parent)], want).Ok? && Canonical(SelectChild(space[Masked(parent)], want).value)
    ensures DoAcquireChild(after, parent, want).1 == DoAcquireChild(space, parent, want).1
  {
    var p := Masked(parent);
    assert SelectChild(after[p], want) == SelectChild(space[p], want);
    assert StoredOk(space, p) && StoredOk(after, p);
    UpdateNow(space, AcquireChild(space[p], want).value.0);
    UpdateNow(after, AcquireChild(after[p], want).value.0);
    AcquireChildStores(space, parent, want);
    AcquireChildStores(after, parent, want);
  }

  /** Releasing the child just acquired. */
  lemma UnmarkFresh(space: Space, held: Space, child: Record, p: Cidr)
    requires Forest(space) && Forest(held) && JustAcquired(space, held, child, p) && Canonical(p)
    ensures var (after, released) := DoReleaseChild(held, child);
            && released.Ok? && Forest(after) && after.Keys == space.Keys
            && (forall c :: c in space && c != p ==> after[c] == space[c])
            && after[p].ips == space[p].ips && after[p].cidr == space[p].cidr
            && Taken(after[p].children) == Taken(space[p].children)
  {
    assert StoredOk(held, p) && StoredOk(held, child.cidr) && StoredOk(space, p);
    NewRecordOk(child.cidr, Some(p));
    HasIPsExact(child);
    ReservedAtMostTwo(child.cidr);
    TakenBack(space, held, child, p);
    assert Taken(child.children) == {};
    CleanReleaseKeeps(held, child, p);
  }

  lemma CleanReleaseKeeps(space: Space, copy: Record, p: Cidr)
    requires Forest(space) && copy.parentCidr == Some(p) && Canonical(p) && ReleaseIsClean(space, copy, p)
    ensures Forest(DoReleaseChild(space, copy).0)
  {
    ReleaseChildKeeps(space, copy);
    assert Keeps(space, ReqReleaseChild(copy));
  }

  lemma ReservedAtMostTwo(c: Cidr)
    ensures |Reserved(c)| <= 2
  {
  }

  lemma TakenBack(space: Space, held: Space, child: Record, p: Cidr)
    requires JustAcquired(space, held, child, p) && Canonical(p) && Canonical(child.cidr)
    requires held[p].cidr == p && space[p].cidr == p && !HasIPs(child) && |child.ips| <= 2
    ensures var (after, released) := DoReleaseChild(held, child);
            && released.Ok? && after.Keys == space.Keys
            && (forall c :: c in space && c != p ==> after[c] == space[c])
            && after[p].ips == space[p].ips && after[p].cidr == p
            && Taken(after[p].children) == Taken(space[p].children)
  {
    var r := held[p].(children := held[p].children[child.cidr := true]);
    UpdateNow(held, r);
    assert DoUnmark(held, child) == (With(held, Bump(r)), Ok(()));
    assert DoReleaseChild(held, child) == (Remove(With(held, Bump(r)), child.cidr), Ok(()));
  }
}
