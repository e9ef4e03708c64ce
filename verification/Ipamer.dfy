/** The allocator itself over the in-memory store: each method reads a private snapshot, edits its
    tables in place, and writes it back. Every method is proved to act as its function in Ops. */
module Ipamer {
  import opened Wrappers
  import opened Powers
  import opened Cidrs
  import opened Records
  import opened Store
  import opened Memory
  import opened Json
  import opened Ops
  import opened Effects

  /** The address after `a`, if the address space goes on. */
  function Next(a: Addr): Option<Addr> {
    if a.value + 1 < Pow2(Width(a.family)) then Some(Ip(a.family, a.value + 1)) else None
  }

  /** Succeeds exactly when no address lies in both an existing and a new prefix. */
  method PrefixesOverlapping(existingPrefixes: seq<Cidr>, newPrefixes: seq<Cidr>) returns (r: Result<(), Error>)
    ensures r == Ok(()) || r == Err(ErrOverlap)
    ensures r.Ok? <==> forall e, n :: e in existingPrefixes && n in newPrefixes ==>
                                        !exists a: Addr :: Contains(e, a) && Contains(n, a)
  {
    forall e, n | e in existingPrefixes && n in newPrefixes
      ensures Overlaps(e, n) <==> exists a: Addr :: Contains(e, a) && Contains(n, a)
      ensures Overlaps(n, e) == Overlaps(e, n)
    {
      OverlapsIffShared(e, n);
      Geometry(e, n);
    }
    for i := 0 to |existingPrefixes|
      invariant forall e, n :: e in existingPrefixes[..i] && n in newPrefixes ==> !Overlaps(e, n)
    {
      var eip := existingPrefixes[i];
      for j := 0 to |newPrefixes|
        invariant forall n :: n in newPrefixes[..j] ==> !Overlaps(eip, n)
      {
        var nip := newPrefixes[j];
        assert eip in existingPrefixes && nip in newPrefixes;
        if Overlaps(eip, nip) || Overlaps(nip, eip) {
          return Err(ErrOverlap);
        }
      }
    }
    return Ok(());
  }

  lemma OverlapCheck(existing: seq<Cidr>, space: Space, c: Cidr)
    requires forall e :: e in existing <==> e in space
    ensures Clashes(space, c) <==>
            exists e, n :: e in existing && n in [c] && exists a: Addr :: Contains(e, a) && Contains(n, a)
  {
    forall e | e in existing
      ensures Overlaps(e, c) <==> exists a: Addr :: Contains(e, a) && Contains(c, a)
    {
      OverlapsIffShared(e, c);
    }
    if e :| e in space && Overlaps(e, c) {
      assert e in existing && c in [c];
    }
  }

  class Ipamer {
    const storage: Memory

    constructor ()
      ensures fresh(storage) && storage.Valid() && storage.View() == map[DEFAULT_NAMESPACE := map[]]
    {
      storage := new Memory();
    }

    method PrefixFrom(ns: Namespace, cidr: Cidr) returns (r: Result<Prefix, Error>)
      requires storage.Valid()
      ensures r.Ok? <==> ns in storage.View() && Masked(cidr) in storage.View()[ns]
      ensures r.Ok? ==> r.value.Value() == storage.View()[ns][Masked(cidr)] && fresh(r.value.Tables())
      ensures r.Err? ==> r.error == if ns in storage.View() then ErrNotFound else ErrNamespaceDoesNotExist
    {
      r := storage.ReadPrefix(Masked(cidr), ns);
    }

    method NewPrefixRecord(cidr: Cidr, parentCidr: Option<Cidr>) returns (p: Prefix)
      ensures fresh(p.Tables()) && p.Value() == NewRecord(cidr, parentCidr)
    {
      var maskedParent := parentCidr;
      if parentCidr.Some? {
        maskedParent := Some(Masked(parentCidr.value));
      }
      var children := new ChildTable(map[]);
      var ips := new AddrTable({});
      p := Prefix(Masked(cidr), maskedParent, false, children, 0, ips, 0);
      MaskedIsCanonical(cidr);
      p.ips.keys := p.ips.keys + {FirstAddr(cidr)};
      if cidr.family.V4? {
        p.ips.keys := p.ips.keys + {LastAddr(cidr)};
      }
    }

    /** The overlap check of a new prefix against the stored ones, as they were read. */
    method CheckOverlap(existing: seq<Cidr>, c: Cidr, ghost space: Space) returns (r: Result<(), Error>)
      requires forall e :: e in existing <==> e in space
      ensures r == if Clashes(space, c) then Err(ErrOverlap) else Ok(())
    {
      OverlapCheck(existing, space, c);
      r := PrefixesOverlapping(existing, [c]);
    }

    method NewPrefix(ns: Namespace, cidr: Cidr) returns (r: Result<Prefix, Error>)
      requires storage.Valid()
      modifies storage
      ensures storage.Valid() && forall o :: o in storage.Held ==> o in old(storage.Held) || fresh(o)
      ensures ns !in old(storage.View()) ==> r == Err(ErrNamespaceDoesNotExist) && storage.View() == old(storage.View())
      ensures ns in old(storage.View()) ==>
                var (space, out) := DoNewPrefix(old(storage.View())[ns], cidr);
                && storage.View() == old(storage.View())[ns := space]
                && match out
                   case Ok(rec) => r.Ok? && r.value.Value() == rec && fresh(r.value.Tables())
                                   && r.value.Tables() !! storage.Held
                   case Err(e) => r == Err(e)
    {
      var existing := storage.ReadAllPrefixCidrs(ns);
      if existing.Err? {
        return Err(existing.error);
      }
      var p := NewPrefixRecord(cidr, None);
      ghost var was := old(storage.View());
      var clear := CheckOverlap(existing.value, p.cidr, was[ns]);
      assert storage.View() == was;
      Overwrite(was, ns, map[], map[]);
      if clear.Err? {
        return Err(clear.error);
      }
      r := storage.CreatePrefix(p, ns);
    }

    method DeletePrefix(ns: Namespace, cidr: Cidr) returns (r: Result<Prefix, Error>)
      requires storage.Valid()
      modifies storage
      ensures storage.Valid() && forall o :: o in storage.Held ==> o in old(storage.Held) || fresh(o)
      ensures ns !in old(storage.View()) ==> r == Err(ErrNotFound) && storage.View() == old(storage.View())
      ensures ns in old(storage.View()) ==>
                var (space, out) := DoDelete(old(storage.View())[ns], cidr);
                && storage.View() == old(storage.View())[ns := space]
                && match out
                   case Ok(rec) => r.Ok? && r.value.Value() == rec && fresh(r.value.Tables())
                                   && r.value.Tables() !! storage.Held
                   case Err(e) => r == Err(e)
    {
      Overwrite(storage.View(), ns, map[], map[]);
      var p := PrefixFrom(ns, cidr);
      if p.Err? {
        return Err(ErrNotFound);
      }
      if HasIPs(p.value.Value()) {
        return Err(ErrHasIPs);
      }
      r := storage.DeletePrefix(p.value, ns);
    }

    method AcquireSpecificIP(ns: Namespace, prefixCidr: Cidr, specificIP: Option<Addr>) returns (r: Result<Addr, Error>)
      requires storage.Valid()
      modifies storage
      ensures storage.Valid() && forall o :: o in storage.Held ==> o in old(storage.Held) || fresh(o)
      ensures ns !in old(storage.View()) ==> r == Err(ErrNotFound) && storage.View() == old(storage.View())
      ensures ns in old(storage.View()) ==>
                var (space, out) := DoAcquireIp(old(storage.View())[ns], prefixCidr, specificIP);
                storage.View() == old(storage.View())[ns := space] && r == out
    {
      Overwrite(storage.View(), ns, map[], map[]);
      var got := PrefixFrom(ns, prefixCidr);
      if got.Err? {
        return Err(ErrNotFound);
      }
      var prefix := got.value;
      if prefix.isParent {
        return Err(ErrHasChildren);
      }
      var ipnet := prefix.cidr;
      if specificIP.Some? {
        if !Contains(ipnet, specificIP.value) {
          return Err(ErrNotInPrefix);
        }
        if specificIP.value in prefix.ips.keys {
          return Err(ErrAlreadyAllocated);
        }
        r := AcquireAndStore(ns, prefix, specificIP.value);
        return;
      }
      LastInFamily(ipnet);
      var ip: Option<Addr> := Some(FirstAddr(ipnet));
      while ip.Some? && Contains(ipnet, ip.value) && ip.value in prefix.ips.keys
        invariant ip.Some? ==> ip.value.family == ipnet.family && First(ipnet) <= ip.value.value
        invariant ip.Some? ==> FirstFree(ipnet, prefix.ips.keys) == ScanFrom(ipnet, prefix.ips.keys, ip.value.value)
        invariant ip.None? ==> FirstFree(ipnet, prefix.ips.keys) == None
        decreases if ip.None? then 0 else Pow2(Width(ipnet.family)) - ip.value.value
      {
        ip := Next(ip.value);
      }
      if ip.None? || !Contains(ipnet, ip.value) {
        return Err(ErrNoIPAvailable);
      }
      r := AcquireAndStore(ns, prefix, ip.value);
    }

    /** Writes a snapshot the caller has edited. */
    method WriteBack(ns: Namespace, prefix: Prefix) returns (r: Result<(), Error>)
      requires storage.Valid() && ns in storage.View()
      modifies storage
      ensures storage.Valid() && forall o :: o in storage.Held ==> o in old(storage.Held) || fresh(o)
      ensures var (space, out) := Commit(old(storage.View())[ns], prefix.Value());
              storage.View() == old(storage.View())[ns := space] && r == out
      ensures WriteAnswer(old(storage.View()), ns, prefix.Value(), storage.View(), r)
    {
      Overwrite(storage.View(), ns, map[], map[]);
      UpdateExact(storage.View()[ns], prefix.Value());
      var written := storage.UpdatePrefix(prefix, ns);
      match written {
        case Err(e) => return Err(e);
        case Ok(_) => return Ok(());
      }
    }

    /** Marks a child in the caller's snapshot of the parent in place, and writes the snapshot. */
    method MarkChild(ns: Namespace, parent: Prefix, child: Cidr, available: bool) returns (r: Result<(), Error>)
      requires storage.Valid() && ns in storage.View()
      requires parent.Tables() !! storage.Held && storage !in parent.Tables()
      modifies storage, parent.availableChildPrefixes
      ensures storage.Valid() && forall o :: o in storage.Held ==> o in old(storage.Held) || fresh(o)
      ensures var rec := old(parent.Value());
              var (space, out) := Commit(old(storage.View())[ns], rec.(children := rec.children[child := available]));
              storage.View() == old(storage.View())[ns := space] && r == out
      ensures var rec := old(parent.Value());
              WriteAnswer(old(storage.View()), ns, rec.(children := rec.children[child := available]),
                          storage.View(), r)
    {
      ghost var was := storage.View();
      var table: map<Cidr, bool> := parent.availableChildPrefixes.entries;
      parent.availableChildPrefixes.entries := table[child := available];
      assert storage.View() == was;
      r := WriteBack(ns, parent);
    }

    /** Adds the address to the caller's snapshot in place and writes the snapshot. */
    method AcquireAndStore(ns: Namespace, prefix: Prefix, ip: Addr) returns (r: Result<Addr, Error>)
      requires storage.Valid() && prefix.Tables() !! storage.Held && storage !in prefix.Tables()
      requires ns in storage.View()
      modifies storage, prefix.ips
      ensures storage.Valid() && forall o :: o in storage.Held ==> o in old(storage.Held) || fresh(o)
      ensures prefix.ips.keys == old(prefix.ips.keys) + {ip}
      ensures var rec := old(prefix.Value());
              var (space, out) := Commit(old(storage.View())[ns], rec.(ips := rec.ips + {ip}));
              && storage.View() == old(storage.View())[ns := space]
              && r == if out.Ok? then Ok(ip) else Err(out.error)
      ensures var rec := old(prefix.Value());
              WriteAnswer(old(storage.View()), ns, rec.(ips := rec.ips + {ip}), storage.View(), r)
    {
      ghost var was, rec := storage.View(), prefix.Value();
      prefix.ips.keys := prefix.ips.keys + {ip};
      assert storage.View() == was && prefix.Value() == rec.(ips := rec.ips + {ip});
      var written := WriteBack(ns, prefix);
      match written {
        case Err(e) => return Err(e);
        case Ok(_) => return Ok(ip);
      }
    }

    /** Takes the address out of the caller's snapshot in place and writes the snapshot. */
    method ReleaseAndStore(ns: Namespace, prefix: Prefix, ip: Addr) returns (r: Result<(), Error>)
      requires storage.Valid() && prefix.Tables() !! storage.Held && storage !in prefix.Tables()
      requires ns in storage.View()
      modifies storage, prefix.ips
      ensures storage.Valid() && forall o :: o in storage.Held ==> o in old(storage.Held) || fresh(o)
      ensures var rec := old(prefix.Value());
              var (space, out) := Commit(old(storage.View())[ns], rec.(ips := rec.ips - {ip}));
              storage.View() == old(storage.View())[ns := space] && r == out
      ensures var rec := old(prefix.Value());
              WriteAnswer(old(storage.View()), ns, rec.(ips := rec.ips - {ip}), storage.View(), r)
    {
      ghost var was, rec := storage.View(), prefix.Value();
      prefix.ips.keys := prefix.ips.keys - {ip};
      assert storage.View() == was && prefix.Value() == rec.(ips := rec.ips - {ip});
      r := WriteBack(ns, prefix);
    }

    method ReleaseIPFromPrefix(ns: Namespace, prefixCidr: Cidr, ip: Addr) returns (r: Result<(), Error>)
      requires storage.Valid()
      modifies storage
      ensures storage.Valid() && forall o :: o in storage.Held ==> o in old(storage.Held) || fresh(o)
      ensures ns !in old(storage.View()) ==> r == Err(ErrNotFound) && storage.View() == old(storage.View())
      ensures ns in old(storage.View()) ==>
                var (space, out) := DoReleaseIp(old(storage.View())[ns], prefixCidr, ip);
                storage.View() == old(storage.View())[ns := space] && r == out
    {
      Overwrite(storage.View(), ns, map[], map[]);
      var got := PrefixFrom(ns, prefixCidr);
      if got.Err? {
        return Err(ErrNotFound);
      }
      var prefix := got.value;
      if ip !in prefix.ips.keys {
        return Err(ErrNotFound);
      }
      r := ReleaseAndStore(ns, prefix, ip);
    }

    /** Reads the parent, selects a free child, and writes the parent with the child marked taken. */
    method MarkFreeChild(ns: Namespace, parentCidr: Cidr, want: ChildRequest) returns (r: Result<Cidr, Error>)
      requires storage.Valid() && ns in storage.View()
      modifies storage
      ensures storage.Valid() && forall o :: o in storage.Held ==> o in old(storage.Held) || fresh(o)
      ensures var (space, out) := DoMark(old(storage.View())[ns], parentCidr, want);
              storage.View() == old(storage.View())[ns := space] && r == out
    {
      Overwrite(storage.View(), ns, map[], map[]);
      var got := PrefixFrom(ns, parentCidr);
      if got.Err? {
        return Err(ErrNotFound);
      }
      var parent := got.value;
      var chosen := SelectChild(parent.Value(), want);
      if chosen.Err? {
        return Err(chosen.error);
      }
      parent := parent.(isParent := true);
      var written := MarkChild(ns, parent, chosen.value, false);
      match written {
        case Err(e) => return Err(e);
        case Ok(_) => return Ok(chosen.value);
      }
    }

    method CreateChild(ns: Namespace, child: Cidr, parentCidr: Cidr) returns (r: Result<Prefix, Error>)
      requires storage.Valid() && ns in storage.View()
      modifies storage
      ensures storage.Valid() && forall o :: o in storage.Held ==> o in old(storage.Held) || fresh(o)
      ensures var (space, out) := DoCreate(old(storage.View())[ns], child, parentCidr);
              && storage.View() == old(storage.View())[ns := space]
              && match out
                 case Ok(rec) => r.Ok? && r.value.Value() == rec && fresh(r.value.Tables())
                                 && r.value.Tables() !! storage.Held
                 case Err(e) => r == Err(e)
    {
      Overwrite(storage.View(), ns, map[], map[]);
      var p := NewPrefixRecord(child, Some(parentCidr));
      r := storage.CreatePrefix(p, ns);
    }

    method AcquireChildPrefix(ns: Namespace, parentCidr: Cidr, want: ChildRequest) returns (r: Result<Prefix, Error>)
      requires storage.Valid()
      modifies storage
      ensures storage.Valid() && forall o :: o in storage.Held ==> o in old(storage.Held) || fresh(o)
      ensures ns !in old(storage.View()) ==> r == Err(ErrNotFound) && storage.View() == old(storage.View())
      ensures ns in old(storage.View()) ==>
                var (space, out) := DoAcquireChild(old(storage.View())[ns], parentCidr, want);
                && storage.View() == old(storage.View())[ns := space]
                && match out
                   case Ok(rec) => r.Ok? && r.value.Value() == rec && fresh(r.value.Tables())
                                   && r.value.Tables() !! storage.Held
                   case Err(e) => r == Err(e)
    {
      if ns !in storage.prefixes {
        return Err(ErrNotFound);
      }
      ghost var was := storage.View();
      var child := MarkFreeChild(ns, parentCidr, want);
      if child.Err? {
        return Err(child.error);
      }
      ghost var marked := storage.View()[ns];
      r := CreateChild(ns, child.value, parentCidr);
      Overwrite(was, ns, marked, storage.View()[ns]);
    }

    /** Reads the parent named by the caller's copy, and writes it with the child marked available. */
    method Unmark(ns: Namespace, child: Prefix) returns (r: Result<(), Error>)
      requires storage.Valid() && ns in storage.View() && child.Tables() !! storage.Held
      modifies storage
      ensures storage.Valid() && forall o :: o in storage.Held ==> o in old(storage.Held) || fresh(o)
      ensures var (space, out) := DoUnmark(old(storage.View())[ns], old(child.Value()));
              storage.View() == old(storage.View())[ns := space] && r == out
    {
      Overwrite(storage.View(), ns, map[], map[]);
      if child.parentCidr.None? {
        return Err(ErrNotFound);
      }
      var got := PrefixFrom(ns, child.parentCidr.value);
      if got.Err? {
        return Err(ErrNotFound);
      }
      var parent := got.value;
      if !parent.isParent {
        return Err(ErrNoChildPrefix);
      }
      if |child.ips.keys| > 2 {
        return Err(ErrHasIPs);
      }
      r := MarkChild(ns, parent, child.cidr, true);
    }

    method ReleaseChildPrefix(ns: Namespace, child: Prefix) returns (r: Result<(), Error>)
      requires storage.Valid() && child.Tables() !! storage.Held
      modifies storage
      ensures storage.Valid() && forall o :: o in storage.Held ==> o in old(storage.Held) || fresh(o)
      ensures ns !in old(storage.View()) ==> r == Err(ErrNotFound) && storage.View() == old(storage.View())
      ensures ns in old(storage.View()) ==>
                var (space, out) := DoReleaseChild(old(storage.View())[ns], old(child.Value()));
                storage.View() == old(storage.View())[ns := space] && r == out
    {
      if ns !in storage.prefixes {
        return Err(ErrNotFound);
      }
      ghost var was := storage.View();
      r := Unmark(ns, child);
      if r.Err? {
        return;
      }
      ghost var unmarked := storage.View()[ns];
      var deleted := DeletePrefix(ns, child.cidr);
      Overwrite(was, ns, unmarked, storage.View()[ns]);
      if deleted.Err? {
        return Err(deleted.error);
      }
      return Ok(());
    }

    /** Only an empty namespace can be deleted. */
    method DeleteNamespace(ns: Namespace) returns (r: Result<(), Error>)
      requires storage.Valid()
      modifies storage
      ensures storage.Valid() && storage.Held <= old(storage.Held)
      ensures ns !in old(storage.View()) ==> r == Err(ErrNamespaceDoesNotExist) && storage.View() == old(storage.View())
      ensures ns in old(storage.View()) ==>
                if old(storage.View())[ns] == map[] then r == Ok(()) && storage.View() == old(storage.View()) - {ns}
                else r == Err(ErrPrefixesExist) && storage.View() == old(storage.View())
    {
      ghost var was := storage.View();
      var prefixes, vals, owned := storage.ReadAllPrefixes(ns);
      if prefixes.Err? {
        return Err(prefixes.error);
      }
      ListsEmpty(vals, was[ns]);
      if |prefixes.value| > 0 {
        return Err(ErrPrefixesExist);
      }
      r := storage.DeleteNamespace(ns);
    }

    method NamespacedDump(ns: Namespace) returns (r: Result<seq<PrefixJson>, Error>, ghost rs: seq<Record>)
      requires storage.Valid()
      ensures ns !in storage.View() ==> r == Err(ErrNamespaceDoesNotExist)
      ensures ns in storage.View() ==> Lists(rs, storage.View()[ns]) && r == Ok(Encoded(rs))
    {
      ghost var owned;
      var pfxs;
      pfxs, rs, owned := storage.ReadAllPrefixes(ns);
      if pfxs.Err? {
        return Err(pfxs.error), rs;
      }
      var js := ToJson(pfxs.value, rs, owned);
      return Ok(js), rs;
    }

    method NamespacedLoad(ns: Namespace, dump: seq<PrefixJson>) returns (r: Result<(), Error>)
      requires storage.Valid()
      modifies storage
      ensures storage.Valid() && forall o :: o in storage.Held ==> o in old(storage.Held) || fresh(o)
      ensures ns !in old(storage.View()) ==> r == Err(ErrNamespaceDoesNotExist) && storage.View() == old(storage.View())
      ensures ns in old(storage.View()) ==>
                var (space, out) := DoLoad(old(storage.View())[ns], dump);
                storage.View() == old(storage.View())[ns := space] && r == out
      ensures ns in old(storage.View()) && old(storage.View())[ns] != map[] ==>
                r == Err(ErrPrefixesExist) && storage.View() == old(storage.View())
      ensures ns in old(storage.View()) && old(storage.View())[ns] == map[] ==>
                && (r.Ok? <==> DumpDistinct(dump)) && ns in storage.View()
                && (r.Ok? ==> HoldsDump(storage.View()[ns], dump))
                && (r.Err? ==> r.error == ErrAlreadyCreated && exists n: nat :: StopsAt(storage.View()[ns], dump, n))
    {
      ghost var was := storage.View();
      Overwrite(was, ns, map[], map[]);
      var existing, vals, owned := storage.ReadAllPrefixes(ns);
      if existing.Err? {
        return Err(existing.error);
      }
      ListsEmpty(vals, was[ns]);
      if |existing.value| > 0 {
        return Err(ErrPrefixesExist);
      }
      r := LoadEmpty(ns, dump);
      LoadEffect(map[], dump);
    }

    /** Decodes the dump, empties the namespace and stores the prefixes. */
    method LoadEmpty(ns: Namespace, dump: seq<PrefixJson>) returns (r: Result<(), Error>)
      requires storage.Valid() && ns in storage.View()
      modifies storage
      ensures storage.Valid() && forall o :: o in storage.Held ==> o in old(storage.Held) || fresh(o)
      ensures var (space, out) := LoadFrom(map[], Decoded(dump));
              storage.View() == old(storage.View())[ns := space] && r == out
    {
      ghost var was := storage.View();
      var pfxs, mine := FromJsons(dump);
      assert storage.View() == was;
      storage.DeleteAllPrefixes(ns);
      r := CreateAll(ns, pfxs, Decoded(dump), mine);
      Overwrite(was, ns, map[], LoadFrom(map[], Decoded(dump)).0);
    }

    /** Stores the given prefixes one by one, stopping at the first failure. */
    method CreateAll(ns: Namespace, pfxs: seq<Prefix>, ghost rs: seq<Record>, ghost mine: set<object>)
      returns (r: Result<(), Error>)
      requires storage.Valid() && ns in storage.View()
      requires Snapshots(pfxs, rs, mine) && mine !! storage.Held && storage !in mine
      requires forall o :: o in mine ==> allocated(o)
      modifies storage
      ensures storage.Valid() && forall o :: o in storage.Held ==> o in old(storage.Held) || fresh(o)
      ensures var (space, out) := LoadFrom(old(storage.View())[ns], rs);
              storage.View() == old(storage.View())[ns := space] && r == out
    {
      ghost var was := storage.View();
      ghost var done := was[ns];
      Overwrite(was, ns, done, done);
      for i := 0 to |pfxs|
        invariant storage.Valid() && mine !! storage.Held
        invariant forall o :: o in storage.Held ==> o in old(storage.Held) || fresh(o)
        invariant Snapshots(pfxs, rs, mine)
        invariant storage.View() == was[ns := done]
        invariant LoadFrom(was[ns], rs) == LoadFrom(done, rs[i..])
      {
        assert rs[i..][0] == rs[i] && rs[i..][1..] == rs[i + 1..];
        Overwrite(was, ns, done, With(done, rs[i]));
        var made := storage.CreatePrefix(pfxs[i], ns);
        match made {
          case Err(e) => return Err(e);
          case Ok(_) => done := With(done, rs[i]);
        }
      }
      return Ok(());
    }
  }
}
