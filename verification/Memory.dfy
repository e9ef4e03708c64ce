/** The in-memory store. A record holds references to two mutable tables, as a Go struct holds maps;
    the store copies them on every way in and out, so no caller can reach into it. */
module Memory {
  import opened Wrappers
  import opened Cidrs
  import opened Records
  import opened Store

  class ChildTable {
    var entries: map<Cidr, bool>

    constructor (entries: map<Cidr, bool>)
      ensures this.entries == entries
    {
      this.entries := entries;
    }
  }

  class AddrTable {
    var keys: set<Addr>

    constructor (keys: set<Addr>)
      ensures this.keys == keys
    {
      this.keys := keys;
    }
  }

  /** A prefix as the program passes it around: a struct sharing its tables. */
  datatype Prefix = Prefix(cidr: Cidr, parentCidr: Option<Cidr>, isParent: bool,
                           availableChildPrefixes: ChildTable, childPrefixLength: int,
                           ips: AddrTable, version: int)
  {
    function Tables(): set<object> {
      {availableChildPrefixes, ips}
    }

    function Value(): Record
      reads Tables()
    {
      Record(cidr, parentCidr, isParent, availableChildPrefixes.entries, childPrefixLength, ips.keys, version)
    }

    method DeepCopy() returns (p: Prefix)
      ensures fresh(p.Tables()) && p.Value() == Value()
    {
      var children := new ChildTable(availableChildPrefixes.entries);
      var addrs := new AddrTable(ips.keys);
      p := Prefix(cidr, parentCidr, isParent, children, childPrefixLength, addrs, version);
    }
  }

  /** `vals` are the values of `ps`, whose tables all lie in `owned`. */
  ghost predicate Snapshots(ps: seq<Prefix>, vals: seq<Record>, owned: set<object>)
    reads owned
  {
    && |ps| == |vals|
    && forall i :: 0 <= i < |ps| ==> ps[i].Tables() <= owned && ps[i].Value() == vals[i]
  }

  /** A namespace's entries as a value, read through tables in `held`. */
  ghost function SpaceView(entries: map<Cidr, Prefix>, held: set<object>): (space: Space)
    requires forall c :: c in entries ==> entries[c].Tables() <= held
    reads held
    ensures space.Keys == entries.Keys
  {
    map c | c in entries :: entries[c].Value()
  }

  lemma ViewGrows(entries: map<Cidr, Prefix>, held: set<object>, more: set<object>)
    requires held <= more && forall c :: c in entries ==> entries[c].Tables() <= held
    ensures SpaceView(entries, more) == SpaceView(entries, held)
  {
  }

  class Memory {
    var prefixes: map<Namespace, map<Cidr, Prefix>>
    ghost var Held: set<object>  // every table reachable from the store is one of these

    ghost predicate Valid()
      reads this
    {
      && this !in Held
      && (forall ns, c :: ns in prefixes && c in prefixes[ns] ==> prefixes[ns][c].cidr == c)
      && (forall ns, c :: ns in prefixes && c in prefixes[ns] ==> prefixes[ns][c].Tables() <= Held)
    }

    ghost function View(): (s: Spaces)
      requires Valid()
      reads this, Held
      ensures s.Keys == prefixes.Keys && AllKeyed(s)
    {
      map ns | ns in prefixes :: SpaceView(prefixes[ns], Held)
    }

    constructor ()
      ensures Valid() && Held == {}
      ensures View() == map[DEFAULT_NAMESPACE := map[]]
    {
      prefixes := map[DEFAULT_NAMESPACE := map[]];
      Held := {};
    }

    /** The assignment `m.prefixes[ns] = entries`, where `added` holds the tables new to the store. */
    method Assign(ns: Namespace, entries: map<Cidr, Prefix>, ghost added: set<object>)
      requires Valid() && this !in added
      requires forall c :: c in entries ==> entries[c].cidr == c && entries[c].Tables() <= Held + added
      modifies this
      ensures Valid() && Held == old(Held) + added
      ensures View() == old(View())[ns := SpaceView(entries, Held)]
    {
      forall m | m in prefixes && m != ns
        ensures SpaceView(prefixes[m], Held + added) == View()[m]
      {
        ViewGrows(prefixes[m], Held, Held + added);
      }
      prefixes := prefixes[ns := entries];
      Held := Held + added;
    }

    /** The assignment `m.prefixes[ns][p.Cidr] = p` of a private copy. */
    method Put(ns: Namespace, p: Prefix)
      requires Valid() && ns in prefixes && this !in p.Tables()
      modifies this
      ensures Valid() && Held == old(Held) + p.Tables()
      ensures View() == old(View())[ns := With(old(View())[ns], p.Value())]
    {
      var entries: map<Cidr, Prefix> := prefixes[ns];
      entries := entries[p.cidr := p];
      Assign(ns, entries, p.Tables());
      assert SpaceView(entries, Held) == With(old(View())[ns], p.Value());
    }

    /** The statement `delete(m.prefixes[ns], c)`. */
    method Erase(ns: Namespace, c: Cidr)
      requires Valid() && ns in prefixes
      modifies this
      ensures Valid() && Held == old(Held)
      ensures View() == old(View())[ns := Remove(old(View())[ns], c)]
    {
      var entries: map<Cidr, Prefix> := prefixes[ns] - {c};
      Assign(ns, entries, {});
      assert SpaceView(entries, Held) == Remove(old(View())[ns], c);
    }

    method CreatePrefix(prefix: Prefix, ns: Namespace) returns (r: Result<Prefix, Error>)
      requires Valid()
      modifies this
      ensures Valid() && forall o :: o in Held ==> o in old(Held) || fresh(o)
      ensures ns !in old(View()) ==> r == Err(ErrNamespaceDoesNotExist) && View() == old(View())
      ensures ns in old(View()) ==>
                match Create(old(View())[ns], prefix.Value())
                case Ok(space) => r == Ok(prefix) && View() == old(View())[ns := space]
                case Err(e) => r == Err(e) && View() == old(View())
    {
      if ns !in prefixes {
        return Err(ErrNamespaceDoesNotExist);
      }
      if prefix.cidr in prefixes[ns] {
        return Err(ErrAlreadyCreated);
      }
      var copy := prefix.DeepCopy();
      Put(ns, copy);
      return Ok(prefix);
    }

    method ReadPrefix(cidr: Cidr, ns: Namespace) returns (r: Result<Prefix, Error>)
      requires Valid()
      ensures ns !in View() ==> r == Err(ErrNamespaceDoesNotExist)
      ensures ns in View() && cidr !in View()[ns] ==> r == Err(ErrNotFound)
      ensures ns in View() && cidr in View()[ns] ==>
                r.Ok? && r.value.Value() == View()[ns][cidr] && fresh(r.value.Tables())
    {
      if ns !in prefixes {
        return Err(ErrNamespaceDoesNotExist);
      }
      if cidr !in prefixes[ns] {
        return Err(ErrNotFound);
      }
      var copy := prefixes[ns][cidr].DeepCopy();
      return Ok(copy);
    }

    /** Empties the namespace, creating it if it was absent. */
    method DeleteAllPrefixes(ns: Namespace)
      requires Valid()
      modifies this
      ensures Valid() && Held <= old(Held)
      ensures View() == old(View())[ns := map[]]
    {
      Assign(ns, map[], {});
    }

    method ReadAllPrefixes(ns: Namespace)
      returns (r: Result<seq<Prefix>, Error>, ghost vals: seq<Record>, ghost owned: set<object>)
      requires Valid()
      ensures ns !in View() ==> r == Err(ErrNamespaceDoesNotExist)
      ensures fresh(owned)
      ensures ns in View() ==> r.Ok? && Snapshots(r.value, vals, owned) && Lists(vals, View()[ns])
    {
      vals, owned := [], {};
      if ns !in prefixes {
        return Err(ErrNamespaceDoesNotExist), vals, owned;
      }
      var ps: seq<Prefix>, todo := [], prefixes[ns].Keys;
      ghost var space := View()[ns];
      while todo != {}
        invariant todo <= space.Keys && fresh(owned)
        invariant Snapshots(ps, vals, owned)
        invariant Lists(vals, space - todo)
        decreases todo
      {
        var c :| c in todo;
        var copy := prefixes[ns][c].DeepCopy();
        ListsAppend(vals, space - todo, copy.Value());
        assert space - (todo - {c}) == (space - todo)[c := copy.Value()];
        ps, todo := ps + [copy], todo - {c};
        vals, owned := vals + [copy.Value()], owned + copy.Tables();
      }
      assert space - {} == space;
      return Ok(ps), vals, owned;
    }

    method ReadAllPrefixCidrs(ns: Namespace) returns (r: Result<seq<Cidr>, Error>)
      requires Valid()
      ensures ns !in View() ==> r == Err(ErrNamespaceDoesNotExist)
      ensures ns in View() ==> r.Ok? && forall c :: c in r.value <==> c in View()[ns]
      ensures r.Ok? ==> forall i, j :: 0 <= i < j < |r.value| ==> r.value[i] != r.value[j]
    {
      if ns !in prefixes {
        return Err(ErrNamespaceDoesNotExist);
      }
      var cs: seq<Cidr>, todo := [], prefixes[ns].Keys;
      while todo != {}
        invariant todo <= prefixes[ns].Keys
        invariant forall c :: c in cs <==> c in prefixes[ns] && c !in todo
        invariant forall i, j :: 0 <= i < j < |cs| ==> cs[i] != cs[j]
        decreases todo
      {
        var c :| c in todo;
        cs, todo := cs + [prefixes[ns][c].cidr], todo - {c};
      }
      return Ok(cs);
    }

    method UpdatePrefix(prefix: Prefix, ns: Namespace) returns (r: Result<Prefix, Error>)
      requires Valid()
      modifies this
      ensures Valid() && forall o :: o in Held ==> o in old(Held) || fresh(o)
      ensures ns !in old(View()) ==> r == Err(ErrNamespaceDoesNotExist) && View() == old(View())
      ensures ns in old(View()) ==>
                match Update(old(View())[ns], prefix.Value())
                case Ok(space) => r == Ok(prefix.(version := prefix.version + 1)) && View() == old(View())[ns := space]
                case Err(e) => r == Err(e) && View() == old(View())
    {
      var oldVersion := prefix.version;
      var updated := prefix.(version := oldVersion + 1);
      if ns !in prefixes {
        return Err(ErrNamespaceDoesNotExist);
      }
      if updated.cidr !in prefixes[ns] {
        return Err(ErrPrefixMissing);
      }
      if prefixes[ns][updated.cidr].version != oldVersion {
        return Err(ErrOptimisticLock);
      }
      assert Update(View()[ns], prefix.Value()) == Ok(With(View()[ns], updated.Value()));
      var copy := updated.DeepCopy();
      Put(ns, copy);
      return Ok(updated);
    }

    /** Deletes without looking at the version, and also when the prefix is not stored. */
    method DeletePrefix(prefix: Prefix, ns: Namespace) returns (r: Result<Prefix, Error>)
      requires Valid()
      modifies this
      ensures Valid() && Held <= old(Held)
      ensures ns !in old(View()) ==> r == Err(ErrNamespaceDoesNotExist) && View() == old(View())
      ensures ns in old(View()) ==>
                && View() == old(View())[ns := Remove(old(View())[ns], prefix.cidr)]
                && r.Ok? && r.value.Value() == prefix.Value() && fresh(r.value.Tables())
    {
      if ns !in prefixes {
        return Err(ErrNamespaceDoesNotExist);
      }
      Erase(ns, prefix.cidr);
      var copy := prefix.DeepCopy();
      return Ok(copy);
    }

    method CreateNamespace(ns: Namespace)
      requires Valid()
      modifies this
      ensures Valid() && Held == old(Held)
      ensures View() == if ns in old(View()) then old(View()) else old(View())[ns := map[]]
    {
      if ns !in prefixes {
        Assign(ns, map[], {});
      }
    }

    method ListNamespaces() returns (names: seq<Namespace>)
      requires Valid()
      ensures forall ns :: ns in names <==> ns in View()
      ensures forall i, j :: 0 <= i < j < |names| ==> names[i] != names[j]
    {
      names := [];
      var todo := prefixes.Keys;
      while todo != {}
        invariant todo <= prefixes.Keys
        invariant forall ns :: ns in names <==> ns in prefixes && ns !in todo
        invariant forall i, j :: 0 <= i < j < |names| ==> names[i] != names[j]
        decreases todo
      {
        var ns :| ns in todo;
        names, todo := names + [ns], todo - {ns};
      }
    }

    method DeleteNamespace(ns: Namespace) returns (r: Result<(), Error>)
      requires Valid()
      modifies this
      ensures Valid() && Held <= old(Held)
      ensures ns !in old(View()) ==> r == Err(ErrNamespaceDoesNotExist) && View() == old(View())
      ensures ns in old(View()) ==> r == Ok(()) && View() == old(View()) - {ns}
    {
      if ns !in prefixes {
        return Err(ErrNamespaceDoesNotExist);
      }
      prefixes := prefixes - {ns};
      return Ok(());
    }
  }
}
