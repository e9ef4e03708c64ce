/** The file store: a write-through cache that keeps an in-memory store in agreement with a JSON file,
    reloading when the file's modification time changed. */
module FileStore {
  import opened Wrappers
  import opened Cidrs
  import opened Records
  import opened Store
  import opened Memory
  import opened Json
  import opened Ops
  import opened Effects

  type Entries = map<Cidr, PrefixJson>
  type FileData = map<Namespace, Entries>

  /** What the path holds: nothing, fewer than two bytes, unparsable bytes, or the JSON document. */
  datatype Content = Missing | Short | Garbage | Data(json: FileData)

  /** The file system at the store's path. Every write gets a fresh stamp; 0 stands for no file. */
  class Disk {
    var content: Content
    var stamp: nat
    var clock: nat

    ghost predicate Valid()
      reads this
    {
      stamp <= clock && (stamp == 0 <==> content.Missing?)
    }

    constructor ()
      ensures Valid() && content == Missing
    {
      content, stamp, clock := Missing, 0, 0;
    }

    method WriteFile(json: FileData)
      requires Valid()
      modifies this
      ensures Valid() && content == Data(json) && stamp > old(clock)
    {
      clock := clock + 1;
      content, stamp := Data(json), clock;
    }

    /** Another program rewrites or removes the file. */
    method ExternalChange(next: Content)
      requires Valid()
      modifies this
      ensures Valid() && content == next && clock > old(clock) && (next == Missing || stamp > old(clock))
    {
      clock := clock + 1;
      content, stamp := next, if next == Missing then 0 else clock;
    }
  }

  /** The prefixes stored under the keys of a JSON object. */
  function Stored(entries: Entries): set<Cidr> {
    set k | k in entries :: entries[k].Cidr
  }

  /** No prefix is stored twice. */
  predicate Distinct(entries: Entries) {
    forall k, l :: k in entries && l in entries && k != l ==> entries[k].Cidr != entries[l].Cidr
  }

  ghost function EntryOf(entries: Entries, c: Cidr): (j: PrefixJson)
    requires c in Stored(entries)
    ensures j.Cidr == c
  {
    var k :| k in entries && entries[k].Cidr == c; entries[k]
  }

  ghost function DecodeSpace(entries: Entries): (space: Space)
    ensures Keyed(space)
  {
    map c | c in Stored(entries) :: ToRecord(EntryOf(entries, c))
  }

  /** Decoding looks at the prefixes inside the objects, not at the keys. */
  lemma DecodeSpaceExact(entries: Entries)
    requires Distinct(entries)
    ensures forall k :: k in entries ==>
              entries[k].Cidr in DecodeSpace(entries) && DecodeSpace(entries)[entries[k].Cidr] == ToRecord(entries[k])
    ensures forall c :: c in DecodeSpace(entries) ==> exists k :: k in entries && entries[k].Cidr == c
  {
    forall k | k in entries
      ensures entries[k].Cidr in DecodeSpace(entries) && DecodeSpace(entries)[entries[k].Cidr] == ToRecord(entries[k])
    {
      assert entries[k].Cidr in Stored(entries) && EntryOf(entries, entries[k].Cidr) == entries[k];
    }
  }

  function DataOf(content: Content): FileData {
    if content.Data? then content.json else map[]
  }

  predicate Decodable(content: Content) {
    content != Garbage && forall ns :: ns in DataOf(content) ==> Distinct(DataOf(content)[ns])
  }

  /** What a reload of the file makes of a memory with or without the default namespace. */
  ghost function Fetched(hasDefault: bool, content: Content): (s: Spaces) {
    map ns | ns in DataOf(content).Keys + (if hasDefault then {DEFAULT_NAMESPACE} else {}) ::
      if ns in DataOf(content) then DecodeSpace(DataOf(content)[ns]) else map[]
  }

  /** Which files decode, and to what: no file and one too short to parse are empty stores. */
  lemma FetchedExact(hasDefault: bool, content: Content)
    ensures Decodable(content) <==>
            content.Missing? || content.Short?
            || (content.Data? && forall ns, k, l :: ns in content.json && k in content.json[ns] && l in content.json[ns]
                                                    && k != l ==>
                                                      content.json[ns][k].Cidr != content.json[ns][l].Cidr)
    ensures var s := Fetched(hasDefault, content);
            && (!content.Data? ==> s == if hasDefault then map[DEFAULT_NAMESPACE := map[]] else map[])
            && (content.Data? ==>
                  && (forall ns :: ns in s <==> ns in content.json || (hasDefault && ns == DEFAULT_NAMESPACE))
                  && forall ns :: ns in s ==>
                       s[ns] == if ns in content.json then DecodeSpace(content.json[ns]) else map[])
  {
    var data := DataOf(content);
    if content.Data? && !Decodable(content) {
      var ns :| ns in data && !Distinct(data[ns]);
      var k, l :| k in data[ns] && l in data[ns] && k != l && data[ns][k].Cidr == data[ns][l].Cidr;
      assert ns in content.json && k in content.json[ns] && l in content.json[ns];
    }
  }

  /** The store a new process finds in the file; the default namespace is always there. */
  ghost function Decode(content: Content): (s: Spaces) {
    Fetched(true, content)
  }

  /** `part` are the entries loaded before a prefix came up that was stored already. */
  ghost predicate DuplicateAfter(entries: Entries, part: Entries) {
    && part.Keys <= entries.Keys && (forall k :: k in part ==> part[k] == entries[k]) && Distinct(part)
    && exists k :: k in entries && k !in part && entries[k].Cidr in Stored(part)
  }

  /** `done` is what was loaded of the document: some namespaces, the last one up to a duplicate. */
  ghost predicate StoppedAt(storage: FileData, done: FileData) {
    && done.Keys <= storage.Keys
    && exists last :: last in done && DuplicateAfter(storage[last], done[last])
                      && forall ns :: ns in done && ns != last ==> done[ns] == storage[ns] && Distinct(done[ns])
  }

  /** What a reload that fails makes of the memory `before`: nothing if the bytes do not parse, else
      it holds the part of the document in front of a duplicate. */
  ghost predicate Stopped(before: Spaces, content: Content, after: Spaces) {
    if content.Data? then
      exists done :: StoppedAt(content.json, done) && after == Fetched(DEFAULT_NAMESPACE in before, Data(done))
    else after == before
  }

  function EncodeSpace(space: Space): Entries {
    map c | c in space :: ToPrefixJson(space[c])
  }

  function Encode(s: Spaces): FileData {
    map ns | ns in s :: EncodeSpace(s[ns])
  }

  predicate AllNormal(space: Space) {
    forall c :: c in space ==> Normal(space[c])
  }

  lemma SpaceRoundTrip(space: Space)
    requires Keyed(space)
    ensures Distinct(EncodeSpace(space)) && Stored(EncodeSpace(space)) == space.Keys
    ensures EncodeSpace(space).Keys == space.Keys && forall c :: c in space ==> EncodeSpace(space)[c].Cidr == c
    ensures forall c :: c in space ==> DecodeSpace(EncodeSpace(space))[c] == Normalised(space[c])
    ensures DecodeSpace(EncodeSpace(space)) == space <==> AllNormal(space)
  {
    var entries := EncodeSpace(space);
    forall c | c in space ensures c in Stored(entries) { assert entries[c].Cidr == c; }
    forall c | c in space
      ensures DecodeSpace(entries)[c] == Normalised(space[c])
      ensures Normalised(space[c]) == space[c] <==> Normal(space[c])
    {
      assert EntryOf(entries, c) == entries[c];
      RecordRoundTrip(space[c]);
    }
  }

  /** Writing a store and decoding the file gives the store back exactly if it has the default
      namespace and every record is normal. */
  lemma FileRoundTrip(s: Spaces)
    requires AllKeyed(s)
    ensures Decodable(Data(Encode(s)))
    ensures Decode(Data(Encode(s))) == s <==> DEFAULT_NAMESPACE in s && NormalSpaces(s)
  {
    var back := Decode(Data(Encode(s)));
    forall ns | ns in s
      ensures Distinct(Encode(s)[ns])
      ensures back[ns] == s[ns] <==> AllNormal(s[ns])
    {
      SpaceRoundTrip(s[ns]);
    }
    if back == s {
      assert DEFAULT_NAMESPACE in back;
      forall ns | ns in s ensures AllNormal(s[ns]) { assert back[ns] == s[ns]; }
    }
  }

  /** What the operations leave, in whatever runs, is read back from the file exactly. */
  lemma {:induction false} FileGivesBack(s: Spaces)
    requires DEFAULT_NAMESPACE in s && forall ns :: ns in s ==> exists qs :: s[ns] == ApplyAll(map[], qs)
    ensures Decode(Data(Encode(s))) == s
  {
    forall ns | ns in s ensures Keyed(s[ns]) && AllNormal(s[ns]) {
      var qs :| s[ns] == ApplyAll(map[], qs);
      RunsKeepGood(qs);
      forall c | c in s[ns] ensures s[ns][c].cidr == c && Normal(s[ns][c]) { assert GoodAt(s[ns], c); }
    }
    FileRoundTrip(s);
  }

  /** No two stores are written alike. */
  lemma FileInjective(s: Spaces, t: Spaces)
    requires Encode(s) == Encode(t)
    ensures s == t
  {
    forall ns | ns in s ensures ns in t && s[ns] == t[ns] {
      assert ns in Encode(t) && EncodeSpace(s[ns]) == EncodeSpace(t[ns]);
      forall c | c in s[ns] ensures c in t[ns] && s[ns][c] == t[ns][c] {
        assert c in EncodeSpace(t[ns]);
        EncodeInjective(s[ns][c], t[ns][c]);
      }
      forall c | c in t[ns] ensures c in s[ns] { assert c in EncodeSpace(s[ns]); }
    }
    forall ns | ns in t ensures ns in s { assert ns in Encode(s); }
  }

  /** The store while namespaces `done` have been cleared. */
  function Cleared(s: Spaces, done: set<Namespace>): Spaces {
    map ns | ns in s && (ns !in done || ns == DEFAULT_NAMESPACE) :: if ns in done then map[] else s[ns]
  }

  lemma ClearedNone(s: Spaces)
    ensures Cleared(s, {}) == s
  {
  }

  lemma ClearedMore(s: Spaces, done: set<Namespace>, ns: Namespace)
    requires ns in s
    ensures Cleared(s, done + {ns})
         == if ns == DEFAULT_NAMESPACE then Cleared(s, done)[ns := map[]] else Cleared(s, done) - {ns}
  {
  }

  lemma ClearedAll(s: Spaces, done: set<Namespace>)
    requires s.Keys <= done
    ensures Cleared(s, done) == if DEFAULT_NAMESPACE in s then map[DEFAULT_NAMESPACE := map[]] else map[]
  {
  }

  /** toPrefixJSON over the records read from one namespace. */
  method EncodeList(ps: seq<Prefix>, ghost vals: seq<Record>, ghost owned: set<object>, ghost space: Space)
    returns (entries: Entries)
    requires Snapshots(ps, vals, owned) && Lists(vals, space)
    ensures entries == EncodeSpace(space)
  {
    assert forall j :: 0 <= j < |vals| ==> vals[j].cidr in space && space[vals[j].cidr] == vals[j];
    ghost var done: Space := map[];
    entries := map[];
    for i := 0 to |ps|
      invariant entries == EncodeSpace(done)
      invariant forall c :: c in done ==> c in space && done[c] == space[c]
      invariant forall j :: 0 <= j < i ==> vals[j].cidr in done
    {
      var p := ps[i];
      EncodeMore(done, vals[i]);
      entries := entries[p.cidr := ToPrefixJson(p.Value())];
      done := With(done, vals[i]);
    }
    assert done == space;
  }

  lemma EncodeMore(space: Space, r: Record)
    ensures EncodeSpace(With(space, r)) == EncodeSpace(space)[r.cidr := ToPrefixJson(r)]
  {
  }

  predicate NormalSpaces(s: Spaces) {
    forall ns :: ns in s ==> AllNormal(s[ns])
  }

  class FileStore {
    const parent: Memory
    const disk: Disk
    var modTime: nat

    ghost predicate Valid()
      reads this, parent, disk
    {
      && parent.Valid() && disk.Valid() && modTime <= disk.clock
      && {this as object, disk} !! parent.Held
    }

    /** The remembered stamp is the file's. */
    predicate Current()
      reads this, disk
    {
      disk.stamp != 0 && disk.stamp == modTime
    }

    /** What a reload would leave alone is right: if the remembered stamp is the file's, the file
        parses and memory is its decoding. */
    ghost predicate Agrees()
      requires Valid()
      reads this, parent, parent.Held, disk
    {
      && DEFAULT_NAMESPACE in parent.View()
      && (Current() ==> Decodable(disk.content) && parent.View() == Decode(disk.content))
    }

    /** The next operation does not fail on the file: it looks at a file that decodes, or at none. */
    predicate Ready()
      reads this, disk
    {
      Current() || Decodable(disk.content)
    }

    /** The store the next operation acts on. */
    ghost function Seen(): Spaces
      requires Valid()
      reads this, parent, parent.Held, disk
    {
      if Current() then parent.View() else Fetched(DEFAULT_NAMESPACE in parent.View(), disk.content)
    }

    /** The file holds memory's content `s`, written by this store. */
    ghost predicate Written(s: Spaces)
      requires Valid()
      reads this, parent, parent.Held, disk
    {
      parent.View() == s && disk.content == Data(Encode(s)) && Current()
    }

    /** So written, file and memory agree exactly if the default namespace is there and all records
        are normal. */
    ghost predicate Saved(s: Spaces)
      requires Valid()
      reads this, parent, parent.Held, disk
    {
      Written(s) && (Agrees() <==> DEFAULT_NAMESPACE in s && NormalSpaces(s))
    }

    constructor (disk: Disk)
      requires disk.Valid()
      ensures Valid() && Agrees() && this.disk == disk && fresh(parent)
    {
      this.disk := disk;
      parent := new Memory();
      modTime := 0;
    }

    /** Clears one namespace, and removes it unless it is the default one. */
    method ClearNamespace(ns: Namespace)
      requires Valid() && ns in parent.View()
      modifies parent
      ensures Valid() && parent.Held <= old(parent.Held)
      ensures parent.View() == if ns == DEFAULT_NAMESPACE then old(parent.View())[ns := map[]]
          else old(parent.View()) - {ns}
    {
      ghost var was := parent.View();
      assert was[ns := map[]] - {ns} == was - {ns};
      parent.DeleteAllPrefixes(ns);
      if ns == DEFAULT_NAMESPACE {
        return;
      }
      var gone := parent.DeleteNamespace(ns);
    }

    /** Empties the in-memory store; the default namespace stays if it is there. */
    method ClearParent()
      requires Valid()
      modifies parent
      ensures Valid() && parent.Held <= old(parent.Held)
      ensures parent.View() == if DEFAULT_NAMESPACE in old(parent.View()) then map[DEFAULT_NAMESPACE := map[]]
          else map[]
    {
      ghost var was := parent.View();
      ghost var done: set<Namespace> := {};
      ClearedNone(was);
      var namespaces := parent.ListNamespaces();
      for i := 0 to |namespaces|
        invariant Valid() && parent.Held <= old(parent.Held)
        invariant parent.View() == Cleared(was, done)
        invariant forall j :: 0 <= j < |namespaces| ==> (namespaces[j] in done <==> j < i)
      {
        ClearedMore(was, done, namespaces[i]);
        ClearNamespace(namespaces[i]);
        done := done + {namespaces[i]};
      }
      ClearedAll(was, done);
    }

    method AddEntry(ns: Namespace, j: PrefixJson) returns (r: Result<(), Error>)
      requires Valid() && ns in parent.View()
      modifies parent
      ensures Valid() && forall o :: o in parent.Held ==> o in old(parent.Held) || fresh(o)
      ensures r.Ok? <==> j.Cidr !in old(parent.View())[ns]
      ensures r.Ok? ==> parent.View() == old(parent.View())[ns := With(old(parent.View())[ns], ToRecord(j))]
      ensures r.Err? ==> parent.View() == old(parent.View())
    {
      ghost var was, space := parent.View(), Create(parent.View()[ns], ToRecord(j));
      var p := ToPrefix(j);
      assert parent.View() == was;
      var made := parent.CreatePrefix(p, ns);
      match made {
        case Err(e) => return Err(e);
        case Ok(_) => return Ok(());
      }
    }

    /** One more prefix of a namespace. */
    method AddNext(ns: Namespace, entries: Entries, ghost done: Entries, k: Cidr, ghost was: Spaces)
      returns (r: Result<(), Error>)
      requires Valid() && k in entries && k !in done && done.Keys <= entries.Keys && Distinct(done)
      requires forall l :: l in done ==> done[l] == entries[l]
      requires parent.View() == was[ns := DecodeSpace(done)]
      modifies parent
      ensures Valid() && forall o :: o in parent.Held ==> o in old(parent.Held) || fresh(o)
      ensures r.Ok? ==>
                && Distinct(done[k := entries[k]])
                && parent.View() == was[ns := DecodeSpace(done[k := entries[k]])]
      ensures r.Err? ==> parent.View() == was[ns := DecodeSpace(done)] && DuplicateAfter(entries, done)
                         && !Distinct(entries)
    {
      r := AddEntry(ns, entries[k]);
      if r.Err? {
        DuplicateFound(entries, done, k);
        return;
      }
      OneMore(done, k, entries[k]);
      Overwrite(was, ns, DecodeSpace(done), With(DecodeSpace(done), ToRecord(entries[k])));
    }

    /** Creates one namespace of the file and its prefixes, in any order; `done` are those created. */
    method LoadNamespace(ns: Namespace, entries: Entries) returns (r: Result<(), Error>, ghost done: Entries)
      requires Valid() && (ns in parent.View() ==> parent.View()[ns] == map[])
      modifies parent
      ensures Valid() && forall o :: o in parent.Held ==> o in old(parent.Held) || fresh(o)
      ensures parent.View() == old(parent.View())[ns := DecodeSpace(done)]
      ensures r.Ok? <==> Distinct(entries)
      ensures r.Ok? ==> done == entries
      ensures r.Err? ==> DuplicateAfter(entries, done)
    {
      ghost var was := parent.View();
      parent.CreateNamespace(ns);
      var todo := entries.Keys;
      done := map[];
      assert parent.View() == was[ns := DecodeSpace(done)];
      while todo != {}
        invariant Valid() && forall o :: o in parent.Held ==> o in old(parent.Held) || fresh(o)
        invariant todo <= entries.Keys && done == entries - todo
        invariant Distinct(done) && parent.View() == was[ns := DecodeSpace(done)]
        decreases todo
      {
        var k :| k in todo;
        r := AddNext(ns, entries, done, k, was);
        if r.Err? {
          return;
        }
        OneLess(entries, todo, k);
        todo := todo - {k};
        done := entries - todo;
      }
      assert done == entries;
      return Ok(()), done;
    }

    /** One more namespace of the document. */
    method LoadNext(ghost hasDefault: bool, storage: FileData, ghost done: FileData, ns: Namespace)
      returns (r: Result<(), Error>, ghost more: FileData)
      requires Valid() && ns in storage && ns !in done && Decodable(Data(done)) && done.Keys <= storage.Keys
      requires forall m :: m in done ==> done[m] == storage[m]
      requires parent.View() == Fetched(hasDefault, Data(done))
      modifies parent
      ensures Valid() && forall o :: o in parent.Held ==> o in old(parent.Held) || fresh(o)
      ensures parent.View() == Fetched(hasDefault, Data(more))
      ensures r.Ok? ==> more == done[ns := storage[ns]] && Decodable(Data(more))
      ensures r.Err? ==> StoppedAt(storage, more) && !Decodable(Data(storage))
    {
      NamespaceAdded(hasDefault, done, ns, storage[ns]);
      ghost var part;
      r, part := LoadNamespace(ns, storage[ns]);
      more := done[ns := part];
      if r.Err? { StoppedIn(hasDefault, storage, done, ns, part); }
    }

    /** Creates the namespaces of the file, in any order; `done` is the part created. */
    method LoadAll(storage: FileData) returns (r: Result<(), Error>, ghost done: FileData)
      requires Valid() && parent.View() == Fetched(DEFAULT_NAMESPACE in parent.View(), Missing)
      modifies parent
      ensures Valid() && forall o :: o in parent.Held ==> o in old(parent.Held) || fresh(o)
      ensures parent.View() == Fetched(DEFAULT_NAMESPACE in old(parent.View()), Data(done))
      ensures r.Ok? <==> Decodable(Data(storage))
      ensures r.Ok? ==> done == storage
      ensures r.Err? ==> StoppedAt(storage, done)
    {
      ghost var hasDefault := DEFAULT_NAMESPACE in parent.View();
      var todo := storage.Keys;
      done := map[];
      assert parent.View() == Fetched(hasDefault, Data(done));
      while todo != {}
        invariant Valid() && forall o :: o in parent.Held ==> o in old(parent.Held) || fresh(o)
        invariant todo <= storage.Keys && done == storage - todo
        invariant Decodable(Data(done)) && parent.View() == Fetched(hasDefault, Data(done))
        decreases todo
      {
        var ns :| ns in todo;
        r, done := LoadNext(hasDefault, storage, done, ns);
        if r.Err? {
          return;
        }
        OneLess(storage, todo, ns);
        todo := todo - {ns};
      }
      assert done == storage;
      return Ok(()), done;
    }

    /** Replaces memory by the file's content. */
    method Fetch() returns (r: Result<(), Error>)
      requires Valid()
      modifies parent
      ensures Valid() && forall o :: o in parent.Held ==> o in old(parent.Held) || fresh(o)
      ensures r.Ok? <==> Decodable(disk.content)
      ensures r.Ok? ==> parent.View() == Fetched(DEFAULT_NAMESPACE in old(parent.View()), disk.content)
      ensures r.Err? ==> Stopped(old(parent.View()), disk.content, parent.View())
    {
      ghost var was := parent.View();
      if disk.content == Garbage {
        return Err(ErrParse);
      }
      ClearParent();
      assert parent.View() == Fetched(DEFAULT_NAMESPACE in was, Missing);
      FetchedSame(DEFAULT_NAMESPACE in was, disk.content);
      ghost var done;
      r, done := LoadAll(DataOf(disk.content));
    }

    /** Brings the in-memory store up to date with the file. The stamp is remembered before the
        content is parsed, so after a failure the file is not looked at again. */
    method Reload() returns (r: Result<(), Error>)
      requires Valid()
      modifies this, parent
      ensures Valid() && forall o :: o in parent.Held ==> o in old(parent.Held) || fresh(o)
      ensures r.Ok? <==> old(Ready())
      ensures r.Ok? ==> parent.View() == old(Seen()) && modTime == disk.stamp
      ensures r.Err? ==> Current() && Stopped(old(parent.View()), disk.content, parent.View())
      ensures old(Agrees()) ==> (r.Ok? <==> Decodable(disk.content)) && (Agrees() <==> r.Ok?)
      ensures old(Agrees()) && r.Ok? ==> parent.View() == Decode(disk.content)
    {
      if disk.stamp != 0 && disk.stamp == modTime {
        return Ok(());
      }
      ghost var was := parent.View();
      modTime := disk.stamp;
      assert parent.View() == was;
      r := Fetch();
    }

    method EncodeNamespace(ns: Namespace) returns (entries: Entries)
      requires Valid() && ns in parent.View()
      ensures entries == EncodeSpace(parent.View()[ns])
    {
      var ps, vals, owned := parent.ReadAllPrefixes(ns);
      entries := EncodeList(ps.value, vals, owned, parent.View()[ns]);
    }

    method EncodeAll() returns (storage: FileData)
      requires Valid()
      ensures storage == Encode(parent.View())
    {
      ghost var s := parent.View();
      var namespaces := parent.ListNamespaces();
      storage := map[];
      for i := 0 to |namespaces|
        invariant Valid() && parent.View() == s
        invariant forall ns :: ns in storage ==> ns in s && storage[ns] == EncodeSpace(s[ns])
        invariant forall j :: 0 <= j < i ==> namespaces[j] in storage
      {
        var entries := EncodeNamespace(namespaces[i]);
        storage := storage[namespaces[i] := entries];
      }
      assert forall ns :: ns in s ==> ns in storage;
      assert storage == Encode(s);
    }

    /** Writes the in-memory store to the file and remembers the new stamp. */
    method Persist()
      requires Valid()
      modifies this, disk
      ensures Valid() && Saved(old(parent.View()))
    {
      ghost var s := parent.View();
      var storage := EncodeAll();
      WriteOut(storage);
      FileRoundTrip(s);
    }

    /** Writes the document and remembers its stamp. */
    method WriteOut(storage: FileData)
      requires Valid()
      modifies this, disk
      ensures Valid() && parent.View() == old(parent.View()) && disk.content == Data(storage) && Current()
    {
      ghost var s := parent.View();
      disk.WriteFile(storage);
      assert parent.View() == s;
      modTime := disk.stamp;
      assert parent.View() == s;
    }

    /** CreatePrefix on the memory as it is, then persist. */
    method CreatePrefixNow(prefix: Prefix, ns: Namespace) returns (r: Result<Prefix, Error>)
      requires Valid()
      modifies this, parent, disk
      ensures Valid() && forall o :: o in parent.Held ==> o in old(parent.Held) || fresh(o)
      ensures match CreateIn(old(parent.View()), ns, old(prefix.Value()))
              case Ok(next) => r == Ok(prefix) && Saved(next)
              case Err(e) =>
                && r == Err(e)
                && Untouched(old(parent.View()), old(disk.content), old(modTime), old(disk.stamp))
    {
      r := parent.CreatePrefix(prefix, ns);
      if r.Err? {
        return;
      }
      Persist();
    }

    /** Memory, file and remembered stamp are as given. */
    ghost predicate Untouched(s: Spaces, content: Content, stamp: nat, fileStamp: nat)
      requires Valid()
      reads this, parent, parent.Held, disk
    {
      parent.View() == s && disk.content == content && modTime == stamp && disk.stamp == fileStamp
    }

    /** The operation failed on the file: it is left as it was, and memory is what the reload left. */
    ghost predicate FailedOn(s: Spaces, content: Content)
      requires Valid()
      reads this, parent, parent.Held, disk
    {
      disk.content == content && Current() && Stopped(s, content, parent.View())
    }

    method CreatePrefix(prefix: Prefix, ns: Namespace) returns (r: Result<Prefix, Error>)
      requires Valid()
      modifies this, parent, disk
      ensures Valid() && forall o :: o in parent.Held ==> o in old(parent.Held) || fresh(o)
      ensures !old(Ready()) ==> r.Err? && FailedOn(old(parent.View()), old(disk.content))
      ensures old(Ready()) ==>
                match CreateIn(old(Seen()), ns, old(prefix.Value()))
                case Ok(next) => r == Ok(prefix) && Saved(next)
                case Err(e) => r == Err(e) && parent.View() == old(Seen()) && disk.content == old(disk.content)
      ensures old(Ready()) ==> CreateAnswer(old(Seen()), ns, old(prefix.Value()), parent.View(), r)
      ensures old(Agrees()) && old(Ready()) ==> (Agrees() <==> r.Err? || Normal(old(prefix.Value())))
    {
      var ready := Reload();
      if ready.Err? {
        return Err(ready.error);
      }
      ghost var v := prefix.Value();
      ghost var s := parent.View();
      r := CreatePrefixNow(prefix, ns);
      CreateInAnswer(s, ns, v, parent.View(), r);
      if old(Agrees()) && r.Ok? { NormalCreated(old(disk.content), ns, v); }
    }

    /** UpdatePrefix on the memory as it is, then persist. */
    method UpdatePrefixNow(prefix: Prefix, ns: Namespace) returns (r: Result<Prefix, Error>)
      requires Valid()
      modifies this, parent, disk
      ensures Valid() && forall o :: o in parent.Held ==> o in old(parent.Held) || fresh(o)
      ensures match UpdateIn(old(parent.View()), ns, old(prefix.Value()))
              case Ok(next) => r == Ok(prefix.(version := prefix.version + 1)) && Saved(next)
              case Err(e) =>
                && r == Err(e)
                && Untouched(old(parent.View()), old(disk.content), old(modTime), old(disk.stamp))
    {
      r := parent.UpdatePrefix(prefix, ns);
      if r.Err? {
        return;
      }
      Persist();
    }

    method UpdatePrefix(prefix: Prefix, ns: Namespace) returns (r: Result<Prefix, Error>)
      requires Valid()
      modifies this, parent, disk
      ensures Valid() && forall o :: o in parent.Held ==> o in old(parent.Held) || fresh(o)
      ensures !old(Ready()) ==> r.Err? && FailedOn(old(parent.View()), old(disk.content))
      ensures old(Ready()) ==>
                match UpdateIn(old(Seen()), ns, old(prefix.Value()))
                case Ok(next) => r == Ok(prefix.(version := prefix.version + 1)) && Saved(next)
                case Err(e) => r == Err(e) && parent.View() == old(Seen()) && disk.content == old(disk.content)
      ensures old(Ready()) ==> UpdateAnswer(old(Seen()), ns, old(prefix.Value()), parent.View(), r)
      ensures old(Agrees()) && old(Ready()) ==> (Agrees() <==> r.Err? || Normal(old(prefix.Value())))
    {
      var ready := Reload();
      if ready.Err? {
        return Err(ready.error);
      }
      ghost var v := prefix.Value();
      ghost var s := parent.View();
      r := UpdatePrefixNow(prefix, ns);
      UpdateInAnswer(s, ns, v, parent.View(), r);
      if old(Agrees()) && r.Ok? { NormalUpdated(old(disk.content), ns, v); }
    }

    /** DeletePrefix on the memory as it is, then persist. */
    method DeletePrefixNow(prefix: Prefix, ns: Namespace) returns (r: Result<Prefix, Error>)
      requires Valid()
      modifies this, parent, disk
      ensures Valid() && forall o :: o in parent.Held ==> o in old(parent.Held) || fresh(o)
      ensures r.Err? ==> Untouched(old(parent.View()), old(disk.content), old(modTime), old(disk.stamp))
      ensures ns !in old(parent.View()) ==> r == Err(ErrNamespaceDoesNotExist)
      ensures ns in old(parent.View()) ==>
                && r.Ok? && r.value.Value() == prefix.Value() && fresh(r.value.Tables())
                && Saved(old(parent.View())[ns := Remove(old(parent.View())[ns], prefix.cidr)])
    {
      r := parent.DeletePrefix(prefix, ns);
      if r.Err? {
        return;
      }
      Persist();
    }

    method DeletePrefix(prefix: Prefix, ns: Namespace) returns (r: Result<Prefix, Error>)
      requires Valid()
      modifies this, parent, disk
      ensures Valid() && forall o :: o in parent.Held ==> o in old(parent.Held) || fresh(o)
      ensures !old(Ready()) ==> r.Err? && FailedOn(old(parent.View()), old(disk.content))
      ensures old(Ready()) ==>
                var s := old(Seen());
                && (r.Err? ==> parent.View() == s && disk.content == old(disk.content))
                && (ns !in s ==> r == Err(ErrNamespaceDoesNotExist))
                && (ns in s ==>
                      && r.Ok? && r.value.Value() == prefix.Value() && fresh(r.value.Tables())
                      && Saved(s[ns := Remove(s[ns], prefix.cidr)]))
      ensures old(Agrees()) && old(Ready()) ==> Agrees()
    {
      var ready := Reload();
      if ready.Err? {
        return Err(ready.error);
      }
      r := DeletePrefixNow(prefix, ns);
      if old(Agrees()) && r.Ok? {
        NormalFrom(old(disk.content));
        NormalWithout(Decode(old(disk.content)), ns, prefix.cidr);
      }
    }

    method ReadPrefix(cidr: Cidr, ns: Namespace) returns (r: Result<Prefix, Error>)
      requires Valid()
      modifies this, parent
      ensures Valid() && forall o :: o in parent.Held ==> o in old(parent.Held) || fresh(o)
      ensures !old(Ready()) ==> r.Err? && FailedOn(old(parent.View()), old(disk.content))
      ensures old(Ready()) ==>
                var s := old(Seen());
                && parent.View() == s
                && if ns !in s then r == Err(ErrNamespaceDoesNotExist)
                   else if cidr !in s[ns] then r == Err(ErrNotFound)
                   else r.Ok? && r.value.Value() == s[ns][cidr] && fresh(r.value.Tables())
      ensures old(Agrees()) && old(Ready()) ==> Agrees()
    {
      var ready := Reload();
      if ready.Err? {
        return Err(ready.error);
      }
      r := parent.ReadPrefix(cidr, ns);
    }

    method ReadAllPrefixes(ns: Namespace)
      returns (r: Result<seq<Prefix>, Error>, ghost vals: seq<Record>, ghost owned: set<object>)
      requires Valid()
      modifies this, parent
      ensures Valid() && forall o :: o in parent.Held ==> o in old(parent.Held) || fresh(o)
      ensures !old(Ready()) ==> r.Err? && FailedOn(old(parent.View()), old(disk.content))
      ensures fresh(owned)
      ensures old(Ready()) ==>
                var s := old(Seen());
                && parent.View() == s
                && if ns !in s then r == Err(ErrNamespaceDoesNotExist)
                   else r.Ok? && Snapshots(r.value, vals, owned) && Lists(vals, s[ns])
      ensures old(Agrees()) && old(Ready()) ==> Agrees()
    {
      var ready := Reload();
      if ready.Err? {
        return Err(ready.error), [], {};
      }
      r, vals, owned := parent.ReadAllPrefixes(ns);
    }

    method ReadAllPrefixCidrs(ns: Namespace) returns (r: Result<seq<Cidr>, Error>)
      requires Valid()
      modifies this, parent
      ensures Valid() && forall o :: o in parent.Held ==> o in old(parent.Held) || fresh(o)
      ensures !old(Ready()) ==> r.Err? && FailedOn(old(parent.View()), old(disk.content))
      ensures old(Ready()) ==>
                var s := old(Seen());
                && parent.View() == s
                && if ns !in s then r == Err(ErrNamespaceDoesNotExist)
                   else r.Ok? && forall c :: c in r.value <==> c in s[ns]
      ensures r.Ok? ==> forall i, j :: 0 <= i < j < |r.value| ==> r.value[i] != r.value[j]
      ensures old(Agrees()) && old(Ready()) ==> Agrees()
    {
      var ready := Reload();
      if ready.Err? {
        return Err(ready.error);
      }
      r := parent.ReadAllPrefixCidrs(ns);
    }

    method ListNamespaces() returns (r: Result<seq<Namespace>, Error>)
      requires Valid()
      modifies this, parent
      ensures Valid() && forall o :: o in parent.Held ==> o in old(parent.Held) || fresh(o)
      ensures !old(Ready()) ==> r.Err? && FailedOn(old(parent.View()), old(disk.content))
      ensures old(Ready()) ==>
                parent.View() == old(Seen()) && r.Ok? && forall ns :: ns in r.value <==> ns in old(Seen())
      ensures r.Ok? ==> forall i, j :: 0 <= i < j < |r.value| ==> r.value[i] != r.value[j]
      ensures old(Agrees()) && old(Ready()) ==> Agrees()
    {
      var ready := Reload();
      if ready.Err? {
        return Err(ready.error);
      }
      var names := parent.ListNamespaces();
      return Ok(names);
    }

    method DeleteAllPrefixes(ns: Namespace) returns (r: Result<(), Error>)
      requires Valid()
      modifies this, parent, disk
      ensures Valid() && forall o :: o in parent.Held ==> o in old(parent.Held) || fresh(o)
      ensures !old(Ready()) ==> r.Err? && FailedOn(old(parent.View()), old(disk.content))
      ensures old(Ready()) ==> r.Ok? && Saved(old(Seen())[ns := map[]])
      ensures old(Agrees()) && old(Ready()) ==> Agrees()
    {
      r := Reload();
      if r.Err? {
        return;
      }
      parent.DeleteAllPrefixes(ns);
      Persist();
      if old(Agrees()) {
        NormalFrom(old(disk.content));
        NormalEmpty(Decode(old(disk.content)), ns);
      }
    }

    method CreateNamespace(ns: Namespace) returns (r: Result<(), Error>)
      requires Valid()
      modifies this, parent, disk
      ensures Valid() && forall o :: o in parent.Held ==> o in old(parent.Held) || fresh(o)
      ensures !old(Ready()) ==> r.Err? && FailedOn(old(parent.View()), old(disk.content))
      ensures old(Ready()) ==>
                var s := old(Seen());
                r.Ok? && Saved(if ns in s then s else s[ns := map[]])
      ensures old(Agrees()) && old(Ready()) ==> Agrees()
    {
      r := Reload();
      if r.Err? {
        return;
      }
      parent.CreateNamespace(ns);
      Persist();
      if old(Agrees()) {
        NormalFrom(old(disk.content));
        NormalEmpty(Decode(old(disk.content)), ns);
      }
    }

    /** Another program rewrites the file between two operations: the next one will notice. */
    method Rewritten(next: Content)
      requires Valid()
      modifies disk
      ensures Valid() && !Current() && (Agrees() <==> DEFAULT_NAMESPACE in parent.View())
      ensures disk.content == next && parent.View() == old(parent.View())
    {
      ghost var s := parent.View();
      disk.ExternalChange(next);
      assert parent.View() == s;
    }

    /** Deleting the default namespace is what the store does not survive in agreement. */
    method DeleteNamespace(ns: Namespace) returns (r: Result<(), Error>)
      requires Valid()
      modifies this, parent, disk
      ensures Valid() && forall o :: o in parent.Held ==> o in old(parent.Held) || fresh(o)
      ensures !old(Ready()) ==> r.Err? && FailedOn(old(parent.View()), old(disk.content))
      ensures old(Ready()) ==>
                var s := old(Seen());
                if ns in s then r.Ok? && Saved(s - {ns})
                else r == Err(ErrNamespaceDoesNotExist) && parent.View() == s && disk.content == old(disk.content)
      ensures old(Agrees()) && old(Ready()) ==> (Agrees() <==> r.Err? || ns != DEFAULT_NAMESPACE)
    {
      r := Reload();
      if r.Err? {
        return;
      }
      r := parent.DeleteNamespace(ns);
      if r.Err? {
        return;
      }
      Persist();
      if old(Agrees()) {
        NormalFrom(old(disk.content));
        NormalEmpty(Decode(old(disk.content)), ns);
      }
    }
  }

  /** A file that does not decode is reported once. The next operation acts on what the failed reload
      left in memory, the old store or a part of the file, and a write replaces the file by it. */
  method UnreadableFileIsReplaced(f: FileStore, prefix: Prefix, ns: Namespace)
      returns (first: Result<Prefix, Error>, second: Result<Prefix, Error>, ghost left: Spaces)
    requires f.Valid() && !f.Ready()
    modifies f, f.parent, f.disk
    ensures f.Valid() && first.Err? && Stopped(old(f.parent.View()), old(f.disk.content), left)
    ensures if ns in left && prefix.cidr !in left[ns]
            then second.Ok? && f.Written(left[ns := With(left[ns], prefix.Value())])
            else second.Err? && f.disk.content == old(f.disk.content)
  {
    first := f.CreatePrefix(prefix, ns);
    left := f.parent.View();
    second := f.CreatePrefix(prefix, ns);
  }

  /** Decoded stores have the default namespace and normal records only. */
  lemma NormalFrom(content: Content)
    ensures DEFAULT_NAMESPACE in Decode(content) && NormalSpaces(Decode(content))
  {
  }

  lemma NormalWith(s: Spaces, ns: Namespace, r: Record)
    requires ns in s && NormalSpaces(s)
    ensures NormalSpaces(s[ns := With(s[ns], r)]) <==> Normal(r)
  {
    var after := s[ns := With(s[ns], r)];
    assert after[ns][r.cidr] == r;
    if Normal(r) {
      forall m | m in after ensures AllNormal(after[m]) { assert AllNormal(s[m]); }
    } else {
      assert !AllNormal(after[ns]);
    }
  }

  lemma NormalAfter(content: Content, ns: Namespace, r: Record)
    requires ns in Decode(content)
    ensures var next := Decode(content)[ns := With(Decode(content)[ns], r)];
            DEFAULT_NAMESPACE in next && (NormalSpaces(next) <==> Normal(r))
  {
    NormalFrom(content);
    NormalWith(Decode(content), ns, r);
  }

  lemma NormalCreated(content: Content, ns: Namespace, r: Record)
    requires CreateIn(Decode(content), ns, r).Ok?
    ensures var next := CreateIn(Decode(content), ns, r).value;
            DEFAULT_NAMESPACE in next && (NormalSpaces(next) <==> Normal(r))
  {
    NormalAfter(content, ns, r);
  }

  lemma NormalUpdated(content: Content, ns: Namespace, r: Record)
    requires UpdateIn(Decode(content), ns, r).Ok?
    ensures var next := UpdateIn(Decode(content), ns, r).value;
            DEFAULT_NAMESPACE in next && (NormalSpaces(next) <==> Normal(r))
  {
    NormalAfter(content, ns, Bump(r));
  }

  lemma NormalEmpty(s: Spaces, ns: Namespace)
    requires NormalSpaces(s)
    ensures NormalSpaces(s[ns := map[]]) && NormalSpaces(s - {ns})
  {
  }

  lemma NormalWithout(s: Spaces, ns: Namespace, c: Cidr)
    requires ns in s && NormalSpaces(s)
    ensures NormalSpaces(s[ns := Remove(s[ns], c)])
  {
    assert AllNormal(s[ns]);
  }

  lemma DuplicateFound(entries: Entries, done: Entries, k: Cidr)
    requires done.Keys <= entries.Keys && forall l :: l in done ==> done[l] == entries[l]
    requires Distinct(done) && k in entries && k !in done && entries[k].Cidr in Stored(done)
    ensures DuplicateAfter(entries, done) && !Distinct(entries)
  {
    var l :| l in done && done[l].Cidr == entries[k].Cidr;
    assert l != k;
  }

  lemma FetchedSame(hasDefault: bool, content: Content)
    requires content != Garbage
    ensures Fetched(hasDefault, Data(DataOf(content))) == Fetched(hasDefault, content)
    ensures Decodable(Data(DataOf(content))) == Decodable(content)
    ensures !content.Data? ==> Decodable(content)
  {
  }

  lemma StoppedIn(hasDefault: bool, storage: FileData, done: FileData, ns: Namespace, part: Entries)
    requires ns in storage && ns !in done && DuplicateAfter(storage[ns], part) && Decodable(Data(done))
    requires done.Keys <= storage.Keys && forall m :: m in done ==> done[m] == storage[m]
    ensures StoppedAt(storage, done[ns := part]) && !Decodable(Data(storage))
    ensures Fetched(hasDefault, Data(done[ns := part])) == Fetched(hasDefault, Data(done))[ns := DecodeSpace(part)]
  {
    var more := done[ns := part];
    assert ns in more && DuplicateAfter(storage[ns], more[ns]);
    forall m | m in more && m != ns ensures more[m] == storage[m] && Distinct(more[m]) {
      assert m in DataOf(Data(done));
    }
    DuplicateIsNotDistinct(storage[ns], part);
    assert ns in DataOf(Data(storage));
    NamespaceAdded(hasDefault, done, ns, part);
  }

  lemma DuplicateIsNotDistinct(entries: Entries, part: Entries)
    requires DuplicateAfter(entries, part)
    ensures !Distinct(entries)
  {
    var k :| k in entries && k !in part && entries[k].Cidr in Stored(part);
    DuplicateFound(entries, part, k);
  }

  lemma OneMore(done: Entries, k: Cidr, j: PrefixJson)
    requires Distinct(done) && k !in done && j.Cidr !in Stored(done)
    ensures Distinct(done[k := j])
    ensures DecodeSpace(done[k := j]) == With(DecodeSpace(done), ToRecord(j))
  {
    var more := done[k := j];
    forall c
      ensures c in Stored(more) <==> c in Stored(done) || c == j.Cidr
    {
      if c in Stored(done) { var l :| l in done && done[l].Cidr == c; assert more[l].Cidr == c; }
      assert more[k].Cidr == j.Cidr;
    }
    forall c | c in Stored(done)
      ensures EntryOf(more, c) == EntryOf(done, c)
    {
      var l :| l in done && done[l].Cidr == c;
      assert more[l] == done[l];
    }
    assert EntryOf(more, j.Cidr) == j;
  }

  lemma NamespaceAdded(hasDefault: bool, data: FileData, ns: Namespace, entries: Entries)
    requires ns !in data
    ensures Fetched(hasDefault, Data(data[ns := entries]))
         == Fetched(hasDefault, Data(data))[ns := DecodeSpace(entries)]
    ensures ns in Fetched(hasDefault, Data(data)) ==> Fetched(hasDefault, Data(data))[ns] == map[]
  {
  }
}
