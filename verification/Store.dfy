/** The store as a value: namespaces of records keyed by their prefix, with the conditional update. */
module Store {
  import opened Wrappers
  import opened Cidrs
  import opened Records

  type Namespace = string
  type Space = map<Cidr, Record>
  type Spaces = map<Namespace, Space>

  const DEFAULT_NAMESPACE: Namespace := "root"

  predicate Keyed(space: Space) {
    forall c :: c in space ==> space[c].cidr == c
  }

  predicate AllKeyed(s: Spaces) {
    forall ns :: ns in s ==> Keyed(s[ns])
  }

  function With(space: Space, r: Record): Space {
    space[r.cidr := r]
  }

  function Create(space: Space, r: Record): Result<Space, Error> {
    if r.cidr in space then Err(ErrAlreadyCreated) else Ok(With(space, r))
  }

  function Bump(r: Record): Record {
    r.(version := r.version + 1)
  }

  /** Replace a record if the caller's snapshot still has the stored version. */
  function Update(space: Space, r: Record): Result<Space, Error> {
    if r.cidr !in space then Err(ErrPrefixMissing)
    else if space[r.cidr].version != r.version then Err(ErrOptimisticLock)
    else Ok(With(space, Bump(r)))
  }

  function Remove(space: Space, c: Cidr): Space {
    space - {c}
  }

  /** Create and Update on one namespace of many. */
  function CreateIn(s: Spaces, ns: Namespace, r: Record): Result<Spaces, Error> {
    if ns !in s then Err(ErrNamespaceDoesNotExist)
    else match Create(s[ns], r) case Ok(space) => Ok(s[ns := space]) case Err(e) => Err(e)
  }

  function UpdateIn(s: Spaces, ns: Namespace, r: Record): Result<Spaces, Error> {
    if ns !in s then Err(ErrNamespaceDoesNotExist)
    else match Update(s[ns], r) case Ok(space) => Ok(s[ns := space]) case Err(e) => Err(e)
  }

  lemma Overwrite(s: Spaces, ns: Namespace, first: Space, second: Space)
    ensures s[ns := first][ns := second] == s[ns := second]
    ensures ns in s ==> s[ns := s[ns]] == s
  {
  }

  lemma OneLess<K, V>(m: map<K, V>, todo: set<K>, k: K)
    requires todo <= m.Keys && k in todo
    ensures m - (todo - {k}) == (m - todo)[k := m[k]]
  {
  }

  /** `rs` lists the records of `space`, each once, in some order. */
  ghost predicate Lists(rs: seq<Record>, space: Space) {
    && (forall i :: 0 <= i < |rs| ==> rs[i].cidr in space && space[rs[i].cidr] == rs[i])
    && (forall i, j :: 0 <= i < j < |rs| ==> rs[i].cidr != rs[j].cidr)
    && (forall c :: c in space ==> exists i :: 0 <= i < |rs| && rs[i].cidr == c)
  }

  lemma ListsAppend(rs: seq<Record>, space: Space, r: Record)
    requires Lists(rs, space) && r.cidr !in space
    ensures Lists(rs + [r], space[r.cidr := r])
  {
    var rs', space' := rs + [r], space[r.cidr := r];
    forall c | c in space'
      ensures exists i :: 0 <= i < |rs'| && rs'[i].cidr == c
    {
      if c == r.cidr {
        assert rs'[|rs|].cidr == c;
      } else {
        var i :| 0 <= i < |rs| && rs[i].cidr == c;
        assert rs'[i].cidr == c;
      }
    }
  }

  lemma ListsUnique(rs: seq<Record>, a: Space, b: Space)
    requires Lists(rs, a) && Lists(rs, b)
    ensures a == b
  {
    assert forall c :: c in a ==> c in b;
    assert forall c :: c in b ==> c in a;
  }

  lemma ListsEmpty(rs: seq<Record>, space: Space)
    requires Lists(rs, space)
    ensures |rs| == 0 <==> space == map[]
  {
    if |rs| > 0 { assert rs[0].cidr in space; }
  }

  /** A conditional update succeeds exactly on an unchanged version, and changes that record only. */
  lemma UpdateExact(space: Space, r: Record)
    ensures Update(space, r).Ok? <==> r.cidr in space && space[r.cidr].version == r.version
    ensures Update(space, r) == Err(ErrOptimisticLock) <==> r.cidr in space && space[r.cidr].version != r.version
    ensures Update(space, r).Ok? ==>
              var after := Update(space, r).value;
              && after.Keys == space.Keys && after[r.cidr].version == space[r.cidr].version + 1
              && after[r.cidr] == r.(version := after[r.cidr].version)
              && forall c :: c in space && c != r.cidr ==> after[c] == space[c]
  {
  }
}
