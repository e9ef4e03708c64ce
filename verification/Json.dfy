/** Records as JSON objects: encode, decode with the legacy rule, and the loops over lists. */
module Json {
  import opened Wrappers
  import opened Cidrs
  import opened Records
  import opened Memory

  datatype PrefixJson = PrefixJson(Cidr: Cidr, ParentCidr: Option<Cidr>, AvailableChildPrefixes: map<Cidr, bool>,
                                   ChildPrefixLength: int, IsParent: bool, IPs: set<Addr>, Version: int)

  function ToPrefixJson(r: Record): PrefixJson {
    PrefixJson(r.cidr, r.parentCidr, r.children, r.childPrefixLength, r.isParent, r.ips, r.version)
  }

  /** Legacy rule: a record with a child prefix length is a parent. */
  function ToRecord(j: PrefixJson): Record {
    Record(j.Cidr, j.ParentCidr, j.IsParent || j.ChildPrefixLength > 0, j.AvailableChildPrefixes,
           j.ChildPrefixLength, j.IPs, j.Version)
  }

  function Encoded(rs: seq<Record>): seq<PrefixJson> {
    seq(|rs|, i requires 0 <= i < |rs| => ToPrefixJson(rs[i]))
  }

  function Decoded(js: seq<PrefixJson>): seq<Record> {
    seq(|js|, i requires 0 <= i < |js| => ToRecord(js[i]))
  }

  /** What one encode and decode makes of a record. */
  function Normalised(r: Record): Record {
    ToRecord(ToPrefixJson(r))
  }

  /** Decoding an encoded record gives it back exactly if it is normal; otherwise only isParent is set.
      Normalising twice is normalising once. */
  lemma RecordRoundTrip(r: Record)
    ensures Normalised(r) == r <==> Normal(r)
    ensures !Normal(r) ==> Normalised(r) == r.(isParent := true)
    ensures Normalised(Normalised(r)) == Normalised(r)
  {
  }

  /** Nothing is lost by encoding: equal objects come from equal records. */
  lemma EncodeInjective(r: Record, q: Record)
    ensures ToPrefixJson(r) == ToPrefixJson(q) ==> r == q
  {
  }

  method ToJson(ps: seq<Prefix>, ghost vals: seq<Record>, ghost owned: set<object>) returns (js: seq<PrefixJson>)
    requires Snapshots(ps, vals, owned)
    ensures js == Encoded(vals)
  {
    js := [];
    for i := 0 to |ps|
      invariant js == Encoded(vals)[..i]
    {
      js := js + [ToPrefixJson(ps[i].Value())];
    }
  }

  /** toPrefix on a freshly unmarshalled object: its maps are new tables. */
  method ToPrefix(j: PrefixJson) returns (p: Prefix)
    ensures fresh(p.Tables()) && p.Value() == ToRecord(j)
  {
    var isParent := j.IsParent;
    if j.ChildPrefixLength > 0 {
      isParent := true;
    }
    var children := new ChildTable(j.AvailableChildPrefixes);
    var ips := new AddrTable(j.IPs);
    p := Prefix(j.Cidr, j.ParentCidr, isParent, children, j.ChildPrefixLength, ips, j.Version);
  }

  method FromJsons(js: seq<PrefixJson>) returns (ps: seq<Prefix>, ghost owned: set<object>)
    ensures fresh(owned) && Snapshots(ps, Decoded(js), owned)
  {
    ps, owned := [], {};
    for i := 0 to |js|
      invariant fresh(owned) && Snapshots(ps, Decoded(js)[..i], owned)
    {
      var p := ToPrefix(js[i]);
      ps, owned := ps + [p], owned + p.Tables();
    }
    assert Decoded(js)[..|js|] == Decoded(js);
  }
}
