/** Category records of the bridge authors (`key_bridge_authors` of the
    problem-categories dataset), their normalised form and the domain badges
    the modal shows for them. */
module Categories {
  import opened Text

  /** A record as loaded: `bridges` and `works` may be absent. */
  datatype RawCategory = RawCategory(primary: string, bridges: Option<seq<string>>, works: Option<seq<string>>)

  /** The normalised record the modal works with. */
  datatype CategoryData = CategoryData(primary: string, bridges: seq<string>, works: seq<string>)

  /** The category dataset in `Object.entries` order. */
  type Entries = seq<(string, RawCategory)>

  /** An object has each key once. */
  predicate UniqueKeys(entries: Entries) {
    forall i, j :: 0 <= i < j < |entries| ==> entries[i].0 != entries[j].0
  }

  predicate HasKey(entries: Entries, key: string) {
    exists i :: 0 <= i < |entries| && entries[i].0 == key
  }

  /** `{primary, bridges: bridges || [], works: works || []}` */
  function Normalize(raw: RawCategory): (c: CategoryData)
    ensures c.primary == raw.primary
    ensures raw.bridges.Some? ==> c.bridges == raw.bridges.value
    ensures raw.bridges.None? ==> c.bridges == []
    ensures raw.works.Some? ==> c.works == raw.works.value
    ensures raw.works.None? ==> c.works == []
  {
    CategoryData(raw.primary, raw.bridges.GetOr([]), raw.works.GetOr([]))
  }

  /** `findAuthorCategory`: the normalised record stored under `key`, or none
      when the dataset has no such key. */
  function FindAuthorCategory(entries: Entries, key: string): (r: Option<CategoryData>)
    ensures r.None? <==> !HasKey(entries, key)
    ensures UniqueKeys(entries) ==>
      forall i :: 0 <= i < |entries| && entries[i].0 == key ==> r == Some(Normalize(entries[i].1))
  {
    if entries == [] then None
    else if entries[0].0 == key then Some(Normalize(entries[0].1))
    else
      var r := FindAuthorCategory(entries[1..], key);
      assert forall i :: 1 <= i < |entries| ==> entries[i] == entries[1..][i - 1];
      assert HasKey(entries[1..], key) ==> HasKey(entries, key);
      r
  }

  datatype DomainKind = Primary | Bridge

  /** One badge of the modal's domain list. */
  datatype Domain = Domain(name: string, kind: DomainKind)

  function BridgeDomains(bridges: seq<string>): (r: seq<Domain>)
    ensures |r| == |bridges|
    ensures forall i :: 0 <= i < |bridges| ==> r[i] == Domain(bridges[i], Bridge)
  {
    if bridges == [] then []
    else [Domain(bridges[0], Bridge)] + BridgeDomains(bridges[1..])
  }

  /** The domain list of `populateDomains`: the primary label first, then
      every bridge label in order, duplicates kept. */
  function Domains(c: CategoryData): (r: seq<Domain>)
    ensures |r| == 1 + |c.bridges|
    ensures r[0] == Domain(c.primary, Primary)
    ensures forall i :: 0 <= i < |c.bridges| ==> r[i + 1] == Domain(c.bridges[i], Bridge)
    ensures forall i :: 1 <= i < |r| ==> r[i].kind == Bridge
  {
    [Domain(c.primary, Primary)] + BridgeDomains(c.bridges)
  }
}
