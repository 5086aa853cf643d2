/** The label a PersistentVolume gets, and how it agrees with the StorageClass match. */
module PersistentVolumes {
  import opened Common
  import opened Matching

  const SYSTEM_LABEL: string := "odf-fs-storage-system"

  /** A claim and a handle are what a volume's address is computed from; `claim` is
      None for a nil claim reference. */
  datatype Volume = Volume(claim: Option<NsName>, handle: string)

  /** Claims name their class, or have a nil class name. */
  datatype Volumes = Volumes(view: View, claims: map<NsName, Option<string>>, classes: map<string, StorageClass>)

  /** The parts of a text between colons. */
  function Split(s: string): (parts: seq<string>)
    ensures |parts| >= 1
  {
    if s == [] then [[]]
    else
      var rest := Split(s[1..]);
      if s[0] == ':' then [[]] + rest else [[s[0]] + rest[0]] + rest[1..]
  }

  /** The system id of a volume handle such as `SVC:id:uid` is its second part. */
  lemma {:induction false} HandleNamesItsSystem(head: string, id: string, tail: string)
    requires ':' !in head && ':' !in id
    ensures Split(head + ":" + id + ":" + tail)[1..] == [id] + Split(tail)
    decreases |head| + |id|
  {
    var s := head + ":" + id + ":" + tail;
    if head == [] {
      SplitAtColon(id, tail);
      assert s[1..] == id + ":" + tail;
    } else {
      HandleNamesItsSystem(head[1..], id, tail);
      assert s[1..] == head[1..] + ":" + id + ":" + tail;
    }
  }

  lemma {:induction false} SplitAtColon(id: string, tail: string)
    requires ':' !in id
    ensures Split(id + ":" + tail) == [id] + Split(tail)
  {
    var s := id + ":" + tail;
    if id == [] {
      assert s[1..] == tail;
    } else {
      SplitAtColon(id[1..], tail);
      assert s[1..] == id[1..] + ":" + tail;
      assert [id[0]] + id[1..] == id;
    }
  }

  lemma {:induction false} PartsHaveNoColon(s: string, i: nat)
    requires i < |Split(s)|
    ensures ':' !in Split(s)[i]
  {
    if s != [] {
      var rest := Split(s[1..]);
      if s[0] == ':' {
        if i > 0 { PartsHaveNoColon(s[1..], i - 1); }
      } else {
        PartsHaveNoColon(s[1..], i);
      }
    }
  }

  function ClassOf(x: Volumes, pv: Volume): Result<StorageClass> {
    if pv.claim.None? then Err(Panic)
    else if pv.claim.value !in x.claims then Err(ObjectMissing)
    else if x.claims[pv.claim.value].None? then Err(Panic)
    else if x.claims[pv.claim.value].value !in x.classes then Err(ObjectMissing)
    else Ok(x.classes[x.claims[pv.claim.value].value])
  }

  /** The volume's claim names the class. */
  ghost predicate OfClass(x: Volumes, pv: Volume, sc: StorageClass) {
    && pv.claim.Some? && pv.claim.value in x.claims
    && exists c :: x.claims[pv.claim.value] == Some(c) && c in x.classes && x.classes[c] == sc
  }

  /** The lookup of a volume's class: by its claim's class name, failing if the claim or the
      class is missing. */
  lemma ClassOfExact(x: Volumes, pv: Volume, sc: StorageClass)
    ensures ClassOf(x, pv) == Ok(sc) <==> OfClass(x, pv, sc)
    ensures pv.claim.Some? && pv.claim.value !in x.claims ==> ClassOf(x, pv) == Err(ObjectMissing)
    ensures pv.claim.Some? && pv.claim.value in x.claims ==>
      forall c | x.claims[pv.claim.value] == Some(c) && c !in x.classes :: ClassOf(x, pv) == Err(ObjectMissing)
  {
  }

  /** The address a topology secret gives the system a handle names. */
  function HandleAddress(secret: Secret, handle: string): Result<string> {
    var ids := AsObject(secret.config);
    if ids.None? then Err(BadJson)
    else if |Split(handle)| < 2 then Err(BadHandle)
    else if Split(handle)[1] !in ids.value then Err(UnknownId)
    else
      var address := IdAddress(ids.value[Split(handle)[1]]);
      if address.None? then Err(Panic) else Ok(address.value)
  }

  function ManagementAddress(x: Volumes, pv: Volume): Result<string> {
    var sc := ClassOf(x, pv);
    if sc.Err? then Err(sc.why)
    else
      var secret := ClassSecret(x.view, sc.value);
      if secret.Err? then Err(secret.why)
      else if sc.value.byMgmtId.Some? then HandleAddress(secret.value, pv.handle)
      else Ok(AddressOf(secret.value))
  }

  /** The volume's address, where there is one: of the class's secret for a regular class, and
      for a topology class the one its secret gives the second part of the handle. */
  ghost predicate AddressIs(x: Volumes, pv: Volume, sc: StorageClass, n: NsName, a: string) {
    && OfClass(x, pv, sc) && Names(sc, n) && n in x.view.secrets
    && var s := x.view.secrets[n];
       if sc.byMgmtId.None? then a == if s.address.Some? then s.address.value else ""
       else Table(s.config) && |Split(pv.handle)| >= 2
            && Split(pv.handle)[1] in Rows(s.config) && HasAddress(Rows(s.config)[Split(pv.handle)[1]], a)
  }

  /** In all other cases the address cannot be determined, and with it the label. */
  lemma AddressExact(x: Volumes, pv: Volume, a: string)
    ensures ManagementAddress(x, pv) == Ok(a) <==> exists sc, n :: AddressIs(x, pv, sc, n, a)
    ensures (forall a' :: ManagementAddress(x, pv) != Ok(a')) ==> LabelOf(x, pv).Err?
  {
    forall sc ensures ClassOf(x, pv) == Ok(sc) <==> OfClass(x, pv, sc) { ClassOfExact(x, pv, sc); }
    if ClassOf(x, pv).Ok? {
      var sc := ClassOf(x, pv).value;
      forall n ensures Names(sc, n) <==> ClassSecretName(sc) == Some(n) { }
      if ManagementAddress(x, pv) == Ok(a) { assert AddressIs(x, pv, sc, ClassSecretName(sc).value, a); }
    }
    if ManagementAddress(x, pv).Ok? { assert ManagementAddress(x, pv) == Ok(ManagementAddress(x, pv).value); }
  }

  /** The cluster whose name the label carries, if any. */
  function LabelOf(x: Volumes, pv: Volume): Result<Option<string>> {
    var address := ManagementAddress(x, pv);
    if address.Err? then Err(address.why)
    else
      var index := Index(x.view);
      if index.Err? then Err(index.why)
      else Ok(if address.value in index.value then Some(index.value[address.value].name) else None)
  }

  datatype Written = Unchanged | Updated | Refused | Failed(why: Why)

  class PersistentVolume {
    const volume: Volume
    var labels: map<string, string>

    constructor (volume: Volume, labels: map<string, string>)
      ensures this.volume == volume && this.labels == labels
    {
      this.volume, this.labels := volume, labels;
    }

    /** Brings the system label in line with the index and touches no other label; an
        Update is sent exactly when that changes something. */
    method EnsureStorageSystemLabel(x: Volumes, accepted: bool) returns (r: Written)
      modifies this
      ensures LabelOf(x, volume).Err? ==> r == Failed(LabelOf(x, volume).why) && labels == old(labels)
      ensures LabelOf(x, volume).Ok? ==>
        && labels - {SYSTEM_LABEL} == old(labels) - {SYSTEM_LABEL}
        && (match LabelOf(x, volume).value
            case Some(f) => SYSTEM_LABEL in labels && labels[SYSTEM_LABEL] == f
            case None => SYSTEM_LABEL !in labels)
        && r == (if labels == old(labels) then Unchanged else if accepted then Updated else Refused)
    {
      var address := ManagementAddress(x, volume);
      if address.Err? { return Failed(address.why); }
      var index := MapClustersByMgmtAddress(x.view);
      if index.Err? { return Failed(index.why); }
      var was := labels;
      if address.value !in index.value {
        if SYSTEM_LABEL !in labels { return Unchanged; }
        labels := labels - {SYSTEM_LABEL};
        assert SYSTEM_LABEL in was && SYSTEM_LABEL !in labels;
      } else {
        var f := index.value[address.value].name;
        if SYSTEM_LABEL in labels && labels[SYSTEM_LABEL] == f { return Unchanged; }
        labels := labels[SYSTEM_LABEL := f];
        assert labels[SYSTEM_LABEL] == f;
      }
      r := if accepted then Updated else Refused;
    }
  }

  // ---------------------------------------------------------------- agreement

  /** The volume is labelled with exactly the cluster its regular class is matched to. */
  ghost predicate LabelIsMatch(x: Volumes, pv: Volume, sc: StorageClass, r: Result<map<string, string>>) {
    && LabelOf(x, pv).Ok?
    && r == Ok(match LabelOf(x, pv).value
               case None => map[]
               case Some(f) => map[f := Get(sc.params, POOL)])
  }

  /** For a regular class the label of its volumes is the matched cluster if and only if the
      class's secret and all cluster secrets are there and no two clusters share the address
      of the class's secret. */
  lemma RegularLabelIsMatch(x: Volumes, pv: Volume, sc: StorageClass, r: Result<map<string, string>>)
    requires OfClass(x, pv, sc) && sc.byMgmtId.None? && UniqueNames(x.view)
    requires Match(x.view, sc, r)
    ensures LabelIsMatch(x, pv, sc, r) <==>
      var secret := ClassSecret(x.view, sc);
      secret.Ok? && SecretsPresent(x.view) && OneAt(x.view, AddressOf(secret.value))
  {
    if ClassSecret(x.view, sc).Ok? && SecretsPresent(x.view) {
      var a := AddressOf(ClassSecret(x.view, sc).value);
      SamePickExact(x.view, a);
      IndexVersusScan(x.view, a);
      ScanIsFirst(x.view, a, 0);
      var found := Scan(x.view, a, 0).value;
      if found.Some? {
        var f, g := x.view.clusters[found.value].name, IndexOf(x.view, |x.view.clusters|)[a].name;
        assert f in map[f := Get(sc.params, POOL)];
        assert LabelOf(x, pv) == Ok(Some(g));
      }
    }
  }

  /** No two ids of the topology secret carry the same address. */
  predicate DistinctIds(ids: map<string, Json>) {
    forall a, b | a in ids && b in ids && a != b && IdAddress(ids[a]).Some? :: IdAddress(ids[a]) != IdAddress(ids[b])
  }

  /** Under distinct addresses, different ids resolve to different clusters. */
  lemma IdsResolveApart(v: View, secret: Secret, a: string, b: string)
    requires ById(v, secret).Ok? && UniqueNames(v) && DistinctIds(AsObject(secret.config).value)
    requires a in ById(v, secret).value && b in ById(v, secret).value
    requires ById(v, secret).value[a].name == ById(v, secret).value[b].name
    ensures a == b
  {
    var ids := AsObject(secret.config).value;
    IndexIsLastWins(v, |v.clusters|, IdAddress(ids[a]).value);
    IndexIsLastWins(v, |v.clusters|, IdAddress(ids[b]).value);
    var i: nat :| IsLast(v, |v.clusters|, IdAddress(ids[a]).value, i);
    var j: nat :| IsLast(v, |v.clusters|, IdAddress(ids[b]).value, j);
    assert !(i < j) && !(j < i);
  }

  /** A volume of a topology class that gets label f has f among the class's matched
      clusters; under distinct addresses its pool is the one its own id selects. */
  lemma TopologyLabelIsMatched(x: Volumes, pv: Volume, sc: StorageClass, m: map<string, string>, f: string)
    requires OfClass(x, pv, sc) && sc.byMgmtId.Some? && Match(x.view, sc, Ok(m))
    requires LabelOf(x, pv) == Ok(Some(f))
    ensures f in m
    ensures UniqueNames(x.view) && DistinctIds(AsObject(ClassSecret(x.view, sc).value.config).value) ==>
      var own := AsObject(sc.byMgmtId).value;
      var id := Split(pv.handle)[1];
      && id in own && own[id].Object?
      && m[f] == (if POOL in own[id].fields && own[id].fields[POOL].Str? then own[id].fields[POOL].s
                  else if POOL in sc.params then sc.params[POOL] else "")
  {
    var secret := ClassSecret(x.view, sc).value;
    var byId := ById(x.view, secret).value;
    var id := Split(pv.handle)[1];
    assert id in byId && byId[id].name == f;
    if UniqueNames(x.view) && DistinctIds(AsObject(secret.config).value) {
      var id' :| id' in byId && byId[id'].name == f && PoolFor(sc, AsObject(sc.byMgmtId).value, id') == Ok(m[f]);
      IdsResolveApart(x.view, secret, id, id');
    }
  }

  /** Every id that leads to `f` gives the pool that `id` gives. */
  ghost predicate SamePoolAt(sc: StorageClass, data: map<string, Json>, byId: map<string, Cluster>, id: string, f: string) {
    forall other | other in byId && byId[other].name == f :: PoolFor(sc, data, other) == PoolFor(sc, data, id)
  }

  /** The match gives `f` the pool of `id`. */
  ghost predicate GivesPoolOf(v: View, sc: StorageClass, m: map<string, string>, id: string, f: string)
    requires TopologySucceeds(v, sc)
  {
    Match(v, sc, Ok(m)) ==> f in m && Ok(m[f]) == PoolFor(sc, AsObject(sc.byMgmtId).value, id)
  }

  /** A topology volume with label f: every match of its class gives f the pool the volume's
      own id selects, if and only if all ids that lead to f select that pool. */
  lemma TopologyPoolExact(x: Volumes, pv: Volume, sc: StorageClass, f: string)
    requires OfClass(x, pv, sc) && TopologySucceeds(x.view, sc) && LabelOf(x, pv) == Ok(Some(f))
    ensures |Split(pv.handle)| >= 2
    ensures var id := Split(pv.handle)[1];
      (forall m :: GivesPoolOf(x.view, sc, m, id, f))
        <==> SamePoolAt(sc, AsObject(sc.byMgmtId).value, ById(x.view, ClassSecret(x.view, sc).value).value, id, f)
  {
    var id, data, byId := Split(pv.handle)[1], AsObject(sc.byMgmtId).value, ById(x.view, ClassSecret(x.view, sc).value).value;
    if SamePoolAt(sc, data, byId, id, f) {
      forall m ensures GivesPoolOf(x.view, sc, m, id, f) {
        if Match(x.view, sc, Ok(m)) { TopologyLabelIsMatched(x, pv, sc, m, f); }
      }
    } else {
      var other :| other in byId && byId[other].name == f && PoolFor(sc, data, other) != PoolFor(sc, data, id);
      var m := MatchWith(sc, data, byId, other);
      assert Match(x.view, sc, Ok(m));
      assert !GivesPoolOf(x.view, sc, m, id, f);
    }
  }

  /** Distinct cluster names and distinct addresses in the topology secret are enough for
      the match to be determined. */
  lemma DistinctIdsDetermine(v: View, sc: StorageClass)
    requires UniqueNames(v)
    requires TopologySucceeds(v, sc) ==> DistinctIds(AsObject(ClassSecret(v, sc).value.config).value)
    ensures Determined(v, sc)
  {
    if TopologySucceeds(v, sc) {
      var secret := ClassSecret(v, sc).value;
      var byId, data := ById(v, secret).value, AsObject(sc.byMgmtId).value;
      forall a, b | a in byId && b in byId && byId[a].name == byId[b].name
        ensures PoolFor(sc, data, a) == PoolFor(sc, data, b)
      {
        IdsResolveApart(v, secret, a, b);
      }
    }
  }
}
