/** What a change of a Secret makes the watchers re-run, and what it may safely not. */
module SecretEvents {
  import opened Common
  import opened Matching
  import opened PersistentVolumes

  const FS_OBJECTS_PREFIX: string := "ibm-flashsystem-storage"

  predicate IsFSCSecret(name: string) {
    FS_OBJECTS_PREFIX <= name
  }

  // ---------------------------------------------------------------- mapper

  /** The mapper re-runs this class when `secret` changes. */
  predicate Requested(sc: StorageClass, secret: NsName) {
    sc.provisioner == BLOCK_DRIVER && (IsFSCSecret(secret.name) || ClassSecretName(sc) == Some(secret))
  }

  method SecretStorageClassMap(classes: seq<StorageClass>, secret: NsName) returns (requests: seq<string>)
    ensures forall i | 0 <= i < |classes| && Requested(classes[i], secret) :: classes[i].name in requests
    ensures forall n | n in requests :: exists i :: 0 <= i < |classes| && Requested(classes[i], secret) && classes[i].name == n
  {
    requests := [];
    var isFscSecret := IsFSCSecret(secret.name);
    for i := 0 to |classes|
      invariant forall j | 0 <= j < i && Requested(classes[j], secret) :: classes[j].name in requests
      invariant forall n | n in requests :: exists j :: 0 <= j < i && Requested(classes[j], secret) && classes[j].name == n
    {
      var sc := classes[i];
      if sc.provisioner == BLOCK_DRIVER {
        var own := ClassSecretName(sc);
        if isFscSecret || (own.Some? && own.value == secret) {
          requests := requests + [sc.name];
        }
      }
    }
  }

  /** A class gets a request exactly if it is the block driver's and either the secret's name
      begins as the operator's do or it is the one the class names. */
  lemma RequestedExactly(sc: StorageClass, secret: NsName)
    ensures Requested(sc, secret) <==>
      && sc.provisioner == "block.csi.ibm.com"
      && (Names(sc, secret) || (|secret.name| >= 23 && secret.name[..23] == "ibm-flashsystem-storage"))
  {
    assert |FS_OBJECTS_PREFIX| == 23;
  }

  /** `v'` is `v` after `secret` was created, updated or deleted. */
  ghost predicate OnlySecretChanged(v: View, v': View, secret: NsName) {
    && v'.clusters == v.clusters
    && v'.secrets - {secret} == v.secrets - {secret}
  }

  predicate ClusterSecretsPrefixed(v: View) {
    forall i | 0 <= i < |v.clusters| :: IsFSCSecret(v.clusters[i].secret.name)
  }

  lemma SecretUntouched(v: View, v': View, secret: NsName, n: NsName)
    requires OnlySecretChanged(v, v', secret) && n != secret
    ensures n in v'.secrets <==> n in v.secrets
    ensures n in v.secrets ==> v'.secrets[n] == v.secrets[n]
  {
    assert n in v.secrets - {secret} <==> n in v.secrets;
    assert n in v'.secrets - {secret} <==> n in v'.secrets;
    if n in v.secrets {
      assert (v'.secrets - {secret})[n] == (v.secrets - {secret})[n];
    }
  }

  lemma {:induction false} ScanUntouched(v: View, v': View, a: string, i: nat)
    requires v'.clusters == v.clusters && i <= |v.clusters|
    requires forall k | 0 <= k < |v.clusters| :: SameAddress(v, v', v.clusters[k].secret)
    ensures Scan(v', a, i) == Scan(v, a, i)
    decreases |v.clusters| - i
  {
    if i < |v.clusters| {
      assert SameAddress(v, v', v.clusters[i].secret);
      if v.clusters[i].secret in v.secrets && ClusterAddress(v, i) != a {
        ScanUntouched(v, v', a, i + 1);
      }
    }
  }

  lemma {:induction false} IndexUntouched(v: View, v': View, n: nat)
    requires v'.clusters == v.clusters && n <= |v.clusters| && SecretsPresent(v)
    requires forall k | 0 <= k < |v.clusters| :: SameAddress(v, v', v.clusters[k].secret)
    ensures SecretsPresent(v') && IndexOf(v', n) == IndexOf(v, n)
  {
    assert forall k | 0 <= k < |v.clusters| :: v.clusters[k].secret in v'.secrets;
    if n > 0 {
      IndexUntouched(v, v', n - 1);
      assert SameAddress(v, v', v.clusters[n - 1].secret);
    }
  }

  /** The secret is there before and after or not at all, with one effective address. */
  ghost predicate SameAddress(v: View, v': View, n: NsName) {
    (n in v'.secrets <==> n in v.secrets) && (n in v.secrets ==> AddressOf(v'.secrets[n]) == AddressOf(v.secrets[n]))
  }

  predicate IsClusterSecret(clusters: seq<Cluster>, n: NsName) {
    exists i :: 0 <= i < |clusters| && clusters[i].secret == n
  }

  /** A class that does not name the secret sees a change of it only through the address of a
      cluster. */
  lemma OtherClassKeeps(v: View, v': View, n: NsName, sc: StorageClass, r: Result<map<string, string>>)
    requires OnlySecretChanged(v, v', n) && ClassSecretName(sc) != Some(n)
    requires SameAddress(v, v', n) || !IsClusterSecret(v.clusters, n)
    ensures Match(v, sc, r) <==> Match(v', sc, r)
  {
    forall k | 0 <= k < |v.clusters| ensures SameAddress(v, v', v.clusters[k].secret) {
      if v.clusters[k].secret != n { SecretUntouched(v, v', n, v.clusters[k].secret); }
    }
    var own := ClassSecretName(sc);
    if own.Some? { SecretUntouched(v, v', n, own.value); }
    if ClassSecret(v, sc).Ok? {
      ScanUntouched(v, v', AddressOf(ClassSecret(v, sc).value), 0);
      PresenceUntouched(v, v');
      if SecretsPresent(v) { IndexUntouched(v, v', |v.clusters|); }
    }
  }

  /** Event-mapper completeness. If the secret carries the operator's prefix or is no
      cluster's secret, then a block-driver class the mapper does not name has exactly the same
      possible matches before and after the change of the secret. */
  lemma MapperIsComplete(v: View, v': View, secret: NsName, sc: StorageClass, r: Result<map<string, string>>)
    requires OnlySecretChanged(v, v', secret) && (IsFSCSecret(secret.name) || !IsClusterSecret(v.clusters, secret))
    requires sc.provisioner == BLOCK_DRIVER && !Requested(sc, secret)
    ensures Match(v, sc, r) <==> Match(v', sc, r)
  {
    OtherClassKeeps(v, v', secret, sc, r);
  }

  /** The change of the secret leaves the possible matches of a class the mapper does not name
      alone. */
  ghost predicate KeepsUnrequested(clusters: seq<Cluster>, n: NsName, v: View, v': View, sc: StorageClass, r: Result<map<string, string>>) {
    && v.clusters == clusters && OnlySecretChanged(v, v', n) && sc.provisioner == BLOCK_DRIVER && !Requested(sc, n)
    ==> (Match(v, sc, r) <==> Match(v', sc, r))
  }

  /** For a list of clusters and a secret, the mapper misses no class under any change of the
      secret, if and only if the secret carries the prefix or is no cluster's secret. */
  lemma MapperExact(clusters: seq<Cluster>, n: NsName)
    ensures (forall v, v', sc, r :: KeepsUnrequested(clusters, n, v, v', sc, r))
      <==> IsFSCSecret(n.name) || !IsClusterSecret(clusters, n)
  {
    if IsFSCSecret(n.name) || !IsClusterSecret(clusters, n) {
      forall v, v', sc, r ensures KeepsUnrequested(clusters, n, v, v', sc, r) {
        if v.clusters == clusters && OnlySecretChanged(v, v', n) && sc.provisioner == BLOCK_DRIVER && !Requested(sc, n) {
          MapperIsComplete(v, v', n, sc, r);
        }
      }
    } else {
      var v, v', sc := UnprefixedIsMissed(clusters, n);
      assert !KeepsUnrequested(clusters, n, v, v', sc, Ok(map[]));
    }
  }

  /** A name longer than that of any cluster's secret. */
  function LongName(clusters: seq<Cluster>): string {
    if clusters == [] then "o" else LongName(clusters[1..]) + clusters[0].secret.name
  }

  lemma {:induction false} LongNameIsLonger(clusters: seq<Cluster>, i: nat)
    ensures |LongName(clusters)| >= 1
    ensures i < |clusters| ==> |LongName(clusters)| > |clusters[i].secret.name|
  {
    if clusters != [] {
      LongNameIsLonger(clusters[1..], if i == 0 then 0 else i - 1);
      if i < |clusters| && i > 0 { assert clusters[1..][i - 1] == clusters[i]; }
    }
  }

  /** A block-driver class that names the secret `n`. */
  function ClassOn(n: NsName, byMgmtId: Option<Doc>): StorageClass {
    StorageClass("sc", BLOCK_DRIVER, map[SECRET_NAME := n.name, SECRET_NAMESPACE := n.ns], byMgmtId)
  }

  lemma ClassOnNames(n: NsName, byMgmtId: Option<Doc>)
    requires n.name != "" && n.ns != ""
    ensures ClassSecretName(ClassOn(n, byMgmtId)) == Some(n)
  {
  }

  /** Secrets for the clusters, all at "y", and one more at "x". */
  lemma SomeSecrets(clusters: seq<Cluster>) returns (secrets: map<NsName, Secret>, own: NsName)
    ensures own.name != "" && own.ns != "" && own in secrets && secrets[own] == Secret(Some("x"), None)
    ensures forall i | 0 <= i < |clusters| ::
      clusters[i].secret != own && clusters[i].secret in secrets && secrets[clusters[i].secret] == Secret(Some("y"), None)
  {
    own := NsName("ns", LongName(clusters));
    LongNameIsLonger(clusters, 0);
    forall i | 0 <= i < |clusters| ensures clusters[i].secret != own { LongNameIsLonger(clusters, i); }
    var names := set i | 0 <= i < |clusters| :: clusters[i].secret;
    secrets := map k | k in names + {own} :: Secret(Some(if k == own then "x" else "y"), None);
    assert forall i | 0 <= i < |clusters| :: clusters[i].secret in names;
  }

  /** The deletion of an unprefixed cluster secret makes the match of a regular class fail
      that matches no cluster, and the mapper does not name the class. */
  lemma UnprefixedIsMissed(clusters: seq<Cluster>, n: NsName) returns (v: View, v': View, sc: StorageClass)
    requires IsClusterSecret(clusters, n) && !IsFSCSecret(n.name)
    ensures v.clusters == clusters && OnlySecretChanged(v, v', n) && v'.secrets == v.secrets - {n}
    ensures sc.provisioner == BLOCK_DRIVER && !Requested(sc, n)
    ensures Match(v, sc, Ok(map[])) && !Match(v', sc, Ok(map[]))
  {
    var secrets, own := SomeSecrets(clusters);
    v, v', sc := View(clusters, secrets), View(clusters, secrets - {n}), ClassOn(own, None);
    ClassOnNames(own, None);
    assert own != n;
    ScanIsFirst(v, "x", 0);
    assert Scan(v, "x", 0) == Ok(None);
    MissingFails(v', "x");
  }

  lemma MissingFails(v: View, a: string)
    requires !SecretsPresent(v)
    requires forall i | 0 <= i < |v.clusters| && v.clusters[i].secret in v.secrets :: ClusterAddress(v, i) != a
    ensures Scan(v, a, 0) == Err(SecretMissing)
  {
    ScanIsFirst(v, a, 0);
  }

  lemma PresenceUntouched(v: View, v': View)
    requires v'.clusters == v.clusters
    requires forall k | 0 <= k < |v.clusters| :: SameAddress(v, v', v.clusters[k].secret)
    ensures SecretsPresent(v') <==> SecretsPresent(v)
  {
  }

  // ---------------------------------------------------------------- update filter

  /** Decoding into text values: null becomes empty, anything else fails. */
  function AsText(j: Json): Option<string> {
    match j
    case Str(s) => Some(s)
    case Null => Some("")
    case _ => None
  }

  function AsTexts(j: Json): Option<map<string, string>> {
    match j
    case Null => Some(map[])
    case Object(fields) =>
      if forall k | k in fields :: AsText(fields[k]).Some?
      then Some(map k | k in fields :: AsText(fields[k]).value) else None
    case _ => None
  }

  /** Decoding into a map of text maps. */
  function AsTextMaps(d: Option<Doc>): Option<map<string, map<string, string>>> {
    var ids := AsObject(d);
    if ids.None? then None
    else if forall id | id in ids.value :: AsTexts(ids.value[id]).Some?
    then Some(map id | id in ids.value :: AsTexts(ids.value[id]).value) else None
  }

  predicate AddressChanged(before: map<string, map<string, string>>, after: map<string, map<string, string>>, id: string)
    requires id in before
  {
    id !in after || Get(before[id], MGMT_ADDRESS) != Get(after[id], MGMT_ADDRESS)
  }

  /** A row of texts: null, or an object whose fields are texts or null. */
  predicate TextRow(j: Json) {
    j.Null? || (j.Object? && forall k | k in j.fields :: j.fields[k].Str? || j.fields[k].Null?)
  }

  /** The address in a row of texts; null, and no field at all, count as empty. */
  function TextAddress(j: Json): string {
    if j.Object? && MGMT_ADDRESS in j.fields && j.fields[MGMT_ADDRESS].Str? then j.fields[MGMT_ADDRESS].s else ""
  }

  /** What the decoding into texts accepts, and the addresses it yields. */
  lemma DecodesExactly(d: Option<Doc>)
    ensures AsTextMaps(d).Some? <==> Table(d) && forall id | id in Rows(d) :: TextRow(Rows(d)[id])
    ensures AsTextMaps(d).Some? ==>
      && AsTextMaps(d).value.Keys == Rows(d).Keys
      && forall id | id in Rows(d) :: Get(AsTextMaps(d).value[id], MGMT_ADDRESS) == TextAddress(Rows(d)[id])
  {
    if Table(d) {
      assert AsObject(d) == Some(Rows(d));
      forall id | id in Rows(d) ensures AsTexts(Rows(d)[id]).Some? <==> TextRow(Rows(d)[id]) { RowDecodes(Rows(d)[id]); }
      forall id | id in Rows(d) && TextRow(Rows(d)[id])
        ensures Get(AsTexts(Rows(d)[id]).value, MGMT_ADDRESS) == TextAddress(Rows(d)[id])
      {
        RowDecodes(Rows(d)[id]);
      }
    }
  }

  lemma RowDecodes(j: Json)
    ensures AsTexts(j).Some? <==> TextRow(j)
    ensures TextRow(j) ==> Get(AsTexts(j).value, MGMT_ADDRESS) == TextAddress(j)
    ensures TextRow(j) ==> (MGMT_ADDRESS in AsTexts(j).value <==> j.Object? && MGMT_ADDRESS in j.fields)
  {
    if j.Object? {
      forall k | k in j.fields ensures AsText(j.fields[k]).Some? <==> j.fields[k].Str? || j.fields[k].Null? { }
    }
  }

  /** Both decode and some id of the first lost its address or has another. */
  ghost predicate TopologyUpdated(before: Secret, after: Secret) {
    var o, n := AsTextMaps(before.config), AsTextMaps(after.config);
    o.Some? && n.Some? && exists id :: id in o.value && AddressChanged(o.value, n.value, id)
  }

  method IsTopologySecretUpdated(before: Secret, after: Secret) returns (updated: bool)
    ensures updated <==> TopologyUpdated(before, after)
  {
    var o := AsTextMaps(before.config);
    if o.None? { return false; }
    var n := AsTextMaps(after.config);
    if n.None? { return false; }
    var order := RangeOrder(o.value.Keys);
    for i := 0 to |order|
      invariant forall j | 0 <= j < i :: order[j] in o.value && !AddressChanged(o.value, n.value, order[j])
    {
      assert order[i] in (set k | k in order);
      if order[i] !in n.value || Get(o.value[order[i]], MGMT_ADDRESS) != Get(n.value[order[i]], MGMT_ADDRESS) {
        assert AddressChanged(o.value, n.value, order[i]);
        return true;
      }
    }
    assert forall id | id in o.value :: id in (set k | k in order);
    updated := false;
  }

  /** The Update filter of SecretMgmtAddrPredicate lets the event through. */
  ghost predicate PassesUpdate(before: Secret, after: Secret) {
    if before.config.Some? then TopologyUpdated(before, after)
    else before.address.Some? && after.address.Some? && before.address != after.address
  }

  /** The two decodings agree on addresses that are not empty. */
  lemma DecodingsAgree(d: Option<Doc>, id: string, a: string)
    requires AsTextMaps(d).Some? && id in AsTextMaps(d).value && a != ""
    ensures AsObject(d).Some? && id in AsObject(d).value
    ensures IdAddress(AsObject(d).value[id]) == Some(a) <==> Get(AsTextMaps(d).value[id], MGMT_ADDRESS) == a
  {
  }

  /** When a topology secret decodes before and after an update and the filter ignores
      the update, every id with a non-empty address keeps it. */
  lemma IgnoredUpdateKeepsAddresses(before: Secret, after: Secret, handle: string, a: string)
    requires before.config.Some? && AsTextMaps(before.config).Some? && AsTextMaps(after.config).Some?
    requires !PassesUpdate(before, after)
    requires HandleAddress(before, handle) == Ok(a) && a != ""
    ensures HandleAddress(after, handle) == Ok(a)
  {
    var id := Split(handle)[1];
    var o, n := AsTextMaps(before.config).value, AsTextMaps(after.config).value;
    assert id in o && !AddressChanged(o, n, id);
    DecodingsAgree(before.config, id, a);
    DecodingsAgree(after.config, id, a);
  }

  /** Filter soundness: after an ignored update of a topology secret every volume of every
      topology class computes the address it computed before, if that was not empty. */
  lemma IgnoredUpdateKeepsVolumes(x: Volumes, x': Volumes, secret: NsName, pv: Volume, a: string)
    requires OnlySecretChanged(x.view, x'.view, secret) && x'.claims == x.claims && x'.classes == x.classes
    requires secret in x.view.secrets && secret in x'.view.secrets
    requires var s, s' := x.view.secrets[secret], x'.view.secrets[secret];
      && s.config.Some? && AsTextMaps(s.config).Some? && AsTextMaps(s'.config).Some? && !PassesUpdate(s, s')
    requires ClassOf(x, pv).Ok? && ClassOf(x, pv).value.byMgmtId.Some?
    requires ManagementAddress(x, pv) == Ok(a) && a != ""
    ensures ManagementAddress(x', pv) == Ok(a)
  {
    var own := ClassSecretName(ClassOf(x, pv).value).value;
    if own == secret {
      IgnoredUpdateKeepsAddresses(x.view.secrets[secret], x'.view.secrets[secret], pv.handle, a);
    } else {
      SecretUntouched(x.view, x'.view, secret, own);
    }
  }

  /** Ids the update adds are outside that claim: an update that only adds an id is
      ignored although volumes of the new system gain an address. */
  lemma AddedIdIsIgnored(before: map<string, Json>, id: string, a: string)
    requires AsTextMaps(Some(Doc(Object(before)))).Some? && id !in before && ':' !in id
    ensures var after := before[id := Object(map[MGMT_ADDRESS := Str(a)])];
      var s, s' := Secret(None, Some(Doc(Object(before)))), Secret(None, Some(Doc(Object(after))));
      var handle := "SVC:" + id + ":";
      && !PassesUpdate(s, s') && HandleAddress(s, handle) == Err(UnknownId) && HandleAddress(s', handle) == Ok(a)
  {
    var after := before[id := Object(map[MGMT_ADDRESS := Str(a)])];
    var o, n := AsTextMaps(Some(Doc(Object(before)))), AsTextMaps(Some(Doc(Object(after))));
    assert AsTexts(after[id]).Some?;
    forall x | x in after ensures AsTexts(after[x]).Some? {
      if x != id { assert after[x] == before[x] && AsTexts(before[x]).Some?; }
    }
    assert n.Some?;
    forall x | x in o.value ensures !AddressChanged(o.value, n.value, x) {
      assert after[x] == before[x];
    }
    HandleNamesItsSystem("SVC", id, "");
    assert "SVC" + ":" + id + ":" + "" == "SVC:" + id + ":";
  }

  /** The volume gets this address before the update if and only if it does after. */
  ghost predicate SameForHandle(before: Secret, after: Secret, handle: string, a: string) {
    HandleAddress(before, handle) == Ok(a) <==> HandleAddress(after, handle) == Ok(a)
  }

  /** The address a handle of system `id` gets; none counts as the empty one. */
  function AddressShown(s: Secret, id: string): string {
    var ids := AsObject(s.config);
    if ids.Some? && id in ids.value && IdAddress(ids.value[id]).Some? then IdAddress(ids.value[id]).value else ""
  }

  /** The ids a handle can name show the same addresses. */
  ghost predicate SameShown(before: Secret, after: Secret) {
    forall id | ':' !in id :: AddressShown(before, id) == AddressShown(after, id)
  }

  /** No id that a handle can name and the old version does not have gets an address. */
  ghost predicate NoNewAddress(before: map<string, map<string, string>>, after: map<string, map<string, string>>) {
    forall id | id in after && id !in before && ':' !in id :: Get(after[id], MGMT_ADDRESS) == ""
  }

  lemma HandleShows(s: Secret, handle: string, a: string)
    requires a != ""
    ensures HandleAddress(s, handle) == Ok(a) <==> |Split(handle)| >= 2 && AddressShown(s, Split(handle)[1]) == a
  {
  }

  lemma HandleOf(id: string) returns (handle: string)
    requires ':' !in id
    ensures |Split(handle)| >= 2 && Split(handle)[1] == id
  {
    handle := "SVC" + ":" + id + ":" + "";
    HandleNamesItsSystem("SVC", id, "");
    assert Split(handle)[1..][0] == id;
  }

  /** For any two versions of a secret, all handles get the same addresses, empty ones aside, if
      and only if all ids that a handle can name show the same. */
  lemma HandlesExact(before: Secret, after: Secret)
    ensures (forall handle, a | a != "" :: SameForHandle(before, after, handle, a)) <==> SameShown(before, after)
  {
    if SameShown(before, after) {
      forall handle, a | a != "" ensures SameForHandle(before, after, handle, a) {
        HandleShows(before, handle, a);
        HandleShows(after, handle, a);
        if |Split(handle)| >= 2 { PartsHaveNoColon(handle, 1); }
      }
    } else {
      var id :| ':' !in id && AddressShown(before, id) != AddressShown(after, id);
      var handle := HandleOf(id);
      var a := if AddressShown(before, id) != "" then AddressShown(before, id) else AddressShown(after, id);
      HandleShows(before, handle, a);
      HandleShows(after, handle, a);
      assert !SameForHandle(before, after, handle, a);
    }
  }

  lemma TextsShow(s: Secret, id: string)
    requires AsTextMaps(s.config).Some?
    ensures var texts := AsTextMaps(s.config).value;
      AddressShown(s, id) == if id in texts then Get(texts[id], MGMT_ADDRESS) else ""
  {
    var texts := AsTextMaps(s.config).value;
    if id in texts {
      var shown, text := AddressShown(s, id), Get(texts[id], MGMT_ADDRESS);
      if shown != "" { DecodingsAgree(s.config, id, shown); }
      if text != "" { DecodingsAgree(s.config, id, text); }
    }
  }

  /** What ignoring an update costs. When both versions decode into texts, every handle gets
      the same addresses before and after, empty ones aside, if and only if no id that a
      handle can name is added with an address. When one of them does not, the filter ignores
      every change, and it is all the ids that must show the same. */
  lemma IgnoredUpdateExact(before: Secret, after: Secret)
    requires !PassesUpdate(before, after)
    ensures (forall handle, a | a != "" :: SameForHandle(before, after, handle, a)) <==>
      if AsTextMaps(before.config).Some? && AsTextMaps(after.config).Some?
      then NoNewAddress(AsTextMaps(before.config).value, AsTextMaps(after.config).value)
      else SameShown(before, after)
  {
    HandlesExact(before, after);
    if AsTextMaps(before.config).Some? && AsTextMaps(after.config).Some? { OnlyNewIdsCount(before, after); }
  }

  lemma OnlyNewIdsCount(before: Secret, after: Secret)
    requires !PassesUpdate(before, after) && AsTextMaps(before.config).Some? && AsTextMaps(after.config).Some?
    ensures SameShown(before, after) <==> NoNewAddress(AsTextMaps(before.config).value, AsTextMaps(after.config).value)
  {
    var o, n := AsTextMaps(before.config).value, AsTextMaps(after.config).value;
    forall id
      ensures AddressShown(before, id) == (if id in o then Get(o[id], MGMT_ADDRESS) else "")
      ensures AddressShown(after, id) == (if id in n then Get(n[id], MGMT_ADDRESS) else "")
    {
      TextsShow(before, id);
      TextsShow(after, id);
    }
    assert forall id | id in o :: !AddressChanged(o, n, id);
    if SameShown(before, after) {
      forall id | id in n && id !in o && ':' !in id ensures Get(n[id], MGMT_ADDRESS) == "" {
        assert AddressShown(before, id) == AddressShown(after, id);
      }
    }
  }

  /** System "a" at the address, with a field that is not a text. */
  function Numbered(x: string): Secret {
    Secret(None, Some(Doc(Object(map["a" := Object(map[MGMT_ADDRESS := Str(x), "port" := Other])]))))
  }

  lemma NumberedShows(x: string)
    ensures AsTextMaps(Numbered(x).config).None? && AddressShown(Numbered(x), "a") == x
  {
    var fields := map[MGMT_ADDRESS := Str(x), "port" := Other];
    assert AsText(fields["port"]).None?;
    assert AsTexts(Object(fields)).None?;
    assert AsTexts(AsObject(Numbered(x).config).value["a"]).None?;
  }

  /** A number beside the address hides a change of it: the text decoding fails, the update is
      ignored, no id is added, and the handles of the system get another address. */
  lemma NumberHidesChange(x: string, y: string) returns (handle: string)
    requires x != y && x != "" && y != ""
    ensures !PassesUpdate(Numbered(x), Numbered(y))
    ensures AsObject(Numbered(x).config).value.Keys == AsObject(Numbered(y).config).value.Keys
    ensures HandleAddress(Numbered(x), handle) == Ok(x) && HandleAddress(Numbered(y), handle) == Ok(y)
  {
    NumberedShows(x);
    NumberedShows(y);
    handle := HandleOf("a");
    HandleShows(Numbered(x), handle, x);
    HandleShows(Numbered(y), handle, y);
  }

  /** When a change of the effective plain address passes the filter. A secret that also
      carries `config` is judged by its ids alone; otherwise the key must be there on both
      sides. In particular, a change of nothing but the plain address passes if and only if
      there is no `config` and the key neither appears nor disappears. */
  lemma PlainFilterExact(before: Secret, after: Secret)
    requires AddressOf(before) != AddressOf(after)
    ensures PassesUpdate(before, after) <==>
      if before.config.Some? then TopologyUpdated(before, after) else (before.address.Some? <==> after.address.Some?)
    ensures after.config == before.config ==>
      (PassesUpdate(before, after) <==> before.config.None? && (before.address.Some? <==> after.address.Some?))
  {
  }

  // ---------------------------------------------------------------- all events

  /** The secret appears, changes or disappears. */
  datatype Event = Created(after: Secret) | Updated(before: Secret, after: Secret) | Deleted(before: Secret)
  {
    function Before(): Option<Secret> {
      if Created? then None else Some(before)
    }

    function After(): Option<Secret> {
      if Deleted? then None else Some(after)
    }
  }

  /** The secret decodes and every id has an address field. */
  ghost predicate HasMgmtAddr(secret: Secret) {
    var ids := AsTextMaps(secret.config);
    ids.Some? && forall id | id in ids.value :: MGMT_ADDRESS in ids.value[id]
  }

  method IsTopologySecretHasMgmtAddr(secret: Secret) returns (has: bool)
    ensures has <==> HasMgmtAddr(secret)
  {
    var ids := AsTextMaps(secret.config);
    if ids.None? { return false; }
    var order := RangeOrder(ids.value.Keys);
    for i := 0 to |order|
      invariant forall j | 0 <= j < i :: order[j] in ids.value && MGMT_ADDRESS in ids.value[order[j]]
    {
      assert order[i] in (set k | k in order);
      if MGMT_ADDRESS !in ids.value[order[i]] { return false; }
    }
    assert forall id | id in ids.value :: id in (set k | k in order);
    has := true;
  }

  /** The filter lets the event through. */
  ghost predicate Passes(e: Event) {
    match e
    case Created(s) => if s.config.Some? then HasMgmtAddr(s) else s.address.Some?
    case Updated(before, after) => PassesUpdate(before, after)
    case Deleted(s) => if s.config.Some? then HasMgmtAddr(s) else s.address.Some?
  }

  method SecretMgmtAddrPredicate(e: Event) returns (passes: bool)
    ensures passes <==> Passes(e)
  {
    match e
    case Updated(before, after) =>
      if before.config.Some? {
        passes := IsTopologySecretUpdated(before, after);
      } else {
        passes := before.address.Some? && after.address.Some? && before.address.value != after.address.value;
      }
    case Created(s) =>
      if s.config.Some? { passes := IsTopologySecretHasMgmtAddr(s); } else { passes := s.address.Some?; }
    case Deleted(s) =>
      if s.config.Some? { passes := IsTopologySecretHasMgmtAddr(s); } else { passes := s.address.Some?; }
  }

  /** The ids a match can use: the text does not decode, an id makes it panic, or the ids
      with their addresses. */
  datatype Ids = NotJson | Panics | Ids(addresses: map<string, string>)

  /** What the matches can see of a secret. */
  datatype Sight = Gone | Shows(address: string, ids: Ids)

  ghost function IdsOf(config: Option<Doc>): Ids {
    var ids := AsObject(config);
    if ids.None? then NotJson
    else if exists id :: id in ids.value && IdAddress(ids.value[id]).None? then Panics
    else Ids(map id | id in ids.value && IdAddress(ids.value[id]).Some? :: IdAddress(ids.value[id]).value)
  }

  ghost function SightOf(s: Option<Secret>): Sight {
    if s.None? then Gone else Shows(AddressOf(s.value), IdsOf(s.value.config))
  }

  function Find(v: View, n: NsName): Option<Secret> {
    if n in v.secrets then Some(v.secrets[n]) else None
  }

  /** `v'` is `v` after the event on the secret. */
  ghost predicate Happens(v: View, v': View, n: NsName, e: Event) {
    OnlySecretChanged(v, v', n) && Find(v, n) == e.Before() && Find(v', n) == e.After()
  }

  /** The clusters of a topology secret depend on its ids and on the index alone. */
  lemma ByIdSees(v: View, v': View, s: Secret, s': Secret)
    requires IdsOf(s.config) == IdsOf(s'.config) && Index(v) == Index(v')
    ensures ById(v, s) == ById(v', s')
  {
    if IdsOf(s.config).Ids? && SecretsPresent(v) {
      var i, i', index := AsObject(s.config).value, AsObject(s'.config).value, IndexOf(v, |v.clusters|);
      forall id ensures id in i <==> id in i' {
        assert id in i <==> id in IdsOf(s.config).addresses;
        assert id in i' <==> id in IdsOf(s'.config).addresses;
      }
      forall id | id in i ensures IdAddress(i[id]) == IdAddress(i'[id]) {
        assert IdsOf(s.config).addresses[id] == IdsOf(s'.config).addresses[id];
      }
      assert Resolve(i, index) == Resolve(i', index);
    }
  }

  /** An event that does not change what the matches see changes no match. */
  lemma SightDecides(v: View, v': View, n: NsName, sc: StorageClass, r: Result<map<string, string>>)
    requires OnlySecretChanged(v, v', n) && SightOf(Find(v, n)) == SightOf(Find(v', n))
    ensures Match(v, sc, r) <==> Match(v', sc, r)
  {
    forall k | 0 <= k < |v.clusters| ensures SameAddress(v, v', v.clusters[k].secret) {
      if v.clusters[k].secret != n { SecretUntouched(v, v', n, v.clusters[k].secret); }
    }
    PresenceUntouched(v, v');
    if SecretsPresent(v) { IndexUntouched(v, v', |v.clusters|); }
    var own := ClassSecretName(sc);
    if own.Some? && own.value != n { SecretUntouched(v, v', n, own.value); }
    if ClassSecret(v, sc).Ok? {
      var s, s' := ClassSecret(v, sc).value, ClassSecret(v', sc).value;
      ScanUntouched(v, v', AddressOf(s), 0);
      ByIdSees(v, v', s, s');
    }
  }

  /** Filter and mapper together: an event that makes no request for a class, because it is
      filtered out or because the mapper does not name the class, leaves the possible matches
      of the class as they were, unless the event is one that can be lost: stopped by the filter
      although the matches see it, or a new address of a cluster's unprefixed secret. */
  lemma UnreachedKeepsMatches(v: View, v': View, n: NsName, e: Event, sc: StorageClass, r: Result<map<string, string>>)
    requires Happens(v, v', n, e) && sc.provisioner == BLOCK_DRIVER && !(Passes(e) && Requested(sc, n))
    requires LosesNothing(n, e) || (Passes(e) && !IsClusterSecret(v.clusters, n))
    ensures Match(v, sc, r) <==> Match(v', sc, r)
  {
    if SightOf(e.Before()) == SightOf(e.After()) {
      SightDecides(v, v', n, sc, r);
    } else {
      OtherClassKeeps(v, v', n, sc, r);
    }
  }

  /** Presence and effective address stay as they are. */
  predicate SameAddressOf(e: Event) {
    e.Updated? && AddressOf(e.before) == AddressOf(e.after)
  }

  /** The matches do not see the event; or the filter lets it through, and the mapper names all
      classes, or no cluster's address changes. */
  ghost predicate LosesNothing(n: NsName, e: Event) {
    || SightOf(e.Before()) == SightOf(e.After())
    || (Passes(e) && (IsFSCSecret(n.name) || SameAddressOf(e)))
  }

  // ---------------------------------------------------------------- what the matches see, exactly

  /** One cluster "f" at the address, its secret named as the operator names them, and the
      secret `n` if there is one. */
  function Probe(n: NsName, s: Option<Secret>, address: string): View {
    var own := NsName(n.ns + "x", FS_OBJECTS_PREFIX);
    var base: map<NsName, Secret> := map[own := Secret(Some(address), None)];
    View([Cluster("f", own, None)], if s.Some? then base[n := s.value] else base)
  }

  lemma ProbeShows(n: NsName, s: Option<Secret>, address: string)
    ensures var v := Probe(n, s, address);
      && Find(v, n) == s && ClusterSecretsPrefixed(v) && SecretsPresent(v) && ClusterAddress(v, 0) == address
      && IndexOf(v, 1) == map[address := v.clusters[0]]
  {
    var v := Probe(n, s, address);
    var own := NsName(n.ns + "x", FS_OBJECTS_PREFIX);
    assert |own.ns| == |n.ns| + 1;
    assert IndexOf(v, 0) == map[];
  }

  lemma ProbesDifferBySecret(n: NsName, s: Option<Secret>, s': Option<Secret>, address: string)
    ensures OnlySecretChanged(Probe(n, s, address), Probe(n, s', address), n)
  {
    var v, v' := Probe(n, s, address), Probe(n, s', address);
    ProbeShows(n, s, address);
    ProbeShows(n, s', address);
    assert v'.secrets - {n} == v.secrets - {n};
  }

  /** The class has the match with one version of the secret and not with the other. */
  ghost predicate Tells(n: NsName, s: Option<Secret>, s': Option<Secret>, address: string, sc: StorageClass, r: Result<map<string, string>>) {
    && sc.provisioner == BLOCK_DRIVER
    && (Match(Probe(n, s, address), sc, r) <==> !Match(Probe(n, s', address), sc, r))
  }

  lemma PresenceTells(n: NsName, s: Secret)
    requires n.name != "" && n.ns != ""
    ensures Tells(n, None, Some(s), "", ClassOn(n, None), Err(SecretMissing))
  {
    ClassOnNames(n, None);
    ProbeShows(n, None, "");
    ProbeShows(n, Some(s), "");
    assert Scan(Probe(n, Some(s), ""), AddressOf(s), 1) == Ok(None);
  }

  lemma AddressTells(n: NsName, s: Secret, s': Secret)
    requires n.name != "" && n.ns != "" && AddressOf(s) != AddressOf(s')
    ensures Tells(n, Some(s), Some(s'), AddressOf(s), ClassOn(n, None), Ok(map["f" := ""]))
  {
    var v, v' := Probe(n, Some(s), AddressOf(s)), Probe(n, Some(s'), AddressOf(s));
    ClassOnNames(n, None);
    ProbeShows(n, Some(s), AddressOf(s));
    ProbeShows(n, Some(s'), AddressOf(s));
    assert Scan(v, AddressOf(s), 0) == Ok(Some(0));
    assert Scan(v', AddressOf(s'), 1) == Ok(None);
    assert "f" in map["f" := ""];
  }

  lemma DecodingTells(n: NsName, s: Secret, s': Secret)
    requires n.name != "" && n.ns != "" && !IdsOf(s.config).Ids? && IdsOf(s.config) != IdsOf(s'.config)
    ensures Tells(n, Some(s), Some(s'), "", ClassOn(n, Some(Doc(Object(map[])))), Err(if IdsOf(s.config).NotJson? then BadJson else Panic))
  {
    ClassOnNames(n, Some(Doc(Object(map[]))));
    ProbeShows(n, Some(s), "");
    ProbeShows(n, Some(s'), "");
  }

  /** A `by_management_id` that singles out the pool of id `x`. */
  function Single(ids: set<string>, x: string): map<string, Json> {
    map id | id in ids :: Object(map[POOL := Str(if id == x then "own" else "other")])
  }

  lemma ProbeResolves(n: NsName, s: Secret, address: string)
    requires IdsOf(s.config).Ids?
    ensures var m, byId := IdsOf(s.config).addresses, ById(Probe(n, Some(s), address), s);
      && m.Keys == AsObject(s.config).value.Keys && byId.Ok? && byId.value.Keys <= m.Keys
      && forall id | id in m :: (id in byId.value <==> m[id] == address) && (id in byId.value ==> byId.value[id].name == "f")
  {
    ProbeShows(n, Some(s), address);
    var ids := AsObject(s.config).value;
    assert forall id | id in ids :: IdAddress(ids[id]).Some?;
  }

  lemma OwnPoolTells(sc: StorageClass, data: map<string, Json>, byId: map<string, Cluster>, byId': map<string, Cluster>, x: string)
    returns (r: Result<map<string, string>>)
    requires AsObject(sc.byMgmtId) == Some(data) && data == Single(data.Keys, x)
    requires byId.Keys <= data.Keys && byId'.Keys <= data.Keys && x in byId && x !in byId'
    ensures TopologyOutcome(sc, Ok(byId), r) && !TopologyOutcome(sc, Ok(byId'), r)
  {
    SingleOut(sc, data, byId, x);
    SingleOut(sc, data, byId', x);
    var pools := MatchWith(sc, data, byId, x);
    assert pools[byId[x].name] == "own";
    r := Ok(pools);
  }

  lemma IdTells(n: NsName, s: Secret, s': Secret, x: string) returns (sc: StorageClass, r: Result<map<string, string>>)
    requires n.name != "" && n.ns != "" && IdsOf(s.config).Ids? && IdsOf(s'.config).Ids?
    requires var m, m' := IdsOf(s.config).addresses, IdsOf(s'.config).addresses;
      x in m && (x !in m' || m'[x] != m[x])
    ensures Tells(n, Some(s), Some(s'), IdsOf(s.config).addresses[x], sc, r)
  {
    var m, m' := IdsOf(s.config).addresses, IdsOf(s'.config).addresses;
    var a, data := m[x], Single(m.Keys + m'.Keys, x);
    sc := ClassOn(n, Some(Doc(Object(data))));
    ClassOnNames(n, sc.byMgmtId);
    ProbeShows(n, Some(s), a);
    ProbeShows(n, Some(s'), a);
    ProbeResolves(n, s, a);
    ProbeResolves(n, s', a);
    r := OwnPoolTells(sc, data, ById(Probe(n, Some(s), a), s).value, ById(Probe(n, Some(s'), a), s').value, x);
  }

  lemma SingleOut(sc: StorageClass, data: map<string, Json>, byId: map<string, Cluster>, x: string)
    requires data == Single(data.Keys, x) && byId.Keys <= data.Keys
    ensures forall id | id in byId :: PoolFor(sc, data, id) == Ok(if id == x then "own" else "other")
    ensures AllPools(sc, data, byId)
  {
    forall id | id in byId ensures PoolFor(sc, data, id) == Ok(if id == x then "own" else "other") {
      assert data[id] == Object(map[POOL := Str(if id == x then "own" else "other")]);
    }
  }

  lemma SightTells(n: NsName, s: Option<Secret>, s': Option<Secret>) returns (address: string, sc: StorageClass, r: Result<map<string, string>>)
    requires n.name != "" && n.ns != "" && SightOf(s) != SightOf(s')
    ensures Tells(n, s, s', address, sc, r)
  {
    if s.None? {
      PresenceTells(n, s'.value);
      return "", ClassOn(n, None), Err(SecretMissing);
    } else if s'.None? {
      PresenceTells(n, s.value);
      return "", ClassOn(n, None), Err(SecretMissing);
    } else if AddressOf(s.value) != AddressOf(s'.value) {
      AddressTells(n, s.value, s'.value);
      return AddressOf(s.value), ClassOn(n, None), Ok(map["f" := ""]);
    }
    address, sc, r := IdsTell(n, s.value, s'.value);
  }

  lemma IdsTell(n: NsName, s: Secret, s': Secret) returns (address: string, sc: StorageClass, r: Result<map<string, string>>)
    requires n.name != "" && n.ns != "" && IdsOf(s.config) != IdsOf(s'.config)
    ensures Tells(n, Some(s), Some(s'), address, sc, r)
  {
    var i, i' := IdsOf(s.config), IdsOf(s'.config);
    if !i.Ids? {
      DecodingTells(n, s, s');
      return "", ClassOn(n, Some(Doc(Object(map[])))), Err(if i.NotJson? then BadJson else Panic);
    } else if !i'.Ids? {
      DecodingTells(n, s', s);
      return "", ClassOn(n, Some(Doc(Object(map[])))), Err(if i'.NotJson? then BadJson else Panic);
    } else if x :| x in i.addresses && (x !in i'.addresses || i'.addresses[x] != i.addresses[x]) {
      address := i.addresses[x];
      sc, r := IdTells(n, s, s', x);
    } else {
      MissingKey(i.addresses, i'.addresses);
      var x :| x in i'.addresses && x !in i.addresses;
      address := i'.addresses[x];
      sc, r := IdTells(n, s', s, x);
    }
  }

  lemma MissingKey(m: map<string, string>, m': map<string, string>)
    requires m != m' && forall x | x in m :: x in m' && m'[x] == m[x]
    ensures exists x :: x in m' && x !in m
  {
  }

  /** The event leaves the possible matches of the class alone. */
  ghost predicate KeepsMatch(v: View, v': View, n: NsName, e: Event, sc: StorageClass, r: Result<map<string, string>>) {
    && Happens(v, v', n, e) && ClusterSecretsPrefixed(v) && sc.provisioner == BLOCK_DRIVER
    ==> (Match(v, sc, r) <==> Match(v', sc, r))
  }

  /** The matches of all block-driver classes survive an event, in all surroundings, also
      among those with prefixed cluster secrets, if and only if it does not change what the
      matches see of the secret. */
  lemma EventMattersExact(n: NsName, e: Event)
    requires n.name != "" && n.ns != ""
    ensures (forall v, v', sc, r :: KeepsMatch(v, v', n, e, sc, r)) <==> SightOf(e.Before()) == SightOf(e.After())
  {
    if SightOf(e.Before()) == SightOf(e.After()) {
      forall v, v', sc, r ensures KeepsMatch(v, v', n, e, sc, r) {
        if Happens(v, v', n, e) { SightDecides(v, v', n, sc, r); }
      }
    } else {
      var address, sc, r := SightTells(n, e.Before(), e.After());
      ProbeHappens(n, e, address);
      assert !KeepsMatch(Probe(n, e.Before(), address), Probe(n, e.After(), address), n, e, sc, r);
    }
  }

  /** An event that makes no request for the class leaves its possible matches alone. */
  ghost predicate KeepsUnreached(v: View, v': View, n: NsName, e: Event, sc: StorageClass, r: Result<map<string, string>>) {
    && Happens(v, v', n, e) && sc.provisioner == BLOCK_DRIVER && !(Passes(e) && Requested(sc, n))
    ==> (Match(v, sc, r) <==> Match(v', sc, r))
  }

  /** Filter and mapper, exactly: over all surroundings, the classes an event makes no request
      for keep their matches, if and only if the matches do not see the event, or it passes
      the filter and either the secret carries the prefix or its effective address stays. */
  lemma FilterMapperExact(n: NsName, e: Event)
    requires n.name != "" && n.ns != ""
    ensures (forall v, v', sc, r :: KeepsUnreached(v, v', n, e, sc, r)) <==> LosesNothing(n, e)
  {
    if LosesNothing(n, e) {
      forall v, v', sc, r ensures KeepsUnreached(v, v', n, e, sc, r) {
        if Happens(v, v', n, e) && sc.provisioner == BLOCK_DRIVER && !(Passes(e) && Requested(sc, n)) {
          UnreachedKeepsMatches(v, v', n, e, sc, r);
        }
      }
    } else if !Passes(e) {
      var address, sc, r := SightTells(n, e.Before(), e.After());
      ProbeHappens(n, e, address);
      assert !KeepsUnreached(Probe(n, e.Before(), address), Probe(n, e.After(), address), n, e, sc, r);
    } else {
      var a, r := ClusterSecretTells(n, e);
      assert !KeepsUnreached(OwnProbe(n, e.Before(), a), OwnProbe(n, e.After(), a), n, e, ClassOn(OtherName(n), None), r);
    }
  }

  lemma ProbeHappens(n: NsName, e: Event, address: string)
    ensures Happens(Probe(n, e.Before(), address), Probe(n, e.After(), address), n, e)
    ensures ClusterSecretsPrefixed(Probe(n, e.Before(), address))
  {
    ProbeShows(n, e.Before(), address);
    ProbeShows(n, e.After(), address);
    ProbesDifferBySecret(n, e.Before(), e.After(), address);
  }

  function OtherName(n: NsName): NsName {
    NsName(n.ns + "x", "other")
  }

  /** One cluster "f" whose secret is `n`, if there is one, and another secret at the address. */
  function OwnProbe(n: NsName, s: Option<Secret>, address: string): View {
    var base: map<NsName, Secret> := map[OtherName(n) := Secret(Some(address), None)];
    View([Cluster("f", n, None)], if s.Some? then base[n := s.value] else base)
  }

  lemma OwnProbeShows(n: NsName, s: Option<Secret>, address: string)
    requires n.ns != ""
    ensures var v := OwnProbe(n, s, address);
      && Find(v, n) == s && v.secrets - {n} == map[OtherName(n) := Secret(Some(address), None)]
      && ClassSecret(v, ClassOn(OtherName(n), None)) == Ok(Secret(Some(address), None))
    ensures var v := OwnProbe(n, s, address);
      Scan(v, address, 0) == if s.None? then Err(SecretMissing) else if AddressOf(s.value) == address then Ok(Some(0)) else Ok(None)
  {
    var v := OwnProbe(n, s, address);
    assert |OtherName(n).ns| == |n.ns| + 1;
    ClassOnNames(OtherName(n), None);
    if s.Some? && AddressOf(s.value) != address { assert Scan(v, address, 1) == Ok(None); }
  }

  /** A class on another secret sees the address of the cluster change. */
  lemma ClusterSecretTells(n: NsName, e: Event) returns (a: string, r: Result<map<string, string>>)
    requires n.ns != "" && !IsFSCSecret(n.name) && !SameAddressOf(e)
    ensures var v, v', sc := OwnProbe(n, e.Before(), a), OwnProbe(n, e.After(), a), ClassOn(OtherName(n), None);
      Happens(v, v', n, e) && !Requested(sc, n) && (Match(v, sc, r) <==> !Match(v', sc, r))
  {
    a := if e.Updated? then AddressOf(e.before) else "";
    r := if e.Updated? then Ok(map["f" := ""]) else Err(SecretMissing);
    OwnProbeShows(n, e.Before(), a);
    OwnProbeShows(n, e.After(), a);
    ClassOnNames(OtherName(n), None);
    assert |OtherName(n).ns| == |n.ns| + 1;
    assert "f" in map["f" := ""];
  }

  // ---------------------------------------------------------------- the filter, on the secrets themselves

  /** All rows of the topology secret are rows of texts. */
  predicate TextTable(s: Secret) {
    Table(s.config) && forall id | id in Rows(s.config) :: TextRow(Rows(s.config)[id])
  }

  /** When an update passes: for a secret that had `config`, if both versions are tables of
      texts and an id is lost or its address changes; otherwise if the plain address is there
      on both sides and changes. */
  lemma UpdatePassesExactly(before: Secret, after: Secret)
    ensures Passes(Event.Updated(before, after)) <==>
      if before.config.Some? then
        && TextTable(before) && TextTable(after)
        && exists id :: id in Rows(before.config)
                        && (id !in Rows(after.config) || TextAddress(Rows(before.config)[id]) != TextAddress(Rows(after.config)[id]))
      else exists a, b :: before.address == Some(a) && after.address == Some(b) && a != b
  {
    DecodesExactly(before.config);
    DecodesExactly(after.config);
    if TextTable(before) && TextTable(after) {
      var o, n := AsTextMaps(before.config).value, AsTextMaps(after.config).value;
      forall id | id in Rows(before.config)
        ensures AddressChanged(o, n, id) <==>
          id !in Rows(after.config) || TextAddress(Rows(before.config)[id]) != TextAddress(Rows(after.config)[id])
      {
      }
    }
  }

  /** When a creation or a deletion passes: with `config`, if it is a table of texts and every
      id has an address field; otherwise if there is a plain address. */
  lemma PresencePassesExactly(s: Secret)
    ensures Passes(Created(s)) <==> Passes(Deleted(s))
    ensures Passes(Created(s)) <==>
      if s.config.Some? then TextTable(s) && forall id | id in Rows(s.config) :: Rows(s.config)[id].Object? && MGMT_ADDRESS in Rows(s.config)[id].fields
      else s.address.Some?
  {
    DecodesExactly(s.config);
    if TextTable(s) {
      forall id | id in Rows(s.config)
        ensures MGMT_ADDRESS in AsTextMaps(s.config).value[id] <==> Rows(s.config)[id].Object? && MGMT_ADDRESS in Rows(s.config)[id].fields
      {
        RowDecodes(Rows(s.config)[id]);
      }
    }
  }

  /** To all matches a secret without an address is one with the empty address. */
  lemma EmptyAddressIsNone(v: View, n: NsName, config: Option<Doc>, sc: StorageClass, r: Result<map<string, string>>)
    ensures Match(v.(secrets := v.secrets[n := Secret(None, config)]), sc, r)
      <==> Match(v.(secrets := v.secrets[n := Secret(Some(""), config)]), sc, r)
  {
    var x, y := v.(secrets := v.secrets[n := Secret(None, config)]), v.(secrets := v.secrets[n := Secret(Some(""), config)]);
    assert x.secrets - {n} == y.secrets - {n};
    SightDecides(x, y, n, sc, r);
  }
}
