/** The default StorageClass an operator builds from a cluster, and the loop it closes:
    cluster -> class -> secret -> cluster. */
module DefaultStorageClass {
  import opened Common
  import opened Matching
  import opened PersistentVolumes
  import PoolsConfigMap
  import Convergence

  function InitDefaultStorageClass(c: Cluster): Option<StorageClass> {
    if c.defaultPool.None? then None
    else
      var pool := c.defaultPool.value;
      Some(StorageClass(pool.storageClassName, BLOCK_DRIVER,
                        map["SpaceEfficiency" := pool.spaceEfficiency,
                            POOL := pool.poolName,
                            PROVISIONER_SECRET_NAME := c.secret.name,
                            PROVISIONER_SECRET_NAMESPACE := c.secret.ns,
                            "csi.storage.k8s.io/controller-publish-secret-name" := c.secret.name,
                            "csi.storage.k8s.io/controller-publish-secret-namespace" := c.secret.ns,
                            "csi.storage.k8s.io/controller-expand-secret-name" := c.secret.name,
                            "csi.storage.k8s.io/controller-expand-secret-namespace" := c.secret.ns,
                            "csi.storage.k8s.io/fstype" := pool.fsType,
                            "volume_name_prefix" := pool.volumeNamePrefix],
                        None))
  }

  predicate Named(c: Cluster) {
    c.secret.name != "" && c.secret.ns != ""
  }

  /** The class resolves to its own cluster's secret. */
  lemma ResolvesToOwnSecret(c: Cluster)
    requires c.defaultPool.Some? && Named(c)
    ensures var sc := InitDefaultStorageClass(c).value;
      ClassSecretName(sc) == Some(c.secret) && Get(sc.params, POOL) == c.defaultPool.value.poolName
  {
  }

  /** The scan for the address stops at cluster i: no secret is missing up to there, and no
      earlier cluster answers under the address. */
  predicate FirstAt(v: View, a: string, i: nat) {
    && i < |v.clusters| && (forall k | 0 <= k <= i :: v.clusters[k].secret in v.secrets)
    && ClusterAddress(v, i) == a && forall k | 0 <= k < i :: ClusterAddress(v, k) != a
  }

  /** A regular class is matched to exactly cluster i, with its own pool, if and only if its
      secret is there and the scan for the secret's address stops at i. */
  lemma RegularMatchExact(v: View, i: nat, sc: StorageClass, r: Result<map<string, string>>)
    requires UniqueNames(v) && i < |v.clusters| && sc.byMgmtId.None? && Match(v, sc, r)
    ensures r == Ok(map[v.clusters[i].name := Get(sc.params, POOL)])
      <==> ClassSecret(v, sc).Ok? && FirstAt(v, AddressOf(ClassSecret(v, sc).value), i)
  {
    var f, pool := v.clusters[i].name, Get(sc.params, POOL);
    if ClassSecret(v, sc).Ok? {
      ScanIsFirst(v, AddressOf(ClassSecret(v, sc).value), 0);
      assert f in map[f := pool];
    }
  }

  /** A regular class that names the secret of cluster i is matched to exactly that cluster if
      and only if neither this secret nor that of a cluster listed before is missing, and no
      cluster listed before answers under the same address. */
  lemma OwnMatchExact(v: View, i: nat, sc: StorageClass, r: Result<map<string, string>>)
    requires UniqueNames(v) && i < |v.clusters|
    requires sc.byMgmtId.None? && ClassSecretName(sc) == Some(v.clusters[i].secret) && Match(v, sc, r)
    ensures r == Ok(map[v.clusters[i].name := Get(sc.params, POOL)]) <==>
      && v.clusters[i].secret in v.secrets
      && forall k | 0 <= k < i :: v.clusters[k].secret in v.secrets && ClusterAddress(v, k) != ClusterAddress(v, i)
  {
    RegularMatchExact(v, i, sc, r);
  }

  /** The world of the protocol has the match the lookups gave the class. */
  ghost predicate Given(world: Convergence.World, sc: StorageClass, r: Result<map<string, string>>) {
    r.Ok? ==> sc.name in world.live && world.live[sc.name] == r.value
  }

  /** The loop is closed: the class is matched to exactly the cluster, its volume is labelled
      with it, and the converged entry maps the class to the pool. */
  ghost predicate Closed(x: Volumes, f: string, pool: string, sc: string, r: Result<map<string, string>>, pv: Volume, world: Convergence.World) {
    r == Ok(map[f := pool]) && LabelOf(x, pv) == Ok(Some(f)) && PoolsConfigMap.Holds(world.Expected(), f, sc, pool)
  }

  /** For a regular class that names the secret of cluster i the loop is closed if and only if
      no cluster's secret is missing and no other cluster shares the address. */
  lemma OwnClassClosesLoop(x: Volumes, i: nat, sc: StorageClass, r: Result<map<string, string>>, pv: Volume, world: Convergence.World)
    requires UniqueNames(x.view) && i < |x.view.clusters|
    requires sc.byMgmtId.None? && ClassSecretName(sc) == Some(x.view.clusters[i].secret)
    requires Match(x.view, sc, r) && OfClass(x, pv, sc)
    requires x.view.clusters[i].name in world.clusters && Given(world, sc, r)
    ensures Closed(x, x.view.clusters[i].name, Get(sc.params, POOL), sc.name, r, pv, world)
      <==> SecretsPresent(x.view) && OneAt(x.view, ClusterAddress(x.view, i))
  {
    var f, pool := x.view.clusters[i].name, Get(sc.params, POOL);
    OwnMatchExact(x.view, i, sc, r);
    RegularLabelIsMatch(x, pv, sc, r);
    assert f in map[f := pool];
  }

  /** The same for the default class of cluster i. */
  lemma DefaultClassClosesLoop(x: Volumes, i: nat, sc: StorageClass, r: Result<map<string, string>>, pv: Volume, world: Convergence.World)
    requires UniqueNames(x.view) && i < |x.view.clusters|
    requires var c := x.view.clusters[i]; Named(c) && InitDefaultStorageClass(c) == Some(sc)
    requires Match(x.view, sc, r) && OfClass(x, pv, sc)
    requires x.view.clusters[i].name in world.clusters && Given(world, sc, r)
    ensures var c := x.view.clusters[i];
      Closed(x, c.name, c.defaultPool.value.poolName, c.defaultPool.value.storageClassName, r, pv, world)
      <==> SecretsPresent(x.view) && OneAt(x.view, ClusterAddress(x.view, i))
  {
    ResolvesToOwnSecret(x.view.clusters[i]);
    OwnClassClosesLoop(x, i, sc, r, pv, world);
  }

  // ---------------------------------------------------------------- an existing class

  /** An existing class is accepted when it has the provisioner and all the expected
      parameters; it may have more. */
  predicate Accepts(found: StorageClass, expected: StorageClass) {
    && found.provisioner == expected.provisioner
    && forall k | k in expected.params :: k in found.params && found.params[k] == expected.params[k]
  }

  predicate Says(sc: StorageClass, key: string, value: string) {
    key in sc.params && sc.params[key] == value
  }

  /** The class uses the secret to provision, to publish and to expand volumes. */
  predicate UsesSecret(sc: StorageClass, secret: NsName) {
    && Says(sc, "csi.storage.k8s.io/provisioner-secret-name", secret.name)
    && Says(sc, "csi.storage.k8s.io/provisioner-secret-namespace", secret.ns)
    && Says(sc, "csi.storage.k8s.io/controller-publish-secret-name", secret.name)
    && Says(sc, "csi.storage.k8s.io/controller-publish-secret-namespace", secret.ns)
    && Says(sc, "csi.storage.k8s.io/controller-expand-secret-name", secret.name)
    && Says(sc, "csi.storage.k8s.io/controller-expand-secret-namespace", secret.ns)
  }

  /** The class a cluster's default class is built as. */
  predicate Serves(sc: StorageClass, pool: PoolConfig, secret: NsName) {
    && sc.provisioner == "block.csi.ibm.com" && UsesSecret(sc, secret)
    && Says(sc, "pool", pool.poolName) && Says(sc, "SpaceEfficiency", pool.spaceEfficiency)
    && Says(sc, "csi.storage.k8s.io/fstype", pool.fsType) && Says(sc, "volume_name_prefix", pool.volumeNamePrefix)
  }

  lemma DefaultClassServes(c: Cluster)
    requires c.defaultPool.Some?
    ensures var sc := InitDefaultStorageClass(c).value;
      && Serves(sc, c.defaultPool.value, c.secret) && sc.byMgmtId.None? && sc.name == c.defaultPool.value.storageClassName
      && sc.params.Keys == {"SpaceEfficiency", "pool", "csi.storage.k8s.io/fstype", "volume_name_prefix",
                            "csi.storage.k8s.io/provisioner-secret-name", "csi.storage.k8s.io/provisioner-secret-namespace",
                            "csi.storage.k8s.io/controller-publish-secret-name", "csi.storage.k8s.io/controller-publish-secret-namespace",
                            "csi.storage.k8s.io/controller-expand-secret-name", "csi.storage.k8s.io/controller-expand-secret-namespace"}
  {
  }

  /** An existing class is accepted as the default class of a cluster if and only if it has the
      block driver, the pool with its settings, and the cluster's secret for every purpose. */
  lemma AcceptedExactly(found: StorageClass, c: Cluster)
    requires c.defaultPool.Some?
    ensures Accepts(found, InitDefaultStorageClass(c).value) <==> Serves(found, c.defaultPool.value, c.secret)
  {
    var expected := InitDefaultStorageClass(c).value;
    DefaultClassServes(c);
    if Accepts(found, expected) { AcceptedServes(found, expected, c.defaultPool.value, c.secret); }
    if Serves(found, c.defaultPool.value, c.secret) {
      forall k | k in expected.params ensures Says(found, k, expected.params[k]) { }
    }
  }

  lemma AcceptedServes(found: StorageClass, expected: StorageClass, pool: PoolConfig, secret: NsName)
    requires Accepts(found, expected) && Serves(expected, pool, secret)
    ensures Serves(found, pool, secret)
  {
  }

  method CompareDefaultStorageClass(found: StorageClass, expected: StorageClass) returns (same: bool)
    ensures same == Accepts(found, expected)
  {
    if found.provisioner != expected.provisioner { return false; }
    var order := RangeOrder(expected.params.Keys);
    for i := 0 to |order|
      invariant forall j | 0 <= j < i ::
        order[j] in expected.params && order[j] in found.params && found.params[order[j]] == expected.params[order[j]]
    {
      assert order[i] in (set k | k in order);
      if order[i] !in found.params || found.params[order[i]] != expected.params[order[i]] { return false; }
    }
    assert forall k | k in expected.params :: k in (set y | y in order);
    same := true;
  }

  /** Every match of the class is exactly the cluster with the pool. */
  ghost predicate AlwaysMatched(v: View, sc: StorageClass, f: string, pool: string) {
    forall r | Match(v, sc, r) :: r == Ok(map[f := pool])
  }

  /** A topology class always gets exactly `f` and the pool if and only if some id leads to a
      cluster, and every id that does leads to `f` and selects the pool. */
  lemma TopologyMatchExact(v: View, sc: StorageClass, f: string, pool: string)
    requires sc.byMgmtId.Some?
    ensures AlwaysMatched(v, sc, f, pool) <==> OnlyIdsOf(v, sc, f, pool)
  {
    if ClassSecret(v, sc).Err? {
      assert Match(v, sc, Err(ClassSecret(v, sc).why));
    } else {
      var byId, data := ById(v, ClassSecret(v, sc).value), AsObject(sc.byMgmtId);
      if byId.Err? {
        assert Match(v, sc, Err(byId.why));
      } else if data.None? {
        assert Match(v, sc, Err(BadJson));
      } else if id :| id in byId.value && PoolFor(sc, data.value, id).Err? {
        assert Match(v, sc, Err(PoolFor(sc, data.value, id).why));
      } else {
        IdsDecide(v, sc, f, pool);
      }
    }
  }

  ghost predicate OnlyIdsOf(v: View, sc: StorageClass, f: string, pool: string) {
    && TopologySucceeds(v, sc)
    && var byId := ById(v, ClassSecret(v, sc).value).value;
       byId != map[] && forall id | id in byId :: byId[id].name == f && PoolFor(sc, AsObject(sc.byMgmtId).value, id) == Ok(pool)
  }

  lemma IdsDecide(v: View, sc: StorageClass, f: string, pool: string)
    requires TopologySucceeds(v, sc)
    ensures AlwaysMatched(v, sc, f, pool) <==> OnlyIdsOf(v, sc, f, pool)
  {
    if OnlyIdsOf(v, sc, f, pool) {
      forall r | Match(v, sc, r) ensures r == Ok(map[f := pool]) { OnlyMatch(v, sc, f, pool, r); }
    } else {
      var m := OtherMatch(v, sc, f, pool);
    }
  }

  lemma OnlyMatch(v: View, sc: StorageClass, f: string, pool: string, r: Result<map<string, string>>)
    requires OnlyIdsOf(v, sc, f, pool) && Match(v, sc, r)
    ensures r == Ok(map[f := pool])
  {
    var byId := ById(v, ClassSecret(v, sc).value).value;
    var some :| some in byId;
    assert byId[some].name == f && r.Ok?;
    assert r.value.Keys == {f};
    assert r.value == map[f := pool];
  }

  lemma OtherMatch(v: View, sc: StorageClass, f: string, pool: string) returns (m: map<string, string>)
    requires TopologySucceeds(v, sc) && !OnlyIdsOf(v, sc, f, pool)
    ensures Match(v, sc, Ok(m)) && m != map[f := pool]
  {
    var byId, data := ById(v, ClassSecret(v, sc).value).value, AsObject(sc.byMgmtId).value;
    assert f in map[f := pool];
    if byId == map[] {
      m := SomeMatch(sc, data, byId);
    } else {
      var id :| id in byId && !(byId[id].name == f && PoolFor(sc, data, id) == Ok(pool));
      m := MatchWith(sc, data, byId, id);
    }
  }

  /** What accepting an existing class as cluster i's default class leads to. The comparison
      looks neither at the default secret keys, which take precedence, nor at
      `by_management_id`. A regular accepted class is matched to exactly the cluster and its
      default pool if and only if the secret it resolves to is there and the scan for its
      address stops at the cluster; a topology class, if and only if its ids lead there. */
  lemma AcceptedClassExact(v: View, i: nat, found: StorageClass)
    requires UniqueNames(v) && i < |v.clusters| && v.clusters[i].defaultPool.Some?
    requires Accepts(found, InitDefaultStorageClass(v.clusters[i]).value)
    ensures var c := v.clusters[i];
      var pool := c.defaultPool.value.poolName;
      AlwaysMatched(v, found, c.name, pool) <==>
        if found.byMgmtId.None? then ClassSecret(v, found).Ok? && FirstAt(v, AddressOf(ClassSecret(v, found).value), i)
        else OnlyIdsOf(v, found, c.name, pool)
  {
    var c := v.clusters[i];
    var pool := c.defaultPool.value.poolName;
    assert POOL in InitDefaultStorageClass(c).value.params;
    assert Get(found.params, POOL) == pool;
    if found.byMgmtId.None? {
      var r := if ClassSecret(v, found).Err? then Err(ClassSecret(v, found).why) else RegularMatch(v, found, ClassSecret(v, found).value);
      assert Match(v, found, r);
      RegularMatchExact(v, i, found, r);
    } else {
      TopologyMatchExact(v, found, c.name, pool);
    }
  }

  /** The expected class with a `by_management_id` on top is accepted and resolves to the
      cluster's secret; the match fails all the same, because that secret has no `config`. */
  lemma TopologyClassIsAccepted(v: View, i: nat, byMgmtId: Doc)
    requires i < |v.clusters| && v.clusters[i].defaultPool.Some? && Named(v.clusters[i])
    requires v.clusters[i].secret in v.secrets && v.secrets[v.clusters[i].secret].config.None?
    ensures var c := v.clusters[i];
      var expected := InitDefaultStorageClass(c).value;
      var found := expected.(byMgmtId := Some(byMgmtId));
      && Accepts(found, expected) && ClassSecretName(found) == Some(c.secret)
      && forall r :: Match(v, found, r) <==> r == Err(BadJson)
  {
    ResolvesToOwnSecret(v.clusters[i]);
  }

  /** The expected class with default keys that name another secret at the same address is
      accepted and does not resolve to the cluster's secret; it is matched to the cluster all
      the same. */
  lemma OtherSecretIsAccepted(c: Cluster, other: NsName, a: string)
    requires c.defaultPool.Some? && Named(c) && other.name != "" && other.ns != "" && other != c.secret
    ensures var v := View([c], map[c.secret := Secret(Some(a), None), other := Secret(Some(a), None)]);
      var expected := InitDefaultStorageClass(c).value;
      var found := expected.(params := expected.params[SECRET_NAME := other.name][SECRET_NAMESPACE := other.ns]);
      && Accepts(found, expected) && ClassSecretName(found) == Some(other)
      && AlwaysMatched(v, found, c.name, c.defaultPool.value.poolName)
  {
    var v := View([c], map[c.secret := Secret(Some(a), None), other := Secret(Some(a), None)]);
    var expected := InitDefaultStorageClass(c).value;
    var found := expected.(params := expected.params[SECRET_NAME := other.name][SECRET_NAMESPACE := other.ns]);
    assert SECRET_NAME !in expected.params && SECRET_NAMESPACE !in expected.params;
    assert ClassSecret(v, found) == Ok(Secret(Some(a), None));
    AcceptedClassExact(v, 0, found);
  }
}
