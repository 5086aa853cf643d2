/** Which FlashSystemClusters a StorageClass or a PersistentVolume belongs to. */
module Matching {
  import opened Common

  const MGMT_ADDRESS: string := "management_address"
  const POOL: string := "pool"
  const BLOCK_DRIVER: string := "block.csi.ibm.com"
  const SECRET_NAME: string := "csi.storage.k8s.io/secret-name"
  const SECRET_NAMESPACE: string := "csi.storage.k8s.io/secret-namespace"
  const PROVISIONER_SECRET_NAME: string := "csi.storage.k8s.io/provisioner-secret-name"
  const PROVISIONER_SECRET_NAMESPACE: string := "csi.storage.k8s.io/provisioner-secret-namespace"

  /** A decoded JSON value; `Other` stands for numbers, booleans and arrays. */
  datatype Json = Null | Str(s: string) | Object(fields: map<string, Json>) | Other

  /** A text that should hold JSON. */
  datatype Doc = Malformed | Doc(json: Json)

  datatype NsName = NsName(ns: string, name: string)

  /** The keys `management_address` and `config` of a Secret, where present. */
  datatype Secret = Secret(address: Option<string>, config: Option<Doc>)

  datatype PoolConfig = PoolConfig(storageClassName: string, poolName: string, fsType: string,
                                   volumeNamePrefix: string, spaceEfficiency: string)

  datatype Cluster = Cluster(name: string, secret: NsName, defaultPool: Option<PoolConfig>)

  /** `byMgmtId` is the parameter `by_management_id`; `params` holds the others. */
  datatype StorageClass = StorageClass(name: string, provisioner: string,
                                       params: map<string, string>, byMgmtId: Option<Doc>)

  /** What the lookups see: the clusters in list order and the secrets. */
  datatype View = View(clusters: seq<Cluster>, secrets: map<NsName, Secret>)

  datatype Why = NoSecretName | SecretMissing | BadJson | UnknownId | Panic | ObjectMissing | BadHandle

  datatype Result<+T> = Ok(value: T) | Err(why: Why)

  function Get(m: map<string, string>, k: string): string {
    if k in m then m[k] else ""
  }

  // ---------------------------------------------------------------- secrets and addresses

  function ClassSecretName(sc: StorageClass): Option<NsName> {
    var name, ns := Get(sc.params, SECRET_NAME), Get(sc.params, SECRET_NAMESPACE);
    if name != "" && ns != "" then Some(NsName(ns, name))
    else
      var name', ns' := Get(sc.params, PROVISIONER_SECRET_NAME), Get(sc.params, PROVISIONER_SECRET_NAMESPACE);
      if name' != "" && ns' != "" then Some(NsName(ns', name')) else None
  }

  function ClassSecret(v: View, sc: StorageClass): Result<Secret> {
    var n := ClassSecretName(sc);
    if n.None? then Err(NoSecretName)
    else if n.value !in v.secrets then Err(SecretMissing)
    else Ok(v.secrets[n.value])
  }

  /** A missing address counts as the empty one. */
  function AddressOf(s: Secret): string {
    if s.address.Some? then s.address.value else ""
  }

  /** The address cluster `i` answers under. */
  function ClusterAddress(v: View, i: nat): string
    requires i < |v.clusters| && v.clusters[i].secret in v.secrets
  {
    AddressOf(v.secrets[v.clusters[i].secret])
  }

  predicate SecretsPresent(v: View) {
    forall i | 0 <= i < |v.clusters| :: v.clusters[i].secret in v.secrets
  }

  predicate DistinctAddresses(v: View)
    requires SecretsPresent(v)
  {
    forall i, j | 0 <= i < j < |v.clusters| :: ClusterAddress(v, i) != ClusterAddress(v, j)
  }

  // ---------------------------------------------------------------- index and scan

  /** The index of the first `n` clusters by address; the last cluster wins. */
  function IndexOf(v: View, n: nat): map<string, Cluster>
    requires n <= |v.clusters| && SecretsPresent(v)
  {
    if n == 0 then map[]
    else IndexOf(v, n - 1)[ClusterAddress(v, n - 1) := v.clusters[n - 1]]
  }

  function Index(v: View): Result<map<string, Cluster>> {
    if SecretsPresent(v) then Ok(IndexOf(v, |v.clusters|)) else Err(SecretMissing)
  }

  method MapClustersByMgmtAddress(v: View) returns (r: Result<map<string, Cluster>>)
    ensures r == Index(v)
  {
    var index: map<string, Cluster> := map[];
    for i := 0 to |v.clusters|
      invariant forall j | 0 <= j < i :: v.clusters[j].secret in v.secrets
      invariant SecretsPresent(v) ==> index == IndexOf(v, i)
    {
      var c := v.clusters[i];
      if c.secret !in v.secrets { return Err(SecretMissing); }
      index := index[AddressOf(v.secrets[c.secret]) := c];
    }
    r := Ok(index);
  }

  /** `j` is the last of the first `n` clusters that has address `a`. */
  ghost predicate IsLast(v: View, n: nat, a: string, j: nat)
    requires SecretsPresent(v)
  {
    && j < n <= |v.clusters| && ClusterAddress(v, j) == a
    && forall k | j < k < n :: ClusterAddress(v, k) != a
  }

  /** The index holds exactly the addresses that occur, each with the last cluster
      that has it. */
  lemma {:induction false} IndexIsLastWins(v: View, n: nat, a: string)
    requires SecretsPresent(v) && n <= |v.clusters|
    ensures a in IndexOf(v, n) <==> exists j: nat :: IsLast(v, n, a, j)
    ensures forall j: nat | IsLast(v, n, a, j) :: IndexOf(v, n)[a] == v.clusters[j]
  {
    if n > 0 {
      var m := n - 1;
      IndexIsLastWins(v, m, a);
      if ClusterAddress(v, m) == a {
        assert IsLast(v, n, a, m);
      } else {
        assert forall j: nat | IsLast(v, n, a, j) :: IsLast(v, m, a, j);
        if j: nat :| IsLast(v, m, a, j) { assert IsLast(v, n, a, j); }
      }
    }
  }

  /** The first cluster from `i` on that has address `a`; fails at a missing secret. */
  function Scan(v: View, a: string, i: nat): Result<Option<nat>>
    requires i <= |v.clusters|
    decreases |v.clusters| - i
  {
    if i == |v.clusters| then Ok(None)
    else if v.clusters[i].secret !in v.secrets then Err(SecretMissing)
    else if ClusterAddress(v, i) == a then Ok(Some(i))
    else Scan(v, a, i + 1)
  }

  /** What the scan answers: the first cluster with the address, provided no secret is
      missing before it; a failure exactly when one is. */
  lemma {:induction false} ScanIsFirst(v: View, a: string, i: nat)
    requires i <= |v.clusters|
    ensures match Scan(v, a, i)
      case Ok(Some(j)) =>
        && i <= j < |v.clusters| && (forall k | i <= k <= j :: v.clusters[k].secret in v.secrets)
        && ClusterAddress(v, j) == a && forall k | i <= k < j :: ClusterAddress(v, k) != a
      case Ok(None) =>
        forall k | i <= k < |v.clusters| :: v.clusters[k].secret in v.secrets && ClusterAddress(v, k) != a
      case Err(why) =>
        && why == SecretMissing
        && exists j ::
             && i <= j < |v.clusters| && v.clusters[j].secret !in v.secrets
             && forall k | i <= k < j :: v.clusters[k].secret in v.secrets && ClusterAddress(v, k) != a
    decreases |v.clusters| - i
  {
    if i < |v.clusters| && v.clusters[i].secret in v.secrets && ClusterAddress(v, i) != a {
      ScanIsFirst(v, a, i + 1);
    }
  }

  /** The match of a regular StorageClass: at most one cluster, with the class's pool. */
  function RegularMatch(v: View, sc: StorageClass, secret: Secret): Result<map<string, string>> {
    match Scan(v, AddressOf(secret), 0)
    case Err(why) => Err(why)
    case Ok(None) => Ok(map[])
    case Ok(Some(j)) =>
      ScanIsFirst(v, AddressOf(secret), 0);
      Ok(map[v.clusters[j].name := Get(sc.params, POOL)])
  }

  method GetFscByRegularStorageClass(v: View, sc: StorageClass, secret: Secret)
    returns (r: Result<map<string, string>>)
    ensures r == RegularMatch(v, sc, secret)
  {
    for i := 0 to |v.clusters|
      invariant Scan(v, AddressOf(secret), 0) == Scan(v, AddressOf(secret), i)
    {
      var c := v.clusters[i];
      if c.secret !in v.secrets { return Err(SecretMissing); }
      if AddressOf(v.secrets[c.secret]) == AddressOf(secret) {
        return Ok(map[c.name := Get(sc.params, POOL)]);
      }
    }
    r := Ok(map[]);
  }

  /** Whenever the index builds, the scan succeeds, and it finds a cluster exactly for
      the addresses in the index. The scan gives the first cluster with the address, the
      index the last. */
  lemma IndexVersusScan(v: View, a: string)
    requires SecretsPresent(v)
    ensures Scan(v, a, 0).Ok?
    ensures var index, found := IndexOf(v, |v.clusters|), Scan(v, a, 0).value;
      && (found.Some? <==> a in index)
      && (found.Some? ==> exists j: nat ::
            found.value <= j && IsLast(v, |v.clusters|, a, j) && index[a] == v.clusters[j])
  {
    ScanIsFirst(v, a, 0);
    IndexIsLastWins(v, |v.clusters|, a);
    var found := Scan(v, a, 0).value;
    if found.Some? {
      var j := LastWith(v, a, found.value);
      assert IsLast(v, |v.clusters|, a, j);
    }
  }

  lemma {:induction false} LastWith(v: View, a: string, i: nat) returns (j: nat)
    requires SecretsPresent(v) && i < |v.clusters| && ClusterAddress(v, i) == a
    ensures i <= j && IsLast(v, |v.clusters|, a, j)
    decreases |v.clusters| - i
  {
    j := i;
    if k :| i < k < |v.clusters| && ClusterAddress(v, k) == a {
      j := LastWith(v, a, k);
    }
  }

  predicate UniqueNames(v: View) {
    forall i, j | 0 <= i < j < |v.clusters| :: v.clusters[i].name != v.clusters[j].name
  }

  /** Scan and index both answer for the address, and with the same cluster. */
  ghost predicate SamePick(v: View, a: string) {
    var index, found := Index(v), Scan(v, a, 0);
    && index.Ok? && found.Ok? && (found.value.Some? <==> a in index.value)
    && (a in index.value ==> found.value.value < |v.clusters| && index.value[a].name == v.clusters[found.value.value].name)
  }

  /** At most one cluster has the address. */
  predicate OneAt(v: View, a: string)
    requires SecretsPresent(v)
  {
    forall i, j | 0 <= i < j < |v.clusters| && ClusterAddress(v, i) == a :: ClusterAddress(v, j) != a
  }

  /** For one address scan and index agree if and only if no secret is missing and no two
      clusters share the address. */
  lemma SamePickExact(v: View, a: string)
    requires UniqueNames(v)
    ensures SamePick(v, a) <==> SecretsPresent(v) && OneAt(v, a)
  {
    if SecretsPresent(v) {
      IndexVersusScan(v, a);
      ScanIsFirst(v, a, 0);
      var found := Scan(v, a, 0).value;
      if found.Some? {
        var i := found.value;
        var j := LastWith(v, a, i);
        IndexIsLastWins(v, |v.clusters|, a);
        assert i == j ==> OneAt(v, a);
        assert i < j ==> !OneAt(v, a);
      }
    }
  }

  /** They agree for all addresses if and only if no secret is missing and the addresses are
      pairwise distinct. */
  lemma IndexAgreesWithScan(v: View)
    requires UniqueNames(v)
    ensures (forall a :: SamePick(v, a)) <==> SecretsPresent(v) && DistinctAddresses(v)
  {
    forall a ensures SamePick(v, a) <==> SecretsPresent(v) && OneAt(v, a) { SamePickExact(v, a); }
    if SecretsPresent(v) && !DistinctAddresses(v) {
      var i, j :| 0 <= i < j < |v.clusters| && ClusterAddress(v, i) == ClusterAddress(v, j);
      assert !SamePick(v, ClusterAddress(v, i));
    } else if !SecretsPresent(v) {
      assert !SamePick(v, "");
    }
  }

  /** Two clusters at one address: the scan picks the first, the index the second. */
  lemma SharedAddressSplits(f: string, g: string, x: string)
    requires f != g
    ensures var a, b := NsName("ns", "a"), NsName("ns", "b");
      var v := View([Cluster(f, a, None), Cluster(g, b, None)], map[a := Secret(Some(x), None), b := Secret(Some(x), None)]);
      && UniqueNames(v) && SecretsPresent(v) && Scan(v, x, 0) == Ok(Some(0))
      && IndexOf(v, 2) == map[x := v.clusters[1]] && !SamePick(v, x)
  {
    var a, b := NsName("ns", "a"), NsName("ns", "b");
    var v := View([Cluster(f, a, None), Cluster(g, b, None)], map[a := Secret(Some(x), None), b := Secret(Some(x), None)]);
    assert IndexOf(v, 0) == map[] && IndexOf(v, 1) == map[x := v.clusters[0]];
    assert ClusterAddress(v, 0) == x && ClusterAddress(v, 1) == x;
  }

  // ---------------------------------------------------------------- topology

  /** Decoding into a map of arbitrary values; a missing text is malformed. */
  function AsObject(d: Option<Doc>): Option<map<string, Json>> {
    match d
    case Some(Doc(Object(m))) => Some(m)
    case Some(Doc(Null)) => Some(map[])
    case _ => None
  }

  /** The address under one management id; the type assertions panic on None. */
  function IdAddress(j: Json): Option<string> {
    if j.Object? && MGMT_ADDRESS in j.fields && j.fields[MGMT_ADDRESS].Str?
    then Some(j.fields[MGMT_ADDRESS].s) else None
  }

  /** The clusters named by a topology secret, per management id. */
  function ById(v: View, secret: Secret): Result<map<string, Cluster>> {
    var ids := AsObject(secret.config);
    if ids.None? then Err(BadJson)
    else if !SecretsPresent(v) then Err(SecretMissing)
    else if exists id :: id in ids.value && IdAddress(ids.value[id]).None? then Err(Panic)
    else Ok(Resolve(ids.value, IndexOf(v, |v.clusters|)))
  }

  function Resolve(ids: map<string, Json>, index: map<string, Cluster>): map<string, Cluster> {
    map id | id in ids && IdAddress(ids[id]).Some? && IdAddress(ids[id]).value in index
      :: index[IdAddress(ids[id]).value]
  }

  /** The entries of `m` whose keys are in `done`. */
  function Restrict<V>(m: map<string, V>, done: seq<string>): map<string, V> {
    map k | k in m && k in done :: m[k]
  }

  lemma RestrictAll<V>(m: map<string, V>, keys: set<string>, order: seq<string>)
    requires Enumerates(order, keys) && m.Keys <= keys
    ensures Restrict(m, order) == m
  {
  }

  lemma RestrictNext<V>(m: map<string, V>, order: seq<string>, i: nat)
    requires i < |order|
    ensures Restrict(m, order[..i + 1])
      == if order[i] in m then Restrict(m, order[..i])[order[i] := m[order[i]]] else Restrict(m, order[..i])
  {
  }

  method MapClustersByMgmtId(v: View, secret: Secret) returns (r: Result<map<string, Cluster>>)
    ensures r == ById(v, secret)
  {
    var ids := AsObject(secret.config);
    if ids.None? { return Err(BadJson); }
    var index := MapClustersByMgmtAddress(v);
    if index.Err? { return Err(SecretMissing); }
    var byId: map<string, Cluster> := map[];
    var order := RangeOrder(ids.value.Keys);
    ghost var all := Resolve(ids.value, index.value);
    for i := 0 to |order|
      invariant forall k | 0 <= k < i :: order[k] in ids.value && IdAddress(ids.value[order[k]]).Some?
      invariant byId == Restrict(all, order[..i])
    {
      assert order[i] in (set k | k in order);
      var address := IdAddress(ids.value[order[i]]);
      if address.None? { return Err(Panic); }
      RestrictNext(all, order, i);
      if address.value in index.value {
        byId := byId[order[i] := index.value[address.value]];
      }
    }
    assert order[..|order|] == order;
    RestrictAll(all, ids.value.Keys, order);
    assert forall id | id in ids.value :: id in (set k | k in order);
    r := Ok(byId);
  }

  /** The pool under one management id, with the class's own pool as the default. */
  function PoolFor(sc: StorageClass, byMgmtId: map<string, Json>, id: string): Result<string> {
    if id !in byMgmtId then Err(UnknownId)
    else if !byMgmtId[id].Object? then Err(Panic)
    else
      var fields := byMgmtId[id].fields;
      Ok(if POOL in fields && fields[POOL].Str? then fields[POOL].s else Get(sc.params, POOL))
  }

  /** A possible match of a topology StorageClass. Where two ids name the same cluster
      the pool of either may win, as Go ranges over maps in any order. */
  ghost predicate TopologyMatch(v: View, sc: StorageClass, secret: Secret, r: Result<map<string, string>>) {
    TopologyOutcome(sc, ById(v, secret), r)
  }

  ghost predicate TopologyOutcome(sc: StorageClass, byId: Result<map<string, Cluster>>, r: Result<map<string, string>>) {
    var data := AsObject(sc.byMgmtId);
    if byId.Err? then r == Err(byId.why)
    else if data.None? then r == Err(BadJson)
    else if r.Ok? then
      && (forall id | id in byId.value :: PoolFor(sc, data.value, id).Ok?)
      && r.value.Keys == (set id | id in byId.value :: byId.value[id].name)
      && forall f | f in r.value :: exists id :: id in byId.value && byId.value[id].name == f
                                                 && PoolFor(sc, data.value, id) == Ok(r.value[f])
    else exists id :: id in byId.value && PoolFor(sc, data.value, id) == Err(r.why)
  }

  /** The loop over the ids in the given order: a later id of the same cluster overwrites an
      earlier one, and the first id without pool data ends it. */
  function TopologyLoop(sc: StorageClass, data: map<string, Json>, byId: map<string, Cluster>, order: seq<string>)
    : Result<map<string, string>>
  {
    if order == [] then Ok(map[])
    else
      var id := order[|order| - 1];
      var pools := TopologyLoop(sc, data, byId, order[..|order| - 1]);
      if pools.Err? || id !in byId then pools
      else
        var pool := PoolFor(sc, data, id);
        if pool.Err? then Err(pool.why) else Ok(pools.value[byId[id].name := pool.value])
  }

  /** What the first `n` ids of the loop have put into the result. */
  ghost predicate Collected(sc: StorageClass, data: map<string, Json>, byId: map<string, Cluster>,
                            order: seq<string>, n: nat, pools: map<string, string>) {
    && n <= |order|
    && (forall k | 0 <= k < n :: order[k] in byId && PoolFor(sc, data, order[k]).Ok? && byId[order[k]].name in pools)
    && forall f | f in pools :: exists k :: 0 <= k < n && byId[order[k]].name == f
                                            && PoolFor(sc, data, order[k]) == Ok(pools[f])
  }

  lemma CollectNext(sc: StorageClass, data: map<string, Json>, byId: map<string, Cluster>,
                    order: seq<string>, n: nat, pools: map<string, string>)
    requires Collected(sc, data, byId, order, n, pools) && n < |order|
    requires order[n] in byId && PoolFor(sc, data, order[n]).Ok?
    ensures Collected(sc, data, byId, order, n + 1, pools[byId[order[n]].name := PoolFor(sc, data, order[n]).value])
  {
  }

  lemma {:induction false} LoopCollects(sc: StorageClass, data: map<string, Json>, byId: map<string, Cluster>, order: seq<string>)
    requires forall k | 0 <= k < |order| :: order[k] in byId
    ensures match TopologyLoop(sc, data, byId, order)
      case Ok(pools) => Collected(sc, data, byId, order, |order|, pools)
      case Err(why) => exists id :: id in byId && PoolFor(sc, data, id) == Err(why)
  {
    if order != [] {
      var n := |order| - 1;
      LoopCollects(sc, data, byId, order[..n]);
      var pools := TopologyLoop(sc, data, byId, order[..n]);
      if pools.Ok? && PoolFor(sc, data, order[n]).Ok? {
        assert Collected(sc, data, byId, order, n, pools.value) by {
          assert forall k | 0 <= k < n :: order[..n][k] == order[k];
        }
        CollectNext(sc, data, byId, order, n, pools.value);
      }
    }
  }

  lemma CollectedAll(sc: StorageClass, data: map<string, Json>, byId: map<string, Cluster>,
                     order: seq<string>, pools: map<string, string>)
    requires Collected(sc, data, byId, order, |order|, pools) && Enumerates(order, byId.Keys)
    requires AsObject(sc.byMgmtId) == Some(data)
    ensures TopologyOutcome(sc, Ok(byId), Ok(pools))
  {
  }

  /** `r` comes out of the loop in this order. */
  ghost predicate LoopGives(sc: StorageClass, data: map<string, Json>, byId: map<string, Cluster>,
                            order: seq<string>, r: Result<map<string, string>>) {
    Enumerates(order, byId.Keys) && TopologyLoop(sc, data, byId, order) == r
  }

  lemma LoopLands(sc: StorageClass, data: map<string, Json>, byId: map<string, Cluster>,
                  order: seq<string>, r: Result<map<string, string>>)
    requires AsObject(sc.byMgmtId) == Some(data) && LoopGives(sc, data, byId, order, r)
    ensures TopologyOutcome(sc, Ok(byId), r)
  {
    assert forall k | 0 <= k < |order| :: order[k] in (set id | id in order);
    LoopCollects(sc, data, byId, order);
    if r.Ok? { CollectedAll(sc, data, byId, order, r.value); }
  }

  /** An id without pool data that comes first ends the loop. */
  lemma {:induction false} FirstIdFails(sc: StorageClass, data: map<string, Json>, byId: map<string, Cluster>, order: seq<string>)
    requires order != [] && order[0] in byId && PoolFor(sc, data, order[0]).Err?
    ensures TopologyLoop(sc, data, byId, order) == Err(PoolFor(sc, data, order[0]).why)
  {
    var n := |order| - 1;
    if n == 0 {
      assert TopologyLoop(sc, data, byId, order[..0]) == Ok(map[]);
    } else {
      FirstIdFails(sc, data, byId, order[..n]);
    }
  }

  /** `id` is the last of the order that leads to its cluster. */
  ghost predicate LastOfName(byId: map<string, Cluster>, order: seq<string>, k: nat) {
    && k < |order| && order[k] in byId
    && forall j | k < j < |order| && order[j] in byId :: byId[order[j]].name != byId[order[k]].name
  }

  /** If all ids have pool data the last id of a cluster decides its pool. */
  lemma {:induction false} LastIdWins(sc: StorageClass, data: map<string, Json>, byId: map<string, Cluster>, order: seq<string>, k: nat)
    requires AllPools(sc, data, byId) && LastOfName(byId, order, k)
    ensures var r, f := TopologyLoop(sc, data, byId, order), byId[order[k]].name;
      r.Ok? && f in r.value && Ok(r.value[f]) == PoolFor(sc, data, order[k])
  {
    var n := |order| - 1;
    var front := order[..n];
    LoopSucceeds(sc, data, byId, front);
    if k < n {
      assert LastOfName(byId, front, k) by { assert forall j | 0 <= j < n :: front[j] == order[j]; }
      LastIdWins(sc, data, byId, front, k);
    }
  }

  lemma {:induction false} LoopSucceeds(sc: StorageClass, data: map<string, Json>, byId: map<string, Cluster>, order: seq<string>)
    requires AllPools(sc, data, byId)
    ensures TopologyLoop(sc, data, byId, order).Ok?
  {
    if order != [] { LoopSucceeds(sc, data, byId, order[..|order| - 1]); }
  }

  /** The order ends each cluster with an id that gives it the pool of `m`. */
  ghost predicate EndsWith(sc: StorageClass, data: map<string, Json>, byId: map<string, Cluster>,
                           order: seq<string>, f: string, pool: string, k: nat) {
    LastOfName(byId, order, k) && byId[order[k]].name == f && PoolFor(sc, data, order[k]) == Ok(pool)
  }

  lemma EndsDecide(sc: StorageClass, data: map<string, Json>, byId: map<string, Cluster>, m: map<string, string>, order: seq<string>)
    requires TopologyOutcome(sc, Ok(byId), Ok(m)) && AsObject(sc.byMgmtId) == Some(data) && Enumerates(order, byId.Keys)
    requires forall f | f in m :: exists k: nat :: EndsWith(sc, data, byId, order, f, m[f], k)
    ensures TopologyLoop(sc, data, byId, order) == Ok(m)
  {
    var got := LoopNames(sc, data, byId, order, m.Keys);
    forall f | f in m ensures got[f] == m[f] {
      var k: nat :| EndsWith(sc, data, byId, order, f, m[f], k);
      LastIdWins(sc, data, byId, order, k);
    }
    assert got == m;
  }

  lemma LoopNames(sc: StorageClass, data: map<string, Json>, byId: map<string, Cluster>, order: seq<string>, names: set<string>)
    returns (got: map<string, string>)
    requires AllPools(sc, data, byId) && AsObject(sc.byMgmtId) == Some(data) && Enumerates(order, byId.Keys)
    requires names == set id | id in byId :: byId[id].name
    ensures TopologyLoop(sc, data, byId, order) == Ok(got) && got.Keys == names
  {
    LoopSucceeds(sc, data, byId, order);
    got := TopologyLoop(sc, data, byId, order).value;
    LoopLands(sc, data, byId, order, Ok(got));
  }

  /** The ids whose pools make up `m`, one per cluster, put last in the order. */
  lemma WinnersLast(byId: map<string, Cluster>, w: map<string, string>) returns (order: seq<string>)
    requires forall f | f in w :: w[f] in byId && byId[w[f]].name == f
    ensures Enumerates(order, byId.Keys)
    ensures forall f | f in w :: exists k: nat :: LastOfName(byId, order, k) && order[k] == w[f]
  {
    var won := set f | f in w :: w[f];
    var rest := Ordering(byId.Keys - won);
    var last := Ordering(won);
    order := rest + last;
    JoinOrders(rest, last, byId.Keys - won, won);
    assert byId.Keys - won + won == byId.Keys;
    forall f | f in w ensures exists k: nat :: LastOfName(byId, order, k) && order[k] == w[f] {
      var k := WinnerIsLast(byId, w, f, rest, last);
    }
  }

  lemma WinnerIsLast(byId: map<string, Cluster>, w: map<string, string>, f: string, rest: seq<string>, last: seq<string>) returns (k: nat)
    requires f in w && Enumerates(last, set g | g in w :: w[g])
    requires forall g | g in w :: w[g] in byId && byId[w[g]].name == g
    ensures LastOfName(byId, rest + last, k) && (rest + last)[k] == w[f]
  {
    var won := set g | g in w :: w[g];
    Members(last, won);
    assert w[f] in won;
    var i :| 0 <= i < |last| && last[i] == w[f];
    k := |rest| + i;
    forall j | i < j < |last| ensures last[j] in byId && byId[last[j]].name != f {
      assert last[j] in won && last[i] != last[j];
    }
    assert forall j | k < j < |rest + last| :: (rest + last)[j] == last[j - |rest|];
  }

  /** The relation is exact: a result is a possible match if and only if the loop gives it in
      some order of the ids. */
  lemma TopologyOutcomeExact(sc: StorageClass, data: map<string, Json>, byId: map<string, Cluster>, r: Result<map<string, string>>)
    requires AsObject(sc.byMgmtId) == Some(data)
    ensures TopologyOutcome(sc, Ok(byId), r) <==> exists order :: LoopGives(sc, data, byId, order, r)
  {
    forall order | LoopGives(sc, data, byId, order, r) ensures TopologyOutcome(sc, Ok(byId), r) {
      LoopLands(sc, data, byId, order, r);
    }
    if TopologyOutcome(sc, Ok(byId), r) {
      var order := OrderFor(sc, data, byId, r);
      assert LoopGives(sc, data, byId, order, r);
    }
  }

  lemma OrderFor(sc: StorageClass, data: map<string, Json>, byId: map<string, Cluster>, r: Result<map<string, string>>) returns (order: seq<string>)
    requires AsObject(sc.byMgmtId) == Some(data) && TopologyOutcome(sc, Ok(byId), r)
    ensures LoopGives(sc, data, byId, order, r)
  {
    if r.Err? {
      var id :| id in byId && PoolFor(sc, data, id) == Err(r.why);
      order := OrderingFrom(byId.Keys, id);
      FirstIdFails(sc, data, byId, order);
    } else {
      var w := SomeWinners(sc, data, byId, r.value);
      order := WinnersLast(byId, w);
      forall f | f in r.value ensures exists k: nat :: EndsWith(sc, data, byId, order, f, r.value[f], k) {
        var k: nat :| LastOfName(byId, order, k) && order[k] == w[f];
        assert EndsWith(sc, data, byId, order, f, r.value[f], k);
      }
      EndsDecide(sc, data, byId, r.value, order);
    }
  }

  lemma SomeWinners(sc: StorageClass, data: map<string, Json>, byId: map<string, Cluster>, m: map<string, string>) returns (w: map<string, string>)
    requires AsObject(sc.byMgmtId) == Some(data) && TopologyOutcome(sc, Ok(byId), Ok(m))
    ensures w.Keys == m.Keys
    ensures forall f | f in w :: w[f] in byId && byId[w[f]].name == f && PoolFor(sc, data, w[f]) == Ok(m[f])
  {
    w := map f | f in m :: (var id :| id in byId && byId[id].name == f && PoolFor(sc, data, id) == Ok(m[f]); id);
  }

  method GetFscByTopologyStorageClass(v: View, sc: StorageClass, secret: Secret)
    returns (r: Result<map<string, string>>)
    ensures TopologyMatch(v, sc, secret, r)
  {
    var byId := MapClustersByMgmtId(v, secret);
    if byId.Err? { return Err(byId.why); }
    var data := AsObject(sc.byMgmtId);
    if data.None? { return Err(BadJson); }
    var pools: map<string, string> := map[];
    var order := RangeOrder(byId.value.Keys);
    for i := 0 to |order|
      invariant TopologyLoop(sc, data.value, byId.value, order[..i]) == Ok(pools)
    {
      assert order[i] in (set k | k in order);
      assert order[..i + 1][..i] == order[..i];
      var pool := PoolFor(sc, data.value, order[i]);
      if pool.Err? { return Err(pool.why); }
      pools := pools[byId.value[order[i]].name := pool.value];
    }
    assert order[..|order|] == order;
    r := Ok(pools);
    LoopLands(sc, data.value, byId.value, order, r);
  }

  /** Every possible answer of the match. */
  ghost predicate Match(v: View, sc: StorageClass, r: Result<map<string, string>>) {
    var secret := ClassSecret(v, sc);
    if secret.Err? then r == Err(secret.why)
    else if sc.byMgmtId.Some? then TopologyMatch(v, sc, secret.value, r)
    else r == RegularMatch(v, sc, secret.value)
  }

  method GetFlashSystemClusterByStorageClass(v: View, sc: StorageClass) returns (r: Result<map<string, string>>)
    ensures Match(v, sc, r)
  {
    var secret := ClassSecret(v, sc);
    if secret.Err? { return Err(secret.why); }
    if sc.byMgmtId.Some? {
      r := GetFscByTopologyStorageClass(v, sc, secret.value);
    } else {
      r := GetFscByRegularStorageClass(v, sc, secret.value);
    }
  }

  /** A matched cluster exists. */
  lemma MatchedClustersExist(v: View, sc: StorageClass, m: map<string, string>)
    requires Match(v, sc, Ok(m))
    ensures forall f | f in m :: exists j :: 0 <= j < |v.clusters| && v.clusters[j].name == f
  {
    var secret := ClassSecret(v, sc).value;
    if sc.byMgmtId.Some? {
      var ids, byId := AsObject(secret.config).value, ById(v, secret).value;
      forall f | f in m ensures exists j :: 0 <= j < |v.clusters| && v.clusters[j].name == f {
        var id :| id in byId && byId[id].name == f;
        IndexIsLastWins(v, |v.clusters|, IdAddress(ids[id]).value);
      }
    } else {
      ScanIsFirst(v, AddressOf(secret), 0);
    }
  }

  /** A class whose lookups can fail never succeeds, in any order, and the other way round. */
  lemma FailureExcludesMatch(v: View, sc: StorageClass, why: Why, m: map<string, string>)
    requires Match(v, sc, Err(why))
    ensures !Match(v, sc, Ok(m))
  {
  }

  // ---------------------------------------------------------------- when the match is determined

  /** Ids that name the same cluster give the same pool. */
  ghost predicate SamePools(sc: StorageClass, data: map<string, Json>, byId: map<string, Cluster>) {
    forall a, b | a in byId && b in byId && byId[a].name == byId[b].name :: PoolFor(sc, data, a) == PoolFor(sc, data, b)
  }

  ghost predicate AllPools(sc: StorageClass, data: map<string, Json>, byId: map<string, Cluster>) {
    forall id | id in byId :: PoolFor(sc, data, id).Ok?
  }

  /** The loops over the ids reach their end. */
  ghost predicate TopologySucceeds(v: View, sc: StorageClass) {
    && sc.byMgmtId.Some? && AsObject(sc.byMgmtId).Some?
    && ClassSecret(v, sc).Ok? && ById(v, ClassSecret(v, sc).value).Ok?
    && AllPools(sc, AsObject(sc.byMgmtId).value, ById(v, ClassSecret(v, sc).value).value)
  }

  /** The loop over the ids of the class gives `m` in some order. */
  ghost predicate LoopMayGive(v: View, sc: StorageClass, m: map<string, string>) {
    && TopologySucceeds(v, sc)
    && exists order ::
         LoopGives(sc, AsObject(sc.byMgmtId).value, ById(v, ClassSecret(v, sc).value).value, order, Ok(m))
  }

  ghost predicate Determined(v: View, sc: StorageClass) {
    TopologySucceeds(v, sc) ==>
      SamePools(sc, AsObject(sc.byMgmtId).value, ById(v, ClassSecret(v, sc).value).value)
  }

  /** The two successful matches agree. */
  ghost predicate MatchesAgree(v: View, sc: StorageClass, m: map<string, string>, m': map<string, string>) {
    Match(v, sc, Ok(m)) && Match(v, sc, Ok(m')) ==> m == m'
  }

  /** All successful matches of a class agree, whatever the iteration orders, if and only if
      ids of its topology secret that lead to the same cluster give the same pool. */
  lemma MatchDeterminedExact(v: View, sc: StorageClass)
    ensures (forall m, m' :: MatchesAgree(v, sc, m, m')) <==> Determined(v, sc)
  {
    if Determined(v, sc) {
      forall m, m' ensures MatchesAgree(v, sc, m, m') { DeterminedAgrees(v, sc, m, m'); }
    } else {
      var m, m', f := TwoMatches(v, sc);
      assert !MatchesAgree(v, sc, m, m');
    }
  }

  lemma DeterminedAgrees(v: View, sc: StorageClass, m: map<string, string>, m': map<string, string>)
    requires Determined(v, sc)
    ensures MatchesAgree(v, sc, m, m')
  {
    if Match(v, sc, Ok(m)) && Match(v, sc, Ok(m')) && sc.byMgmtId.Some? {
      var byId, data := ById(v, ClassSecret(v, sc).value).value, AsObject(sc.byMgmtId).value;
      assert m.Keys == m'.Keys;
      forall f | f in m ensures m[f] == m'[f] {
        var id :| id in byId && byId[id].name == f && PoolFor(sc, data, id) == Ok(m[f]);
        var id' :| id' in byId && byId[id'].name == f && PoolFor(sc, data, id') == Ok(m'[f]);
        assert PoolFor(sc, data, id) == PoolFor(sc, data, id');
      }
    }
  }

  /** Where they do not, either pool may win, each in some order of the ids. */
  lemma TwoMatches(v: View, sc: StorageClass) returns (m: map<string, string>, m': map<string, string>, f: string)
    requires !Determined(v, sc)
    ensures Match(v, sc, Ok(m)) && Match(v, sc, Ok(m')) && f in m && f in m' && m[f] != m'[f]
    ensures LoopMayGive(v, sc, m) && LoopMayGive(v, sc, m')
  {
    var byId, data := ById(v, ClassSecret(v, sc).value).value, AsObject(sc.byMgmtId).value;
    var a, b :| a in byId && b in byId && byId[a].name == byId[b].name && PoolFor(sc, data, a) != PoolFor(sc, data, b);
    f := byId[a].name;
    m := MatchWith(sc, data, byId, a);
    m' := MatchWith(sc, data, byId, b);
    TopologyOutcomeExact(sc, data, byId, Ok(m));
    TopologyOutcomeExact(sc, data, byId, Ok(m'));
  }

  /** Any id may be the one that wins for its cluster. */
  lemma MatchWith(sc: StorageClass, data: map<string, Json>, byId: map<string, Cluster>, a: string) returns (m: map<string, string>)
    requires AsObject(sc.byMgmtId) == Some(data) && AllPools(sc, data, byId) && a in byId
    ensures TopologyOutcome(sc, Ok(byId), Ok(m))
    ensures byId[a].name in m && Ok(m[byId[a].name]) == PoolFor(sc, data, a)
  {
    var rest: map<string, string> := SomeMatch(sc, data, byId);
    m := rest[byId[a].name := PoolFor(sc, data, a).value];
    assert byId[a].name in (set id | id in byId :: byId[id].name);
    assert m.Keys == rest.Keys;
  }

  lemma SomeMatch(sc: StorageClass, data: map<string, Json>, byId: map<string, Cluster>) returns (m: map<string, string>)
    requires AsObject(sc.byMgmtId) == Some(data) && AllPools(sc, data, byId)
    ensures TopologyOutcome(sc, Ok(byId), Ok(m))
  {
    var names := set id | id in byId :: byId[id].name;
    m := map f | f in names :: (var id :| id in byId && byId[id].name == f; PoolFor(sc, data, id).value);
    forall f | f in m ensures exists id :: id in byId && byId[id].name == f && PoolFor(sc, data, id) == Ok(m[f]) {
      var id :| id in byId && byId[id].name == f && PoolFor(sc, data, id).value == m[f];
    }
  }

  /** One cluster at one address, and a topology secret that gives the address two ids. */
  function SharedAddressView(f: string, x: string): View {
    var own, topology := NsName("ns", "own"), NsName("ns", "topology");
    var at := Object(map[MGMT_ADDRESS := Str(x)]);
    View([Cluster(f, own, None)],
         map[own := Secret(Some(x), None), topology := Secret(None, Some(Doc(Object(map["a" := at, "b" := at]))))])
  }

  /** A class that gives the two ids different pools. */
  function SharedAddressClass(name: string, p: string, q: string): StorageClass {
    StorageClass(name, BLOCK_DRIVER, map[SECRET_NAME := "topology", SECRET_NAMESPACE := "ns"],
                 Some(Doc(Object(map["a" := Object(map[POOL := Str(p)]), "b" := Object(map[POOL := Str(q)])]))))
  }

  lemma SharedAddressById(f: string, x: string)
    ensures var v := SharedAddressView(f, x);
      var topology := NsName("ns", "topology");
      && topology in v.secrets && ById(v, v.secrets[topology]) == Ok(map["a" := v.clusters[0], "b" := v.clusters[0]])
  {
    var v := SharedAddressView(f, x);
    assert v.secrets[NsName("ns", "own")] == Secret(Some(x), None);
    assert IndexOf(v, 0) == map[];
    assert IndexOf(v, 1) == map[x := v.clusters[0]];
    var ids := AsObject(v.secrets[NsName("ns", "topology")].config).value;
    assert ids.Keys == {"a", "b"} && IdAddress(ids["a"]) == Some(x) && IdAddress(ids["b"]) == Some(x);
    assert Resolve(ids, IndexOf(v, 1)) == map["a" := v.clusters[0], "b" := v.clusters[0]];
  }

  lemma SharedAddressPools(name: string, p: string, q: string)
    ensures var sc := SharedAddressClass(name, p, q);
      var data := AsObject(sc.byMgmtId);
      && data.Some? && PoolFor(sc, data.value, "a") == Ok(p) && PoolFor(sc, data.value, "b") == Ok(q)
      && ClassSecretName(sc) == Some(NsName("ns", "topology"))
  {
    assert SECRET_NAME != SECRET_NAMESPACE;
  }

  /** Distinct clusters at distinct addresses are not enough: both pools may come out, one in
      either order of the two ids. */
  lemma SharedAddressMatches(name: string, f: string, x: string, p: string, q: string)
    ensures var v := SharedAddressView(f, x);
      var sc := SharedAddressClass(name, p, q);
      && SecretsPresent(v) && DistinctAddresses(v)
      && Match(v, sc, Ok(map[f := p])) && Match(v, sc, Ok(map[f := q]))
    ensures var sc := SharedAddressClass(name, p, q);
      var data, c := AsObject(sc.byMgmtId), SharedAddressView(f, x).clusters[0];
      && data.Some?
      && LoopGives(sc, data.value, map["a" := c, "b" := c], ["b", "a"], Ok(map[f := p]))
      && LoopGives(sc, data.value, map["a" := c, "b" := c], ["a", "b"], Ok(map[f := q]))
  {
    var v := SharedAddressView(f, x);
    var sc := SharedAddressClass(name, p, q);
    SharedAddressById(f, x);
    SharedAddressPools(name, p, q);
    BothWin(sc, AsObject(sc.byMgmtId).value, map["a" := v.clusters[0], "b" := v.clusters[0]], f, p, q);
  }

  lemma TwoIds(sc: StorageClass, data: map<string, Json>, byId: map<string, Cluster>, a: string, b: string, f: string, p: string, q: string)
    requires byId.Keys == {a, b} && a != b && byId[a].name == f && byId[b].name == f
    requires PoolFor(sc, data, a) == Ok(p) && PoolFor(sc, data, b) == Ok(q)
    ensures LoopGives(sc, data, byId, [a, b], Ok(map[f := q]))
  {
    var order := [a, b];
    assert order[..1] == [a] && [a][..0] == [];
    assert TopologyLoop(sc, data, byId, []) == Ok(map[]);
    assert TopologyLoop(sc, data, byId, [a]) == Ok(map[f := p]);
    assert map[f := p][f := q] == map[f := q];
    assert (set k | k in order) == {order[0], order[1]};
  }

  lemma BothWin(sc: StorageClass, data: map<string, Json>, byId: map<string, Cluster>, f: string, p: string, q: string)
    requires AsObject(sc.byMgmtId) == Some(data) && byId.Keys == {"a", "b"} && byId["a"].name == f && byId["b"].name == f
    requires PoolFor(sc, data, "a") == Ok(p) && PoolFor(sc, data, "b") == Ok(q)
    ensures LoopGives(sc, data, byId, ["b", "a"], Ok(map[f := p])) && TopologyOutcome(sc, Ok(byId), Ok(map[f := p]))
    ensures LoopGives(sc, data, byId, ["a", "b"], Ok(map[f := q])) && TopologyOutcome(sc, Ok(byId), Ok(map[f := q]))
  {
    TwoIds(sc, data, byId, "a", "b", f, p, q);
    TwoIds(sc, data, byId, "b", "a", f, q, p);
    LoopLands(sc, data, byId, ["a", "b"], Ok(map[f := q]));
    LoopLands(sc, data, byId, ["b", "a"], Ok(map[f := p]));
  }

  // ---------------------------------------------------------------- when a match fails

  /** The class names the secret: by the default keys if both are given, else by the
      provisioner's if both are. */
  predicate Names(sc: StorageClass, n: NsName) {
    if Get(sc.params, SECRET_NAME) != "" && Get(sc.params, SECRET_NAMESPACE) != ""
    then n == NsName(sc.params[SECRET_NAMESPACE], sc.params[SECRET_NAME])
    else n.name != "" && n.ns != "" && n == NsName(Get(sc.params, PROVISIONER_SECRET_NAMESPACE), Get(sc.params, PROVISIONER_SECRET_NAME))
  }

  /** The text is a JSON object, or null, which stands for an empty one. */
  predicate Table(d: Option<Doc>) {
    d.Some? && d.value.Doc? && (d.value.json.Object? || d.value.json.Null?)
  }

  function Rows(d: Option<Doc>): map<string, Json>
    requires Table(d)
  {
    if d.value.json.Object? then d.value.json.fields else map[]
  }

  /** The row is an object with an address that is a text. */
  predicate HasAddress(j: Json, a: string) {
    j.Object? && MGMT_ADDRESS in j.fields && j.fields[MGMT_ADDRESS] == Str(a)
  }

  ghost predicate SomeClusterAt(v: View, a: string)
    requires SecretsPresent(v)
  {
    exists i :: 0 <= i < |v.clusters| && ClusterAddress(v, i) == a
  }

  /** Before every cluster without its secret comes one that has the address. */
  ghost predicate ScanReaches(v: View, a: string) {
    forall i | 0 <= i < |v.clusters| && v.clusters[i].secret !in v.secrets ::
      exists j :: 0 <= j < i && v.clusters[j].secret in v.secrets && ClusterAddress(v, j) == a
  }

  /** Both texts are tables, no cluster's secret is missing, every id has an address, and those
      whose address is a cluster's have an object of their own in the class. */
  ghost predicate IdsUsable(v: View, sc: StorageClass, config: Option<Doc>) {
    && SecretsPresent(v) && Table(config) && Table(sc.byMgmtId)
    && forall id | id in Rows(config) ::
         exists a :: HasAddress(Rows(config)[id], a) && (SomeClusterAt(v, a) ==> id in Rows(sc.byMgmtId) && Rows(sc.byMgmtId)[id].Object?)
  }

  /** When the clusters of a class can be determined at all, for all classes and secrets. */
  lemma MatchSucceedsExactly(v: View, sc: StorageClass)
    ensures (exists m :: Match(v, sc, Ok(m))) <==> exists n ::
      && Names(sc, n) && n in v.secrets
      && if sc.byMgmtId.None? then ScanReaches(v, AddressOf(v.secrets[n])) else IdsUsable(v, sc, v.secrets[n].config)
  {
    if n :| Names(sc, n) {
      assert ClassSecretName(sc) == Some(n);
      if n in v.secrets {
        if sc.byMgmtId.None? { RegularSucceedsExactly(v, sc, v.secrets[n]); } else { TopologySucceedsExactly(v, sc); }
      }
    } else if ClassSecretName(sc).Some? {
      assert Names(sc, ClassSecretName(sc).value);
    }
  }

  lemma RegularSucceedsExactly(v: View, sc: StorageClass, secret: Secret)
    requires sc.byMgmtId.None? && ClassSecret(v, sc) == Ok(secret)
    ensures (exists m :: Match(v, sc, Ok(m))) <==> ScanReaches(v, AddressOf(secret))
  {
    var a := AddressOf(secret);
    ScanIsFirst(v, a, 0);
    if Scan(v, a, 0).Ok? {
      assert Match(v, sc, RegularMatch(v, sc, secret));
      var found := Scan(v, a, 0).value;
      if found.Some? {
        forall i | 0 <= i < |v.clusters| && v.clusters[i].secret !in v.secrets
          ensures exists j :: 0 <= j < i && v.clusters[j].secret in v.secrets && ClusterAddress(v, j) == a
        {
          assert found.value < i;
        }
      }
    }
  }

  lemma TopologySucceedsExactly(v: View, sc: StorageClass)
    requires sc.byMgmtId.Some? && ClassSecret(v, sc).Ok?
    ensures (exists m :: Match(v, sc, Ok(m))) <==> IdsUsable(v, sc, ClassSecret(v, sc).value.config)
  {
    var secret := ClassSecret(v, sc).value;
    if TopologySucceeds(v, sc) {
      var m := SomeMatch(sc, AsObject(sc.byMgmtId).value, ById(v, secret).value);
      assert Match(v, sc, Ok(m));
    }
    assert (exists m :: Match(v, sc, Ok(m))) ==> TopologySucceeds(v, sc);
    IdsUsableExact(v, sc);
  }

  lemma IdsUsableExact(v: View, sc: StorageClass)
    requires sc.byMgmtId.Some? && ClassSecret(v, sc).Ok?
    ensures TopologySucceeds(v, sc) <==> IdsUsable(v, sc, ClassSecret(v, sc).value.config)
  {
    var secret := ClassSecret(v, sc).value;
    var config := secret.config;
    if TopologySucceeds(v, sc) {
      forall id | id in Rows(config)
        ensures exists a :: HasAddress(Rows(config)[id], a) && (SomeClusterAt(v, a) ==> id in Rows(sc.byMgmtId) && Rows(sc.byMgmtId)[id].Object?)
      {
        var a := IdAddress(Rows(config)[id]).value;
        assert HasAddress(Rows(config)[id], a);
        IndexHasAddress(v, a);
        assert id in ById(v, secret).value <==> SomeClusterAt(v, a);
      }
    }
    if IdsUsable(v, sc, config) {
      var rows := Rows(config);
      forall id | id in rows
        ensures IdAddress(rows[id]).Some?
        ensures IdAddress(rows[id]).value in IndexOf(v, |v.clusters|) ==> PoolFor(sc, Rows(sc.byMgmtId), id).Ok?
      {
        var a :| HasAddress(rows[id], a) && (SomeClusterAt(v, a) ==> id in Rows(sc.byMgmtId) && Rows(sc.byMgmtId)[id].Object?);
        assert IdAddress(rows[id]) == Some(a);
        IndexHasAddress(v, a);
      }
      assert AsObject(config) == Some(rows) && AsObject(sc.byMgmtId) == Some(Rows(sc.byMgmtId));
    }
  }

  lemma IndexHasAddress(v: View, a: string)
    requires SecretsPresent(v)
    ensures a in IndexOf(v, |v.clusters|) <==> SomeClusterAt(v, a)
  {
    IndexIsLastWins(v, |v.clusters|, a);
    if i :| 0 <= i < |v.clusters| && ClusterAddress(v, i) == a { var j := LastWith(v, a, i); }
  }
}
