/** The controllers' own code against the pools ConfigMap: helpers, loops and
    aliasing as in the source, each tied to the step functions of PoolsConfigMap,
    and the retry behaviour that follows from passing the ConfigMap by value. */
module PoolsControllers {
  import opened Common
  import opened ApiServer
  import opened PoolsConfigMap

  /** Takes the ConfigMap struct by value: the copy shares `data` with the
      caller's object but keeps its refreshed version to itself. */
  method RemoveStorageClassFromConfigMap(server: Server, configMap: ConfigMap, fscName: string, scName: string)
    returns (err: Option<Failure>)
    modifies server, configMap.data
    ensures (server.store, configMap.data.m, err)
      == EditCall(old(server.store), old(configMap.data.m), configMap.resourceVersion, fscName, scName, None)
  {
    var copy := new ConfigMap(configMap.data, configMap.resourceVersion);
    if fscName !in copy.data.m { return None; }
    var content := copy.data.m[fscName];
    if content.Unparsable? { return Some(MalformedEntry); }
    var pools := if content.pools.None? then None else Some(content.pools.value - {scName});
    copy.data.m := copy.data.m[fscName := Parsed(pools, content.secret)];
    var reply := server.Put(copy);
    err := if reply.Done? then None else Some(Refused(reply));
  }

  method AddStorageClassToConfigMap(server: Server, configMap: ConfigMap, fscName: string, scName: string, poolName: string)
    returns (err: Option<Failure>)
    modifies server, configMap.data
    ensures (server.store, configMap.data.m, err)
      == EditCall(old(server.store), old(configMap.data.m), configMap.resourceVersion, fscName, scName, Some(poolName))
  {
    var copy := new ConfigMap(configMap.data, configMap.resourceVersion);
    if fscName !in copy.data.m { return Some(MissingKey); }
    var content := copy.data.m[fscName];
    if content.Unparsable? { return Some(MalformedEntry); }
    if content.pools.None? { return Some(NilMapPanic); }
    copy.data.m := copy.data.m[fscName := Parsed(Some(content.pools.value[scName := poolName]), content.secret)];
    var reply := server.Put(copy);
    err := if reply.Done? then None else Some(Refused(reply));
  }

  /** A pass of the StorageClass watcher that nobody interrupts. `read` is what the
      client's cache answers, `target` what the lookups of the class answered. */
  method ReconcileStorageClass(server: Server, scName: string, target: Target, read: Option<Snapshot>)
    returns (outcome: Outcome, ghost order: seq<string>)
    modifies server
    ensures read.None? ==> outcome == Failed(NoConfigMap) && server.store == old(server.store)
    ensures read.Some? ==> Enumerates(order, read.value.data.Keys)
    ensures read.Some? ==>
      (server.store, outcome) == ScRun(old(server.store), ScBegin(scName, target, read.value, order))
  {
    order := [];
    if read.None? { return Failed(NoConfigMap), order; }
    var goMap := new GoMap(read.value.data);
    var configMap := new ConfigMap(goMap, read.value.rv);
    var keys := RangeOrder(goMap.m.Keys);
    order := keys;
    if target.MatchFailed? { return Failed(MatchError), order; }
    if !(target.Matches().Keys <= goMap.m.Keys) { return Failed(MissingKey), order; }
    ghost var start := ScBegin(scName, target, read.value, keys);
    for i := 0 to |keys|
      invariant configMap.data == goMap && configMap.resourceVersion == read.value.rv
      invariant ScRun(old(server.store), start)
        == ScRun(server.store, Resume(ScWork(scName, target, read.value, keys, i, goMap.m)))
    {
      var err;
      var want := target.Want(keys[i]);
      if want.Some? {
        if want.value == "" { return NoPool, order; }
        err := AddStorageClassToConfigMap(server, configMap, keys[i], scName, want.value);
      } else {
        err := RemoveStorageClassFromConfigMap(server, configMap, keys[i], scName);
      }
      if err.Some? { return Failed(err.value), order; }
    }
    outcome := Clean;
  }

  /** Reads the ConfigMap through the cache, creating it when it is missing. */
  method GetCreateConfigmap(server: Server, read: Option<Snapshot>) returns (configMap: Option<ConfigMap>)
    modifies server
    ensures read.Some? ==>
      && server.store == old(server.store) && configMap.Some?
      && configMap.value.data.m == read.value.data && configMap.value.resourceVersion == read.value.rv
    ensures read.None? ==>
      var (s, r) := Create(old(server.store), map[]);
      && server.store == s && configMap.Some? == r.Done?
      && (r.Done? ==> configMap.value.data.m == r.at.data && configMap.value.resourceVersion == r.at.rv)
    ensures configMap.Some? ==> fresh(configMap.value) && fresh(configMap.value.data)
  {
    var goMap := new GoMap(if read.Some? then read.value.data else map[]);
    var cm := new ConfigMap(goMap, if read.Some? then read.value.rv else 0);
    if read.None? {
      var reply := server.Post(cm);
      if !reply.Done? { return None; }
    }
    configMap := Some(cm);
  }

  lemma FscRunUnfolds(s: Store, w: FscWork)
    ensures FscRun(s, FscGo(w)) == FscRun(FscStep(s, w).0, FscStep(s, w).1)
  {
  }

  method EnsureScPoolConfigMap(server: Server, name: string, secret: string, read: Option<Snapshot>)
    returns (ok: bool)
    modifies server
    ensures (server.store, ok) == FscRun(old(server.store), FscGo(FscBegin(Ensure(name, secret), read)))
  {
    ghost var op := Ensure(name, secret);
    ghost var s0 := server.store;
    var got := GetCreateConfigmap(server, read);
    FscRunUnfolds(s0, Creating(op));
    if got.None? { return false; }
    var configMap := got.value;
    FscRunUnfolds(server.store, Holding(op, configMap.data.m, configMap.resourceVersion));
    if POOLS_KEY in configMap.data.m {
      configMap.data.m := configMap.data.m - {POOLS_KEY};
      var reply := server.Put(configMap);
      if !reply.Done? { return false; }
      FscRunUnfolds(server.store, Holding(op, configMap.data.m, configMap.resourceVersion));
    }
    if name !in configMap.data.m {
      configMap.data.m := configMap.data.m[name := FreshEntry(secret)];
      var reply := server.Put(configMap);
      return reply.Done?;
    }
    ok := true;
  }

  method RemoveFscFromConfigMap(server: Server, name: string, read: Option<Snapshot>) returns (ok: bool)
    modifies server
    ensures (server.store, ok) == FscRun(old(server.store), FscGo(FscBegin(Drop(name), read)))
  {
    ghost var s0 := server.store;
    var got := GetCreateConfigmap(server, read);
    FscRunUnfolds(s0, Creating(Drop(name)));
    if got.None? { return false; }
    var configMap := got.value;
    FscRunUnfolds(server.store, Holding(Drop(name), configMap.data.m, configMap.resourceVersion));
    configMap.data.m := configMap.data.m - {name};
    var reply := server.Put(configMap);
    ok := reply.Done?;
  }

  // ---------------------------------------------------------------- undisturbed cluster passes

  /** What an undisturbed pass of a live cluster on a fresh read leaves, whatever was there: it
      succeeds, the legacy key is gone, the cluster has its entry, a new one if it had none,
      and every other entry is as it was. */
  lemma EnsureTakesEffect(s: Store, name: string, secret: string)
    ensures var d := LiveData(s);
      var (s', ok) := FscRun(s, FscGo(FscBegin(Ensure(name, secret), s.live)));
      && ok && s'.live.Some?
      && name in LiveData(s')
      && LiveData(s')[name] == (if name in d && name != POOLS_KEY then d[name] else FreshEntry(secret))
      && (name != POOLS_KEY ==> POOLS_KEY !in LiveData(s'))
      && (forall k | k != name && k != POOLS_KEY :: (k in LiveData(s') <==> k in d) && (k in d ==> LiveData(s')[k] == d[k]))
  {
    var op := Ensure(name, secret);
    var w := FscBegin(op, s.live);
    FscRunUnfolds(s, w);
    var (s1, n1) := FscStep(s, w);
    if n1.FscGo? {
      FscRunUnfolds(s1, n1.w);
    }
  }

  /** And one of a deleting or missing cluster: it succeeds, the cluster's entry is gone, and
      every other entry is as it was. */
  lemma DropLeavesOthers(s: Store, name: string)
    ensures var d := LiveData(s);
      var (s', ok) := FscRun(s, FscGo(FscBegin(Drop(name), s.live)));
      && ok && s'.live.Some? && name !in LiveData(s')
      && (forall k | k != name :: (k in LiveData(s') <==> k in d) && (k in d ==> LiveData(s')[k] == d[k]))
  {
    var w := FscBegin(Drop(name), s.live);
    FscRunUnfolds(s, w);
    var (s1, n1) := FscStep(s, w);
    if n1.FscGo? { FscRunUnfolds(s1, n1.w); }
  }

  // ---------------------------------------------------------------- retry bound

  /** The entries a pass still has to change. */
  function Differing(data: Data, sc: string, target: Target): set<string> {
    set k | k in data && !Settled(data[k], sc, target.Want(k))
  }

  predicate NoEmptyPool(target: Target) {
    target.Live? ==> forall f | f in target.pools :: target.pools[f] != ""
  }

  /** The pass can start its loop. */
  predicate Runnable(data: Data, target: Target) {
    !target.MatchFailed? && target.Matches().Keys <= data.Keys
  }

  /** An iteration over an entry that is already right leaves store and map alone. */
  lemma SettledIteration(s: Store, w: ScWork)
    requires s.live == Some(Snapshot(w.data, w.base.rv))
    requires w.pos < |w.order| && w.order[w.pos] in w.data
    requires Settled(w.data[w.order[w.pos]], w.sc, w.target.Want(w.order[w.pos]))
    requires w.target.Want(w.order[w.pos]) != Some("")
    ensures ScStep(s, w) == (s, Resume(w.(pos := w.pos + 1)))
  {
    var k := w.order[w.pos];
    EditEntryLaw(w.data[k], w.sc, w.target.Want(k));
    assert w.data[k := w.data[k]] == w.data;
  }

  /** An iteration over an entry that differs writes it, under a new version. */
  lemma WritingIteration(s: Store, w: ScWork)
    requires s.live == Some(Snapshot(w.data, w.base.rv))
    requires w.pos < |w.order| && w.order[w.pos] in w.data && Usable(w.data)
    requires !Settled(w.data[w.order[w.pos]], w.sc, w.target.Want(w.order[w.pos]))
    requires w.target.Want(w.order[w.pos]) != Some("")
    ensures var k := w.order[w.pos];
      var data' := w.data[k := Fix(w.data[k], w.sc, w.target.Want(k))];
      && Usable(data')
      && ScStep(s, w) == (Store(Some(Snapshot(data', s.clock + 1)), s.clock + 1), Resume(w.(pos := w.pos + 1, data := data')))
  {
  }

  /** The first entry of the order that still differs. */
  function FirstDiffering(order: seq<string>, from: nat, diff: set<string>): (i: nat)
    requires from <= |order|
    ensures from <= i <= |order|
    ensures forall j | from <= j < i :: order[j] !in diff
    ensures i < |order| ==> order[i] in diff
    decreases |order| - from
  {
    if from == |order| || order[from] in diff then from
    else FirstDiffering(order, from + 1, diff)
  }

  /** What is left of a pass once it has written: a conflict at the next entry. */
  lemma RunAfterWrite(s: Store, w: ScWork)
    requires s.live.Some? && s.live.value.rv != w.base.rv
    requires Enumerates(w.order, w.data.Keys) && w.pos <= |w.order|
    requires Usable(w.data) && NoEmptyPool(w.target)
    ensures ScRun(s, Resume(w)) == (s, if w.pos == |w.order| then Clean else Failed(Refused(Conflict)))
  {
  }

  /** A pass from a fresh snapshot, nobody interfering, corrects exactly the first
      entry in iteration order that differs, and then conflicts at the entry after
      it, if there is one. */
  lemma {:induction false} RestOfPass(s: Store, w: ScWork, diff: set<string>, i: nat)
    requires s.live == Some(Snapshot(w.data, w.base.rv)) && s.live.value.rv <= s.clock
    requires Enumerates(w.order, w.data.Keys) && w.pos <= |w.order|
    requires Usable(w.data) && NoEmptyPool(w.target)
    requires diff == Differing(w.data, w.sc, w.target) && i == FirstDiffering(w.order, w.pos, diff)
    ensures i == |w.order| ==> ScRun(s, Resume(w)) == (s, Clean)
    ensures i < |w.order| ==>
      var k := w.order[i];
      && k in w.data
      && ScRun(s, Resume(w)) ==
         (Store(Some(Snapshot(w.data[k := Fix(w.data[k], w.sc, w.target.Want(k))], s.clock + 1)), s.clock + 1),
          if i + 1 == |w.order| then Clean else Failed(Refused(Conflict)))
    decreases |w.order| - w.pos
  {
    if w.pos == |w.order| { return; }
    var k := w.order[w.pos];
    assert k in (set x | x in w.order);
    if k in diff {
      WritingIteration(s, w);
      var (s', n) := ScStep(s, w);
      RunAfterWrite(s', w.(pos := w.pos + 1, data := s'.live.value.data));
    } else {
      SettledIteration(s, w);
      RestOfPass(s, w.(pos := w.pos + 1), diff, i);
    }
  }

  lemma FixOne(data: Data, sc: string, target: Target, k: string)
    requires Usable(data) && k in Differing(data, sc, target)
    ensures var data' := data[k := Fix(data[k], sc, target.Want(k))];
      && data'.Keys == data.Keys && Usable(data')
      && Differing(data', sc, target) == Differing(data, sc, target) - {k}
      && forall x | x in data :: SameBut(data[x], data'[x], sc)
  {
    EditEntryLaw(data[k], sc, target.Want(k));
  }

  /** The data a pass leaves: one entry fewer differs, everything else is as it was. */
  ghost predicate OneStepCloser(data: Data, data': Data, sc: string, target: Target) {
    && data'.Keys == data.Keys && Usable(data')
    && (forall k | k in data :: SameBut(data[k], data'[k], sc))
    && |Differing(data', sc, target)| == |Differing(data, sc, target)| - 1
  }

  /** The pass theorem: with d entries differing, a pass either finds none and ends
      clean without a write, or writes once and leaves exactly d - 1 differing. */
  lemma PassShrinksDifference(s: Store, sc: string, target: Target, order: seq<string>)
    requires s.live.Some? && s.live.value.rv <= s.clock
    requires Enumerates(order, s.live.value.data.Keys)
    requires Usable(s.live.value.data) && NoEmptyPool(target) && Runnable(s.live.value.data, target)
    ensures var data := s.live.value.data;
      var d := |Differing(data, sc, target)|;
      var (s', outcome) := ScRun(s, ScBegin(sc, target, s.live.value, order));
      && (d == 0 ==> s' == s && outcome == Clean)
      && (d > 0 ==>
            && s'.live.Some? && s'.live.value.rv == s'.clock == s.clock + 1
            && OneStepCloser(data, s'.live.value.data, sc, target)
            && (outcome == Failed(Refused(Conflict)) || (outcome == Clean && d == 1)))
  {
    var data := s.live.value.data;
    var diff := Differing(data, sc, target);
    var i := FirstDiffering(order, 0, diff);
    RestOfPass(s, ScWork(sc, target, s.live.value, order, 0, data), diff, i);
    if i == |order| {
      forall k | k in data ensures k !in diff { assert k in (set x | x in order); }
      assert diff == {};
    } else {
      FixOne(data, sc, target, order[i]);
      if i + 1 == |order| { LastOfOrder(order, diff, data.Keys); }
    }
  }

  lemma LastOfOrder(order: seq<string>, diff: set<string>, keys: set<string>)
    requires Enumerates(order, keys) && diff <= keys && |order| > 0
    requires FirstDiffering(order, 0, diff) + 1 == |order|
    ensures diff == {order[|order| - 1]}
  {
  }

  /** The work queue re-runs a conflicting pass on a fresh read. However each pass
      iterates, a clean one is reached within d + 1 passes, and what it leaves is
      the target with everything else untouched. */
  method RetryUntilClean(server: Server, scName: string, target: Target) returns (passes: nat)
    requires server.store.live.Some? && server.store.live.value.rv <= server.store.clock
    requires Usable(server.store.live.value.data) && NoEmptyPool(target)
    requires Runnable(server.store.live.value.data, target)
    modifies server
    ensures 1 <= passes <= |Differing(LiveData(old(server.store)), scName, target)| + 1
    ensures LiveData(server.store).Keys == LiveData(old(server.store)).Keys
    ensures forall k | k in LiveData(server.store) ::
      && Settled(LiveData(server.store)[k], scName, target.Want(k))
      && SameBut(LiveData(old(server.store))[k], LiveData(server.store)[k], scName)
  {
    passes := 0;
    ghost var d := |Differing(server.store.live.value.data, scName, target)|;
    var outcome := NoPool;
    while outcome != Clean
      invariant server.store.live.Some? && server.store.live.value.rv <= server.store.clock
      invariant Usable(server.store.live.value.data) && Runnable(server.store.live.value.data, target)
      invariant server.store.live.value.data.Keys == LiveData(old(server.store)).Keys
      invariant forall k | k in server.store.live.value.data ::
        SameBut(LiveData(old(server.store))[k], server.store.live.value.data[k], scName)
      invariant passes <= d + 1
      invariant outcome != Clean ==> |Differing(server.store.live.value.data, scName, target)| <= d - passes
      invariant outcome == Clean ==> passes >= 1 && Differing(server.store.live.value.data, scName, target) == {}
      decreases if outcome == Clean then 0 else 1, |Differing(server.store.live.value.data, scName, target)|
    {
      ghost var before := server.store;
      ghost var order;
      outcome, order := ReconcileStorageClass(server, scName, target, server.store.live);
      PassShrinksDifference(before, scName, target, order);
      passes := passes + 1;
      forall k | k in before.live.value.data
        ensures SameBut(LiveData(old(server.store))[k], server.store.live.value.data[k], scName)
      {
        SameButTransitive(LiveData(old(server.store))[k], before.live.value.data[k], server.store.live.value.data[k], scName);
      }
    }
    forall k | k in LiveData(server.store)
      ensures Settled(LiveData(server.store)[k], scName, target.Want(k))
    {
      assert k !in Differing(LiveData(server.store), scName, target);
    }
  }

  lemma SameButTransitive(a: Entry, b: Entry, c: Entry, sc: string)
    requires SameBut(a, b, sc) && SameBut(b, c, sc)
    ensures SameBut(a, c, sc)
  {
  }

  // ---------------------------------------------------------------- the empty pool

  /** If a pass from a fresh, usable snapshot returns nil, no entry differs. */
  ghost predicate NilMeansSettled(s: Store, sc: string, target: Target, order: seq<string>) {
    && s.live.Some? && s.live.value.rv <= s.clock && Usable(s.live.value.data)
    && Runnable(s.live.value.data, target) && Enumerates(order, s.live.value.data.Keys)
    ==>
    var (s', outcome) := ScRun(s, ScBegin(sc, target, s.live.value, order));
    outcome.Failed? || Differing(LiveData(s'), sc, target) == {}
  }

  /** On meeting an empty matched pool the code returns nil with the loop unfinished.
      That nothing is left to do after a nil return of an undisturbed pass on a fresh
      read holds exactly for the matches without an empty pool. */
  lemma FreshNilReturnExact(sc: string, target: Target)
    requires !target.MatchFailed?
    ensures (forall s, order :: NilMeansSettled(s, sc, target, order)) <==> NoEmptyPool(target)
  {
    if NoEmptyPool(target) {
      forall s, order ensures NilMeansSettled(s, sc, target, order) {
        if s.live.Some? && s.live.value.rv <= s.clock && Usable(s.live.value.data)
           && Runnable(s.live.value.data, target) && Enumerates(order, s.live.value.data.Keys) {
          PassShrinksDifference(s, sc, target, order);
        }
      }
    } else {
      var s, order := EmptyPoolStopsMidway(sc, target);
      assert !NilMeansSettled(s, sc, target, order);
    }
  }

  lemma EmptyPoolStopsMidway(sc: string, target: Target) returns (s: Store, order: seq<string>)
    requires !NoEmptyPool(target)
    ensures s.live.Some? && s.live.value.rv <= s.clock && Usable(s.live.value.data)
    ensures Enumerates(order, s.live.value.data.Keys) && Runnable(s.live.value.data, target)
    ensures ScRun(s, ScBegin(sc, target, s.live.value, order)) == (s, NoPool)
    ensures Differing(s.live.value.data, sc, target) != {}
  {
    var pools := target.pools;
    var f :| f in pools && pools[f] == "";
    order := OrderingFrom(pools.Keys, f);
    var data: Data := map k | k in pools.Keys :: FreshEntry("");
    s := Store(Some(Snapshot(data, 1)), 1);
    assert ScStep(s, ScWork(sc, target, s.live.value, order, 0, data)) == (s, Stop(NoPool));
    assert f in Differing(data, sc, target);
  }
}
