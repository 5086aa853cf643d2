/** With the clusters and the match of every live class fixed, the two controllers drive the
    pools ConfigMap from nothing to one content. LookupConvergence says when clusters, classes
    and secrets fix the matches, Stability when the content is then left alone. */
module Convergence {
  import opened Common
  import opened ApiServer
  import opened PoolsConfigMap
  import opened PoolsProtocol

  /** The fixed surroundings: the live clusters with their secret names, and the match of
      each live StorageClass. */
  datatype World = World(clusters: map<string, string>, live: map<string, map<string, string>>)
  {
    function TargetOf(sc: string): Target {
      if sc in live then Target.Live(live[sc]) else Absent
    }

    /** Matched clusters exist, and no cluster is named like the legacy key. */
    ghost predicate Valid() {
      && POOLS_KEY !in clusters
      && (forall sc | sc in live :: live[sc].Keys <= clusters.Keys)
    }

    /** A target a pass may compute: its lookups fail, or give the match of a live class, or
        show that the class is not live. */
    predicate Fits(sc: string, target: Target) {
      target.MatchFailed? || if sc in live then target == TargetOf(sc) else !target.Live?
    }

    /** An action the surroundings allow, up to the name of a cluster's secret. */
    predicate Admits(a: Action) {
      match a
      case ScStart(sc, target, _, _) => Fits(sc, target)
      case FscStart(name, seen, _) => seen.Alive? <==> name in clusters
      case OutsideDelete => false
      case OutsideEdit(_) => false
      case _ => true
    }

    /** An action the surroundings allow; a pass reads them as they are. */
    predicate Allows(a: Action) {
      Admits(a) && (a.FscStart? && a.name in clusters ==> a.seen == Alive(clusters[a.name]))
    }

    function PoolsOf(f: string): map<string, string> {
      map sc | sc in live && f in live[sc] :: live[sc][f]
    }

    /** The content everything converges to. */
    function Expected(): Data {
      map f | f in clusters :: Parsed(Some(PoolsOf(f)), clusters[f])
    }
  }

  ghost predicate AllAllowed(world: World, acts: seq<Action>) {
    forall i | 0 <= i < |acts| :: world.Allows(acts[i])
  }

  /** The ConfigMap is missing or empty, and every version after `since` is still to come or
      is that of the empty object. Caches may hold any older state, and passes may be under
      way on one; none has been noted as ended yet. */
  ghost predicate Start(world: World, m: Machine, since: int) {
    && Inv(m) && !m.sc.ScEnded? && !m.fsc.FscEnded?
    && (m.sc.ScBusy? ==> world.Fits(m.sc.w.sc, m.sc.w.target))
    && (m.fsc.FscBusy? ==> FscAllowed(world, m.fsc.w.op))
    && LiveData(m.store) == map[] && since <= m.store.clock
    && (m.store.live.Some? ==> since < m.store.live.value.rv)
    && (forall h | h in m.history && since < h.rv :: m.store.live == Some(h))
  }

  /** The same state, with no pass noted as ended. */
  function Forget(m: Machine): Machine {
    m.(sc := if m.sc.ScEnded? then ScIdle else m.sc, fsc := if m.fsc.FscEnded? then FscIdle else m.fsc)
  }

  /** The ConfigMap may be deleted at any moment of any run, passes under way: that is a start. */
  lemma DeletionIsStart(world: World, m: Machine, acts: seq<Action>)
    requires Init(m)
    requires var x := Exec(m, acts);
      && (x.sc.ScBusy? ==> world.Fits(x.sc.w.sc, x.sc.w.target))
      && (x.fsc.FscBusy? ==> FscAllowed(world, x.fsc.w.op))
    ensures var x := Exec(m, acts);
      Start(world, Forget(Apply(x, OutsideDelete)), x.store.clock)
  {
    RunsKeepInv(m, acts);
  }

  // ---------------------------------------------------------------- growth

  predicate SubMap<K, V(==)>(a: map<K, V>, b: map<K, V>) {
    forall k | k in a :: k in b && b[k] == a[k]
  }

  /** Nothing but what belongs there. */
  ghost predicate Sound(world: World, d: Data) {
    forall f | f in d :: f in world.clusters && SoundEntry(world, f, d[f])
  }

  /** `d` has everything `c` has. */
  ghost predicate Below(c: Data, d: Data) {
    forall f | f in c ::
      && f in d && c[f].Parsed? && d[f].Parsed? && c[f].pools.Some? && d[f].pools.Some?
      && SubMap(c[f].pools.value, d[f].pools.value)
  }

  /** Since then the content is sound and has only grown. */
  ghost predicate Growing(world: World, since: int, m: Machine) {
    && Inv(m) && since <= m.store.clock
    && (m.store.live.Some? ==> since < m.store.live.value.rv)
    && Sound(world, LiveData(m.store))
    && (forall h | h in m.history && since < h.rv :: Below(h.data, LiveData(m.store)))
    && (m.sc.ScBusy? ==> world.Fits(m.sc.w.sc, m.sc.w.target))
    && (m.fsc.FscBusy? ==> FscAllowed(world, m.fsc.w.op))
  }

  ghost predicate FscAllowed(world: World, op: FscOp) {
    if op.Ensure? then op.name in world.clusters && op.secret == world.clusters[op.name]
    else op.name !in world.clusters
  }

  ghost predicate SoundEntry(world: World, f: string, e: Entry)
    requires f in world.clusters
  {
    && e.Parsed? && e.pools.Some? && e.secret == world.clusters[f]
    && SubMap(e.pools.value, world.PoolsOf(f))
    && (forall sc | sc in e.pools.value :: e.pools.value[sc] != "")
  }

  /** The wanted edit of a sound entry keeps it sound and only adds. */
  lemma EditGrows(world: World, f: string, e: Entry, sc: string)
    requires world.Valid() && f in world.clusters && SoundEntry(world, f, e)
    requires world.TargetOf(sc).Want(f) != Some("")
    ensures var e' := Fix(e, sc, world.TargetOf(sc).Want(f));
      SoundEntry(world, f, e') && SubMap(e.pools.value, e'.pools.value)
  {
    var pools := e.pools.value;
    var want := world.TargetOf(sc).Want(f);
    if want.None? {
      assert sc !in world.PoolsOf(f);
      assert pools - {sc} == pools;
    } else {
      assert sc in world.PoolsOf(f) && world.PoolsOf(f)[sc] == want.value;
    }
  }

  lemma OneEntryGrows(world: World, d: Data, f: string, sc: string)
    requires world.Valid() && Sound(world, d) && f in d && world.TargetOf(sc).Want(f) != Some("")
    ensures var d' := d[f := Fix(d[f], sc, world.TargetOf(sc).Want(f))];
      Sound(world, d') && Below(d, d')
  {
    EditGrows(world, f, d[f], sc);
  }

  lemma BelowTransitive(a: Data, b: Data, c: Data)
    requires Below(a, b) && Below(b, c)
    ensures Below(a, c)
  {
  }

  /** What a write must do to keep the run growing. */
  lemma GrowthKept(world: World, since: int, m: Machine, m': Machine)
    requires Growing(world, since, m) && Inv(m') && m'.history == m.history + Shown(m'.store)
    requires m'.store == m.store
      || (&& m'.store.live.Some? && m'.store.live.value.rv == m'.store.clock == m.store.clock + 1
          && Sound(world, LiveData(m'.store)) && Below(LiveData(m.store), LiveData(m'.store)))
    requires m'.sc.ScBusy? ==> world.Fits(m'.sc.w.sc, m'.sc.w.target)
    requires m'.fsc.FscBusy? ==> FscAllowed(world, m'.fsc.w.op)
    ensures Growing(world, since, m') && Below(LiveData(m.store), LiveData(m'.store))
  {
  }

  lemma ScMoveGrows(world: World, since: int, m: Machine)
    requires world.Valid() && Growing(world, since, m) && m.sc.ScBusy?
    ensures Growing(world, since, Apply(m, ScMove))
    ensures Below(LiveData(m.store), LiveData(Apply(m, ScMove).store))
  {
    ScMoveKeeps(m);
    ScWriteShape(m);
    var m' := Apply(m, ScMove);
    if m'.store != m.store {
      OneEntryGrows(world, LiveData(m.store), m.sc.w.order[m.sc.w.pos], m.sc.w.sc);
    }
    GrowthKept(world, since, m, m');
  }

  /** In a growing run the controller only ever adds the entry of a live cluster. */
  lemma FscWriteGrows(world: World, s: Store, w: FscWork)
    requires world.Valid() && FscAllowed(world, w.op) && Sound(world, LiveData(s))
    requires w.Holding? ==> Synced(s, w.data, w.rv)
    ensures var s' := FscStep(s, w).0;
      s' == s || (s'.live.Some? && Sound(world, LiveData(s')) && Below(LiveData(s), LiveData(s')))
  {
  }

  lemma FscMoveGrows(world: World, since: int, m: Machine)
    requires world.Valid() && Growing(world, since, m) && m.fsc.FscBusy?
    ensures Growing(world, since, Apply(m, FscMove))
    ensures Below(LiveData(m.store), LiveData(Apply(m, FscMove).store))
  {
    var w := m.fsc.w;
    FscMoveKeeps(m);
    FscStepLaw(m.store, w);
    if w.Holding? { assert Snapshot(w.data, w.rv) in m.history; }
    FscWriteGrows(world, m.store, w);
    GrowthKept(world, since, m, Apply(m, FscMove));
  }

  lemma StepGrows(world: World, since: int, m: Machine, a: Action)
    requires world.Valid() && Growing(world, since, m) && world.Allows(a)
    ensures Growing(world, since, Apply(m, a))
    ensures Below(LiveData(m.store), LiveData(Apply(m, a).store))
  {
    StepKeepsInv(m, a);
    if a.ScMove? && m.sc.ScBusy? { ScMoveGrows(world, since, m); }
    if a.FscMove? && m.fsc.FscBusy? { FscMoveGrows(world, since, m); }
  }

  lemma {:induction false} RunsGrow(world: World, since: int, m: Machine, acts: seq<Action>)
    requires world.Valid() && Start(world, m, since) && AllAllowed(world, acts)
    ensures Growing(world, since, Exec(m, acts))
  {
    if acts != [] {
      var front := acts[..|acts| - 1];
      RunsGrow(world, since, m, front);
      assert world.Allows(acts[|acts| - 1]);
      StepGrows(world, since, Exec(m, front), acts[|acts| - 1]);
    }
  }

  lemma {:induction false} RunsOnlyAdd(world: World, since: int, m: Machine, acts: seq<Action>, i: nat)
    requires world.Valid() && Start(world, m, since) && AllAllowed(world, acts) && i <= |acts|
    ensures Below(LiveData(Exec(m, acts[..i]).store), LiveData(Exec(m, acts).store))
  {
    RunsGrow(world, since, m, acts);
    if i == |acts| {
      assert acts[..i] == acts;
    } else {
      var front := acts[..|acts| - 1];
      RunsGrow(world, since, m, front);
      RunsOnlyAdd(world, since, m, front, i);
      assert front[..i] == acts[..i];
      assert world.Allows(acts[|acts| - 1]);
      StepGrows(world, since, Exec(m, front), acts[|acts| - 1]);
      BelowTransitive(LiveData(Exec(m, acts[..i]).store), LiveData(Exec(m, front).store), LiveData(Exec(m, acts).store));
    }
  }

  // ---------------------------------------------------------------- milestones

  /** The machine shows a completed pass of the cluster that did not rely on a state of the
      ConfigMap from before `since`. */
  ghost predicate FscDone(world: World, since: int, m: Machine, f: string)
    requires f in world.clusters
  {
    m.fsc.FscEnded? && m.fsc.op == Ensure(f, world.clusters[f]) && m.fsc.ok && since < m.fsc.rv
  }

  ghost predicate ScDone(m: Machine, sc: string) {
    m.sc == ScEnded(sc, Clean)
  }

  /** What a finished pass has put into the ConfigMap. */
  ghost predicate Milestones(world: World, since: int, m: Machine) {
    && (forall f | f in world.clusters && FscDone(world, since, m, f) :: f in LiveData(m.store))
    && (forall sc, f | sc in world.live && f in world.live[sc] && ScDone(m, sc) :: Holds(LiveData(m.store), f, sc, world.live[sc][f]))
  }

  lemma StepReaches(world: World, since: int, m: Machine, a: Action)
    requires world.Valid() && Growing(world, since, m) && world.Allows(a) && Milestones(world, since, m)
    ensures Milestones(world, since, Apply(m, a))
  {
    StepGrows(world, since, m, a);
    var m' := Apply(m, a);
    forall f | f in world.clusters && FscDone(world, since, m', f) ensures f in LiveData(m'.store) {
      if m.fsc.FscBusy? && a.FscMove? {
        FscEndsWithKey(world, since, m, f);
      } else {
        assert FscDone(world, since, m, f);
      }
    }
    forall sc, f | sc in world.live && f in world.live[sc] && ScDone(m', sc)
      ensures Holds(LiveData(m'.store), f, sc, world.live[sc][f])
    {
      if m.sc.ScBusy? && a.ScMove? {
        CleanStep(m);
        assert m.sc.w.target == world.TargetOf(sc) && f in m.sc.w.target.Matches();
      } else if a.ScStart? && !m.sc.ScBusy? && m'.sc != m.sc {
        CleanStartIsEmpty(sc, a.target, a.base, a.order);
      } else {
        assert ScDone(m, sc);
        assert Holds(LiveData(m.store), f, sc, world.live[sc][f]);
      }
    }
  }

  lemma FscEndsWithKey(world: World, since: int, m: Machine, f: string)
    requires Growing(world, since, m) && m.fsc.FscBusy?
    requires f in world.clusters && FscDone(world, since, Apply(m, FscMove), f)
    ensures f in LiveData(Apply(m, FscMove).store)
  {
  }

  lemma {:induction false} RunsReach(world: World, since: int, m: Machine, acts: seq<Action>)
    requires world.Valid() && Start(world, m, since) && AllAllowed(world, acts)
    ensures Milestones(world, since, Exec(m, acts))
  {
    if acts != [] {
      var front := acts[..|acts| - 1];
      RunsReach(world, since, m, front);
      RunsGrow(world, since, m, front);
      assert world.Allows(acts[|acts| - 1]);
      StepReaches(world, since, Exec(m, front), acts[|acts| - 1]);
    }
  }

  // ---------------------------------------------------------------- theorems

  ghost predicate EveryClusterDone(world: World, since: int, m: Machine, acts: seq<Action>) {
    forall f | f in world.clusters :: exists i :: 0 <= i <= |acts| && FscDone(world, since, Exec(m, acts[..i]), f)
  }

  ghost predicate EveryClassDone(world: World, m: Machine, acts: seq<Action>) {
    forall sc | sc in world.live :: exists i :: 0 <= i <= |acts| && ScDone(Exec(m, acts[..i]), sc)
  }

  /** Global convergence. From a deleted or empty ConfigMap, under every interleaving at the
      level of API calls, every stale read, also of states before the deletion, and every
      iteration order: once each cluster has completed a pass that did not rely on such an
      old state, and each live class has had a clean pass, the ConfigMap holds the one
      expected content. */
  lemma Converges(world: World, since: int, m: Machine, acts: seq<Action>)
    requires world.Valid() && Start(world, m, since) && AllAllowed(world, acts)
    requires EveryClusterDone(world, since, m, acts) && EveryClassDone(world, m, acts)
    ensures LiveData(Exec(m, acts).store) == world.Expected()
  {
    RunsGrow(world, since, m, acts);
    var d := LiveData(Exec(m, acts).store);
    forall f | f in world.clusters ensures f in d {
      var i :| 0 <= i <= |acts| && FscDone(world, since, Exec(m, acts[..i]), f);
      RunsReach(world, since, m, acts[..i]);
      RunsOnlyAdd(world, since, m, acts, i);
    }
    forall sc, f | sc in world.live && f in world.live[sc] ensures Holds(d, f, sc, world.live[sc][f]) {
      var i :| 0 <= i <= |acts| && ScDone(Exec(m, acts[..i]), sc);
      ClassReached(world, since, m, acts, i, sc, f);
    }
    SoundAndComplete(world, d);
  }

  lemma ClassReached(world: World, since: int, m: Machine, acts: seq<Action>, i: nat, sc: string, f: string)
    requires world.Valid() && Start(world, m, since) && AllAllowed(world, acts) && i <= |acts|
    requires sc in world.live && f in world.live[sc] && ScDone(Exec(m, acts[..i]), sc)
    ensures Holds(LiveData(Exec(m, acts).store), f, sc, world.live[sc][f])
  {
    RunsReach(world, since, m, acts[..i]);
    RunsOnlyAdd(world, since, m, acts, i);
    assert Holds(LiveData(Exec(m, acts[..i]).store), f, sc, world.live[sc][f]);
  }

  lemma SoundAndComplete(world: World, d: Data)
    requires world.Valid() && Sound(world, d)
    requires forall f | f in world.clusters :: f in d
    requires forall sc, f | sc in world.live && f in world.live[sc] :: Holds(d, f, sc, world.live[sc][f])
    ensures d == world.Expected()
  {
    var want := world.Expected();
    forall f | f in world.clusters ensures d[f] == want[f] {
      forall sc | sc in world.PoolsOf(f) ensures sc in d[f].pools.value {
        assert Holds(d, f, sc, world.live[sc][f]);
      }
      FullSubMap(d[f].pools.value, world.PoolsOf(f));
    }
    assert d.Keys == want.Keys;
  }

  lemma FullSubMap<K, V>(a: map<K, V>, b: map<K, V>)
    requires SubMap(a, b) && forall k | k in b :: k in a
    ensures a == b
  {
  }

  lemma StepAddsKeyByPass(world: World, since: int, x: Machine, a: Action, f: string)
    requires Growing(world, since, x) && world.Allows(a) && f in world.clusters
    requires f !in LiveData(x.store) && f in LiveData(Apply(x, a).store)
    ensures FscDone(world, since, Apply(x, a), f)
  {
    if a.ScMove? && x.sc.ScBusy? { ScWriteShape(x); }
    if a.FscMove? && x.fsc.FscBusy? { FscWriteKeepsEntries(x); }
  }

  /** The entry of a cluster is there only if a pass of the cluster put it there. */
  lemma {:induction false} KeyNeedsPass(world: World, since: int, m: Machine, acts: seq<Action>, f: string) returns (i: nat)
    requires world.Valid() && Start(world, m, since) && AllAllowed(world, acts)
    requires f in LiveData(Exec(m, acts).store)
    ensures i <= |acts| && f in world.clusters && FscDone(world, since, Exec(m, acts[..i]), f)
  {
    RunsGrow(world, since, m, acts);
    var front := acts[..|acts| - 1];
    if f in LiveData(Exec(m, front).store) {
      i := KeyNeedsPass(world, since, m, front, f);
      assert front[..i] == acts[..i];
    } else {
      RunsGrow(world, since, m, front);
      assert world.Allows(acts[|acts| - 1]);
      StepAddsKeyByPass(world, since, Exec(m, front), acts[|acts| - 1], f);
      i := |acts|;
      assert acts[..i] == acts;
    }
  }

  /** Once each live class has had a clean pass, the content is the expected one if and only
      if each cluster has completed a pass that did not rely on an old state. */
  lemma ConvergesExactly(world: World, since: int, m: Machine, acts: seq<Action>)
    requires world.Valid() && Start(world, m, since) && AllAllowed(world, acts)
    requires EveryClassDone(world, m, acts)
    ensures LiveData(Exec(m, acts).store) == world.Expected() <==> EveryClusterDone(world, since, m, acts)
  {
    if EveryClusterDone(world, since, m, acts) {
      Converges(world, since, m, acts);
    } else if LiveData(Exec(m, acts).store) == world.Expected() {
      var f :| f in world.clusters && forall i :: 0 <= i <= |acts| ==> !FscDone(world, since, Exec(m, acts[..i]), f);
      var i := KeyNeedsPass(world, since, m, acts, f);
    }
  }

  /** The proviso on the clusters' passes is a real one: a pass that reads its entry in a state
      from before the deletion completes without a write. */
  lemma OldStateIsBelieved(f: string, secret: string) returns (world: World, since: int, m: Machine, acts: seq<Action>)
    requires f != POOLS_KEY
    ensures world.Valid() && Start(world, m, since) && AllAllowed(world, acts) && world.clusters == map[f := secret]
    ensures var x := Exec(m, acts);
      x.fsc.FscEnded? && x.fsc.op == Ensure(f, secret) && x.fsc.ok && f !in LiveData(x.store)
  {
    world := World(map[f := secret], map[]);
    var old' := Snapshot(map[f := FreshEntry(secret)], 1);
    since := 1;
    m := Machine(Store(None, 1), {old'}, ScIdle, FscIdle);
    acts := [FscStart(f, Alive(secret), Some(old')), FscMove];
    assert acts[..1][..0] == [];
    assert Exec(m, acts[..1]) == Apply(Exec(m, []), acts[0]);
  }
}
