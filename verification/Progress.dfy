/** Convergence can always be completed: from every reachable state some continuation leads
    to the expected content, so no interleaving paints the controllers into a corner. And no
    run writes more often than there are entries and classes to add. */
module Progress {
  import opened Common
  import opened ApiServer
  import opened PoolsConfigMap
  import opened PoolsControllers
  import opened PoolsProtocol
  import opened Convergence

  /** What every state of an allowed run satisfies. */
  ghost predicate Reachable(world: World, since: int, x: Machine) {
    world.Valid() && Growing(world, since, x) && Milestones(world, since, x)
  }

  /** A pass of an existing cluster or a live class whose lookups succeed. */
  predicate Plain(world: World, a: Action) {
    match a
    case ScStart(sc, target, _, _) => sc in world.live && target == Target.Live(world.live[sc])
    case FscStart(name, seen, _) => name in world.clusters && seen == Alive(world.clusters[name])
    case ScMove => true
    case FscMove => true
    case _ => false
  }

  ghost predicate AllPlain(world: World, acts: seq<Action>) {
    forall i | 0 <= i < |acts| :: Plain(world, acts[i])
  }

  /** No live class is matched to an empty pool. */
  predicate NoEmptyPools(world: World) {
    forall sc, f | sc in world.live && f in world.live[sc] :: world.live[sc][f] != ""
  }

  ghost predicate Leads(world: World, since: int, x: Machine, acts: seq<Action>, y: Machine) {
    && AllPlain(world, acts) && y == Exec(x, acts)
    && Reachable(world, since, y) && Below(LiveData(x.store), LiveData(y.store))
    && (x.store.live.Some? ==> y.store.live.Some?)
  }

  lemma StepLeads(world: World, since: int, y: Machine, a: Action)
    requires Reachable(world, since, y) && world.Allows(a)
    ensures var z := Apply(y, a);
      Reachable(world, since, z) && Below(LiveData(y.store), LiveData(z.store))
      && (y.store.live.Some? ==> z.store.live.Some?)
  {
    StepGrows(world, since, y, a);
    StepReaches(world, since, y, a);
  }

  lemma SoundIsBelowItself(world: World, d: Data)
    requires Sound(world, d)
    ensures Below(d, d) && Usable(d)
  {
  }

  lemma {:induction false} AllowedRunsLead(world: World, since: int, x: Machine, acts: seq<Action>)
    requires Reachable(world, since, x) && AllPlain(world, acts)
    ensures Leads(world, since, x, acts, Exec(x, acts))
  {
    if acts == [] {
      SoundIsBelowItself(world, LiveData(x.store));
    } else {
      var front := acts[..|acts| - 1];
      assert AllPlain(world, front) by { assert forall i | 0 <= i < |front| :: front[i] == acts[i]; }
      AllowedRunsLead(world, since, x, front);
      var y := Exec(x, front);
      assert Plain(world, acts[|acts| - 1]);
      StepLeads(world, since, y, acts[|acts| - 1]);
      BelowTransitive(LiveData(x.store), LiveData(y.store), LiveData(Exec(x, acts).store));
    }
  }

  lemma LeadsOn(world: World, since: int, x: Machine, a: seq<Action>, y: Machine, b: seq<Action>, z: Machine)
    requires Leads(world, since, x, a, y) && Leads(world, since, y, b, z)
    ensures Leads(world, since, x, a + b, z)
  {
    ExecAppend(x, a, b);
    forall i | 0 <= i < |a + b| ensures Plain(world, (a + b)[i]) {
      if i < |a| { assert Plain(world, a[i]); } else { assert Plain(world, b[i - |a|]); }
    }
    BelowTransitive(LiveData(x.store), LiveData(y.store), LiveData(z.store));
  }

  lemma MovesArePlain(world: World, moves: seq<Action>)
    requires OnlyMoves(moves)
    ensures AllPlain(world, moves)
  {
  }

  ghost predicate Resting(x: Machine) {
    !x.sc.ScBusy? && !x.fsc.FscBusy?
  }

  /** Passes under way come to an end. */
  lemma LetWorkersFinish(world: World, since: int, x: Machine) returns (acts: seq<Action>, y: Machine)
    requires Reachable(world, since, x)
    ensures Leads(world, since, x, acts, y) && Resting(y)
  {
    var a, b := [], [];
    if x.sc.ScBusy? { a := UninterruptedSc(x); }
    MovesArePlain(world, a);
    AllowedRunsLead(world, since, x, a);
    var mid := Exec(x, a);
    if mid.fsc.FscBusy? { b := UninterruptedFsc(mid); }
    MovesArePlain(world, b);
    AllowedRunsLead(world, since, mid, b);
    acts, y := a + b, Exec(mid, b);
    LeadsOn(world, since, x, a, mid, b, y);
  }

  /** A pass of a live cluster on a fresh read puts its entry in place. */
  lemma EnsureCluster(world: World, since: int, x: Machine, f: string) returns (acts: seq<Action>, y: Machine)
    requires Reachable(world, since, x) && Resting(x) && f in world.clusters
    ensures Leads(world, since, x, acts, y) && Resting(y) && f in LiveData(y.store) && y.store.live.Some?
  {
    var start := FscStart(f, Alive(world.clusters[f]), x.store.live);
    assert x.store.live.Some? ==> x.store.live.value in x.history;
    var x' := Apply(x, start);
    var moves := UninterruptedFsc(x');
    ExecCons(x, start, moves);
    acts := [start] + moves;
    MovesArePlain(world, moves);
    assert forall i | 0 <= i < |acts| :: i > 0 ==> acts[i] == moves[i - 1];
    AllowedRunsLead(world, since, x, acts);
    y := Exec(x, acts);
    FreshEnsureSucceeds(world, x.store, f);
  }

  lemma FreshEnsureSucceeds(world: World, s: Store, f: string)
    requires world.Valid() && f in world.clusters && Sound(world, LiveData(s))
    ensures var (s', ok) := FscRun(s, FscGo(FscBegin(Ensure(f, world.clusters[f]), s.live)));
      ok && s'.live.Some? && f in LiveData(s')
  {
    var op := Ensure(f, world.clusters[f]);
    var w := FscBegin(op, s.live);
    FscRunUnfolds(s, w);
    if w.Creating? {
      var (s', n) := FscStep(s, w);
      FscRunUnfolds(s', n.w);
    }
  }

  lemma {:induction false} EnsureClusters(world: World, since: int, x: Machine, todo: set<string>) returns (acts: seq<Action>, y: Machine)
    requires Reachable(world, since, x) && Resting(x) && todo <= world.clusters.Keys
    ensures Leads(world, since, x, acts, y) && Resting(y)
    ensures forall f | f in todo :: f in LiveData(y.store)
    decreases |todo|
  {
    if todo == {} {
      AllowedRunsLead(world, since, x, []);
      return [], x;
    }
    var f :| f in todo;
    var a, mid := EnsureCluster(world, since, x, f);
    var b, z := EnsureClusters(world, since, mid, todo - {f});
    LeadsOn(world, since, x, a, mid, b, z);
    assert f in LiveData(mid.store);
    acts, y := a + b, z;
  }

  /** One pass on a fresh read, uninterrupted: it ends clean or one entry closer. */
  lemma FreshPass(world: World, since: int, x: Machine, sc: string) returns (acts: seq<Action>, y: Machine)
    requires Reachable(world, since, x) && Resting(x) && x.store.live.Some? && sc in world.live && NoEmptyPools(world)
    requires world.live[sc].Keys <= LiveData(x.store).Keys
    ensures Leads(world, since, x, acts, y) && Resting(y) && y.store.live.Some?
    ensures ScDone(y, sc)
      || |Differing(LiveData(y.store), sc, world.TargetOf(sc))| < |Differing(LiveData(x.store), sc, world.TargetOf(sc))|
  {
    var base, target := x.store.live.value, world.TargetOf(sc);
    var order := Ordering(base.data.Keys);
    var start := ScStart(sc, target, base, order);
    assert base in x.history;
    var x' := Apply(x, start);
    var moves := [];
    if x'.sc.ScBusy? { moves := UninterruptedSc(x'); }
    ExecCons(x, start, moves);
    acts := [start] + moves;
    MovesArePlain(world, moves);
    assert forall i | 0 <= i < |acts| :: i > 0 ==> acts[i] == moves[i - 1];
    AllowedRunsLead(world, since, x, acts);
    y := Exec(x, acts);
    SoundIsBelowItself(world, base.data);
    assert NoEmptyPool(target) && Runnable(base.data, target);
    PassShrinksDifference(x.store, sc, target, order);
  }

  lemma {:induction false} CleanClass(world: World, since: int, x: Machine, sc: string) returns (acts: seq<Action>, y: Machine)
    requires Reachable(world, since, x) && Resting(x) && x.store.live.Some? && sc in world.live && NoEmptyPools(world)
    requires world.live[sc].Keys <= LiveData(x.store).Keys
    ensures Leads(world, since, x, acts, y) && Resting(y) && y.store.live.Some? && ScDone(y, sc)
    decreases |Differing(LiveData(x.store), sc, world.TargetOf(sc))|
  {
    acts, y := FreshPass(world, since, x, sc);
    if !ScDone(y, sc) {
      assert forall f | f in LiveData(x.store) :: f in LiveData(y.store);
      var b, z := CleanClass(world, since, y, sc);
      LeadsOn(world, since, x, acts, y, b, z);
      acts, y := acts + b, z;
    }
  }

  lemma {:induction false} CleanClasses(world: World, since: int, x: Machine, todo: set<string>) returns (acts: seq<Action>, y: Machine)
    requires Reachable(world, since, x) && Resting(x) && x.store.live.Some? && todo <= world.live.Keys && NoEmptyPools(world)
    requires world.clusters.Keys <= LiveData(x.store).Keys
    ensures Leads(world, since, x, acts, y) && Resting(y)
    ensures forall sc, f | sc in todo && f in world.live[sc] :: Holds(LiveData(y.store), f, sc, world.live[sc][f])
    decreases |todo|
  {
    if todo == {} {
      AllowedRunsLead(world, since, x, []);
      return [], x;
    }
    var sc :| sc in todo;
    var a, mid := CleanClass(world, since, x, sc);
    assert forall f | f in LiveData(x.store) :: f in LiveData(mid.store);
    var b, z := CleanClasses(world, since, mid, todo - {sc});
    LeadsOn(world, since, x, a, mid, b, z);
    forall f | f in world.live[sc] ensures Holds(LiveData(z.store), f, sc, world.live[sc][f]) {
      assert Holds(LiveData(mid.store), f, sc, world.live[sc][f]);
    }
    acts, y := a + b, z;
  }

  /** After any allowed run from a deleted or empty ConfigMap, with passes still under way on
      stale reads, there is a continuation that ends in the expected content. */
  lemma CanAlwaysConverge(world: World, since: int, m: Machine, acts: seq<Action>) returns (more: seq<Action>)
    requires world.Valid() && Start(world, m, since) && AllAllowed(world, acts) && NoEmptyPools(world)
    ensures AllPlain(world, more) && LiveData(Exec(m, acts + more).store) == world.Expected()
  {
    RunsGrow(world, since, m, acts);
    RunsReach(world, since, m, acts);
    var x := Exec(m, acts);
    var a, x1 := LetWorkersFinish(world, since, x);
    var b, x2 := EnsureClusters(world, since, x1, world.clusters.Keys);
    LeadsOn(world, since, x, a, x1, b, x2);
    if world.clusters == map[] {
      more := a + b;
      assert LiveData(x2.store) == map[] && world.Expected() == map[];
    } else {
      var some :| some in world.clusters;
      assert some in LiveData(x2.store);
      var c, x3 := CleanClasses(world, since, x2, world.live.Keys);
      LeadsOn(world, since, x, a + b, x2, c, x3);
      more := a + b + c;
      assert forall f | f in LiveData(x2.store) :: f in LiveData(x3.store);
      SoundAndComplete(world, LiveData(x3.store));
    }
    ExecAppend(m, acts, more);
  }

  ghost predicate ReachesExpected(world: World, m: Machine, acts: seq<Action>, more: seq<Action>) {
    AllAllowed(world, more) && LiveData(Exec(m, acts + more).store) == world.Expected()
  }

  /** The expected content can be reached if and only if no live class is matched to an empty
      pool; such a class never gets its entry there. */
  lemma CanConvergeExactly(world: World, since: int, m: Machine, acts: seq<Action>)
    requires world.Valid() && Start(world, m, since) && AllAllowed(world, acts)
    ensures (exists more :: ReachesExpected(world, m, acts, more)) <==> NoEmptyPools(world)
  {
    if NoEmptyPools(world) {
      var more := CanAlwaysConverge(world, since, m, acts);
      PlainIsAllowed(world, more);
      assert ReachesExpected(world, m, acts, more);
    }
    forall more | ReachesExpected(world, m, acts, more) ensures NoEmptyPools(world) {
      forall i | 0 <= i < |acts + more| ensures world.Allows((acts + more)[i]) {
        if i < |acts| { assert world.Allows(acts[i]); } else { assert world.Allows(more[i - |acts|]); }
      }
      RunsGrow(world, since, m, acts + more);
      SoundHasNoEmptyPool(world);
    }
  }

  lemma PlainIsAllowed(world: World, acts: seq<Action>)
    requires AllPlain(world, acts)
    ensures AllAllowed(world, acts)
  {
  }

  lemma SoundHasNoEmptyPool(world: World)
    requires world.Valid() && Sound(world, world.Expected())
    ensures NoEmptyPools(world)
  {
    forall sc, f | sc in world.live && f in world.live[sc] ensures world.live[sc][f] != "" {
      assert SoundEntry(world, f, world.Expected()[f]);
      assert sc in world.PoolsOf(f);
    }
  }

  // ---------------------------------------------------------------- number of writes

  /** The classes listed in the entries. */
  ghost function Pairs(d: Data): set<(string, string)> {
    set f, sc | f in d && d[f].Parsed? && d[f].pools.Some? && sc in d[f].pools.value :: (f, sc)
  }

  /** The clusters the live classes are matched to. */
  ghost function MatchedPairs(world: World): set<(string, string)> {
    set sc, f | sc in world.live && f in world.live[sc] :: (f, sc)
  }

  /** How much has been put in place: the object, entries, classes in entries. */
  ghost function Size(s: Store): nat {
    (if s.live.Some? then 1 else 0) + |LiveData(s).Keys| + |Pairs(LiveData(s))|
  }

  lemma {:induction false} SubsetSize<T>(a: set<T>, b: set<T>)
    requires a <= b
    ensures |a| <= |b| && (a != b ==> |a| < |b|)
  {
    var rest := b - a;
    assert b == a + rest;
    assert |b| == |a| + |rest|;
    if rest == {} { assert a == b; }
  }

  /** Sound content that has grown is larger. */
  lemma GrowthCounts(world: World, d: Data, d': Data)
    requires Sound(world, d) && Sound(world, d') && Below(d, d')
    ensures |d.Keys| <= |d'.Keys| && |Pairs(d)| <= |Pairs(d')|
    ensures d != d' ==> |d.Keys| + |Pairs(d)| < |d'.Keys| + |Pairs(d')|
  {
    SubsetSize(d.Keys, d'.Keys);
    SubsetSize(Pairs(d), Pairs(d'));
    if d.Keys == d'.Keys && Pairs(d) == Pairs(d') {
      forall f | f in d ensures d[f] == d'[f] {
        forall sc | sc in d'[f].pools.value ensures sc in d[f].pools.value {
          assert (f, sc) in Pairs(d');
        }
        FullSubMap(d[f].pools.value, d'[f].pools.value);
      }
    }
  }

  lemma FscWriteChanges(s: Store, w: FscWork)
    ensures var s' := FscStep(s, w).0;
      || s' == s
      || (s'.clock == s.clock + 1 && s'.live.Some? && (s.live.None? || LiveData(s') != LiveData(s)))
  {
  }

  /** Every version the server hands out puts something new in place. */
  lemma StepCounts(world: World, since: int, x: Machine, a: Action)
    requires world.Valid() && Growing(world, since, x) && world.Allows(a)
    ensures var s, s' := x.store, Apply(x, a).store;
      s'.clock - s.clock <= Size(s') - Size(s)
  {
    StepGrows(world, since, x, a);
    GrowthCounts(world, LiveData(x.store), LiveData(Apply(x, a).store));
    if a.ScMove? && x.sc.ScBusy? { ScWriteShape(x); }
    if a.FscMove? && x.fsc.FscBusy? { FscWriteChanges(x.store, x.fsc.w); }
  }

  lemma {:induction false} RunsCount(world: World, since: int, m: Machine, acts: seq<Action>)
    requires world.Valid() && Start(world, m, since) && AllAllowed(world, acts)
    ensures Exec(m, acts).store.clock - m.store.clock <= Size(Exec(m, acts).store) - Size(m.store)
  {
    if acts != [] {
      var front := acts[..|acts| - 1];
      RunsCount(world, since, m, front);
      RunsGrow(world, since, m, front);
      assert world.Allows(acts[|acts| - 1]);
      StepCounts(world, since, Exec(m, front), acts[|acts| - 1]);
    }
  }

  /** In every allowed run, however long and however often passes are re-run on conflicts, the
      server hands out at most one version per object, cluster and matched pair. */
  lemma WritesAreBounded(world: World, since: int, m: Machine, acts: seq<Action>)
    requires world.Valid() && Start(world, m, since) && AllAllowed(world, acts)
    ensures Exec(m, acts).store.clock <= m.store.clock + 1 + |world.clusters.Keys| + |MatchedPairs(world)|
  {
    RunsCount(world, since, m, acts);
    RunsGrow(world, since, m, acts);
    var d := LiveData(Exec(m, acts).store);
    SubsetSize(d.Keys, world.clusters.Keys);
    forall f, sc | (f, sc) in Pairs(d) ensures (f, sc) in MatchedPairs(world) {
      assert SoundEntry(world, f, d[f]);
      assert sc in world.PoolsOf(f);
    }
    SubsetSize(Pairs(d), MatchedPairs(world));
  }
}
