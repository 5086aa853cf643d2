/** What a nil return of the StorageClass watcher says about the server, over all runs of both
    controllers: the work queue does not come back to the class after one. */
module NilReturns {
  import opened Common
  import opened ApiServer
  import opened PoolsConfigMap
  import opened PoolsControllers
  import opened PoolsProtocol

  /** If the pass on `base` returns nil at this point of the run, no entry differs. */
  ghost predicate NilLeavesNothing(m: Machine, acts: seq<Action>, a: Action, sc: string, target: Target, base: Snapshot) {
    var x := Exec(m, acts);
    && Init(m) && (PassEnds(x, a, sc, target, base, Clean) || PassEnds(x, a, sc, target, base, NoPool))
    ==> Differing(LiveData(Apply(x, a).store), sc, target) == {}
  }

  /** The pass reaches its loop, if at all, with an entry to visit and without meeting an
      empty pool. */
  predicate Telling(target: Target, base: Snapshot) {
    Runnable(base.data, target) ==> base.data != map[] && NoEmptyPool(target)
  }

  /** In all runs, with any other passes, stale reads and outside edits, a nil return of a pass
      leaves no entry of the server differing, if and only if the pass fails before its loop,
      or the snapshot it read has an entry and no matched pool is empty. */
  lemma NilReturnExact(sc: string, target: Target, base: Snapshot)
    ensures (forall m, acts, a :: NilLeavesNothing(m, acts, a, sc, target, base)) <==> Telling(target, base)
  {
    if Telling(target, base) {
      forall m, acts, a ensures NilLeavesNothing(m, acts, a, sc, target, base) {
        TellingReturn(m, acts, a, sc, target, base);
      }
    } else if base.data == map[] {
      var m, a := StaleEmptyRead(sc, target, base, "f", "p");
      assert Exec(m, []) == m;
      assert !NilLeavesNothing(m, [], a, sc, target, base);
    } else {
      var m, acts := EmptyPoolBelievesNothing(sc, target, base);
      assert !NilLeavesNothing(m, acts, ScMove, sc, target, base);
    }
  }

  lemma TellingReturn(m: Machine, acts: seq<Action>, a: Action, sc: string, target: Target, base: Snapshot)
    requires Telling(target, base)
    ensures NilLeavesNothing(m, acts, a, sc, target, base)
  {
    var x := Exec(m, acts);
    if Init(m) && PassEnds(x, a, sc, target, base, Clean) {
      RunsKeepInv(m, acts);
      CleanPass(m, acts, a, sc, target, base);
    } else if Init(m) && PassEnds(x, a, sc, target, base, NoPool) {
      RunsKeepInv(m, acts);
      NoPoolNeedsEmptyPool(x, a, sc, target, base);
    }
  }

  lemma NoPoolNeedsEmptyPool(x: Machine, a: Action, sc: string, target: Target, base: Snapshot)
    requires Inv(x) && PassEnds(x, a, sc, target, base, NoPool)
    ensures Runnable(base.data, target) && !NoEmptyPool(target)
  {
    if a.ScMove? { ScStepLaw(x, x.sc.w); }
  }

  /** The cache still answers with the empty object, while the server's entry `f` lists the
      class: the pass ends clean at once and the class stays listed. */
  lemma StaleEmptyRead(sc: string, target: Target, base: Snapshot, f: string, pool: string) returns (m: Machine, a: Action)
    requires base.data == map[] && !target.MatchFailed? && target.Matches() == map[]
    ensures Init(m) && PassEnds(m, a, sc, target, base, Clean)
    ensures Apply(m, a).store == m.store && LiveData(m.store) == map[f := Parsed(Some(map[sc := pool]), "s")]
    ensures f in Differing(LiveData(m.store), sc, target)
  {
    var newer := Snapshot(map[f := Parsed(Some(map[sc := pool]), "s")], base.rv + 1);
    m := Machine(Store(Some(newer), base.rv + 1), {base, newer}, ScIdle, FscIdle);
    a := ScStart(sc, target, base, []);
  }

  /** A pass that meets an empty pool first returns nil without an API call, whatever the
      server holds by then. */
  lemma EmptyPoolBelievesNothing(sc: string, target: Target, base: Snapshot) returns (m: Machine, acts: seq<Action>)
    requires Runnable(base.data, target) && !NoEmptyPool(target)
    ensures Init(m) && PassEnds(Exec(m, acts), ScMove, sc, target, base, NoPool)
    ensures Differing(LiveData(Apply(Exec(m, acts), ScMove).store), sc, target) != {}
  {
    var f :| f in target.pools && target.pools[f] == "";
    var order := OrderingFrom(base.data.Keys, f);
    var newer := Snapshot(map[f := FreshEntry("")], base.rv + 1);
    m := Machine(Store(Some(newer), base.rv + 1), {base, newer}, ScIdle, FscIdle);
    var start := ScStart(sc, target, base, order);
    acts := [start];
    ExecCons(m, start, []);
    assert acts == [start] + [];
    assert Exec(Apply(m, start), []) == Apply(m, start);
    assert f in Differing(newer.data, sc, target);
  }
}
