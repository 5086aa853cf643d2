/** A converged ConfigMap is left alone: from any state, with any past in the caches. */
module Stability {
  import opened Common
  import opened ApiServer
  import opened PoolsConfigMap
  import opened PoolsProtocol
  import opened Convergence

  /** The server holds the expected content; passes may be under way on stale reads. */
  ghost predicate Converged(world: World, x: Machine) {
    && Inv(x) && x.store.live.Some? && LiveData(x.store) == world.Expected()
    && (x.sc.ScBusy? ==> world.Fits(x.sc.w.sc, x.sc.w.target))
    && (x.fsc.FscBusy? ==> (x.fsc.w.op.Ensure? <==> x.fsc.w.op.name in world.clusters))
  }

  ghost predicate AllAdmitted(world: World, acts: seq<Action>) {
    forall i | 0 <= i < |acts| :: world.Admits(acts[i])
  }

  /** An expected entry already says about every class what a fitting target asks. */
  lemma ExpectedIsSettled(world: World, f: string, sc: string, target: Target)
    requires f in world.clusters && world.Fits(sc, target) && !target.MatchFailed?
    ensures Fix(world.Expected()[f], sc, target.Want(f)) == world.Expected()[f]
  {
    var e, want := world.Expected()[f], target.Want(f);
    assert want.Some? ==> sc in world.PoolsOf(f) && world.PoolsOf(f)[sc] == want.value;
    assert want.None? ==> sc !in world.PoolsOf(f);
    EditEntryLaw(e, sc, want);
  }

  lemma ScMoveLeaves(world: World, x: Machine)
    requires Converged(world, x) && x.sc.ScBusy?
    ensures Apply(x, ScMove).store == x.store
  {
    ScWriteShape(x);
    var w, k := x.sc.w, x.sc.w.order[x.sc.w.pos];
    if Apply(x, ScMove).store != x.store {
      ExpectedIsSettled(world, k, w.sc, w.target);
    }
  }

  lemma FscMoveLeaves(world: World, x: Machine)
    requires Converged(world, x) && POOLS_KEY !in world.clusters && x.fsc.FscBusy?
    ensures Apply(x, FscMove).store == x.store
  {
    var w, d := x.fsc.w, LiveData(x.store);
    if w.Holding? {
      assert Snapshot(w.data, w.rv) in x.history;
      if w.op.Drop? { assert d - {w.op.name} == d; }
    }
  }

  lemma StepKeepsConverged(world: World, x: Machine, a: Action)
    requires Converged(world, x) && POOLS_KEY !in world.clusters && world.Admits(a)
    ensures Converged(world, Apply(x, a)) && Apply(x, a).store == x.store
  {
    StepKeepsInv(x, a);
    if a.ScMove? && x.sc.ScBusy? {
      ScMoveLeaves(world, x);
      ScWriteShape(x);
    } else if a.FscMove? && x.fsc.FscBusy? {
      FscMoveLeaves(world, x);
      FscStepLaw(x.store, x.fsc.w);
    }
  }

  /** No pass, however stale its reads, changes data or version of the expected content. */
  lemma {:induction false} StaysConverged(world: World, x: Machine, more: seq<Action>)
    requires Converged(world, x) && POOLS_KEY !in world.clusters && AllAdmitted(world, more)
    ensures Converged(world, Exec(x, more)) && Exec(x, more).store == x.store
  {
    if more != [] {
      var front := more[..|more| - 1];
      StaysConverged(world, x, front);
      assert world.Admits(more[|more| - 1]);
      StepKeepsConverged(world, Exec(x, front), more[|more| - 1]);
    }
  }

  /** The machine at rest, with a server that holds `d` and caches that show it. */
  function AtRest(d: Data): Machine {
    var at := Snapshot(d, 1);
    Machine(Store(Some(at), 1), {at}, ScIdle, FscIdle)
  }

  lemma TwoActions(x: Machine, a: Action, b: Action)
    ensures Exec(x, [a, b]) == Apply(Apply(x, a), b)
  {
    ExecCons(x, a, [b]);
    ExecCons(Apply(x, a), b, []);
    assert [a, b] == [a] + [b] && [b] == [b] + [];
  }

  /** A cluster named like the legacy key has its own entry purged by its next pass. */
  lemma LegacyNameRewrites(world: World, seen: Seen) returns (more: seq<Action>)
    requires POOLS_KEY in world.clusters && seen.Alive?
    ensures Converged(world, AtRest(world.Expected()))
    ensures more == [FscStart(POOLS_KEY, seen, AtRest(world.Expected()).store.live), FscMove]
    ensures var x := AtRest(world.Expected());
      Exec(x, more).store != x.store && POOLS_KEY !in LiveData(Exec(x, more).store)
  {
    var x := AtRest(world.Expected());
    var start := FscStart(POOLS_KEY, seen, x.store.live);
    more := [start, FscMove];
    TwoActions(x, start, FscMove);
  }

  /** A pass whose match differs from the content's at `f` rewrites that entry. */
  lemma OtherTargetRewrites(world: World, sc: string, pools: map<string, string>, f: string) returns (more: seq<Action>, order: seq<string>)
    requires world.Valid() && sc in world.live && f in world.live[sc] && pools.Keys <= world.clusters.Keys
    requires f in pools && pools[f] != world.live[sc][f] && pools[f] != ""
    ensures Converged(world, AtRest(world.Expected()))
    ensures more == [ScStart(sc, Live(pools), AtRest(world.Expected()).store.live.value, order), ScMove]
    ensures var x := AtRest(world.Expected());
      && Exec(x, more).store.clock == x.store.clock + 1
      && LiveData(Exec(x, more).store) == world.Expected()[f := Parsed(Some(world.PoolsOf(f)[sc := pools[f]]), world.clusters[f])]
      && LiveData(Exec(x, more).store) != world.Expected()
  {
    var x := AtRest(world.Expected());
    var base := x.store.live.value;
    order := OrderingFrom(base.data.Keys, f);
    var start := ScStart(sc, Live(pools), base, order);
    more := [start, ScMove];
    TwoActions(x, start, ScMove);
    var d := world.Expected()[f := Parsed(Some(world.PoolsOf(f)[sc := pools[f]]), world.clusters[f])];
    assert d[f].pools.value[sc] == pools[f] && world.Expected()[f].pools.value[sc] == world.live[sc][f];
    assert Apply(x, start).sc == ScBusy(ScWork(sc, Live(pools), base, order, 0, base.data));
  }
}
