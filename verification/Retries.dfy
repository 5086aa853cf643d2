/** How often passes conflict when each starts from the current state, whatever the other
    controller and outsiders do meanwhile. */
module Retries {
  import opened Common
  import opened ApiServer
  import opened PoolsConfigMap
  import opened PoolsProtocol
  import opened Convergence
  import opened Progress

  /** A pass that starts with this action reads the current state. */
  predicate Fresh(x: Machine, a: Action) {
    match a
    case ScStart(_, _, base, _) => x.store.live == Some(base)
    case FscStart(_, _, read) => read == x.store.live
    case _ => true
  }

  ghost predicate FreshReads(m: Machine, acts: seq<Action>) {
    forall i | 0 <= i < |acts| :: Fresh(Exec(m, acts[..i]), acts[i])
  }

  /** The action ends a StorageClass pass with a conflict. */
  ghost predicate ScConflict(x: Machine, a: Action) {
    a.ScMove? && x.sc.ScBusy? && Apply(x, a).sc == ScEnded(x.sc.w.sc, Failed(Refused(Conflict)))
  }

  /** The action ends a FlashSystemCluster pass because the object is there in another version,
      or is there already. */
  ghost predicate FscConflict(x: Machine, a: Action) {
    a.FscMove? && x.fsc.FscBusy? && x.store.live.Some? && Apply(x, a).fsc.FscEnded? && !Apply(x, a).fsc.ok
  }

  ghost function ScConflicts(m: Machine, acts: seq<Action>): nat {
    if acts == [] then 0
    else
      var front, a := acts[..|acts| - 1], acts[|acts| - 1];
      ScConflicts(m, front) + if ScConflict(Exec(m, front), a) then 1 else 0
  }

  ghost function FscConflicts(m: Machine, acts: seq<Action>): nat {
    if acts == [] then 0
    else
      var front, a := acts[..|acts| - 1], acts[|acts| - 1];
      FscConflicts(m, front) + if FscConflict(Exec(m, front), a) then 1 else 0
  }

  /** 1 if the server has moved on under the pass, which is then bound to conflict. */
  function ScMoved(x: Machine): nat {
    if x.sc.ScBusy? && x.store.live.Some? && x.store.live.value.rv != x.sc.w.base.rv then 1 else 0
  }

  function FscMoved(x: Machine): nat {
    if x.fsc.FscBusy? && x.store.live.Some? && (x.fsc.w.Creating? || x.store.live.value.rv != x.fsc.w.rv) then 1 else 0
  }

  /** Each conflict uses up a version handed out since the pass began. */
  lemma ScStepPays(x: Machine, a: Action)
    requires Fresh(x, a)
    ensures (if ScConflict(x, a) then 1 else 0) + ScMoved(Apply(x, a)) - ScMoved(x) <= Apply(x, a).store.clock - x.store.clock
  {
    if a.FscMove? && x.fsc.FscBusy? { FscStepLaw(x.store, x.fsc.w); }
  }

  lemma FscStepPays(x: Machine, a: Action)
    requires Fresh(x, a)
    ensures (if FscConflict(x, a) then 1 else 0) + FscMoved(Apply(x, a)) - FscMoved(x) <= Apply(x, a).store.clock - x.store.clock
  {
    if a.FscMove? && x.fsc.FscBusy? { FscStepLaw(x.store, x.fsc.w); }
  }

  /** In every run whose passes read the current state, with any interference, outside edits
      and deletions, each controller conflicts at most once per version handed out, and once
      more if the run begins with a pass that is already behind. */
  lemma {:induction false} ConflictsAreBounded(m: Machine, acts: seq<Action>)
    requires FreshReads(m, acts)
    ensures var x := Exec(m, acts);
      && ScConflicts(m, acts) + ScMoved(x) <= x.store.clock - m.store.clock + ScMoved(m)
      && FscConflicts(m, acts) + FscMoved(x) <= x.store.clock - m.store.clock + FscMoved(m)
  {
    if acts != [] {
      var front, a := acts[..|acts| - 1], acts[|acts| - 1];
      assert FreshReads(m, front) by {
        forall i | 0 <= i < |front| ensures Fresh(Exec(m, front[..i]), front[i]) { assert front[..i] == acts[..i]; }
      }
      ConflictsAreBounded(m, front);
      assert Fresh(Exec(m, acts[..|acts| - 1]), acts[|acts| - 1]);
      ScStepPays(Exec(m, front), a);
      FscStepPays(Exec(m, front), a);
    }
  }

  /** From a deleted or empty ConfigMap, with clusters and matches given and passes reading the
      current state, the number of conflicts in a run is bounded, however long the run. */
  lemma RetriesAreBounded(world: World, since: int, m: Machine, acts: seq<Action>)
    requires world.Valid() && Start(world, m, since) && AllAllowed(world, acts) && FreshReads(m, acts)
    ensures ScConflicts(m, acts) + FscConflicts(m, acts)
      <= 2 * (1 + |world.clusters.Keys| + |MatchedPairs(world)|) + ScMoved(m) + FscMoved(m)
  {
    ConflictsAreBounded(m, acts);
    WritesAreBounded(world, since, m, acts);
  }
}
