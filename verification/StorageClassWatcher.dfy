/** The StorageClass watcher as a whole: what the lookups answer decides the target of a pass. */
module StorageClassWatcher {
  import opened Common
  import opened Matching
  import opened ApiServer
  import opened PoolsConfigMap
  import PoolsControllers

  /** What the read of the requested class answers. */
  datatype Lookup = Unknown | Found(sc: StorageClass, terminating: bool)

  /** A target the pass may compute; more than one only where the match itself is open. */
  ghost predicate TargetFor(v: View, found: Lookup, target: Target) {
    match found
    case Unknown => target == Absent
    case Found(sc, terminating) => exists r :: Match(v, sc, r) && target == TargetOfMatch(r, terminating)
  }

  function TargetOfMatch(r: Result<map<string, string>>, terminating: bool): Target {
    if r.Err? then MatchFailed
    else if terminating then Terminating(r.value)
    else Live(r.value)
  }

  /** A request of the work queue, start to end. A terminating class is still matched, and a
      failing match fails its pass. */
  method Reconcile(server: Server, v: View, name: string, found: Lookup, read: Option<Snapshot>)
    returns (outcome: Outcome, ghost target: Target, ghost order: seq<string>)
    modifies server
    ensures TargetFor(v, found, target)
    ensures read.None? ==> outcome == Failed(NoConfigMap) && server.store == old(server.store)
    ensures read.Some? ==> Enumerates(order, read.value.data.Keys)
    ensures read.Some? ==>
      (server.store, outcome) == ScRun(old(server.store), ScBegin(name, target, read.value, order))
    ensures read.Some? && NoMatch(v, found) ==> outcome == Failed(MatchError) && server.store == old(server.store)
    ensures read.Some? && outcome == Failed(MatchError) ==> NoMatch(v, found)
  {
    var t := Absent;
    if found.Found? {
      var r := GetFlashSystemClusterByStorageClass(v, found.sc);
      t := TargetOfMatch(r, found.terminating);
    }
    target := t;
    TargetMeans(v, found, t);
    outcome, order := PoolsControllers.ReconcileStorageClass(server, name, t, read);
    if read.Some? { MatchErrorComesFirst(old(server.store), name, t, read.value, order); }
  }

  /** The class was found, and its clusters cannot be determined. */
  ghost predicate NoMatch(v: View, found: Lookup) {
    found.Found? && forall m :: !Match(v, found.sc, Ok(m))
  }

  /** What the target makes of the lookups. A failed match fails the pass before its loop,
      whatever it read. Otherwise the pass needs the keys of the matched clusters, and wants
      the class in the entries of just those, with their pools, if it is live, and in none if
      it is terminating. A class that is gone is wanted nowhere and needs no key. */
  lemma TargetMeans(v: View, found: Lookup, target: Target)
    requires TargetFor(v, found, target)
    ensures NoMatch(v, found) <==> forall name, base, order :: ScBegin(name, target, base, order) == Stop(Failed(MatchError))
    ensures NoMatch(v, found) <==> target.MatchFailed?
    ensures found.Unknown? ==> target.Matches() == map[] && forall f :: target.Want(f) == None
    ensures found.Found? && !NoMatch(v, found) ==>
      && Match(v, found.sc, Ok(target.Matches()))
      && forall f :: target.Want(f) == if !found.terminating && f in target.Matches() then Some(target.Matches()[f]) else None
  {
    if found.Found? {
      var r :| Match(v, found.sc, r) && target == TargetOfMatch(r, found.terminating);
      if r.Err? {
        forall m ensures !Match(v, found.sc, Ok(m)) { FailureExcludesMatch(v, found.sc, r.why, m); }
      }
    }
    if !target.MatchFailed? {
      assert ScBegin("", target, Snapshot(map[], 0), []) != Stop(Failed(MatchError));
    }
  }

  lemma {:induction false} MatchErrorComesFirst(s: Store, name: string, target: Target, base: Snapshot, order: seq<string>)
    ensures target.MatchFailed? ==> ScRun(s, ScBegin(name, target, base, order)) == (s, Failed(MatchError))
    ensures ScRun(s, ScBegin(name, target, base, order)).1 == Failed(MatchError) ==> target.MatchFailed?
  {
    if !target.MatchFailed? { LoopHasOtherFailures(s, ScBegin(name, target, base, order)); }
  }

  lemma {:induction false} LoopHasOtherFailures(s: Store, n: ScNext)
    requires n != Stop(Failed(MatchError))
    ensures ScRun(s, n).1 != Failed(MatchError)
    decreases if n.Go? then |n.w.order| - n.w.pos else -1
  {
    if n.Go? && n.w.pos < |n.w.order| {
      var (s', n') := ScStep(s, n.w);
      LoopHasOtherFailures(s', n');
    }
  }
}
