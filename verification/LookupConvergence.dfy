/** Convergence in terms of what the controllers look up: clusters, secrets and classes are
    fixed, and every pass computes its target from them, by any iteration order. */
module LookupConvergence {
  import opened Common
  import opened Matching
  import opened ApiServer
  import opened PoolsConfigMap
  import opened PoolsProtocol
  import opened Convergence
  import opened Stability
  import opened Progress
  import opened StorageClassWatcher

  /** What the lookups see: clusters and secrets, and the StorageClasses by name. */
  datatype Setting = Setting(view: View, classes: map<string, Lookup>)
  {
    function Answer(sc: string): Lookup {
      if sc in classes then classes[sc] else Unknown
    }

    /** A listed cluster has this name and this secret name. */
    ghost predicate Lists(f: string, secret: string) {
      exists i :: 0 <= i < |view.clusters| && view.clusters[i].name == f && view.clusters[i].secret.name == secret
    }

    /** A step that starts from these lookups. */
    ghost predicate Answers(a: Action) {
      match a
      case ScStart(sc, target, _, _) => TargetFor(view, Answer(sc), target)
      case FscStart(name, seen, _) =>
        if seen.Alive? then Lists(name, seen.secret)
        else forall i | 0 <= i < |view.clusters| :: view.clusters[i].name != name
      case OutsideDelete => false
      case OutsideEdit(_) => false
      case _ => true
    }

    predicate IsLive(sc: string) {
      Answer(sc).Found? && !Answer(sc).terminating
    }

    /** A successful match of a live class. */
    ghost predicate LiveMatch(sc: string, pools: map<string, string>) {
      IsLive(sc) && Match(view, Answer(sc).sc, Ok(pools))
    }

    /** No live class has two ids of one cluster with different pools. */
    ghost predicate AllDetermined() {
      forall sc | sc in classes && IsLive(sc) :: Determined(view, classes[sc].sc)
    }

    /** No cluster is named like the legacy key. */
    predicate NoLegacyName() {
      forall i | 0 <= i < |view.clusters| :: view.clusters[i].name != POOLS_KEY
    }

    /** A name does not stand for clusters with different secrets. */
    predicate OneSecret() {
      forall i, j | 0 <= i < j < |view.clusters| && view.clusters[i].name == view.clusters[j].name ::
        view.clusters[i].secret.name == view.clusters[j].secret.name
    }
  }

  ghost predicate AllAnswered(s: Setting, acts: seq<Action>) {
    forall i | 0 <= i < |acts| :: s.Answers(acts[i])
  }

  /** `world` says about clusters and live classes what the lookups answer, with one of the
      possible matches for each class. */
  ghost predicate Reflects(world: World, s: Setting) {
    && (forall f | f in world.clusters :: s.Lists(f, world.clusters[f]))
    && (forall i | 0 <= i < |s.view.clusters| :: s.view.clusters[i].name in world.clusters)
    && (forall sc | sc in world.live :: s.LiveMatch(sc, world.live[sc]))
    && (forall sc, pools | s.LiveMatch(sc, pools) :: sc in world.live)
  }

  lemma SomeWorld(s: Setting) returns (world: World)
    ensures Reflects(world, s)
  {
    var names := set i | 0 <= i < |s.view.clusters| :: s.view.clusters[i].name;
    forall f | f in names ensures exists secret :: s.Lists(f, secret) {
      var i :| 0 <= i < |s.view.clusters| && s.view.clusters[i].name == f;
      assert s.Lists(f, s.view.clusters[i].secret.name);
    }
    var clusters := map f | f in names :: (var secret :| s.Lists(f, secret); secret);
    var live := map sc | sc in s.classes && (exists pools :: s.LiveMatch(sc, pools)) ::
      (var pools :| s.LiveMatch(sc, pools); pools);
    world := World(clusters, live);
  }

  /** Any of the possible matches may be the one. */
  lemma SomeWorldWith(s: Setting, sc: string, pools: map<string, string>) returns (world: World)
    requires s.LiveMatch(sc, pools)
    ensures Reflects(world, s) && sc in world.live && world.live[sc] == pools
  {
    var some := SomeWorld(s);
    world := some.(live := some.live[sc := pools]);
  }

  /** Whatever the lookups answer, a matched cluster has an entry to go to. */
  lemma LookupsMakeValidWorld(world: World, s: Setting)
    requires Reflects(world, s)
    ensures world.Valid() <==> s.NoLegacyName()
    ensures forall sc, pools | s.LiveMatch(sc, pools) :: pools.Keys <= world.clusters.Keys
  {
    forall sc, pools | s.LiveMatch(sc, pools) ensures pools.Keys <= world.clusters.Keys {
      MatchedClustersExist(s.view, s.Answer(sc).sc, pools);
    }
    if POOLS_KEY in world.clusters { assert s.Lists(POOLS_KEY, world.clusters[POOLS_KEY]); }
  }

  /** With every match determined, the lookups answer only with what the world says. */
  lemma AnswersAreAdmitted(world: World, s: Setting, a: Action)
    requires Reflects(world, s) && s.AllDetermined() && s.Answers(a)
    ensures world.Admits(a) && (s.OneSecret() ==> world.Allows(a))
  {
    if a.ScStart? {
      TargetsFit(world, s, a.sc, a.target);
    } else if a.FscStart? {
      if a.seen.Alive? { ListedIsCluster(world, s, a.name, a.seen.secret); }
    }
  }

  lemma ListedIsCluster(world: World, s: Setting, f: string, secret: string)
    requires Reflects(world, s) && s.Lists(f, secret)
    ensures f in world.clusters && (s.OneSecret() ==> world.clusters[f] == secret)
  {
    var i :| 0 <= i < |s.view.clusters| && s.view.clusters[i].name == f && s.view.clusters[i].secret.name == secret;
    assert s.view.clusters[i].name in world.clusters;
    assert s.Lists(f, world.clusters[f]);
  }

  lemma TargetsFit(world: World, s: Setting, sc: string, target: Target)
    requires Reflects(world, s) && s.AllDetermined() && TargetFor(s.view, s.Answer(sc), target)
    ensures world.Fits(sc, target)
  {
    if target.Live? {
      assert s.LiveMatch(sc, target.pools);
      assert s.LiveMatch(sc, world.live[sc]);
      DeterminedAgrees(s.view, s.classes[sc].sc, target.pools, world.live[sc]);
    } else if sc in world.live {
      assert s.LiveMatch(sc, world.live[sc]);
    }
  }

  lemma AllAdmittedOrAllowed(world: World, s: Setting, acts: seq<Action>)
    requires Reflects(world, s) && s.AllDetermined() && AllAnswered(s, acts)
    ensures AllAdmitted(world, acts) && (s.OneSecret() ==> AllAllowed(world, acts))
  {
    forall i | 0 <= i < |acts| ensures world.Admits(acts[i]) && (s.OneSecret() ==> world.Allows(acts[i])) {
      AnswersAreAdmitted(world, s, acts[i]);
    }
  }

  /** Then the lookups fix the world. */
  lemma OneWorld(s: Setting, w: World, w': World)
    requires Reflects(w, s) && Reflects(w', s) && s.AllDetermined() && s.OneSecret()
    ensures w == w'
  {
    forall f | f in w.clusters || f in w'.clusters ensures f in w.clusters && f in w'.clusters && w.clusters[f] == w'.clusters[f] {
      if f in w.clusters { ListedIsCluster(w', s, f, w.clusters[f]); }
      if f in w'.clusters { ListedIsCluster(w, s, f, w'.clusters[f]); }
    }
    assert w.clusters == w'.clusters;
    forall sc | sc in w.live || sc in w'.live ensures sc in w.live && sc in w'.live && w.live[sc] == w'.live[sc] {
      if sc in w.live { assert s.LiveMatch(sc, w.live[sc]); }
      if sc in w'.live { assert s.LiveMatch(sc, w'.live[sc]); }
      DeterminedAgrees(s.view, s.classes[sc].sc, w.live[sc], w'.live[sc]);
    }
    assert w.live == w'.live;
  }

  ghost predicate SameContent(s: Setting, w: World, w': World) {
    Reflects(w, s) && Reflects(w', s) ==> w.Expected() == w'.Expected()
  }

  /** The lookups fix one expected content if and only if all matches are determined and no
      name stands for clusters with different secrets. */
  lemma OneContentExact(s: Setting)
    ensures (forall w, w' :: SameContent(s, w, w')) <==> s.AllDetermined() && s.OneSecret()
  {
    if s.AllDetermined() && s.OneSecret() {
      forall w, w' ensures SameContent(s, w, w') {
        if Reflects(w, s) && Reflects(w', s) { OneWorld(s, w, w'); }
      }
    } else {
      var w, w' := TwoContents(s);
      assert !SameContent(s, w, w');
    }
  }

  lemma TwoContents(s: Setting) returns (w: World, w': World)
    requires !s.AllDetermined() || !s.OneSecret()
    ensures !SameContent(s, w, w')
  {
    if !s.OneSecret() {
      var i, j :| && 0 <= i < j < |s.view.clusters| && s.view.clusters[i].name == s.view.clusters[j].name
                  && s.view.clusters[i].secret.name != s.view.clusters[j].secret.name;
      w, w' := TwoSecrets(s, s.view.clusters[i].name, s.view.clusters[i].secret.name, s.view.clusters[j].secret.name);
    } else {
      var sc :| sc in s.classes && s.IsLive(sc) && !Determined(s.view, s.classes[sc].sc);
      var p, q, f := TwoMatches(s.view, s.classes[sc].sc);
      w := SomeWorldWith(s, sc, p);
      w' := SomeWorldWith(s, sc, q);
      LookupsMakeValidWorld(w, s);
      LookupsMakeValidWorld(w', s);
      ContentsDiffer(w, w', sc, f);
    }
  }

  lemma TwoSecrets(s: Setting, f: string, a: string, b: string) returns (w: World, w': World)
    requires s.Lists(f, a) && s.Lists(f, b) && a != b
    ensures !SameContent(s, w, w')
  {
    var some := SomeWorld(s);
    w, w' := some.(clusters := some.clusters[f := a]), some.(clusters := some.clusters[f := b]);
    assert w.Expected()[f].secret != w'.Expected()[f].secret;
  }

  lemma ContentsDiffer(w: World, w': World, sc: string, f: string)
    requires f in w.clusters && f in w'.clusters && sc in w.live && sc in w'.live
    requires f in w.live[sc] && f in w'.live[sc] && w.live[sc][f] != w'.live[sc][f]
    ensures w.Expected() != w'.Expected()
  {
    assert sc in w.PoolsOf(f) && sc in w'.PoolsOf(f);
    assert w.Expected()[f].pools.value[sc] != w'.Expected()[f].pools.value[sc];
  }

  /** Each content the lookups leave open is one that some run ends in. */
  lemma EachContentReached(s: Setting, world: World, since: int, m: Machine) returns (acts: seq<Action>)
    requires Reflects(world, s) && s.NoLegacyName() && NoEmptyPools(world) && Start(world, m, since)
    ensures AllAnswered(s, acts) && LiveData(Exec(m, acts).store) == world.Expected()
  {
    LookupsMakeValidWorld(world, s);
    acts := CanAlwaysConverge(world, since, m, []);
    assert [] + acts == acts;
    PlainIsAnswered(world, s, acts);
  }

  // ---------------------------------------------------------------- theorems

  /** What fixes the outcome. */
  ghost predicate Settling(s: Setting) {
    s.AllDetermined() && s.OneSecret() && s.NoLegacyName()
  }

  /** From a deleted or empty ConfigMap, in every run whose passes compute their targets from
      the lookups: once each live class that can be matched has had a clean pass, the content
      is the one expected content if and only if each cluster has completed a pass that did
      not rely on a state from before the deletion. No run writes more often than there are
      entries and matched classes, besides the object. */
  lemma LookupsConverge(s: Setting, world: World, since: int, m: Machine, acts: seq<Action>)
    requires Settling(s) && Reflects(world, s) && Start(world, m, since) && AllAnswered(s, acts)
    ensures Exec(m, acts).store.clock <= m.store.clock + 1 + |world.clusters.Keys| + |MatchedPairs(world)|
    ensures EveryClassDone(world, m, acts) ==>
      (LiveData(Exec(m, acts).store) == world.Expected() <==> EveryClusterDone(world, since, m, acts))
  {
    LookupsMakeValidWorld(world, s);
    AllAdmittedOrAllowed(world, s, acts);
    WritesAreBounded(world, since, m, acts);
    if EveryClassDone(world, m, acts) { ConvergesExactly(world, since, m, acts); }
  }

  ghost predicate LookupsReach(s: Setting, world: World, m: Machine, acts: seq<Action>, more: seq<Action>) {
    AllAnswered(s, more) && LiveData(Exec(m, acts + more).store) == world.Expected()
  }

  /** After any such run, passes on the same lookups can complete the content, if and only if
      no live class is matched to an empty pool. */
  lemma LookupsCanConverge(s: Setting, world: World, since: int, m: Machine, acts: seq<Action>)
    requires Settling(s) && Reflects(world, s) && Start(world, m, since) && AllAnswered(s, acts)
    ensures (exists more :: LookupsReach(s, world, m, acts, more)) <==> NoEmptyPools(world)
  {
    LookupsMakeValidWorld(world, s);
    AllAdmittedOrAllowed(world, s, acts);
    CanConvergeExactly(world, since, m, acts);
    if NoEmptyPools(world) {
      var more := CanAlwaysConverge(world, since, m, acts);
      PlainIsAnswered(world, s, more);
      assert LookupsReach(s, world, m, acts, more);
    }
    forall more | LookupsReach(s, world, m, acts, more) ensures NoEmptyPools(world) {
      AllAdmittedOrAllowed(world, s, more);
      assert ReachesExpected(world, m, acts, more);
    }
  }

  lemma PlainIsAnswered(world: World, s: Setting, acts: seq<Action>)
    requires Reflects(world, s) && AllPlain(world, acts)
    ensures AllAnswered(s, acts)
  {
    forall i | 0 <= i < |acts| ensures s.Answers(acts[i]) {
      var a := acts[i];
      assert Plain(world, a);
      if a.ScStart? {
        assert s.LiveMatch(a.sc, world.live[a.sc]);
        LiveTarget(s, a.sc, world.live[a.sc]);
      }
    }
  }

  lemma LiveTarget(s: Setting, sc: string, pools: map<string, string>)
    requires s.LiveMatch(sc, pools)
    ensures TargetFor(s.view, s.Answer(sc), Live(pools))
  {
    var r := Ok(pools);
    assert Match(s.view, s.Answer(sc).sc, r) && TargetOfMatch(r, false) == Live(pools);
  }

  lemma PassIsAnswered(s: Setting, sc: string, pools: map<string, string>, base: Snapshot, order: seq<string>)
    requires s.LiveMatch(sc, pools)
    ensures AllAnswered(s, [ScStart(sc, Live(pools), base, order), ScMove])
  {
    LiveTarget(s, sc, pools);
  }

  /** The run leaves the content, expected under some choice of the matches, alone. */
  ghost predicate LeavesAlone(s: Setting, world: World, x: Machine, more: seq<Action>) {
    Reflects(world, s) && Converged(world, x) && AllAnswered(s, more) ==> Exec(x, more).store == x.store
  }

  /** Converged content keeps data and version in all runs, if and only if all matches are
      determined and no cluster is named like the legacy key. */
  lemma StableExactly(s: Setting)
    ensures (forall world, x, more :: LeavesAlone(s, world, x, more)) <==> s.AllDetermined() && s.NoLegacyName()
  {
    if s.AllDetermined() && s.NoLegacyName() {
      forall world, x, more ensures LeavesAlone(s, world, x, more) {
        if Reflects(world, s) && Converged(world, x) && AllAnswered(s, more) {
          LookupsMakeValidWorld(world, s);
          AllAdmittedOrAllowed(world, s, more);
          StaysConverged(world, x, more);
        }
      }
    } else {
      var world, x, more := Unstable(s);
      assert !LeavesAlone(s, world, x, more);
    }
  }

  lemma Unstable(s: Setting) returns (world: World, x: Machine, more: seq<Action>)
    requires !s.AllDetermined() || !s.NoLegacyName()
    ensures !LeavesAlone(s, world, x, more)
  {
    if !s.NoLegacyName() {
      world := SomeWorld(s);
      LookupsMakeValidWorld(world, s);
      var i :| 0 <= i < |s.view.clusters| && s.view.clusters[i].name == POOLS_KEY;
      x := AtRest(world.Expected());
      more := LegacyNameRewrites(world, Alive(world.clusters[POOLS_KEY]));
      assert s.Lists(POOLS_KEY, world.clusters[POOLS_KEY]);
    } else {
      var sc :| sc in s.classes && s.IsLive(sc) && !Determined(s.view, s.classes[sc].sc);
      var p, q, f := TwoMatches(s.view, s.classes[sc].sc);
      if q[f] == "" { p, q := q, p; }
      world, more := OtherMatchRewrites(s, sc, p, q, f);
      x := AtRest(world.Expected());
    }
  }

  /** Where two successful matches of a class disagree about a cluster, there is a run in which
      the content expected under one of them is rewritten by a pass that came to the other. */
  lemma OtherMatchRewrites(s: Setting, sc: string, p: map<string, string>, q: map<string, string>, f: string)
    returns (world: World, more: seq<Action>)
    requires s.LiveMatch(sc, p) && s.LiveMatch(sc, q) && s.NoLegacyName()
    requires f in p && f in q && p[f] != q[f] && q[f] != ""
    ensures Reflects(world, s) && sc in world.live && world.live[sc] == p && f in world.clusters
    ensures Converged(world, AtRest(world.Expected())) && AllAnswered(s, more)
    ensures var x := AtRest(world.Expected());
      && Exec(x, more).store.clock == x.store.clock + 1
      && LiveData(Exec(x, more).store) == world.Expected()[f := Parsed(Some(world.PoolsOf(f)[sc := q[f]]), world.clusters[f])]
      && LiveData(Exec(x, more).store) != world.Expected()
  {
    world := SomeWorldWith(s, sc, p);
    LookupsMakeValidWorld(world, s);
    var order;
    more, order := OtherTargetRewrites(world, sc, q, f);
    PassIsAnswered(s, sc, q, AtRest(world.Expected()).store.live.value, order);
  }

  lemma OneClassWorld(s: Setting, world: World, f: string, p: string, q: string)
    requires Reflects(world, s) && |s.view.clusters| == 1 && s.classes.Keys == {"sc"}
    requires s.view.clusters[0].name == f && s.view.clusters[0].secret.name == "own"
    requires "sc" in world.live && world.live["sc"] == map[f := p]
    ensures world.Expected() == map[f := Parsed(Some(map["sc" := p]), "own")] && world.clusters == map[f := "own"]
    ensures world.Expected()[f := Parsed(Some(world.PoolsOf(f)["sc" := q]), "own")] == map[f := Parsed(Some(map["sc" := q]), "own")]
  {
    assert s.view.clusters[0].name in world.clusters;
    forall g | g in world.clusters ensures g == f && world.clusters[g] == "own" { assert s.Lists(g, world.clusters[g]); }
    assert world.clusters == map[f := "own"];
    forall c | c in world.live ensures c == "sc" { assert s.LiveMatch(c, world.live[c]); }
    assert world.PoolsOf(f) == map["sc" := p];
    assert world.PoolsOf(f)["sc" := q] == map["sc" := q];
  }

  lemma DisagreeingMatches(s: Setting, sc: string, p: map<string, string>, q: map<string, string>)
    requires s.LiveMatch(sc, p) && s.LiveMatch(sc, q) && p != q
    ensures !s.AllDetermined()
  {
    if s.AllDetermined() { DeterminedAgrees(s.view, s.classes[sc].sc, p, q); }
  }

  /** The entry of the one cluster says p, and a later pass makes it say q. */
  ghost predicate Rewrites(s: Setting, world: World, more: seq<Action>, f: string, p: string, q: string) {
    var x := AtRest(world.Expected());
    && Reflects(world, s) && Converged(world, x) && AllAnswered(s, more)
    && LiveData(x.store) == map[f := Parsed(Some(map["sc" := p]), "own")]
    && LiveData(Exec(x, more).store) == map[f := Parsed(Some(map["sc" := q]), "own")]
  }

  lemma OneClassRewrites(s: Setting, f: string, p: string, q: string) returns (world: World, more: seq<Action>)
    requires |s.view.clusters| == 1 && s.classes.Keys == {"sc"} && s.NoLegacyName()
    requires s.view.clusters[0].name == f && s.view.clusters[0].secret.name == "own"
    requires s.LiveMatch("sc", map[f := p]) && s.LiveMatch("sc", map[f := q]) && p != q && q != ""
    ensures Rewrites(s, world, more, f, p, q)
  {
    var mp, mq := map[f := p], map[f := q];
    assert f in mp && f in mq && mp[f] == p && mq[f] == q;
    world, more := OtherMatchRewrites(s, "sc", mp, mq, f);
    OneClassWorld(s, world, f, p, q);
    assert world.clusters[f] == "own";
  }

  /** One cluster, one address, two ids with pools p and q: the match is not determined, the
      converged entry says p, and a later pass makes it say q. */
  lemma SharedAddressRewrites(f: string, x: string, p: string, q: string) returns (world: World, more: seq<Action>)
    requires f != POOLS_KEY && p != q && q != ""
    ensures var s := Setting(SharedAddressView(f, x), map["sc" := Found(SharedAddressClass("sc", p, q), false)]);
      s.OneSecret() && s.NoLegacyName() && !s.AllDetermined() && Rewrites(s, world, more, f, p, q)
  {
    var s := Setting(SharedAddressView(f, x), map["sc" := Found(SharedAddressClass("sc", p, q), false)]);
    SharedAddressMatches("sc", f, x, p, q);
    assert s.LiveMatch("sc", map[f := p]) && s.LiveMatch("sc", map[f := q]);
    assert map[f := p][f] != map[f := q][f];
    DisagreeingMatches(s, "sc", map[f := p], map[f := q]);
    world, more := OneClassRewrites(s, f, p, q);
  }
}
