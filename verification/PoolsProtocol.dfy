/** Both controllers at work on the pools ConfigMap: one worker each, interleaved at
    every API call, reading through caches that may answer with any past state. */
module PoolsProtocol {
  import opened Common
  import opened ApiServer
  import opened PoolsConfigMap

  datatype ScState = ScIdle | ScBusy(w: ScWork) | ScEnded(sc: string, outcome: Outcome)

  datatype FscState = FscIdle | FscBusy(w: FscWork) | FscEnded(op: FscOp, ok: bool, rv: nat)

  /** `history` holds every state of the ConfigMap a cache may still answer with. */
  datatype Machine = Machine(store: Store, history: set<Snapshot>, sc: ScState, fsc: FscState)

  datatype Action =
    | ScStart(sc: string, target: Target, base: Snapshot, order: seq<string>)
    | ScReadMissing(sc: string)
    | ScMove
    | FscStart(name: string, seen: Seen, read: Option<Snapshot>)
    | FscMove
    | OutsideDelete
    | OutsideEdit(data: Data)

  function Shown(s: Store): set<Snapshot> {
    if s.live.Some? then {s.live.value} else {}
  }

  function Wrote(m: Machine, s: Store): Machine {
    m.(store := s, history := m.history + Shown(s))
  }

  function ScAfter(sc: string, n: ScNext): ScState {
    match n
    case Go(w) => ScBusy(w)
    case Stop(outcome) => ScEnded(sc, outcome)
  }

  /** An ended pass remembers the version it held at its last step. */
  function FscAfter(w: FscWork, n: FscNext): FscState {
    match n
    case FscGo(w') => FscBusy(w')
    case FscStop(ok) => FscEnded(w.op, ok, if w.Holding? then w.rv else 0)
  }

  /** The actions resolve every choice, so a run is a list of actions; an action
      that is not possible leaves the machine as it is. */
  ghost function Apply(m: Machine, a: Action): Machine {
    match a
    case ScStart(sc, target, base, order) =>
      if m.sc.ScBusy? || base !in m.history || !Enumerates(order, base.data.Keys) then m
      else m.(sc := ScAfter(sc, ScBegin(sc, target, base, order)))
    case ScReadMissing(sc) =>
      if m.sc.ScBusy? then m else m.(sc := ScEnded(sc, Failed(NoConfigMap)))
    case ScMove =>
      if !m.sc.ScBusy? || m.sc.w.pos >= |m.sc.w.order| then m
      else
        var (s, n) := ScStep(m.store, m.sc.w);
        Wrote(m, s).(sc := ScAfter(m.sc.w.sc, n))
    case FscStart(name, seen, read) =>
      if m.fsc.FscBusy? || (read.Some? && read.value !in m.history) then m
      else m.(fsc := FscBusy(FscBegin(OpFor(name, seen), read)))
    case FscMove =>
      if !m.fsc.FscBusy? then m
      else
        var (s, n) := FscStep(m.store, m.fsc.w);
        Wrote(m, s).(fsc := FscAfter(m.fsc.w, n))
    case OutsideDelete => m.(store := m.store.(live := None))
    case OutsideEdit(data) =>
      Wrote(m, Store(Some(Snapshot(data, m.store.clock + 1)), m.store.clock + 1))
  }

  ghost function Exec(m: Machine, acts: seq<Action>): Machine {
    if acts == [] then m
    else Apply(Exec(m, acts[..|acts| - 1]), acts[|acts| - 1])
  }

  // ---------------------------------------------------------------- invariant

  /** What a version read from the server still guarantees. */
  ghost predicate Synced(s: Store, data: Data, rv: nat) {
    s.live.Some? && s.live.value.rv == rv ==> s.live.value.data == data
  }

  ghost predicate HistoryInv(m: Machine) {
    && Shown(m.store) <= m.history
    && (forall h | h in m.history :: h.rv <= m.store.clock)
    && (forall a, b | a in m.history && b in m.history && a.rv == b.rv :: a == b)
  }

  /** Runs begin between passes, with any past behind them. */
  ghost predicate Init(m: Machine) {
    HistoryInv(m) && !m.sc.ScBusy? && !m.fsc.FscBusy?
  }

  ghost predicate Processed(w: ScWork, i: nat)
    requires i < |w.order|
  {
    var k := w.order[i];
    k in w.base.data && EditEntry(w.base.data[k], w.sc, w.target.Want(k)).Write?
  }

  ghost predicate ScInv(m: Machine, w: ScWork) {
    && w.base in m.history && w.pos < |w.order|
    && Enumerates(w.order, w.base.data.Keys)
    && !w.target.MatchFailed? && w.target.Matches().Keys <= w.base.data.Keys
    && w.data == Retarget(w.base.data, w.sc, w.target, w.order[..w.pos])
    && (forall i | 0 <= i < w.pos :: Processed(w, i))
    && Synced(m.store, w.data, w.base.rv)
  }

  ghost predicate Inv(m: Machine) {
    && HistoryInv(m)
    && (m.sc.ScBusy? ==> ScInv(m, m.sc.w))
    && (m.fsc.FscBusy? && m.fsc.w.Holding? ==> Snapshot(m.fsc.w.data, m.fsc.w.rv) in m.history)
  }

  /** Any write the server performs keeps the history in order and leaves versions
      read before it either current and accurate or stale. */
  lemma WroteKeeps(m: Machine, s: Store)
    requires HistoryInv(m)
    requires s == m.store || (s.live.Some? && s.live.value.rv == s.clock == m.store.clock + 1)
    ensures HistoryInv(Wrote(m, s))
    ensures forall data, h | h in m.history && Synced(m.store, data, h.rv) :: Synced(s, data, h.rv)
  {
  }

  /** An Update changes the store only if it carries the current version, and then
      the store holds exactly what was sent. */
  lemma UpdateLaw(s: Store, data: Data, rv: nat)
    ensures var (s', r) := Update(s, data, rv);
      && (s' == s || (s.live.Some? && s.live.value.rv == rv && s'.live == Some(Snapshot(data, s'.clock)) && s'.clock == s.clock + 1))
      && (r.Done? ==> s.live.Some? && s.live.value.rv == rv && s'.live == Some(r.at) && r.at.data == data)
  {
  }

  /** The one iteration of the loop, seen from the invariant: either the pass stops
      without a write, or the store was still at the version read and now holds the
      shared map, which is the snapshot brought to target so far. */
  lemma ScStepLaw(m: Machine, w: ScWork)
    requires HistoryInv(m) && ScInv(m, w)
    ensures var k := w.order[w.pos];
      var (s', n) := ScStep(m.store, w);
      var next := Retarget(w.base.data, w.sc, w.target, w.order[..w.pos + 1]);
      || (s' == m.store && n.Stop? && n != Stop(Clean))
      || (&& m.store.live == Some(Snapshot(w.data, w.base.rv))
          && s'.live.Some? && s'.live.value.data == next == w.data[k := next[k]]
          && (s' == m.store || s'.live.value.rv == s'.clock == m.store.clock + 1)
          && k in w.data && w.data[k] == w.base.data[k] && Processed(w, w.pos)
          && w.target.Want(k) != Some("")
          && n == Resume(w.(pos := w.pos + 1, data := next)))
  {
    RetargetNext(w.base.data, w.sc, w.target, w.order, w.pos);
    var k := w.order[w.pos];
    var edit := EditEntry(w.data[k], w.sc, w.target.Want(k));
    if w.target.Want(k) != Some("") && edit.Write? {
      UpdateLaw(m.store, w.data[k := edit.entry], w.base.rv);
    }
  }

  lemma ScMoveKeeps(m: Machine)
    requires Inv(m)
    ensures Inv(Apply(m, ScMove))
  {
    if m.sc.ScBusy? {
      var w := m.sc.w;
      ScStepLaw(m, w);
      var (s', n) := ScStep(m.store, w);
      WroteKeeps(m, s');
      if n.Go? {
        forall i | 0 <= i < n.w.pos ensures Processed(n.w, i) { assert Processed(w, i); }
      }
    }
  }

  /** A step of the FlashSystemCluster controller writes nothing or a new version,
      and what it holds afterwards is what the server shows. */
  lemma FscStepLaw(s: Store, w: FscWork)
    ensures var (s', n) := FscStep(s, w);
      && (s' == s || (s'.live.Some? && s'.live.value.rv == s'.clock == s.clock + 1))
      && (n.FscGo? ==> n.w.op == w.op && n.w.Holding? && s'.live == Some(Snapshot(n.w.data, n.w.rv)))
  {
  }

  lemma FscMoveKeeps(m: Machine)
    requires Inv(m)
    ensures Inv(Apply(m, FscMove))
  {
    if m.fsc.FscBusy? {
      var (s', n) := FscStep(m.store, m.fsc.w);
      FscStepLaw(m.store, m.fsc.w);
      WroteKeeps(m, s');
    }
  }

  lemma StepKeepsInv(m: Machine, a: Action)
    requires Inv(m)
    ensures Inv(Apply(m, a))
  {
    match a
    case ScStart(sc, target, base, order) => RetargetNone(base.data, sc, target);
    case ScReadMissing(_) =>
    case ScMove => ScMoveKeeps(m);
    case FscStart(_, _, _) =>
    case FscMove => FscMoveKeeps(m);
    case OutsideDelete =>
    case OutsideEdit(data) =>
      WroteKeeps(m, Store(Some(Snapshot(data, m.store.clock + 1)), m.store.clock + 1));
  }

  /** The invariant holds in every reachable state. */
  lemma {:induction false} RunsKeepInv(m: Machine, acts: seq<Action>)
    requires Init(m)
    ensures Inv(Exec(m, acts))
  {
    if acts != [] {
      RunsKeepInv(m, acts[..|acts| - 1]);
      StepKeepsInv(Exec(m, acts[..|acts| - 1]), acts[|acts| - 1]);
    }
  }

  // ---------------------------------------------------------------- no lost update

  /** The stores agree except that one entry may differ, and then only in `sc`. */
  ghost predicate OnlyClassChanged(s: Store, s': Store, sc: string) {
    || s' == s
    || (&& s.live.Some? && s'.live.Some?
        && var d, d' := s.live.value.data, s'.live.value.data;
           d'.Keys == d.Keys
           && exists k :: k in d && d' == d[k := d'[k]] && SameBut(d[k], d'[k], sc))
  }

  /** Entries the step keeps are kept whole; keys appear or vanish only as `op` says. */
  ghost predicate OnlyKeysChanged(d: Data, d': Data, op: FscOp) {
    && (forall k | k in d && k in d' :: d'[k] == d[k])
    && (forall k | k in d' && k !in d :: op.Ensure? && k == op.name && d'[k] == FreshEntry(op.secret))
    && (forall k | k in d && k !in d' :: if op.Drop? then k == op.name else k == POOLS_KEY)
  }

  /** In every run, with arbitrarily stale snapshots and outside edits: a write by the
      StorageClass watcher touches one entry and in it only the requested class, on
      top of the current data; a write by the FlashSystemCluster controller alters no
      entry it keeps, adds only the entry of a cluster its pass saw alive, and removes
      only the entry of one it saw deleting or gone, or the legacy key. */
  lemma NoLostUpdate(m: Machine, acts: seq<Action>)
    requires Init(m)
    ensures var x := Exec(m, acts);
      && (x.sc.ScBusy? ==> OnlyClassChanged(x.store, Apply(x, ScMove).store, x.sc.w.sc))
      && (x.fsc.FscBusy? ==> OnlyKeysChanged(LiveData(x.store), LiveData(Apply(x, FscMove).store), x.fsc.w.op))
  {
    RunsKeepInv(m, acts);
    var x := Exec(m, acts);
    if x.sc.ScBusy? { ScWriteIsLocal(x); }
    if x.fsc.FscBusy? { FscWriteKeepsEntries(x); }
  }

  /** A write of the StorageClass watcher is the wanted edit of one current entry. */
  lemma ScWriteShape(m: Machine)
    requires Inv(m) && m.sc.ScBusy?
    ensures var w, s, s' := m.sc.w, m.store, Apply(m, ScMove).store;
      var k := w.order[w.pos];
      || s' == s
      || (&& s.live.Some? && s'.live.Some? && k in LiveData(s) && LiveData(s') != LiveData(s)
          && s'.live.value.rv == s'.clock == s.clock + 1
          && w.target.Want(k) != Some("") && EditEntry(LiveData(s)[k], w.sc, w.target.Want(k)).Write?
          && LiveData(s') == LiveData(s)[k := Fix(LiveData(s)[k], w.sc, w.target.Want(k))])
    ensures var sc := Apply(m, ScMove).sc;
      sc.ScBusy? ==> sc.w.sc == m.sc.w.sc && sc.w.target == m.sc.w.target
  {
  }

  lemma ScWriteIsLocal(m: Machine)
    requires Inv(m) && m.sc.ScBusy?
    ensures OnlyClassChanged(m.store, Apply(m, ScMove).store, m.sc.w.sc)
  {
    ScWriteShape(m);
    var w, s' := m.sc.w, Apply(m, ScMove).store;
    if s' != m.store {
      var k := w.order[w.pos];
      EditEntryLaw(LiveData(m.store)[k], w.sc, w.target.Want(k));
      assert k in LiveData(m.store) && LiveData(s') == LiveData(m.store)[k := LiveData(s')[k]];
    }
  }

  lemma FscWriteKeepsEntries(m: Machine)
    requires Inv(m) && m.fsc.FscBusy?
    ensures OnlyKeysChanged(LiveData(m.store), LiveData(Apply(m, FscMove).store), m.fsc.w.op)
  {
  }

  // ---------------------------------------------------------------- clean pass

  /** With action `a` a pass for `sc`, to this target and on this snapshot, returns. */
  ghost predicate PassEnds(x: Machine, a: Action, sc: string, target: Target, base: Snapshot, outcome: Outcome) {
    && Apply(x, a).sc == ScEnded(sc, outcome) && !(x.sc.ScBusy? && a.ScStart?)
    && match a
       case ScStart(sc', target', base', order) =>
         sc' == sc && target' == target && base' == base && base in x.history && Enumerates(order, base.data.Keys)
       case ScMove => x.sc.ScBusy? && x.sc.w.sc == sc && x.sc.w.target == target && x.sc.w.base == base
       case _ => false
  }

  /** When a pass ends clean, whatever the other worker and outsiders did meanwhile: if the
      snapshot it read had an entry to visit, then at that moment the server holds this
      snapshot with the class brought to target in every entry and nothing else changed, and
      every matched cluster has its entry. If it had none, the pass matched no cluster and
      wrote nothing, and its end says nothing about the server. */
  lemma CleanPass(m: Machine, acts: seq<Action>, a: Action, sc: string, target: Target, base: Snapshot)
    requires Init(m) && PassEnds(Exec(m, acts), a, sc, target, base, Clean)
    ensures var x := Exec(m, acts);
      var d := LiveData(Apply(x, a).store);
      if base.data == map[] then Apply(x, a).store == x.store && target.Matches() == map[]
      else
        && d.Keys == base.data.Keys && target.Matches().Keys <= d.Keys
        && forall k | k in d :: Settled(d[k], sc, target.Want(k)) && SameBut(base.data[k], d[k], sc)
  {
    RunsKeepInv(m, acts);
    var x := Exec(m, acts);
    if a.ScMove? {
      assert x.sc.w.order[x.sc.w.pos] in (set k | k in x.sc.w.order);
      CleanStep(x);
    } else {
      CleanStartIsEmpty(sc, target, base, a.order);
    }
  }

  /** A pass that ends clean before its loop had an empty snapshot and no match. */
  lemma CleanStartIsEmpty(sc: string, target: Target, base: Snapshot, order: seq<string>)
    requires Enumerates(order, base.data.Keys) && ScBegin(sc, target, base, order) == Stop(Clean)
    ensures base.data == map[] && target.Matches() == map[]
  {
    assert order == [];
    assert base.data.Keys == {};
  }

  lemma CleanStep(x: Machine)
    requires Inv(x) && x.sc.ScBusy? && Apply(x, ScMove).sc == ScEnded(x.sc.w.sc, Clean)
    ensures var w, d := x.sc.w, LiveData(Apply(x, ScMove).store);
      && d.Keys == w.base.data.Keys && w.target.Matches().Keys <= d.Keys
      && forall k | k in d :: Settled(d[k], w.sc, w.target.Want(k)) && SameBut(w.base.data[k], d[k], w.sc)
  {
    var w, d := x.sc.w, LiveData(Apply(x, ScMove).store);
    ScStepLaw(x, w);
    assert w.order[..w.pos + 1] == w.order;
    forall k | k in d
      ensures Settled(d[k], w.sc, w.target.Want(k)) && SameBut(w.base.data[k], d[k], w.sc)
    {
      assert k in (set y | y in w.order);
      var i :| 0 <= i < |w.order| && w.order[i] == k;
      assert Processed(w, i);
      EditEntryLaw(w.base.data[k], w.sc, w.target.Want(k));
    }
  }

  /** A pass that does not reach its loop, in particular one that misses the key of a
      matched cluster, ends without a write. */
  lemma StartWritesNothing(m: Machine, a: Action)
    requires a.ScStart? || a.ScReadMissing?
    ensures Apply(m, a).store == m.store
    ensures a.ScStart? && !m.sc.ScBusy? && a.base in m.history && Enumerates(a.order, a.base.data.Keys)
      && !a.target.MatchFailed? && !(a.target.Matches().Keys <= a.base.data.Keys)
      ==> Apply(m, a).sc == ScEnded(a.sc, Failed(MissingKey))
    ensures a.ScReadMissing? && !m.sc.ScBusy? ==> Apply(m, a).sc == ScEnded(a.sc, Failed(NoConfigMap))
  {
  }

  /** Outsiders may put anything there, under a new version, or take the object away. */
  lemma OutsidersAreFree(m: Machine, data: Data)
    ensures var x := Apply(m, OutsideEdit(data));
      && x.store.live == Some(Snapshot(data, x.store.clock)) && x.store.clock == m.store.clock + 1
      && x.sc == m.sc && x.fsc == m.fsc && x.history == m.history + {Snapshot(data, x.store.clock)}
    ensures Apply(m, OutsideDelete) == m.(store := Store(None, m.store.clock))
  {
  }

  // ---------------------------------------------------------------- entry invariant

  /** Every entry of the key a cache may show decodes into a non-nil pool map. */
  ghost predicate KeyUsable(m: Machine, k: string) {
    forall h | h in m.history && k in h.data :: h.data[k].Parsed? && h.data[k].pools.Some?
  }

  ghost predicate SameAt(d: Data, d': Data, k: string) {
    (k in d <==> k in d') && (k in d ==> d'[k] == d[k])
  }

  /** Outsiders leave the key alone; they may do anything to others, and delete the object. */
  ghost predicate KeyLeftAlone(m: Machine, acts: seq<Action>, k: string) {
    forall i | 0 <= i < |acts| && acts[i].OutsideEdit? :: SameAt(LiveData(Exec(m, acts[..i]).store), acts[i].data, k)
  }

  /** The pass failed on an entry it could not decode, or wrote into a nil map. */
  ghost predicate UndecodableEnd(sc: ScState) {
    sc.ScEnded? && (sc.outcome == Failed(MalformedEntry) || sc.outcome == Failed(NilMapPanic))
  }

  /** The entry, where it stays, keeps its secret; one that does not decode stays as it is. */
  ghost predicate SecretKept(d: Data, d': Data, k: string) {
    k in d && k in d' ==> if d[k].Parsed? then d'[k].Parsed? && d'[k].secret == d[k].secret else d'[k] == d[k]
  }

  lemma FrontLeftAlone(m: Machine, acts: seq<Action>, k: string)
    requires KeyLeftAlone(m, acts, k) && acts != []
    ensures KeyLeftAlone(m, acts[..|acts| - 1], k)
    ensures var front, a := acts[..|acts| - 1], acts[|acts| - 1];
      a.OutsideEdit? ==> SameAt(LiveData(Exec(m, front).store), a.data, k)
  {
    var front := acts[..|acts| - 1];
    forall i | 0 <= i < |front| && front[i].OutsideEdit?
      ensures SameAt(LiveData(Exec(m, front[..i]).store), front[i].data, k)
    {
      assert acts[i].OutsideEdit? && front[..i] == acts[..i];
    }
  }

  /** What a step does to one key, whatever the other entries hold. */
  lemma StepKeepsSecret(m: Machine, a: Action, k: string)
    requires Inv(m) && (a.OutsideEdit? ==> SameAt(LiveData(m.store), a.data, k))
    ensures SecretKept(LiveData(m.store), LiveData(Apply(m, a).store), k)
  {
    if a.ScMove? && m.sc.ScBusy? {
      ScWriteIsLocal(m);
    } else if a.FscMove? && m.fsc.FscBusy? {
      FscWriteKeepsEntries(m);
    }
  }

  lemma StepKeepsUsable(m: Machine, a: Action, k: string)
    requires Inv(m) && KeyUsable(m, k) && (a.OutsideEdit? ==> SameAt(LiveData(m.store), a.data, k))
    ensures KeyUsable(Apply(m, a), k)
  {
    if m.store.live.Some? { assert m.store.live.value in m.history; }
    if a.ScMove? && m.sc.ScBusy? {
      ScWriteIsLocal(m);
    } else if a.FscMove? && m.fsc.FscBusy? {
      FscWriteKeepsEntries(m);
    }
  }

  /** The watcher's next iteration is about the key. */
  ghost predicate AtKey(m: Machine, k: string) {
    m.sc.ScBusy? && m.sc.w.pos < |m.sc.w.order| && m.sc.w.order[m.sc.w.pos] == k
  }

  /** A pass does not fail on an entry that is usable in its snapshot. */
  lemma UsableEntryDecodes(m: Machine, k: string)
    requires Inv(m) && KeyUsable(m, k) && AtKey(m, k)
    ensures !UndecodableEnd(Apply(m, ScMove).sc)
  {
    var w := m.sc.w;
    RetargetNext(w.base.data, w.sc, w.target, w.order, w.pos);
    assert w.base in m.history && w.data[k] == w.base.data[k];
  }

  /** For every key by itself: if its entries decode in all states of the past and outsiders
      leave it alone, then in every run its entries decode into a non-nil pool map in every
      state shown, no pass fails to decode it or panics on it, and its secret never changes
      while it lives, whatever the other entries hold and outsiders do to them. */
  lemma {:induction false} EntryInvariant(m: Machine, acts: seq<Action>, k: string)
    requires Init(m) && KeyUsable(m, k) && KeyLeftAlone(m, acts, k)
    ensures KeyUsable(Exec(m, acts), k)
    ensures var x := Exec(m, acts);
      AtKey(x, k) ==> !UndecodableEnd(Apply(x, ScMove).sc)
    ensures acts != [] ==>
      SecretKept(LiveData(Exec(m, acts[..|acts| - 1]).store), LiveData(Exec(m, acts).store), k)
  {
    RunsKeepInv(m, acts);
    if acts != [] {
      var front, a := acts[..|acts| - 1], acts[|acts| - 1];
      FrontLeftAlone(m, acts, k);
      EntryInvariant(m, front, k);
      RunsKeepInv(m, front);
      StepKeepsUsable(Exec(m, front), a, k);
      StepKeepsSecret(Exec(m, front), a, k);
    }
    if AtKey(Exec(m, acts), k) { UsableEntryDecodes(Exec(m, acts), k); }
  }

  ghost predicate AllUsable(m: Machine) {
    forall h | h in m.history :: Usable(h.data)
  }

  lemma StepDecodes(x: Machine, a: Action)
    requires Inv(x) && AllUsable(x) && !UndecodableEnd(x.sc)
    ensures !UndecodableEnd(Apply(x, a).sc)
  {
    if a.ScMove? && x.sc.ScBusy? {
      var k := x.sc.w.order[x.sc.w.pos];
      assert KeyUsable(x, k);
      UsableEntryDecodes(x, k);
    }
  }

  lemma UsableEverywhere(m: Machine, acts: seq<Action>)
    requires Init(m) && AllUsable(m) && forall i | 0 <= i < |acts| :: !acts[i].OutsideEdit?
    ensures AllUsable(Exec(m, acts))
  {
    var x := Exec(m, acts);
    forall h | h in x.history ensures Usable(h.data) {
      forall k | k in h.data ensures h.data[k].Parsed? && h.data[k].pools.Some? {
        assert KeyUsable(m, k);
        EntryInvariant(m, acts, k);
        assert KeyUsable(x, k);
      }
    }
  }

  /** So in runs of the operator alone, from usable entries, no pass ever ends on an entry. */
  lemma {:induction false} OperatorRunsDecode(m: Machine, acts: seq<Action>)
    requires Init(m) && AllUsable(m) && m.sc.ScIdle? && forall i | 0 <= i < |acts| :: !acts[i].OutsideEdit?
    ensures AllUsable(Exec(m, acts)) && !UndecodableEnd(Exec(m, acts).sc)
  {
    UsableEverywhere(m, acts);
    if acts != [] {
      var front := acts[..|acts| - 1];
      OperatorRunsDecode(m, front);
      RunsKeepInv(m, front);
      StepDecodes(Exec(m, front), acts[|acts| - 1]);
    }
  }

  ghost predicate AliveThroughout(m: Machine, acts: seq<Action>, from: nat, key: string) {
    forall j | from <= j <= |acts| :: key in LiveData(Exec(m, acts[..j]).store)
  }

  /** For as long as an entry lives and outsiders leave it alone, its secret is the one it was
      created with; an entry that does not decode stays as it is. */
  lemma {:induction false} SecretForLife(m: Machine, acts: seq<Action>, from: nat, key: string)
    requires Init(m) && KeyLeftAlone(m, acts, key)
    requires from <= |acts| && AliveThroughout(m, acts, from, key)
    ensures var d, d' := LiveData(Exec(m, acts[..from]).store), LiveData(Exec(m, acts).store);
      key in d && key in d' && SecretKept(d, d', key)
  {
    assert acts[..|acts|] == acts;
    assert key in LiveData(Exec(m, acts[..|acts|]).store);
    if from < |acts| {
      var front := acts[..|acts| - 1];
      forall j | from <= j <= |front| ensures key in LiveData(Exec(m, front[..j]).store) {
        assert front[..j] == acts[..j];
      }
      FrontLeftAlone(m, acts, key);
      SecretForLife(m, front, from, key);
      assert front[..from] == acts[..from];
      RunsKeepInv(m, front);
      StepKeepsSecret(Exec(m, front), acts[|acts| - 1], key);
    }
  }

  // ---------------------------------------------------------------- no resurrection

  /** Nobody is about to add the entry of `name`: no pass that saw it alive is under way. */
  ghost predicate NoEnsure(m: Machine, name: string) {
    m.fsc.FscBusy? ==> !(m.fsc.w.op.Ensure? && m.fsc.w.op.name == name)
  }

  ghost predicate StaysGone(acts: seq<Action>, name: string) {
    forall i | 0 <= i < |acts| ::
      !acts[i].OutsideEdit? && (acts[i].FscStart? && acts[i].name == name ==> !acts[i].seen.Alive?)
  }

  /** A pass that saw the cluster deleting or gone and got through the removal leaves
      the server without its key. */
  lemma DropTakesEffect(x: Machine)
    requires Inv(x) && x.fsc.FscBusy? && x.fsc.w.op.Drop?
    requires Apply(x, FscMove).fsc.FscEnded? && Apply(x, FscMove).fsc.ok
    ensures x.fsc.w.op.name !in LiveData(Apply(x, FscMove).store)
  {
  }

  /** A pass that saw the cluster alive and ends well has held a state without the legacy key,
      and either found its entry there or has just added it to that very state. */
  lemma EnsureEndsWell(x: Machine)
    requires Inv(x) && x.fsc.FscBusy? && x.fsc.w.op.Ensure?
    requires Apply(x, FscMove).fsc.FscEnded? && Apply(x, FscMove).fsc.ok
    ensures var w, s' := x.fsc.w, Apply(x, FscMove).store;
      && w.Holding? && POOLS_KEY !in w.data
      && if w.op.name in w.data then s' == x.store
         else s'.live.Some? && w.data == LiveData(x.store) && LiveData(s') == w.data[w.op.name := FreshEntry(w.op.secret)]
  {
  }

  lemma StepKeepsAbsent(x: Machine, a: Action, name: string)
    requires Inv(x) && name !in LiveData(x.store) && NoEnsure(x, name)
    requires !a.OutsideEdit? && (a.FscStart? && a.name == name ==> !a.seen.Alive?)
    ensures name !in LiveData(Apply(x, a).store) && NoEnsure(Apply(x, a), name)
  {
    if a.ScMove? && x.sc.ScBusy? { ScWriteShape(x); }
    if a.FscMove? && x.fsc.FscBusy? {
      FscStepLaw(x.store, x.fsc.w);
      FscWriteKeepsEntries(x);
    }
  }

  /** Once absent, the key of a cluster stays absent, under every interleaving and
      every stale snapshot, until a pass reads a live object of that name. */
  lemma {:induction false} NoResurrection(m: Machine, before: seq<Action>, acts: seq<Action>, name: string)
    requires Init(m) && StaysGone(acts, name)
    requires name !in LiveData(Exec(m, before).store) && NoEnsure(Exec(m, before), name)
    ensures name !in LiveData(Exec(m, before + acts).store) && NoEnsure(Exec(m, before + acts), name)
  {
    if acts == [] {
      assert before + acts == before;
    } else {
      var front, a := acts[..|acts| - 1], acts[|acts| - 1];
      NoResurrection(m, before, front, name);
      var run := before + acts;
      assert run[..|run| - 1] == before + front && run[|run| - 1] == a;
      RunsKeepInv(m, before + front);
      var x := Exec(m, before + front);
      assert !acts[|acts| - 1].OutsideEdit?;
      StepKeepsAbsent(x, a, name);
    }
  }

  /** Deletion lifecycle on the ConfigMap: after a pass that saw the cluster deleting or gone
      has got through the removal, its key is absent until a live object is read again. */
  lemma RemovedStaysRemoved(m: Machine, before: seq<Action>, acts: seq<Action>, name: string)
    requires Init(m) && StaysGone(acts, name)
    requires var x := Exec(m, before);
      x.fsc.FscBusy? && x.fsc.w.op == Drop(name) && Apply(x, FscMove).fsc.FscEnded? && Apply(x, FscMove).fsc.ok
    ensures name !in LiveData(Exec(m, before + [FscMove] + acts).store)
  {
    RunsKeepInv(m, before);
    DropTakesEffect(Exec(m, before));
    var run := before + [FscMove];
    assert run[..|run| - 1] == before;
    NoResurrection(m, run, acts, name);
  }

  // ---------------------------------------------------------------- uninterrupted passes

  lemma {:induction false} ExecAppend(m: Machine, a: seq<Action>, b: seq<Action>)
    ensures Exec(m, a + b) == Exec(Exec(m, a), b)
  {
    if b == [] {
      assert a + b == a;
    } else {
      assert (a + b)[..|a + b| - 1] == a + b[..|b| - 1];
      ExecAppend(m, a, b[..|b| - 1]);
    }
  }

  lemma ExecCons(m: Machine, a: Action, rest: seq<Action>)
    ensures Exec(m, [a] + rest) == Exec(Apply(m, a), rest)
  {
    ExecAppend(m, [a], rest);
    assert [a][..0] == [];
    assert Exec(m, [a]) == Apply(Exec(m, []), a);
  }

  ghost predicate OnlyMoves(acts: seq<Action>) {
    forall i | 0 <= i < |acts| :: acts[i] == ScMove || acts[i] == FscMove
  }

  /** Left alone, the StorageClass worker does what the watcher's method does. */
  lemma {:induction false} UninterruptedSc(x: Machine) returns (moves: seq<Action>)
    requires x.sc.ScBusy? && x.sc.w.pos < |x.sc.w.order|
    ensures OnlyMoves(moves)
    ensures var (s, outcome) := ScRun(x.store, Go(x.sc.w));
      Exec(x, moves).store == s && Exec(x, moves).sc == ScEnded(x.sc.w.sc, outcome) && Exec(x, moves).fsc == x.fsc
    decreases |x.sc.w.order| - x.sc.w.pos
  {
    var y := Apply(x, ScMove);
    moves := [];
    if y.sc.ScBusy? { moves := UninterruptedSc(y); }
    ExecCons(x, ScMove, moves);
    moves := [ScMove] + moves;
  }

  /** Likewise for the FlashSystemCluster worker. */
  lemma {:induction false} UninterruptedFsc(x: Machine) returns (moves: seq<Action>)
    requires x.fsc.FscBusy?
    ensures OnlyMoves(moves)
    ensures var (s, ok) := FscRun(x.store, FscGo(x.fsc.w));
      && Exec(x, moves).store == s && Exec(x, moves).sc == x.sc
      && Exec(x, moves).fsc.FscEnded? && Exec(x, moves).fsc.op == x.fsc.w.op && Exec(x, moves).fsc.ok == ok
    decreases FscRank(FscGo(x.fsc.w))
  {
    var y := Apply(x, FscMove);
    FscStepLaw(x.store, x.fsc.w);
    moves := [];
    if y.fsc.FscBusy? { moves := UninterruptedFsc(y); }
    ExecCons(x, FscMove, moves);
    moves := [FscMove] + moves;
  }
}
