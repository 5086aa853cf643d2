/** What the two controllers do to the pools ConfigMap, one API call at a time.
    These functions specify the methods of PoolsControllers and are the steps of
    the machine in PoolsProtocol. */
module PoolsConfigMap {
  import opened Common
  import opened ApiServer

  /** The legacy key the FlashSystemCluster controller purges. */
  const POOLS_KEY: string := "pools"

  // ---------------------------------------------------------------- StorageClass watcher

  /** What a pass knows about its StorageClass: not found; found but its clusters
      could not be determined; terminating; or live. The latter two carry the
      matched clusters with their pools. */
  datatype Target =
    | Absent
    | MatchFailed
    | Terminating(pools: map<string, string>)
    | Live(pools: map<string, string>)
  {
    function Matches(): map<string, string> {
      if Terminating? || Live? then pools else map[]
    }

    /** The pool the entry of `fsc` must name, or None if it must not list the class. */
    function Want(fsc: string): Option<string> {
      if Live? && fsc in pools then Some(pools[fsc]) else None
    }
  }

  datatype Failure =
    | NoConfigMap | MatchError | MissingKey | MalformedEntry | NilMapPanic
    | Refused(reply: Reply)

  /** `Clean` and `NoPool` both return nil to the work queue. */
  datatype Outcome = Clean | NoPool | Failed(why: Failure)

  datatype Edit = Skip | Write(entry: Entry) | Bad(why: Failure)

  /** The decoded entry with the class set to `want`, or removed. */
  function EditEntry(e: Entry, sc: string, want: Option<string>): Edit {
    match e
    case Unparsable(_) => Bad(MalformedEntry)
    case Parsed(pools, secret) =>
      if want.None? then
        // deleting from a nil map is a no-op
        Write(Parsed(if pools.None? then None else Some(pools.value - {sc}), secret))
      else if pools.None? then Bad(NilMapPanic)
      else Write(Parsed(Some(pools.value[sc := want.value]), secret))
  }

  function EditKey(data: Data, fsc: string, sc: string, want: Option<string>): Edit {
    if fsc in data then EditEntry(data[fsc], sc, want)
    else if want.None? then Skip
    else Bad(MissingKey)
  }

  /** One call of a helper: the store, the shared Data map and the error, if any.
      A refused Update leaves the shared map edited. */
  function EditCall(s: Store, data: Data, rv: nat, fsc: string, sc: string, want: Option<string>)
    : (Store, Data, Option<Failure>)
  {
    match EditKey(data, fsc, sc, want)
    case Skip => (s, data, None)
    case Bad(why) => (s, data, Some(why))
    case Write(e) =>
      var (s', reply) := Update(s, data[fsc := e], rv);
      (s', data[fsc := e], if reply.Done? then None else Some(Refused(reply)))
  }

  /** A pass in its loop: `base` is the snapshot it read and whose version every
      Update carries, `order` the iteration order, `data` the shared map. */
  datatype ScWork = ScWork(sc: string, target: Target, base: Snapshot,
                           order: seq<string>, pos: nat, data: Data)

  datatype ScNext = Go(w: ScWork) | Stop(outcome: Outcome)

  function Resume(w: ScWork): ScNext {
    if w.pos < |w.order| then Go(w) else Stop(Clean)
  }

  /** Everything a pass does before its loop; no API write. */
  function ScBegin(sc: string, target: Target, base: Snapshot, order: seq<string>): ScNext {
    if target.MatchFailed? then Stop(Failed(MatchError))
    else if !(target.Matches().Keys <= base.data.Keys) then Stop(Failed(MissingKey))
    else Resume(ScWork(sc, target, base, order, 0, base.data))
  }

  /** One iteration of the loop. */
  function ScStep(s: Store, w: ScWork): (Store, ScNext)
    requires w.pos < |w.order|
  {
    var fsc := w.order[w.pos];
    var want := w.target.Want(fsc);
    if want == Some("") then (s, Stop(NoPool))
    else
      var (s', data', err) := EditCall(s, w.data, w.base.rv, fsc, w.sc, want);
      if err.Some? then (s', Stop(Failed(err.value)))
      else (s', Resume(w.(pos := w.pos + 1, data := data')))
  }

  /** The rest of a pass when nobody interferes. */
  function ScRun(s: Store, n: ScNext): (Store, Outcome)
    decreases if n.Go? then |n.w.order| - n.w.pos else -1
  {
    if n.Stop? then (s, n.outcome)
    else if n.w.pos >= |n.w.order| then (s, Clean)
    else
      var (s', n') := ScStep(s, n.w);
      ScRun(s', n')
  }

  /** The entry after the edit, or the entry itself where the edit fails. */
  function Fix(e: Entry, sc: string, want: Option<string>): Entry {
    var r := EditEntry(e, sc, want);
    if r.Write? then r.entry else e
  }

  /** `data` with the keys in `done` brought to the target. */
  function Retarget(data: Data, sc: string, target: Target, done: seq<string>): Data {
    map k | k in data :: if k in done then Fix(data[k], sc, target.Want(k)) else data[k]
  }

  /** The entry already says about `sc` what `want` asks. */
  predicate Settled(e: Entry, sc: string, want: Option<string>) {
    && e.Parsed?
    && match want
       case None => e.pools.Some? ==> sc !in e.pools.value
       case Some(p) => e.pools.Some? && sc in e.pools.value && e.pools.value[sc] == p
  }

  /** The entry of `f` maps the class to the pool. */
  predicate Holds(d: Data, f: string, sc: string, pool: string) {
    f in d && Settled(d[f], sc, Some(pool))
  }

  /** Every entry decodes into a non-nil pool map. */
  predicate Usable(data: Data) {
    forall k | k in data :: data[k].Parsed? && data[k].pools.Some?
  }

  /** The entries agree on everything but `sc`. */
  predicate SameBut(e: Entry, e': Entry, sc: string) {
    || e == e'
    || (&& e.Parsed? && e'.Parsed? && e.secret == e'.secret
        && e.pools.Some? && e'.pools.Some?
        && e.pools.value - {sc} == e'.pools.value - {sc})
  }

  lemma EditEntryLaw(e: Entry, sc: string, want: Option<string>)
    requires EditEntry(e, sc, want).Write?
    ensures Settled(Fix(e, sc, want), sc, want)
    ensures SameBut(e, Fix(e, sc, want), sc)
    ensures Settled(e, sc, want) ==> Fix(e, sc, want) == e
  {
    if e.pools.Some? {
      var m := e.pools.value;
      if want.None? {
        assert (m - {sc}) - {sc} == m - {sc};
        if sc !in m { assert m - {sc} == m; }
      } else {
        assert m[sc := want.value] - {sc} == m - {sc};
        if sc in m && m[sc] == want.value { assert m[sc := want.value] == m; }
      }
    }
  }

  /** What a helper call does, case by case: a missing key is skipped by a removal and fails an
      addition; an entry that does not decode, and an addition to a nil map, fail; all this
      without an API call. Otherwise the shared map holds the edited entry, also if the Update
      is refused, which it is exactly if the version is not the current one. */
  lemma EditCallCases(s: Store, data: Data, rv: nat, fsc: string, sc: string, want: Option<string>)
    ensures var (s', data', err) := EditCall(s, data, rv, fsc, sc, want);
      if fsc !in data then s' == s && data' == data && err == if want.None? then None else Some(MissingKey)
      else if data[fsc].Unparsable? then s' == s && data' == data && err == Some(MalformedEntry)
      else if data[fsc].pools.None? && want.Some? then s' == s && data' == data && err == Some(NilMapPanic)
      else
        && fsc in data' && data' == data[fsc := data'[fsc]]
        && Settled(data'[fsc], sc, want) && SameBut(data[fsc], data'[fsc], sc)
        && if s.live.Some? && s.live.value.rv == rv then err == None && s'.live.Some? && s'.live.value.data == data'
           else s' == s && err == Some(Refused(if s.live.None? then NotFound else Conflict))
  {
    if fsc in data && EditEntry(data[fsc], sc, want).Write? { EditEntryLaw(data[fsc], sc, want); }
  }

  lemma RetargetNext(data: Data, sc: string, target: Target, order: seq<string>, pos: nat)
    requires pos < |order| && Enumerates(order, data.Keys)
    ensures order[pos] in data && order[pos] !in order[..pos]
    ensures var k := order[pos];
      Retarget(data, sc, target, order[..pos + 1])
        == Retarget(data, sc, target, order[..pos])[k := Fix(data[k], sc, target.Want(k))]
  {
  }

  lemma RetargetNone(data: Data, sc: string, target: Target)
    ensures Retarget(data, sc, target, []) == data
  {
  }

  // ---------------------------------------------------------------- FlashSystemCluster controller

  /** What the FlashSystemCluster read told the pass. */
  datatype Seen = Alive(secret: string) | Deleting | Gone

  /** `Ensure` adds the entry of a live cluster, `Drop` removes the entry of one
      that is being deleted or is gone. */
  datatype FscOp = Ensure(name: string, secret: string) | Drop(name: string)

  function OpFor(name: string, seen: Seen): FscOp {
    match seen
    case Alive(secret) => Ensure(name, secret)
    case Deleting => Drop(name)
    case Gone => Drop(name)
  }

  datatype FscWork = Creating(op: FscOp) | Holding(op: FscOp, data: Data, rv: nat)

  datatype FscNext = FscGo(w: FscWork) | FscStop(ok: bool)

  function FscBegin(op: FscOp, read: Option<Snapshot>): FscWork {
    if read.None? then Creating(op) else Holding(op, read.value.data, read.value.rv)
  }

  function FreshEntry(secret: string): Entry {
    Parsed(Some(map[]), secret)
  }

  /** One API call. The object is held by pointer, so the version of the first
      Update's reply is what the second one carries. */
  function FscStep(s: Store, w: FscWork): (Store, FscNext) {
    match w
    case Creating(op) =>
      var (s', r) := Create(s, map[]);
      (s', if r.Done? then FscGo(Holding(op, r.at.data, r.at.rv)) else FscStop(false))
    case Holding(Drop(name), data, rv) =>
      var (s', r) := Update(s, data - {name}, rv);
      (s', FscStop(r.Done?))
    case Holding(Ensure(name, secret), data, rv) =>
      if POOLS_KEY in data then
        var (s', r) := Update(s, data - {POOLS_KEY}, rv);
        (s', if r.Done? then FscGo(Holding(w.op, r.at.data, r.at.rv)) else FscStop(false))
      else if name in data then (s, FscStop(true))
      else
        var (s', r) := Update(s, data[name := FreshEntry(secret)], rv);
        (s', FscStop(r.Done?))
  }

  function FscRank(n: FscNext): nat {
    match n
    case FscStop(_) => 0
    case FscGo(Creating(_)) => 3
    case FscGo(Holding(_, data, _)) => if POOLS_KEY in data then 2 else 1
  }

  /** The rest of a pass when nobody interferes. */
  function FscRun(s: Store, n: FscNext): (Store, bool)
    decreases FscRank(n)
  {
    if n.FscStop? then (s, n.ok)
    else
      var (s', n') := FscStep(s, n.w);
      FscRun(s', n')
  }
}
