/** A reconcile pass of the FlashSystemCluster controller: finalizer, steps, conditions
    and phase, and what holds after any number of passes. */
module ReconcilePass {
  import opened Common
  import opened Conditions
  import ApiServer
  import PoolsConfigMap
  import PoolsControllers

  const FINALIZER: string := "flashsystemcluster.odf.ibm.com"

  datatype Step =
    | SecretOwnership | CsiCr | PoolsMap | ExporterService | ExporterDeployment
    | ServiceMonitor | DefaultClass | PrometheusRules

  datatype Phase = NoPhase | Error | Ready | NotReady | InProgress

  datatype ClusterStatus = ClusterStatus(phase: Phase, conditions: seq<Condition>)

  // ---------------------------------------------------------------- conditions and phase

  /** The k-th set of a pass reads the clock at its readings 2k and 2k + 1. */
  function SetOp(kind: Kind, status: Status, reason: string, message: string, clock: nat -> nat, k: nat): Op {
    Set(kind, status, reason, message, clock(2 * k), clock(2 * k + 1))
  }

  function CreatedOps(clock: nat -> nat): seq<Op> {
    [SetOp(ExporterCreated, True, "", "", clock, 0)]
  }

  function ErrorOps(message: string, clock: nat -> nat): seq<Op> {
    [SetOp(ReconcileComplete, False, "ReconcileFailed", message, clock, 1),
     SetOp(Progressing, True, "ReconcileFailed", "processing FlashSystem ODF resources", clock, 2)]
  }

  function ProvisionerErrorOps(message: string, clock: nat -> nat): seq<Op> {
    [SetOp(ReconcileComplete, False, "ReconcileFailed", message, clock, 1),
     SetOp(ProvisionerReady, False, "ReconcileFailed", message, clock, 2)]
  }

  function CompleteOps(clock: nat -> nat): seq<Op> {
    [SetOp(ReconcileComplete, True, "ReconcileCompleted", "reconciling done", clock, 1),
     SetOp(Progressing, False, "ReconcileCompleted", "reconciling done", clock, 2),
     SetOp(ProvisionerReady, True, "ReconcileCompleted", "reconciling done", clock, 3)]
  }

  /** What a pass that fails at `failed`, or nowhere, does to the condition list. */
  function PassOps(failed: Option<Step>, message: string, clock: nat -> nat): seq<Op> {
    match failed
    case None => CreatedOps(clock) + CompleteOps(clock)
    case Some(CsiCr) => ProvisionerErrorOps(message, clock)
    case Some(DefaultClass) => CreatedOps(clock) + ErrorOps(message, clock)
    case Some(PrometheusRules) => CreatedOps(clock) + ErrorOps(message, clock)
    case Some(_) => ErrorOps(message, clock)
  }

  /** The kind reads `status` now. */
  predicate Reads(cs: seq<Condition>, kind: Kind, status: Status) {
    Lookup(cs, kind).Some? && Lookup(cs, kind).value.status == status
  }

  function PhaseFrom(cs: seq<Condition>): Phase {
    if IsTrue(cs, ReconcileComplete) && IsTrue(cs, ExporterReady) && IsTrue(cs, StorageClusterReady)
       && IsTrue(cs, ProvisionerReady) then Ready
    else if IsTrue(cs, Progressing) then InProgress
    else NotReady
  }

  /** The phase that goes with a condition list: Ready if the four kinds read True, in progress
      if Progressing does, and Not Ready otherwise; Unknown is not True. */
  lemma PhaseFromExactly(cs: seq<Condition>)
    ensures var ready :=
        && Reads(cs, ReconcileComplete, True) && Reads(cs, ProvisionerReady, True)
        && Reads(cs, ExporterReady, True) && Reads(cs, StorageClusterReady, True);
      PhaseFrom(cs) == if ready then Ready else if Reads(cs, Progressing, True) then InProgress else NotReady
  {
  }

  method UpdatePhase(cs: seq<Condition>) returns (phase: Phase)
    ensures phase == PhaseFrom(cs)
  {
    var complete := IsStatusConditionPresentAndEqual(cs, ReconcileComplete, True);
    var exporter := IsStatusConditionPresentAndEqual(cs, ExporterReady, True);
    var storage := IsStatusConditionPresentAndEqual(cs, StorageClusterReady, True);
    var provisioner := IsStatusConditionPresentAndEqual(cs, ProvisionerReady, True);
    if complete && exporter && storage && provisioner { return Ready; }
    var progressing := IsStatusConditionPresentAndEqual(cs, Progressing, True);
    phase := if progressing then InProgress else NotReady;
  }

  function AfterPass(st: ClusterStatus, failed: Option<Step>, message: string, clock: nat -> nat): ClusterStatus {
    var cs := ApplyAll(st.conditions, PassOps(failed, message, clock));
    match failed
    case None => ClusterStatus(PhaseFrom(cs), cs)
    case Some(CsiCr) => ClusterStatus(st.phase, cs)
    case Some(_) => ClusterStatus(Error, cs)
  }

  /** The status the last set of the kind in `ops` gave it, if any. */
  function LastSet(ops: seq<Op>, kind: Kind): Option<Status> {
    if ops == [] then None
    else
      var op := ops[|ops| - 1];
      if op.Set? && op.kind == kind then Some(op.status) else LastSet(ops[..|ops| - 1], kind)
  }

  lemma {:induction false} ReadAfterSets(cs: seq<Condition>, ops: seq<Op>, kind: Kind)
    requires forall i | 0 <= i < |ops| :: ops[i].Set?
    ensures var now := Lookup(ApplyAll(cs, ops), kind);
      match LastSet(ops, kind)
      case Some(s) => now.Some? && now.value.status == s
      case None => now == Lookup(cs, kind)
  {
    if ops != [] {
      var front, op := ops[..|ops| - 1], ops[|ops| - 1];
      ReadAfterSets(cs, front, kind);
      LookupAfterSet(ApplyAll(cs, front), op);
      if op.kind != kind { OthersAfterSet(ApplyAll(cs, front), op, kind); }
    }
  }

  lemma {:induction false} LastSetAppend(a: seq<Op>, b: seq<Op>, kind: Kind)
    ensures LastSet(a + b, kind) == if LastSet(b, kind).Some? then LastSet(b, kind) else LastSet(a, kind)
  {
    if b == [] {
      assert a + b == a;
    } else {
      assert (a + b)[..|a + b| - 1] == a + b[..|b| - 1];
      LastSetAppend(a, b[..|b| - 1], kind);
    }
  }

  lemma LastSetPair(x: Op, y: Op, kind: Kind)
    requires x.Set? && y.Set?
    ensures LastSet([x, y], kind) == (if y.kind == kind then Some(y.status) else if x.kind == kind then Some(x.status) else None)
    ensures LastSet([x], kind) == (if x.kind == kind then Some(x.status) else None)
  {
    assert [x][..0] == [];
    assert LastSet([x], kind) == if x.kind == kind then Some(x.status) else None;
    assert [x, y][..1] == [x];
  }

  lemma LastSetOfPass(failed: Option<Step>, message: string, clock: nat -> nat, kind: Kind)
    ensures forall i | 0 <= i < |PassOps(failed, message, clock)| :: PassOps(failed, message, clock)[i].Set?
    ensures LastSet(PassOps(failed, message, clock), kind) ==
      match kind
      case ReconcileComplete => Some(if failed.None? then True else False)
      case Progressing => if failed.None? then Some(False) else if failed.value.CsiCr? then None else Some(True)
      case ProvisionerReady => if failed.None? then Some(True) else if failed.value.CsiCr? then Some(False) else None
      case ExporterCreated =>
        if failed.None? || failed.value.DefaultClass? || failed.value.PrometheusRules? then Some(True) else None
      case _ => None
  {
    var c, e, p, d := CreatedOps(clock), ErrorOps(message, clock), ProvisionerErrorOps(message, clock), CompleteOps(clock);
    LastSetPair(c[0], c[0], kind);
    LastSetPair(e[0], e[1], kind);
    LastSetPair(p[0], p[1], kind);
    LastSetPair(d[0], d[1], kind);
    LastSetPair(d[2], d[2], kind);
    LastSetAppend([d[0], d[1]], [d[2]], kind);
    assert d == [d[0], d[1]] + [d[2]];
    LastSetAppend(c, e, kind);
    LastSetAppend(c, d, kind);
  }

  /** What every condition kind reads after a pass, whatever the list was before: complete or
      not, progressing while failing, provisioner down exactly when the CSI step failed,
      exporter created once its three steps are through, and the rest as it was. */
  lemma ReadAfterPass(st: ClusterStatus, failed: Option<Step>, message: string, clock: nat -> nat, kind: Kind)
    ensures var cs, cs' := st.conditions, AfterPass(st, failed, message, clock).conditions;
      var csi := failed == Some(CsiCr);
      match kind
      case ReconcileComplete => Reads(cs', kind, if failed.None? then True else False)
      case Progressing =>
        if csi then Lookup(cs', kind) == Lookup(cs, kind) else Reads(cs', kind, if failed.None? then False else True)
      case ProvisionerReady =>
        if failed.None? then Reads(cs', kind, True) else if csi then Reads(cs', kind, False) else Lookup(cs', kind) == Lookup(cs, kind)
      case ExporterCreated =>
        if failed in {None, Some(DefaultClass), Some(PrometheusRules)} then Reads(cs', kind, True) else Lookup(cs', kind) == Lookup(cs, kind)
      case _ => Lookup(cs', kind) == Lookup(cs, kind)
  {
    LastSetOfPass(failed, message, clock, kind);
    ReadAfterSets(st.conditions, PassOps(failed, message, clock), kind);
  }

  ghost predicate Forward(clock: nat -> nat) {
    forall i: nat, j: nat | i <= j :: clock(i) <= clock(j)
  }

  /** The k-th set of the list reads the clock at its readings 2 * at[k] and 2 * at[k] + 1. */
  ghost predicate SetsAt(ops: seq<Op>, at: seq<nat>, clock: nat -> nat) {
    && |at| == |ops| && (forall i, j | 0 <= i < j < |at| :: at[i] < at[j])
    && forall i | 0 <= i < |ops| :: ops[i].Set? && ops[i].t1 == clock(2 * at[i]) && ops[i].t2 == clock(2 * at[i] + 1)
  }

  lemma SetsAscend(ops: seq<Op>, at: seq<nat>, clock: nat -> nat)
    requires Forward(clock) && SetsAt(ops, at, clock)
    ensures Ascending(ops, clock(0))
  {
    forall i, j | 0 <= i < j < |ops| ensures ops[i].t2 <= ops[j].t1 {
      assert at[i] < at[j];
      assert 2 * at[i] + 1 <= 2 * at[j];
    }
  }

  /** The sets of a pass read the clock one after the other. */
  lemma PassAscends(failed: Option<Step>, message: string, clock: nat -> nat)
    requires Forward(clock)
    ensures Ascending(PassOps(failed, message, clock), clock(0))
  {
    var ops := PassOps(failed, message, clock);
    var created := failed in {None, Some(DefaultClass), Some(PrometheusRules)};
    var at: seq<nat> := if failed.None? then [0, 1, 2, 3] else if created then [0, 1, 2] else [1, 2];
    SetsAscend(ops, at, clock);
  }

  /** Under a clock that does not run backwards a pass, wherever it ends, keeps kinds unique and
      no transition later than its heartbeat. */
  lemma PassKeepsLaws(st: ClusterStatus, failed: Option<Step>, message: string, clock: nat -> nat) returns (now: nat)
    requires Forward(clock) && Timely(st.conditions, clock(0))
    ensures Timely(AfterPass(st, failed, message, clock).conditions, now) && now <= clock(7)
    ensures Unique(st.conditions) ==> Unique(AfterPass(st, failed, message, clock).conditions)
  {
    var ops := PassOps(failed, message, clock);
    PassAscends(failed, message, clock);
    RunKeepsLaws(st.conditions, ops, clock(0));
    now := Latest(ops, clock(0));
    LatestBounds(ops, clock(0));
  }

  /** Exact phase: for any condition list, duplicates included, a pass in which all steps
      succeed ends Ready if ExporterReady and StorageClusterReady read True when the steps
      began, and Not Ready otherwise; it never ends in the progressing phase. */
  lemma PhaseAfterSuccess(st: ClusterStatus, message: string, clock: nat -> nat)
    ensures AfterPass(st, None, message, clock).phase
      == if Reads(st.conditions, ExporterReady, True) && Reads(st.conditions, StorageClusterReady, True) then Ready else NotReady
  {
    ReadAfterPass(st, None, message, clock, ReconcileComplete);
    ReadAfterPass(st, None, message, clock, ProvisionerReady);
    ReadAfterPass(st, None, message, clock, Progressing);
    ReadAfterPass(st, None, message, clock, ExporterReady);
    ReadAfterPass(st, None, message, clock, StorageClusterReady);
  }

  // ---------------------------------------------------------------- runs of passes

  /** What happens to a stored status: a pass past its finalizer step whose status is
      stored; one whose status is lost; the exporter reporting a condition of its own. */
  datatype Event =
    | Pass(failed: Option<Step>, message: string, clock: nat -> nat)
    | Lost
    | Report(op: Op)

  ghost predicate Foreign(e: Event) {
    e.Report? ==> e.op.kind !in {ReconcileComplete, Progressing, ProvisionerReady}
  }

  ghost function After(st: ClusterStatus, e: Event): ClusterStatus {
    match e
    case Pass(failed, message, clock) => AfterPass(st, failed, message, clock)
    case Lost => st
    case Report(op) => st.(conditions := Conditions.Apply(st.conditions, op))
  }

  ghost function Play(events: seq<Event>): ClusterStatus {
    if events == [] then ClusterStatus(NoPhase, [])
    else After(Play(events[..|events| - 1]), events[|events| - 1])
  }

  ghost predicate AllForeign(events: seq<Event>) {
    forall i | 0 <= i < |events| :: Foreign(events[i])
  }

  ghost predicate Incomplete(st: ClusterStatus) {
    Lookup(st.conditions, ReconcileComplete).Some? && !Reads(st.conditions, ReconcileComplete, True)
  }

  /** `i` is the last stored pass. */
  ghost predicate LastPass(events: seq<Event>, i: nat) {
    i < |events| && events[i].Pass? && forall j | i < j < |events| :: !events[j].Pass?
  }

  /** `i` is the last stored pass that did not stop at the CSI step. */
  ghost predicate LastDecisive(events: seq<Event>, i: nat) {
    i < |events| && Decisive(events[i]) && forall j | i < j < |events| :: !Decisive(events[j])
  }

  lemma ReportReads(cs: seq<Condition>, op: Op)
    requires op.kind != ReconcileComplete
    ensures Lookup(Conditions.Apply(cs, op), ReconcileComplete) == Lookup(cs, ReconcileComplete)
  {
    if op.Set? { OthersAfterSet(cs, op, ReconcileComplete); }
    else { var at := LookupAfterRemove(cs, op.kind, ReconcileComplete); }
  }

  lemma FrontIsForeign(events: seq<Event>)
    requires AllForeign(events) && events != []
    ensures AllForeign(events[..|events| - 1]) && Foreign(events[|events| - 1])
  {
  }

  /** In every run from an empty status, ReconcileComplete is True if the last stored pass
      succeeded in all its steps, and False if it did not; it is not set before any pass. */
  lemma {:induction false} CompleteTellsLastPass(events: seq<Event>)
    requires AllForeign(events)
    ensures forall i: nat | LastPass(events, i) ::
      && Lookup(Play(events).conditions, ReconcileComplete).Some?
      && (Reads(Play(events).conditions, ReconcileComplete, True) <==> events[i].failed.None?)
    ensures Lookup(Play(events).conditions, ReconcileComplete).Some? ==> exists i: nat :: LastPass(events, i)
  {
    if events != [] {
      var front, e := events[..|events| - 1], events[|events| - 1];
      FrontIsForeign(events);
      CompleteTellsLastPass(front);
      if e.Pass? {
        ReadAfterPass(Play(front), e.failed, e.message, e.clock, ReconcileComplete);
        assert LastPass(events, |events| - 1);
      } else {
        if e.Report? { ReportReads(Play(front).conditions, e.op); }
        assert forall i: nat | LastPass(events, i) :: LastPass(front, i);
        if i: nat :| LastPass(front, i) { assert LastPass(events, i); }
      }
    }
  }

  ghost predicate Decisive(e: Event) {
    e.Pass? && e.failed != Some(CsiCr)
  }

  lemma OthersKeepPhase(st: ClusterStatus, e: Event)
    requires !Decisive(e)
    ensures After(st, e).phase == st.phase
  {
  }

  /** How the last decisive pass of a run relates to that of the run without its last event. */
  lemma LastDecisiveStep(events: seq<Event>, i: nat)
    requires events != []
    ensures var front, e := events[..|events| - 1], events[|events| - 1];
      LastDecisive(events, i) <==> if Decisive(e) then i == |events| - 1 else LastDecisive(front, i)
  {
  }

  /** In every run the phase is the one the last decisive pass left, and empty before any. */
  lemma {:induction false} PhaseTellsLastDecisive(events: seq<Event>)
    ensures forall i: nat | LastDecisive(events, i) :: Play(events).phase == Play(events[..i + 1]).phase
    ensures Play(events).phase == NoPhase || exists i: nat :: LastDecisive(events, i)
  {
    if events != [] {
      var front, last := events[..|events| - 1], |events| - 1;
      forall i: nat ensures LastDecisive(events, i) <==> if Decisive(events[last]) then i == last else LastDecisive(front, i) {
        LastDecisiveStep(events, i);
      }
      if Decisive(events[last]) {
        assert LastDecisive(events, last) && events[..last + 1] == events;
      } else {
        PhaseTellsLastDecisive(front);
        OthersKeepPhase(Play(front), events[last]);
        forall i: nat | LastDecisive(events, i) ensures Play(events).phase == Play(events[..i + 1]).phase {
          assert front[..i + 1] == events[..i + 1];
        }
        if i: nat :| LastDecisive(front, i) { assert LastDecisive(events, i); }
      }
    }
  }

  /** A decisive pass that failed leaves Error; one that succeeded leaves Ready or Not Ready,
      as the exporter's two conditions read when it began. */
  lemma DecisivePhase(events: seq<Event>, i: nat)
    requires LastDecisive(events, i)
    ensures Play(events).phase ==
      var cs := Play(events[..i]).conditions;
      if events[i].failed.Some? then Error
      else if Reads(cs, ExporterReady, True) && Reads(cs, StorageClusterReady, True) then Ready
      else NotReady
  {
    PhaseTellsLastDecisive(events);
    assert events[..i + 1][..i] == events[..i];
    if events[i].failed.None? { PhaseAfterSuccess(Play(events[..i]), events[i].message, events[i].clock); }
  }

  /** So a cluster that shows Ready although its reconciling is not complete has had a full
      success, and every pass since then stopped at the CSI step. */
  lemma ReadyButIncomplete(events: seq<Event>) returns (i: nat, last: nat)
    requires AllForeign(events) && Play(events).phase == Ready && Incomplete(Play(events))
    ensures LastDecisive(events, i) && events[i].failed.None?
    ensures i < last && LastPass(events, last) && events[last].failed == Some(CsiCr)
  {
    PhaseTellsLastDecisive(events);
    CompleteTellsLastPass(events);
    i :| LastDecisive(events, i);
    last :| LastPass(events, last);
    DecisivePhase(events, i);
  }

  // ---------------------------------------------------------------- finalizer

  /** How the default StorageClass was dealt with. */
  datatype ClassFate = NotDefined | Missing | Deleted | GetFailed | DeleteFailed

  predicate Cleared(fate: ClassFate) {
    fate in {NotDefined, Missing, Deleted}
  }

  datatype FinalizerEnd = Proceed | Terminate | Stopped

  method IsContain(slice: seq<string>, s: string) returns (b: bool)
    ensures b <==> s in slice
  {
    for i := 0 to |slice|
      invariant s !in slice[..i]
    {
      if slice[i] == s { return true; }
      assert slice[..i + 1] == slice[..i] + [slice[i]];
    }
    b := false;
  }

  function Without(slice: seq<string>, s: string): seq<string> {
    Filter((x: string) => x != s, slice)
  }

  method RemoveString(slice: seq<string>, s: string) returns (r: seq<string>)
    ensures r == Without(slice, s)
  {
    r := [];
    for i := 0 to |slice|
      invariant r == Without(slice[..i], s)
    {
      assert slice[..i + 1][..i] == slice[..i];
      if slice[i] == s { continue; }
      r := r + [slice[i]];
    }
    assert slice[..|slice|] == slice;
  }

  /** The stored finalizers after the finalizer part of a pass; `accepted` says whether
      the server takes the Update. */
  function FinalizerPass(stored: seq<string>, deleting: bool, fate: ClassFate, accepted: bool): (seq<string>, FinalizerEnd) {
    if !deleting then
      if FINALIZER in stored then (stored, Proceed)
      else if accepted then (stored + [FINALIZER], Proceed)
      else (stored, Stopped)
    else if FINALIZER !in stored then (stored, Terminate)
    else if !Cleared(fate) || !accepted then (stored, Stopped)
    else (Without(stored, FINALIZER), Terminate)
  }

  /** The operator drops its finalizer only from a deleting cluster whose default class is
      undefined, absent or deleted, and never touches the other finalizers or their order. */
  lemma FinalizerIsGuarded(stored: seq<string>, deleting: bool, fate: ClassFate, accepted: bool)
    ensures var (stored', end) := FinalizerPass(stored, deleting, fate, accepted);
      && (FINALIZER in stored && FINALIZER !in stored' ==> deleting && Cleared(fate) && accepted)
      && (end == Terminate ==> deleting && FINALIZER !in stored')
      && (end == Proceed ==> !deleting && FINALIZER in stored')
      && Without(stored', FINALIZER) == Without(stored, FINALIZER)
  {
    var others := (x: string) => x != FINALIZER;
    FilterAppend(others, stored, [FINALIZER]);
    assert Filter(others, [FINALIZER]) == [];
    FilterTwice(others, others, stored);
    var at := FilterKeepsOrder(others, stored);
    assert FINALIZER !in Without(stored, FINALIZER) by {
      assert forall i | 0 <= i < |at| :: at[i] in at;
    }
  }

  /** What the finalizer part of a pass does, case by case. A deleting cluster loses the
      finalizer, and keeps the others in order, unless its default class cannot be read or
      deleted or the Update is refused; one without it is through already. Any other cluster
      has the finalizer afterwards unless the Update is refused. */
  lemma FinalizerCases(stored: seq<string>, deleting: bool, fate: ClassFate, accepted: bool)
    ensures var (stored', end) := FinalizerPass(stored, deleting, fate, accepted);
      var refused := if deleting then fate == GetFailed || fate == DeleteFailed || !accepted else !accepted;
      var idle := deleting <==> FINALIZER !in stored;
      && (idle ==> stored' == stored && end == if deleting then Terminate else Proceed)
      && (!idle && refused ==> stored' == stored && end == Stopped)
      && (!idle && !refused && deleting ==> stored' == Without(stored, FINALIZER) && end == Terminate)
      && (!idle && !refused && !deleting ==> stored' == stored + [FINALIZER] && end == Proceed)
  {
  }

  /** What happens to the finalizers of one object: a pass of the operator, others changing
      finalizers that are not the operator's, the user deleting the object. */
  datatype LifeEvent = Operator(fate: ClassFate, accepted: bool) | Others(finalizers: seq<string>) | Delete

  datatype Life = Life(finalizers: seq<string>, deleting: bool)

  /** Others leave the operator's finalizer as they find it. */
  function Live(o: Life, e: LifeEvent): Life {
    match e
    case Operator(fate, accepted) => o.(finalizers := FinalizerPass(o.finalizers, o.deleting, fate, accepted).0)
    case Others(fs) => if (FINALIZER in fs) == (FINALIZER in o.finalizers) then o.(finalizers := fs) else o
    case Delete => o.(deleting := true)
  }

  function LiveAll(o: Life, events: seq<LifeEvent>): Life {
    if events == [] then o else Live(LiveAll(o, events[..|events| - 1]), events[|events| - 1])
  }

  /** Others may put any finalizers there, as long as they leave the operator's as it is. */
  lemma OthersAreFree(o: Life, fs: seq<string>)
    requires FINALIZER in fs <==> FINALIZER in o.finalizers
    ensures Live(o, Others(fs)) == o.(finalizers := fs)
  {
  }

  /** One event takes the finalizer away if and only if it is an accepted pass over the deleting
      object whose default class could be read and deleted, or was not there. */
  lemma FinalizerGoesExactly(o: Life, e: LifeEvent)
    requires FINALIZER in o.finalizers
    ensures FINALIZER !in Live(o, e).finalizers
      <==> e.Operator? && o.deleting && e.accepted && e.fate != GetFailed && e.fate != DeleteFailed
  {
    if e.Operator? { FinalizerIsGuarded(o.finalizers, o.deleting, e.fate, e.accepted); }
  }

  /** Deletion goes through: once the object is deleted and whatever others do to it, the next
      accepted pass that can clear the default class takes the finalizer, and only that. */
  lemma {:induction false} DeletionGoesThrough(o: Life, others: seq<LifeEvent>, fate: ClassFate)
    requires FINALIZER in o.finalizers && fate != GetFailed && fate != DeleteFailed
    requires forall i | 0 <= i < |others| :: !others[i].Operator?
    ensures var x := LiveAll(Live(o, Delete), others);
      && x.deleting && FINALIZER in x.finalizers
      && Live(x, Operator(fate, true)).finalizers == Without(x.finalizers, FINALIZER)
      && FINALIZER !in Live(x, Operator(fate, true)).finalizers
  {
    if others != [] { DeletionGoesThrough(o, others[..|others| - 1], fate); }
    var x := LiveAll(Live(o, Delete), others);
    FinalizerGoesExactly(x, Operator(fate, true));
  }

  /** In every run in which the finalizer was there and is gone, it went in a pass over the
      deleting object in which the default class had been cleared. */
  lemma {:induction false} FinalizerGoneMeansCleared(o: Life, events: seq<LifeEvent>) returns (i: nat)
    requires FINALIZER in o.finalizers && FINALIZER !in LiveAll(o, events).finalizers
    ensures i < |events| && events[i].Operator? && Cleared(events[i].fate) && events[i].accepted
    ensures LiveAll(o, events[..i]).deleting
    ensures FINALIZER in LiveAll(o, events[..i]).finalizers && FINALIZER !in LiveAll(o, events[..i + 1]).finalizers
  {
    var front := events[..|events| - 1];
    var before := LiveAll(o, front);
    if FINALIZER in before.finalizers {
      i := |events| - 1;
      assert events[..i + 1] == events;
      var e := events[i];
      if e.Operator? { FinalizerIsGuarded(before.finalizers, before.deleting, e.fate, e.accepted); }
    } else {
      i := FinalizerGoneMeansCleared(o, front);
      assert front[..i] == events[..i] && front[..i + 1] == events[..i + 1];
    }
  }

  // ---------------------------------------------------------------- the pass

  /** What the surroundings answer during one pass. `fails` holds the steps that would fail
      if reached, other than the ConfigMap step, which runs against the server. */
  datatype Surroundings = Surroundings(fate: ClassFate, accepted: bool, fails: set<Step>,
                                       read: Option<ApiServer.Snapshot>, message: string, clock: nat -> nat)

  datatype PassEnd = FinalizerStopped | RemovalFailed | Terminated | StepFailed(step: Step) | Completed

  class FlashSystemCluster {
    const name: string
    const secretName: string
    var deleting: bool
    var finalizers: seq<string>
    var stored: seq<string>
    var phase: Phase
    const conditions: ConditionList

    constructor (name: string, secretName: string, deleting: bool, finalizers: seq<string>, phase: Phase, conditions: ConditionList)
      ensures this.name == name && this.secretName == secretName && this.deleting == deleting
      ensures this.finalizers == this.stored == finalizers && this.phase == phase && this.conditions == conditions
    {
      this.name, this.secretName, this.deleting := name, secretName, deleting;
      this.finalizers, this.stored := finalizers, finalizers;
      this.phase, this.conditions := phase, conditions;
    }

    ghost function Status(): ClusterStatus
      reads this, conditions
    {
      ClusterStatus(phase, conditions.items)
    }
  }

  /** The step a pass stops at, given whether the ConfigMap step works out. */
  function FirstFailure(fails: set<Step>, poolsOk: bool): Option<Step> {
    if SecretOwnership in fails then Some(SecretOwnership)
    else if CsiCr in fails then Some(CsiCr)
    else if !poolsOk then Some(PoolsMap)
    else if ExporterService in fails then Some(ExporterService)
    else if ExporterDeployment in fails then Some(ExporterDeployment)
    else if ServiceMonitor in fails then Some(ServiceMonitor)
    else if DefaultClass in fails then Some(DefaultClass)
    else if PrometheusRules in fails then Some(PrometheusRules)
    else None
  }

  /** The place of a step in a pass. */
  function Place(step: Step): nat {
    match step
    case SecretOwnership => 1
    case CsiCr => 2
    case PoolsMap => 3
    case ExporterService => 4
    case ExporterDeployment => 5
    case ServiceMonitor => 6
    case DefaultClass => 7
    case PrometheusRules => 8
  }

  /** The step fails if the pass reaches it. */
  predicate StepFails(step: Step, fails: set<Step>, poolsOk: bool) {
    if step == PoolsMap then !poolsOk else step in fails
  }

  /** All of the eight steps succeed. */
  predicate GoesThrough(fails: set<Step>, poolsOk: bool) {
    poolsOk && fails <= {PoolsMap}
  }

  /** The step fails, and all the steps before it succeed. */
  ghost predicate StopsAt(step: Step, fails: set<Step>, poolsOk: bool) {
    StepFails(step, fails, poolsOk) && forall t | Place(t) < Place(step) :: !StepFails(t, fails, poolsOk)
  }

  /** A pass goes through if and only if all eight steps succeed, and stops at a step if and
      only if that one fails and all before it succeed. */
  lemma FirstFailureExact(fails: set<Step>, poolsOk: bool)
    ensures FirstFailure(fails, poolsOk).None? <==> GoesThrough(fails, poolsOk)
    ensures forall step :: FirstFailure(fails, poolsOk) == Some(step) <==> StopsAt(step, fails, poolsOk)
  {
    if FirstFailure(fails, poolsOk).None? {
      forall t | t in fails ensures t == PoolsMap { assert t.PoolsMap? || StepFails(t, fails, poolsOk); }
    }
    forall step ensures FirstFailure(fails, poolsOk) == Some(step) <==> StopsAt(step, fails, poolsOk) {
      var first := FirstFailure(fails, poolsOk);
      if first == Some(step) {
        forall t | Place(t) < Place(step) ensures !StepFails(t, fails, poolsOk) { }
      } else if StopsAt(step, fails, poolsOk) {
        assert first.Some? && Place(first.value) != Place(step);
        assert StepFails(first.value, fails, poolsOk);
      }
    }
  }

  function EndOf(failed: Option<Step>): PassEnd {
    if failed.None? then Completed else StepFailed(failed.value)
  }

  /** The store after the ConfigMap part of a pass, and whether that part succeeded. */
  function PoolsPart(s: ApiServer.Store, op: PoolsConfigMap.FscOp, read: Option<ApiServer.Snapshot>): (ApiServer.Store, bool) {
    PoolsConfigMap.FscRun(s, PoolsConfigMap.FscGo(PoolsConfigMap.FscBegin(op, read)))
  }

  lemma ApplyThree(cs: seq<Condition>, x: Op, y: Op, z: Op)
    ensures ApplyAll(cs, [x]) == Conditions.Apply(cs, x)
    ensures ApplyAll(cs, [x, y]) == Conditions.Apply(ApplyAll(cs, [x]), y)
    ensures ApplyAll(cs, [x, y, z]) == Conditions.Apply(ApplyAll(cs, [x, y]), z)
  {
    assert [x][..0] == [];
    assert ApplyAll(cs, [x]) == Conditions.Apply(ApplyAll(cs, []), x);
    assert [x, y][..1] == [x];
    assert [x, y, z][..2] == [x, y];
  }

  /** A reader of the kind now finds what was set, with the time of its last change of status. */
  predicate SetTo(was: Option<Condition>, now: Option<Condition>, status: Status, reason: string, message: string) {
    && now.Some? && now.value.status == status && now.value.reason == reason && now.value.message == message
    && (was.Some? && was.value.status == status ==> now.value.transition == was.value.transition)
  }

  ghost predicate DistinctSets(ops: seq<Op>) {
    && (forall i | 0 <= i < |ops| :: ops[i].Set?)
    && (forall i, j | 0 <= i < j < |ops| :: ops[i].kind != ops[j].kind)
  }

  lemma {:induction false} OthersAfterSets(cs: seq<Condition>, ops: seq<Op>, kind: Kind)
    requires forall i | 0 <= i < |ops| :: ops[i].Set? && ops[i].kind != kind
    ensures Lookup(ApplyAll(cs, ops), kind) == Lookup(cs, kind)
  {
    if ops != [] {
      OthersAfterSets(cs, ops[..|ops| - 1], kind);
      OthersAfterSet(ApplyAll(cs, ops[..|ops| - 1]), ops[|ops| - 1], kind);
    }
  }

  /** After sets of different kinds each of them reads as set. */
  lemma {:induction false} EachSetShows(cs: seq<Condition>, ops: seq<Op>, i: nat)
    requires DistinctSets(ops) && i < |ops|
    ensures var op := ops[i];
      SetTo(Lookup(cs, op.kind), Lookup(ApplyAll(cs, ops), op.kind), op.status, op.reason, op.message)
  {
    var front, last := ops[..|ops| - 1], ops[|ops| - 1];
    LookupAfterSet(ApplyAll(cs, front), last);
    if i == |ops| - 1 {
      OthersAfterSets(cs, front, last.kind);
    } else {
      EachSetShows(cs, front, i);
      OthersAfterSet(ApplyAll(cs, front), last, ops[i].kind);
    }
  }

  ghost predicate Untouched(ops: seq<Op>, kind: Kind) {
    forall i | 0 <= i < |ops| :: ops[i].kind != kind
  }

  lemma SetsShow(cs: seq<Condition>, ops: seq<Op>)
    requires DistinctSets(ops)
    ensures forall i | 0 <= i < |ops| ::
      SetTo(Lookup(cs, ops[i].kind), Lookup(ApplyAll(cs, ops), ops[i].kind), ops[i].status, ops[i].reason, ops[i].message)
    ensures forall kind | Untouched(ops, kind) :: Lookup(ApplyAll(cs, ops), kind) == Lookup(cs, kind)
  {
    forall i | 0 <= i < |ops|
      ensures SetTo(Lookup(cs, ops[i].kind), Lookup(ApplyAll(cs, ops), ops[i].kind), ops[i].status, ops[i].reason, ops[i].message)
    {
      EachSetShows(cs, ops, i);
    }
    forall kind | Untouched(ops, kind) ensures Lookup(ApplyAll(cs, ops), kind) == Lookup(cs, kind) {
      OthersAfterSets(cs, ops, kind);
    }
  }

  /** A failed pass: not complete, with the failure as the message, and progressing; nothing
      else reads differently. */
  ghost predicate ReportsError(cs: seq<Condition>, cs': seq<Condition>, message: string) {
    && SetTo(Lookup(cs, ReconcileComplete), Lookup(cs', ReconcileComplete), False, "ReconcileFailed", message)
    && SetTo(Lookup(cs, Progressing), Lookup(cs', Progressing), True, "ReconcileFailed", "processing FlashSystem ODF resources")
    && forall kind | kind !in {ReconcileComplete, Progressing} :: Lookup(cs', kind) == Lookup(cs, kind)
  }

  lemma ErrorReads(cs: seq<Condition>, message: string, clock: nat -> nat)
    ensures ReportsError(cs, ApplyAll(cs, ErrorOps(message, clock)), message)
  {
    var ops := ErrorOps(message, clock);
    SetsShow(cs, ops);
    assert ops[0].kind == ReconcileComplete;
    assert ops[1].kind == Progressing;
    assert forall kind | kind !in {ReconcileComplete, Progressing} :: Untouched(ops, kind);
  }

  method SetReconcileErrorCondition(list: ConditionList, message: string, clock: nat -> nat)
    modifies list
    ensures ReportsError(old(list.items), list.items, message)
    ensures list.items == ApplyAll(old(list.items), ErrorOps(message, clock))
  {
    ghost var cs, ops := list.items, ErrorOps(message, clock);
    SetStatusCondition(list, ReconcileComplete, False, "ReconcileFailed", message, clock(2), clock(3));
    SetStatusCondition(list, Progressing, True, "ReconcileFailed", "processing FlashSystem ODF resources", clock(4), clock(5));
    ApplyThree(cs, ops[0], ops[1], ops[1]);
    ErrorReads(cs, message, clock);
  }

  /** A pass failed at the CSI step: not complete, and the provisioner not ready, both with
      the failure as the message; nothing else reads differently. */
  ghost predicate ReportsProvisionerError(cs: seq<Condition>, cs': seq<Condition>, message: string) {
    && SetTo(Lookup(cs, ReconcileComplete), Lookup(cs', ReconcileComplete), False, "ReconcileFailed", message)
    && SetTo(Lookup(cs, ProvisionerReady), Lookup(cs', ProvisionerReady), False, "ReconcileFailed", message)
    && forall kind | kind !in {ReconcileComplete, ProvisionerReady} :: Lookup(cs', kind) == Lookup(cs, kind)
  }

  lemma ProvisionerErrorReads(cs: seq<Condition>, message: string, clock: nat -> nat)
    ensures ReportsProvisionerError(cs, ApplyAll(cs, ProvisionerErrorOps(message, clock)), message)
  {
    var ops := ProvisionerErrorOps(message, clock);
    SetsShow(cs, ops);
    assert ops[0].kind == ReconcileComplete;
    assert ops[1].kind == ProvisionerReady;
    assert forall kind | kind !in {ReconcileComplete, ProvisionerReady} :: Untouched(ops, kind);
  }

  method SetReconcileProvisionerErrorCondition(list: ConditionList, message: string, clock: nat -> nat)
    modifies list
    ensures ReportsProvisionerError(old(list.items), list.items, message)
    ensures list.items == ApplyAll(old(list.items), ProvisionerErrorOps(message, clock))
  {
    ghost var cs, ops := list.items, ProvisionerErrorOps(message, clock);
    SetStatusCondition(list, ReconcileComplete, False, "ReconcileFailed", message, clock(2), clock(3));
    SetStatusCondition(list, ProvisionerReady, False, "ReconcileFailed", message, clock(4), clock(5));
    ApplyThree(cs, ops[0], ops[1], ops[1]);
    ProvisionerErrorReads(cs, message, clock);
  }

  /** A completed pass: complete, no longer progressing, provisioner ready; nothing else reads
      differently. */
  ghost predicate ReportsComplete(cs: seq<Condition>, cs': seq<Condition>) {
    && SetTo(Lookup(cs, ReconcileComplete), Lookup(cs', ReconcileComplete), True, "ReconcileCompleted", "reconciling done")
    && SetTo(Lookup(cs, Progressing), Lookup(cs', Progressing), False, "ReconcileCompleted", "reconciling done")
    && SetTo(Lookup(cs, ProvisionerReady), Lookup(cs', ProvisionerReady), True, "ReconcileCompleted", "reconciling done")
    && forall kind | kind !in {ReconcileComplete, Progressing, ProvisionerReady} :: Lookup(cs', kind) == Lookup(cs, kind)
  }

  lemma CompleteReads(cs: seq<Condition>, clock: nat -> nat)
    ensures ReportsComplete(cs, ApplyAll(cs, CompleteOps(clock)))
  {
    var ops := CompleteOps(clock);
    SetsShow(cs, ops);
    assert ops[0].kind == ReconcileComplete;
    assert ops[1].kind == Progressing;
    assert ops[2].kind == ProvisionerReady;
    assert forall kind | kind !in {ReconcileComplete, Progressing, ProvisionerReady} :: Untouched(ops, kind);
  }

  method SetReconcileCompleteCondition(list: ConditionList, clock: nat -> nat)
    modifies list
    ensures ReportsComplete(old(list.items), list.items)
    ensures list.items == ApplyAll(old(list.items), CompleteOps(clock))
  {
    ghost var cs, ops := list.items, CompleteOps(clock);
    SetStatusCondition(list, ReconcileComplete, True, "ReconcileCompleted", "reconciling done", clock(2), clock(3));
    SetStatusCondition(list, Progressing, False, "ReconcileCompleted", "reconciling done", clock(4), clock(5));
    SetStatusCondition(list, ProvisionerReady, True, "ReconcileCompleted", "reconciling done", clock(6), clock(7));
    ApplyThree(cs, ops[0], ops[1], ops[2]);
    CompleteReads(cs, clock);
  }

  /** The stored finalizers after a pass that read the list `local`. */
  function StoredAfter(stored: seq<string>, local: seq<string>, deleting: bool, env: Surroundings): seq<string> {
    if env.accepted then FinalizerPass(local, deleting, env.fate, true).0 else stored
  }

  /** The finalizer part, on the object a pass has read, current or not; the server accepts an
      Update only of the current one. */
  method ReconcileFinalizer(o: FlashSystemCluster, env: Surroundings) returns (end: FinalizerEnd)
    requires env.accepted ==> o.finalizers == o.stored
    modifies o`finalizers, o`stored
    ensures o.stored == StoredAfter(old(o.stored), old(o.finalizers), o.deleting, env)
    ensures end == FinalizerPass(old(o.finalizers), o.deleting, env.fate, env.accepted).1
    ensures o.deleting && FINALIZER in old(o.finalizers) && env.fate != GetFailed && env.fate != DeleteFailed && env.accepted ==>
      end == Terminate && o.stored == Without(old(o.stored), FINALIZER)
    ensures o.deleting && FINALIZER in old(o.finalizers) && (env.fate == GetFailed || env.fate == DeleteFailed || !env.accepted) ==>
      end == Stopped && o.stored == old(o.stored)
    ensures o.deleting && FINALIZER !in old(o.finalizers) ==> end == Terminate && o.stored == old(o.stored)
    ensures !o.deleting && FINALIZER in old(o.finalizers) ==> end == Proceed && o.stored == old(o.stored)
    ensures !o.deleting && FINALIZER !in old(o.finalizers) ==>
      if env.accepted then end == Proceed && o.stored == old(o.stored) + [FINALIZER] else end == Stopped && o.stored == old(o.stored)
  {
    var has := IsContain(o.finalizers, FINALIZER);
    if !o.deleting {
      if !has {
        o.finalizers := o.finalizers + [FINALIZER];
        if !env.accepted { return Stopped; }
        o.stored := o.finalizers;
      }
      return Proceed;
    }
    if has {
      if !Cleared(env.fate) { return Stopped; }
      o.finalizers := RemoveString(o.finalizers, FINALIZER);
      if !env.accepted { return Stopped; }
      o.stored := o.finalizers;
    }
    end := Terminate;
  }

  /** The whole pass over an object that was found. A deleting object never reaches the
      steps: its pass ends in the removal of its entry, with the status left alone. */
  method ReconcileInstance(server: ApiServer.Server, o: FlashSystemCluster, env: Surroundings) returns (end: PassEnd)
    requires env.accepted ==> o.finalizers == o.stored
    modifies server, o`finalizers, o`stored, o`phase, o.conditions
    ensures o.stored == StoredAfter(old(o.stored), old(o.finalizers), o.deleting, env)
    ensures var has := FINALIZER in old(o.finalizers);
      var stopped := if o.deleting then has && (env.fate == GetFailed || env.fate == DeleteFailed || !env.accepted) else !has && !env.accepted;
      && (stopped ==> end == FinalizerStopped && server.store == old(server.store) && o.Status() == old(o.Status()))
      && (!stopped && o.deleting ==>
            && (server.store, end == Terminated) == PoolsPart(old(server.store), PoolsConfigMap.Drop(o.name), env.read)
            && (end == Terminated || end == RemovalFailed) && o.Status() == old(o.Status()) && (has ==> FINALIZER !in o.stored))
      && (!stopped && !o.deleting ==>
            var reached := SecretOwnership !in env.fails && CsiCr !in env.fails;
            var (s, poolsOk) := PoolsPart(old(server.store), PoolsConfigMap.Ensure(o.name, o.secretName), env.read);
            var failed := FirstFailure(env.fails, poolsOk);
            && server.store == (if reached then s else old(server.store))
            && o.Status() == AfterPass(old(o.Status()), failed, env.message, env.clock)
            && EndsRightly(end, env.fails, poolsOk, old(o.Status()), o.Status()))
  {
    FinalizerIsGuarded(o.finalizers, o.deleting, env.fate, env.accepted);
    var f := ReconcileFinalizer(o, env);
    if f == Stopped { return FinalizerStopped; }
    if f == Terminate {
      var removed := PoolsControllers.RemoveFscFromConfigMap(server, o.name, env.read);
      return if removed then Terminated else RemovalFailed;
    }
    end := ReconcileSteps(server, o, env);
  }

  /** The end of the eight steps, by what fails, and what the status tells of it: complete if
      and only if all steps succeed; otherwise not complete, and in the error phase unless
      the pass stopped at the CSI step. */
  ghost predicate EndsRightly(end: PassEnd, fails: set<Step>, poolsOk: bool, was: ClusterStatus, now: ClusterStatus) {
    var through := GoesThrough(fails, poolsOk);
    && (end == Completed <==> through)
    && (!through ==> end.StepFailed? && StopsAt(end.step, fails, poolsOk))
    && Reads(now.conditions, ReconcileComplete, if through then True else False)
    && (!through ==> now.phase == if end.step == CsiCr then was.phase else Error)
    && (through ==>
          now.phase == if Reads(was.conditions, ExporterReady, True) && Reads(was.conditions, StorageClusterReady, True) then Ready else NotReady)
  }

  lemma StepsEndRightly(st: ClusterStatus, fails: set<Step>, poolsOk: bool, message: string, clock: nat -> nat)
    ensures var failed := FirstFailure(fails, poolsOk);
      EndsRightly(EndOf(failed), fails, poolsOk, st, AfterPass(st, failed, message, clock))
  {
    var failed := FirstFailure(fails, poolsOk);
    FirstFailureExact(fails, poolsOk);
    ReadAfterPass(st, failed, message, clock, ReconcileComplete);
    if failed.None? { PhaseAfterSuccess(st, message, clock); }
  }

  method ReconcileSteps(server: ApiServer.Server, o: FlashSystemCluster, env: Surroundings) returns (end: PassEnd)
    modifies server, o`phase, o.conditions
    ensures var reached := SecretOwnership !in env.fails && CsiCr !in env.fails;
      var (s, poolsOk) := PoolsPart(old(server.store), PoolsConfigMap.Ensure(o.name, o.secretName), env.read);
      var failed := FirstFailure(env.fails, poolsOk);
      && server.store == (if reached then s else old(server.store))
      && end == EndOf(failed)
      && o.Status() == AfterPass(old(o.Status()), failed, env.message, env.clock)
      && EndsRightly(end, env.fails, poolsOk, old(o.Status()), o.Status())
  {
    ghost var st := o.Status();
    StepsEndRightly(st, env.fails, PoolsPart(server.store, PoolsConfigMap.Ensure(o.name, o.secretName), env.read).1, env.message, env.clock);
    if SecretOwnership in env.fails {
      ReportFailure(o, env, SecretOwnership, st);
      return StepFailed(SecretOwnership);
    }
    if CsiCr in env.fails {
      ReportFailure(o, env, CsiCr, st);
      return StepFailed(CsiCr);
    }
    var poolsOk := PoolsControllers.EnsureScPoolConfigMap(server, o.name, o.secretName, env.read);
    if !poolsOk {
      ReportFailure(o, env, PoolsMap, st);
      return StepFailed(PoolsMap);
    }
    if ExporterService in env.fails {
      ReportFailure(o, env, ExporterService, st);
      return StepFailed(ExporterService);
    }
    if ExporterDeployment in env.fails {
      ReportFailure(o, env, ExporterDeployment, st);
      return StepFailed(ExporterDeployment);
    }
    if ServiceMonitor in env.fails {
      ReportFailure(o, env, ServiceMonitor, st);
      return StepFailed(ServiceMonitor);
    }
    ghost var created := CreatedOps(env.clock)[0];
    ApplyThree(st.conditions, created, created, created);
    SetStatusCondition(o.conditions, ExporterCreated, True, "", "", env.clock(0), env.clock(1));
    if DefaultClass in env.fails {
      ReportFailure(o, env, DefaultClass, st);
      return StepFailed(DefaultClass);
    }
    if PrometheusRules in env.fails {
      ReportFailure(o, env, PrometheusRules, st);
      return StepFailed(PrometheusRules);
    }
    ApplyAllAppend(st.conditions, CreatedOps(env.clock), CompleteOps(env.clock));
    SetReconcileCompleteCondition(o.conditions, env.clock);
    var phase := UpdatePhase(o.conditions.items);
    o.phase := phase;
    end := Completed;
  }

  /** The failure branch of a step: the error conditions, and the phase unless it is the
      CSI step that failed. */
  method ReportFailure(o: FlashSystemCluster, env: Surroundings, step: Step, ghost st: ClusterStatus)
    requires o.phase == st.phase
    requires o.conditions.items
      == if step in {DefaultClass, PrometheusRules} then ApplyAll(st.conditions, CreatedOps(env.clock)) else st.conditions
    modifies o`phase, o.conditions
    ensures o.Status() == AfterPass(st, Some(step), env.message, env.clock)
  {
    FailureStatus(st, step, env.message, env.clock);
    if step == CsiCr {
      SetReconcileProvisionerErrorCondition(o.conditions, env.message, env.clock);
    } else {
      SetReconcileErrorCondition(o.conditions, env.message, env.clock);
      o.phase := Error;
    }
  }

  lemma FailureStatus(st: ClusterStatus, step: Step, message: string, clock: nat -> nat)
    ensures var was := if step in {DefaultClass, PrometheusRules} then ApplyAll(st.conditions, CreatedOps(clock)) else st.conditions;
      AfterPass(st, Some(step), message, clock) ==
        if step == CsiCr then ClusterStatus(st.phase, ApplyAll(was, ProvisionerErrorOps(message, clock)))
        else ClusterStatus(Error, ApplyAll(was, ErrorOps(message, clock)))
  {
    ApplyAllAppend(st.conditions, CreatedOps(clock), ErrorOps(message, clock));
  }

  lemma {:induction false} ApplyAllAppend(cs: seq<Condition>, a: seq<Op>, b: seq<Op>)
    ensures ApplyAll(cs, a + b) == ApplyAll(ApplyAll(cs, a), b)
  {
    if b == [] {
      assert a + b == a;
    } else {
      assert (a + b)[..|a + b| - 1] == a + b[..|b| - 1];
      ApplyAllAppend(cs, a, b[..|b| - 1]);
    }
  }
}
