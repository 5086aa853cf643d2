/** The status condition list of a FlashSystemCluster. */
module Conditions {
  import opened Common

  datatype Kind =
    | ReconcileComplete | Progressing | ProvisionerReady
    | ExporterCreated | ExporterReady | StorageClusterReady
    | OtherKind(name: string)

  datatype Status = True | False | Unknown

  datatype Condition = Condition(kind: Kind, status: Status, reason: string, message: string,
                                 heartbeat: nat, transition: nat)

  /** The position of the first condition of the kind, or the length. */
  function First(cs: seq<Condition>, kind: Kind): (i: nat)
    ensures i <= |cs|
    ensures forall j | 0 <= j < i :: cs[j].kind != kind
    ensures i < |cs| ==> cs[i].kind == kind
  {
    if cs == [] then 0
    else if cs[0].kind == kind then 0
    else 1 + First(cs[1..], kind)
  }

  function Lookup(cs: seq<Condition>, kind: Kind): Option<Condition> {
    if First(cs, kind) < |cs| then Some(cs[First(cs, kind)]) else None
  }

  predicate IsTrue(cs: seq<Condition>, kind: Kind) {
    Lookup(cs, kind).Some? && Lookup(cs, kind).value.status == True
  }

  /** One change of the list. A set reads the clock twice, at `t1` and `t2`. */
  datatype Op =
    | Set(kind: Kind, status: Status, reason: string, message: string, t1: nat, t2: nat)
    | Remove(kind: Kind)

  function Apply(cs: seq<Condition>, op: Op): seq<Condition> {
    match op
    case Remove(kind) => Filter((c: Condition) => c.kind != kind, cs)
    case Set(kind, status, reason, message, t1, t2) =>
      var i := First(cs, kind);
      if i == |cs| then cs + [Condition(kind, status, reason, message, t2, t1)]
      else cs[i := Condition(kind, status, reason, message, t2,
                             if cs[i].status == status then cs[i].transition else t1)]
  }

  function ApplyAll(cs: seq<Condition>, ops: seq<Op>): seq<Condition> {
    if ops == [] then cs
    else Apply(ApplyAll(cs, ops[..|ops| - 1]), ops[|ops| - 1])
  }

  // ---------------------------------------------------------------- the list as the code changes it

  class ConditionList {
    var items: seq<Condition>

    constructor (items: seq<Condition>)
      ensures this.items == items
    {
      this.items := items;
    }
  }

  method FindStatusCondition(items: seq<Condition>, kind: Kind) returns (i: nat)
    ensures i == First(items, kind)
  {
    i := 0;
    while i < |items|
      invariant i <= |items| && forall j | 0 <= j < i :: items[j].kind != kind
    {
      if items[i].kind == kind { return; }
      i := i + 1;
    }
  }

  method IsStatusConditionPresentAndEqual(items: seq<Condition>, kind: Kind, status: Status) returns (b: bool)
    ensures b <==> Lookup(items, kind).Some? && Lookup(items, kind).value.status == status
  {
    for i := 0 to |items|
      invariant forall j | 0 <= j < i :: items[j].kind != kind
    {
      if items[i].kind == kind {
        assert i == First(items, kind);
        return items[i].status == status;
      }
    }
    b := false;
  }

  /** Through a nil pointer nothing is set. */
  method SetStatusCondition(list: ConditionList?, kind: Kind, status: Status, reason: string, message: string, t1: nat, t2: nat)
    modifies list
    ensures list != null ==> list.items == Apply(old(list.items), Set(kind, status, reason, message, t1, t2))
  {
    if list == null { return; }
    var i := FindStatusCondition(list.items, kind);
    if i == |list.items| {
      list.items := list.items + [Condition(kind, status, reason, message, t2, t1)];
      return;
    }
    if list.items[i].status != status {
      list.items := list.items[i := list.items[i].(status := status, transition := t1)];
    }
    list.items := list.items[i := list.items[i].(reason := reason, message := message, heartbeat := t2)];
  }

  method RemoveStatusCondition(list: ConditionList?, kind: Kind)
    modifies list
    ensures list != null ==> list.items == Apply(old(list.items), Remove(kind))
  {
    if list == null { return; }
    var kept: seq<Condition> := [];
    for i := 0 to |list.items|
      invariant list.items == old(list.items)
      invariant kept == Filter((c: Condition) => c.kind != kind, list.items[..i])
    {
      assert list.items[..i + 1][..i] == list.items[..i];
      if list.items[i].kind != kind {
        kept := kept + [list.items[i]];
      }
    }
    assert list.items[..|list.items|] == list.items;
    list.items := kept;
  }

  // ---------------------------------------------------------------- laws

  lemma FirstIs(cs: seq<Condition>, kind: Kind, i: nat)
    requires i < |cs| && cs[i].kind == kind && forall j | 0 <= j < i :: cs[j].kind != kind
    ensures First(cs, kind) == i
  {
  }

  lemma FirstIsNone(cs: seq<Condition>, kind: Kind)
    requires forall j | 0 <= j < |cs| :: cs[j].kind != kind
    ensures First(cs, kind) == |cs|
  {
  }

  /** After a set, the kind reads as set, and the transition time moves exactly when the
      status changed. Duplicates in the list do not matter. */
  lemma LookupAfterSet(cs: seq<Condition>, op: Op)
    requires op.Set?
    ensures var was, now := Lookup(cs, op.kind), Lookup(Apply(cs, op), op.kind);
      && now.Some? && now.value.status == op.status && now.value.reason == op.reason
      && now.value.message == op.message && now.value.heartbeat == op.t2
      && now.value.transition == (if was.Some? && was.value.status == op.status then was.value.transition else op.t1)
  {
    FirstIs(Apply(cs, op), op.kind, First(cs, op.kind));
  }

  /** Every other kind reads as before. */
  lemma OthersAfterSet(cs: seq<Condition>, op: Op, other: Kind)
    requires op.Set? && other != op.kind
    ensures Lookup(Apply(cs, op), other) == Lookup(cs, other)
  {
    var cs', j := Apply(cs, op), First(cs, other);
    if j < |cs| { FirstIs(cs', other, j); } else { FirstIsNone(cs', other); }
  }

  /** After a removal the kind is gone, every other kind reads as before, and the
      remaining conditions keep their order. */
  lemma LookupAfterRemove(cs: seq<Condition>, kind: Kind, other: Kind) returns (at: seq<nat>)
    ensures Lookup(Apply(cs, Remove(kind)), kind) == None
    ensures other != kind ==> Lookup(Apply(cs, Remove(kind)), other) == Lookup(cs, other)
    ensures var cs' := Apply(cs, Remove(kind));
      && |at| == |cs'| && (forall i, j :: 0 <= i < j < |at| ==> at[i] < at[j])
      && (forall i :: 0 <= i < |at| ==> at[i] < |cs| && cs'[i] == cs[at[i]])
      && (forall p: nat :: p in at <==> p < |cs| && cs[p].kind != kind)
  {
    var keep := (c: Condition) => c.kind != kind;
    var cs' := Apply(cs, Remove(kind));
    at := FilterKeepsOrder(keep, cs);
    forall i | 0 <= i < |cs'| ensures cs'[i].kind != kind { assert at[i] in at; }
    FirstIsNone(cs', kind);
    if other != kind {
      var j := First(cs, other);
      if j < |cs| {
        assert j in at;
        var i :| 0 <= i < |at| && at[i] == j;
        FirstIs(cs', other, i);
      } else {
        FirstIsNone(cs', other);
      }
    }
  }

  ghost predicate Unique(cs: seq<Condition>) {
    forall i, j | 0 <= i < j < |cs| :: cs[i].kind != cs[j].kind
  }

  /** No condition claims a transition after its heartbeat, or a time yet to come. */
  ghost predicate Timely(cs: seq<Condition>, now: nat) {
    forall i | 0 <= i < |cs| :: cs[i].transition <= cs[i].heartbeat <= now
  }

  /** The clock readings of the operations ascend, from `start` on. */
  ghost predicate Ascending(ops: seq<Op>, start: nat) {
    && (forall i | 0 <= i < |ops| && ops[i].Set? :: start <= ops[i].t1 <= ops[i].t2)
    && (forall i, j | 0 <= i < j < |ops| && ops[i].Set? && ops[j].Set? :: ops[i].t2 <= ops[j].t1)
  }

  lemma OneOpKeeps(cs: seq<Condition>, op: Op, now: nat, now': nat)
    requires Timely(cs, now) && now <= now' && (op.Set? ==> now <= op.t1 <= op.t2 <= now')
    ensures Timely(Apply(cs, op), now')
    ensures Unique(cs) ==> Unique(Apply(cs, op))
  {
    if op.Remove? {
      var at := FilterKeepsOrder((c: Condition) => c.kind != op.kind, cs);
    }
  }

  /** The time of the last set, or `start`. */
  function Latest(ops: seq<Op>, start: nat): nat {
    if ops == [] then start
    else if ops[|ops| - 1].Set? then ops[|ops| - 1].t2
    else Latest(ops[..|ops| - 1], start)
  }

  lemma {:induction false} LatestBounds(ops: seq<Op>, start: nat)
    requires Ascending(ops, start)
    ensures start <= Latest(ops, start)
    ensures forall i | 0 <= i < |ops| && ops[i].Set? :: ops[i].t2 <= Latest(ops, start)
    ensures Latest(ops, start) == start || exists i :: 0 <= i < |ops| && ops[i].Set? && ops[i].t2 == Latest(ops, start)
  {
    if ops != [] && !ops[|ops| - 1].Set? { LatestBounds(ops[..|ops| - 1], start); }
  }

  /** Over any sequence of sets and removals under a clock that never runs backwards, kinds
      stay unique and no transition is later than its heartbeat. */
  lemma {:induction false} RunKeepsLaws(cs: seq<Condition>, ops: seq<Op>, start: nat)
    requires Timely(cs, start) && Ascending(ops, start)
    ensures Timely(ApplyAll(cs, ops), Latest(ops, start))
    ensures Unique(cs) ==> Unique(ApplyAll(cs, ops))
  {
    if ops != [] {
      var front := ops[..|ops| - 1];
      RunKeepsLaws(cs, front, start);
      LatestBounds(front, start);
      OneOpKeeps(ApplyAll(cs, front), ops[|ops| - 1], Latest(front, start), Latest(ops, start));
    }
  }
}
