/** The one IBMBlockCSI custom resource: the flag that remembers it, the listing that looks
    for it, outside deletions, and the mapper that clears the flag on a delete event. */
module CsiDriver {
  import opened Common

  // ---------------------------------------------------------------- listing

  datatype Listing = Items(count: nat) | NotFoundError | OtherError

  /** The first `i` answers show neither a resource nor a failure. */
  ghost predicate NothingBefore(answers: seq<Listing>, i: nat)
    requires i <= |answers|
  {
    forall j | 0 <= j < i :: answers[j] == Items(0) || answers[j].NotFoundError?
  }

  /** Looks for a resource, one List call per namespace; a not-found answer is skipped. */
  method HasIBMBlockCSICRExisted(answers: seq<Listing>) returns (found: bool, failed: bool)
    ensures found <==> exists i :: 0 <= i < |answers| && NothingBefore(answers, i) && answers[i].Items? && answers[i].count > 0
    ensures failed <==> exists i :: 0 <= i < |answers| && NothingBefore(answers, i) && answers[i].OtherError?
  {
    for i := 0 to |answers|
      invariant NothingBefore(answers, i)
    {
      match answers[i]
      case NotFoundError =>
      case OtherError => return false, true;
      case Items(count) => if count > 0 { return true, false; }
    }
    return false, false;
  }

  // ---------------------------------------------------------------- machine

  /** Where the only worker stands: between passes; having seen the flag down; having
      listed, with the resource it found; having a resource and about to raise the flag. */
  datatype Worker = Idle | Checked | Listed(seen: Option<nat>) | Holding(cr: nat)

  /** Resources are numbered as they are created. `pending` are delete events not yet given
      to the mapper, `delivered` those that were, `about` the resource the flag was last
      raised for. */
  datatype State = State(flag: bool, live: set<nat>, next: nat, pending: seq<nat>,
                         delivered: set<nat>, about: nat, worker: Worker)

  datatype Action =
    | Check
    | List(answer: Option<nat>)
    | ListFails
    | Create(ok: bool)
    | Raise
    | OutsideDelete(cr: nat)
    | Deliver

  /** A listing shows a resource that exists, and shows none only if none exists. */
  function Apply(s: State, a: Action): State {
    match a
    case Check => if s.worker.Idle? && !s.flag then s.(worker := Checked) else s
    case List(answer) =>
      if s.worker.Checked? && (if answer.Some? then answer.value in s.live else s.live == {})
      then s.(worker := Listed(answer)) else s
    case ListFails => if s.worker.Checked? then s.(worker := Idle) else s
    case Create(ok) =>
      if s.worker != Listed(None) then s
      else if ok then s.(live := s.live + {s.next}, next := s.next + 1, worker := Holding(s.next))
      else s.(worker := Idle)
    case Raise =>
      if s.worker.Holding? then s.(flag := true, about := s.worker.cr, worker := Idle)
      else if s.worker.Listed? && s.worker.seen.Some? then s.(flag := true, about := s.worker.seen.value, worker := Idle)
      else s
    case OutsideDelete(cr) =>
      if cr in s.live then s.(live := s.live - {cr}, pending := s.pending + [cr]) else s
    case Deliver =>
      if s.pending == [] then s
      else s.(flag := false, pending := s.pending[1..], delivered := s.delivered + {s.pending[0]})
  }

  function Exec(s: State, acts: seq<Action>): State {
    if acts == [] then s else Apply(Exec(s, acts[..|acts| - 1]), acts[|acts| - 1])
  }

  predicate Init(s: State) {
    && !s.flag && s.worker.Idle? && s.pending == [] && s.delivered == {}
    && |s.live| <= 1 && forall cr | cr in s.live :: cr < s.next
  }

  /** The resource the worker is about to raise the flag for. */
  function InHand(s: State): Option<nat> {
    match s.worker
    case Holding(cr) => Some(cr)
    case Listed(cr) => cr
    case _ => None
  }

  ghost predicate Inv(s: State) {
    && |s.live| <= 1
    && (s.worker == Listed(None) ==> s.live == {})
    && (forall cr | cr in s.live || cr in s.pending || cr in s.delivered :: cr < s.next)
    && (forall cr | cr in s.pending :: cr !in s.live && cr !in s.delivered)
    && (forall cr | cr in s.delivered :: cr !in s.live)
    && (forall i, j | 0 <= i < j < |s.pending| :: s.pending[i] != s.pending[j])
    && (InHand(s).Some? ==> Traced(s, InHand(s).value))
    && (s.flag ==> Traced(s, s.about))
  }

  /** The resource exists, or its deletion is on its way, or was announced. */
  ghost predicate Traced(s: State, cr: nat) {
    cr in s.live || cr in s.pending || cr in s.delivered
  }

  /** The flag speaks the truth: its resource exists, or its delete event is still to come. */
  ghost predicate Backed(s: State) {
    s.flag ==> s.about in s.live || s.about in s.pending
  }

  lemma DeleteKeepsInv(s: State, cr: nat)
    requires Inv(s) && cr in s.live
    ensures Inv(Apply(s, OutsideDelete(cr)))
  {
  }

  lemma DeliverKeepsInv(s: State)
    requires Inv(s) && s.pending != []
    ensures Inv(Apply(s, Deliver))
  {
  }

  lemma StepKeepsInv(s: State, a: Action)
    requires Inv(s)
    ensures Inv(Apply(s, a))
  {
    match a
    case OutsideDelete(cr) => if cr in s.live { DeleteKeepsInv(s, cr); }
    case Deliver => if s.pending != [] { DeliverKeepsInv(s); }
    case _ =>
  }

  /** The answer of a call made now: each call lists the whole cluster. */
  predicate Truthful(s: State, answer: Listing) {
    match answer
    case Items(count) => count == |s.live|
    case NotFoundError => s.live == {}
    case OtherError => true
  }

  /** The calls end with answer `i`: it shows a resource or a failure, or is the last. */
  ghost predicate EndsAt(answers: seq<Listing>, i: nat) {
    && i < |answers| && NothingBefore(answers, i)
    && (i == |answers| - 1 || answers[i].OtherError? || (answers[i].Items? && answers[i].count > 0))
  }

  /** The search is the machine's listing at the moment of its last call, whatever the
      answers before it, which may have been overtaken by deletions. */
  method ListResources(ghost s: State, answers: seq<Listing>, ghost i: nat) returns (found: bool, failed: bool, ghost a: Action)
    requires Inv(s) && s.worker.Checked? && EndsAt(answers, i) && Truthful(s, answers[i])
    ensures Apply(s, a).worker == if failed then Idle else Listed(if found then InHand(Apply(s, a)) else None)
    ensures a == ListFails || a.List?
    ensures !failed ==> found == (s.live != {})
    ensures found ==> InHand(Apply(s, a)).Some? && InHand(Apply(s, a)).value in s.live
  {
    found, failed := HasIBMBlockCSICRExisted(answers);
    if failed {
      a := ListFails;
    } else if found {
      ghost var j: nat :| 0 <= j < |answers| && NothingBefore(answers, j) && answers[j].Items? && answers[j].count > 0;
      assert !(i < j) && !(j < i);
      assert |s.live| > 0;
      ghost var cr :| cr in s.live;
      a := List(Some(cr));
    } else {
      assert answers[i] == Items(0) || answers[i].NotFoundError?;
      a := List(None);
    }
  }

  /** At most one resource, in every reachable state, whatever is deleted from outside. */
  lemma {:induction false} AtMostOne(s: State, acts: seq<Action>)
    requires Init(s)
    ensures Inv(Exec(s, acts)) && |Exec(s, acts).live| <= 1
  {
    if acts != [] {
      AtMostOne(s, acts[..|acts| - 1]);
      StepKeepsInv(Exec(s, acts[..|acts| - 1]), acts[|acts| - 1]);
    }
  }

  /** Raising the flag leaves it truthful exactly when the delete event of the resource in
      hand has not been delivered since the listing. */
  lemma RaiseExact(s: State, acts: seq<Action>)
    requires Init(s) && InHand(Exec(s, acts)).Some?
    ensures var x := Exec(s, acts);
      Backed(Apply(x, Raise)) <==> InHand(x).value !in x.delivered
  {
    AtMostOne(s, acts);
  }

  /** No delivery concerned the resource then in hand. */
  ghost predicate NoRace(s: State, acts: seq<Action>) {
    forall i | 0 <= i < |acts| :: acts[i].Deliver? ==>
      var x := Exec(s, acts[..i]);
      x.pending == [] || InHand(x) != Some(x.pending[0])
  }

  /** Without that race, a raised flag is truthful in every reachable state. */
  lemma {:induction false} FlagIsBacked(s: State, acts: seq<Action>)
    requires Init(s) && NoRace(s, acts)
    ensures Backed(Exec(s, acts))
    ensures var x := Exec(s, acts); InHand(x).Some? ==> InHand(x).value !in x.delivered
  {
    if acts != [] {
      var front, a := acts[..|acts| - 1], acts[|acts| - 1];
      forall i | 0 <= i < |front|
        ensures front[i].Deliver? ==>
          var x := Exec(s, front[..i]);
          x.pending == [] || InHand(x) != Some(x.pending[0])
      {
        assert front[i] == acts[i] && front[..i] == acts[..i];
      }
      FlagIsBacked(s, front);
      AtMostOne(s, front);
      assert acts[|acts| - 1].Deliver? ==>
        var x := Exec(s, acts[..|acts| - 1]);
        x.pending == [] || InHand(x) != Some(x.pending[0]);
    }
  }

  /** With it, the flag stays up although the resource is gone and nothing will say so: a
      listing finds the resource, it is deleted, the mapper hears of it, the flag goes up. */
  lemma RaceLeavesFlagStuck()
    ensures var s := State(false, {0}, 1, [], {}, 0, Idle);
      var acts := [Check, List(Some(0)), OutsideDelete(0), Deliver, Raise];
      var x := Exec(s, acts);
      && Init(s) && x.flag && x.live == {} && x.pending == [] && x.worker.Idle? && !Backed(x)
  {
    var s := State(false, {0}, 1, [], {}, 0, Idle);
    var acts := [Check, List(Some(0)), OutsideDelete(0), Deliver, Raise];
    var s1, s2, s3 := Apply(s, Check), Apply(Apply(s, Check), List(Some(0))), Apply(Apply(Apply(s, Check), List(Some(0))), OutsideDelete(0));
    assert Exec(s, acts[..1]) == s1 by { assert acts[..1][..0] == []; }
    assert Exec(s, acts[..2]) == s2 by { assert acts[..2][..1] == acts[..1]; }
    assert Exec(s, acts[..3]) == s3 by { assert acts[..3][..2] == acts[..2]; }
    assert Exec(s, acts[..4]) == Apply(s3, Deliver) by { assert acts[..4][..3] == acts[..3]; }
  }

  /** Left alone, a pass that finds the flag down sees to it that there is exactly one resource
      and that the flag is up and true: it keeps a resource it finds, and creates one if there
      is none. */
  lemma PassEstablishes(s: State, acts: seq<Action>, answer: Option<nat>)
    requires Init(s)
    requires var x := Exec(s, acts);
      x.worker.Idle? && !x.flag && if answer.Some? then answer.value in x.live else x.live == {}
    ensures var x := Exec(s, acts);
      var listed := Apply(Apply(x, Check), List(answer));
      var y := Apply(if answer.Some? then listed else Apply(listed, Create(true)), Raise);
      && y.flag && y.worker.Idle? && |y.live| == 1 && y.about in y.live && Backed(y)
      && (answer.Some? ==> y.live == x.live)
      && (answer.None? ==> Apply(listed, Create(false)).live == {} && Apply(Apply(listed, Create(false)), Raise).flag == false)
  {
    AtMostOne(s, acts);
    var x := Exec(s, acts);
    if answer.Some? {
      assert {answer.value} <= x.live;
      if cr :| cr in x.live && cr != answer.value { assert {answer.value, cr} <= x.live; SubsetOf({answer.value, cr}, x.live); }
      assert x.live == {answer.value};
    }
  }

  lemma SubsetOf(a: set<nat>, b: set<nat>)
    requires a <= b
    ensures |a| <= |b|
  {
    assert b == a + (b - a);
  }

  /** As long as the flag is up and no delete event is delivered, passes neither list nor
      create, and nothing new appears. */
  lemma {:induction false} RaisedFlagSkips(s: State, acts: seq<Action>)
    requires s.flag && s.worker.Idle? && forall i | 0 <= i < |acts| :: !acts[i].Deliver?
    ensures var x := Exec(s, acts);
      x.flag && x.worker.Idle? && x.live <= s.live && x.next == s.next
  {
    if acts != [] { RaisedFlagSkips(s, acts[..|acts| - 1]); }
  }
}
