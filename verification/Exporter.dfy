/** The exporter's Deployment and ServiceMonitor, shared by all clusters of a namespace. */
module Exporter {
  import opened Common

  datatype Owner = Owner(apiVersion: string, kind: string, name: string, uid: string)

  datatype Instance = Instance(namespace: string, self: Owner)

  /** The fields of the specs that are not the same in every installation, and any other
      content a spec may have been given from outside. */
  datatype Spec =
    | DeploymentSpec(image: string, watchNamespace: string)
    | MonitorSpec(matchNamespace: string)
    | OtherSpec(text: string)

  datatype Shared = Shared(owners: seq<Owner>, spec: Spec)

  /** Which of the two objects is meant. */
  datatype Which = Deployment(image: string) | ServiceMonitor

  /** The object an instance would create. */
  function InitExporter(which: Which, instance: Instance): Shared {
    Shared([instance.self],
           match which
           case Deployment(image) => DeploymentSpec(image, instance.namespace)
           case ServiceMonitor => MonitorSpec(instance.namespace))
  }

  predicate HasOwner(owners: seq<Owner>, uid: string) {
    exists i :: 0 <= i < |owners| && owners[i].uid == uid
  }

  method IsOwnerExist(owners: seq<Owner>, newOwner: Owner) returns (b: bool)
    ensures b <==> HasOwner(owners, newOwner.uid)
  {
    for i := 0 to |owners|
      invariant forall j | 0 <= j < i :: owners[j].uid != newOwner.uid
    {
      if owners[i].uid == newOwner.uid { return true; }
    }
    b := false;
  }

  /** The object to send, or None if nothing is to be changed. */
  function Wanted(found: Shared, expected: Spec, owner: Owner): Option<Shared> {
    if HasOwner(found.owners, owner.uid) then
      if found.spec == expected then None else Some(found.(spec := expected))
    else Some(Shared(found.owners + [owner], expected))
  }

  /** There is something to send exactly if the owner is missing or the spec differs; it has the
      spec, the owners there were, and the new one after them if it was missing. */
  lemma WantedExactly(found: Shared, expected: Spec, owner: Owner)
    ensures var want := Wanted(found, expected, owner);
      && (want.Some? <==> !HasOwner(found.owners, owner.uid) || found.spec != expected)
      && (want.Some? ==>
            && want.value.spec == expected && HasOwner(want.value.owners, owner.uid) && found.owners <= want.value.owners
            && |want.value.owners| == |found.owners| + if HasOwner(found.owners, owner.uid) then 0 else 1)
  {
    var owners := found.owners + [owner];
    assert owners[|owners| - 1].uid == owner.uid;
  }

  class SharedObject {
    var owners: seq<Owner>
    var spec: Spec

    constructor (owners: seq<Owner>, spec: Spec)
      ensures this.owners == owners && this.spec == spec
    {
      this.owners, this.spec := owners, spec;
    }
  }

  /** Appends the owner to the found object in place, and returns a copy with the spec. */
  method UpdateExporterDeployment(found: SharedObject, expected: SharedObject, newOwner: Owner)
    returns (updated: SharedObject?)
    modifies found`owners
    ensures var want := Wanted(Shared(old(found.owners), found.spec), old(expected.spec), newOwner);
      if want.None? then updated == null && found.owners == old(found.owners)
      else updated != null && fresh(updated) && Shared(updated.owners, updated.spec) == want.value
           && found.owners == want.value.owners
  {
    var isExist := IsOwnerExist(found.owners, newOwner);
    if !isExist {
      found.owners := found.owners + [newOwner];
    }
    if found.spec != expected.spec || !isExist {
      updated := new SharedObject(found.owners, expected.spec);
      return;
    }
    updated := null;
  }

  method UpdateExporterMetricsServiceMonitor(found: SharedObject, expected: SharedObject, newOwner: Owner)
    returns (updated: SharedObject?)
    modifies found`owners
    ensures var want := Wanted(Shared(old(found.owners), found.spec), old(expected.spec), newOwner);
      if want.None? then updated == null && found.owners == old(found.owners)
      else updated != null && fresh(updated) && Shared(updated.owners, updated.spec) == want.value
           && found.owners == want.value.owners
  {
    var isExist := IsOwnerExist(found.owners, newOwner);
    if !isExist {
      found.owners := found.owners + [newOwner];
    }
    if found.spec == expected.spec && isExist {
      return null;
    }
    updated := new SharedObject(found.owners, expected.spec);
  }

  // ---------------------------------------------------------------- any number of clusters

  /** One cluster's pass over the object; `accepted` says whether the server takes the
      Create or Update, should there be one. */
  datatype Pass = Pass(instance: Instance, accepted: bool)

  function Ensure(found: Option<Shared>, which: Which, p: Pass): Option<Shared> {
    var expected := InitExporter(which, p.instance);
    if found.None? then
      if p.accepted then Some(expected) else None
    else
      var want := Wanted(found.value, expected.spec, p.instance.self);
      if want.Some? && p.accepted then want else found
  }

  function EnsureAll(found: Option<Shared>, which: Which, passes: seq<Pass>): Option<Shared> {
    if passes == [] then found
    else Ensure(EnsureAll(found, which, passes[..|passes| - 1]), which, passes[|passes| - 1])
  }

  function OwnersOf(found: Option<Shared>): seq<Owner> {
    if found.Some? then found.value.owners else []
  }

  ghost predicate DistinctUids(owners: seq<Owner>) {
    forall i, j | 0 <= i < j < |owners| :: owners[i].uid != owners[j].uid
  }

  /** What an accepted pass of this instance has brought about: the object has the spec the
      instance expects and names it as an owner, and a further pass changes nothing. */
  ghost predicate Joined(found: Option<Shared>, which: Which, instance: Instance) {
    && found.Some? && found.value.spec == InitExporter(which, instance).spec
    && HasOwner(found.value.owners, instance.self.uid)
    && forall accepted :: Ensure(found, which, Pass(instance, accepted)) == found
  }

  lemma HasOwnerGrows(a: seq<Owner>, b: seq<Owner>, uid: string)
    requires a <= b && HasOwner(a, uid)
    ensures HasOwner(b, uid)
  {
  }

  lemma EnsureLaw(found: Option<Shared>, which: Which, p: Pass)
    ensures var now := Ensure(found, which, p);
      && OwnersOf(found) <= OwnersOf(now)
      && (DistinctUids(OwnersOf(found)) ==> DistinctUids(OwnersOf(now)))
      && (now == found || (now.Some? && now.value.spec == InitExporter(which, p.instance).spec))
      && (p.accepted ==> Joined(now, which, p.instance)) && (!p.accepted ==> now == found)
      && (forall i | |OwnersOf(found)| <= i < |OwnersOf(now)| :: OwnersOf(now)[i] == p.instance.self)
  {
    if p.accepted && (found.None? || !HasOwner(found.value.owners, p.instance.self.uid)) {
      var owners := OwnersOf(found) + [p.instance.self];
      assert owners[|owners| - 1].uid == p.instance.self.uid;
    }
  }

  /** What the first cluster of a namespace creates: the object with the cluster as its only
      owner, the configured image and the namespace to watch, or to match. */
  lemma FirstPassCreates(which: Which, instance: Instance)
    ensures var now := Ensure(None, which, Pass(instance, true));
      && now.Some? && now.value.owners == [instance.self]
      && (which.Deployment? ==>
            && now.value.spec.DeploymentSpec? && now.value.spec.image == which.image
            && now.value.spec.watchNamespace == instance.namespace)
      && (which.ServiceMonitor? ==> now.value.spec.MonitorSpec? && now.value.spec.matchNamespace == instance.namespace)
    ensures Ensure(None, which, Pass(instance, false)) == None
  {
  }

  ghost predicate OneNamespace(passes: seq<Pass>) {
    forall j, k | 0 <= j < |passes| && 0 <= k < |passes| ::
      passes[j].instance.namespace == passes[k].instance.namespace
  }

  ghost predicate AddedBy(passes: seq<Pass>, owner: Owner) {
    exists k :: 0 <= k < |passes| && passes[k].instance.self == owner
  }

  /** An instance that has joined stays joined through the pass of another one. */
  lemma StaysJoined(found: Option<Shared>, which: Which, p: Pass, other: Instance)
    requires Joined(found, which, other) && other.namespace == p.instance.namespace
    ensures Joined(Ensure(found, which, p), which, other)
  {
    EnsureLaw(found, which, p);
    HasOwnerGrows(OwnersOf(found), OwnersOf(Ensure(found, which, p)), other.self.uid);
  }

  /** For any number of clusters of one namespace, whatever the order and repetition of their
      passes and whichever are refused: earlier owners stay as a prefix, only reconciled
      clusters are added, no UID occurs twice if none did, and every cluster with an accepted
      pass has joined. */
  lemma {:induction false} SharedObjectJoins(found: Option<Shared>, which: Which, passes: seq<Pass>)
    requires OneNamespace(passes)
    ensures var now := EnsureAll(found, which, passes);
      && OwnersOf(found) <= OwnersOf(now)
      && (DistinctUids(OwnersOf(found)) ==> DistinctUids(OwnersOf(now)))
      && (forall k | 0 <= k < |passes| && passes[k].accepted :: Joined(now, which, passes[k].instance))
      && (forall i | |OwnersOf(found)| <= i < |OwnersOf(now)| :: AddedBy(passes, OwnersOf(now)[i]))
  {
    if passes != [] {
      var front, p := passes[..|passes| - 1], passes[|passes| - 1];
      SharedObjectJoins(found, which, front);
      var was, now := EnsureAll(found, which, front), EnsureAll(found, which, passes);
      EnsureLaw(was, which, p);
      forall k | 0 <= k < |passes| && passes[k].accepted ensures Joined(now, which, passes[k].instance) {
        if k < |front| {
          assert front[k] == passes[k];
          StaysJoined(was, which, p, passes[k].instance);
        }
      }
      forall i | |OwnersOf(found)| <= i < |OwnersOf(now)| ensures AddedBy(passes, OwnersOf(now)[i]) {
        if i < |OwnersOf(was)| {
          assert AddedBy(front, OwnersOf(was)[i]);
          var k :| 0 <= k < |front| && front[k].instance.self == OwnersOf(was)[i];
          assert passes[k].instance.self == OwnersOf(now)[i];
        }
      }
    }
  }
}
