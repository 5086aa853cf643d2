/** The part of the Kubernetes API server the pools protocol depends on: one
    ConfigMap object under optimistic concurrency, as laid down in the Kubernetes
    API Conventions, section "Concurrency Control and Consistency". */
module ApiServer {
  import opened Common

  /** One value of the ConfigMap, parsed. `pools` is None for a JSON null, which
      decodes into a nil Go map. */
  datatype Entry =
    | Parsed(pools: Option<map<string, string>>, secret: string)
    | Unparsable(text: string)

  type Data = map<string, Entry>

  datatype Snapshot = Snapshot(data: Data, rv: nat)

  /** `clock` is the last resource version handed out; it outlives the object. */
  datatype Store = Store(live: Option<Snapshot>, clock: nat)

  datatype Reply = Done(at: Snapshot) | Conflict | NotFound | AlreadyExists

  /** A stale version conflicts, even when the data are equal; equal data at the
      current version succeed without a new version. */
  function Update(s: Store, data: Data, rv: nat): (Store, Reply) {
    if s.live.None? then (s, NotFound)
    else if rv != s.live.value.rv then (s, Conflict)
    else if data == s.live.value.data then (s, Done(s.live.value))
    else
      var at := Snapshot(data, s.clock + 1);
      (Store(Some(at), s.clock + 1), Done(at))
  }

  function Create(s: Store, data: Data): (Store, Reply) {
    if s.live.Some? then (s, AlreadyExists)
    else
      var at := Snapshot(data, s.clock + 1);
      (Store(Some(at), s.clock + 1), Done(at))
  }

  /** The entries the server holds; a missing object holds none. */
  function LiveData(s: Store): Data {
    if s.live.Some? then s.live.value.data else map[]
  }

  /** A Go map: a reference, so that two holders see each other's writes. */
  class GoMap {
    var m: Data

    constructor (m: Data)
      ensures this.m == m
    {
      this.m := m;
    }
  }

  /** A decoded ConfigMap object. Copying the struct copies `resourceVersion` but
      shares `data`. */
  class ConfigMap {
    var data: GoMap
    var resourceVersion: nat

    constructor (data: GoMap, resourceVersion: nat)
      ensures this.data == data && this.resourceVersion == resourceVersion
    {
      this.data, this.resourceVersion := data, resourceVersion;
    }
  }

  class Server {
    var store: Store

    constructor (store: Store)
      ensures this.store == store
    {
      this.store := store;
    }

    /** On success the reply is decoded into the caller's object, which thereby
        learns its new version. */
    method Put(cm: ConfigMap) returns (reply: Reply)
      modifies this, cm`resourceVersion
      ensures (store, reply) == Update(old(store), cm.data.m, old(cm.resourceVersion))
      ensures cm.resourceVersion == if reply.Done? then reply.at.rv else old(cm.resourceVersion)
    {
      var (s, r) := Update(store, cm.data.m, cm.resourceVersion);
      store, reply := s, r;
      if r.Done? { cm.resourceVersion := r.at.rv; }
    }

    method Post(cm: ConfigMap) returns (reply: Reply)
      modifies this, cm`resourceVersion
      ensures (store, reply) == Create(old(store), cm.data.m)
      ensures cm.resourceVersion == if reply.Done? then reply.at.rv else old(cm.resourceVersion)
    {
      var (s, r) := Create(store, cm.data.m);
      store, reply := s, r;
      if r.Done? { cm.resourceVersion := r.at.rv; }
    }
  }
}
