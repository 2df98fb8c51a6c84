/** The replicated state store of one node: the in-memory resource maps, the merge of a
    peer's state, and the two files through which every change is persisted. */
module Storage {
  import opened Types

  type Bytes = seq<bv8>

  datatype ClusterState = ClusterState(
    deployments: map<string, Deployment>,
    services: map<string, Service>,
    ingresses: map<string, Ingress>,
    pods: map<string, Pod>,
    lastModified: int)

  // The state of a store that found no state file. Time 0 stands for Go's zero time.
  const EMPTY_STATE := ClusterState(map[], map[], map[], map[], 0)

  // ---------------------------------------------------------------- memory

  datatype Mutation =
    | SaveDeployment(deployment: Deployment)
    | SaveService(service: Service)
    | SaveIngress(ingress: Ingress)
    | SavePod(pod: Pod)
    | DeleteDeployment(namespace: string, name: string)
    | DeleteService(namespace: string, name: string)
    | DeleteIngress(namespace: string, name: string)
    | DeletePod(namespace: string, name: string)
    | MergeIn(incoming: ClusterState)

  /** An incoming pod replaces a local one only when it was created later. */
  predicate PodWins(local: map<string, Pod>, key: string, pod: Pod) {
    key !in local || pod.createdAt > local[key].createdAt
  }

  function MergePods(local: map<string, Pod>, incoming: map<string, Pod>): map<string, Pod> {
    local + map k | k in incoming && PodWins(local, k, incoming[k]) :: incoming[k]
  }

  /** The stamp gate: only a strictly newer state is merged. */
  predicate Newer(incoming: ClusterState, local: ClusterState) {
    incoming.lastModified > local.lastModified
  }

  function Merge(local: ClusterState, incoming: ClusterState, now: int): ClusterState {
    if Newer(incoming, local) then
      ClusterState(
        local.deployments + incoming.deployments,
        local.services + incoming.services,
        local.ingresses + incoming.ingresses,
        MergePods(local.pods, incoming.pods),
        now)
    else
      local
  }

  /** Memory after a mutation performed at local time `now`. */
  function Apply(s: ClusterState, m: Mutation, now: int): ClusterState {
    match m
    case SaveDeployment(d) =>
      s.(deployments := s.deployments[ResourceKey(d.namespace, d.name) := d], lastModified := now)
    case SaveService(v) =>
      s.(services := s.services[ResourceKey(v.namespace, v.name) := v], lastModified := now)
    case SaveIngress(g) =>
      s.(ingresses := s.ingresses[ResourceKey(g.namespace, g.name) := g], lastModified := now)
    case SavePod(p) =>
      s.(pods := s.pods[ResourceKey(p.namespace, p.name) := p], lastModified := now)
    case DeleteDeployment(namespace, name) =>
      s.(deployments := s.deployments - {ResourceKey(namespace, name)}, lastModified := now)
    case DeleteService(namespace, name) =>
      s.(services := s.services - {ResourceKey(namespace, name)}, lastModified := now)
    case DeleteIngress(namespace, name) =>
      s.(ingresses := s.ingresses - {ResourceKey(namespace, name)}, lastModified := now)
    case DeletePod(namespace, name) =>
      s.(pods := s.pods - {ResourceKey(namespace, name)}, lastModified := now)
    case MergeIn(incoming) =>
      Merge(s, incoming, now)
  }

  /** Every mutation is persisted, except a merge that the stamp gate ignores. */
  predicate Persists(s: ClusterState, m: Mutation) {
    m.MergeIn? ==> Newer(m.incoming, s)
  }

  // ------------------------------------------------------------------ disk

  /** The JSON library: how states are written to and read from bytes. */
  datatype Codec = Codec(encode: ClusterState -> Bytes, decode: Bytes -> Option<ClusterState>)
  {
    ghost predicate RoundTrips() {
      forall s :: decode(encode(s)) == Some(s)
    }
  }

  /** The contents of state.json and state.json.tmp; None is a file that does not exist. */
  datatype Files = Files(state: Option<Bytes>, tmp: Option<Bytes>)

  /** What the operating system does to one call of `persist`. A failed or interrupted write
      leaves arbitrary bytes in the temporary file, or does not reach it (None). */
  datatype PersistFate =
    | MarshalFails
    | WriteFails(left: Option<Bytes>)
    | RenameFails
    | Completes
    | DiesWriting(left: Option<Bytes>)
    | DiesBeforeRename
    | DiesAfterRename
  {
    /** The process is gone before `persist` returns. */
    predicate Dies() {
      DiesWriting? || DiesBeforeRename? || DiesAfterRename?
    }

    /** The temporary file took the place of state.json. */
    predicate Renames() {
      Completes? || DiesAfterRename?
    }
  }

  function PersistFiles(f: Files, data: Bytes, fate: PersistFate): Files {
    match fate
    case MarshalFails => f
    case WriteFails(left) => if left.Some? then f.(tmp := left) else f
    case DiesWriting(left) => if left.Some? then f.(tmp := left) else f
    case RenameFails => f.(tmp := Some(data))
    case DiesBeforeRename => f.(tmp := Some(data))
    case Completes => Files(Some(data), None)
    case DiesAfterRename => Files(Some(data), None)
  }

  /** What a starting store holds: the decoded state file, or the empty state. */
  function LoadFrom(codec: Codec, f: Files): ClusterState {
    match f.state
    case None => EMPTY_STATE
    case Some(data) =>
      match codec.decode(data)
      case Some(s) => s
      case None => EMPTY_STATE
  }

  datatype Outcome = Returned(err: bool) | Died

  class Disk {
    var state: Option<Bytes>
    var tmp: Option<Bytes>

    function View(): Files
      reads this
    {
      Files(state, tmp)
    }
  }

  /** A message as it arrives from the cluster; a state of None is a missing one. */
  datatype SyncMessage = SyncMessage(kind: string, state: Option<ClusterState>, timestamp: int, nodeName: string)

  /** How far a broadcast gets. */
  datatype Sending = Unmarshalled | NotSent | Sent

  class Store {
    const codec: Codec
    const disk: Disk
    var deployments: map<string, Deployment>
    var services: map<string, Service>
    var ingresses: map<string, Ingress>
    var pods: map<string, Pod>
    var lastModified: int

    function State(): ClusterState
      reads this
    {
      ClusterState(deployments, services, ingresses, pods, lastModified)
    }

    /** NewStorage on an existing data directory. A load that fails is only logged. */
    constructor (codec: Codec, disk: Disk, readFails: bool)
      ensures this.codec == codec && this.disk == disk
      ensures State() == if readFails then EMPTY_STATE else LoadFrom(codec, disk.View())
    {
      this.codec, this.disk := codec, disk;
      deployments, services, ingresses, pods, lastModified := map[], map[], map[], map[], 0;
      new;
      var _ := Load(readFails);
    }

    method Load(readFails: bool) returns (err: bool)
      modifies this
      ensures err <==> readFails || (disk.state.Some? && codec.decode(disk.state.value).None?)
      ensures err || disk.state.None? ==> State() == old(State())
      ensures !err && disk.state.Some? ==> Some(State()) == codec.decode(disk.state.value)
    {
      if readFails {
        return true;
      }
      if disk.state.None? {
        return false;
      }
      match codec.decode(disk.state.value) {
        case None =>
          return true;
        case Some(s) =>
          deployments, services, ingresses, pods := s.deployments, s.services, s.ingresses, s.pods;
          lastModified := s.lastModified;
          return false;
      }
    }

    /** Writes the temporary file and renames it over state.json. */
    method Persist(fate: PersistFate) returns (r: Outcome)
      modifies disk
      ensures disk.View() == PersistFiles(old(disk.View()), codec.encode(State()), fate)
      ensures r == if fate.Dies() then Died else Returned(!fate.Completes?)
    {
      if fate.MarshalFails? {
        return Returned(true);
      }
      var data := codec.encode(State());
      if fate.WriteFails? || fate.DiesWriting? {
        if fate.left.Some? {
          disk.tmp := fate.left;
        }
        return if fate.DiesWriting? then Died else Returned(true);
      }
      disk.tmp := Some(data);
      if fate.DiesBeforeRename? {
        return Died;
      }
      if fate.RenameFails? {
        return Returned(true);
      }
      disk.state, disk.tmp := disk.tmp, None;
      return if fate.DiesAfterRename? then Died else Returned(false);
    }

    method SaveDeployment(deployment: Deployment, now: int, fate: PersistFate) returns (r: Outcome)
      modifies this, disk
      ensures State() == Apply(old(State()), Mutation.SaveDeployment(deployment), now)
      ensures disk.View() == PersistFiles(old(disk.View()), codec.encode(State()), fate)
      ensures r == if fate.Dies() then Died else Returned(!fate.Completes?)
    {
      var key := ResourceKey(deployment.namespace, deployment.name);
      deployments := deployments[key := deployment];
      lastModified := now;
      r := Persist(fate);
    }

    method SaveService(service: Service, now: int, fate: PersistFate) returns (r: Outcome)
      modifies this, disk
      ensures State() == Apply(old(State()), Mutation.SaveService(service), now)
      ensures disk.View() == PersistFiles(old(disk.View()), codec.encode(State()), fate)
      ensures r == if fate.Dies() then Died else Returned(!fate.Completes?)
    {
      var key := ResourceKey(service.namespace, service.name);
      services := services[key := service];
      lastModified := now;
      r := Persist(fate);
    }

    method SaveIngress(ingress: Ingress, now: int, fate: PersistFate) returns (r: Outcome)
      modifies this, disk
      ensures State() == Apply(old(State()), Mutation.SaveIngress(ingress), now)
      ensures disk.View() == PersistFiles(old(disk.View()), codec.encode(State()), fate)
      ensures r == if fate.Dies() then Died else Returned(!fate.Completes?)
    {
      var key := ResourceKey(ingress.namespace, ingress.name);
      ingresses := ingresses[key := ingress];
      lastModified := now;
      r := Persist(fate);
    }

    method SavePod(pod: Pod, now: int, fate: PersistFate) returns (r: Outcome)
      modifies this, disk
      ensures State() == Apply(old(State()), Mutation.SavePod(pod), now)
      ensures disk.View() == PersistFiles(old(disk.View()), codec.encode(State()), fate)
      ensures r == if fate.Dies() then Died else Returned(!fate.Completes?)
    {
      var key := ResourceKey(pod.namespace, pod.name);
      pods := pods[key := pod];
      lastModified := now;
      r := Persist(fate);
    }

    method DeleteDeployment(namespace: string, name: string, now: int, fate: PersistFate) returns (r: Outcome)
      modifies this, disk
      ensures State() == Apply(old(State()), Mutation.DeleteDeployment(namespace, name), now)
      ensures disk.View() == PersistFiles(old(disk.View()), codec.encode(State()), fate)
      ensures r == if fate.Dies() then Died else Returned(!fate.Completes?)
    {
      deployments := deployments - {ResourceKey(namespace, name)};
      lastModified := now;
      r := Persist(fate);
    }

    method DeleteService(namespace: string, name: string, now: int, fate: PersistFate) returns (r: Outcome)
      modifies this, disk
      ensures State() == Apply(old(State()), Mutation.DeleteService(namespace, name), now)
      ensures disk.View() == PersistFiles(old(disk.View()), codec.encode(State()), fate)
      ensures r == if fate.Dies() then Died else Returned(!fate.Completes?)
    {
      services := services - {ResourceKey(namespace, name)};
      lastModified := now;
      r := Persist(fate);
    }

    method DeleteIngress(namespace: string, name: string, now: int, fate: PersistFate) returns (r: Outcome)
      modifies this, disk
      ensures State() == Apply(old(State()), Mutation.DeleteIngress(namespace, name), now)
      ensures disk.View() == PersistFiles(old(disk.View()), codec.encode(State()), fate)
      ensures r == if fate.Dies() then Died else Returned(!fate.Completes?)
    {
      ingresses := ingresses - {ResourceKey(namespace, name)};
      lastModified := now;
      r := Persist(fate);
    }

    method DeletePod(namespace: string, name: string, now: int, fate: PersistFate) returns (r: Outcome)
      modifies this, disk
      ensures State() == Apply(old(State()), Mutation.DeletePod(namespace, name), now)
      ensures disk.View() == PersistFiles(old(disk.View()), codec.encode(State()), fate)
      ensures r == if fate.Dies() then Died else Returned(!fate.Completes?)
    {
      pods := pods - {ResourceKey(namespace, name)};
      lastModified := now;
      r := Persist(fate);
    }

    /** None is the error for a resource that is not there. */
    method GetDeployment(namespace: string, name: string) returns (found: Option<Deployment>)
      ensures var key := ResourceKey(namespace, name);
              found == if key in deployments then Some(deployments[key]) else None
    {
      var key := ResourceKey(namespace, name);
      if key !in deployments {
        return None;
      }
      return Some(deployments[key]);
    }

    /** None is the error for a resource that is not there. */
    method GetService(namespace: string, name: string) returns (found: Option<Service>)
      ensures var key := ResourceKey(namespace, name);
              found == if key in services then Some(services[key]) else None
    {
      var key := ResourceKey(namespace, name);
      if key !in services {
        return None;
      }
      return Some(services[key]);
    }

    /** None is the error for a resource that is not there. */
    method GetIngress(namespace: string, name: string) returns (found: Option<Ingress>)
      ensures var key := ResourceKey(namespace, name);
              found == if key in ingresses then Some(ingresses[key]) else None
    {
      var key := ResourceKey(namespace, name);
      if key !in ingresses {
        return None;
      }
      return Some(ingresses[key]);
    }

    /** None is the error for a resource that is not there. */
    method GetPod(namespace: string, name: string) returns (found: Option<Pod>)
      ensures var key := ResourceKey(namespace, name);
              found == if key in pods then Some(pods[key]) else None
    {
      var key := ResourceKey(namespace, name);
      if key !in pods {
        return None;
      }
      return Some(pods[key]);
    }

    /** Hands a snapshot of the maps and the stamp to the network; None is a message that could
        not be marshalled. */
    method BroadcastState(nodeName: string, now: int, sending: Sending) returns (msg: Option<SyncMessage>, err: bool)
      ensures msg == if sending.Unmarshalled? then None else Some(SyncMessage("state_sync", Some(State()), now, nodeName))
      ensures err <==> !sending.Sent?
    {
      var state := ClusterState(deployments, services, ingresses, pods, lastModified);
      if sending.Unmarshalled? {
        return None, true;
      }
      return Some(SyncMessage("state_sync", Some(state), now, nodeName)), sending.NotSent?;
    }

    /** Overlays a strictly newer state and re-stamps the result with the local clock. */
    method MergeState(incoming: ClusterState, now: int, fate: PersistFate) returns (r: Outcome)
      modifies this, disk
      ensures State() == Merge(old(State()), incoming, now)
      ensures disk.View() ==
              if Newer(incoming, old(State()))
              then PersistFiles(old(disk.View()), codec.encode(State()), fate)
              else old(disk.View())
      ensures r == if !Newer(incoming, old(State())) then Returned(false)
                   else if fate.Dies() then Died else Returned(!fate.Completes?)
    {
      if incoming.lastModified > lastModified {
        deployments := Overlay(deployments, incoming.deployments);
        services := Overlay(services, incoming.services);
        ingresses := Overlay(ingresses, incoming.ingresses);
        pods := OverlayPods(pods, incoming.pods);
        lastModified := now;
        r := Persist(fate);
        return;
      }
      return Returned(false);
    }

    /** One `for key, value := range incoming` loop of MergeState, in any iteration order. */
    static method Overlay<T>(local: map<string, T>, incoming: map<string, T>) returns (merged: map<string, T>)
      ensures merged == local + incoming
    {
      merged := local;
      var todo := incoming.Keys;
      while todo != {}
        invariant todo <= incoming.Keys
        invariant merged.Keys == local.Keys + (incoming.Keys - todo)
        invariant forall k :: k in merged ==>
                    merged[k] == if k in incoming.Keys - todo then incoming[k] else local[k]
        decreases todo
      {
        var key :| key in todo;
        merged := merged[key := incoming[key]];
        todo := todo - {key};
      }
    }

    /** The pod loop of MergeState: an incoming pod wins only when it was created later. */
    static method OverlayPods(local: map<string, Pod>, incoming: map<string, Pod>) returns (merged: map<string, Pod>)
      ensures merged == MergePods(local, incoming)
    {
      merged := local;
      var todo := incoming.Keys;
      while todo != {}
        invariant todo <= incoming.Keys
        invariant forall k :: k in merged <==> k in local || (k in incoming && k !in todo)
        invariant forall k :: k in incoming && k !in todo ==>
                    merged[k] == if PodWins(local, k, incoming[k]) then incoming[k] else local[k]
        invariant forall k :: k in local && (k in todo || k !in incoming) ==> merged[k] == local[k]
        decreases todo
      {
        var key :| key in todo;
        var pod := incoming[key];
        if key !in merged || pod.createdAt > merged[key].createdAt {
          merged := merged[key := pod];
        }
        todo := todo - {key};
      }
    }

    /** Dispatches a message, None being one that does not decode: only a "state_sync" that
        carries a state changes the store. */
    method HandleStateSyncMessage(msg: Option<SyncMessage>, now: int, fate: PersistFate) returns (r: Outcome)
      modifies this, disk
      ensures msg.Some? && msg.value.kind == "state_sync" && msg.value.state.Some? ==>
                var incoming := msg.value.state.value;
                && State() == Apply(old(State()), MergeIn(incoming), now)
                && disk.View() == (if Persists(old(State()), MergeIn(incoming))
                                   then PersistFiles(old(disk.View()), codec.encode(State()), fate)
                                   else old(disk.View()))
                && r == (if !Persists(old(State()), MergeIn(incoming)) then Returned(false)
                         else if fate.Dies() then Died else Returned(!fate.Completes?))
      ensures !(msg.Some? && msg.value.kind == "state_sync" && msg.value.state.Some?) ==>
                State() == old(State()) && disk.View() == old(disk.View()) && r == Returned(msg.None?)
    {
      if msg.None? {
        return Returned(true);
      }
      if msg.value.kind == "state_sync" {
        if msg.value.state.Some? {
          r := MergeState(msg.value.state.value, now, fate);
          return;
        }
      }
      return Returned(false);
    }
  }
}
