/** Pods from apply to delete and through recovery: what the scheduler's table and the
    deployments hold afterwards. */
module Lifecycle {
  import opened Types
  import opened Scheduling

  /** What the world answers while one replica is started: the generated ID, the cluster's
      nodes, the random index, and Podman's container ID (None when creation fails). */
  datatype Attempt = Attempt(
    id: string,
    nodes: seq<Node>,
    pick: nat,
    container: Option<string>,
    startFails: bool,
    status: PodState)

  datatype StepResult = Done | ScheduleFailed | CreateFailed | StartFailed

  /** A pod as a deployment lists it: its current ID and node. */
  datatype PodRef = PodRef(id: string, node: string)

  function Place(selector: map<string, string>, a: Attempt): Option<string> {
    PlaceFor(selector, a.nodes, a.pick)
  }

  predicate IsLocal(selector: map<string, string>, a: Attempt, local: string) {
    Place(selector, a) == Some(local)
  }

  /** What becomes of one replica. */
  function ResultFor(selector: map<string, string>, a: Attempt, local: string): StepResult {
    if Place(selector, a).None? then ScheduleFailed
    else if Place(selector, a) != Some(local) then Done
    else if a.container.None? then CreateFailed
    else if a.startFails then StartFailed
    else Done
  }

  /** The ID that the pod carries in the end: a local pod is renamed to its container. */
  function FinalId(selector: map<string, string>, a: Attempt, local: string): string {
    if IsLocal(selector, a, local) && a.container.Some? then a.container.value else a.id
  }

  /** Starting the container of a pod filed under a.id: the pod takes the container's ID but
      stays filed where it is, and its state is set under the new ID. */
  function Started(t: PodTable, a: Attempt): PodTable
    requires a.id in t
  {
    if a.container.None? then t
    else
      var renamed := t[a.id := t[a.id].(id := a.container.value)];
      if a.startFails then renamed else SetState(renamed, a.container.value, a.status)
  }

  /** The table after one replica. */
  function TableAfter(t: PodTable, selector: map<string, string>, a: Attempt, local: string): PodTable {
    var place := Place(selector, a);
    if place.None? then t
    else
      var filed := t[a.id := Entry(a.id, place.value, Pending)];
      if place.value == local then Started(filed, a) else filed
  }

  function RefFor(selector: map<string, string>, a: Attempt, local: string): PodRef
    requires Place(selector, a).Some?
  {
    PodRef(FinalId(selector, a, local), Place(selector, a).value)
  }

  /** What an apply leaves: the table, the pods listed in the deployment, and its result. */
  datatype Applied = Applied(table: PodTable, refs: seq<PodRef>, result: StepResult)

  /** applyDeployment on the table: stops at the first replica that fails. */
  function Apply(t: PodTable, selector: map<string, string>, attempts: seq<Attempt>, local: string): Applied
    decreases attempts
  {
    if attempts == [] then Applied(t, [], Done)
    else
      var a := attempts[0];
      var t1 := TableAfter(t, selector, a, local);
      if !ResultFor(selector, a, local).Done? then Applied(t1, [], ResultFor(selector, a, local))
      else
        var rest := Apply(t1, selector, attempts[1..], local);
        rest.(refs := [RefFor(selector, a, local)] + rest.refs)
  }

  /** Apply when `refs` are already listed. */
  function ApplyOnto(t: PodTable, refs: seq<PodRef>, selector: map<string, string>, attempts: seq<Attempt>, local: string): Applied {
    var applied := Apply(t, selector, attempts, local);
    applied.(refs := refs + applied.refs)
  }

  lemma ApplyOntoEmpty(t: PodTable, refs: seq<PodRef>, selector: map<string, string>, attempts: seq<Attempt>, local: string)
    ensures refs == [] ==> ApplyOnto(t, refs, selector, attempts, local) == Apply(t, selector, attempts, local)
    ensures attempts == [] ==> ApplyOnto(t, refs, selector, attempts, local) == Applied(t, refs, Done)
  {
    var more := Apply(t, selector, attempts, local).refs;
    assert refs + [] == refs && [] + more == more;
  }

  lemma ApplyOntoStep(t: PodTable, refs: seq<PodRef>, selector: map<string, string>, attempts: seq<Attempt>, local: string)
    requires attempts != []
    ensures var a := attempts[0];
            var t1, result := TableAfter(t, selector, a, local), ResultFor(selector, a, local);
            ApplyOnto(t, refs, selector, attempts, local) ==
            if result.Done? then ApplyOnto(t1, refs + [RefFor(selector, a, local)], selector, attempts[1..], local)
            else Applied(t1, refs, result)
  {
    assert refs + [] == refs;
    if ResultFor(selector, attempts[0], local).Done? {
      var ref := RefFor(selector, attempts[0], local);
      var rest := Apply(TableAfter(t, selector, attempts[0], local), selector, attempts[1..], local).refs;
      assert refs + ([ref] + rest) == (refs + [ref]) + rest;
    }
  }

  /** What the recovery of one deployment leaves, with the number of replicas that failed. */
  datatype Recovered = Recovered(table: PodTable, refs: seq<PodRef>, failed: nat)

  /** Recovery of one deployment: goes on after a failure and counts it. */
  function Recover(t: PodTable, selector: map<string, string>, attempts: seq<Attempt>, local: string): Recovered {
    if attempts == [] then Recovered(t, [], 0)
    else
      var k := |attempts| - 1;
      RecoverNext(Recover(t, selector, attempts[..k], local), selector, attempts[k], local)
  }

  function RecoverNext(r: Recovered, selector: map<string, string>, a: Attempt, local: string): Recovered {
    var t := TableAfter(r.table, selector, a, local);
    if ResultFor(selector, a, local).Done? then Recovered(t, r.refs + [RefFor(selector, a, local)], r.failed)
    else Recovered(t, r.refs, r.failed + 1)
  }

  lemma RecoverStep(t: PodTable, selector: map<string, string>, attempts: seq<Attempt>, i: nat, local: string)
    requires i < |attempts|
    ensures Recover(t, selector, attempts[..i + 1], local) ==
            RecoverNext(Recover(t, selector, attempts[..i], local), selector, attempts[i], local)
  {
    assert attempts[..i + 1][..i] == attempts[..i];
  }

  /** A stored deployment as recovery sees it, with the world's answers for its replicas. */
  datatype Job = Job(desiredReplicas: int, selector: map<string, string>, attempts: seq<Attempt>)

  /** What recovery leaves: the table, the pods listed per deployment, and all failures. */
  datatype RecoveredAll = RecoveredAll(table: PodTable, lists: seq<seq<PodRef>>, failed: nat)

  function RecoverAll(t: PodTable, jobs: seq<Job>, local: string): RecoveredAll {
    if jobs == [] then RecoveredAll(t, [], 0)
    else
      var k := |jobs| - 1;
      var all := RecoverAll(t, jobs[..k], local);
      AddRecovered(all, Recover(all.table, jobs[k].selector, jobs[k].attempts, local))
  }

  function AddRecovered(all: RecoveredAll, one: Recovered): RecoveredAll {
    RecoveredAll(one.table, all.lists + [one.refs], all.failed + one.failed)
  }

  lemma RecoverAllStep(t: PodTable, jobs: seq<Job>, i: nat, local: string)
    requires i < |jobs|
    ensures var all := RecoverAll(t, jobs[..i], local);
            RecoverAll(t, jobs[..i + 1], local) ==
            AddRecovered(all, Recover(all.table, jobs[i].selector, jobs[i].attempts, local))
  {
    assert jobs[..i + 1][..i] == jobs[..i];
  }

  /** DeleteManifest on the table: removes what is filed under the pods' current IDs. */
  function Delete(t: PodTable, refs: seq<PodRef>): PodTable {
    t - Ids(refs)
  }

  function Ids(refs: seq<PodRef>): set<string> {
    set r | r in refs :: r.id
  }

  lemma IdsOfOneMore(refs: seq<PodRef>, i: nat)
    requires i < |refs|
    ensures Ids(refs[..i + 1]) == Ids(refs[..i]) + {refs[i].id}
  {
    assert refs[..i + 1] == refs[..i] + [refs[i]];
  }

  // ---------------------------------------------------------------- the API

  class DeploymentRecord {
    const key: string
    const desiredReplicas: int
    const selector: map<string, string>
    var pods: seq<PodRecord>
    /** What the listed pods look like. */
    ghost var refs: seq<PodRef>

    ghost predicate Valid()
      reads this, pods`id, pods`nodeName
    {
      |refs| == |pods| && forall i :: 0 <= i < |pods| ==> refs[i] == PodRef(pods[i].id, pods[i].nodeName)
    }

    constructor (key: string, desiredReplicas: int, selector: map<string, string>)
      ensures this.key == key && this.desiredReplicas == desiredReplicas && this.selector == selector
      ensures Valid() && pods == []
    {
      this.key, this.desiredReplicas, this.selector, pods, refs := key, desiredReplicas, selector, [], [];
    }

    method Append(pod: PodRecord)
      requires Valid()
      modifies this
      ensures Valid() && pods == old(pods) + [pod] && refs == old(refs) + [PodRef(pod.id, pod.nodeName)]
    {
      pods, refs := pods + [pod], refs + [PodRef(pod.id, pod.nodeName)];
    }
  }

  /** The in-memory cache after the deployments were entered one by one. */
  function Cached(cache: map<string, DeploymentRecord>, deps: seq<DeploymentRecord>): map<string, DeploymentRecord> {
    if deps == [] then cache
    else Cached(cache, deps[..|deps| - 1])[deps[|deps| - 1].key := deps[|deps| - 1]]
  }

  /** The stored deployments as values, with what the world answers for their replicas. */
  predicate JobsOf(deps: seq<DeploymentRecord>, jobs: seq<Job>) {
    && |jobs| == |deps|
    && forall i :: 0 <= i < |deps| ==>
         && jobs[i].desiredReplicas == deps[i].desiredReplicas && jobs[i].selector == deps[i].selector
         && |jobs[i].attempts| == if deps[i].desiredReplicas < 0 then 0 else deps[i].desiredReplicas
  }

  /** Under each key the cache holds the last deployment entered with that key, and what was
      there before when there was none (i is -1). */
  lemma {:induction false} CachedHasLast(cache: map<string, DeploymentRecord>, deps: seq<DeploymentRecord>, key: string) returns (i: int)
    ensures -1 <= i < |deps| && forall j :: i < j < |deps| ==> deps[j].key != key
    ensures i >= 0 ==> deps[i].key == key && key in Cached(cache, deps) && Cached(cache, deps)[key] == deps[i]
    ensures i == -1 ==> (key in Cached(cache, deps) <==> key in cache)
    ensures i == -1 && key in cache ==> Cached(cache, deps)[key] == cache[key]
  {
    if deps == [] {
      i := -1;
    } else if deps[|deps| - 1].key == key {
      i := |deps| - 1;
    } else {
      i := CachedHasLast(cache, deps[..|deps| - 1], key);
    }
  }

  lemma CachedStep(cache: map<string, DeploymentRecord>, deps: seq<DeploymentRecord>, i: nat)
    requires i < |deps|
    ensures Cached(cache, deps[..i + 1]) == Cached(cache, deps[..i])[deps[i].key := deps[i]]
  {
    assert deps[..i + 1][..i] == deps[..i];
  }

  class API {
    const scheduler: Scheduler
    const localNode: string
    var deployments: map<string, DeploymentRecord>

    constructor (scheduler: Scheduler, localNode: string)
      ensures this.scheduler == scheduler && this.localNode == localNode && deployments == map[]
    {
      this.scheduler, this.localNode, deployments := scheduler, localNode, map[];
    }

    /** One turn of the replica loop, which applyDeployment and RecoverDeployments share. */
    method StartReplica(selector: map<string, string>, a: Attempt) returns (pod: PodRecord, result: StepResult)
      requires scheduler.Valid()
      modifies scheduler, scheduler.repr`state
      ensures scheduler.Valid() && fresh(pod)
      ensures fresh(scheduler.repr - old(scheduler.repr))
      ensures result == ResultFor(selector, a, localNode)
      ensures scheduler.table == TableAfter(old(scheduler.table), selector, a, localNode)
      ensures result.Done? ==> PodRef(pod.id, pod.nodeName) == RefFor(selector, a, localNode)
    {
      pod := new PodRecord(a.id);
      var place := scheduler.SchedulePod(pod, selector, a.nodes, a.pick);
      if place.None? {
        return pod, ScheduleFailed;
      }
      result := Done;
      if place.value == localNode {
        result := StartHere(pod, a);
      }
    }

    /** Creates and starts the container of a pod that was scheduled on this node. */
    method StartHere(pod: PodRecord, a: Attempt) returns (result: StepResult)
      requires scheduler.Valid() && a.id in scheduler.pods && scheduler.pods[a.id] == pod
      modifies scheduler`table, pod, scheduler.repr`state
      ensures scheduler.Valid()
      ensures pod.nodeName == old(pod.nodeName)
      ensures result == if a.container.None? then CreateFailed else if a.startFails then StartFailed else Done
      ensures pod.id == if a.container.None? then old(pod.id) else a.container.value
      ensures a.id in old(scheduler.table) && scheduler.table == Started(old(scheduler.table), a)
    {
      if a.container.None? {
        return CreateFailed;
      }
      var containerID := a.container.value;
      pod.id := containerID;
      scheduler.table := scheduler.table[a.id := pod.View()];
      if a.startFails {
        return StartFailed;
      }
      var _ := scheduler.UpdatePodState(containerID, a.status);
      return Done;
    }

    /** `attempts` are the world's answers for all turns of the replica loop; a negative number
        of replicas makes none. */
    method ApplyDeployment(dep: DeploymentRecord, attempts: seq<Attempt>) returns (result: StepResult)
      requires scheduler.Valid() && dep.Valid()
      requires |attempts| == if dep.desiredReplicas < 0 then 0 else dep.desiredReplicas
      requires dep.pods == []
      modifies this`deployments, dep, scheduler, scheduler.repr`state
      ensures scheduler.Valid() && dep.Valid()
      ensures deployments == old(deployments)[dep.key := dep]
      ensures Applied(scheduler.table, dep.refs, result) == Apply(old(scheduler.table), dep.selector, attempts, localNode)
      ensures result.Done? ==> |dep.pods| == if dep.desiredReplicas < 0 then 0 else dep.desiredReplicas
    {
      deployments := deployments[dep.key := dep];
      ghost var all := Apply(scheduler.table, dep.selector, attempts, localNode);
      assert attempts[0..] == attempts;
      ApplyOntoEmpty(scheduler.table, dep.refs, dep.selector, attempts, localNode);
      var i := 0;
      while i < dep.desiredReplicas
        invariant 0 <= i <= |attempts| && |dep.pods| == i
        invariant scheduler.Valid() && dep.Valid()
        invariant deployments == old(deployments)[dep.key := dep]
        invariant fresh(scheduler.repr - old(scheduler.repr))
        invariant all == ApplyOnto(scheduler.table, dep.refs, dep.selector, attempts[i..], localNode)
      {
        ApplyOntoStep(scheduler.table, dep.refs, dep.selector, attempts[i..], localNode);
        var pod, r := StartReplica(dep.selector, attempts[i]);
        if !r.Done? {
          return r;
        }
        dep.Append(pod);
        assert attempts[i..][1..] == attempts[i + 1..];
        i := i + 1;
      }
      ApplyOntoEmpty(scheduler.table, dep.refs, dep.selector, attempts[|attempts|..], localNode);
      return Done;
    }

    /** The pod loop of DeleteManifest. */
    method RemovePods(dep: DeploymentRecord)
      requires scheduler.Valid() && dep.Valid()
      modifies scheduler
      ensures scheduler.Valid()
      ensures scheduler.table == Delete(old(scheduler.table), dep.refs)
    {
      for i := 0 to |dep.pods|
        invariant scheduler.Valid()
        invariant scheduler.table == Delete(old(scheduler.table), dep.refs[..i])
      {
        scheduler.RemovePod(dep.pods[i].id);
        IdsOfOneMore(dep.refs, i);
      }
      assert dep.refs[..|dep.pods|] == dep.refs;
    }

    /** The deployment part of DeleteManifest; stopping containers touches no modelled state. */
    method DeleteManifest(key: string)
      requires scheduler.Valid()
      requires key in deployments ==> deployments[key].Valid()
      modifies this, scheduler
      ensures scheduler.Valid()
      ensures key !in old(deployments) ==> deployments == old(deployments) && scheduler.table == old(scheduler.table)
      ensures key in old(deployments) ==>
                && deployments == old(deployments) - {key}
                && scheduler.table == Delete(old(scheduler.table), old(deployments[key].refs))
    {
      if key in deployments {
        RemovePods(deployments[key]);
        deployments := deployments - {key};
      }
    }

    /** RecoverDeployments up to its services: starts the replicas of all stored deployments
        anew. The error it returns is whether anything failed. */
    method RecoverDeployments(deps: seq<DeploymentRecord>, jobs: seq<Job>) returns (recovered: nat, failed: nat, err: bool)
      requires scheduler.Valid()
      requires forall i, j :: 0 <= i < j < |deps| ==> deps[i] != deps[j]
      requires JobsOf(deps, jobs)
      modifies this`deployments, deps, scheduler, scheduler.repr`state
      ensures scheduler.Valid()
      ensures recovered == |deps| && (err <==> failed > 0)
      ensures var all := RecoverAll(old(scheduler.table), jobs, localNode);
              && scheduler.table == all.table && failed == all.failed && |all.lists| == |deps|
              && forall i :: 0 <= i < |deps| ==> deps[i].Valid() && deps[i].refs == all.lists[i]
      ensures deployments == Cached(old(deployments), deps)
    {
      recovered, failed := 0, 0;
      ghost var lists: seq<seq<PodRef>> := [];
      for i := 0 to |deps|
        invariant fresh(scheduler.repr - old(scheduler.repr))
        invariant recovered == i
        invariant RecoveredAll(scheduler.table, lists, failed) == RecoverAll(old(scheduler.table), jobs[..i], localNode)
        invariant deployments == Cached(old(deployments), deps[..i])
        invariant ListsUpTo(deps, lists, i)
      {
        RecoverAllStep(old(scheduler.table), jobs, i, localNode);
        CachedStep(old(deployments), deps, i);
        var n := RecoverNth(deps, lists, i, jobs[i].attempts);
        lists := lists + [deps[i].refs];
        failed := failed + n;
        recovered := recovered + 1;
      }
      assert jobs[..|jobs|] == jobs && deps[..|deps|] == deps;
      return recovered, failed, failed > 0;
    }

    /** The first n deployments list these pods. */
    ghost predicate ListsUpTo(deps: seq<DeploymentRecord>, lists: seq<seq<PodRef>>, n: nat)
      reads scheduler, scheduler.repr, deps, PodsOf(deps)
    {
      && scheduler.Valid()
      && n <= |deps| && |lists| == n
      && (forall i :: 0 <= i < n ==> deps[i].refs == lists[i])
      && (forall i :: 0 <= i < n ==>
            assert forall p :: p in deps[i].pods ==> deps[i] in deps && p in PodsOf(deps);
            deps[i].Valid())
    }

    ghost function PodsOf(deps: seq<DeploymentRecord>): set<PodRecord>
      reads deps
    {
      set d: DeploymentRecord, p: PodRecord | d in deps && p in d.pods :: p
    }

    /** Recovers deployment n and leaves the others alone. */
    method RecoverNth(deps: seq<DeploymentRecord>, ghost lists: seq<seq<PodRef>>, n: nat, attempts: seq<Attempt>) returns (failed: nat)
      requires n < |deps| && ListsUpTo(deps, lists, n)
      requires forall i, j :: 0 <= i < j < |deps| ==> deps[i] != deps[j]
      requires |attempts| == if deps[n].desiredReplicas < 0 then 0 else deps[n].desiredReplicas
      modifies this`deployments, deps[n], scheduler, scheduler.repr`state
      ensures deployments == old(deployments)[deps[n].key := deps[n]]
      ensures fresh(scheduler.repr - old(scheduler.repr))
      ensures ListsUpTo(deps, lists + [deps[n].refs], n + 1)
      ensures Recovered(scheduler.table, deps[n].refs, failed) ==
              Recover(old(scheduler.table), deps[n].selector, attempts, localNode)
    {
      failed := RecoverOne(deps[n], attempts);
    }

    /** The turn of recovery for one deployment: its replica loop counts failures and goes on. */
    method RecoverOne(dep: DeploymentRecord, attempts: seq<Attempt>) returns (failed: nat)
      requires scheduler.Valid()
      requires |attempts| == if dep.desiredReplicas < 0 then 0 else dep.desiredReplicas
      modifies this`deployments, dep, scheduler, scheduler.repr`state
      ensures deployments == old(deployments)[dep.key := dep]
      ensures scheduler.Valid() && dep.Valid()
      ensures fresh(scheduler.repr - old(scheduler.repr))
      ensures Recovered(scheduler.table, dep.refs, failed) == Recover(old(scheduler.table), dep.selector, attempts, localNode)
    {
      dep.pods, dep.refs := [], [];
      failed := 0;
      var i := 0;
      while i < dep.desiredReplicas
        invariant 0 <= i <= |attempts|
        invariant scheduler.Valid() && dep.Valid() && deployments == old(deployments)
        invariant fresh(scheduler.repr - old(scheduler.repr))
        invariant Recovered(scheduler.table, dep.refs, failed) ==
                  Recover(old(scheduler.table), dep.selector, attempts[..i], localNode)
      {
        RecoverStep(old(scheduler.table), dep.selector, attempts, i, localNode);
        var pod, r := StartReplica(dep.selector, attempts[i]);
        i := i + 1;
        if !r.Done? {
          failed := failed + 1;
          continue;
        }
        dep.Append(pod);
      }
      assert attempts[..|attempts|] == attempts;
      deployments := deployments[dep.key := dep];
    }
  }
}
