/** Resources by kind, namespace and name: what a store returns for one of them, and that no
    operation on one touches another. */
module Resources {
  import opened Types
  import opened Storage
  import opened Entries
  import CrashSafety
  import opened Cluster
  import Versions

  datatype Resource = Resource(kind: Kind, namespace: string, name: string)

  /** What the Get methods return. */
  function Lookup(s: ClusterState, r: Resource): Option<Item> {
    var key := ResourceKey(r.namespace, r.name);
    if HasKey(s, r.kind, key) then Some(Versions.ItemAt(s, r.kind, key)) else None
  }

  /** What a Save or Delete method is called for, and what it leaves there. */
  function Subject(m: Mutation): Option<(Resource, Option<Item>)> {
    match m
    case SaveDeployment(d) => Some((Resource(Deployments, d.namespace, d.name), Some(DeploymentItem(d))))
    case SaveService(v) => Some((Resource(Services, v.namespace, v.name), Some(ServiceItem(v))))
    case SaveIngress(g) => Some((Resource(Ingresses, g.namespace, g.name), Some(IngressItem(g))))
    case SavePod(p) => Some((Resource(Pods, p.namespace, p.name), Some(PodItem(p))))
    case DeleteDeployment(namespace, name) => Some((Resource(Deployments, namespace, name), None))
    case DeleteService(namespace, name) => Some((Resource(Services, namespace, name), None))
    case DeleteIngress(namespace, name) => Some((Resource(Ingresses, namespace, name), None))
    case DeletePod(namespace, name) => Some((Resource(Pods, namespace, name), None))
    case MergeIn(_) => None
  }

  /** A save or delete is seen by the next lookup of its resource, changes no other one, of the
      same kind or of another, and stamps the state. */
  lemma OnlySubjectChanges(s: ClusterState, m: Mutation, now: int, r: Resource)
    requires Subject(m).Some?
    requires SlashFree(Subject(m).value.0.namespace) && SlashFree(r.namespace)
    ensures var (subject, left) := Subject(m).value;
            Lookup(Apply(s, m, now), r) == if r == subject then left else Lookup(s, r)
    ensures Apply(s, m, now).lastModified == now
  {
    var subject := Subject(m).value.0;
    ResourceKeyIff(subject.namespace, subject.name, r.namespace, r.name);
    if r != subject {
      OtherKeyKept(s, m, now, r.kind, ResourceKey(r.namespace, r.name));
    }
  }

  lemma OtherKeyKept(s: ClusterState, m: Mutation, now: int, kind: Kind, key: string)
    requires Subject(m).Some?
    requires var subject := Subject(m).value.0;
             kind != subject.kind || key != ResourceKey(subject.namespace, subject.name)
    ensures HasKey(Apply(s, m, now), kind, key) <==> HasKey(s, kind, key)
    ensures HasKey(s, kind, key) ==> Versions.ItemAt(Apply(s, m, now), kind, key) == Versions.ItemAt(s, kind, key)
  {
  }

  function ApplyAll(s: ClusterState, ms: seq<(Mutation, int)>): ClusterState {
    if ms == [] then s else Apply(ApplyAll(s, ms[..|ms| - 1]), ms[|ms| - 1].0, ms[|ms| - 1].1)
  }

  /** What the calls say last about a resource, or else what was there. */
  function LastLeft(ms: seq<(Mutation, int)>, r: Resource, before: Option<Item>): Option<Item> {
    if ms == [] then before
    else
      var subject := Subject(ms[|ms| - 1].0);
      if subject.Some? && subject.value.0 == r then subject.value.1 else LastLeft(ms[..|ms| - 1], r, before)
  }

  ghost predicate SavesAndDeletes(ms: seq<(Mutation, int)>) {
    forall i :: 0 <= i < |ms| ==> Subject(ms[i].0).Some? && SlashFree(Subject(ms[i].0).value.0.namespace)
  }

  /** Over whole runs of saves and deletes a store is a map from kind, namespace and name: each
      lookup gives what was last saved there, and nothing after a delete. */
  lemma {:induction false} StoreIsAMap(s: ClusterState, ms: seq<(Mutation, int)>, r: Resource)
    requires SlashFree(r.namespace) && SavesAndDeletes(ms)
    ensures Lookup(ApplyAll(s, ms), r) == LastLeft(ms, r, Lookup(s, r))
  {
    if ms != [] {
      var k := |ms| - 1;
      StoreIsAMap(s, ms[..k], r);
      OnlySubjectChanges(ApplyAll(s, ms[..k]), ms[k].0, ms[k].1, r);
    }
  }

  // ------------------------------------------------------- runs of the cluster

  /** What the node's memory holds for the resource, while the node is up. */
  predicate HoldsFor(n: CrashSafety.Node, r: Resource, item: Option<Item>) {
    n.mem.Some? ==> Lookup(n.mem.value, r) == item
  }

  /** What the node sees replaces that: a delivery that it survives of a newer state with
      another version, which a pod must also outdo in age, or a restart that finds another on
      disk. */
  predicate Replaces(codec: Codec, n: CrashSafety.Node, seen: Option<CrashSafety.Event>, r: Resource, item: Option<Item>) {
    match seen
    case None => false
    case Some(Restart(readFails)) => Lookup(if readFails then EMPTY_STATE else LoadFrom(codec, n.files), r) != item
    case Some(Mutate(m, _, fate)) =>
      && m.MergeIn? && n.mem.Some? && !fate.Dies()
      && Newer(m.incoming, n.mem.value)
      && Lookup(m.incoming, r).Some? && Lookup(m.incoming, r) != item
      && (r.kind.Pods? && item.Some? && item.value.PodItem? ==>
            Lookup(m.incoming, r).value.PodItem? && Lookup(m.incoming, r).value.pod.createdAt > item.value.pod.createdAt)
  }

  lemma MergedLookup(s: ClusterState, incoming: ClusterState, now: int, r: Resource)
    ensures var key := ResourceKey(r.namespace, r.name);
            Lookup(Merge(s, incoming, now), r) ==
            if Versions.Takes(s, incoming, r.kind, key) then Lookup(incoming, r) else Lookup(s, r)
  {
    Versions.MergedEntry(s, incoming, now, r.kind, ResourceKey(r.namespace, r.name));
  }

  lemma NodeStepReplaces(codec: Codec, n: CrashSafety.Node, seen: Option<CrashSafety.Event>, r: Resource, item: Option<Item>)
    requires HoldsFor(n, r, item) && SlashFree(r.namespace)
    requires seen.Some? && seen.value.Mutate? && !seen.value.m.MergeIn? ==>
               SlashFree(Subject(seen.value.m).value.0.namespace) && Subject(seen.value.m).value.0 != r
    ensures HoldsFor(StepSeen(codec, n, seen), r, item) <==> !Replaces(codec, n, seen, r, item)
  {
    if seen.Some? && seen.value.Mutate? && n.mem.Some? {
      var m := seen.value.m;
      if m.MergeIn? {
        MergedLookup(n.mem.value, m.incoming, seen.value.now, r);
      } else {
        OnlySubjectChanges(n.mem.value, m, seen.value.now, r);
      }
    }
  }

  /** The event is node i's own save or delete of a resource, with a slash-free namespace. */
  predicate OwnCallFor(e: Event, i: nat, r: Resource) {
    e.Local? && e.node == i && Subject(e.m).Some? && Subject(e.m).value.0 == r
  }

  ghost predicate SlashFreeCalls(es: seq<Event>) {
    forall e :: e in es && e.Local? && Subject(e.m).Some? ==> SlashFree(Subject(e.m).value.0.namespace)
  }

  /** Over a whole run in which node i is not called for a resource, however it is called for
      others, it holds the same for it at all times when it is up exactly when no delivery and
      no restart replaces it. */
  lemma OtherResourcesStayIff(codec: Codec, sys: System, es: seq<Event>, i: nat, r: Resource, item: Option<Item>)
    requires i < |sys.nodes| && HoldsFor(sys.nodes[i], r, item) && SlashFree(r.namespace)
    requires SlashFreeCalls(es) && forall e :: e in es ==> !OwnCallFor(e, i, r)
    ensures (forall k :: 0 <= k <= |es| ==> HoldsFor(NodeAt(codec, sys, es, i, k), r, item)) <==>
            (forall k :: 0 <= k < |es| ==>
               !Replaces(codec, NodeAt(codec, sys, es, i, k), SeenAt(codec, sys, es, i, k), r, item))
  {
    var holds := seq(|es| + 1, k requires 0 <= k <= |es| => HoldsFor(NodeAt(codec, sys, es, i, k), r, item));
    var breaks := seq(|es|, k requires 0 <= k < |es| =>
      Replaces(codec, NodeAt(codec, sys, es, i, k), SeenAt(codec, sys, es, i, k), r, item));
    assert es[..0] == [] && holds[0];
    forall k | 0 <= k < |es| && holds[k]
      ensures holds[k + 1] <==> !breaks[k]
    {
      assert es[k] in es;
      RunSize(codec, sys, es[..k]);
      RunNext(codec, sys, es, k);
      var before := Run(codec, sys, es[..k]);
      StepAt(codec, before, es[k], i);
      NodeStepReplaces(codec, before.nodes[i], SeenBy(before, es[k], i), r, item);
    }
    Unbroken(holds, breaks);
    assert forall k :: 0 <= k <= |es| ==> holds[k] == HoldsFor(NodeAt(codec, sys, es, i, k), r, item);
    assert forall k :: 0 <= k < |es| ==>
      breaks[k] == Replaces(codec, NodeAt(codec, sys, es, i, k), SeenAt(codec, sys, es, i, k), r, item);
  }
}
