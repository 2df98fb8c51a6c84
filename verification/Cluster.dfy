/** N nodes that save, delete, broadcast, receive and crash: where entries come from and
    how they can disappear. */
module Cluster {
  import opened Types
  import opened Storage
  import opened Entries
  import CrashSafety

  /** `net` collects every state ever broadcast; any of them may be delivered to any node,
      any number of times and in any order. */
  datatype System = System(nodes: seq<CrashSafety.Node>, net: seq<ClusterState>)

  datatype Event =
    | Local(node: nat, m: Mutation, now: int, fate: PersistFate)
    | Broadcast(node: nat)
    | Deliver(msg: nat, node: nat, now: int, fate: PersistFate)
    | Restart(node: nat, readFails: bool)

  function OnNode(codec: Codec, sys: System, i: nat, e: CrashSafety.Event): System {
    if i < |sys.nodes| then sys.(nodes := sys.nodes[i := CrashSafety.Step(codec, sys.nodes[i], e)]) else sys
  }

  function Step(codec: Codec, sys: System, e: Event): System {
    match e
    case Local(i, m, now, fate) =>
      if m.MergeIn? then sys else OnNode(codec, sys, i, CrashSafety.Mutate(m, now, fate))
    case Broadcast(i) =>
      if i < |sys.nodes| && sys.nodes[i].mem.Some? then sys.(net := sys.net + [sys.nodes[i].mem.value]) else sys
    case Deliver(msg, i, now, fate) =>
      if msg < |sys.net| then OnNode(codec, sys, i, CrashSafety.Mutate(MergeIn(sys.net[msg]), now, fate)) else sys
    case Restart(i, readFails) =>
      OnNode(codec, sys, i, CrashSafety.Restart(readFails))
  }

  function Run(codec: Codec, sys: System, es: seq<Event>): System {
    if es == [] then sys else Step(codec, Run(codec, sys, es[..|es| - 1]), es[|es| - 1])
  }

  lemma {:induction false} RunConcat(codec: Codec, sys: System, a: seq<Event>, b: seq<Event>)
    ensures Run(codec, sys, a + b) == Run(codec, Run(codec, sys, a), b)
  {
    if b == [] {
      assert a + b == a;
    } else {
      assert (a + b)[..|a + b| - 1] == a + b[..|b| - 1];
      RunConcat(codec, sys, a, b[..|b| - 1]);
    }
  }

  /** All nodes have just started on empty data directories and nothing was sent. */
  ghost predicate Initial(sys: System) {
    && sys.net == []
    && forall n :: n in sys.nodes ==> n.mem == Some(EMPTY_STATE) && n.files.state == None
  }

  // ------------------------------------------------------------ provenance

  /** The mutation is the call of a Save method with this item, whose own name is the key. */
  ghost predicate Saves(m: Mutation, key: string, item: Item) {
    match item
    case DeploymentItem(d) => m == SaveDeployment(d) && key == ResourceKey(d.namespace, d.name)
    case ServiceItem(v) => m == SaveService(v) && key == ResourceKey(v.namespace, v.name)
    case IngressItem(g) => m == SaveIngress(g) && key == ResourceKey(g.namespace, g.name)
    case PodItem(p) => m == SavePod(p) && key == ResourceKey(p.namespace, p.name)
  }

  ghost predicate SavedDuring(es: seq<Event>, key: string, item: Item) {
    exists j :: 0 <= j < |es| && es[j].Local? && Saves(es[j].m, key, item)
  }

  /** Everything in `s` was given to some Save method at some node. */
  ghost predicate Sourced(s: ClusterState, es: seq<Event>) {
    forall key, item :: Holds(s, key, item) ==> SavedDuring(es, key, item)
  }

  ghost predicate SourcedFile(codec: Codec, f: Files, es: seq<Event>) {
    f.state.Some? ==> exists s :: f.state == Some(codec.encode(s)) && Sourced(s, es)
  }

  ghost predicate SourcedNode(codec: Codec, n: CrashSafety.Node, es: seq<Event>) {
    (n.mem.Some? ==> Sourced(n.mem.value, es)) && SourcedFile(codec, n.files, es)
  }

  lemma SourcedLater(s: ClusterState, es: seq<Event>, e: Event)
    requires Sourced(s, es)
    ensures Sourced(s, es + [e])
  {
    forall key, item | Holds(s, key, item)
      ensures SavedDuring(es + [e], key, item)
    {
      var j :| 0 <= j < |es| && es[j].Local? && Saves(es[j].m, key, item);
      assert (es + [e])[j] == es[j];
    }
  }

  lemma SourcedNodeLater(codec: Codec, n: CrashSafety.Node, es: seq<Event>, e: Event)
    requires SourcedNode(codec, n, es)
    ensures SourcedNode(codec, n, es + [e])
  {
    if n.mem.Some? {
      SourcedLater(n.mem.value, es, e);
    }
    if n.files.state.Some? {
      var s :| n.files.state == Some(codec.encode(s)) && Sourced(s, es);
      SourcedLater(s, es, e);
    }
  }

  /** A mutation adds at most the item it saves, or items of the state it merges. */
  lemma SourcedApply(s: ClusterState, m: Mutation, now: int, es: seq<Event>)
    requires Sourced(s, es)
    requires m.MergeIn? ==> Sourced(m.incoming, es)
    requires !m.MergeIn? ==> exists j :: 0 <= j < |es| && es[j].Local? && es[j].m == m
    ensures Sourced(Apply(s, m, now), es)
  {
    var s' := Apply(s, m, now);
    forall key, item | Holds(s', key, item)
      ensures SavedDuring(es, key, item)
    {
      if m.MergeIn? {
        assert Holds(s, key, item) || Holds(m.incoming, key, item);
      } else {
        assert Holds(s, key, item) || Saves(m, key, item);
      }
    }
  }

  lemma SourcedNodeStep(codec: Codec, n: CrashSafety.Node, e: CrashSafety.Event, es: seq<Event>)
    requires codec.RoundTrips()
    requires SourcedNode(codec, n, es)
    requires e.Mutate? && e.m.MergeIn? ==> Sourced(e.m.incoming, es)
    requires e.Mutate? && !e.m.MergeIn? ==> exists j :: 0 <= j < |es| && es[j].Local? && es[j].m == e.m
    ensures SourcedNode(codec, CrashSafety.Step(codec, n, e), es)
  {
    if e.Mutate? && n.mem.Some? {
      SourcedApply(n.mem.value, e.m, e.now, es);
    }
  }

  /** Provenance over all runs: whatever any node holds in memory or on disk, or has ever
      sent, was passed to a Save method at some node earlier in the run, under that key. */
  lemma {:induction false} Provenance(codec: Codec, sys: System, es: seq<Event>)
    requires codec.RoundTrips()
    requires Initial(sys)
    ensures var end := Run(codec, sys, es);
            && |end.nodes| == |sys.nodes|
            && (forall n :: n in end.nodes ==> SourcedNode(codec, n, es))
            && (forall s :: s in end.net ==> Sourced(s, es))
  {
    if es != [] {
      var k := |es| - 1;
      var e := es[k];
      assert es == es[..k] + [e];
      Provenance(codec, sys, es[..k]);
      var before := Run(codec, sys, es[..k]);
      forall n | n in before.nodes
        ensures SourcedNode(codec, n, es)
      {
        SourcedNodeLater(codec, n, es[..k], e);
      }
      forall s | s in before.net
        ensures Sourced(s, es)
      {
        SourcedLater(s, es[..k], e);
      }
      ProvenanceStep(codec, before, es, e);
    }
  }

  lemma ProvenanceStep(codec: Codec, before: System, es: seq<Event>, e: Event)
    requires codec.RoundTrips()
    requires es != [] && es[|es| - 1] == e
    requires forall n :: n in before.nodes ==> SourcedNode(codec, n, es)
    requires forall s :: s in before.net ==> Sourced(s, es)
    ensures var after := Step(codec, before, e);
            && |after.nodes| == |before.nodes|
            && (forall n :: n in after.nodes ==> SourcedNode(codec, n, es))
            && (forall s :: s in after.net ==> Sourced(s, es))
  {
    match e
    case Local(i, m, now, fate) =>
      if i < |before.nodes| && !m.MergeIn? {
        SourcedNodeStep(codec, before.nodes[i], CrashSafety.Mutate(m, now, fate), es);
      }
    case Broadcast(i) =>
      if i < |before.nodes| {
        assert SourcedNode(codec, before.nodes[i], es);
      }
    case Deliver(msg, i, now, fate) =>
      if i < |before.nodes| && msg < |before.net| {
        SourcedNodeStep(codec, before.nodes[i], CrashSafety.Mutate(MergeIn(before.net[msg]), now, fate), es);
      }
    case Restart(i, readFails) =>
      if i < |before.nodes| {
        SourcedNodeStep(codec, before.nodes[i], CrashSafety.Restart(readFails), es);
      }
  }

  // ----------------------------------------------- a node's part in a run

  /** The event of the single-node model that node i takes part in, if any. */
  function SeenBy(sys: System, e: Event, i: nat): Option<CrashSafety.Event> {
    if e.node != i then None
    else
      match e
      case Local(_, m, now, fate) => if m.MergeIn? then None else Some(CrashSafety.Mutate(m, now, fate))
      case Broadcast(_) => None
      case Deliver(msg, _, now, fate) =>
        if msg < |sys.net| then Some(CrashSafety.Mutate(MergeIn(sys.net[msg]), now, fate)) else None
      case Restart(_, readFails) => Some(CrashSafety.Restart(readFails))
  }

  function StepSeen(codec: Codec, n: CrashSafety.Node, seen: Option<CrashSafety.Event>): CrashSafety.Node {
    match seen
    case None => n
    case Some(e) => CrashSafety.Step(codec, n, e)
  }

  lemma StepAt(codec: Codec, sys: System, e: Event, i: nat)
    requires i < |sys.nodes|
    ensures |Step(codec, sys, e).nodes| == |sys.nodes|
    ensures Step(codec, sys, e).nodes[i] == StepSeen(codec, sys.nodes[i], SeenBy(sys, e, i))
  {
  }

  lemma RunNext(codec: Codec, sys: System, es: seq<Event>, k: nat)
    requires k < |es|
    ensures Run(codec, sys, es[..k + 1]) == Step(codec, Run(codec, sys, es[..k]), es[k])
  {
    assert es[..k + 1][..k] == es[..k];
  }

  lemma {:induction false} RunSize(codec: Codec, sys: System, es: seq<Event>)
    ensures |Run(codec, sys, es).nodes| == |sys.nodes|
  {
    if es != [] {
      RunSize(codec, sys, es[..|es| - 1]);
    }
  }

  /** What node i goes through in a run of the cluster is a run of the single-node model. */
  function HistoryOf(codec: Codec, sys: System, es: seq<Event>, i: nat): seq<CrashSafety.Event> {
    if es == [] then []
    else
      var init := es[..|es| - 1];
      var seen := SeenBy(Run(codec, sys, init), es[|es| - 1], i);
      HistoryOf(codec, sys, init, i) + if seen.Some? then [seen.value] else []
  }

  lemma {:induction false} NodeRunsAlone(codec: Codec, sys: System, es: seq<Event>, i: nat)
    requires i < |sys.nodes|
    ensures |Run(codec, sys, es).nodes| == |sys.nodes|
    ensures Run(codec, sys, es).nodes[i] == CrashSafety.Run(codec, sys.nodes[i], HistoryOf(codec, sys, es, i))
  {
    if es != [] {
      var init, e := es[..|es| - 1], es[|es| - 1];
      NodeRunsAlone(codec, sys, init, i);
      StepAt(codec, Run(codec, sys, init), e, i);
      var past := HistoryOf(codec, sys, init, i);
      var seen := SeenBy(Run(codec, sys, init), e, i);
      if seen.Some? {
        assert (past + [seen.value])[..|past|] == past;
      } else {
        assert past + [] == past;
      }
    }
  }

  /** So crash safety holds of every node of the cluster, whatever it merges. */
  lemma NodeFileIsLastCommit(codec: Codec, sys: System, es: seq<Event>, i: nat)
    requires i < |sys.nodes| && sys.nodes[i].files.state == None
    ensures |Run(codec, sys, es).nodes| == |sys.nodes|
    ensures var file, n, past := Run(codec, sys, es).nodes[i].files.state, sys.nodes[i], HistoryOf(codec, sys, es, i);
            && (file == None <==> forall k :: 0 <= k < |past| ==> !CrashSafety.Commits(codec, n, past, k))
            && (file.Some? ==> exists k: nat ::
                  CrashSafety.LastCommit(codec, n, past, k) && file == Some(codec.encode(CrashSafety.Written(codec, n, past, k))))
  {
    NodeRunsAlone(codec, sys, es, i);
    CrashSafety.FileIsLastCommit(codec, sys.nodes[i], HistoryOf(codec, sys, es, i));
  }

  // ---------------------------------------------------------- what is kept

  ghost predicate Alive(sys: System, i: nat) {
    i < |sys.nodes| && sys.nodes[i].mem.Some?
  }

  /** What a state may meet for good: it has a key, or it has a pod that is no older. */
  datatype Fact =
    | KeyKept(kind: Kind, key: string)
    | PodAtLeast(key: string, createdAt: int)

  predicate Meets(s: ClusterState, f: Fact) {
    match f
    case KeyKept(kind, key) => HasKey(s, kind, key)
    case PodAtLeast(key, createdAt) => key in s.pods && s.pods[key].createdAt >= createdAt
  }

  /** The mutation is the delete of this key. */
  predicate Deletes(m: Mutation, kind: Kind, key: string) {
    match kind
    case Deployments => m.DeleteDeployment? && key == ResourceKey(m.namespace, m.name)
    case Services => m.DeleteService? && key == ResourceKey(m.namespace, m.name)
    case Ingresses => m.DeleteIngress? && key == ResourceKey(m.namespace, m.name)
    case Pods => m.DeletePod? && key == ResourceKey(m.namespace, m.name)
  }

  /** The mutation saves a resource under this key. */
  predicate SavesUnder(m: Mutation, kind: Kind, key: string) {
    match kind
    case Deployments => m.SaveDeployment? && key == ResourceKey(m.deployment.namespace, m.deployment.name)
    case Services => m.SaveService? && key == ResourceKey(m.service.namespace, m.service.name)
    case Ingresses => m.SaveIngress? && key == ResourceKey(m.ingress.namespace, m.ingress.name)
    case Pods => m.SavePod? && key == ResourceKey(m.pod.namespace, m.pod.name)
  }

  /** The mutation deletes the key, or saves an older pod under it. */
  predicate Undoes(m: Mutation, f: Fact) {
    match f
    case KeyKept(kind, key) => Deletes(m, kind, key)
    case PodAtLeast(key, createdAt) =>
      || Deletes(m, Pods, key)
      || (m.SavePod? && key == ResourceKey(m.pod.namespace, m.pod.name) && m.pod.createdAt < createdAt)
  }

  predicate OwnUndoing(e: Event, i: nat, f: Fact) {
    e.Local? && e.node == i && Undoes(e.m, f)
  }

  predicate RestartOf(e: Event, i: nat) {
    e.Restart? && e.node == i
  }

  /** The state file, if there is one and it decodes, holds a state that meets the fact. */
  predicate OnDisk(codec: Codec, n: CrashSafety.Node, f: Fact) {
    Meets(LoadFrom(codec, n.files), f)
  }

  predicate InMemory(n: CrashSafety.Node, f: Fact) {
    n.mem.Some? ==> Meets(n.mem.value, f)
  }

  /** The node restarts without finding the fact on disk. */
  predicate RestartLoses(codec: Codec, n: CrashSafety.Node, seen: Option<CrashSafety.Event>, f: Fact) {
    seen.Some? && seen.value.Restart? && (seen.value.readFails || !OnDisk(codec, n, f))
  }

  lemma ApplyKeeps(s: ClusterState, m: Mutation, now: int, f: Fact)
    requires Meets(s, f)
    ensures Meets(Apply(s, m, now), f) <==> !Undoes(m, f)
  {
  }

  lemma NodeStepKeeps(codec: Codec, n: CrashSafety.Node, e: CrashSafety.Event, f: Fact)
    requires InMemory(n, f)
    ensures var after := CrashSafety.Step(codec, n, e);
            InMemory(after, f) <==>
            !RestartLoses(codec, n, Some(e), f) && !(n.mem.Some? && after.mem.Some? && e.Mutate? && Undoes(e.m, f))
  {
    assert !Meets(EMPTY_STATE, f);
    if e.Mutate? && n.mem.Some? {
      ApplyKeeps(n.mem.value, e.m, e.now, f);
    }
  }

  /** One step takes a fact from a living node exactly when it is that node's own undoing of it
      or a restart that does not find it: no merge and no event of another node ever does. */
  lemma FactLostIff(codec: Codec, sys: System, e: Event, i: nat, f: Fact)
    requires Alive(sys, i) && Meets(sys.nodes[i].mem.value, f)
    requires Alive(Step(codec, sys, e), i)
    ensures !Meets(Step(codec, sys, e).nodes[i].mem.value, f) <==>
            OwnUndoing(e, i, f) || RestartLoses(codec, sys.nodes[i], SeenBy(sys, e, i), f)
  {
    StepAt(codec, sys, e, i);
    var seen := SeenBy(sys, e, i);
    MergeUndoesNothing(sys, e, i, f);
    if seen.Some? {
      NodeStepKeeps(codec, sys.nodes[i], seen.value, f);
    }
  }

  lemma MergeUndoesNothing(sys: System, e: Event, i: nat, f: Fact)
    ensures var seen := SeenBy(sys, e, i);
            seen.Some? && seen.value.Mutate? && Undoes(seen.value.m, f) <==> OwnUndoing(e, i, f)
  {
  }

  lemma InMemoryStep(codec: Codec, sys: System, e: Event, i: nat, f: Fact)
    requires i < |sys.nodes| && InMemory(sys.nodes[i], f) && !OwnUndoing(e, i, f)
    ensures |Step(codec, sys, e).nodes| == |sys.nodes|
    ensures InMemory(Step(codec, sys, e).nodes[i], f) <==> !RestartLoses(codec, sys.nodes[i], SeenBy(sys, e, i), f)
  {
    StepAt(codec, sys, e, i);
    MergeUndoesNothing(sys, e, i, f);
    if SeenBy(sys, e, i).Some? {
      NodeStepKeeps(codec, sys.nodes[i], SeenBy(sys, e, i).value, f);
    }
  }

  /** What holds at first, and goes on to hold exactly when nothing breaks it. */
  lemma Unbroken(holds: seq<bool>, breaks: seq<bool>)
    requires |holds| == |breaks| + 1 && holds[0]
    requires forall k :: 0 <= k < |breaks| && holds[k] ==> (holds[k + 1] <==> !breaks[k])
    ensures (forall k :: 0 <= k < |holds| ==> holds[k]) <==> (forall k :: 0 <= k < |breaks| ==> !breaks[k])
  {
    if forall k :: 0 <= k < |breaks| ==> !breaks[k] {
      for k := 0 to |breaks|
        invariant forall j :: 0 <= j <= k ==> holds[j]
      {
        assert holds[k + 1] <==> !breaks[k];
      }
    } else {
      var k :| 0 <= k < |breaks| && breaks[k];
      assert !(holds[k] && holds[k + 1]);
    }
  }

  /** What, once gained, is never lost. */
  lemma Gained(holds: seq<bool>, gains: seq<bool>)
    requires |holds| == |gains| + 1
    requires forall k :: 0 <= k < |gains| ==> (holds[k + 1] <==> holds[k] || gains[k])
    ensures holds[|gains|] <==> holds[0] || exists k :: 0 <= k < |gains| && gains[k]
  {
    for n := 0 to |gains|
      invariant holds[n] <==> holds[0] || exists k :: 0 <= k < n && gains[k]
    {
      assert holds[n + 1] <==> holds[n] || gains[n];
    }
  }

  /** Node i after the first k events. */
  function NodeAt(codec: Codec, sys: System, es: seq<Event>, i: nat, k: nat): CrashSafety.Node
    requires i < |sys.nodes| && k <= |es|
  {
    RunSize(codec, sys, es[..k]);
    Run(codec, sys, es[..k]).nodes[i]
  }

  function SeenAt(codec: Codec, sys: System, es: seq<Event>, i: nat, k: nat): Option<CrashSafety.Event>
    requires k < |es|
  {
    SeenBy(Run(codec, sys, es[..k]), es[k], i)
  }

  /** Over a whole run in which node i does not undo the fact itself, its memory meets it at
      all times, as long as the node is up, exactly when every restart of it finds the fact. */
  lemma FactsStayIff(codec: Codec, sys: System, es: seq<Event>, i: nat, f: Fact)
    requires i < |sys.nodes| && InMemory(sys.nodes[i], f)
    requires forall e :: e in es ==> !OwnUndoing(e, i, f)
    ensures (forall k :: 0 <= k <= |es| ==> InMemory(NodeAt(codec, sys, es, i, k), f)) <==>
            (forall k :: 0 <= k < |es| ==>
               !RestartLoses(codec, NodeAt(codec, sys, es, i, k), SeenAt(codec, sys, es, i, k), f))
  {
    var holds := seq(|es| + 1, k requires 0 <= k <= |es| => InMemory(NodeAt(codec, sys, es, i, k), f));
    var breaks := seq(|es|, k requires 0 <= k < |es| =>
      RestartLoses(codec, NodeAt(codec, sys, es, i, k), SeenAt(codec, sys, es, i, k), f));
    forall k | 0 <= k < |es| && holds[k]
      ensures holds[k + 1] <==> !breaks[k]
    {
      RunSize(codec, sys, es[..k]);
      RunNext(codec, sys, es, k);
      InMemoryStep(codec, Run(codec, sys, es[..k]), es[k], i, f);
    }
    Unbroken(holds, breaks);
    assert forall k :: 0 <= k <= |es| ==> holds[k] == InMemory(NodeAt(codec, sys, es, i, k), f);
    assert forall k :: 0 <= k < |es| ==>
      breaks[k] == RestartLoses(codec, NodeAt(codec, sys, es, i, k), SeenAt(codec, sys, es, i, k), f);
  }

  /** What the node sees commits its memory to disk. */
  predicate CommitsSeen(n: CrashSafety.Node, seen: Option<CrashSafety.Event>) {
    seen.Some? && CrashSafety.CommitStep(n, seen.value)
  }

  lemma NodeStepOnDisk(codec: Codec, n: CrashSafety.Node, e: CrashSafety.Event, f: Fact)
    requires codec.RoundTrips()
    requires InMemory(n, f) && !(e.Mutate? && Undoes(e.m, f))
    ensures OnDisk(codec, CrashSafety.Step(codec, n, e), f) <==> OnDisk(codec, n, f) || CrashSafety.CommitStep(n, e)
  {
    if e.Mutate? && n.mem.Some? {
      ApplyKeeps(n.mem.value, e.m, e.now, f);
    }
  }

  lemma OnDiskStep(codec: Codec, sys: System, e: Event, i: nat, f: Fact)
    requires codec.RoundTrips()
    requires i < |sys.nodes| && InMemory(sys.nodes[i], f) && !OwnUndoing(e, i, f)
    ensures |Step(codec, sys, e).nodes| == |sys.nodes|
    ensures OnDisk(codec, Step(codec, sys, e).nodes[i], f) <==>
            OnDisk(codec, sys.nodes[i], f) || CommitsSeen(sys.nodes[i], SeenBy(sys, e, i))
  {
    StepAt(codec, sys, e, i);
    MergeUndoesNothing(sys, e, i, f);
    if SeenBy(sys, e, i).Some? {
      NodeStepOnDisk(codec, sys.nodes[i], SeenBy(sys, e, i).value, f);
    }
  }

  /** Once the fact is on disk as well it survives whatever follows, persists that fail and
      processes that die anywhere inside them included, until the node's own undoing or an
      unreadable restart. */
  lemma {:induction false} FactsSurviveRestarts(codec: Codec, sys: System, es: seq<Event>, i: nat, f: Fact)
    requires codec.RoundTrips()
    requires i < |sys.nodes| && InMemory(sys.nodes[i], f) && OnDisk(codec, sys.nodes[i], f)
    requires forall e :: e in es ==> !OwnUndoing(e, i, f) && !(RestartOf(e, i) && e.readFails)
    ensures var end := NodeAt(codec, sys, es, i, |es|);
            InMemory(end, f) && OnDisk(codec, end, f)
  {
    assert es[..|es|] == es;
    if es != [] {
      var k := |es| - 1;
      var init := es[..k];
      FactsSurviveRestarts(codec, sys, init, i, f);
      assert init[..k] == init && es[k] in es;
      RunSize(codec, sys, init);
      RunNext(codec, sys, es, k);
      InMemoryStep(codec, Run(codec, sys, init), es[k], i, f);
      OnDiskStep(codec, Run(codec, sys, init), es[k], i, f);
    }
  }

  /** Exactly when a restart loses what memory held. The node holds the fact, runs on without
      undoing it, and is started again: it finds the fact if and only if the file can be read,
      and the fact was on disk before or some persist since then reached its rename. */
  lemma RestartFindsFactIff(codec: Codec, sys: System, es: seq<Event>, i: nat, f: Fact, readFails: bool)
    requires codec.RoundTrips()
    requires i < |sys.nodes| && InMemory(sys.nodes[i], f)
    requires forall e :: e in es ==> !OwnUndoing(e, i, f) && !RestartOf(e, i)
    ensures var found := CrashSafety.Step(codec, NodeAt(codec, sys, es, i, |es|), CrashSafety.Restart(readFails)).mem;
            && found.Some?
            && (Meets(found.value, f) <==>
                  && !readFails
                  && (|| OnDisk(codec, sys.nodes[i], f)
                      || exists k :: 0 <= k < |es| && CommitsSeen(NodeAt(codec, sys, es, i, k), SeenAt(codec, sys, es, i, k))))
  {
    var disk := seq(|es| + 1, k requires 0 <= k <= |es| => OnDisk(codec, NodeAt(codec, sys, es, i, k), f));
    var commits := seq(|es|, k requires 0 <= k < |es| =>
      CommitsSeen(NodeAt(codec, sys, es, i, k), SeenAt(codec, sys, es, i, k)));
    StaysInMemory(codec, sys, es, i, f);
    forall k | 0 <= k < |es|
      ensures disk[k + 1] <==> disk[k] || commits[k]
    {
      assert InMemory(NodeAt(codec, sys, es, i, k), f) && es[k] in es;
      DiskNext(codec, sys, es, i, f, k);
    }
    Gained(disk, commits);
    assert forall k :: 0 <= k < |es| ==>
      commits[k] == CommitsSeen(NodeAt(codec, sys, es, i, k), SeenAt(codec, sys, es, i, k));
    assert es[..0] == [] && disk[0] == OnDisk(codec, sys.nodes[i], f);
    assert !Meets(EMPTY_STATE, f);
  }

  lemma DiskNext(codec: Codec, sys: System, es: seq<Event>, i: nat, f: Fact, k: nat)
    requires codec.RoundTrips()
    requires i < |sys.nodes| && k < |es|
    requires InMemory(NodeAt(codec, sys, es, i, k), f) && !OwnUndoing(es[k], i, f)
    ensures OnDisk(codec, NodeAt(codec, sys, es, i, k + 1), f) <==>
            || OnDisk(codec, NodeAt(codec, sys, es, i, k), f)
            || CommitsSeen(NodeAt(codec, sys, es, i, k), SeenAt(codec, sys, es, i, k))
  {
    RunSize(codec, sys, es[..k]);
    RunNext(codec, sys, es, k);
    OnDiskStep(codec, Run(codec, sys, es[..k]), es[k], i, f);
  }

  /** Without a restart the fact stays in memory. */
  lemma StaysInMemory(codec: Codec, sys: System, es: seq<Event>, i: nat, f: Fact)
    requires i < |sys.nodes| && InMemory(sys.nodes[i], f)
    requires forall e :: e in es ==> !OwnUndoing(e, i, f) && !RestartOf(e, i)
    ensures forall k :: 0 <= k <= |es| ==> InMemory(NodeAt(codec, sys, es, i, k), f)
  {
    forall k | 0 <= k < |es|
      ensures !RestartLoses(codec, NodeAt(codec, sys, es, i, k), SeenAt(codec, sys, es, i, k), f)
    {
      assert es[k] in es;
    }
    FactsStayIff(codec, sys, es, i, f);
  }

  // --------------------------------------------------- what stays deleted

  predicate Absent(n: CrashSafety.Node, kind: Kind, key: string) {
    n.mem.Some? ==> !HasKey(n.mem.value, kind, key)
  }

  /** What the node sees brings the key into its memory without a save of its own: a delivery
      that it survives of a newer state with the key, or a restart that finds the key on disk. */
  predicate BringsBack(codec: Codec, n: CrashSafety.Node, seen: Option<CrashSafety.Event>, kind: Kind, key: string) {
    match seen
    case None => false
    case Some(Restart(readFails)) => !readFails && HasKey(LoadFrom(codec, n.files), kind, key)
    case Some(Mutate(m, _, fate)) =>
      && m.MergeIn? && n.mem.Some? && !fate.Dies()
      && Newer(m.incoming, n.mem.value) && HasKey(m.incoming, kind, key)
  }

  lemma AbsentApply(s: ClusterState, m: Mutation, now: int, kind: Kind, key: string)
    requires !HasKey(s, kind, key)
    ensures HasKey(Apply(s, m, now), kind, key) <==>
            if m.MergeIn? then Newer(m.incoming, s) && HasKey(m.incoming, kind, key) else SavesUnder(m, kind, key)
  {
  }

  lemma AbsentNext(codec: Codec, sys: System, es: seq<Event>, i: nat, kind: Kind, key: string, k: nat)
    requires i < |sys.nodes| && k < |es|
    requires Absent(NodeAt(codec, sys, es, i, k), kind, key)
    requires !(es[k].Local? && es[k].node == i && SavesUnder(es[k].m, kind, key))
    ensures Absent(NodeAt(codec, sys, es, i, k + 1), kind, key) <==>
            !BringsBack(codec, NodeAt(codec, sys, es, i, k), SeenAt(codec, sys, es, i, k), kind, key)
  {
    RunSize(codec, sys, es[..k]);
    RunNext(codec, sys, es, k);
    var before := Run(codec, sys, es[..k]);
    StepAt(codec, before, es[k], i);
    var seen := SeenBy(before, es[k], i);
    if seen.Some? && seen.value.Mutate? && before.nodes[i].mem.Some? {
      AbsentApply(before.nodes[i].mem.value, seen.value.m, seen.value.now, kind, key);
    }
  }

  /** A key that node i does not hold, as after its delete, and does not save itself, stays away
      over a whole run, at all times when the node is up, exactly when no event brings it back. */
  lemma AbsenceStaysIff(codec: Codec, sys: System, es: seq<Event>, i: nat, kind: Kind, key: string)
    requires i < |sys.nodes| && Absent(sys.nodes[i], kind, key)
    requires forall e :: e in es ==> !(e.Local? && e.node == i && SavesUnder(e.m, kind, key))
    ensures (forall k :: 0 <= k <= |es| ==> Absent(NodeAt(codec, sys, es, i, k), kind, key)) <==>
            (forall k :: 0 <= k < |es| ==>
               !BringsBack(codec, NodeAt(codec, sys, es, i, k), SeenAt(codec, sys, es, i, k), kind, key))
  {
    var holds := seq(|es| + 1, k requires 0 <= k <= |es| => Absent(NodeAt(codec, sys, es, i, k), kind, key));
    var breaks := seq(|es|, k requires 0 <= k < |es| =>
      BringsBack(codec, NodeAt(codec, sys, es, i, k), SeenAt(codec, sys, es, i, k), kind, key));
    assert es[..0] == [] && holds[0];
    forall k | 0 <= k < |es| && holds[k]
      ensures holds[k + 1] <==> !breaks[k]
    {
      assert es[k] in es;
      AbsentNext(codec, sys, es, i, kind, key, k);
    }
    Unbroken(holds, breaks);
    assert forall k :: 0 <= k <= |es| ==> holds[k] == Absent(NodeAt(codec, sys, es, i, k), kind, key);
    assert forall k :: 0 <= k < |es| ==>
      breaks[k] == BringsBack(codec, NodeAt(codec, sys, es, i, k), SeenAt(codec, sys, es, i, k), kind, key);
  }

  /** Node i's clock readings along a run never go back, starting at `from`. */
  ghost predicate Clocked(es: seq<Event>, i: nat, from: int) {
    && (forall a :: 0 <= a < |es| && ReadsClock(es[a], i) ==> from <= es[a].now)
    && (forall a, b :: 0 <= a < b < |es| && ReadsClock(es[a], i) && ReadsClock(es[b], i) ==> es[a].now <= es[b].now)
  }

  predicate ReadsClock(e: Event, i: nat) {
    (e.Local? || e.Deliver?) && e.node == i
  }

  function LatestReading(es: seq<Event>, i: nat, from: int): int {
    if es == [] then from
    else if ReadsClock(es[|es| - 1], i) then es[|es| - 1].now
    else LatestReading(es[..|es| - 1], i, from)
  }

  lemma {:induction false} LatestReadingIsLatest(es: seq<Event>, i: nat, from: int)
    requires Clocked(es, i, from)
    ensures from <= LatestReading(es, i, from)
    ensures forall a :: 0 <= a < |es| && ReadsClock(es[a], i) ==> es[a].now <= LatestReading(es, i, from)
  {
    if es != [] {
      var init := es[..|es| - 1];
      assert forall a :: 0 <= a < |init| ==> init[a] == es[a];
      LatestReadingIsLatest(init, i, from);
    }
  }

  /** With a local clock that never goes back, neither does lastModified, however far ahead
      or behind the clocks of the peers whose states are merged. */
  lemma {:induction false} StampNeverGoesBack(codec: Codec, sys: System, es: seq<Event>, i: nat, from: int)
    requires Alive(sys, i) && sys.nodes[i].mem.value.lastModified <= from
    requires Clocked(es, i, from)
    requires forall e :: e in es ==> !(e.Restart? && e.node == i)
    ensures var end := Run(codec, sys, es);
            && i < |end.nodes|
            && (Alive(end, i) ==>
                  sys.nodes[i].mem.value.lastModified <= end.nodes[i].mem.value.lastModified <= LatestReading(es, i, from))
  {
    if es != [] {
      var k := |es| - 1;
      var init := es[..k];
      assert forall a :: 0 <= a < |init| ==> init[a] == es[a];
      StampNeverGoesBack(codec, sys, init, i, from);
      LatestReadingIsLatest(init, i, from);
      LatestReadingIsLatest(es, i, from);
      assert es[k] in es;
      var before := Run(codec, sys, init);
      if Alive(Step(codec, before, es[k]), i) {
        assert Alive(before, i);
        LatestReadingGrows(es, i, from);
        StampStep(codec, before, es[k], i);
      }
    }
  }

  /** Neither stamp of the node, in memory or on disk, is below `floor`. */
  ghost predicate StampsFrom(codec: Codec, n: CrashSafety.Node, floor: int) {
    (n.mem.Some? ==> n.mem.value.lastModified >= floor) && LoadFrom(codec, n.files).lastModified >= floor
  }

  /** A restart takes the stamp back no further than to the one on disk: a stamp that memory
      and disk have reached is a lower bound for good, with a clock that does not go back
      behind it and files that can be read. */
  lemma {:induction false} StampFloorSurvivesRestarts(codec: Codec, sys: System, es: seq<Event>, i: nat, floor: int)
    requires codec.RoundTrips()
    requires i < |sys.nodes| && StampsFrom(codec, sys.nodes[i], floor)
    requires forall e :: e in es ==> (ReadsClock(e, i) ==> e.now >= floor) && !(RestartOf(e, i) && e.readFails)
    ensures StampsFrom(codec, NodeAt(codec, sys, es, i, |es|), floor)
  {
    assert es[..|es|] == es;
    if es != [] {
      var k := |es| - 1;
      var init := es[..k];
      StampFloorSurvivesRestarts(codec, sys, init, i, floor);
      assert init[..k] == init && es[k] in es;
      RunSize(codec, sys, init);
      RunNext(codec, sys, es, k);
      var before := Run(codec, sys, init);
      StepAt(codec, before, es[k], i);
      if SeenBy(before, es[k], i).Some? {
        StampFloorStep(codec, before.nodes[i], SeenBy(before, es[k], i).value, floor);
      }
    }
  }

  lemma StampFloorStep(codec: Codec, n: CrashSafety.Node, e: CrashSafety.Event, floor: int)
    requires codec.RoundTrips() && StampsFrom(codec, n, floor)
    requires e.Mutate? ==> e.now >= floor
    requires e.Restart? ==> !e.readFails
    ensures StampsFrom(codec, CrashSafety.Step(codec, n, e), floor)
  {
    if e.Mutate? && n.mem.Some? {
      assert Apply(n.mem.value, e.m, e.now).lastModified >= floor;
    }
  }

  lemma LatestReadingGrows(es: seq<Event>, i: nat, from: int)
    requires Clocked(es, i, from) && es != []
    ensures LatestReading(es[..|es| - 1], i, from) <= LatestReading(es, i, from)
  {
    var init := es[..|es| - 1];
    assert forall a :: 0 <= a < |init| ==> init[a] == es[a];
    LatestReadingIsAReading(init, i, from);
  }

  lemma {:induction false} LatestReadingIsAReading(es: seq<Event>, i: nat, from: int)
    ensures LatestReading(es, i, from) == from
            || exists a :: 0 <= a < |es| && ReadsClock(es[a], i) && es[a].now == LatestReading(es, i, from)
  {
    if es != [] && !ReadsClock(es[|es| - 1], i) {
      var init := es[..|es| - 1];
      LatestReadingIsAReading(init, i, from);
      if LatestReading(init, i, from) != from {
        var a :| 0 <= a < |init| && ReadsClock(init[a], i) && init[a].now == LatestReading(init, i, from);
        assert es[a] == init[a];
      }
    }
  }

  lemma StampStep(codec: Codec, sys: System, e: Event, i: nat)
    requires Alive(sys, i) && Alive(Step(codec, sys, e), i) && !(e.Restart? && e.node == i)
    ensures var before, after := sys.nodes[i].mem.value, Step(codec, sys, e).nodes[i].mem.value;
            after.lastModified == before.lastModified || (ReadsClock(e, i) && after.lastModified == e.now)
  {
    match e
    case Local(n, m, now, fate) =>
    case Broadcast(n) =>
    case Deliver(msg, n, now, fate) =>
    case Restart(n, readFails) =>
  }
}
