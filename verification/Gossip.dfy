/** State dissemination: broadcasts of whole states through the stamp gate of MergeState. */
module Gossip {
  import opened Types
  import opened Storage
  import opened Entries
  import CrashSafety
  import Cluster
  import Versions

  /** A message reaches `node` when its clock shows `now`. */
  datatype Delivery = Delivery(node: nat, now: int)

  function Deliver(nodes: seq<ClusterState>, msg: ClusterState, d: Delivery): seq<ClusterState> {
    if d.node < |nodes| then nodes[d.node := Merge(nodes[d.node], msg, d.now)] else nodes
  }

  function DeliverAll(nodes: seq<ClusterState>, msg: ClusterState, ds: seq<Delivery>): seq<ClusterState>
    decreases ds
  {
    if ds == [] then nodes else DeliverAll(Deliver(nodes, msg, ds[0]), msg, ds[1..])
  }

  // ------------------------------------------------ deliveries in the cluster

  ghost predicate AllAlive(sys: Cluster.System) {
    forall i :: 0 <= i < |sys.nodes| ==> sys.nodes[i].mem.Some?
  }

  function Memories(sys: Cluster.System): (nodes: seq<ClusterState>)
    requires AllAlive(sys)
    ensures |nodes| == |sys.nodes| && forall i :: 0 <= i < |nodes| ==> Some(nodes[i]) == sys.nodes[i].mem
  {
    seq(|sys.nodes|, i requires 0 <= i < |sys.nodes| => sys.nodes[i].mem.value)
  }

  /** Deliveries of message number `msg` of which none kills its receiver; their persists may
      succeed or fail. */
  ghost predicate Delivers(es: seq<Cluster.Event>, msg: nat) {
    forall e :: e in es ==> e.Deliver? && e.msg == msg && !e.fate.Dies()
  }

  function DeliveriesOf(es: seq<Cluster.Event>): (ds: seq<Delivery>)
    requires forall e :: e in es ==> e.Deliver?
    ensures |ds| == |es| && forall i :: 0 <= i < |ds| ==> ds[i] == Delivery(es[i].node, es[i].now)
  {
    seq(|es|, i requires 0 <= i < |es| => var e := es[i]; assert e in es; Delivery(e.node, e.now))
  }

  lemma {:induction false} DeliverAllLast(nodes: seq<ClusterState>, msg: ClusterState, ds: seq<Delivery>, d: Delivery)
    ensures DeliverAll(nodes, msg, ds + [d]) == Deliver(DeliverAll(nodes, msg, ds), msg, d)
    decreases ds
  {
    if ds == [] {
      assert [] + [d] == [d] && [d][1..] == [];
    } else {
      assert (ds + [d])[1..] == ds[1..] + [d];
      DeliverAllLast(Deliver(nodes, msg, ds[0]), msg, ds[1..], d);
    }
  }

  lemma DeliveriesLast(init: seq<Cluster.Event>, last: Cluster.Event, es: seq<Cluster.Event>)
    requires es == init + [last]
    requires forall e :: e in es ==> e.Deliver?
    ensures DeliveriesOf(es) == DeliveriesOf(init) + [Delivery(last.node, last.now)]
  {
  }

  lemma DeliveryInCluster(codec: Codec, sys: Cluster.System, e: Cluster.Event)
    requires AllAlive(sys) && e.Deliver? && e.msg < |sys.net| && !e.fate.Dies()
    ensures var end := Cluster.Step(codec, sys, e);
            && AllAlive(end) && end.net == sys.net
            && Memories(end) == Deliver(Memories(sys), sys.net[e.msg], Delivery(e.node, e.now))
  {
  }

  lemma {:induction false} DeliveriesInCluster(codec: Codec, sys: Cluster.System, es: seq<Cluster.Event>, msg: nat)
    requires AllAlive(sys) && msg < |sys.net| && Delivers(es, msg)
    ensures var end := Cluster.Run(codec, sys, es);
            && AllAlive(end) && end.net == sys.net
            && Memories(end) == DeliverAll(Memories(sys), sys.net[msg], DeliveriesOf(es))
  {
    if es == [] {
      assert DeliveriesOf(es) == [];
    } else {
      var init, last := es[..|es| - 1], es[|es| - 1];
      assert last in es;
      DeliveriesInCluster(codec, sys, init, msg);
      var mid := Cluster.Run(codec, sys, init);
      DeliveryInCluster(codec, mid, last);
      assert Cluster.Run(codec, sys, es) == Cluster.Step(codec, mid, last);
      var d := Delivery(last.node, last.now);
      DeliveriesLast(init, last, es);
      DeliverAllLast(Memories(sys), sys.net[msg], DeliveriesOf(init), d);
    }
  }

  /** A broadcast and its deliveries act on the memories of the crash model like one round. */
  lemma RoundInCluster(codec: Codec, sys: Cluster.System, sender: nat, es: seq<Cluster.Event>)
    requires AllAlive(sys) && sender < |sys.nodes| && Delivers(es, |sys.net|)
    ensures var end := Cluster.Run(codec, sys, [Cluster.Broadcast(sender)] + es);
            && AllAlive(end) && end.net == sys.net + [Memories(sys)[sender]]
            && Memories(end) == DeliverAll(Memories(sys), Memories(sys)[sender], DeliveriesOf(es))
  {
    var b := [Cluster.Broadcast(sender)];
    Cluster.RunConcat(codec, sys, b, es);
    assert b[..0] == [];
    var sent := Cluster.Run(codec, sys, b);
    assert sent == sys.(net := sys.net + [sys.nodes[sender].mem.value]);
    assert Memories(sent) == Memories(sys);
    DeliveriesInCluster(codec, sent, es, |sys.net|);
  }

  // --------------------------------------------------------------- one round

  /** A shared clock that was at `clock` ticks strictly upwards along the deliveries. */
  ghost predicate Ticks(ds: seq<Delivery>, clock: int) {
    && (forall a :: 0 <= a < |ds| ==> clock < ds[a].now)
    && (forall a, b :: 0 <= a < b < |ds| ==> ds[a].now < ds[b].now)
  }

  function EndClock(ds: seq<Delivery>, clock: int): int {
    if ds == [] then clock else ds[|ds| - 1].now
  }

  predicate Reached(ds: seq<Delivery>, i: nat) {
    exists a :: 0 <= a < |ds| && ds[a].node == i
  }

  /** Delivered to every node; the sender may or may not hear itself, nodes may hear twice. */
  predicate ReachesAll(ds: seq<Delivery>, n: nat, sender: nat) {
    forall i: nat :: i < n && i != sender ==> Reached(ds, i)
  }

  ghost predicate StampsUpTo(nodes: seq<ClusterState>, clock: int) {
    forall i :: 0 <= i < |nodes| ==> nodes[i].lastModified <= clock
  }

  /** What one round does to node i: a strictly older node that is reached merges once. */
  ghost predicate RoundEffect(before: ClusterState, after: ClusterState, msg: ClusterState, reached: bool, clock: int, end: int) {
    if reached && Newer(msg, before)
    then exists t :: clock < t <= end && after == Merge(before, msg, t)
    else after == before
  }

  lemma {:induction false} RoundIsOneMergePerNode(nodes: seq<ClusterState>, msg: ClusterState, ds: seq<Delivery>, clock: int)
    requires Ticks(ds, clock)
    requires StampsUpTo(nodes, clock) && msg.lastModified <= clock
    ensures var after := DeliverAll(nodes, msg, ds);
            && |after| == |nodes|
            && StampsUpTo(after, EndClock(ds, clock))
            && forall i :: 0 <= i < |nodes| ==>
                 RoundEffect(nodes[i], after[i], msg, Reached(ds, i), clock, EndClock(ds, clock))
    decreases ds
  {
    if ds != [] {
      var d, rest := ds[0], ds[1..];
      var mid := Deliver(nodes, msg, d);
      assert forall a :: 0 <= a < |rest| ==> rest[a] == ds[a + 1];
      RoundIsOneMergePerNode(mid, msg, rest, d.now);
      var after := DeliverAll(nodes, msg, ds);
      var end := EndClock(ds, clock);
      assert end == EndClock(rest, d.now);
      forall i | 0 <= i < |nodes|
        ensures RoundEffect(nodes[i], after[i], msg, Reached(ds, i), clock, end)
      {
        ReachedFirstOrLater(ds, i);
        EffectOfFirst(nodes[i], mid[i], after[i], msg, d.node == i, Reached(rest, i), clock, d.now, end);
      }
    }
  }

  lemma ReachedFirstOrLater(ds: seq<Delivery>, i: nat)
    requires ds != []
    ensures Reached(ds, i) <==> ds[0].node == i || Reached(ds[1..], i)
  {
    if Reached(ds[1..], i) {
      var a :| 0 <= a < |ds[1..]| && ds[1..][a].node == i;
      assert ds[a + 1].node == i;
    }
    if Reached(ds, i) {
      var a :| 0 <= a < |ds| && ds[a].node == i;
      assert a > 0 ==> ds[1..][a - 1].node == i;
    }
  }

  lemma EffectOfFirst(before: ClusterState, mid: ClusterState, after: ClusterState, msg: ClusterState,
                      here: bool, later: bool, clock: int, now: int, end: int)
    requires mid == if here then Merge(before, msg, now) else before
    requires msg.lastModified <= clock < now <= end
    requires RoundEffect(mid, after, msg, later, now, end)
    ensures RoundEffect(before, after, msg, here || later, clock, end)
  {
    if here && Newer(msg, before) {
      assert mid.lastModified == now && !Newer(msg, mid);
      assert after == mid;
    }
  }

  // ----------------------------------------------------------- dissemination

  /** `s` has every key of `t`, and its pods are at least as young. */
  ghost predicate Covers(s: ClusterState, t: ClusterState) {
    && (forall kind, key :: HasKey(t, kind, key) ==> HasKey(s, kind, key))
    && (forall key :: key in t.pods && key in s.pods ==> s.pods[key].createdAt >= t.pods[key].createdAt)
  }

  lemma MergeCovers(local: ClusterState, incoming: ClusterState, now: int)
    ensures Covers(Merge(local, incoming, now), local)
    ensures Newer(incoming, local) ==> Covers(Merge(local, incoming, now), incoming)
  {
  }

  lemma CoversTransitive(a: ClusterState, b: ClusterState, c: ClusterState)
    requires Covers(a, b) && Covers(b, c)
    ensures Covers(a, c)
  {
    forall key | key in c.pods && key in a.pods
      ensures a.pods[key].createdAt >= c.pods[key].createdAt
    {
      assert HasKey(c, Pods, key);
      assert HasKey(b, Pods, key);
    }
  }

  /** Node m broadcasts, then h, then m again, each broadcast fully delivered before the next. */
  function ThreeRounds(nodes: seq<ClusterState>, m: nat, h: nat, ds1: seq<Delivery>, ds2: seq<Delivery>, ds3: seq<Delivery>)
      : (r: (seq<ClusterState>, seq<ClusterState>, seq<ClusterState>))
    requires m < |nodes| && h < |nodes|
    ensures |r.0| == |r.1| == |r.2| == |nodes|
  {
    DeliverAllLength(nodes, nodes[m], ds1);
    var n1 := DeliverAll(nodes, nodes[m], ds1);
    DeliverAllLength(n1, n1[h], ds2);
    var n2 := DeliverAll(n1, n1[h], ds2);
    DeliverAllLength(n2, n2[m], ds3);
    (n1, n2, DeliverAll(n2, n2[m], ds3))
  }

  lemma {:induction false} DeliverAllLength(nodes: seq<ClusterState>, msg: ClusterState, ds: seq<Delivery>)
    ensures |DeliverAll(nodes, msg, ds)| == |nodes|
    decreases ds
  {
    if ds != [] {
      DeliverAllLength(Deliver(nodes, msg, ds[0]), msg, ds[1..]);
    }
  }

  /** Dissemination. A node h whose stamp is older than m's cannot be heard directly, yet the
      broadcasts m, h, m bring all it holds to every node: m's first broadcast re-stamps h, h's
      keys then travel to m and to some others, and m, re-stamped in turn, reaches the rest. */
  lemma Dissemination(nodes: seq<ClusterState>, m: nat, h: nat, clock: int,
                      ds1: seq<Delivery>, ds2: seq<Delivery>, ds3: seq<Delivery>)
    requires m < |nodes| && h < |nodes|
    requires nodes[m].lastModified > nodes[h].lastModified
    requires StampsUpTo(nodes, clock)
    requires ReachesAll(ds1, |nodes|, m) && ReachesAll(ds2, |nodes|, h) && ReachesAll(ds3, |nodes|, m)
    requires Ticks(ds1, clock)
    requires Ticks(ds2, EndClock(ds1, clock))
    requires Ticks(ds3, EndClock(ds2, EndClock(ds1, clock)))
    ensures forall i :: 0 <= i < |nodes| ==> Covers(ThreeRounds(nodes, m, h, ds1, ds2, ds3).2[i], nodes[h])
  {
    var (n1, n2, n3) := ThreeRounds(nodes, m, h, ds1, ds2, ds3);
    var c1 := EndClock(ds1, clock);
    var c2 := EndClock(ds2, c1);
    RoundIsHeard(nodes, m, ds1, clock);
    RoundIsHeard(n1, h, ds2, c1);
    RoundIsHeard(n2, m, ds3, c2);
    assert Heard(nodes[h], n1[h], nodes[m], clock);
    assert Heard(nodes[m], n1[m], nodes[m], clock);
    assert Heard(n1[m], n2[m], n1[h], c1);
    forall i | 0 <= i < |nodes|
      ensures Covers(n3[i], nodes[h])
    {
      assert Heard(n1[i], n2[i], n1[h], c1);
      assert Heard(n2[i], n3[i], n2[m], c2);
      KeysReachNode(nodes[h], n1[h], n2[m], n1[i], n2[i], n3[i], c1, c2);
    }
  }

  /** What a full round of `msg` means for one node. */
  ghost predicate Heard(before: ClusterState, after: ClusterState, msg: ClusterState, clock: int) {
    && Covers(after, before)
    && (Newer(msg, before) ==> Covers(after, msg) && after.lastModified > clock)
    && (!Newer(msg, before) ==> after == before)
  }

  lemma RoundIsHeard(nodes: seq<ClusterState>, sender: nat, ds: seq<Delivery>, clock: int)
    requires sender < |nodes| && ReachesAll(ds, |nodes|, sender)
    requires Ticks(ds, clock) && StampsUpTo(nodes, clock)
    ensures var after := DeliverAll(nodes, nodes[sender], ds);
            && |after| == |nodes|
            && StampsUpTo(after, EndClock(ds, clock)) && clock <= EndClock(ds, clock)
            && forall i :: 0 <= i < |nodes| ==> Heard(nodes[i], after[i], nodes[sender], clock)
  {
    var msg := nodes[sender];
    RoundIsOneMergePerNode(nodes, msg, ds, clock);
    var after := DeliverAll(nodes, msg, ds);
    forall i | 0 <= i < |nodes|
      ensures Heard(nodes[i], after[i], msg, clock)
    {
      assert RoundEffect(nodes[i], after[i], msg, Reached(ds, i), clock, EndClock(ds, clock));
      if Newer(msg, nodes[i]) {
        var t :| clock < t && after[i] == Merge(nodes[i], msg, t);
        MergeCovers(nodes[i], msg, t);
      }
    }
  }

  /** One receiver x through the last two rounds: if it ignores h's broadcast, its stamp is
      too old to ignore m's second one. */
  lemma KeysReachNode(h0: ClusterState, h1: ClusterState, m2: ClusterState,
                      x1: ClusterState, x2: ClusterState, x3: ClusterState, c1: int, c2: int)
    requires Covers(h1, h0) && Covers(m2, h1) && m2.lastModified > c1
    requires x1.lastModified <= c1
    requires Heard(x1, x2, h1, c1) && Heard(x2, x3, m2, c2)
    ensures Covers(x3, h0)
  {
    if Newer(h1, x1) {
      CoversTransitive(x3, x2, h1);
    } else {
      CoversTransitive(x3, m2, h1);
    }
    CoversTransitive(x3, h1, h0);
  }

  /** Dissemination as a property of the cluster's runs: the three broadcasts and their
      deliveries, in any order within each round and with any outcome of the receivers'
      persists, leave every node with all that h held. */
  lemma ClusterDissemination(codec: Codec, sys: Cluster.System, m: nat, h: nat, clock: int,
                             es1: seq<Cluster.Event>, es2: seq<Cluster.Event>, es3: seq<Cluster.Event>)
    requires AllAlive(sys) && m < |sys.nodes| && h < |sys.nodes|
    requires Delivers(es1, |sys.net|) && Delivers(es2, |sys.net| + 1) && Delivers(es3, |sys.net| + 2)
    requires Memories(sys)[m].lastModified > Memories(sys)[h].lastModified
    requires StampsUpTo(Memories(sys), clock)
    requires var (ds1, ds2, ds3, n) := (DeliveriesOf(es1), DeliveriesOf(es2), DeliveriesOf(es3), |sys.nodes|);
             && ReachesAll(ds1, n, m) && ReachesAll(ds2, n, h) && ReachesAll(ds3, n, m)
             && Ticks(ds1, clock) && Ticks(ds2, EndClock(ds1, clock)) && Ticks(ds3, EndClock(ds2, EndClock(ds1, clock)))
    ensures var run := [Cluster.Broadcast(m)] + es1 + ([Cluster.Broadcast(h)] + es2) + ([Cluster.Broadcast(m)] + es3);
            var end := Cluster.Run(codec, sys, run);
            && AllAlive(end) && |end.nodes| == |sys.nodes|
            && forall i :: 0 <= i < |end.nodes| ==> Covers(Memories(end)[i], Memories(sys)[h])
  {
    var r1, r2, r3 := [Cluster.Broadcast(m)] + es1, [Cluster.Broadcast(h)] + es2, [Cluster.Broadcast(m)] + es3;
    Cluster.RunConcat(codec, sys, r1, r2);
    Cluster.RunConcat(codec, sys, r1 + r2, r3);
    var (n1, n2, n3) := ThreeRounds(Memories(sys), m, h, DeliveriesOf(es1), DeliveriesOf(es2), DeliveriesOf(es3));
    RoundInCluster(codec, sys, m, es1);
    var s1 := Cluster.Run(codec, sys, r1);
    RoundInCluster(codec, s1, h, es2);
    var s2 := Cluster.Run(codec, s1, r2);
    RoundInCluster(codec, s2, m, es3);
    Dissemination(Memories(sys), m, h, clock, DeliveriesOf(es1), DeliveriesOf(es2), DeliveriesOf(es3));
  }

  /** A delete never spreads, and does not last: the deleting node's own broadcast brings the
      key back to it, from any node that still has it, and to every other node as well. */
  lemma DeletedKeyComesBack(codec: Codec, sys: Cluster.System, i: nat, h: nat, del: Mutation, kind: Kind, key: string,
                            clock: int, now: int, fate: PersistFate,
                            es1: seq<Cluster.Event>, es2: seq<Cluster.Event>, es3: seq<Cluster.Event>)
    requires AllAlive(sys) && i < |sys.nodes| && h < |sys.nodes| && i != h
    requires Cluster.Deletes(del, kind, key) && HasKey(Memories(sys)[h], kind, key)
    requires StampsUpTo(Memories(sys), clock) && clock < now && !fate.Dies()
    requires Delivers(es1, |sys.net|) && Delivers(es2, |sys.net| + 1) && Delivers(es3, |sys.net| + 2)
    requires var (ds1, ds2, ds3, n) := (DeliveriesOf(es1), DeliveriesOf(es2), DeliveriesOf(es3), |sys.nodes|);
             && ReachesAll(ds1, n, i) && ReachesAll(ds2, n, h) && ReachesAll(ds3, n, i)
             && Ticks(ds1, now) && Ticks(ds2, EndClock(ds1, now)) && Ticks(ds3, EndClock(ds2, EndClock(ds1, now)))
    ensures var deleted := Cluster.Step(codec, sys, Cluster.Local(i, del, now, fate));
            var run := [Cluster.Broadcast(i)] + es1 + ([Cluster.Broadcast(h)] + es2) + ([Cluster.Broadcast(i)] + es3);
            var end := Cluster.Run(codec, deleted, run);
            && AllAlive(deleted) && !HasKey(Memories(deleted)[i], kind, key)
            && (forall j :: 0 <= j < |sys.nodes| && j != i ==> Memories(deleted)[j] == Memories(sys)[j])
            && AllAlive(end) && |end.nodes| == |sys.nodes|
            && forall j :: 0 <= j < |end.nodes| ==> HasKey(Memories(end)[j], kind, key)
  {
    var deleted := Cluster.Step(codec, sys, Cluster.Local(i, del, now, fate));
    DeleteHere(codec, sys, i, del, kind, key, now, fate);
    ClusterDissemination(codec, deleted, i, h, now, es1, es2, es3);
  }

  lemma DeleteHere(codec: Codec, sys: Cluster.System, i: nat, del: Mutation, kind: Kind, key: string, now: int, fate: PersistFate)
    requires AllAlive(sys) && i < |sys.nodes| && Cluster.Deletes(del, kind, key) && !fate.Dies()
    ensures var deleted := Cluster.Step(codec, sys, Cluster.Local(i, del, now, fate));
            && AllAlive(deleted) && |deleted.nodes| == |sys.nodes| && deleted.net == sys.net
            && !HasKey(Memories(deleted)[i], kind, key) && Memories(deleted)[i].lastModified == now
            && (forall j :: 0 <= j < |sys.nodes| && j != i ==> Memories(deleted)[j] == Memories(sys)[j])
  {
  }

  /** If `s` has the key of `item`, then with this very value. */
  ghost predicate Agrees(s: ClusterState, key: string, item: Item) {
    HasKey(s, KindOf(item), key) ==> Holds(s, key, item)
  }

  lemma {:induction false} AgreementKept(nodes: seq<ClusterState>, msg: ClusterState, ds: seq<Delivery>, key: string, item: Item)
    requires Agrees(msg, key, item)
    requires forall i :: 0 <= i < |nodes| ==> Agrees(nodes[i], key, item)
    ensures var after := DeliverAll(nodes, msg, ds);
            |after| == |nodes| && forall i :: 0 <= i < |after| ==> Agrees(after[i], key, item)
    decreases ds
  {
    if ds != [] {
      AgreementKept(Deliver(nodes, msg, ds[0]), msg, ds[1..], key, item);
    }
  }

  /** In particular a resource that h saved and no node holds in another version arrives
      everywhere unchanged. */
  lemma UncontestedItemArrives(nodes: seq<ClusterState>, m: nat, h: nat, clock: int,
                               ds1: seq<Delivery>, ds2: seq<Delivery>, ds3: seq<Delivery>, key: string, item: Item)
    requires m < |nodes| && h < |nodes|
    requires nodes[m].lastModified > nodes[h].lastModified
    requires StampsUpTo(nodes, clock)
    requires ReachesAll(ds1, |nodes|, m) && ReachesAll(ds2, |nodes|, h) && ReachesAll(ds3, |nodes|, m)
    requires Ticks(ds1, clock)
    requires Ticks(ds2, EndClock(ds1, clock))
    requires Ticks(ds3, EndClock(ds2, EndClock(ds1, clock)))
    requires Holds(nodes[h], key, item)
    requires forall i :: 0 <= i < |nodes| ==> Agrees(nodes[i], key, item)
    ensures forall i :: 0 <= i < |nodes| ==> Holds(ThreeRounds(nodes, m, h, ds1, ds2, ds3).2[i], key, item)
  {
    Dissemination(nodes, m, h, clock, ds1, ds2, ds3);
    var (n1, n2, n3) := ThreeRounds(nodes, m, h, ds1, ds2, ds3);
    AgreementKept(nodes, nodes[m], ds1, key, item);
    AgreementKept(n1, n1[h], ds2, key, item);
    AgreementKept(n2, n2[m], ds3, key, item);
    forall i | 0 <= i < |nodes|
      ensures Holds(n3[i], key, item)
    {
      assert HasKey(nodes[h], KindOf(item), key);
      assert HasKey(n3[i], KindOf(item), key);
    }
  }

  /** The third broadcast is needed: after m and h alone a node that merged m's state later
      than h did has ignored h, and misses h's deployment. */
  lemma TwoRoundsAreNotEnough(d: Deployment)
    ensures var key := ResourceKey(d.namespace, d.name);
            var nodes := [EMPTY_STATE.(lastModified := 2),
                          EMPTY_STATE.(deployments := map[key := d], lastModified := 1),
                          EMPTY_STATE];
            var ds1, ds2 := [Delivery(1, 3), Delivery(2, 4)], [Delivery(0, 5), Delivery(2, 6)];
            && ReachesAll(ds1, 3, 0) && ReachesAll(ds2, 3, 1)
            && Ticks(ds1, 2) && Ticks(ds2, 4)
            && key !in ThreeRounds(nodes, 0, 1, ds1, ds2, []).1[2].deployments
  {
    var key := ResourceKey(d.namespace, d.name);
    var nodes := [EMPTY_STATE.(lastModified := 2),
                  EMPTY_STATE.(deployments := map[key := d], lastModified := 1),
                  EMPTY_STATE];
    var ds1, ds2 := [Delivery(1, 3), Delivery(2, 4)], [Delivery(0, 5), Delivery(2, 6)];
    assert ds1[0].node == 1 && ds1[1].node == 2 && ds2[0].node == 0 && ds2[1].node == 2;
    var n1 := DeliverAll(nodes, nodes[0], ds1);
    var a1 := Deliver(nodes, nodes[0], ds1[0]);
    assert ds1[1..] == [ds1[1]];
    OneDelivery(a1, nodes[0], ds1[1]);
    assert n1 == Deliver(a1, nodes[0], ds1[1]);
    var a2 := Deliver(n1, n1[1], ds2[0]);
    assert ds2[1..] == [ds2[1]];
    OneDelivery(a2, n1[1], ds2[1]);
    assert DeliverAll(n1, n1[1], ds2) == Deliver(a2, n1[1], ds2[1]);
  }

  lemma OneDelivery(nodes: seq<ClusterState>, msg: ClusterState, d: Delivery)
    ensures DeliverAll(nodes, msg, [d]) == Deliver(nodes, msg, d)
  {
    assert [d][1..] == [];
  }

  /** The newest modification of an entry need not win: node 0's deployment, saved last, is
      replaced by node 1's older version because node 1's state was touched later still. */
  lemma OlderEntryCanWin(codec: Codec, older: Deployment, newer: Deployment, other: Service, sys: Cluster.System)
    requires ResourceKey(older.namespace, older.name) == ResourceKey(newer.namespace, newer.name)
    requires Cluster.Initial(sys) && |sys.nodes| == 2
    ensures var key := ResourceKey(newer.namespace, newer.name);
            var run := [Cluster.Local(1, SaveDeployment(older), 1, Completes),
                        Cluster.Local(0, SaveDeployment(newer), 2, Completes),
                        Cluster.Local(1, SaveService(other), 3, Completes),
                        Cluster.Broadcast(1),
                        Cluster.Deliver(0, 0, 4, Completes)];
            var end := Cluster.Run(codec, sys, run);
            && |end.nodes| == 2 && end.nodes[0].mem.Some?
            && Holds(end.nodes[0].mem.value, key, DeploymentItem(older))
  {
    var e1, e2 := Cluster.Local(1, SaveDeployment(older), 1, Completes), Cluster.Local(0, SaveDeployment(newer), 2, Completes);
    var e3, e4 := Cluster.Local(1, SaveService(other), 3, Completes), Cluster.Broadcast(1);
    var e5 := Cluster.Deliver(0, 0, 4, Completes);
    assert sys.nodes[0] in sys.nodes && sys.nodes[1] in sys.nodes;
    var s1 := Cluster.Step(codec, sys, e1);
    var s2 := Cluster.Step(codec, s1, e2);
    var s3 := Cluster.Step(codec, s2, e3);
    var s4 := Cluster.Step(codec, s3, e4);
    RunOfOne(codec, sys, e1);
    RunOfOne(codec, s1, e2);
    RunOfOne(codec, s2, e3);
    RunOfOne(codec, s3, e4);
    RunOfOne(codec, s4, e5);
    Cluster.RunConcat(codec, sys, [e1], [e2]);
    Cluster.RunConcat(codec, sys, [e1] + [e2], [e3]);
    Cluster.RunConcat(codec, sys, [e1] + [e2] + [e3], [e4]);
    Cluster.RunConcat(codec, sys, [e1] + [e2] + [e3] + [e4], [e5]);
    assert [e1] + [e2] + [e3] + [e4] + [e5] == [e1, e2, e3, e4, e5];
  }

  lemma RunOfOne(codec: Codec, sys: Cluster.System, e: Cluster.Event)
    ensures Cluster.Run(codec, sys, [e]) == Cluster.Step(codec, sys, e)
  {
    assert [e][..0] == [];
  }

  // ------------------------------------------------- convergence and stability

  /** Two different pods under one key with the same creation time. */
  ghost predicate PodTie(a: map<string, Pod>, b: map<string, Pod>, key: string) {
    key in a && key in b && a[key].createdAt == b[key].createdAt && a[key] != b[key]
  }

  lemma MutualPodMerge(a: map<string, Pod>, b: map<string, Pod>)
    ensures MergePods(a, b) == MergePods(b, MergePods(a, b)) <==> forall key :: !PodTie(a, b, key)
  {
    var a', b' := MergePods(a, b), MergePods(b, MergePods(a, b));
    assert a'.Keys == b'.Keys == a.Keys + b.Keys;
    forall key | key in a'
      ensures a'[key] == b'[key] <==> !PodTie(a, b, key)
    {
    }
  }

  /** When A merges a newer B and B then merges the result, both hold the same resources, and
      the same pods exactly when no two different pods tie on key and creation time. */
  lemma MutualMergeConverges(a: ClusterState, b: ClusterState, ta: int, tb: int)
    requires Newer(b, a) && ta > b.lastModified
    ensures var a' := Merge(a, b, ta);
            var b' := Merge(b, a', tb);
            && a'.deployments == b'.deployments
            && a'.services == b'.services
            && a'.ingresses == b'.ingresses
            && (a'.pods == b'.pods <==> forall key :: !PodTie(a.pods, b.pods, key))
  {
    MutualPodMerge(a.pods, b.pods);
  }

  function Content(s: ClusterState): ClusterState {
    s.(lastModified := 0)
  }

  /** A merge would put an entry of the incoming state under a key that the local one does not
      have, or has with another entry. */
  ghost predicate BringsNews(local: ClusterState, incoming: ClusterState) {
    exists kind, key ::
      && Versions.Takes(local, incoming, kind, key)
      && (HasKey(local, kind, key) ==> Versions.ItemAt(local, kind, key) != Versions.ItemAt(incoming, kind, key))
  }

  lemma ContentChangesIff(local: ClusterState, incoming: ClusterState, now: int)
    ensures Content(Merge(local, incoming, now)) != Content(local) <==> BringsNews(local, incoming)
  {
    var merged := Merge(local, incoming, now);
    if kind, key :|
      && Versions.Takes(local, incoming, kind, key)
      && (HasKey(local, kind, key) ==> Versions.ItemAt(local, kind, key) != Versions.ItemAt(incoming, kind, key))
    {
      Versions.MergedEntry(local, incoming, now, kind, key);
      assert Content(merged) == Content(local) ==> (HasKey(merged, kind, key) <==> HasKey(local, kind, key));
    } else if Newer(incoming, local) {
      forall kind, key | HasKey(incoming, kind, key) && (kind.Pods? ==> PodWins(local.pods, key, incoming.pods[key]))
        ensures HasKey(local, kind, key) && Versions.ItemAt(local, kind, key) == Versions.ItemAt(incoming, kind, key)
      {
        assert Versions.Takes(local, incoming, kind, key);
      }
      SameMaps(local, incoming);
    }
  }

  lemma SameMaps(local: ClusterState, incoming: ClusterState)
    requires forall kind, key :: HasKey(incoming, kind, key) && (kind.Pods? ==> PodWins(local.pods, key, incoming.pods[key])) ==>
               HasKey(local, kind, key) && Versions.ItemAt(local, kind, key) == Versions.ItemAt(incoming, kind, key)
    ensures local.deployments + incoming.deployments == local.deployments
    ensures local.services + incoming.services == local.services
    ensures local.ingresses + incoming.ingresses == local.ingresses
    ensures MergePods(local.pods, incoming.pods) == local.pods
  {
    forall key | key in incoming.deployments
      ensures key in local.deployments && local.deployments[key] == incoming.deployments[key]
    {
      assert HasKey(incoming, Deployments, key);
    }
    forall key | key in incoming.services
      ensures key in local.services && local.services[key] == incoming.services[key]
    {
      assert HasKey(incoming, Services, key);
    }
    forall key | key in incoming.ingresses
      ensures key in local.ingresses && local.ingresses[key] == incoming.ingresses[key]
    {
      assert HasKey(incoming, Ingresses, key);
    }
    forall key | key in incoming.pods
      ensures !PodWins(local.pods, key, incoming.pods[key])
    {
      assert HasKey(incoming, Pods, key);
    }
  }

  ghost predicate ContentIs(n: CrashSafety.Node, c: ClusterState) {
    n.mem.Some? ==> Content(n.mem.value) == c
  }

  /** What the node sees gives it another content: a delivery that it survives and that brings
      it news, or a restart that finds another content. */
  ghost predicate ChangesContent(codec: Codec, n: CrashSafety.Node, seen: Option<CrashSafety.Event>, c: ClusterState) {
    match seen
    case None => false
    case Some(Restart(readFails)) => Content(if readFails then EMPTY_STATE else LoadFrom(codec, n.files)) != c
    case Some(Mutate(m, _, fate)) =>
      m.MergeIn? && n.mem.Some? && !fate.Dies() && BringsNews(n.mem.value, m.incoming)
  }

  lemma ContentNext(codec: Codec, sys: Cluster.System, es: seq<Cluster.Event>, i: nat, c: ClusterState, k: nat)
    requires i < |sys.nodes| && k < |es|
    requires ContentIs(Cluster.NodeAt(codec, sys, es, i, k), c)
    requires !(es[k].Local? && es[k].node == i)
    ensures ContentIs(Cluster.NodeAt(codec, sys, es, i, k + 1), c) <==>
            !ChangesContent(codec, Cluster.NodeAt(codec, sys, es, i, k), Cluster.SeenAt(codec, sys, es, i, k), c)
  {
    Cluster.RunSize(codec, sys, es[..k]);
    Cluster.RunNext(codec, sys, es, k);
    var before := Cluster.Run(codec, sys, es[..k]);
    Cluster.StepAt(codec, before, es[k], i);
    NodeContentStep(codec, before.nodes[i], Cluster.SeenBy(before, es[k], i), c);
  }

  lemma NodeContentStep(codec: Codec, n: CrashSafety.Node, seen: Option<CrashSafety.Event>, c: ClusterState)
    requires ContentIs(n, c)
    requires seen.Some? && seen.value.Mutate? ==> seen.value.m.MergeIn?
    ensures ContentIs(Cluster.StepSeen(codec, n, seen), c) <==> !ChangesContent(codec, n, seen, c)
  {
    if seen.Some? && seen.value.Mutate? && n.mem.Some? {
      ContentChangesIff(n.mem.value, seen.value.m.incoming, seen.value.now);
    }
  }

  /** Over any run in which node i changes nothing itself its content stays, at all times when
      the node is up, exactly when no delivery brings it news and no restart finds another. */
  lemma ContentStaysIff(codec: Codec, sys: Cluster.System, es: seq<Cluster.Event>, i: nat, c: ClusterState)
    requires i < |sys.nodes| && ContentIs(sys.nodes[i], c)
    requires forall e :: e in es ==> !(e.Local? && e.node == i)
    ensures (forall k :: 0 <= k <= |es| ==> ContentIs(Cluster.NodeAt(codec, sys, es, i, k), c)) <==>
            (forall k :: 0 <= k < |es| ==>
               !ChangesContent(codec, Cluster.NodeAt(codec, sys, es, i, k), Cluster.SeenAt(codec, sys, es, i, k), c))
  {
    var holds := seq(|es| + 1, k requires 0 <= k <= |es| => ContentIs(Cluster.NodeAt(codec, sys, es, i, k), c));
    var breaks := seq(|es|, k requires 0 <= k < |es| =>
      ChangesContent(codec, Cluster.NodeAt(codec, sys, es, i, k), Cluster.SeenAt(codec, sys, es, i, k), c));
    assert es[..0] == [] && holds[0];
    forall k | 0 <= k < |es| && holds[k]
      ensures holds[k + 1] <==> !breaks[k]
    {
      assert es[k] in es;
      ContentNext(codec, sys, es, i, c, k);
    }
    Cluster.Unbroken(holds, breaks);
    assert forall k :: 0 <= k <= |es| ==> holds[k] == ContentIs(Cluster.NodeAt(codec, sys, es, i, k), c);
    assert forall k :: 0 <= k < |es| ==>
      breaks[k] == ChangesContent(codec, Cluster.NodeAt(codec, sys, es, i, k), Cluster.SeenAt(codec, sys, es, i, k), c);
  }

  /** All nodes have this content, and every message that may still be delivered has it too or
      is too old for any of them. */
  ghost predicate Settled(nodes: seq<ClusterState>, net: seq<ClusterState>, c: ClusterState) {
    && (forall i :: 0 <= i < |nodes| ==> Content(nodes[i]) == c)
    && (forall s :: s in net ==> Content(s) == c || NoNewer(s, nodes))
  }

  ghost predicate NoNewer(s: ClusterState, nodes: seq<ClusterState>) {
    forall i :: 0 <= i < |nodes| ==> s.lastModified <= nodes[i].lastModified
  }

  lemma MergeOfSameContent(local: ClusterState, incoming: ClusterState, now: int)
    requires Content(incoming) == Content(local)
    ensures Content(Merge(local, incoming, now)) == Content(local)
  {
    assert local.deployments == Content(local).deployments && local.services == Content(local).services;
    assert local.ingresses == Content(local).ingresses && local.pods == Content(local).pods;
    assert incoming.deployments == Content(incoming).deployments && incoming.services == Content(incoming).services;
    assert incoming.ingresses == Content(incoming).ingresses && incoming.pods == Content(incoming).pods;
  }

  lemma SettledDelivery(nodes: seq<ClusterState>, net: seq<ClusterState>, c: ClusterState, msg: nat, d: Delivery, clock: int)
    requires Settled(nodes, net, c) && msg < |net|
    requires StampsUpTo(nodes, clock) && clock < d.now
    ensures var after := Deliver(nodes, net[msg], d);
            Settled(after, net, c) && StampsUpTo(after, d.now)
  {
    var after := Deliver(nodes, net[msg], d);
    assert net[msg] in net;
    if d.node < |nodes| {
      if Content(net[msg]) == c {
        MergeOfSameContent(nodes[d.node], net[msg], d.now);
      }
      assert forall i :: 0 <= i < |nodes| ==> after[i].lastModified >= nodes[i].lastModified;
    }
  }

  lemma SettledStep(codec: Codec, sys: Cluster.System, e: Cluster.Event, c: ClusterState, clock: int)
    requires AllAlive(sys) && Settled(Memories(sys), sys.net, c) && StampsUpTo(Memories(sys), clock)
    requires e.Broadcast? || (e.Deliver? && !e.fate.Dies() && clock < e.now)
    ensures var mid := Cluster.Step(codec, sys, e);
            AllAlive(mid) && Settled(Memories(mid), mid.net, c) && StampsUpTo(Memories(mid), TickOf(e, clock))
  {
    var mid := Cluster.Step(codec, sys, e);
    if e.Deliver? && e.msg < |sys.net| {
      DeliveryInCluster(codec, sys, e);
      SettledDelivery(Memories(sys), sys.net, c, e.msg, Delivery(e.node, e.now), clock);
    } else {
      assert Memories(mid) == Memories(sys);
      if e.Broadcast? && e.node < |sys.nodes| {
        assert mid.net == sys.net + [Memories(sys)[e.node]];
      }
    }
  }

  /** Once all nodes have the same content, no run of broadcasts and deliveries changes it at
      any node again: neither new messages, nor old ones of another content that all nodes have
      passed. The stamps go on to move. */
  lemma {:induction false} EqualContentIsStable(codec: Codec, sys: Cluster.System, es: seq<Cluster.Event>, c: ClusterState, clock: int)
    requires AllAlive(sys) && Settled(Memories(sys), sys.net, c)
    requires StampsUpTo(Memories(sys), clock) && GossipAfter(es, clock)
    ensures var end := Cluster.Run(codec, sys, es);
            AllAlive(end) && Settled(Memories(end), end.net, c)
    decreases |es|
  {
    if es != [] {
      GossipTail(es, clock);
      RunFromFirst(codec, sys, es);
      SettledStep(codec, sys, es[0], c, clock);
      EqualContentIsStable(codec, Cluster.Step(codec, sys, es[0]), es[1..], c, TickOf(es[0], clock));
    }
  }

  /** Without that condition on old messages it fails: two nodes are equal again after a save, a
      broadcast and a delete at the one, until the old broadcast reaches the other. */
  lemma OldMessageBreaksAgreement(codec: Codec, d: Deployment, sys: Cluster.System)
    requires Cluster.Initial(sys) && |sys.nodes| == 2
    ensures var run := [Cluster.Local(0, SaveDeployment(d), 1, Completes),
                        Cluster.Broadcast(0),
                        Cluster.Local(0, DeleteDeployment(d.namespace, d.name), 2, Completes)];
            var equal, end := Cluster.Run(codec, sys, run), Cluster.Run(codec, sys, run + [Cluster.Deliver(0, 1, 3, Completes)]);
            && AllAlive(equal) && AllAlive(end)
            && |equal.nodes| == |end.nodes| == 2
            && Content(Memories(equal)[0]) == Content(Memories(equal)[1])
            && Content(Memories(end)[0]) != Content(Memories(end)[1])
  {
    var e1, e2 := Cluster.Local(0, SaveDeployment(d), 1, Completes), Cluster.Broadcast(0);
    var e3, e4 := Cluster.Local(0, DeleteDeployment(d.namespace, d.name), 2, Completes), Cluster.Deliver(0, 1, 3, Completes);
    RunOfThree(codec, sys, e1, e2, e3);
    Cluster.RunConcat(codec, sys, [e1, e2, e3], [e4]);
    assert sys.nodes[0] in sys.nodes && sys.nodes[1] in sys.nodes;
    SurvivedLocal(codec, sys, 0, e1.m, 1);
    var s1 := Cluster.Step(codec, sys, e1);
    SentBroadcast(codec, s1, 0);
    var s2 := Cluster.Step(codec, s1, e2);
    SurvivedLocal(codec, s2, 0, e3.m, 2);
    var s3 := Cluster.Step(codec, s2, e3);
    assert Memories(s3)[0].deployments == map[];
    RunOfOne(codec, s3, e4);
    DeliveryInCluster(codec, s3, e4);
    var key := ResourceKey(d.namespace, d.name);
    var end := Memories(Cluster.Step(codec, s3, e4));
    assert key in end[1].deployments && key !in end[0].deployments;
  }

  lemma SurvivedLocal(codec: Codec, sys: Cluster.System, i: nat, m: Mutation, now: int)
    requires AllAlive(sys) && i < |sys.nodes| && !m.MergeIn?
    ensures var after := Cluster.Step(codec, sys, Cluster.Local(i, m, now, Completes));
            AllAlive(after) && after.net == sys.net && Memories(after) == Memories(sys)[i := Apply(Memories(sys)[i], m, now)]
  {
  }

  lemma SentBroadcast(codec: Codec, sys: Cluster.System, i: nat)
    requires AllAlive(sys) && i < |sys.nodes|
    ensures Cluster.Step(codec, sys, Cluster.Broadcast(i)) == sys.(net := sys.net + [Memories(sys)[i]])
  {
  }

  lemma RunOfThree(codec: Codec, sys: Cluster.System, e1: Cluster.Event, e2: Cluster.Event, e3: Cluster.Event)
    ensures Cluster.Run(codec, sys, [e1, e2, e3]) == Cluster.Step(codec, Cluster.Step(codec, Cluster.Step(codec, sys, e1), e2), e3)
  {
    RunOfOne(codec, sys, e1);
    RunOfOne(codec, Cluster.Step(codec, sys, e1), e2);
    RunOfOne(codec, Cluster.Step(codec, Cluster.Step(codec, sys, e1), e2), e3);
    Cluster.RunConcat(codec, sys, [e1], [e2]);
    Cluster.RunConcat(codec, sys, [e1] + [e2], [e3]);
    assert [e1] + [e2] + [e3] == [e1, e2, e3];
  }

  ghost predicate StampsDiffer(nodes: seq<ClusterState>) {
    exists i, j :: 0 <= i < |nodes| && 0 <= j < |nodes| && nodes[i].lastModified < nodes[j].lastModified
  }

  /** Some node's broadcast would change some other node. */
  ghost predicate Restless(nodes: seq<ClusterState>, now: int) {
    exists i, j :: 0 <= i < |nodes| && 0 <= j < |nodes| && Merge(nodes[i], nodes[j], now) != nodes[i]
  }

  lemma StampsDifferStep(nodes: seq<ClusterState>, msg: ClusterState, d: Delivery, clock: int)
    requires StampsDiffer(nodes) && StampsUpTo(nodes, clock) && d.now > clock
    ensures var after := Deliver(nodes, msg, d);
            StampsDiffer(after) && StampsUpTo(after, d.now)
  {
    var i, j :| 0 <= i < |nodes| && 0 <= j < |nodes| && nodes[i].lastModified < nodes[j].lastModified;
    var after := Deliver(nodes, msg, d);
    if d.node < |nodes| && Newer(msg, nodes[d.node]) {
      var other := if d.node == i then j else i;
      assert after[other].lastModified < after[d.node].lastModified;
    } else {
      assert after == nodes;
    }
  }

  /** Broadcasts, and deliveries that their receivers survive at times after `clock` that a
      shared clock shows one after the other. */
  ghost predicate GossipAfter(es: seq<Cluster.Event>, clock: int) {
    && (forall a :: 0 <= a < |es| ==> es[a].Broadcast? || (es[a].Deliver? && !es[a].fate.Dies() && clock < es[a].now))
    && (forall a, b :: 0 <= a < b < |es| && es[a].Deliver? && es[b].Deliver? ==> es[a].now < es[b].now)
  }

  /** The stamps never settle: once two of them differ, no run of broadcasts and deliveries,
      in rounds or not, of new messages or of old ones, makes them all equal, and at its end
      there is still a broadcast that would re-stamp some node. */
  lemma {:induction false} StampsNeverSettle(codec: Codec, sys: Cluster.System, es: seq<Cluster.Event>, clock: int, now: int)
    requires AllAlive(sys) && StampsDiffer(Memories(sys)) && StampsUpTo(Memories(sys), clock)
    requires GossipAfter(es, clock)
    requires clock < now && forall e :: e in es && e.Deliver? ==> e.now < now
    ensures var end := Cluster.Run(codec, sys, es);
            AllAlive(end) && StampsDiffer(Memories(end)) && Restless(Memories(end), now)
    decreases |es|
  {
    if es == [] {
      RestlessWhileDifferent(Memories(sys), clock, now);
    } else {
      assert es[0] in es;
      GossipTail(es, clock);
      RunFromFirst(codec, sys, es);
      GossipStep(codec, sys, es[0], clock);
      StampsNeverSettle(codec, Cluster.Step(codec, sys, es[0]), es[1..], TickOf(es[0], clock), now);
    }
  }

  function TickOf(e: Cluster.Event, clock: int): int {
    if e.Deliver? then e.now else clock
  }

  lemma GossipTail(es: seq<Cluster.Event>, clock: int)
    requires es != [] && GossipAfter(es, clock)
    ensures GossipAfter(es[1..], TickOf(es[0], clock))
  {
    assert forall a :: 0 <= a < |es[1..]| ==> es[1..][a] == es[a + 1];
  }

  lemma RunFromFirst(codec: Codec, sys: Cluster.System, es: seq<Cluster.Event>)
    requires es != []
    ensures Cluster.Run(codec, sys, es) == Cluster.Run(codec, Cluster.Step(codec, sys, es[0]), es[1..])
  {
    assert es == [es[0]] + es[1..];
    RunOfOne(codec, sys, es[0]);
    Cluster.RunConcat(codec, sys, [es[0]], es[1..]);
  }

  lemma RestlessWhileDifferent(nodes: seq<ClusterState>, clock: int, now: int)
    requires StampsDiffer(nodes) && StampsUpTo(nodes, clock) && clock < now
    ensures Restless(nodes, now)
  {
    var i, j :| 0 <= i < |nodes| && 0 <= j < |nodes| && nodes[i].lastModified < nodes[j].lastModified;
    assert Merge(nodes[i], nodes[j], now).lastModified == now;
  }

  lemma GossipStep(codec: Codec, sys: Cluster.System, e: Cluster.Event, clock: int)
    requires AllAlive(sys) && StampsDiffer(Memories(sys)) && StampsUpTo(Memories(sys), clock)
    requires e.Broadcast? || (e.Deliver? && !e.fate.Dies() && clock < e.now)
    ensures var mid := Cluster.Step(codec, sys, e);
            && AllAlive(mid) && StampsDiffer(Memories(mid))
            && StampsUpTo(Memories(mid), TickOf(e, clock))
  {
    var mid := Cluster.Step(codec, sys, e);
    if e.Deliver? && e.msg < |sys.net| {
      DeliveryInCluster(codec, sys, e);
      StampsDifferStep(Memories(sys), sys.net[e.msg], Delivery(e.node, e.now), clock);
    } else {
      assert Memories(mid) == Memories(sys);
    }
  }
}
