/** N nodes reach one content: a fixed sequence of fully delivered broadcasts after which all
    nodes hold the same entries, and from which no later message takes them away. */
module Convergence {
  import opened Types
  import opened Storage
  import opened Entries
  import Cluster
  import opened Gossip

  // ------------------------------------------------------ sequences of rounds

  /** A broadcast with its deliveries. */
  datatype Round = Round(sender: nat, ds: seq<Delivery>)

  function AfterRound(nodes: seq<ClusterState>, r: Round): seq<ClusterState> {
    if r.sender < |nodes| then DeliverAll(nodes, nodes[r.sender], r.ds) else nodes
  }

  function AfterRounds(nodes: seq<ClusterState>, rs: seq<Round>): seq<ClusterState>
    decreases |rs|
  {
    if rs == [] then nodes else AfterRounds(AfterRound(nodes, rs[0]), rs[1..])
  }

  function ClockAfter(rs: seq<Round>, clock: int): int
    decreases |rs|
  {
    if rs == [] then clock else ClockAfter(rs[1..], EndClock(rs[0].ds, clock))
  }

  /** The broadcast reaches every other node, after `clock` and one node after the other. */
  ghost predicate Full(r: Round, n: nat, clock: int) {
    r.sender < n && ReachesAll(r.ds, n, r.sender) && Ticks(r.ds, clock)
  }

  /** Full rounds, each after the one before. */
  ghost predicate AllFull(rs: seq<Round>, n: nat, clock: int)
    decreases |rs|
  {
    rs != [] ==> Full(rs[0], n, clock) && AllFull(rs[1..], n, EndClock(rs[0].ds, clock))
  }

  function Senders(rs: seq<Round>): (senders: seq<nat>)
    ensures |senders| == |rs| && forall k :: 0 <= k < |rs| ==> senders[k] == rs[k].sender
  {
    seq(|rs|, k requires 0 <= k < |rs| => rs[k].sender)
  }

  lemma {:induction false} SplitRounds(nodes: seq<ClusterState>, rs: seq<Round>, k: nat, n: nat, clock: int)
    requires k <= |rs|
    ensures AfterRounds(nodes, rs) == AfterRounds(AfterRounds(nodes, rs[..k]), rs[k..])
    ensures ClockAfter(rs, clock) == ClockAfter(rs[k..], ClockAfter(rs[..k], clock))
    ensures AllFull(rs, n, clock) ==> AllFull(rs[..k], n, clock) && AllFull(rs[k..], n, ClockAfter(rs[..k], clock))
    decreases |rs|
  {
    if k == 0 {
      assert rs[..0] == [] && rs[0..] == rs;
    } else {
      SplitRounds(AfterRound(nodes, rs[0]), rs[1..], k - 1, n, EndClock(rs[0].ds, clock));
      assert rs[1..][..k - 1] == rs[..k][1..] && rs[1..][k - 1..] == rs[k..];
    }
  }

  lemma {:induction false} RoundsKeep(nodes: seq<ClusterState>, rs: seq<Round>, clock: int)
    requires AllFull(rs, |nodes|, clock) && StampsUpTo(nodes, clock)
    ensures var after := AfterRounds(nodes, rs);
            && |after| == |nodes| && StampsUpTo(after, ClockAfter(rs, clock)) && clock <= ClockAfter(rs, clock)
            && forall i :: 0 <= i < |nodes| ==> Covers(after[i], nodes[i])
    decreases |rs|
  {
    if rs != [] {
      var r := rs[0];
      var mid, c := AfterRound(nodes, r), EndClock(r.ds, clock);
      RoundIsHeard(nodes, r.sender, r.ds, clock);
      RoundsKeep(mid, rs[1..], c);
      var after := AfterRounds(nodes, rs);
      forall i | 0 <= i < |nodes|
        ensures Covers(after[i], nodes[i])
      {
        assert Heard(nodes[i], mid[i], nodes[r.sender], clock);
        CoversTransitive(after[i], mid[i], nodes[i]);
      }
    }
  }

  // --------------------------------------------------- stamps that stay apart

  ghost predicate Apart(nodes: seq<ClusterState>, x: nat, y: nat) {
    x < |nodes| && y < |nodes| && nodes[x].lastModified != nodes[y].lastModified
  }

  lemma {:induction false} ApartInRound(nodes: seq<ClusterState>, msg: ClusterState, ds: seq<Delivery>, clock: int, x: nat, y: nat)
    requires Apart(nodes, x, y) && StampsUpTo(nodes, clock) && Ticks(ds, clock)
    ensures Apart(DeliverAll(nodes, msg, ds), x, y)
    decreases ds
  {
    if ds != [] {
      var mid := Deliver(nodes, msg, ds[0]);
      assert Ticks(ds[1..], ds[0].now) by {
        assert forall a :: 0 <= a < |ds[1..]| ==> ds[1..][a] == ds[a + 1];
      }
      ApartInRound(mid, msg, ds[1..], ds[0].now, x, y);
    }
  }

  /** Two nodes whose stamps differ never get the same one again: each merge stamps one node
      with a time that no other has. */
  lemma {:induction false} ApartForGood(nodes: seq<ClusterState>, rs: seq<Round>, clock: int, x: nat, y: nat)
    requires AllFull(rs, |nodes|, clock) && StampsUpTo(nodes, clock)
    requires Apart(nodes, x, y)
    ensures Apart(AfterRounds(nodes, rs), x, y)
    decreases |rs|
  {
    if rs != [] {
      var r := rs[0];
      ApartInRound(nodes, nodes[r.sender], r.ds, clock, x, y);
      RoundIsHeard(nodes, r.sender, r.ds, clock);
      ApartForGood(AfterRound(nodes, r), rs[1..], EndClock(r.ds, clock), x, y);
    }
  }

  // ----------------------------------------------------- gathering all entries

  lemma FourRounds(nodes: seq<ClusterState>, rs: seq<Round>, n: nat, clock: int)
    requires |rs| == 4 && AllFull(rs, n, clock)
    ensures var n1, c1 := AfterRound(nodes, rs[0]), EndClock(rs[0].ds, clock);
            && AfterRounds(nodes, rs) == AfterRound(AfterRound(AfterRound(n1, rs[1]), rs[2]), rs[3])
            && Full(rs[0], n, clock) && Full(rs[1], n, c1) && Full(rs[2], n, EndClock(rs[1].ds, c1))
            && Full(rs[3], n, EndClock(rs[2].ds, EndClock(rs[1].ds, c1)))
  {
    var n1, c1 := AfterRound(nodes, rs[0]), EndClock(rs[0].ds, clock);
    var n2, c2 := AfterRound(n1, rs[1]), EndClock(rs[1].ds, c1);
    var n3, c3 := AfterRound(n2, rs[2]), EndClock(rs[2].ds, c2);
    NextRound(nodes, rs, n, clock);
    NextRound(n1, rs[1..], n, c1);
    assert rs[1..][1..] == rs[2..];
    NextRound(n2, rs[2..], n, c2);
    assert rs[2..][1..] == rs[3..];
    NextRound(n3, rs[3..], n, c3);
    assert rs[3..][1..] == [];
  }

  lemma NextRound(nodes: seq<ClusterState>, rs: seq<Round>, n: nat, clock: int)
    requires rs != []
    ensures AfterRounds(nodes, rs) == AfterRounds(AfterRound(nodes, rs[0]), rs[1..])
    ensures AllFull(rs, n, clock) ==> Full(rs[0], n, clock) && AllFull(rs[1..], n, EndClock(rs[0].ds, clock))
  {
  }

  /** Two nodes with different stamps take turns, h first: whichever of them is the newer one,
      all nodes then hold what h held. */
  lemma TurnsSpread(nodes: seq<ClusterState>, h: nat, y: nat, clock: int, rs: seq<Round>)
    requires Senders(rs) == [h, y, h, y]
    requires AllFull(rs, |nodes|, clock) && StampsUpTo(nodes, clock)
    requires Apart(nodes, h, y)
    ensures var after := AfterRounds(nodes, rs);
            |after| == |nodes| && forall i :: 0 <= i < |nodes| ==> Covers(after[i], nodes[h])
  {
    RoundsKeep(nodes, rs, clock);
    FourRounds(nodes, rs, |nodes|, clock);
    var n1, c1 := AfterRound(nodes, rs[0]), EndClock(rs[0].ds, clock);
    assert rs[0].sender == h && rs[1].sender == y && rs[2].sender == h && rs[3].sender == y;
    RoundIsHeard(nodes, h, rs[0].ds, clock);
    assert Heard(nodes[h], n1[h], nodes[h], clock) && Heard(nodes[y], n1[y], nodes[h], clock);
    assert n1[h] == nodes[h] && n1[y].lastModified > n1[h].lastModified;
    Dissemination(n1, y, h, c1, rs[1].ds, rs[2].ds, rs[3].ds);
    assert ThreeRounds(n1, y, h, rs[1].ds, rs[2].ds, rs[3].ds).2 == AfterRounds(nodes, rs);
  }

  function Turns(h: nat, a: nat, b: nat): seq<nat> {
    [h, a, h, a] + [h, b, h, b]
  }

  /** Of two nodes with different stamps, one has another stamp than h: taking turns with both
      spreads what h holds, without anyone looking at a stamp. */
  lemma TurnsWithBoth(nodes: seq<ClusterState>, a: nat, b: nat, h: nat, clock: int, rs: seq<Round>)
    requires Senders(rs) == Turns(h, a, b) && h < |nodes|
    requires AllFull(rs, |nodes|, clock) && StampsUpTo(nodes, clock)
    requires Apart(nodes, a, b)
    ensures var after := AfterRounds(nodes, rs);
            |after| == |nodes| && forall i :: 0 <= i < |nodes| ==> Covers(after[i], nodes[h])
  {
    var first, second := rs[..4], rs[4..];
    SplitRounds(nodes, rs, 4, |nodes|, clock);
    TurnsInHalves(rs, h, a, b);
    RoundsKeep(nodes, first, clock);
    var mid, c := AfterRounds(nodes, first), ClockAfter(first, clock);
    RoundsKeep(mid, second, c);
    var after := AfterRounds(nodes, rs);
    if Apart(nodes, h, a) {
      TurnsSpread(nodes, h, a, clock, first);
      forall i | 0 <= i < |nodes|
        ensures Covers(after[i], nodes[h])
      {
        CoversTransitive(after[i], mid[i], nodes[h]);
      }
    } else {
      ApartForGood(nodes, first, clock, h, b);
      TurnsSpread(mid, h, b, c, second);
      forall i | 0 <= i < |nodes|
        ensures Covers(after[i], nodes[h])
      {
        CoversTransitive(after[i], mid[h], nodes[h]);
      }
    }
  }

  lemma TurnsInHalves(rs: seq<Round>, h: nat, a: nat, b: nat)
    requires Senders(rs) == Turns(h, a, b)
    ensures |rs| == 8 && Senders(rs[..4]) == [h, a, h, a] && Senders(rs[4..]) == [h, b, h, b]
  {
    assert Senders(rs[..4]) == Turns(h, a, b)[..4] == [h, a, h, a];
    assert Senders(rs[4..]) == Turns(h, a, b)[4..] == [h, b, h, b];
  }

  /** The senders' turns for the nodes 0 to k. */
  function Gathering(a: nat, b: nat, k: nat): seq<nat> {
    if k == 0 then [] else Gathering(a, b, k - 1) + Turns(k - 1, a, b)
  }

  lemma {:induction false} AllGather(nodes: seq<ClusterState>, a: nat, b: nat, k: nat, clock: int, rs: seq<Round>)
    requires Senders(rs) == Gathering(a, b, k) && k <= |nodes|
    requires AllFull(rs, |nodes|, clock) && StampsUpTo(nodes, clock)
    requires Apart(nodes, a, b)
    ensures var after := AfterRounds(nodes, rs);
            |after| == |nodes| && forall i, h :: 0 <= i < |nodes| && 0 <= h < k ==> Covers(after[i], nodes[h])
    decreases k
  {
    if k == 0 {
      assert rs == [];
    } else {
      var m := |Gathering(a, b, k - 1)|;
      GatheringInParts(rs, a, b, k);
      SplitRounds(nodes, rs, m, |nodes|, clock);
      AllGather(nodes, a, b, k - 1, clock, rs[..m]);
      GatherOneMore(nodes, a, b, k, clock, rs[..m], rs[m..]);
    }
  }

  lemma GatherOneMore(nodes: seq<ClusterState>, a: nat, b: nat, k: nat, clock: int, init: seq<Round>, last: seq<Round>)
    requires 0 < k <= |nodes| && StampsUpTo(nodes, clock) && Apart(nodes, a, b)
    requires AllFull(init, |nodes|, clock) && AllFull(last, |nodes|, ClockAfter(init, clock))
    requires Senders(last) == Turns(k - 1, a, b)
    requires var mid := AfterRounds(nodes, init);
             |mid| == |nodes| && forall i, h :: 0 <= i < |nodes| && 0 <= h < k - 1 ==> Covers(mid[i], nodes[h])
    ensures var after := AfterRounds(AfterRounds(nodes, init), last);
            |after| == |nodes| && forall i, h :: 0 <= i < |nodes| && 0 <= h < k ==> Covers(after[i], nodes[h])
  {
    var mid, c := AfterRounds(nodes, init), ClockAfter(init, clock);
    RoundsKeep(nodes, init, clock);
    ApartForGood(nodes, init, clock, a, b);
    LastTurns(mid, a, b, k - 1, c, last);
    OneMoreGathered(nodes, mid, AfterRounds(mid, last), k);
  }

  lemma GatheringInParts(rs: seq<Round>, a: nat, b: nat, k: nat)
    requires k > 0 && Senders(rs) == Gathering(a, b, k)
    ensures var m := |Gathering(a, b, k - 1)|;
            m <= |rs| && Senders(rs[..m]) == Gathering(a, b, k - 1) && Senders(rs[m..]) == Turns(k - 1, a, b)
  {
    var m := |Gathering(a, b, k - 1)|;
    assert Senders(rs[..m]) == Gathering(a, b, k)[..m];
    assert Senders(rs[m..]) == Gathering(a, b, k)[m..];
  }

  lemma LastTurns(nodes: seq<ClusterState>, a: nat, b: nat, h: nat, clock: int, rs: seq<Round>)
    requires Senders(rs) == Turns(h, a, b) && h < |nodes|
    requires AllFull(rs, |nodes|, clock) && StampsUpTo(nodes, clock)
    requires Apart(nodes, a, b)
    ensures var after := AfterRounds(nodes, rs);
            |after| == |nodes| && forall i :: 0 <= i < |nodes| ==> Covers(after[i], nodes[i]) && Covers(after[i], nodes[h])
  {
    TurnsWithBoth(nodes, a, b, h, clock, rs);
    RoundsKeep(nodes, rs, clock);
  }

  lemma OneMoreGathered(start: seq<ClusterState>, mid: seq<ClusterState>, after: seq<ClusterState>, k: nat)
    requires |start| == |mid| == |after| && 0 < k <= |start|
    requires forall i :: 0 <= i < |start| ==> Covers(mid[i], start[i]) && Covers(after[i], mid[i]) && Covers(after[i], mid[k - 1])
    requires forall i, h :: 0 <= i < |start| && 0 <= h < k - 1 ==> Covers(mid[i], start[h])
    ensures forall i, h :: 0 <= i < |start| && 0 <= h < k ==> Covers(after[i], start[h])
  {
    forall i, h | 0 <= i < |start| && 0 <= h < k
      ensures Covers(after[i], start[h])
    {
      if h == k - 1 {
        CoversTransitive(after[i], mid[h], start[h]);
      } else {
        CoversTransitive(after[i], mid[i], start[h]);
      }
    }
  }

  /** Nothing else comes in: every entry held was held by some node at the start. */
  ghost predicate From(start: seq<ClusterState>, s: ClusterState) {
    forall key, item :: Holds(s, key, item) ==> exists h :: 0 <= h < |start| && Holds(start[h], key, item)
  }

  ghost predicate AllFrom(start: seq<ClusterState>, nodes: seq<ClusterState>) {
    forall i :: 0 <= i < |nodes| ==> From(start, nodes[i])
  }

  lemma FromMerge(start: seq<ClusterState>, local: ClusterState, incoming: ClusterState, now: int)
    requires From(start, local) && From(start, incoming)
    ensures From(start, Merge(local, incoming, now))
  {
    forall key, item | Holds(Merge(local, incoming, now), key, item)
      ensures exists h :: 0 <= h < |start| && Holds(start[h], key, item)
    {
      assert Holds(local, key, item) || Holds(incoming, key, item);
    }
  }

  lemma {:induction false} FromRound(start: seq<ClusterState>, nodes: seq<ClusterState>, msg: ClusterState, ds: seq<Delivery>)
    requires AllFrom(start, nodes) && From(start, msg)
    ensures AllFrom(start, DeliverAll(nodes, msg, ds))
    decreases ds
  {
    if ds != [] {
      var d := ds[0];
      if d.node < |nodes| {
        FromMerge(start, nodes[d.node], msg, d.now);
      }
      FromRound(start, Deliver(nodes, msg, d), msg, ds[1..]);
    }
  }

  lemma {:induction false} FromRounds(start: seq<ClusterState>, nodes: seq<ClusterState>, rs: seq<Round>)
    requires AllFrom(start, nodes)
    ensures AllFrom(start, AfterRounds(nodes, rs))
    decreases |rs|
  {
    if rs != [] {
      if rs[0].sender < |nodes| {
        FromRound(start, nodes, nodes[rs[0].sender], rs[0].ds);
      }
      FromRounds(start, AfterRound(nodes, rs[0]), rs[1..]);
    }
  }

  ghost predicate SameKeys(s: ClusterState, t: ClusterState) {
    forall kind, key :: HasKey(s, kind, key) <==> HasKey(t, kind, key)
  }

  ghost predicate AllSameKeys(nodes: seq<ClusterState>) {
    forall i, j :: 0 <= i < |nodes| && 0 <= j < |nodes| ==> SameKeys(nodes[i], nodes[j])
  }

  lemma ItemOfKey(s: ClusterState, kind: Kind, key: string)
    requires HasKey(s, kind, key)
    ensures exists item :: Holds(s, key, item) && KindOf(item) == kind
  {
    match kind
    case Deployments => assert Holds(s, key, DeploymentItem(s.deployments[key]));
    case Services => assert Holds(s, key, ServiceItem(s.services[key]));
    case Ingresses => assert Holds(s, key, IngressItem(s.ingresses[key]));
    case Pods => assert Holds(s, key, PodItem(s.pods[key]));
  }

  lemma GatheredKeys(start: seq<ClusterState>, nodes: seq<ClusterState>)
    requires AllFrom(start, nodes)
    requires forall i, h :: 0 <= i < |nodes| && 0 <= h < |start| ==> Covers(nodes[i], start[h])
    ensures AllSameKeys(nodes)
  {
    forall i, j, kind, key | 0 <= i < |nodes| && 0 <= j < |nodes| && HasKey(nodes[i], kind, key)
      ensures HasKey(nodes[j], kind, key)
    {
      ItemOfKey(nodes[i], kind, key);
      var item :| Holds(nodes[i], key, item) && KindOf(item) == kind;
      var h :| 0 <= h < |start| && Holds(start[h], key, item);
      assert HasKey(start[h], kind, key);
      assert Covers(nodes[j], start[h]);
    }
  }

  // --------------------------------------------------------------------- pods

  /** No node holds a younger pod under the key than node i. */
  ghost predicate Youngest(nodes: seq<ClusterState>, i: nat, key: string) {
    && i < |nodes| && key in nodes[i].pods
    && forall h :: 0 <= h < |nodes| && key in nodes[h].pods ==> nodes[h].pods[key].createdAt <= nodes[i].pods[key].createdAt
  }

  /** Two nodes hold different pods under the key that are both the youngest. */
  ghost predicate YoungestTie(nodes: seq<ClusterState>, key: string) {
    exists i, j :: 0 <= i < |nodes| && 0 <= j < |nodes| && Youngest(nodes, i, key) && PodTie(nodes[i].pods, nodes[j].pods, key)
  }

  /** Node i holds this pod, and nothing that is or will be sent is younger. */
  ghost predicate HoldsYoungest(nodes: seq<ClusterState>, i: nat, key: string, pod: Pod) {
    && i < |nodes| && key in nodes[i].pods && nodes[i].pods[key] == pod
    && forall h :: 0 <= h < |nodes| ==> NotYounger(nodes[h], key, pod)
  }

  predicate NotYounger(s: ClusterState, key: string, pod: Pod) {
    key in s.pods ==> s.pods[key].createdAt <= pod.createdAt
  }

  lemma {:induction false} YoungestInRound(nodes: seq<ClusterState>, msg: ClusterState, ds: seq<Delivery>, i: nat, key: string, pod: Pod)
    requires HoldsYoungest(nodes, i, key, pod) && NotYounger(msg, key, pod)
    ensures HoldsYoungest(DeliverAll(nodes, msg, ds), i, key, pod)
    decreases ds
  {
    if ds != [] {
      var mid := Deliver(nodes, msg, ds[0]);
      assert forall h :: 0 <= h < |nodes| ==> NotYounger(mid[h], key, pod);
      YoungestInRound(mid, msg, ds[1..], i, key, pod);
    }
  }

  lemma {:induction false} YoungestKept(nodes: seq<ClusterState>, rs: seq<Round>, i: nat, key: string, pod: Pod)
    requires HoldsYoungest(nodes, i, key, pod)
    ensures HoldsYoungest(AfterRounds(nodes, rs), i, key, pod)
    decreases |rs|
  {
    if rs != [] {
      if rs[0].sender < |nodes| {
        YoungestInRound(nodes, nodes[rs[0].sender], rs[0].ds, i, key, pod);
      }
      YoungestKept(AfterRound(nodes, rs[0]), rs[1..], i, key, pod);
    }
  }

  ghost predicate SamePods(nodes: seq<ClusterState>) {
    forall i, j :: 0 <= i < |nodes| && 0 <= j < |nodes| ==> nodes[i].pods == nodes[j].pods
  }

  /** What the nodes hold when every one has all that any of them held at the start. */
  ghost predicate Gathered(start: seq<ClusterState>, nodes: seq<ClusterState>) {
    && |nodes| == |start|
    && AllFrom(start, nodes)
    && forall i, h :: 0 <= i < |nodes| && 0 <= h < |start| ==> Covers(nodes[i], start[h])
  }

  /** Of a gathered pod no start node holds a younger version, and some holds this one. */
  lemma GatheredPod(start: seq<ClusterState>, nodes: seq<ClusterState>, i: nat, key: string) returns (h: nat)
    requires Gathered(start, nodes) && i < |nodes| && key in nodes[i].pods
    ensures Youngest(start, h, key) && start[h].pods[key] == nodes[i].pods[key]
  {
    assert Holds(nodes[i], key, PodItem(nodes[i].pods[key]));
    h :| 0 <= h < |start| && Holds(start[h], key, PodItem(nodes[i].pods[key]));
    forall j | 0 <= j < |start| && key in start[j].pods
      ensures start[j].pods[key].createdAt <= start[h].pods[key].createdAt
    {
      assert Covers(nodes[i], start[j]);
    }
  }

  lemma GatheredPodsAgree(start: seq<ClusterState>, nodes: seq<ClusterState>)
    requires Gathered(start, nodes)
    requires forall key :: !YoungestTie(start, key)
    ensures SamePods(nodes)
  {
    GatheredKeys(start, nodes);
    forall i, j | 0 <= i < |nodes| && 0 <= j < |nodes|
      ensures nodes[i].pods == nodes[j].pods
    {
      assert forall key :: key in nodes[i].pods <==> HasKey(nodes[i], Pods, key);
      assert forall key :: key in nodes[j].pods <==> HasKey(nodes[j], Pods, key);
      forall key | key in nodes[i].pods
        ensures key in nodes[j].pods && nodes[i].pods[key] == nodes[j].pods[key]
      {
        assert HasKey(nodes[i], Pods, key) && SameKeys(nodes[i], nodes[j]);
        var h := GatheredPod(start, nodes, i, key);
        var g := GatheredPod(start, nodes, j, key);
        assert !YoungestTie(start, key);
        assert !PodTie(start[h].pods, start[g].pods, key);
      }
    }
  }

  /** Two nodes that tie keep their pods whatever is sent. */
  lemma TieStays(start: seq<ClusterState>, rs: seq<Round>, key: string)
    requires YoungestTie(start, key)
    ensures !SamePods(AfterRounds(start, rs))
  {
    var i, j :| 0 <= i < |start| && 0 <= j < |start| && Youngest(start, i, key) && PodTie(start[i].pods, start[j].pods, key);
    YoungestKept(start, rs, i, key, start[i].pods[key]);
    YoungestKept(start, rs, j, key, start[j].pods[key]);
  }

  // ------------------------------------------------------------- one version

  /** The same deployments, services and ingresses. */
  predicate SameResources(s: ClusterState, t: ClusterState) {
    s.deployments == t.deployments && s.services == t.services && s.ingresses == t.ingresses
  }

  lemma OverlaySameKeys(local: ClusterState, incoming: ClusterState, now: int)
    requires SameKeys(local, incoming)
    ensures SameKeys(Merge(local, incoming, now), local)
    ensures Newer(incoming, local) ==> SameResources(Merge(local, incoming, now), incoming)
  {
    KeySets(local, incoming);
    var merged := Merge(local, incoming, now);
    assert merged.deployments.Keys == local.deployments.Keys && merged.services.Keys == local.services.Keys;
    assert merged.ingresses.Keys == local.ingresses.Keys && merged.pods.Keys == local.pods.Keys;
    SameKeySets(merged, local);
    OverlayReplaces(local.deployments, incoming.deployments);
    OverlayReplaces(local.services, incoming.services);
    OverlayReplaces(local.ingresses, incoming.ingresses);
  }

  lemma KeySets(s: ClusterState, t: ClusterState)
    requires SameKeys(s, t)
    ensures s.deployments.Keys == t.deployments.Keys && s.services.Keys == t.services.Keys
    ensures s.ingresses.Keys == t.ingresses.Keys && s.pods.Keys == t.pods.Keys
  {
    assert forall key :: HasKey(s, Deployments, key) <==> HasKey(t, Deployments, key);
    assert forall key :: HasKey(s, Services, key) <==> HasKey(t, Services, key);
    assert forall key :: HasKey(s, Ingresses, key) <==> HasKey(t, Ingresses, key);
    assert forall key :: HasKey(s, Pods, key) <==> HasKey(t, Pods, key);
    assert forall key :: key in s.deployments.Keys <==> HasKey(s, Deployments, key);
    assert forall key :: key in s.services.Keys <==> HasKey(s, Services, key);
    assert forall key :: key in s.ingresses.Keys <==> HasKey(s, Ingresses, key);
    assert forall key :: key in s.pods.Keys <==> HasKey(s, Pods, key);
  }

  lemma SameKeySets(s: ClusterState, t: ClusterState)
    requires s.deployments.Keys == t.deployments.Keys && s.services.Keys == t.services.Keys
    requires s.ingresses.Keys == t.ingresses.Keys && s.pods.Keys == t.pods.Keys
    ensures SameKeys(s, t)
  {
    forall kind, key
      ensures HasKey(s, kind, key) <==> HasKey(t, kind, key)
    {
      match kind
      case Deployments => assert key in s.deployments.Keys <==> key in t.deployments.Keys;
      case Services => assert key in s.services.Keys <==> key in t.services.Keys;
      case Ingresses => assert key in s.ingresses.Keys <==> key in t.ingresses.Keys;
      case Pods => assert key in s.pods.Keys <==> key in t.pods.Keys;
    }
  }

  lemma OverlayReplaces<K, V>(local: map<K, V>, incoming: map<K, V>)
    requires local.Keys == incoming.Keys
    ensures local + incoming == incoming
  {
  }

  /** One full round among nodes with the same keys, for one node. */
  ghost predicate Overwritten(before: ClusterState, after: ClusterState, msg: ClusterState, clock: int) {
    && SameKeys(after, before)
    && (Newer(msg, before) ==> SameResources(after, msg) && after.lastModified > clock)
    && (!Newer(msg, before) ==> after == before)
  }

  lemma RoundOverwrites(nodes: seq<ClusterState>, r: Round, clock: int)
    requires Full(r, |nodes|, clock) && StampsUpTo(nodes, clock) && AllSameKeys(nodes)
    ensures var after := AfterRound(nodes, r);
            && |after| == |nodes| && AllSameKeys(after)
            && StampsUpTo(after, EndClock(r.ds, clock)) && clock <= EndClock(r.ds, clock)
            && forall i :: 0 <= i < |nodes| ==> Overwritten(nodes[i], after[i], nodes[r.sender], clock)
  {
    var msg, after := nodes[r.sender], AfterRound(nodes, r);
    RoundIsOneMergePerNode(nodes, msg, r.ds, clock);
    RoundIsHeard(nodes, r.sender, r.ds, clock);
    forall i | 0 <= i < |nodes|
      ensures Overwritten(nodes[i], after[i], msg, clock)
    {
      assert RoundEffect(nodes[i], after[i], msg, Reached(r.ds, i), clock, EndClock(r.ds, clock));
      if Newer(msg, nodes[i]) {
        var t :| clock < t && after[i] == Merge(nodes[i], msg, t);
        OverlaySameKeys(nodes[i], msg, t);
      }
    }
    forall i, j | 0 <= i < |nodes| && 0 <= j < |nodes|
      ensures SameKeys(after[i], after[j])
    {
      assert SameKeys(nodes[i], nodes[j]);
      assert Overwritten(nodes[i], after[i], msg, clock) && Overwritten(nodes[j], after[j], msg, clock);
    }
  }

  /** All nodes hold the resources of `w`, with stamps after `clock`. */
  ghost predicate Won(nodes: seq<ClusterState>, w: ClusterState, clock: int) {
    forall i :: 0 <= i < |nodes| ==> SameResources(nodes[i], w) && nodes[i].lastModified > clock
  }

  /** The newer of two nodes broadcasts, then the older one: all nodes have the newer one's
      version of everything. */
  lemma NewerThenOlder(nodes: seq<ClusterState>, r1: Round, r2: Round, clock: int)
    requires AllSameKeys(nodes) && StampsUpTo(nodes, clock)
    requires Full(r1, |nodes|, clock) && Full(r2, |nodes|, EndClock(r1.ds, clock))
    requires Newer(nodes[r1.sender], nodes[r2.sender])
    ensures var n1 := AfterRound(nodes, r1);
            var n2 := AfterRound(n1, r2);
            && |n1| == |n2| == |nodes| && AllSameKeys(n2)
            && Won(n2, nodes[r1.sender], clock) && SameResources(n1[r2.sender], nodes[r1.sender])
            && StampsUpTo(n2, EndClock(r2.ds, EndClock(r1.ds, clock)))
  {
    var w := nodes[r1.sender];
    var n1 := AfterRound(nodes, r1);
    RoundOverwrites(nodes, r1, clock);
    RoundOverwrites(n1, r2, EndClock(r1.ds, clock));
    var n2 := AfterRound(n1, r2);
    assert Overwritten(nodes[r2.sender], n1[r2.sender], w, clock);
    forall i | 0 <= i < |nodes|
      ensures SameResources(n2[i], w) && n2[i].lastModified > clock
    {
      assert Overwritten(nodes[i], n1[i], w, clock);
      assert Overwritten(n1[i], n2[i], n1[r2.sender], EndClock(r1.ds, clock));
    }
  }

  lemma WonStays(nodes: seq<ClusterState>, w: ClusterState, r: Round, before: int, clock: int)
    requires AllSameKeys(nodes) && StampsUpTo(nodes, clock) && Full(r, |nodes|, clock)
    requires Won(nodes, w, before) && before <= clock
    ensures Won(AfterRound(nodes, r), w, before)
  {
    RoundOverwrites(nodes, r, clock);
    var after := AfterRound(nodes, r);
    forall i | 0 <= i < |after|
      ensures SameResources(after[i], w) && after[i].lastModified > before
    {
      assert Overwritten(nodes[i], after[i], nodes[r.sender], clock);
    }
  }

  /** The state is too old for anyone after `clock`, or has the winning version. */
  predicate OldOrWon(s: ClusterState, w: ClusterState, clock: int) {
    s.lastModified <= clock || SameResources(s, w)
  }

  /** Two nodes with different stamps broadcast in turn: whichever is the newer one, its version
      of everything wins. */
  lemma LastThreeRounds(nodes: seq<ClusterState>, a: nat, b: nat, r1: Round, r2: Round, r3: Round, clock: int)
      returns (w: nat)
    requires AllSameKeys(nodes) && StampsUpTo(nodes, clock) && Apart(nodes, a, b)
    requires r1.sender == a && r2.sender == b && r3.sender == a
    requires var c1 := EndClock(r1.ds, clock);
             Full(r1, |nodes|, clock) && Full(r2, |nodes|, c1) && Full(r3, |nodes|, EndClock(r2.ds, c1))
    ensures w < |nodes|
    ensures var n1 := AfterRound(nodes, r1);
            var n2 := AfterRound(n1, r2);
            var n3 := AfterRound(n2, r3);
            && |n1| == |n2| == |n3| == |nodes| && Won(n3, nodes[w], clock)
            && OldOrWon(nodes[a], nodes[w], clock) && OldOrWon(n1[b], nodes[w], clock) && OldOrWon(n2[a], nodes[w], clock)
  {
    var c1 := EndClock(r1.ds, clock);
    var n1 := AfterRound(nodes, r1);
    RoundOverwrites(nodes, r1, clock);
    if Newer(nodes[a], nodes[b]) {
      w := a;
      NewerThenOlder(nodes, r1, r2, clock);
      RoundOverwrites(n1, r2, c1);
      WonStays(AfterRound(n1, r2), nodes[a], r3, clock, EndClock(r2.ds, c1));
      RoundOverwrites(AfterRound(n1, r2), r3, EndClock(r2.ds, c1));
    } else {
      w := b;
      assert Overwritten(nodes[a], n1[a], nodes[a], clock) && Overwritten(nodes[b], n1[b], nodes[a], clock);
      NewerThenOlder(n1, r2, r3, c1);
      var n2 := AfterRound(n1, r2);
      assert SameResources(n2[a], nodes[b]);
    }
  }

  // ------------------------------------------------------------- the messages

  /** The state that a round sends. */
  function SentFirst(nodes: seq<ClusterState>, r: Round): seq<ClusterState> {
    if r.sender < |nodes| then [nodes[r.sender]] else []
  }

  /** The states that the rounds send. */
  function Sent(nodes: seq<ClusterState>, rs: seq<Round>): seq<ClusterState>
    decreases |rs|
  {
    if rs == [] then [] else SentFirst(nodes, rs[0]) + Sent(AfterRound(nodes, rs[0]), rs[1..])
  }

  lemma {:induction false} SplitSent(nodes: seq<ClusterState>, rs: seq<Round>, k: nat)
    requires k <= |rs|
    ensures Sent(nodes, rs) == Sent(nodes, rs[..k]) + Sent(AfterRounds(nodes, rs[..k]), rs[k..])
    decreases |rs|
  {
    if k == 0 {
      assert rs[..0] == [] && rs[0..] == rs;
    } else {
      var next, init, rest := AfterRound(nodes, rs[0]), rs[..k], rs[k..];
      SplitSent(next, rs[1..], k - 1);
      assert rs[1..][..k - 1] == init[1..] && rs[1..][k - 1..] == rest;
      Reassociate(SentFirst(nodes, rs[0]), Sent(next, init[1..]), Sent(AfterRounds(next, init[1..]), rest));
    }
  }

  lemma Reassociate(x: seq<ClusterState>, y: seq<ClusterState>, z: seq<ClusterState>)
    ensures x + (y + z) == (x + y) + z
  {
  }

  lemma {:induction false} SentUpTo(nodes: seq<ClusterState>, rs: seq<Round>, clock: int)
    requires AllFull(rs, |nodes|, clock) && StampsUpTo(nodes, clock)
    ensures forall s :: s in Sent(nodes, rs) ==> s.lastModified <= ClockAfter(rs, clock)
    decreases |rs|
  {
    if rs != [] {
      RoundsKeep(nodes, rs, clock);
      RoundIsHeard(nodes, rs[0].sender, rs[0].ds, clock);
      RoundsKeep(AfterRound(nodes, rs[0]), rs[1..], EndClock(rs[0].ds, clock));
      SentUpTo(AfterRound(nodes, rs[0]), rs[1..], EndClock(rs[0].ds, clock));
    }
  }

  ghost predicate AllPods(nodes: seq<ClusterState>, pods: map<string, Pod>) {
    forall i :: 0 <= i < |nodes| ==> nodes[i].pods == pods
  }

  lemma {:induction false} PodsStayInRound(nodes: seq<ClusterState>, msg: ClusterState, ds: seq<Delivery>, pods: map<string, Pod>)
    requires AllPods(nodes, pods) && msg.pods == pods
    ensures AllPods(DeliverAll(nodes, msg, ds), pods)
    decreases ds
  {
    if ds != [] {
      assert MergePods(pods, pods) == pods;
      PodsStayInRound(Deliver(nodes, msg, ds[0]), msg, ds[1..], pods);
    }
  }

  lemma {:induction false} PodsStay(nodes: seq<ClusterState>, rs: seq<Round>, pods: map<string, Pod>)
    requires AllPods(nodes, pods)
    ensures AllPods(AfterRounds(nodes, rs), pods)
    ensures forall s :: s in Sent(nodes, rs) ==> s.pods == pods
    decreases |rs|
  {
    if rs != [] {
      if rs[0].sender < |nodes| {
        PodsStayInRound(nodes, nodes[rs[0].sender], rs[0].ds, pods);
      }
      PodsStay(AfterRound(nodes, rs[0]), rs[1..], pods);
    }
  }

  // -------------------------------------------------------------- convergence

  /** Everyone in turn with both a and b, and then these two once more. */
  function Schedule(a: nat, b: nat, n: nat): seq<nat> {
    Gathering(a, b, n) + [a, b, a]
  }

  /** What the last three rounds leave, with what they send. */
  lemma EndOfSchedule(mid: seq<ClusterState>, a: nat, b: nat, clock: int, rs: seq<Round>) returns (w: nat)
    requires Senders(rs) == [a, b, a]
    requires AllSameKeys(mid) && StampsUpTo(mid, clock) && Apart(mid, a, b) && AllFull(rs, |mid|, clock)
    ensures w < |mid| && Won(AfterRounds(mid, rs), mid[w], clock)
    ensures forall s :: s in Sent(mid, rs) ==> OldOrWon(s, mid[w], clock)
  {
    var r1, r2, r3 := rs[0], rs[1], rs[2];
    var n1, c1 := AfterRound(mid, r1), EndClock(r1.ds, clock);
    var n2, c2 := AfterRound(n1, r2), EndClock(r2.ds, c1);
    NextRound(mid, rs, |mid|, clock);
    NextRound(n1, rs[1..], |mid|, c1);
    assert rs[1..][1..] == rs[2..];
    NextRound(n2, rs[2..], |mid|, c2);
    assert rs[2..][1..] == [];
    assert Senders(rs)[0] == a && Senders(rs)[1] == b && Senders(rs)[2] == a;
    w := LastThreeRounds(mid, a, b, r1, r2, r3, clock);
    SentByThree(mid, rs);
  }

  lemma SentByThree(nodes: seq<ClusterState>, rs: seq<Round>)
    requires |rs| == 3
    ensures var n1 := AfterRound(nodes, rs[0]);
            var n2 := AfterRound(n1, rs[1]);
            rs[0].sender < |nodes| && rs[1].sender < |n1| && rs[2].sender < |n2| ==>
              Sent(nodes, rs) == [nodes[rs[0].sender], n1[rs[1].sender], n2[rs[2].sender]]
  {
    var n1 := AfterRound(nodes, rs[0]);
    var n2 := AfterRound(n1, rs[1]);
    assert rs[1..][1..] == rs[2..] && rs[2..][1..] == [];
    assert Sent(n2, rs[2..]) == SentFirst(n2, rs[2]) + [];
    assert Sent(n1, rs[1..]) == SentFirst(n1, rs[1]) + Sent(n2, rs[2..]);
  }

  /** The middle of the schedule: all entries are everywhere, in whatever versions. */
  lemma AfterGathering(nodes: seq<ClusterState>, a: nat, b: nat, clock: int, rs: seq<Round>)
    requires Senders(rs) == Gathering(a, b, |nodes|)
    requires AllFull(rs, |nodes|, clock) && StampsUpTo(nodes, clock) && Apart(nodes, a, b)
    ensures var mid := AfterRounds(nodes, rs);
            Gathered(nodes, mid) && AllSameKeys(mid) && Apart(mid, a, b) && StampsUpTo(mid, ClockAfter(rs, clock))
  {
    AllGather(nodes, a, b, |nodes|, clock, rs);
    AllFromSelf(nodes);
    FromRounds(nodes, nodes, rs);
    GatheredKeys(nodes, AfterRounds(nodes, rs));
    ApartForGood(nodes, rs, clock, a, b);
    RoundsKeep(nodes, rs, clock);
  }

  lemma AllFromSelf(nodes: seq<ClusterState>)
    ensures AllFrom(nodes, nodes)
  {
  }

  lemma GatheredStays(start: seq<ClusterState>, mid: seq<ClusterState>, rs: seq<Round>, clock: int)
    requires Gathered(start, mid) && AllFull(rs, |mid|, clock) && StampsUpTo(mid, clock)
    ensures Gathered(start, AfterRounds(mid, rs))
  {
    FromRounds(start, mid, rs);
    RoundsKeep(mid, rs, clock);
    var after := AfterRounds(mid, rs);
    forall i, h | 0 <= i < |after| && 0 <= h < |start|
      ensures Covers(after[i], start[h])
    {
      CoversTransitive(after[i], mid[i], start[h]);
    }
  }

  ghost predicate SameEverywhere(nodes: seq<ClusterState>) {
    forall i, j :: 0 <= i < |nodes| && 0 <= j < |nodes| ==> SameResources(nodes[i], nodes[j])
  }

  ghost predicate AllAfter(nodes: seq<ClusterState>, clock: int) {
    forall i :: 0 <= i < |nodes| ==> nodes[i].lastModified > clock
  }

  /** The schedule: which rounds, among which nodes, from which time on. */
  ghost predicate FollowsSchedule(nodes: seq<ClusterState>, a: nat, b: nat, clock: int, rs: seq<Round>) {
    && Apart(nodes, a, b) && StampsUpTo(nodes, clock)
    && Senders(rs) == Schedule(a, b, |nodes|) && AllFull(rs, |nodes|, clock)
  }

  /** All nodes converge. Two of them have different stamps; the schedule is run with every
      broadcast fully delivered, in any order within each round. Then all nodes hold the same
      deployments, services and ingresses, and the same pods exactly when no two different
      pods tie as the youngest under one key. */
  lemma AllConverge(nodes: seq<ClusterState>, a: nat, b: nat, clock: int, rs: seq<Round>)
    requires FollowsSchedule(nodes, a, b, clock, rs)
    ensures var end := AfterRounds(nodes, rs);
            && |end| == |nodes| && AllAfter(end, clock) && SameEverywhere(end)
            && (SamePods(end) <==> forall key :: !YoungestTie(nodes, key))
  {
    var m := |Gathering(a, b, |nodes|)|;
    ScheduleInParts(rs, a, b, |nodes|);
    SplitRounds(nodes, rs, m, |nodes|, clock);
    ConvergeInParts(nodes, a, b, clock, rs[..m], rs[m..]);
    PodsAgreeIff(nodes, rs, AfterRounds(nodes, rs));
  }

  lemma ScheduleInParts(rs: seq<Round>, a: nat, b: nat, n: nat)
    requires Senders(rs) == Schedule(a, b, n)
    ensures var m := |Gathering(a, b, n)|;
            m <= |rs| && Senders(rs[..m]) == Gathering(a, b, n) && Senders(rs[m..]) == [a, b, a]
  {
    var m := |Gathering(a, b, n)|;
    assert Senders(rs[..m]) == Schedule(a, b, n)[..m];
    assert Senders(rs[m..]) == Schedule(a, b, n)[m..];
  }

  lemma ConvergeInParts(nodes: seq<ClusterState>, a: nat, b: nat, clock: int, init: seq<Round>, last: seq<Round>)
    requires Senders(init) == Gathering(a, b, |nodes|) && Senders(last) == [a, b, a]
    requires AllFull(init, |nodes|, clock) && AllFull(last, |nodes|, ClockAfter(init, clock))
    requires StampsUpTo(nodes, clock) && Apart(nodes, a, b)
    ensures var end := AfterRounds(AfterRounds(nodes, init), last);
            Gathered(nodes, end) && SameEverywhere(end) && AllAfter(end, clock)
  {
    var mid, c := AfterRounds(nodes, init), ClockAfter(init, clock);
    AfterGathering(nodes, a, b, clock, init);
    GatheredStays(nodes, mid, last, c);
    var w := EndOfSchedule(mid, a, b, c, last);
    ClockGrows(nodes, init, clock);
    WonIsSame(AfterRounds(mid, last), mid[w], c, clock);
  }

  lemma ClockGrows(nodes: seq<ClusterState>, rs: seq<Round>, clock: int)
    requires AllFull(rs, |nodes|, clock) && StampsUpTo(nodes, clock)
    ensures clock <= ClockAfter(rs, clock)
  {
    RoundsKeep(nodes, rs, clock);
  }

  lemma WonIsSame(nodes: seq<ClusterState>, w: ClusterState, c: int, clock: int)
    requires Won(nodes, w, c) && clock <= c
    ensures SameEverywhere(nodes) && AllAfter(nodes, clock)
  {
    forall i, j | 0 <= i < |nodes| && 0 <= j < |nodes|
      ensures SameResources(nodes[i], nodes[j])
    {
      assert SameResources(nodes[i], w) && SameResources(nodes[j], w);
    }
  }

  /** When they agree on pods as well, no message sent until then can part them again. */
  lemma ConvergedIsSettled(nodes: seq<ClusterState>, a: nat, b: nat, clock: int, rs: seq<Round>)
    requires FollowsSchedule(nodes, a, b, clock, rs)
    requires forall key :: !YoungestTie(nodes, key)
    ensures var end := AfterRounds(nodes, rs);
            |end| == |nodes| > 0 && Settled(end, Sent(nodes, rs), Content(end[0]))
  {
    var m := |Gathering(a, b, |nodes|)|;
    ScheduleInParts(rs, a, b, |nodes|);
    SplitRounds(nodes, rs, m, |nodes|, clock);
    SplitSent(nodes, rs, m);
    SettledInParts(nodes, a, b, clock, rs[..m], rs[m..]);
  }

  lemma SettledInParts(nodes: seq<ClusterState>, a: nat, b: nat, clock: int, init: seq<Round>, last: seq<Round>)
    requires Senders(init) == Gathering(a, b, |nodes|) && Senders(last) == [a, b, a]
    requires AllFull(init, |nodes|, clock) && AllFull(last, |nodes|, ClockAfter(init, clock))
    requires StampsUpTo(nodes, clock) && Apart(nodes, a, b)
    requires forall key :: !YoungestTie(nodes, key)
    ensures var mid := AfterRounds(nodes, init);
            var end := AfterRounds(mid, last);
            |end| == |nodes| && Settled(end, Sent(nodes, init) + Sent(mid, last), Content(end[0]))
  {
    var mid, c := AfterRounds(nodes, init), ClockAfter(init, clock);
    AfterGathering(nodes, a, b, clock, init);
    GatheredPodsAgree(nodes, mid);
    GatheredStays(nodes, mid, last, c);
    var w := EndOfSchedule(mid, a, b, c, last);
    SentUpTo(nodes, init, clock);
    SettledAtEnd(nodes, mid, last, init, mid[w], c);
  }

  lemma PodsAgreeIff(start: seq<ClusterState>, rs: seq<Round>, end: seq<ClusterState>)
    requires end == AfterRounds(start, rs) && Gathered(start, end)
    ensures SamePods(end) <==> forall key :: !YoungestTie(start, key)
  {
    if key :| YoungestTie(start, key) {
      TieStays(start, rs, key);
    } else {
      GatheredPodsAgree(start, end);
    }
  }

  lemma SettledAtEnd(nodes: seq<ClusterState>, mid: seq<ClusterState>, last: seq<Round>, init: seq<Round>, w: ClusterState, c: int)
    requires 0 < |mid| && SamePods(mid)
    requires |AfterRounds(mid, last)| == |mid| && Won(AfterRounds(mid, last), w, c)
    requires forall s :: s in Sent(nodes, init) ==> s.lastModified <= c
    requires forall s :: s in Sent(mid, last) ==> OldOrWon(s, w, c)
    ensures var end := AfterRounds(mid, last);
            Settled(end, Sent(nodes, init) + Sent(mid, last), Content(end[0]))
  {
    var end := AfterRounds(mid, last);
    PodsStay(mid, last, mid[0].pods);
    assert SameResources(end[0], w);
    forall i | 0 <= i < |end|
      ensures Content(end[i]) == Content(end[0])
    {
      assert SameResources(end[i], w);
    }
    forall s | s in Sent(nodes, init) + Sent(mid, last)
      ensures Content(s) == Content(end[0]) || NoNewer(s, end)
    {
      if s.lastModified > c {
        assert s in Sent(mid, last) && OldOrWon(s, w, c);
      }
    }
  }

  // ----------------------------------------------------- in the crash model

  /** A broadcast in the cluster, with the deliveries of its message. */
  datatype ClusterRound = ClusterRound(sender: nat, deliveries: seq<Cluster.Event>)

  function EventsOf(crs: seq<ClusterRound>): seq<Cluster.Event> {
    if crs == [] then []
    else [Cluster.Broadcast(crs[0].sender)] + crs[0].deliveries + EventsOf(crs[1..])
  }

  /** The rounds' messages are numbered from `first`, and no delivery kills its receiver. */
  ghost predicate Carried(crs: seq<ClusterRound>, first: nat)
    decreases |crs|
  {
    crs != [] ==> Delivers(crs[0].deliveries, first) && Carried(crs[1..], first + 1)
  }

  function RoundsOf(crs: seq<ClusterRound>, first: nat): seq<Round>
    requires Carried(crs, first)
    decreases |crs|
  {
    if crs == [] then []
    else [Round(crs[0].sender, DeliveriesOf(crs[0].deliveries))] + RoundsOf(crs[1..], first + 1)
  }

  lemma {:induction false} RoundsInCluster(codec: Codec, sys: Cluster.System, crs: seq<ClusterRound>, clock: int)
    requires AllAlive(sys) && Carried(crs, |sys.net|)
    requires AllFull(RoundsOf(crs, |sys.net|), |sys.nodes|, clock)
    ensures var rs := RoundsOf(crs, |sys.net|);
            var end := Cluster.Run(codec, sys, EventsOf(crs));
            && AllAlive(end) && Memories(end) == AfterRounds(Memories(sys), rs)
            && end.net == sys.net + Sent(Memories(sys), rs)
    decreases |crs|
  {
    if crs == [] {
      assert sys.net + [] == sys.net;
    } else {
      var rs := RoundsOf(crs, |sys.net|);
      var r := rs[0];
      var head := [Cluster.Broadcast(crs[0].sender)] + crs[0].deliveries;
      assert rs[1..] == RoundsOf(crs[1..], |sys.net| + 1);
      RoundInCluster(codec, sys, crs[0].sender, crs[0].deliveries);
      var mid := Cluster.Run(codec, sys, head);
      DeliverAllLength(Memories(sys), Memories(sys)[r.sender], r.ds);
      RoundsInCluster(codec, mid, crs[1..], EndClock(r.ds, clock));
      Cluster.RunConcat(codec, sys, head, EventsOf(crs[1..]));
      Reassociate(sys.net, SentFirst(Memories(sys), r), Sent(Memories(mid), rs[1..]));
    }
  }

  /** Convergence for good. After the schedule all nodes have the same content, and no run of
      broadcasts and deliveries changes it at any node, of messages sent before the schedule,
      during it or later: as long as no two different pods tied as the youngest under one key,
      and old messages carry no stamp from the future. */
  lemma ConvergedForGood(codec: Codec, sys: Cluster.System, a: nat, b: nat, clock: int,
                         crs: seq<ClusterRound>, later: seq<Cluster.Event>)
    requires AllAlive(sys) && Carried(crs, |sys.net|)
    requires FollowsSchedule(Memories(sys), a, b, clock, RoundsOf(crs, |sys.net|))
    requires forall s :: s in sys.net ==> s.lastModified <= clock
    requires forall key :: !YoungestTie(Memories(sys), key)
    requires GossipAfter(later, ClockAfter(RoundsOf(crs, |sys.net|), clock))
    ensures var end := Cluster.Run(codec, sys, EventsOf(crs));
            var final := Cluster.Run(codec, end, later);
            && AllAlive(end) && AllAlive(final) && |end.nodes| == |sys.nodes| > 0
            && forall i :: 0 <= i < |final.nodes| ==> Content(Memories(final)[i]) == Content(Memories(end)[0])
  {
    var nodes, rs := Memories(sys), RoundsOf(crs, |sys.net|);
    RoundsInCluster(codec, sys, crs, clock);
    RoundsKeep(nodes, rs, clock);
    AllConverge(nodes, a, b, clock, rs);
    ConvergedIsSettled(nodes, a, b, clock, rs);
    var end := Cluster.Run(codec, sys, EventsOf(crs));
    OldMessagesSettled(Memories(end), sys.net, Sent(nodes, rs), Content(Memories(end)[0]), clock);
    EqualContentIsStable(codec, end, later, Content(Memories(end)[0]), ClockAfter(rs, clock));
  }

  lemma OldMessagesSettled(nodes: seq<ClusterState>, old0: seq<ClusterState>, sent: seq<ClusterState>, c: ClusterState, clock: int)
    requires Settled(nodes, sent, c) && AllAfter(nodes, clock)
    requires forall s :: s in old0 ==> s.lastModified <= clock
    ensures Settled(nodes, old0 + sent, c)
  {
    forall s | s in old0 + sent
      ensures Content(s) == c || NoNewer(s, nodes)
    {
      assert s in old0 || s in sent;
    }
  }

  /** Two different stamps are needed: when all are equal, and no message is newer, nodes hear
      nothing, whatever is broadcast and delivered. */
  lemma {:induction false} EqualStampsAreDeaf(codec: Codec, sys: Cluster.System, es: seq<Cluster.Event>, stamp: int)
    requires forall n :: n in sys.nodes && n.mem.Some? ==> n.mem.value.lastModified == stamp
    requires forall s :: s in sys.net ==> s.lastModified <= stamp
    requires forall e :: e in es ==> e.Broadcast? || e.Deliver?
    ensures var end := Cluster.Run(codec, sys, es);
            end.nodes == sys.nodes && forall s :: s in end.net ==> s.lastModified <= stamp
  {
    if es != [] {
      var k := |es| - 1;
      assert es[k] in es;
      EqualStampsAreDeaf(codec, sys, es[..k], stamp);
      DeafStep(codec, Cluster.Run(codec, sys, es[..k]), es[k], stamp);
    }
  }

  lemma DeafStep(codec: Codec, sys: Cluster.System, e: Cluster.Event, stamp: int)
    requires forall n :: n in sys.nodes && n.mem.Some? ==> n.mem.value.lastModified == stamp
    requires forall s :: s in sys.net ==> s.lastModified <= stamp
    requires e.Broadcast? || e.Deliver?
    ensures var after := Cluster.Step(codec, sys, e);
            after.nodes == sys.nodes && forall s :: s in after.net ==> s.lastModified <= stamp
  {
    if e.node < |sys.nodes| {
      assert sys.nodes[e.node] in sys.nodes;
      if e.Deliver? && e.msg < |sys.net| {
        assert sys.net[e.msg] in sys.net;
      }
    }
  }
}
