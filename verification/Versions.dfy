/** Which version of an entry a node holds: the stamp of a whole state decides, not the time at
    which the entry was modified. */
module Versions {
  import opened Types
  import opened Storage
  import opened Entries
  import CrashSafety
  import opened Cluster

  function ItemAt(s: ClusterState, kind: Kind, key: string): (item: Item)
    requires HasKey(s, kind, key)
    ensures Holds(s, key, item) && KindOf(item) == kind
  {
    match kind
    case Deployments => DeploymentItem(s.deployments[key])
    case Services => ServiceItem(s.services[key])
    case Ingresses => IngressItem(s.ingresses[key])
    case Pods => PodItem(s.pods[key])
  }

  /** What a merge goes by when it puts the incoming entry in place of the local one: the
      stamps of the states and, for pods, their creation times. */
  predicate Takes(local: ClusterState, incoming: ClusterState, kind: Kind, key: string) {
    && Newer(incoming, local)
    && HasKey(incoming, kind, key)
    && (kind.Pods? ==> PodWins(local.pods, key, incoming.pods[key]))
  }

  lemma MergedEntry(local: ClusterState, incoming: ClusterState, now: int, kind: Kind, key: string)
    ensures var merged := Merge(local, incoming, now);
            && (Takes(local, incoming, kind, key) ==>
                  HasKey(merged, kind, key) && ItemAt(merged, kind, key) == ItemAt(incoming, kind, key))
            && (!Takes(local, incoming, kind, key) ==>
                  && (HasKey(merged, kind, key) <==> HasKey(local, kind, key))
                  && (HasKey(local, kind, key) ==> ItemAt(merged, kind, key) == ItemAt(local, kind, key)))
  {
  }

  /** One merge of two different versions, modified at different times: the later one wins
      exactly when the stamps of the two states, which other entries may have moved, and for
      pods the creation times, come in the same order as the modifications. */
  lemma NewestModificationWinsIff(local: ClusterState, incoming: ClusterState, now: int,
                                  kind: Kind, key: string, localTime: int, incomingTime: int)
    requires HasKey(local, kind, key) && HasKey(incoming, kind, key)
    requires ItemAt(local, kind, key) != ItemAt(incoming, kind, key) && localTime != incomingTime
    ensures var later := if incomingTime > localTime then incoming else local;
            var gate := Newer(incoming, local)
                        && (kind.Pods? ==> incoming.pods[key].createdAt > local.pods[key].createdAt);
            Holds(Merge(local, incoming, now), key, ItemAt(later, kind, key)) <==> (gate <==> incomingTime > localTime)
  {
    MergedEntry(local, incoming, now, kind, key);
    assert KindOf(ItemAt(local, kind, key)) == KindOf(ItemAt(incoming, kind, key)) == kind;
  }

  // --------------------------------------------------- the history of one key

  /** When the entry under the key was saved that a node holds in memory and on disk. */
  datatype Dates = Dates(mem: Option<int>, file: Option<int>)

  /** The dates at every node, and those of the entries in the messages. */
  datatype History = History(nodes: seq<Dates>, net: seq<Option<int>>)

  function DateAfter(s: ClusterState, m: Mutation, now: int, date: Option<int>, incoming: Option<int>,
                     kind: Kind, key: string): Option<int> {
    if m.MergeIn? then if Takes(s, m.incoming, kind, key) then incoming else date
    else if SavesUnder(m, kind, key) then Some(now)
    else if Deletes(m, kind, key) then None
    else date
  }

  function NodeDates(n: CrashSafety.Node, d: Dates, seen: Option<CrashSafety.Event>, incoming: Option<int>,
                     kind: Kind, key: string): Dates {
    match seen
    case None => d
    case Some(Restart(readFails)) => d.(mem := if readFails then None else d.file)
    case Some(Mutate(m, now, fate)) =>
      if n.mem.None? || !Persists(n.mem.value, m) then d
      else
        var date := DateAfter(n.mem.value, m, now, d.mem, incoming, kind, key);
        Dates(if fate.Dies() then None else date, if fate.Renames() then date else d.file)
  }

  /** The date of the entry that event e delivers. */
  function IncomingDate(h: History, e: Event): Option<int> {
    if e.Deliver? && e.msg < |h.net| then h.net[e.msg] else None
  }

  function StepHistory(sys: System, h: History, e: Event, kind: Kind, key: string): History {
    var i := e.node;
    if i >= |sys.nodes| || i >= |h.nodes| then h
    else if e.Broadcast? then
      if sys.nodes[i].mem.Some? then h.(net := h.net + [h.nodes[i].mem]) else h
    else
      h.(nodes := h.nodes[i := NodeDates(sys.nodes[i], h.nodes[i], SeenBy(sys, e, i), IncomingDate(h, e), kind, key)])
  }

  function HistoryAfter(codec: Codec, sys: System, es: seq<Event>, kind: Kind, key: string): History {
    if es == [] then History(seq(|sys.nodes|, _ => Dates(None, None)), [])
    else
      var init := es[..|es| - 1];
      StepHistory(Run(codec, sys, init), HistoryAfter(codec, sys, init, kind, key), es[|es| - 1], kind, key)
  }

  ghost predicate SavedAt(es: seq<Event>, key: string, item: Item, time: int) {
    exists j :: 0 <= j < |es| && es[j].Local? && Saves(es[j].m, key, item) && es[j].now == time
  }

  /** The date is that of a save of the very entry that the state holds. */
  ghost predicate Dated(s: ClusterState, date: Option<int>, es: seq<Event>, kind: Kind, key: string) {
    && (HasKey(s, kind, key) <==> date.Some?)
    && (HasKey(s, kind, key) ==> SavedAt(es, key, ItemAt(s, kind, key), date.value))
  }

  ghost predicate DatedNode(codec: Codec, n: CrashSafety.Node, d: Dates, es: seq<Event>, kind: Kind, key: string) {
    && (n.mem.Some? ==> Dated(n.mem.value, d.mem, es, kind, key))
    && (n.mem.None? ==> d.mem.None?)
    && Dated(LoadFrom(codec, n.files), d.file, es, kind, key)
  }

  ghost predicate DatedSystem(codec: Codec, sys: System, h: History, es: seq<Event>, kind: Kind, key: string) {
    && |h.nodes| == |sys.nodes| && |h.net| == |sys.net|
    && (forall i :: 0 <= i < |sys.nodes| ==> DatedNode(codec, sys.nodes[i], h.nodes[i], es, kind, key))
    && (forall j :: 0 <= j < |sys.net| ==> Dated(sys.net[j], h.net[j], es, kind, key))
  }

  lemma DatedLater(s: ClusterState, date: Option<int>, es: seq<Event>, e: Event, kind: Kind, key: string)
    requires Dated(s, date, es, kind, key)
    ensures Dated(s, date, es + [e], kind, key)
  {
    if HasKey(s, kind, key) {
      var j :| 0 <= j < |es| && es[j].Local? && Saves(es[j].m, key, ItemAt(s, kind, key)) && es[j].now == date.value;
      assert (es + [e])[j] == es[j];
    }
  }

  lemma DatedApply(s: ClusterState, m: Mutation, now: int, date: Option<int>, incoming: Option<int>,
                   es: seq<Event>, kind: Kind, key: string)
    requires Dated(s, date, es, kind, key)
    requires m.MergeIn? ==> Dated(m.incoming, incoming, es, kind, key)
    requires !m.MergeIn? ==> exists j :: 0 <= j < |es| && es[j].Local? && es[j].m == m && es[j].now == now
    ensures Dated(Apply(s, m, now), DateAfter(s, m, now, date, incoming, kind, key), es, kind, key)
  {
    var s' := Apply(s, m, now);
    if m.MergeIn? {
      MergedEntry(s, m.incoming, now, kind, key);
    } else if SavesUnder(m, kind, key) {
      var j :| 0 <= j < |es| && es[j].Local? && es[j].m == m && es[j].now == now;
      assert Saves(es[j].m, key, ItemAt(s', kind, key));
    } else {
      OtherEntriesKept(s, m, now, kind, key);
    }
  }

  lemma OtherEntriesKept(s: ClusterState, m: Mutation, now: int, kind: Kind, key: string)
    requires !m.MergeIn? && !SavesUnder(m, kind, key)
    ensures var s' := Apply(s, m, now);
            && (HasKey(s', kind, key) <==> HasKey(s, kind, key) && !Deletes(m, kind, key))
            && (HasKey(s', kind, key) ==> ItemAt(s', kind, key) == ItemAt(s, kind, key))
  {
  }

  lemma DatedNodeStep(codec: Codec, n: CrashSafety.Node, d: Dates, e: CrashSafety.Event, incoming: Option<int>,
                      es: seq<Event>, kind: Kind, key: string)
    requires codec.RoundTrips()
    requires DatedNode(codec, n, d, es, kind, key)
    requires e.Mutate? && e.m.MergeIn? ==> Dated(e.m.incoming, incoming, es, kind, key)
    requires e.Mutate? && !e.m.MergeIn? ==> exists j :: 0 <= j < |es| && es[j].Local? && es[j].m == e.m && es[j].now == e.now
    ensures DatedNode(codec, CrashSafety.Step(codec, n, e), NodeDates(n, d, Some(e), incoming, kind, key), es, kind, key)
  {
    if e.Mutate? && n.mem.Some? && Persists(n.mem.value, e.m) {
      DatedApply(n.mem.value, e.m, e.now, d.mem, incoming, es, kind, key);
      DatedFiles(codec, n.files, Apply(n.mem.value, e.m, e.now), e.fate, es,
                 DateAfter(n.mem.value, e.m, e.now, d.mem, incoming, kind, key), d.file, kind, key);
    }
  }

  lemma DatedFiles(codec: Codec, f: Files, s: ClusterState, fate: PersistFate, es: seq<Event>,
                   date: Option<int>, fileDate: Option<int>, kind: Kind, key: string)
    requires codec.RoundTrips()
    requires Dated(s, date, es, kind, key) && Dated(LoadFrom(codec, f), fileDate, es, kind, key)
    ensures Dated(LoadFrom(codec, PersistFiles(f, codec.encode(s), fate)), if fate.Renames() then date else fileDate, es, kind, key)
  {
    if fate.Renames() {
      assert LoadFrom(codec, PersistFiles(f, codec.encode(s), fate)) == s;
    } else {
      assert PersistFiles(f, codec.encode(s), fate).state == f.state;
    }
  }

  lemma DatedSystemLater(codec: Codec, sys: System, h: History, es: seq<Event>, e: Event, kind: Kind, key: string)
    requires DatedSystem(codec, sys, h, es, kind, key)
    ensures DatedSystem(codec, sys, h, es + [e], kind, key)
  {
    forall i | 0 <= i < |sys.nodes|
      ensures DatedNode(codec, sys.nodes[i], h.nodes[i], es + [e], kind, key)
    {
      var n, d := sys.nodes[i], h.nodes[i];
      assert DatedNode(codec, n, d, es, kind, key);
      DatedLater(LoadFrom(codec, n.files), d.file, es, e, kind, key);
      if n.mem.Some? {
        DatedLater(n.mem.value, d.mem, es, e, kind, key);
      }
    }
    forall j | 0 <= j < |sys.net|
      ensures Dated(sys.net[j], h.net[j], es + [e], kind, key)
    {
      DatedLater(sys.net[j], h.net[j], es, e, kind, key);
    }
  }

  lemma DatedSystemStep(codec: Codec, sys: System, h: History, es: seq<Event>, e: Event, kind: Kind, key: string)
    requires codec.RoundTrips()
    requires es != [] && es[|es| - 1] == e
    requires DatedSystem(codec, sys, h, es, kind, key)
    ensures DatedSystem(codec, Step(codec, sys, e), StepHistory(sys, h, e, kind, key), es, kind, key)
  {
    var i := e.node;
    if i < |sys.nodes| {
      assert DatedNode(codec, sys.nodes[i], h.nodes[i], es, kind, key);
      if SeenBy(sys, e, i).Some? {
        DatedNodeStep(codec, sys.nodes[i], h.nodes[i], SeenBy(sys, e, i).value, IncomingDate(h, e), es, kind, key);
      }
    }
  }

  /** Over every run from the start, the dates are the times at which exactly those entries were
      saved that the nodes hold in memory and on disk and that the messages carry. */
  lemma {:induction false} DatesAreSaveTimes(codec: Codec, sys: System, es: seq<Event>, kind: Kind, key: string)
    requires codec.RoundTrips() && Initial(sys)
    ensures DatedSystem(codec, Run(codec, sys, es), HistoryAfter(codec, sys, es, kind, key), es, kind, key)
  {
    if es != [] {
      var k := |es| - 1;
      var init, e := es[..k], es[k];
      assert es == init + [e];
      DatesAreSaveTimes(codec, sys, init, kind, key);
      var before, h := Run(codec, sys, init), HistoryAfter(codec, sys, init, kind, key);
      DatedSystemLater(codec, before, h, init, e, kind, key);
      DatedSystemStep(codec, before, h, es, e, kind, key);
    }
  }

  // ------------------------------------------------- does the newest one win

  predicate Later(a: Option<int>, b: Option<int>) {
    a.Some? && (b.None? || a.value > b.value)
  }

  function Newest(a: Option<int>, b: Option<int>): Option<int> {
    if Later(b, a) then b else a
  }

  function DateAt(codec: Codec, sys: System, es: seq<Event>, i: nat, kind: Kind, key: string): Option<int> {
    var h := HistoryAfter(codec, sys, es, kind, key);
    if i < |h.nodes| then h.nodes[i].mem else None
  }

  /** The newest date after one more event: a restart starts anew from the date found on disk. */
  function Hear(heard: Option<int>, seen: Option<CrashSafety.Event>, sent: Option<int>, found: Option<int>,
                kind: Kind, key: string): Option<int> {
    match seen
    case None => heard
    case Some(Restart(_)) => found
    case Some(Mutate(m, now, _)) =>
      if m.MergeIn? then Newest(heard, sent)
      else if SavesUnder(m, kind, key) then Newest(heard, Some(now))
      else if Deletes(m, kind, key) then None
      else heard
  }

  /** The date of the newest version of the entry that node i has heard of since it last started
      or deleted the entry itself: found on disk, saved here, or received, whether or not the
      merge then took it. */
  function Heard(codec: Codec, sys: System, es: seq<Event>, i: nat, kind: Kind, key: string): Option<int>
    requires i < |sys.nodes|
  {
    if es == [] then None
    else
      var init := es[..|es| - 1];
      RunSize(codec, sys, es);
      RunSize(codec, sys, init);
      if Run(codec, sys, es).nodes[i].mem.None? then None
      else
        var e := es[|es| - 1];
        var heard := Heard(codec, sys, init, i, kind, key);
        var sent := IncomingDate(HistoryAfter(codec, sys, init, kind, key), e);
        Hear(heard, SeenBy(Run(codec, sys, init), e, i), sent, DateAt(codec, sys, es, i, kind, key), kind, key)
  }

  /** Node i holds the newest version it has heard of. */
  predicate HoldsNewest(codec: Codec, sys: System, es: seq<Event>, i: nat, kind: Kind, key: string)
    requires i < |sys.nodes|
  {
    DateAt(codec, sys, es, i, kind, key) == Heard(codec, sys, es, i, kind, key)
  }

  /** A delivery of another version to node i, which survives it, is taken if and only if the
      version delivered is later than the one held. */
  predicate GateIsRight(before: System, h: History, after: System, e: Event, i: nat, kind: Kind, key: string)
    requires i < |before.nodes| && i < |h.nodes| && i < |after.nodes|
  {
    var seen := SeenBy(before, e, i);
    var held, sent := h.nodes[i].mem, IncomingDate(h, e);
    seen.Some? && seen.value.Mutate? && seen.value.m.MergeIn? && after.nodes[i].mem.Some? && before.nodes[i].mem.Some?
    && sent.Some? && sent != held ==>
      (Takes(before.nodes[i].mem.value, seen.value.m.incoming, kind, key) <==> Later(sent, held))
  }

  lemma {:induction false} HistorySize(codec: Codec, sys: System, es: seq<Event>, kind: Kind, key: string)
    ensures |HistoryAfter(codec, sys, es, kind, key).nodes| == |sys.nodes|
  {
    if es != [] {
      HistorySize(codec, sys, es[..|es| - 1], kind, key);
    }
  }

  predicate GateIsRightAt(codec: Codec, sys: System, es: seq<Event>, k: nat, i: nat, kind: Kind, key: string)
    requires i < |sys.nodes| && k < |es|
  {
    RunSize(codec, sys, es[..k]);
    RunSize(codec, sys, es[..k + 1]);
    HistorySize(codec, sys, es[..k], kind, key);
    GateIsRight(Run(codec, sys, es[..k]), HistoryAfter(codec, sys, es[..k], kind, key), Run(codec, sys, es[..k + 1]), es[k],
                i, kind, key)
  }

  /** A shared clock that ticks between any two calls of a Save or Delete method. */
  ghost predicate SharedClock(es: seq<Event>) {
    forall a, b :: 0 <= a < b < |es| && es[a].Local? && es[b].Local? ==> es[a].now < es[b].now
  }

  /** One step of a node that lives through it: it still holds the newest version heard of
      exactly when the gate was right. */
  lemma NodeHoldsNewest(codec: Codec, n: CrashSafety.Node, d: Dates, seen: Option<CrashSafety.Event>, sent: Option<int>,
                        kind: Kind, key: string)
    requires StepSeen(codec, n, seen).mem.Some?
    requires seen.Some? && seen.value.Mutate? && seen.value.m.MergeIn? ==> (sent.Some? <==> HasKey(seen.value.m.incoming, kind, key))
    requires seen.Some? && seen.value.Mutate? && !seen.value.m.MergeIn? && d.mem.Some? ==> d.mem.value < seen.value.now
    ensures var held := NodeDates(n, d, seen, sent, kind, key).mem;
            held == Hear(d.mem, seen, sent, held, kind, key) <==>
            (seen.Some? && seen.value.Mutate? && seen.value.m.MergeIn? && sent.Some? && sent != d.mem ==>
               (Takes(n.mem.value, seen.value.m.incoming, kind, key) <==> Later(sent, d.mem)))
  {
  }

  lemma DatesBelow(s: ClusterState, date: Option<int>, es: seq<Event>, e: Event, kind: Kind, key: string)
    requires Dated(s, date, es, kind, key) && SharedClock(es + [e]) && e.Local?
    ensures date.Some? ==> date.value < e.now
  {
    if date.Some? {
      var j :| 0 <= j < |es| && es[j].Local? && Saves(es[j].m, key, ItemAt(s, kind, key)) && es[j].now == date.value;
      var all := es + [e];
      assert all[j] == es[j] && all[|es|] == e;
    }
  }

  lemma HoldsNewestStep(codec: Codec, sys: System, init: seq<Event>, e: Event, i: nat, kind: Kind, key: string)
    requires codec.RoundTrips() && Initial(sys) && i < |sys.nodes|
    requires SharedClock(init + [e])
    requires HoldsNewest(codec, sys, init, i, kind, key)
    ensures HoldsNewest(codec, sys, init + [e], i, kind, key) <==> GateIsRightAt(codec, sys, init + [e], |init|, i, kind, key)
  {
    var es := init + [e];
    assert es[..|init|] == init && es[..|es|] == es;
    var before, h := Run(codec, sys, init), HistoryAfter(codec, sys, init, kind, key);
    RunSize(codec, sys, init);
    RunSize(codec, sys, es);
    HistorySize(codec, sys, init, kind, key);
    DatesAreSaveTimes(codec, sys, init, kind, key);
    StepAt(codec, before, e, i);
    var n, d := before.nodes[i], h.nodes[i];
    assert DatedNode(codec, n, d, init, kind, key);
    StepHistoryAt(before, h, e, i, kind, key);
    if Run(codec, sys, es).nodes[i].mem.None? {
      DeadHoldsNothing(codec, sys, es, i, kind, key);
    } else {
      if e.Local? && n.mem.Some? {
        DatesBelow(n.mem.value, d.mem, init, e, kind, key);
      }
      NodeHoldsNewest(codec, n, d, SeenBy(before, e, i), IncomingDate(h, e), kind, key);
    }
  }

  lemma DeadHoldsNothing(codec: Codec, sys: System, es: seq<Event>, i: nat, kind: Kind, key: string)
    requires codec.RoundTrips() && Initial(sys) && i < |sys.nodes|
    requires i < |Run(codec, sys, es).nodes| && Run(codec, sys, es).nodes[i].mem.None?
    ensures DateAt(codec, sys, es, i, kind, key) == None == Heard(codec, sys, es, i, kind, key)
  {
    DatesAreSaveTimes(codec, sys, es, kind, key);
    assert DatedNode(codec, Run(codec, sys, es).nodes[i], HistoryAfter(codec, sys, es, kind, key).nodes[i], es, kind, key);
  }

  lemma StepHistoryAt(sys: System, h: History, e: Event, i: nat, kind: Kind, key: string)
    requires i < |sys.nodes| && |h.nodes| == |sys.nodes|
    ensures StepHistory(sys, h, e, kind, key).nodes[i] == NodeDates(sys.nodes[i], h.nodes[i], SeenBy(sys, e, i), IncomingDate(h, e), kind, key)
  {
  }

  /** The newest modification wins throughout a run, at a given node and for a given entry,
      exactly when at every delivery the stamps, and for pods the creation times, come in the
      order of the modifications. Nothing else can go wrong: not lost, repeated or reordered
      messages, not crashes, not what the other nodes do. */
  lemma NewestWinsIff(codec: Codec, sys: System, es: seq<Event>, i: nat, kind: Kind, key: string)
    requires codec.RoundTrips() && Initial(sys) && i < |sys.nodes|
    requires SharedClock(es)
    ensures (forall k :: 0 <= k <= |es| ==> HoldsNewest(codec, sys, es[..k], i, kind, key)) <==>
            (forall k :: 0 <= k < |es| ==> GateIsRightAt(codec, sys, es, k, i, kind, key))
  {
    var holds := seq(|es| + 1, k requires 0 <= k <= |es| => HoldsNewest(codec, sys, es[..k], i, kind, key));
    var breaks := seq(|es|, k requires 0 <= k < |es| => !GateIsRightAt(codec, sys, es, k, i, kind, key));
    assert es[..0] == [];
    forall k | 0 <= k < |es| && holds[k]
      ensures holds[k + 1] <==> !breaks[k]
    {
      var init, e := es[..k], es[k];
      assert es[..k + 1] == init + [e];
      forall a, b | 0 <= a < b <= k && es[a].Local? && es[b].Local?
        ensures (init + [e])[a].now < (init + [e])[b].now
      {
      }
      HoldsNewestStep(codec, sys, init, e, i, kind, key);
      assert (init + [e])[..k] == es[..k] && (init + [e])[..k + 1] == es[..k + 1];
    }
    Unbroken(holds, breaks);
    assert forall k :: 0 <= k <= |es| ==> holds[k] == HoldsNewest(codec, sys, es[..k], i, kind, key);
    assert forall k :: 0 <= k < |es| ==> breaks[k] == !GateIsRightAt(codec, sys, es, k, i, kind, key);
  }

  /** What holding the newest means: the entry in memory is the one that was saved at that
      time. */
  lemma NewestIsHeld(codec: Codec, sys: System, es: seq<Event>, i: nat, kind: Kind, key: string)
    requires codec.RoundTrips() && Initial(sys) && i < |sys.nodes|
    requires HoldsNewest(codec, sys, es, i, kind, key)
    requires Heard(codec, sys, es, i, kind, key).Some?
    ensures Alive(Run(codec, sys, es), i) && HasKey(Run(codec, sys, es).nodes[i].mem.value, kind, key)
    ensures SavedAt(es, key, ItemAt(Run(codec, sys, es).nodes[i].mem.value, kind, key), Heard(codec, sys, es, i, kind, key).value)
  {
    RunSize(codec, sys, es);
    DatesAreSaveTimes(codec, sys, es, kind, key);
    assert DatedNode(codec, Run(codec, sys, es).nodes[i], HistoryAfter(codec, sys, es, kind, key).nodes[i], es, kind, key);
  }
}
