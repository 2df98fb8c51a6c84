/** Whole runs of the registry: it refines a plain map on triples, replicas agree, and the
    health sweep cannot be observed. */
module RegistryRuns {
  import opened Types
  import opened Strings
  import opened Naming
  import opened Registry

  /** What changes a registry: its own registrations (of a pod for a service, with the node
      addresses known at the time) and deregistrations, updates received
      from peers, and ticks of the sweep, each with the local time. */
  datatype Op =
    | Register(service: Service, registered: Pod, nodes: map<string, string>, at: int)
    | Deregister(namespace: string, name: string, pod: string, at: int)
    | Receipt(update: Update, at: int)
    | SweepTick(at: int)

  function StepTable(t: Table, op: Op): Table {
    match op
    case Register(service, pod, nodes, at) =>
      var e := NewEndpoint(service, pod, nodes, at);
      Put(t, e)
    case Deregister(namespace, service, pod, _) =>
      DropExisting(t, ServiceKey(service, namespace), EndpointID(namespace, service, pod))
    case Receipt(u, at) => Receive(t, u, at)
    case SweepTick(at) => Sweep(t, at)
  }

  function RunTable(t: Table, ops: seq<Op>): Table {
    if ops == [] then t else StepTable(RunTable(t, ops[..|ops| - 1]), ops[|ops| - 1])
  }

  // ------------------------------------------------- refinement to a flat map

  datatype Triple = Triple(namespace: string, service: string, pod: string)

  type Flat = map<Triple, Endpoint>

  function TripleOf(e: Endpoint): Triple {
    Triple(e.namespace, e.serviceName, e.podID)
  }

  function StepFlat(f: Flat, op: Op): Flat {
    match op
    case Register(service, pod, nodes, at) =>
      var e := NewEndpoint(service, pod, nodes, at);
      f[TripleOf(e) := e]
    case Deregister(namespace, service, pod, _) => f - {Triple(namespace, service, pod)}
    case Receipt(u, at) =>
      var e := u.endpoint.(lastSeen := at);
      if u.action == "register" then f[TripleOf(e) := e]
      else if u.action == "deregister" then f - {TripleOf(e)}
      else f
    case SweepTick(at) =>
      map tr | tr in f :: if Stale(f[tr], at) then f[tr].(healthy := false) else f[tr]
  }

  function RunFlat(f: Flat, ops: seq<Op>): Flat {
    if ops == [] then f else StepFlat(RunFlat(f, ops[..|ops| - 1]), ops[|ops| - 1])
  }

  /** The table is a faithful image of the flat map: no inner map is empty, every endpoint is
      filed under its own two keys, and the two hold the same endpoints. */
  ghost predicate Faithful(t: Table, f: Flat) {
    && NoEmptyInner(t)
    && (forall key, id :: At(t, key, id).Some? ==> FiledRight(f, key, id, At(t, key, id).value))
    && (forall tr :: tr in f ==>
          TripleOf(f[tr]) == tr && DotFree(tr.namespace) && At(t, KeyOf(f[tr]), IdOf(f[tr])) == Some(f[tr]))
  }

  predicate FiledRight(f: Flat, key: string, id: string, e: Endpoint) {
    key == KeyOf(e) && id == IdOf(e) && TripleOf(e) in f && f[TripleOf(e)] == e
  }

  /** With dot-free namespaces no two triples are filed in one place. */
  lemma PlacesDoNotCollide(a: Triple, b: Triple)
    requires DotFree(a.namespace) && DotFree(b.namespace)
    requires ServiceKey(a.service, a.namespace) == ServiceKey(b.service, b.namespace)
    ensures a.service == b.service && a.namespace == b.namespace
    ensures EndpointID(a.namespace, a.service, a.pod) == EndpointID(b.namespace, b.service, b.pod) <==> a == b
  {
    var key := ServiceKey(a.service, a.namespace);
    ParseLabelsIff(key, a.service, a.namespace);
    ParseLabelsIff(key, b.service, b.namespace);
    var prefix := a.namespace + "-" + a.service + "-";
    assert EndpointID(a.namespace, a.service, a.pod)[|prefix|..] == a.pod;
    assert EndpointID(b.namespace, b.service, b.pod)[|prefix|..] == b.pod;
  }

  /** A dotted namespace always shares its service keys with a dot-free one, so that a reader
      of the one service is given the endpoints of the other. */
  lemma DottedNamespaceCollides(service: string, namespace: string)
    requires !DotFree(namespace)
    ensures exists s, n :: DotFree(n) && (s, n) != (service, namespace) && ServiceKey(s, n) == ServiceKey(service, namespace)
  {
    var key := ServiceKey(service, namespace);
    ParseLabelsIff(key, service, namespace);
    assert key[|service|] == '.';
    var name := ParseLabels(key).value;
    ParseLabelsIff(key, name.service, name.namespace);
  }

  predicate DotFreeOp(op: Op) {
    match op
    case Register(service, _, _, _) => DotFree(service.namespace)
    case Deregister(namespace, _, _, _) => DotFree(namespace)
    case Receipt(u, _) => DotFree(u.endpoint.namespace)
    case SweepTick(_) => true
  }

  lemma FaithfulPut(t: Table, f: Flat, e: Endpoint)
    requires Faithful(t, f) && DotFree(e.namespace)
    ensures Faithful(Put(t, e), f[TripleOf(e) := e])
  {
    PutAt(t, e);
    forall tr | tr in f && KeyOf(f[tr]) == KeyOf(e) && IdOf(f[tr]) == IdOf(e)
      ensures tr == TripleOf(e)
    {
      PlacesDoNotCollide(tr, TripleOf(e));
    }
  }

  lemma FaithfulDrop(t: Table, f: Flat, tr: Triple)
    requires Faithful(t, f) && DotFree(tr.namespace)
    ensures var key, id := ServiceKey(tr.service, tr.namespace), EndpointID(tr.namespace, tr.service, tr.pod);
            Faithful(Drop(t, key, id), f - {tr}) && DropExisting(t, key, id) == Drop(t, key, id)
  {
    var key, id := ServiceKey(tr.service, tr.namespace), EndpointID(tr.namespace, tr.service, tr.pod);
    DropAt(t, key, id);
    forall x | x in f && KeyOf(f[x]) == key && IdOf(f[x]) == id
      ensures x == tr
    {
      PlacesDoNotCollide(x, tr);
    }
  }

  lemma FaithfulSweep(t: Table, f: Flat, at: int)
    requires Faithful(t, f)
    ensures Faithful(Sweep(t, at), StepFlat(f, SweepTick(at)))
  {
    SweepAt(t, at);
    var t', f' := Sweep(t, at), StepFlat(f, SweepTick(at));
    forall key, id | At(t', key, id).Some?
      ensures FiledRight(f', key, id, At(t', key, id).value)
    {
      assert FiledRight(f, key, id, At(t, key, id).value);
    }
  }

  /** Refinement over all runs with dot-free namespaces. */
  lemma {:induction false} TableRefinesFlat(ops: seq<Op>)
    requires forall op :: op in ops ==> DotFreeOp(op)
    ensures Faithful(RunTable(map[], ops), RunFlat(map[], ops))
  {
    if ops != [] {
      var k := |ops| - 1;
      TableRefinesFlat(ops[..k]);
      var t, f := RunTable(map[], ops[..k]), RunFlat(map[], ops[..k]);
      assert DotFreeOp(ops[k]);
      match ops[k]
      case Register(service, pod, nodes, at) =>
        var e := NewEndpoint(service, pod, nodes, at);
        FaithfulPut(t, f, e);
      case Deregister(namespace, service, pod, _) => FaithfulDrop(t, f, Triple(namespace, service, pod));
      case Receipt(u, at) =>
        FaithfulPut(t, f, u.endpoint.(lastSeen := at));
        FaithfulDrop(t, f, TripleOf(u.endpoint.(lastSeen := at)));
      case SweepTick(at) => FaithfulSweep(t, f, at);
    }
  }

  lemma {:induction false} InLiveInOrder(m: map<string, Endpoint>, order: seq<string>, now: int, e: Endpoint)
    ensures e in LiveInOrder(m, order, now) <==> exists id :: id in order && id in m && m[id] == e && Live(e, now)
  {
    if order != [] {
      var k := |order| - 1;
      InLiveInOrder(m, order[..k], now, e);
      assert order == order[..k] + [order[k]];
    }
  }

  /** A lookup for a service in a dot-free namespace returns exactly the live endpoints that
      the flat map holds for that service, and errs exactly when it holds none at all. */
  lemma LookupIsExact(t: Table, f: Flat, service: string, namespace: string, order: seq<string>, now: int)
    requires Faithful(t, f) && DotFree(namespace)
    requires var key := ServiceKey(service, namespace); key in t ==> forall id :: id in t[key] ==> id in order
    ensures var key := ServiceKey(service, namespace);
            && (key in t <==> exists tr :: tr in f && tr.namespace == namespace && tr.service == service)
            && (key in t ==> forall e ::
                  e in LiveInOrder(t[key], order, now) <==>
                  TripleOf(e) in f && f[TripleOf(e)] == e && e.namespace == namespace && e.serviceName == service && Live(e, now))
  {
    var key := ServiceKey(service, namespace);
    forall tr | tr in f
      ensures KeyOf(f[tr]) == key <==> tr.namespace == namespace && tr.service == service
    {
      if KeyOf(f[tr]) == key {
        PlacesDoNotCollide(tr, Triple(namespace, service, ""));
      }
    }
    KeysByEntries(t, key);
    if key in t {
      var id :| At(t, key, id).Some?;
      assert FiledRight(f, key, id, At(t, key, id).value);
    }
    if tr :| tr in f && tr.namespace == namespace && tr.service == service {
      assert At(t, key, IdOf(f[tr])).Some?;
    }
    if key in t {
      forall e
        ensures e in LiveInOrder(t[key], order, now) <==>
                TripleOf(e) in f && f[TripleOf(e)] == e && e.namespace == namespace && e.serviceName == service && Live(e, now)
      {
        InLiveInOrder(t[key], order, now, e);
        if id' :| id' in order && id' in t[key] && t[key][id'] == e && Live(e, now) {
          assert At(t, key, id') == Some(e);
        }
        if TripleOf(e) in f && f[TripleOf(e)] == e && e.namespace == namespace && e.serviceName == service && Live(e, now) {
          assert At(t, key, IdOf(e)) == Some(e);
          assert IdOf(e) in order && t[key][IdOf(e)] == e;
        }
      }
    }
  }

  /** An iteration that visits every entry once returns no endpoint twice. */
  lemma {:induction false} LookupHasNoDuplicates(t: Table, f: Flat, key: string, order: seq<string>, now: int)
    requires Faithful(t, f) && key in t
    requires forall i, j :: 0 <= i < j < |order| ==> order[i] != order[j]
    ensures var found := LiveInOrder(t[key], order, now);
            forall i, j :: 0 <= i < j < |found| ==> found[i] != found[j]
  {
    if order != [] {
      var k := |order| - 1;
      LookupHasNoDuplicates(t, f, key, order[..k], now);
      var id := order[k];
      if id in t[key] {
        var e := t[key][id];
        InLiveInOrder(t[key], order[..k], now, e);
        forall other | other in order[..k] && other in t[key]
          ensures t[key][other] != e
        {
          assert FiledRight(f, key, id, At(t, key, id).value);
          assert FiledRight(f, key, other, At(t, key, other).value);
        }
      }
    }
  }

  // -------------------------------------------------------------- replication

  /** What an operation says about a triple: present with an endpoint, or absent. */
  datatype Word = Present(endpoint: Endpoint) | Absent

  /** The operation's word on `tr`, apart from the time it was seen, if it speaks of it. */
  function WordOn(op: Op, tr: Triple): Option<Word> {
    match op
    case Register(service, pod, nodes, at) =>
      var e := NewEndpoint(service, pod, nodes, at);
      if TripleOf(e) == tr then Some(Present(e.(lastSeen := 0))) else None
    case Deregister(namespace, service, pod, _) => if Triple(namespace, service, pod) == tr then Some(Absent) else None
    case Receipt(u, _) =>
      if TripleOf(u.endpoint) != tr then None
      else if u.action == "register" then Some(Present(u.endpoint.(lastSeen := 0)))
      else if u.action == "deregister" then Some(Absent)
      else None
    case SweepTick(_) => None
  }

  /** All words of a log on one triple, in order. */
  function WordsOn(ops: seq<Op>, tr: Triple): seq<Word> {
    if ops == [] then []
    else
      var init := WordsOn(ops[..|ops| - 1], tr);
      var word := WordOn(ops[|ops| - 1], tr);
      if word.Some? then init + [word.value] else init
  }

  function Unseen(e: Endpoint): Endpoint {
    e.(lastSeen := 0)
  }

  function WordIn(f: Flat, tr: Triple): Word {
    if tr in f then Present(Unseen(f[tr])) else Absent
  }

  /** What is held is what was said, or that marked unhealthy by a sweep. */
  predicate SaidOrSwept(held: Word, said: Word) {
    held == said || (said.Present? && held == Present(said.endpoint.(healthy := false)))
  }

  function LastWord(ops: seq<Op>, tr: Triple): Word {
    var words := WordsOn(ops, tr);
    if words == [] then Absent else words[|words| - 1]
  }

  ghost predicate NeverSweeps(ops: seq<Op>) {
    forall op :: op in ops ==> !op.SweepTick?
  }

  /** The last word on a triple decides its entry, up to the verdict of the node's own sweep;
      earlier words, and those on other triples, leave no trace. */
  lemma {:induction false} LastWordDecides(ops: seq<Op>, tr: Triple)
    ensures SaidOrSwept(WordIn(RunFlat(map[], ops), tr), LastWord(ops, tr))
    ensures NeverSweeps(ops) ==> WordIn(RunFlat(map[], ops), tr) == LastWord(ops, tr)
  {
    if ops != [] {
      assert ops[|ops| - 1] in ops;
      LastWordDecides(ops[..|ops| - 1], tr);
    }
  }

  /** What a replica knows of an endpoint: not when it was seen by others, nor the verdict of
      their sweeps. */
  function Essence(e: Option<Endpoint>): Option<Endpoint> {
    match e
    case None => None
    case Some(e) => Some(e.(lastSeen := 0, healthy := true))
  }

  ghost predicate SameEssence(a: Table, b: Table) {
    && NoEmptyInner(a) && NoEmptyInner(b)
    && forall key, id :: Essence(At(a, key, id)) == Essence(At(b, key, id))
  }

  /** The same entries in the same places, apart from LastSeen. */
  ghost predicate SameButSeen(t1: Table, t2: Table) {
    t1.Keys == t2.Keys && forall key, id :: UnseenAt(t1, key, id) == UnseenAt(t2, key, id)
  }

  function UnseenAt(t: Table, key: string, id: string): Option<Endpoint> {
    if Has(t, key, id) then Some(Unseen(t[key][id])) else None
  }

  lemma FaithfulDetermines(t1: Table, f1: Flat, t2: Table, f2: Flat, key: string, id: string)
    requires Faithful(t1, f1) && Faithful(t2, f2)
    requires forall tr :: WordIn(f1, tr) == WordIn(f2, tr)
    requires Has(t1, key, id)
    ensures UnseenAt(t1, key, id) == UnseenAt(t2, key, id)
  {
    var e := t1[key][id];
    assert At(t1, key, id) == Some(e) && FiledRight(f1, key, id, e);
    assert WordIn(f2, TripleOf(e)) == Present(Unseen(e));
    var e2 := f2[TripleOf(e)];
    assert At(t2, KeyOf(e2), IdOf(e2)) == Some(e2);
  }

  /** A word apart from the verdict of a sweep. */
  function EssenceOf(w: Word): Word {
    match w
    case Present(e) => Present(e.(healthy := true))
    case Absent => Absent
  }

  /** Two replicas hold the same entries, apart from LastSeen and the verdicts of their sweeps,
      exactly when their logs, local or received, agree on the last word on every triple:
      however the words on different triples were interleaved, whatever was said before, and
      whenever each of them swept. Without sweeps the same holds with the verdicts. */
  lemma ReplicasAgreeIff(ops1: seq<Op>, ops2: seq<Op>)
    requires forall op :: op in ops1 ==> DotFreeOp(op)
    requires forall op :: op in ops2 ==> DotFreeOp(op)
    ensures SameEssence(RunTable(map[], ops1), RunTable(map[], ops2)) <==>
            forall tr :: EssenceOf(LastWord(ops1, tr)) == EssenceOf(LastWord(ops2, tr))
    ensures NeverSweeps(ops1) && NeverSweeps(ops2) ==>
              (SameButSeen(RunTable(map[], ops1), RunTable(map[], ops2)) <==>
               forall tr :: LastWord(ops1, tr) == LastWord(ops2, tr))
  {
    TableRefinesFlat(ops1);
    TableRefinesFlat(ops2);
    var t1, t2 := RunTable(map[], ops1), RunTable(map[], ops2);
    var f1, f2 := RunFlat(map[], ops1), RunFlat(map[], ops2);
    forall tr
      ensures EssenceOf(WordIn(f1, tr)) == EssenceOf(LastWord(ops1, tr))
      ensures EssenceOf(WordIn(f2, tr)) == EssenceOf(LastWord(ops2, tr))
      ensures NeverSweeps(ops1) ==> WordIn(f1, tr) == LastWord(ops1, tr)
      ensures NeverSweeps(ops2) ==> WordIn(f2, tr) == LastWord(ops2, tr)
    {
      LastWordDecides(ops1, tr);
      LastWordDecides(ops2, tr);
    }
    EssenceByWords(t1, f1, t2, f2);
    if NeverSweeps(ops1) && NeverSweeps(ops2) {
      SeenByWords(t1, f1, t2, f2);
      assert forall tr :: (WordIn(f1, tr) == WordIn(f2, tr)) == (LastWord(ops1, tr) == LastWord(ops2, tr));
    }
    assert forall tr :: (EssenceOf(WordIn(f1, tr)) == EssenceOf(WordIn(f2, tr))) ==
                        (EssenceOf(LastWord(ops1, tr)) == EssenceOf(LastWord(ops2, tr)));
  }

  lemma EssenceByWords(t1: Table, f1: Flat, t2: Table, f2: Flat)
    requires Faithful(t1, f1) && Faithful(t2, f2)
    ensures SameEssence(t1, t2) <==> forall tr :: EssenceOf(WordIn(f1, tr)) == EssenceOf(WordIn(f2, tr))
  {
    if SameEssence(t1, t2) {
      forall tr
        ensures EssenceOf(WordIn(f1, tr)) == EssenceOf(WordIn(f2, tr))
      {
        if tr in f1 {
          WordFromEssence(t1, f1, t2, f2, tr);
        } else if tr in f2 {
          WordFromEssence(t2, f2, t1, f1, tr);
        }
      }
    }
    if forall tr :: EssenceOf(WordIn(f1, tr)) == EssenceOf(WordIn(f2, tr)) {
      forall key, id
        ensures Essence(At(t1, key, id)) == Essence(At(t2, key, id))
      {
        if At(t1, key, id).Some? {
          EssenceFromWords(t1, f1, t2, f2, key, id);
        } else if At(t2, key, id).Some? {
          EssenceFromWords(t2, f2, t1, f1, key, id);
        }
      }
    }
  }

  lemma WordFromEssence(t1: Table, f1: Flat, t2: Table, f2: Flat, tr: Triple)
    requires Faithful(t1, f1) && Faithful(t2, f2) && SameEssence(t1, t2)
    requires tr in f1
    ensures EssenceOf(WordIn(f1, tr)) == EssenceOf(WordIn(f2, tr))
  {
    var e := f1[tr];
    assert At(t1, KeyOf(e), IdOf(e)) == Some(e);
    assert Essence(At(t2, KeyOf(e), IdOf(e))) == Essence(Some(e));
    var e2 := At(t2, KeyOf(e), IdOf(e)).value;
    assert FiledRight(f2, KeyOf(e), IdOf(e), e2) && TripleOf(e2) == tr;
  }

  lemma EssenceFromWords(t1: Table, f1: Flat, t2: Table, f2: Flat, key: string, id: string)
    requires Faithful(t1, f1) && Faithful(t2, f2)
    requires forall tr :: EssenceOf(WordIn(f1, tr)) == EssenceOf(WordIn(f2, tr))
    requires At(t1, key, id).Some?
    ensures Essence(At(t1, key, id)) == Essence(At(t2, key, id))
  {
    var e := At(t1, key, id).value;
    assert FiledRight(f1, key, id, e);
    var tr := TripleOf(e);
    assert EssenceOf(WordIn(f1, tr)) == EssenceOf(WordIn(f2, tr));
    assert tr in f2;
    assert At(t2, KeyOf(f2[tr]), IdOf(f2[tr])) == Some(f2[tr]);
  }

  lemma SeenByWords(t1: Table, f1: Flat, t2: Table, f2: Flat)
    requires Faithful(t1, f1) && Faithful(t2, f2)
    ensures SameButSeen(t1, t2) <==> forall tr :: WordIn(f1, tr) == WordIn(f2, tr)
  {
    if SameButSeen(t1, t2) {
      forall tr
        ensures WordIn(f1, tr) == WordIn(f2, tr)
      {
        if tr in f1 {
          WordFromTable(t1, f1, t2, f2, tr);
        } else if tr in f2 {
          WordFromTable(t2, f2, t1, f1, tr);
        }
      }
    }
    if forall tr :: WordIn(f1, tr) == WordIn(f2, tr) {
      FaithfulTablesAgree(t1, f1, t2, f2);
    }
  }

  lemma WordFromTable(t1: Table, f1: Flat, t2: Table, f2: Flat, tr: Triple)
    requires Faithful(t1, f1) && Faithful(t2, f2) && SameButSeen(t1, t2)
    requires tr in f1
    ensures WordIn(f1, tr) == WordIn(f2, tr)
  {
    var e := f1[tr];
    assert At(t1, KeyOf(e), IdOf(e)) == Some(e);
    assert UnseenAt(t2, KeyOf(e), IdOf(e)) == UnseenAt(t1, KeyOf(e), IdOf(e)) == Some(Unseen(e));
    var e2 := t2[KeyOf(e)][IdOf(e)];
    assert At(t2, KeyOf(e), IdOf(e)) == Some(e2);
    assert FiledRight(f2, KeyOf(e), IdOf(e), e2) && TripleOf(e2) == tr;
  }

  lemma FaithfulTablesAgree(t1: Table, f1: Flat, t2: Table, f2: Flat)
    requires Faithful(t1, f1) && Faithful(t2, f2)
    requires forall tr :: WordIn(f1, tr) == WordIn(f2, tr)
    ensures SameButSeen(t1, t2)
  {
    forall key, id
      ensures UnseenAt(t1, key, id) == UnseenAt(t2, key, id)
    {
      if Has(t1, key, id) {
        FaithfulDetermines(t1, f1, t2, f2, key, id);
      } else if Has(t2, key, id) {
        FaithfulDetermines(t2, f2, t1, f1, key, id);
      }
    }
    forall key
      ensures key in t1 <==> key in t2
    {
      KeysByEntries(t1, key);
      KeysByEntries(t2, key);
      assert forall id :: At(t1, key, id).Some? <==> UnseenAt(t1, key, id).Some?;
      assert forall id :: At(t2, key, id).Some? <==> UnseenAt(t2, key, id).Some?;
    }
  }

  // ------------------------------------------------------------------ replay

  /** The messages that a node broadcasts while it performs local operations. */
  function Emitted(t: Table, op: Op): seq<Update> {
    match op
    case Register(service, pod, nodes, at) =>
      var e := NewEndpoint(service, pod, nodes, at);
      [Update("register", e)]
    case Deregister(namespace, service, pod, _) =>
      var key, id := ServiceKey(service, namespace), EndpointID(namespace, service, pod);
      if Has(t, key, id) then [Update("deregister", t[key][id])] else []
    case Receipt(_, _) => []
    case SweepTick(_) => []
  }

  function Broadcasts(t: Table, ops: seq<Op>): seq<Update> {
    if ops == [] then []
    else Broadcasts(t, ops[..|ops| - 1]) + Emitted(RunTable(t, ops[..|ops| - 1]), ops[|ops| - 1])
  }

  /** In every reachable table, whatever the namespaces, each endpoint is filed under its own
      two keys and no inner map is empty. */
  ghost predicate OwnPlaces(t: Table) {
    && NoEmptyInner(t)
    && forall key, id :: At(t, key, id).Some? ==> key == KeyOf(At(t, key, id).value) && id == IdOf(At(t, key, id).value)
  }

  lemma {:induction false} OwnPlacesKept(ops: seq<Op>)
    ensures OwnPlaces(RunTable(map[], ops))
  {
    if ops != [] {
      var k := |ops| - 1;
      OwnPlacesKept(ops[..k]);
      OwnPlacesStep(RunTable(map[], ops[..k]), ops[k]);
    }
  }

  lemma OwnPlacesStep(t: Table, op: Op)
    requires OwnPlaces(t)
    ensures OwnPlaces(StepTable(t, op))
  {
    match op
    case Register(service, pod, nodes, at) =>
      var e := NewEndpoint(service, pod, nodes, at);
      PutAt(t, e);
    case Deregister(namespace, service, pod, _) =>
      DropAt(t, ServiceKey(service, namespace), EndpointID(namespace, service, pod));
    case Receipt(u, at) =>
      var e := u.endpoint.(lastSeen := at);
      PutAt(t, e);
      DropAt(t, KeyOf(e), IdOf(e));
    case SweepTick(at) => SweepAt(t, at);
  }

  /** Where an operation files or drops an endpoint. */
  datatype Place = Place(key: string, id: string)

  function PlaceOf(e: Endpoint): Place {
    Place(KeyOf(e), IdOf(e))
  }

  predicate ActsAt(op: Op, p: Place) {
    match op
    case Register(service, pod, nodes, at) =>
      var e := NewEndpoint(service, pod, nodes, at);
      PlaceOf(e) == p
    case Deregister(namespace, service, pod, _) =>
      Place(ServiceKey(service, namespace), EndpointID(namespace, service, pod)) == p
    case Receipt(u, _) => PlaceOf(u.endpoint) == p
    case SweepTick(_) => false
  }

  /** The messages on one place, in order. */
  function UpdatesAt(us: seq<Update>, p: Place): seq<Update> {
    if us == [] then []
    else
      var init := UpdatesAt(us[..|us| - 1], p);
      if PlaceOf(us[|us| - 1].endpoint) == p then init + [us[|us| - 1]] else init
  }

  /** The messages that a log receives, in order. */
  function Received(log: seq<Op>): seq<Update> {
    if log == [] then []
    else
      var init := Received(log[..|log| - 1]);
      if log[|log| - 1].Receipt? then init + [log[|log| - 1].update] else init
  }

  /** What the last message on a place leaves there. */
  function Outcome(us: seq<Update>): Option<Endpoint> {
    if us == [] || us[|us| - 1].action != "register" then None else Essence(Some(us[|us| - 1].endpoint))
  }

  predicate Understood(u: Update) {
    u.action == "register" || u.action == "deregister"
  }

  lemma UpdatesAtOneMore(us: seq<Update>, u: Update, p: Place)
    ensures UpdatesAt(us + [u], p) == UpdatesAt(us, p) + if PlaceOf(u.endpoint) == p then [u] else []
  {
    assert (us + [u])[..|us|] == us;
  }

  lemma StepElsewhere(t: Table, op: Op, p: Place)
    requires !ActsAt(op, p)
    ensures Essence(At(StepTable(t, op), p.key, p.id)) == Essence(At(t, p.key, p.id))
  {
    match op
    case Register(service, pod, nodes, at) =>
      var e := NewEndpoint(service, pod, nodes, at);
      PutAt(t, e);
    case Deregister(namespace, service, pod, _) =>
      DropAt(t, ServiceKey(service, namespace), EndpointID(namespace, service, pod));
    case Receipt(u, at) =>
      var e := u.endpoint.(lastSeen := at);
      PutAt(t, e);
      DropAt(t, KeyOf(e), IdOf(e));
    case SweepTick(at) => SweepAt(t, at);
  }

  /** The messages that a node has sent about a place tell what it holds there, as long as it
      is sent none about it: it may receive others in between, and sweep. */
  lemma {:induction false} SenderTells(ops: seq<Op>, p: Place)
    requires forall op :: op in ops && op.Receipt? ==> !ActsAt(op, p)
    ensures var sent := UpdatesAt(Broadcasts(map[], ops), p);
            && Essence(At(RunTable(map[], ops), p.key, p.id)) == Outcome(sent)
            && forall u :: u in sent ==> Understood(u)
  {
    if ops != [] {
      var k := |ops| - 1;
      var init, op := ops[..k], ops[k];
      SenderTells(init, p);
      assert op in ops;
      OwnPlacesKept(init);
      var t := RunTable(map[], init);
      SenderStep(t, op, p, Broadcasts(map[], init));
    }
  }

  lemma SenderStep(t: Table, op: Op, p: Place, before: seq<Update>)
    requires OwnPlaces(t) && (op.Receipt? ==> !ActsAt(op, p))
    requires Essence(At(t, p.key, p.id)) == Outcome(UpdatesAt(before, p))
    requires forall u :: u in UpdatesAt(before, p) ==> Understood(u)
    ensures var sent := UpdatesAt(before + Emitted(t, op), p);
            && Essence(At(StepTable(t, op), p.key, p.id)) == Outcome(sent)
            && forall u :: u in sent ==> Understood(u)
  {
    EmittedSpeaksOf(t, op, p);
    if ActsAt(op, p) {
      LocalStepHere(t, op, p);
    } else {
      StepElsewhere(t, op, p);
    }
    OutcomeOfMore(before, Emitted(t, op), p, ActsAt(op, p), Essence(At(StepTable(t, op), p.key, p.id)));
  }

  lemma OutcomeOfMore(before: seq<Update>, emitted: seq<Update>, p: Place, here: bool, held: Option<Endpoint>)
    requires |emitted| <= 1 && forall u :: u in emitted ==> Understood(u) && (PlaceOf(u.endpoint) == p <==> here)
    requires forall u :: u in UpdatesAt(before, p) ==> Understood(u)
    requires held == if here && emitted != [] then Outcome(emitted) else Outcome(UpdatesAt(before, p))
    ensures var sent := UpdatesAt(before + emitted, p);
            held == Outcome(sent) && forall u :: u in sent ==> Understood(u)
  {
    if emitted == [] {
      assert before + emitted == before;
    } else {
      assert emitted == [emitted[0]];
      UpdatesAtOneMore(before, emitted[0], p);
    }
  }

  lemma EmittedSpeaksOf(t: Table, op: Op, p: Place)
    requires OwnPlaces(t)
    ensures |Emitted(t, op)| <= 1
    ensures forall u :: u in Emitted(t, op) ==> Understood(u) && (PlaceOf(u.endpoint) == p <==> ActsAt(op, p))
  {
    if op.Deregister? {
      var key, id := ServiceKey(op.name, op.namespace), EndpointID(op.namespace, op.name, op.pod);
      assert Has(t, key, id) ==> At(t, key, id) == Some(t[key][id]) && PlaceOf(t[key][id]) == Place(key, id);
    }
  }

  lemma LocalStepHere(t: Table, op: Op, p: Place)
    requires ActsAt(op, p) && !op.Receipt?
    ensures Essence(At(StepTable(t, op), p.key, p.id)) ==
            if Emitted(t, op) == [] then Essence(At(t, p.key, p.id)) else Outcome(Emitted(t, op))
  {
    match op
    case Register(service, pod, nodes, at) =>
      var e := NewEndpoint(service, pod, nodes, at);
      PutAt(t, e);
    case Deregister(namespace, service, pod, _) =>
      DropAt(t, ServiceKey(service, namespace), EndpointID(namespace, service, pod));
    case SweepTick(at) =>
  }

  /** What a node holds at a place that only messages speak of is what the last one says. */
  lemma {:induction false} ReceiverHolds(log: seq<Op>, p: Place)
    requires forall op :: op in log && ActsAt(op, p) ==> op.Receipt?
    requires forall u :: u in UpdatesAt(Received(log), p) ==> Understood(u)
    ensures Essence(At(RunTable(map[], log), p.key, p.id)) == Outcome(UpdatesAt(Received(log), p))
  {
    if log != [] {
      var k := |log| - 1;
      var init, op := log[..k], log[k];
      assert op in log;
      if op.Receipt? {
        UpdatesAtOneMore(Received(init), op.update, p);
      }
      ReceiverHolds(init, p);
      var t := RunTable(map[], init);
      if ActsAt(op, p) {
        ReceiptHere(t, op, p);
      } else {
        StepElsewhere(t, op, p);
      }
    }
  }

  lemma ReceiptHere(t: Table, op: Op, p: Place)
    requires op.Receipt? && ActsAt(op, p) && Understood(op.update)
    ensures Essence(At(StepTable(t, op), p.key, p.id)) == Outcome([op.update])
  {
    var e := op.update.endpoint.(lastSeen := op.at);
    PutAt(t, e);
    DropAt(t, KeyOf(e), IdOf(e));
  }

  /** Replay. A node registers and deregisters locally at some place, and receives no message
      on it; in between it may receive any on other places, and sweep. Another node receives
      what the first one broadcast on the place, in order; in between it may do anything else,
      and sweep. Then both hold the same endpoint there, or none. */
  lemma ReplayRebuilds(ops: seq<Op>, log: seq<Op>, p: Place)
    requires forall op :: op in ops && op.Receipt? ==> !ActsAt(op, p)
    requires forall op :: op in log && ActsAt(op, p) ==> op.Receipt?
    requires UpdatesAt(Received(log), p) == UpdatesAt(Broadcasts(map[], ops), p)
    ensures Essence(At(RunTable(map[], ops), p.key, p.id)) == Essence(At(RunTable(map[], log), p.key, p.id))
  {
    SenderTells(ops, p);
    ReceiverHolds(log, p);
  }

  /** In particular a node that receives all broadcasts of a node which never receives any
      rebuilds its whole table, whatever both of them sweep. */
  lemma ReplayRebuildsTable(ops: seq<Op>, log: seq<Op>)
    requires forall op :: op in ops ==> !op.Receipt?
    requires forall op :: op in log ==> op.Receipt? || op.SweepTick?
    requires Received(log) == Broadcasts(map[], ops)
    ensures SameEssence(RunTable(map[], ops), RunTable(map[], log))
  {
    OwnPlacesKept(ops);
    OwnPlacesKept(log);
    forall key, id
      ensures Essence(At(RunTable(map[], ops), key, id)) == Essence(At(RunTable(map[], log), key, id))
    {
      ReplayRebuilds(ops, log, Place(key, id));
    }
  }

  // --------------------------------------------------- what a registration means

  /** At its place there is an entry with this endpoint, apart from a sweep's verdict. */
  ghost predicate Files(t: Table, p: Place, e: Endpoint, verdict: bool) {
    At(t, p.key, p.id) == Some(e.(healthy := verdict))
  }

  /** Nothing else is done at the place: the endpoint stays, and stays healthy for as long as
      the sweeps come within thirty seconds of when it was seen. */
  lemma {:induction false} FiledStays(t: Table, later: seq<Op>, p: Place, e: Endpoint) returns (verdict: bool)
    requires At(t, p.key, p.id) == Some(e) && e.healthy
    requires forall op :: op in later ==> !ActsAt(op, p)
    ensures Files(RunTable(t, later), p, e, verdict)
    ensures (forall op :: op in later && op.SweepTick? ==> op.at - e.lastSeen <= 30_000_000_000) ==> verdict
  {
    if later == [] {
      verdict := true;
    } else {
      var k := |later| - 1;
      var op := later[k];
      assert op in later;
      var before := FiledStays(t, later[..k], p, e);
      verdict := StepLeaves(RunTable(t, later[..k]), op, p, e, before);
    }
  }

  lemma StepLeaves(t: Table, op: Op, p: Place, e: Endpoint, before: bool) returns (verdict: bool)
    requires Files(t, p, e, before) && !ActsAt(op, p)
    ensures Files(StepTable(t, op), p, e, verdict)
    ensures before && (op.SweepTick? ==> op.at - e.lastSeen <= 30_000_000_000) ==> verdict
  {
    verdict := before;
    match op
    case Register(service, pod, nodes, at) => PutAt(t, NewEndpoint(service, pod, nodes, at));
    case Deregister(namespace, service, pod, _) =>
      DropAt(t, ServiceKey(service, namespace), EndpointID(namespace, service, pod));
    case Receipt(u, at) =>
      var e := u.endpoint.(lastSeen := at);
      PutAt(t, e);
      DropAt(t, KeyOf(e), IdOf(e));
    case SweepTick(at) =>
      SweepAt(t, at);
      verdict := before && at - e.lastSeen <= 30_000_000_000;
  }

  /** The reader's orders visit all entries there are. */
  ghost predicate VisitsAll(t: Table, order: map<string, seq<string>>) {
    t.Keys <= order.Keys && forall key, id :: Has(t, key, id) ==> id in order[key]
  }

  /** All three readers give this endpoint: as it is, by its address and port, and under the
      service's key. */
  ghost predicate AllReadersGive(t: Table, key: string, order: map<string, seq<string>>, now: int, e: Endpoint)
    requires VisitsAll(t, order)
  {
    && key in t && e in LiveInOrder(t[key], order[key], now)
    && AddressAnswer(t, key, order[key], now).Some?
    && (e.address, e.port) in AddressAnswer(t, key, order[key], now).value
    && key in ListAnswer(t, order, now) && e in ListAnswer(t, order, now)[key]
  }

  lemma {:induction false} AddressesAt(es: seq<Endpoint>)
    ensures |Addresses(es)| == |es| && forall i :: 0 <= i < |es| ==> Addresses(es)[i] == (es[i].address, es[i].port)
  {
    if es != [] {
      AddressesAt(es[..|es| - 1]);
    }
  }

  lemma LiveIsGiven(t: Table, key: string, id: string, order: map<string, seq<string>>, now: int)
    requires VisitsAll(t, order) && Has(t, key, id)
    requires t[key][id].healthy && now - t[key][id].lastSeen < 30_000_000_000
    ensures AllReadersGive(t, key, order, now, t[key][id])
  {
    var e, found := t[key][id], LiveInOrder(t[key], order[key], now);
    InLiveInOrder(t[key], order[key], now, e);
    AddressesAt(found);
    var i :| 0 <= i < |found| && found[i] == e;
    assert Addresses(found)[i] == (e.address, e.port);
  }

  /** The readers give exactly the healthy endpoints seen less than thirty seconds ago, and the
      last two of them nothing at all when there is none. */
  lemma ReadersAreExact(t: Table, key: string, order: map<string, seq<string>>, now: int)
    requires VisitsAll(t, order) && key in t
    ensures forall e :: e in LiveInOrder(t[key], order[key], now) <==>
              exists id :: id in t[key] && t[key][id] == e && e.healthy && now - e.lastSeen < 30_000_000_000
    ensures var live := exists id :: id in t[key] && t[key][id].healthy && now - t[key][id].lastSeen < 30_000_000_000;
            && (AddressAnswer(t, key, order[key], now).Some? <==> live)
            && (key in ListAnswer(t, order, now) <==> live)
            && (live ==> forall e :: e in ListAnswer(t, order, now)[key] <==> e in LiveInOrder(t[key], order[key], now))
  {
    var found := LiveInOrder(t[key], order[key], now);
    forall e
      ensures e in found <==> exists id :: id in t[key] && t[key][id] == e && e.healthy && now - e.lastSeen < 30_000_000_000
    {
      InLiveInOrder(t[key], order[key], now, e);
      assert forall id :: id in t[key] ==> Has(t, key, id);
    }
    if found != [] {
      assert found[0] in found;
    }
    if id :| id in t[key] && t[key][id].healthy && now - t[key][id].lastSeen < 30_000_000_000 {
      assert t[key][id] in found;
    }
  }

  lemma {:induction false} LiveInParts(m: map<string, Endpoint>, a: seq<string>, b: seq<string>, now: int)
    ensures LiveInOrder(m, a + b, now) == LiveInOrder(m, a, now) + LiveInOrder(m, b, now)
    decreases |b|
  {
    if b == [] {
      assert a + b == a;
    } else {
      var k := |b| - 1;
      LiveInParts(m, a, b[..k], now);
      assert (a + b)[..|a + b| - 1] == a + b[..k];
    }
  }

  /** They give them in the order of the visit: each entry visited adds its endpoint at the end
      if that is live, and nothing otherwise. */
  lemma GivenInOrder(m: map<string, Endpoint>, a: seq<string>, id: string, b: seq<string>, now: int)
    ensures var live := id in m && m[id].healthy && now - m[id].lastSeen < 30_000_000_000;
            LiveInOrder(m, a + ([id] + b), now) == LiveInOrder(m, a, now) + ((if live then [m[id]] else []) + LiveInOrder(m, b, now))
  {
    LiveInParts(m, a, [id] + b, now);
    LiveInParts(m, [id], b, now);
    assert [id][..0] == [];
    assert LiveInOrder(m, [id], now) == LiveInOrder(m, [], now) + if id in m && Live(m[id], now) then [m[id]] else [];
  }

  /** An endpoint of a pod for a service, with what a client needs to reach it. */
  predicate Reaches(e: Endpoint, service: Service, pod: Pod, nodes: map<string, string>) {
    && e.serviceName == service.name && e.namespace == service.namespace
    && e.podID == pod.id && e.podName == pod.name && e.nodeName == pod.nodeName
    && e.address == (if pod.nodeName in nodes then nodes[pod.nodeName] else pod.nodeName)
    && e.port == (if |service.ports| > 0 then service.ports[0] else 0)
  }

  /** Whatever the registry has been through, a pod that is registered for a service is given
      by all readers for thirty seconds, whatever is done at other places and swept in between:
      under its ID, name and node, with the node's known address or else its name, and the
      first port or else 0. Later it is not given unless it is seen again. */
  lemma RegisteredIsFound(before: seq<Op>, service: Service, pod: Pod, nodes: map<string, string>, at: int, later: seq<Op>,
                          order: map<string, seq<string>>, now: int)
    requires var p := Place(ServiceKey(service.name, service.namespace), EndpointID(service.namespace, service.name, pod.id));
             forall op :: op in later ==> !ActsAt(op, p) && (op.SweepTick? ==> op.at <= now)
    requires VisitsAll(RunTable(map[], before + [Register(service, pod, nodes, at)] + later), order)
    ensures var t := RunTable(map[], before + [Register(service, pod, nodes, at)] + later);
            var key := ServiceKey(service.name, service.namespace);
            && (now - at < 30_000_000_000 ==>
                  exists e :: Reaches(e, service, pod, nodes) && AllReadersGive(t, key, order, now, e))
            && (now - at >= 30_000_000_000 ==>
                  key in t && forall e :: e in LiveInOrder(t[key], order[key], now) ==>
                    !(e.serviceName == service.name && e.namespace == service.namespace && e.podID == pod.id))
  {
    var ops := before + [Register(service, pod, nodes, at)];
    var p := Place(ServiceKey(service.name, service.namespace), EndpointID(service.namespace, service.name, pod.id));
    var e := NewEndpoint(service, pod, nodes, at);
    assert ops[..|before|] == before;
    PutAt(RunTable(map[], before), e);
    RunTableConcat(ops, later);
    FiledIsFound(ops, later, p, e, order, now);
  }

  /** So does a peer that receives the broadcast of a registration, from its receipt on. */
  lemma BroadcastIsFound(sender: Table, before: seq<Op>, service: Service, pod: Pod, nodes: map<string, string>, sent: int,
                         message: Update, at: int, later: seq<Op>, order: map<string, seq<string>>, now: int)
    requires Emitted(sender, Register(service, pod, nodes, sent)) == [message]
    requires var p := Place(ServiceKey(service.name, service.namespace), EndpointID(service.namespace, service.name, pod.id));
             forall op :: op in later ==> !ActsAt(op, p) && (op.SweepTick? ==> op.at <= now)
    requires VisitsAll(RunTable(map[], before + [Receipt(message, at)] + later), order)
    ensures var t := RunTable(map[], before + [Receipt(message, at)] + later);
            var key := ServiceKey(service.name, service.namespace);
            && (now - at < 30_000_000_000 ==>
                  exists e :: Reaches(e, service, pod, nodes) && AllReadersGive(t, key, order, now, e))
            && (now - at >= 30_000_000_000 ==>
                  key in t && forall e :: e in LiveInOrder(t[key], order[key], now) ==>
                    !(e.serviceName == service.name && e.namespace == service.namespace && e.podID == pod.id))
  {
    var ops := before + [Receipt(message, at)];
    var p := Place(ServiceKey(service.name, service.namespace), EndpointID(service.namespace, service.name, pod.id));
    var e := NewEndpoint(service, pod, nodes, sent).(lastSeen := at);
    assert ops[..|before|] == before;
    PutAt(RunTable(map[], before), e);
    RunTableConcat(ops, later);
    FiledIsFound(ops, later, p, e, order, now);
  }

  lemma {:induction false} RunTableConcat(a: seq<Op>, b: seq<Op>)
    ensures RunTable(map[], a + b) == RunTable(RunTable(map[], a), b)
  {
    if b == [] {
      assert a + b == a;
    } else {
      assert (a + b)[..|a + b| - 1] == a + b[..|b| - 1];
      RunTableConcat(a, b[..|b| - 1]);
    }
  }

  lemma FiledIsFound(ops: seq<Op>, later: seq<Op>, p: Place, e: Endpoint, order: map<string, seq<string>>, now: int)
    requires At(RunTable(map[], ops), p.key, p.id) == Some(e) && e.healthy && p == PlaceOf(e)
    requires forall op :: op in later ==> !ActsAt(op, p) && (op.SweepTick? ==> op.at <= now)
    requires VisitsAll(RunTable(map[], ops + later), order)
    ensures var t := RunTable(map[], ops + later);
            && (now - e.lastSeen < 30_000_000_000 ==> AllReadersGive(t, p.key, order, now, e))
            && (now - e.lastSeen >= 30_000_000_000 ==>
                  p.key in t && forall x :: x in LiveInOrder(t[p.key], order[p.key], now) ==> PlaceOf(x) != p)
  {
    RunTableConcat(ops, later);
    var t := RunTable(map[], ops + later);
    var verdict := FiledStays(RunTable(map[], ops), later, p, e);
    assert Has(t, p.key, p.id) && t[p.key][p.id] == e.(healthy := verdict);
    if now - e.lastSeen < 30_000_000_000 {
      assert e.(healthy := true) == e;
      LiveIsGiven(t, p.key, p.id, order, now);
    } else {
      OwnPlacesKept(ops + later);
      forall x | x in LiveInOrder(t[p.key], order[p.key], now)
        ensures PlaceOf(x) != p
      {
        InLiveInOrder(t[p.key], order[p.key], now, x);
        var id :| id in t[p.key] && t[p.key][id] == x && Live(x, now);
        assert At(t, p.key, id) == Some(x);
      }
    }
  }

  /** A sweep marks exactly what was not seen for more than thirty seconds, and nothing else
      about any entry changes. */
  lemma SweepMarks(t: Table, now: int, key: string, id: string)
    ensures var swept := StepTable(t, SweepTick(now));
            && (Has(swept, key, id) <==> Has(t, key, id))
            && (Has(t, key, id) ==>
                  && swept[key][id].(healthy := true) == t[key][id].(healthy := true)
                  && (swept[key][id].healthy <==> t[key][id].healthy && now - t[key][id].lastSeen <= 30_000_000_000))
  {
    SweepAt(t, now);
    assert At(Sweep(t, now), key, id).Some? <==> At(t, key, id).Some?;
  }

  // ------------------------------------------------- the sweep is invisible

  /** `a` is `b` with some endpoints marked unhealthy that are stale in any case. */
  ghost predicate Masked(a: Table, b: Table, now: int) {
    && a.Keys == b.Keys
    && (forall key :: key in a ==> a[key].Keys == b[key].Keys)
    && (forall key, id :: Has(a, key, id) ==>
          || a[key][id] == b[key][id]
          || (a[key][id] == b[key][id].(healthy := false) && Stale(b[key][id], now)))
  }

  lemma MaskedSameLive(a: Table, b: Table, now: int, key: string, order: seq<string>)
    requires Masked(a, b, now) && key in a
    ensures LiveInOrder(a[key], order, now) == LiveInOrder(b[key], order, now)
  {
    if order != [] {
      var id := order[|order| - 1];
      assert id in a[key] ==> Has(a, key, id);
      MaskedSameLive(a, b, now, key, order[..|order| - 1]);
    }
  }

  /** No reader can tell the two tables apart at time `now`. */
  ghost predicate SameAnswers(a: Table, b: Table, now: int) {
    && a.Keys == b.Keys
    && (forall key, order :: key in a ==> LiveInOrder(a[key], order, now) == LiveInOrder(b[key], order, now))
    && (forall key, order :: AddressAnswer(a, key, order, now) == AddressAnswer(b, key, order, now))
    && (forall order: map<string, seq<string>> :: a.Keys <= order.Keys ==> ListAnswer(a, order, now) == ListAnswer(b, order, now))
  }

  lemma MaskedSameAnswers(a: Table, b: Table, now: int)
    requires Masked(a, b, now)
    ensures SameAnswers(a, b, now)
  {
    forall key, order | key in a
      ensures LiveInOrder(a[key], order, now) == LiveInOrder(b[key], order, now)
    {
      MaskedSameLive(a, b, now, key, order);
    }
  }

  function TimeOf(op: Op): int {
    match op
    case Register(_, _, _, at) => at
    case Deregister(_, _, _, at) => at
    case Receipt(_, at) => at
    case SweepTick(at) => at
  }

  ghost predicate MonotoneClock(ops: seq<Op>) {
    forall i, j :: 0 <= i < j < |ops| ==> TimeOf(ops[i]) <= TimeOf(ops[j])
  }

  function WithoutSweeps(ops: seq<Op>): seq<Op> {
    if ops == [] then []
    else if ops[|ops| - 1].SweepTick? then WithoutSweeps(ops[..|ops| - 1])
    else WithoutSweeps(ops[..|ops| - 1]) + [ops[|ops| - 1]]
  }

  lemma MaskedPut(a: Table, b: Table, e: Endpoint, now: int)
    requires Masked(a, b, now)
    ensures Masked(Put(a, e), Put(b, e), now)
  {
    forall key, id | Has(Put(a, e), key, id) && !(key == KeyOf(e) && id == IdOf(e))
      ensures Has(a, key, id)
    {
    }
  }

  lemma MaskedDrop(a: Table, b: Table, key: string, id: string, now: int)
    requires Masked(a, b, now)
    ensures Masked(Drop(a, key, id), Drop(b, key, id), now)
    ensures Masked(DropExisting(a, key, id), DropExisting(b, key, id), now)
  {
    if key in a {
      assert (a[key] - {id}).Keys == (b[key] - {id}).Keys;
      assert a[key] - {id} == map[] <==> (a[key] - {id}).Keys == {};
      assert b[key] - {id} == map[] <==> (b[key] - {id}).Keys == {};
    }
    forall k, i | Has(Drop(a, key, id), k, i)
      ensures Has(a, k, i)
    {
    }
  }

  lemma MaskedStep(a: Table, b: Table, op: Op, now: int)
    requires Masked(a, b, now) && TimeOf(op) <= now
    ensures Masked(StepTable(a, op), if op.SweepTick? then b else StepTable(b, op), now)
  {
    match op
    case Register(service, pod, nodes, at) =>
      var e := NewEndpoint(service, pod, nodes, at);
      MaskedPut(a, b, e, now);
    case Deregister(namespace, service, pod, _) =>
      MaskedDrop(a, b, ServiceKey(service, namespace), EndpointID(namespace, service, pod), now);
    case Receipt(u, at) =>
      var e := u.endpoint.(lastSeen := at);
      if u.action == "register" {
        MaskedPut(a, b, e, now);
      } else {
        MaskedDrop(a, b, KeyOf(e), IdOf(e), now);
      }
    case SweepTick(at) => MaskedSweep(a, b, at, now);
  }

  lemma MaskedSweep(a: Table, b: Table, at: int, now: int)
    requires Masked(a, b, now) && at <= now
    ensures Masked(Sweep(a, at), b, now)
  {
    assert forall key, id :: Has(Sweep(a, at), key, id) ==> Has(a, key, id);
  }

  /** Over whole runs with a monotone clock, a node that sweeps at arbitrary times gives every
      reader the answers of one that never sweeps: the freshness window of the readers already
      leaves out whatever the sweep marks. */
  lemma {:induction false} SweepIsInvisible(ops: seq<Op>, now: int)
    requires MonotoneClock(ops)
    requires ops != [] ==> TimeOf(ops[|ops| - 1]) <= now
    ensures Masked(RunTable(map[], ops), RunTable(map[], WithoutSweeps(ops)), now)
    ensures SameAnswers(RunTable(map[], ops), RunTable(map[], WithoutSweeps(ops)), now)
  {
    if ops != [] {
      var k := |ops| - 1;
      var init, op := ops[..k], ops[k];
      var swept := WithoutSweeps(init);
      assert MonotoneClock(init) && (init != [] ==> TimeOf(init[k - 1]) <= TimeOf(op));
      SweepIsInvisible(init, now);
      var a, b := RunTable(map[], init), RunTable(map[], swept);
      if !op.SweepTick? {
        assert (swept + [op])[..|swept|] == swept;
      }
      MaskedStep(a, b, op, now);
    }
    MaskedSameAnswers(RunTable(map[], ops), RunTable(map[], WithoutSweeps(ops)), now);
  }
}
