/** What applying, deleting and recovering deployments leaves in the scheduler's table. */
module PodAccounting {
  import opened Types
  import opened Scheduling
  import opened Lifecycle

  // ---------------------------------------------------- what becomes of a replica

  /** A node is found for the replica and, when that is this one, its container is created and
      started. */
  predicate StartsUp(selector: map<string, string>, a: Attempt, local: string) {
    && PlaceFor(selector, a.nodes, a.pick).Some?
    && (PlaceFor(selector, a.nodes, a.pick) == Some(local) ==> a.container.Some? && !a.startFails)
  }

  /** The pod as its deployment lists it: a local one under its container's ID. */
  function PodOf(selector: map<string, string>, a: Attempt, local: string): PodRef
    requires StartsUp(selector, a, local)
  {
    var node := PlaceFor(selector, a.nodes, a.pick).value;
    PodRef(if node == local then a.container.value else a.id, node)
  }

  lemma ResultMeaning(selector: map<string, string>, a: Attempt, local: string)
    ensures var place, result := PlaceFor(selector, a.nodes, a.pick), ResultFor(selector, a, local);
            && (result.Done? <==> StartsUp(selector, a, local))
            && (result.ScheduleFailed? <==> place.None?)
            && (result.CreateFailed? <==> place == Some(local) && a.container.None?)
            && (result.StartFailed? <==> place == Some(local) && a.container.Some? && a.startFails)
            && (result.Done? ==> RefFor(selector, a, local) == PodOf(selector, a, local))
  {
  }

  /** An apply lists the pods of all replicas before the first one that does not start up, in
      order, and reports what happened to that one; it succeeds when there is none. */
  lemma {:induction false} ApplyLists(t: PodTable, selector: map<string, string>, attempts: seq<Attempt>, local: string)
    ensures var applied := Apply(t, selector, attempts, local);
            var k := |applied.refs|;
            && k <= |attempts|
            && (forall i :: 0 <= i < k ==>
                  StartsUp(selector, attempts[i], local) && applied.refs[i] == PodOf(selector, attempts[i], local))
            && (applied.result.Done? <==> k == |attempts|)
            && (k < |attempts| ==>
                  !StartsUp(selector, attempts[k], local) && applied.result == ResultFor(selector, attempts[k], local))
    decreases attempts
  {
    if attempts != [] {
      var a, rest := attempts[0], attempts[1..];
      ResultMeaning(selector, a, local);
      ApplyLists(TableAfter(t, selector, a, local), selector, rest, local);
      assert forall i :: 0 <= i < |rest| ==> rest[i] == attempts[i + 1];
    }
  }

  /** So a successful apply lists exactly as many pods as are desired, none for a number that
      is not positive, and a failed one fewer. */
  lemma ApplyListsDesired(t: PodTable, selector: map<string, string>, desired: int, attempts: seq<Attempt>, local: string)
    requires |attempts| == if desired > 0 then desired else 0
    ensures var applied := Apply(t, selector, attempts, local);
            && (applied.result.Done? <==> |applied.refs| == if desired > 0 then desired else 0)
            && (!applied.result.Done? ==> desired > 0 && |applied.refs| < desired)
            && (applied.result.Done? <==> forall i :: 0 <= i < |attempts| ==> StartsUp(selector, attempts[i], local))
  {
    ApplyLists(t, selector, attempts, local);
  }

  // ------------------------------------------------------- apply, then delete

  /** Random IDs do not collide: generated IDs are new and distinct, and no container ID is
      one of them or already in the table. */
  ghost predicate FreshIds(keys: set<string>, attempts: seq<Attempt>) {
    && (forall i :: 0 <= i < |attempts| ==> attempts[i].id !in keys)
    && (forall i, j :: 0 <= i < j < |attempts| ==> attempts[i].id != attempts[j].id)
    && (forall i :: 0 <= i < |attempts| && attempts[i].container.Some? ==> attempts[i].container.value !in keys)
    && (forall i, j :: 0 <= i < |attempts| && 0 <= j < |attempts| && attempts[i].container.Some? ==>
          attempts[i].container.value != attempts[j].id)
  }

  /** The pods scheduled on the local node, up to the first replica that fails, each under its
      generated ID, called by its container's ID if it got one, and still pending. */
  function Residue(selector: map<string, string>, attempts: seq<Attempt>, local: string): PodTable {
    if attempts == [] then map[]
    else
      var a := attempts[0];
      var here: PodTable := if IsLocal(selector, a, local) then map[a.id := Entry(FinalId(selector, a, local), local, Pending)] else map[];
      if ResultFor(selector, a, local).Done? then here + Residue(selector, attempts[1..], local) else here
  }

  lemma {:induction false} ResidueKeys(selector: map<string, string>, attempts: seq<Attempt>, local: string, key: string)
    requires key in Residue(selector, attempts, local)
    ensures exists i :: 0 <= i < |attempts| && attempts[i].id == key && IsLocal(selector, attempts[i], local)
  {
    var a := attempts[0];
    if key == a.id && IsLocal(selector, a, local) {
    } else {
      ResidueKeys(selector, attempts[1..], local, key);
      var i :| 0 <= i < |attempts[1..]| && attempts[1..][i].id == key && IsLocal(selector, attempts[1..][i], local);
      assert attempts[i + 1].id == key;
    }
  }

  lemma FreshRest(keys: set<string>, attempts: seq<Attempt>)
    requires FreshIds(keys, attempts) && attempts != []
    ensures FreshIds(keys + {attempts[0].id}, attempts[1..])
  {
    assert forall i :: 0 <= i < |attempts[1..]| ==> attempts[1..][i] == attempts[i + 1];
  }

  lemma TableAfterFresh(t: PodTable, selector: map<string, string>, a: Attempt, local: string)
    requires a.container.Some? ==> a.container.value !in t && a.container.value != a.id
    ensures var place := Place(selector, a);
            TableAfter(t, selector, a, local) ==
            if place.None? then t else t[a.id := Entry(FinalId(selector, a, local), place.value, Pending)]
  {
  }

  /** Deleting what an apply, successful or not, has listed in its deployment leaves the table
      as it was, plus exactly the pods that were scheduled locally: those are looked up under
      their container IDs, but filed under the generated ones. Remote pods all go. */
  lemma {:induction false} ApplyThenDelete(t: PodTable, selector: map<string, string>, attempts: seq<Attempt>, local: string)
    requires FreshIds(t.Keys, attempts)
    ensures var applied := Apply(t, selector, attempts, local);
            Delete(applied.table, applied.refs) == t + Residue(selector, attempts, local)
    decreases attempts
  {
    if attempts != [] {
      var a, rest := attempts[0], attempts[1..];
      var filed := TableAfter(t, selector, a, local);
      TableAfterFresh(t, selector, a, local);
      if ResultFor(selector, a, local).Done? {
        FreshRest(t.Keys, attempts);
        TableAfterKeys(t, selector, a, local);
        ApplyThenDelete(filed, selector, rest, local);
        var applied := Apply(filed, selector, rest, local);
        var ref := RefFor(selector, a, local);
        DeleteOneMore(applied.table, ref, applied.refs);
        var residue := Residue(selector, rest, local);
        forall key | key in residue
          ensures key != a.id && key != ref.id
        {
          ResidueKeys(selector, rest, local, key);
          var i :| 0 <= i < |rest| && rest[i].id == key;
          assert rest[i] == attempts[i + 1];
        }
        DropFiled(t, a.id, filed[a.id], residue, ref.id);
      }
    }
  }

  lemma TableAfterKeys(t: PodTable, selector: map<string, string>, a: Attempt, local: string)
    ensures TableAfter(t, selector, a, local).Keys == t.Keys + if Place(selector, a).Some? then {a.id} else {}
  {
  }

  lemma DeleteOneMore(t: PodTable, ref: PodRef, refs: seq<PodRef>)
    ensures Delete(t, [ref] + refs) == Delete(t, refs) - {ref.id}
  {
    assert Ids([ref] + refs) == Ids(refs) + {ref.id};
  }

  /** Removing `ref` from a table to which `id` and a residue were added. */
  lemma DropFiled(t: PodTable, id: string, e: Entry, residue: PodTable, ref: string)
    requires id !in t && ref !in t && id !in residue && ref !in residue
    ensures (t[id := e] + residue) - {ref} == t + ((if ref == id then map[] else map[id := e]) + residue)
  {
  }

  lemma {:induction false} ResidueOfSuccess(t: PodTable, selector: map<string, string>, attempts: seq<Attempt>, local: string, key: string)
    requires Apply(t, selector, attempts, local).result.Done?
    ensures key in Residue(selector, attempts, local) <==>
            exists i :: 0 <= i < |attempts| && attempts[i].id == key && IsLocal(selector, attempts[i], local)
    decreases attempts
  {
    if attempts != [] {
      var rest := attempts[1..];
      ResidueOfSuccess(TableAfter(t, selector, attempts[0], local), selector, rest, local, key);
      assert forall i :: 0 <= i < |rest| ==> rest[i] == attempts[i + 1];
      if i :| 0 <= i < |attempts| && attempts[i].id == key && IsLocal(selector, attempts[i], local) {
        assert i > 0 ==> rest[i - 1].id == key && IsLocal(selector, rest[i - 1], local);
      }
    }
  }

  /** A delete is meant to undo a successful apply. It does so exactly when no replica was
      placed on the node that runs it. */
  lemma DeleteUndoesApplyIff(t: PodTable, selector: map<string, string>, attempts: seq<Attempt>, local: string)
    requires FreshIds(t.Keys, attempts)
    requires Apply(t, selector, attempts, local).result.Done?
    ensures var applied := Apply(t, selector, attempts, local);
            Delete(applied.table, applied.refs) == t <==> forall i :: 0 <= i < |attempts| ==> !IsLocal(selector, attempts[i], local)
  {
    ApplyThenDelete(t, selector, attempts, local);
    var residue := Residue(selector, attempts, local);
    forall i | 0 <= i < |attempts| && IsLocal(selector, attempts[i], local)
      ensures attempts[i].id in residue && attempts[i].id !in t
    {
      ResidueOfSuccess(t, selector, attempts, local, attempts[i].id);
    }
    forall key | key in residue
      ensures exists i :: 0 <= i < |attempts| && IsLocal(selector, attempts[i], local)
    {
      ResidueKeys(selector, attempts, local, key);
    }
    if t + residue == t {
      assert forall key :: key in residue ==> key in (t + residue);
    }
  }

  // ------------------------------------------------------ the corrected filing

  /** Starting the container of a pod filed under a.id when the pod is filed anew under the
      container's ID, and no longer under the generated one. */
  function StartedRefiled(t: PodTable, a: Attempt): PodTable
    requires a.id in t
  {
    if a.container.None? then t
    else
      var refiled := (t - {a.id})[a.container.value := t[a.id].(id := a.container.value)];
      if a.startFails then refiled else SetState(refiled, a.container.value, a.status)
  }

  /** The table after one replica in the corrected form: filed under the generated ID first, as
      scheduling comes before the container, and filed anew when the container is there. */
  function TableRefiled(t: PodTable, selector: map<string, string>, a: Attempt, local: string): PodTable {
    var place := Place(selector, a);
    if place.None? then t
    else
      var filed := t[a.id := Entry(a.id, place.value, Pending)];
      if place.value == local then StartedRefiled(filed, a) else filed
  }

  function ApplyRefiled(t: PodTable, selector: map<string, string>, attempts: seq<Attempt>, local: string): Applied
    decreases attempts
  {
    if attempts == [] then Applied(t, [], Done)
    else
      var a := attempts[0];
      var t1 := TableRefiled(t, selector, a, local);
      if !ResultFor(selector, a, local).Done? then Applied(t1, [], ResultFor(selector, a, local))
      else
        var rest := ApplyRefiled(t1, selector, attempts[1..], local);
        rest.(refs := [RefFor(selector, a, local)] + rest.refs)
  }

  /** The IDs under which pods are filed in the corrected form, at first and in the end, are
      not in the table and not those of earlier pods. */
  ghost predicate FreshFinalIds(keys: set<string>, selector: map<string, string>, attempts: seq<Attempt>, local: string) {
    && (forall i :: 0 <= i < |attempts| ==> attempts[i].id !in keys && FinalId(selector, attempts[i], local) !in keys)
    && (forall i, j :: 0 <= i < j < |attempts| ==>
          && FinalId(selector, attempts[i], local) != attempts[j].id
          && FinalId(selector, attempts[i], local) != FinalId(selector, attempts[j], local))
  }

  /** Filed that way, a delete undoes every successful apply. */
  lemma {:induction false} CorrectedDeleteUndoesApply(t: PodTable, selector: map<string, string>, attempts: seq<Attempt>, local: string)
    requires FreshFinalIds(t.Keys, selector, attempts, local)
    requires ApplyRefiled(t, selector, attempts, local).result.Done?
    ensures var applied := ApplyRefiled(t, selector, attempts, local);
            Delete(applied.table, applied.refs) == t
    decreases attempts
  {
    if attempts != [] {
      var a, rest := attempts[0], attempts[1..];
      var filed := TableRefiled(t, selector, a, local);
      var ref := RefFor(selector, a, local);
      RefiledKeys(t, selector, a, local);
      assert forall i :: 0 <= i < |rest| ==> rest[i] == attempts[i + 1];
      CorrectedDeleteUndoesApply(filed, selector, rest, local);
      var applied := ApplyRefiled(filed, selector, rest, local);
      DeleteOneMore(applied.table, ref, applied.refs);
    }
  }

  lemma RefiledKeys(t: PodTable, selector: map<string, string>, a: Attempt, local: string)
    requires ResultFor(selector, a, local).Done? && a.id !in t && FinalId(selector, a, local) !in t
    ensures var filed, id := TableRefiled(t, selector, a, local), FinalId(selector, a, local);
            filed.Keys == t.Keys + {id} && filed - {id} == t
  {
  }

  // ---------------------------------------------------------------- recovery

  /** The sum of the non-negative desired replicas. */
  function TotalReplicas(jobs: seq<Job>): nat {
    if jobs == [] then 0
    else
      var desired := jobs[|jobs| - 1].desiredReplicas;
      TotalReplicas(jobs[..|jobs| - 1]) + if desired > 0 then desired else 0
  }

  function TotalListed(lists: seq<seq<PodRef>>): nat {
    if lists == [] then 0 else TotalListed(lists[..|lists| - 1]) + |lists[|lists| - 1]|
  }

  ghost predicate WellSupplied(jobs: seq<Job>) {
    forall i :: 0 <= i < |jobs| ==> |jobs[i].attempts| == if jobs[i].desiredReplicas > 0 then jobs[i].desiredReplicas else 0
  }

  ghost predicate SomeFails(selector: map<string, string>, attempts: seq<Attempt>, local: string) {
    exists i :: 0 <= i < |attempts| && !ResultFor(selector, attempts[i], local).Done?
  }

  /** The number of replicas that do not start up. */
  function FailureCount(selector: map<string, string>, attempts: seq<Attempt>, local: string): nat {
    if attempts == [] then 0
    else
      FailureCount(selector, attempts[..|attempts| - 1], local) + if StartsUp(selector, attempts[|attempts| - 1], local) then 0 else 1
  }

  /** The pods of those that do, in order. */
  function StartedUp(selector: map<string, string>, attempts: seq<Attempt>, local: string): seq<PodRef> {
    if attempts == [] then []
    else
      var init, a := StartedUp(selector, attempts[..|attempts| - 1], local), attempts[|attempts| - 1];
      if StartsUp(selector, a, local) then init + [PodOf(selector, a, local)] else init
  }

  /** The recovery of one deployment lists exactly the replicas that started up and counts
      exactly the others. */
  lemma {:induction false} RecoverListsStarted(t: PodTable, selector: map<string, string>, attempts: seq<Attempt>, local: string)
    ensures var r := Recover(t, selector, attempts, local);
            r.refs == StartedUp(selector, attempts, local) && r.failed == FailureCount(selector, attempts, local)
    decreases attempts
  {
    if attempts != [] {
      var k := |attempts| - 1;
      RecoverListsStarted(t, selector, attempts[..k], local);
      ResultMeaning(selector, attempts[k], local);
    }
  }

  lemma {:induction false} RecoverAccounts(t: PodTable, selector: map<string, string>, attempts: seq<Attempt>, local: string)
    ensures var r := Recover(t, selector, attempts, local);
            |r.refs| + r.failed == |attempts| && (r.failed > 0 <==> SomeFails(selector, attempts, local))
    decreases attempts
  {
    if attempts != [] {
      var k := |attempts| - 1;
      RecoverAccounts(t, selector, attempts[..k], local);
      SomeFailsInParts(selector, attempts, local);
    }
  }

  lemma SomeFailsInParts(selector: map<string, string>, attempts: seq<Attempt>, local: string)
    requires attempts != []
    ensures var k := |attempts| - 1;
            SomeFails(selector, attempts, local) <==>
            SomeFails(selector, attempts[..k], local) || !ResultFor(selector, attempts[k], local).Done?
  {
    var k := |attempts| - 1;
    assert forall i :: 0 <= i < k ==> attempts[..k][i] == attempts[i];
    if i :| 0 <= i < |attempts| && !ResultFor(selector, attempts[i], local).Done? {
      assert i < k ==> !ResultFor(selector, attempts[..k][i], local).Done?;
    }
  }

  /** Whatever fails, every desired replica is either listed in its deployment or counted as
      failed, and an error is returned exactly when some replica failed. */
  lemma {:induction false} RecoveryAccounts(t: PodTable, jobs: seq<Job>, local: string)
    requires WellSupplied(jobs)
    ensures var all := RecoverAll(t, jobs, local);
            && TotalListed(all.lists) + all.failed == TotalReplicas(jobs)
            && (all.failed > 0 <==> exists j :: 0 <= j < |jobs| && SomeFails(jobs[j].selector, jobs[j].attempts, local))
    decreases jobs
  {
    if jobs != [] {
      var k := |jobs| - 1;
      RecoveryAccounts(t, jobs[..k], local);
      var all := RecoverAll(t, jobs[..k], local);
      RecoverAccounts(all.table, jobs[k].selector, jobs[k].attempts, local);
      var refs := Recover(all.table, jobs[k].selector, jobs[k].attempts, local).refs;
      assert (all.lists + [refs])[..|all.lists|] == all.lists;
      assert forall j :: 0 <= j < k ==> jobs[..k][j] == jobs[j];
    }
  }

  /** The generated IDs of the attempts that a node was found for, in order. */
  function ScheduledIds(selector: map<string, string>, attempts: seq<Attempt>): seq<string> {
    if attempts == [] then []
    else
      var init := ScheduledIds(selector, attempts[..|attempts| - 1]);
      var a := attempts[|attempts| - 1];
      if Place(selector, a).Some? then init + [a.id] else init
  }

  function AllScheduledIds(jobs: seq<Job>): seq<string> {
    if jobs == [] then []
    else AllScheduledIds(jobs[..|jobs| - 1]) + ScheduledIds(jobs[|jobs| - 1].selector, jobs[|jobs| - 1].attempts)
  }

  lemma {:induction false} KeysAfterRecover(t: PodTable, selector: map<string, string>, attempts: seq<Attempt>, local: string)
    ensures Recover(t, selector, attempts, local).table.Keys == t.Keys + Elements(ScheduledIds(selector, attempts))
    decreases attempts
  {
    if attempts != [] {
      var k := |attempts| - 1;
      KeysAfterRecover(t, selector, attempts[..k], local);
      TableAfterKeys(Recover(t, selector, attempts[..k], local).table, selector, attempts[k], local);
      var init := ScheduledIds(selector, attempts[..k]);
      assert Elements(init + [attempts[k].id]) == Elements(init) + {attempts[k].id};
    }
  }

  lemma {:induction false} KeysAfterRecovery(t: PodTable, jobs: seq<Job>, local: string)
    ensures RecoverAll(t, jobs, local).table.Keys == t.Keys + Elements(AllScheduledIds(jobs))
    decreases jobs
  {
    if jobs != [] {
      var k := |jobs| - 1;
      KeysAfterRecovery(t, jobs[..k], local);
      KeysAfterRecover(RecoverAll(t, jobs[..k], local).table, jobs[k].selector, jobs[k].attempts, local);
      var a, b := AllScheduledIds(jobs[..k]), ScheduledIds(jobs[k].selector, jobs[k].attempts);
      assert Elements(a + b) == Elements(a) + Elements(b);
    }
  }

  lemma {:induction false} GrowthByDistinct(keys: set<string>, s: seq<string>)
    requires forall i :: 0 <= i < |s| ==> s[i] !in keys
    requires forall i, j :: 0 <= i < j < |s| ==> s[i] != s[j]
    ensures |keys + Elements(s)| == |keys| + |s|
  {
    if s == [] {
      assert keys + Elements(s) == keys;
    } else {
      var k := |s| - 1;
      GrowthByDistinct(keys, s[..k]);
      assert keys + Elements(s) == (keys + Elements(s[..k])) + {s[k]};
    }
  }

  /** With fresh IDs the table grows by exactly one pod for every replica that was scheduled,
      also by those whose container then failed to be created or started. */
  lemma RecoveryGrowsTableByScheduled(t: PodTable, jobs: seq<Job>, local: string)
    requires var ids := AllScheduledIds(jobs);
             && (forall i :: 0 <= i < |ids| ==> ids[i] !in t)
             && (forall i, j :: 0 <= i < j < |ids| ==> ids[i] != ids[j])
    ensures |RecoverAll(t, jobs, local).table| == |t| + |AllScheduledIds(jobs)|
  {
    KeysAfterRecovery(t, jobs, local);
    GrowthByDistinct(t.Keys, AllScheduledIds(jobs));
    assert |RecoverAll(t, jobs, local).table| == |RecoverAll(t, jobs, local).table.Keys|;
    assert |t| == |t.Keys|;
  }
}
