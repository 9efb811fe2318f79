/** The status automaton of src/App.tsx: the toggle command and the two
    propagation walks `upgradeAndPropagate` (DONE to COMPLETE, climbing) and
    `downgradeParents` (COMPLETE to DONE, climbing). */
module StatusPropagation {
  import opened Tasks
  import opened Forest

  predicate AllComplete(cs: seq<Task>)
  {
    forall c :: c in cs ==> c.status == Complete
  }

  function IdSet(pid: Option<int>): set<int>
  {
    if pid.Some? then {pid.value} else {}
  }

  /** A COMPLETE task has only COMPLETE direct children, except where the
      parent's id is in `ex`. */
  predicate ConsistentExcept(ts: seq<Task>, ex: set<int>)
  {
    forall i, j ::
      (0 <= i < |ts| && 0 <= j < |ts| && ts[j].parentId == Some(ts[i].id) &&
       ts[i].status == Complete && ts[i].id !in ex) ==> ts[j].status == Complete
  }

  /** The status invariant: every COMPLETE task has only COMPLETE direct children. */
  predicate Consistent(ts: seq<Task>)
  {
    ConsistentExcept(ts, {})
  }

  /** Task `i` was changed by a walk that produced `r` from `ts`. */
  predicate Changed(ts: seq<Task>, r: seq<Task>, i: int)
    requires |ts| == |r|
  {
    0 <= i < |ts| && r[i] != ts[i]
  }

  /** `upgradeAndPropagate(tasksList, id)`: a DONE task whose direct children are all
      COMPLETE (vacuously so when it has none) becomes COMPLETE, and only then does
      the walk climb to its parent. */
  function UpgradeAndPropagate(ts: seq<Task>, id: int): (r: seq<Task>)
    ensures SameExceptStatus(ts, r)
    ensures forall i :: 0 <= i < |ts| ==> r[i] == ts[i] || (ts[i].status == Done && r[i].status == Complete)
    ensures var k := FindIndex(ts, id);
      k >= 0 && ts[k].status == Done && AllComplete(Children(ts, ts[k].id)) ==> r[k].status == Complete
    decreases CountStatus(ts, Done)
  {
    var k := FindIndex(ts, id);
    if k == -1 || ts[k].status != Done || !AllComplete(Children(ts, ts[k].id)) then ts
    else
      var ts1 := ts[k := ts[k].(status := Complete)];
      CountStatusUpdate(ts, k, Done, Complete);
      if ts[k].parentId.None? then ts1 else UpgradeAndPropagate(ts1, ts[k].parentId.value)
  }

  /** `downgradeParents(tasksList, parentId)`: a COMPLETE ancestor becomes DONE (never
      IN_PROGRESS) and the walk climbs on; it stops at the root, at a missing id, or
      at the first ancestor that is not COMPLETE. */
  function DowngradeParents(ts: seq<Task>, pid: Option<int>): (r: seq<Task>)
    ensures SameExceptStatus(ts, r)
    ensures forall i :: 0 <= i < |ts| ==> r[i] == ts[i] || (ts[i].status == Complete && r[i].status == Done)
    decreases CountStatus(ts, Complete)
  {
    if pid.None? then ts
    else
      var k := FindIndex(ts, pid.value);
      if k == -1 || ts[k].status != Complete then ts
      else
        CountStatusUpdate(ts, k, Complete, Done);
        DowngradeParents(ts[k := ts[k].(status := Done)], ts[k].parentId)
  }

  /** `handleToggleStatus(id)`: IN_PROGRESS becomes DONE and an upgrade is tried on the
      task; DONE or COMPLETE becomes IN_PROGRESS and the parents are downgraded; an
      unknown id leaves the list as it was. */
  function ToggleStatus(ts: seq<Task>, id: int): (r: seq<Task>)
    ensures SameExceptStatus(ts, r)
    ensures FindIndex(ts, id) == -1 ==> r == ts
    ensures var k := FindIndex(ts, id);
      k >= 0 && ts[k].status == InProgress ==> r[k].status == Done || r[k].status == Complete
    ensures var k := FindIndex(ts, id);
      k >= 0 && ts[k].status == InProgress ==> (r[k].status == Complete <==> AllComplete(Children(ts, id)))
    ensures var k := FindIndex(ts, id);
      k >= 0 && ts[k].status != InProgress ==> r[k].status == InProgress
  {
    var k := FindIndex(ts, id);
    if k == -1 then ts
    else if ts[k].status == InProgress then
      MarkDoneKeepsReadiness(ts, k);
      UpgradeAndPropagate(ts[k := ts[k].(status := Done)], id)
    else
      DowngradeParents(ts[k := ts[k].(status := InProgress)], ts[k].parentId)
  }

  /** Marking an IN_PROGRESS task DONE moves no id and leaves the question "are all its
      direct children COMPLETE?" with the same answer. */
  lemma {:induction false} MarkDoneKeepsReadiness(ts: seq<Task>, k: int)
    requires 0 <= k < |ts| && ts[k].status == InProgress
    ensures var t0 := ts[k := ts[k].(status := Done)];
      AllComplete(Children(t0, ts[k].id)) <==> AllComplete(Children(ts, ts[k].id))
  {
    var id := ts[k].id;
    var t0 := ts[k := ts[k].(status := Done)];
    if ts[k].parentId == Some(id) {
      assert ts[k] in Children(ts, id);
      assert t0[k] in Children(t0, id);
    } else {
      SameChildren(ts, t0, k, id);
    }
  }

  /** Changing a task that is not a child of `id` leaves the children of `id` as they were. */
  lemma {:induction false} SameChildren(ts: seq<Task>, t0: seq<Task>, k: int, id: int)
    requires |t0| == |ts| && 0 <= k < |ts| && ts[k].parentId != Some(id) && t0[k].parentId != Some(id)
    requires forall m :: 0 <= m < |ts| && m != k ==> t0[m] == ts[m]
    ensures forall c :: c in Children(t0, id) <==> c in Children(ts, id)
  {
    forall c | c in Children(t0, id)
      ensures c in Children(ts, id)
    {
      var m :| 0 <= m < |t0| && t0[m] == c;
      assert ts[m] == c;
    }
    forall c | c in Children(ts, id)
      ensures c in Children(t0, id)
    {
      var m :| 0 <= m < |ts| && ts[m] == c;
      assert t0[m] == c;
    }
  }

  /** Upgrading keeps the status invariant. */
  lemma {:induction false} UpgradeKeepsConsistency(ts: seq<Task>, id: int)
    requires Consistent(ts)
    ensures Consistent(UpgradeAndPropagate(ts, id))
    decreases CountStatus(ts, Done)
  {
    var k := FindIndex(ts, id);
    if k != -1 && ts[k].status == Done && AllComplete(Children(ts, ts[k].id)) {
      var ts1 := ts[k := ts[k].(status := Complete)];
      forall i, j | 0 <= i < |ts1| && 0 <= j < |ts1| && ts1[j].parentId == Some(ts1[i].id) &&
        ts1[i].status == Complete
        ensures ts1[j].status == Complete
      {
        if j != k {
          assert ts[j] in Children(ts, ts[k].id) || ts[i].status == Complete;
        }
      }
      CountStatusUpdate(ts, k, Done, Complete);
      if ts[k].parentId.Some? {
        UpgradeKeepsConsistency(ts1, ts[k].parentId.value);
      }
    }
  }

  /** The walk climbs: when the task at `k` is upgraded, its parent at `q` is upgraded
      too if it is DONE and every other direct child of it is already COMPLETE. */
  lemma {:induction false} UpgradeClimbs(ts: seq<Task>, id: int, k: int, q: int)
    requires k == FindIndex(ts, id) && k >= 0 && ts[k].status == Done && AllComplete(Children(ts, id))
    requires ts[k].parentId.Some? && q == FindIndex(ts, ts[k].parentId.value) && q >= 0
    requires ts[q].status == Done
    requires forall m :: 0 <= m < |ts| && m != k && ts[m].parentId == ts[k].parentId ==> ts[m].status == Complete
    ensures UpgradeAndPropagate(ts, id)[q].status == Complete
  {
    var p := ts[k].parentId.value;
    var ts1 := ts[k := ts[k].(status := Complete)];
    CountStatusUpdate(ts, k, Done, Complete);
    assert UpgradeAndPropagate(ts, id) == UpgradeAndPropagate(ts1, p);
    assert FindIndex(ts1, p) == q;
    forall c | c in Children(ts1, p)
      ensures c.status == Complete
    {
      var m :| 0 <= m < |ts1| && ts1[m] == c;
      if m != k {
        assert ts[m] == c;
      }
    }
  }

  /** Every task the upgrade walk changes ends with only COMPLETE direct children. */
  lemma {:induction false} UpgradeChangesOnlyReadyTasks(ts: seq<Task>, id: int)
    ensures var r := UpgradeAndPropagate(ts, id);
      forall i, j :: Changed(ts, r, i) && 0 <= j < |ts| && ts[j].parentId == Some(ts[i].id) ==>
        r[j].status == Complete
    decreases CountStatus(ts, Done)
  {
    var r := UpgradeAndPropagate(ts, id);
    var k := FindIndex(ts, id);
    if k != -1 && ts[k].status == Done && AllComplete(Children(ts, ts[k].id)) {
      var ts1 := ts[k := ts[k].(status := Complete)];
      CountStatusUpdate(ts, k, Done, Complete);
      if ts[k].parentId.Some? {
        assert r == UpgradeAndPropagate(ts1, ts[k].parentId.value);
        UpgradeChangesOnlyReadyTasks(ts1, ts[k].parentId.value);
      } else {
        assert r == ts1;
      }
      forall i, j | Changed(ts, r, i) && 0 <= j < |ts| && ts[j].parentId == Some(ts[i].id)
        ensures r[j].status == Complete
      {
        ReadyStep(ts, ts1, r, k, i, j);
      }
    }
  }

  /** One step of `UpgradeChangesOnlyReadyTasks`: a task changed by the walk is either the
      one just upgraded, whose children are all COMPLETE, or one the rest of the walk
      changed. */
  lemma {:induction false} ReadyStep(ts: seq<Task>, ts1: seq<Task>, r: seq<Task>, k: int, i: int, j: int)
    requires |ts1| == |ts| == |r| && 0 <= k < |ts|
    requires forall m :: 0 <= m < |ts| && m != k ==> ts1[m] == ts[m]
    requires ts1[k].id == ts[k].id && ts1[k].parentId == ts[k].parentId
    requires AllComplete(Children(ts, ts[k].id))
    requires forall m :: 0 <= m < |ts| ==> r[m] == ts[m] || (ts[m].status == Done && r[m].status == Complete)
    requires forall i, j :: Changed(ts1, r, i) && 0 <= j < |ts1| && ts1[j].parentId == Some(ts1[i].id) ==>
      r[j].status == Complete
    requires Changed(ts, r, i) && 0 <= j < |ts| && ts[j].parentId == Some(ts[i].id)
    ensures r[j].status == Complete
  {
    if i == k {
      assert ts[j] in Children(ts, ts[k].id);
    } else {
      assert ts1[i] == ts[i] && ts1[j].parentId == ts[j].parentId;
      assert Changed(ts1, r, i);
    }
  }

  /** Every task the upgrade walk changes is the starting task or the parent of
      another changed task: the walk climbs only after a change. */
  lemma {:induction false} UpgradeChangesOnlyAncestors(ts: seq<Task>, id: int)
    ensures var r := UpgradeAndPropagate(ts, id);
      forall i :: Changed(ts, r, i) ==>
        ts[i].id == id || exists j :: Changed(ts, r, j) && ts[j].parentId == Some(ts[i].id)
    decreases CountStatus(ts, Done)
  {
    var r := UpgradeAndPropagate(ts, id);
    var k := FindIndex(ts, id);
    if k != -1 && ts[k].status == Done && AllComplete(Children(ts, ts[k].id)) {
      var ts1 := ts[k := ts[k].(status := Complete)];
      CountStatusUpdate(ts, k, Done, Complete);
      if ts[k].parentId.Some? {
        assert r == UpgradeAndPropagate(ts1, ts[k].parentId.value);
        UpgradeChangesOnlyAncestors(ts1, ts[k].parentId.value);
      } else {
        assert r == ts1;
      }
      assert r[k] == ts1[k];
      ClimbStep(ts, ts1, r, k);
    }
  }

  /** One step of a climbing walk: the walk changed the task at `k` and then went on
      from its parent, so every task changed later is the parent of a changed task. */
  lemma {:induction false} ClimbStep(ts: seq<Task>, ts1: seq<Task>, r: seq<Task>, k: int)
    requires |ts1| == |ts| == |r| && 0 <= k < |ts|
    requires forall j :: 0 <= j < |ts| && j != k ==> ts1[j] == ts[j]
    requires ts1[k].id == ts[k].id && ts1[k].parentId == ts[k].parentId
    requires r[k] == ts1[k] != ts[k]
    requires forall i :: Changed(ts1, r, i) ==>
      Some(ts1[i].id) == ts[k].parentId || exists j :: Changed(ts1, r, j) && ts1[j].parentId == Some(ts1[i].id)
    ensures forall i :: Changed(ts, r, i) && i != k ==> exists j :: Changed(ts, r, j) && ts[j].parentId == Some(ts[i].id)
  {
    forall i | Changed(ts, r, i) && i != k
      ensures exists j :: Changed(ts, r, j) && ts[j].parentId == Some(ts[i].id)
    {
      ClimbStepAt(ts, ts1, r, k, i);
    }
  }

  /** `ClimbStep` for the task at `i`. */
  lemma {:induction false} ClimbStepAt(ts: seq<Task>, ts1: seq<Task>, r: seq<Task>, k: int, i: int)
    requires |ts1| == |ts| == |r| && 0 <= k < |ts| && i != k
    requires forall j :: 0 <= j < |ts| && j != k ==> ts1[j] == ts[j]
    requires ts1[k].id == ts[k].id && ts1[k].parentId == ts[k].parentId
    requires r[k] == ts1[k] != ts[k]
    requires forall i :: Changed(ts1, r, i) ==>
      Some(ts1[i].id) == ts[k].parentId || exists j :: Changed(ts1, r, j) && ts1[j].parentId == Some(ts1[i].id)
    requires Changed(ts, r, i)
    ensures exists j :: Changed(ts, r, j) && ts[j].parentId == Some(ts[i].id)
  {
    assert ts1[i] == ts[i];
    assert Changed(ts1, r, i);
    if Some(ts1[i].id) == ts[k].parentId {
      assert Changed(ts, r, k);
    } else {
      var j :| Changed(ts1, r, j) && ts1[j].parentId == Some(ts1[i].id);
      assert ts1[j] == ts[j];
      assert Changed(ts, r, j);
    }
  }

  /** Downgrading from `pid` repairs a list whose only possible fault is at `pid`. */
  lemma {:induction false} DowngradeRestoresConsistency(ts: seq<Task>, pid: Option<int>, ex: set<int>)
    requires UniqueIds(Links(ts))
    requires ConsistentExcept(ts, ex + IdSet(pid))
    ensures ConsistentExcept(DowngradeParents(ts, pid), ex)
    decreases CountStatus(ts, Complete)
  {
    if pid.Some? {
      var k := FindIndex(ts, pid.value);
      if k == -1 || ts[k].status != Complete {
        forall i, j | 0 <= i < |ts| && 0 <= j < |ts| && ts[j].parentId == Some(ts[i].id) &&
          ts[i].status == Complete && ts[i].id !in ex
          ensures ts[j].status == Complete
        {
          if ts[i].id == pid.value {
            if k != -1 {
              UniqueIdIndex(ts, i, k);
            }
            assert false;
          }
        }
      } else {
        var ts1 := ts[k := ts[k].(status := Done)];
        LinksIgnoreStatus(ts, ts1);
        forall i, j | 0 <= i < |ts1| && 0 <= j < |ts1| && ts1[j].parentId == Some(ts1[i].id) &&
          ts1[i].status == Complete && ts1[i].id !in ex + IdSet(ts[k].parentId)
          ensures ts1[j].status == Complete
        {
          if ts[i].id == pid.value {
            UniqueIdIndex(ts, i, k);
            assert false;
          }
        }
        CountStatusUpdate(ts, k, Complete, Done);
        DowngradeRestoresConsistency(ts1, ts[k].parentId, ex);
      }
    }
  }

  /** Every task the downgrade walk changes is the starting ancestor or the parent of
      another changed task: the walk touches the ancestor chain only. */
  lemma {:induction false} DowngradeChangesOnlyAncestors(ts: seq<Task>, pid: Option<int>)
    ensures var r := DowngradeParents(ts, pid);
      forall i :: Changed(ts, r, i) ==>
        Some(ts[i].id) == pid || exists j :: Changed(ts, r, j) && ts[j].parentId == Some(ts[i].id)
    decreases CountStatus(ts, Complete)
  {
    var r := DowngradeParents(ts, pid);
    if pid.Some? {
      var k := FindIndex(ts, pid.value);
      if k != -1 && ts[k].status == Complete {
        var ts1 := ts[k := ts[k].(status := Done)];
        CountStatusUpdate(ts, k, Complete, Done);
        DowngradeChangesOnlyAncestors(ts1, ts[k].parentId);
        assert r[k] == ts1[k];
        ClimbStep(ts, ts1, r, k);
      }
    }
  }

  /** Toggling keeps the status invariant. */
  lemma {:induction false} ToggleKeepsConsistency(ts: seq<Task>, id: int)
    requires UniqueIds(Links(ts)) && Consistent(ts)
    ensures Consistent(ToggleStatus(ts, id))
  {
    var k := FindIndex(ts, id);
    if k != -1 {
      if ts[k].status == InProgress {
        var ts1 := ts[k := ts[k].(status := Done)];
        forall i, j | 0 <= i < |ts1| && 0 <= j < |ts1| && ts1[j].parentId == Some(ts1[i].id) &&
          ts1[i].status == Complete
          ensures ts1[j].status == Complete
        {
          assert ts[i].status == Complete && ts[j].parentId == Some(ts[i].id);
        }
        UpgradeKeepsConsistency(ts1, id);
      } else {
        var ts1 := ts[k := ts[k].(status := InProgress)];
        LinksIgnoreStatus(ts, ts1);
        forall i, j | 0 <= i < |ts1| && 0 <= j < |ts1| && ts1[j].parentId == Some(ts1[i].id) &&
          ts1[i].status == Complete && ts1[i].id !in {} + IdSet(ts[k].parentId)
          ensures ts1[j].status == Complete
        {
          assert ts[i].status == Complete && ts[j].parentId == Some(ts[i].id);
        }
        DowngradeRestoresConsistency(ts1, ts[k].parentId, {});
      }
    }
  }

  /** Under the status invariant, no task above a task that is not COMPLETE is COMPLETE. */
  lemma {:induction false} NoCompleteAbove(ts: seq<Task>, j: int, a: int, rank: map<int, nat>)
    requires Consistent(ts) && RankedBy(Links(ts), rank) && UniqueIds(Links(ts))
    requires 0 <= j < |ts| && ts[j].status != Complete
    requires IsDescendant(Links(ts), a, ts[j].id, rank)
    ensures forall i :: 0 <= i < |ts| && ts[i].id == a ==> ts[i].status != Complete
    decreases RankOf(rank, a) - RankOf(rank, ts[j].id)
  {
    var ls := Links(ts);
    DescendantRank(ls, a, ts[j].id, rank);
    DescendantUp(ls, a, j, rank);
    var p := ts[j].parentId.value;
    if p != a {
      DescendantRank(ls, a, p, rank);
      var q :| 0 <= q < |ls| && ls[q].id == p;
      NoCompleteAbove(ts, q, a, rank);
    }
  }

  /** Toggling a task off leaves no COMPLETE task anywhere above it. */
  lemma {:induction false} ToggleOffClearsAncestors(ts: seq<Task>, id: int, rank: map<int, nat>)
    requires UniqueIds(Links(ts)) && Consistent(ts) && RankedBy(Links(ts), rank)
    requires FindIndex(ts, id) >= 0 && ts[FindIndex(ts, id)].status != InProgress
    ensures var r := ToggleStatus(ts, id);
      forall a, i :: 0 <= i < |r| && r[i].id == a && IsDescendant(Links(r), a, id, rank) ==>
        r[i].status != Complete
  {
    var r := ToggleStatus(ts, id);
    var k := FindIndex(ts, id);
    LinksIgnoreStatus(ts, r);
    ToggleKeepsConsistency(ts, id);
    forall a | IsDescendant(Links(r), a, id, rank)
      ensures forall i :: 0 <= i < |r| && r[i].id == a ==> r[i].status != Complete
    {
      NoCompleteAbove(r, k, a, rank);
    }
  }
}
