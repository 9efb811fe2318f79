/** `isTaskComplete` of src/utils/taskUtils.ts: the recursive test that the reducer variant
    uses to decide whether a DONE task may become COMPLETE. */
module TaskUtils {
  import opened Tasks
  import opened Forest

  /** `isTaskComplete(task, allTasks)`: the task is DONE and every task whose parent is
      `task.id` passes the same test. The recursion follows child links downwards, so it
      is given a ranking of the list (on an all-DONE cycle the source recurses until the
      call stack overflows and throws). */
  predicate IsTaskComplete(t: Task, all: seq<Task>, ghost rank: map<int, nat>)
    requires RankedBy(Links(all), rank)
    decreases RankOf(rank, t.id), 1
  {
    t.status == Done && ChildrenComplete(all, t.id, 0, rank)
  }

  /** `children.every(child => isTaskComplete(child, allTasks))`, scanning the list from
      index `i` for the tasks whose parent is `p`. */
  predicate ChildrenComplete(all: seq<Task>, p: int, i: int, ghost rank: map<int, nat>)
    requires RankedBy(Links(all), rank) && 0 <= i <= |all|
    decreases RankOf(rank, p), 0, |all| - i
  {
    if i == |all| then true
    else if all[i].parentId == Some(p) then
      assert Links(all)[i] == Link(all[i].id, all[i].parentId);
      IsTaskComplete(all[i], all, rank) && ChildrenComplete(all, p, i + 1, rank)
    else ChildrenComplete(all, p, i + 1, rank)
  }

  /** The scan succeeds exactly when every child from index `i` on passes the test. */
  lemma {:induction false} ChildrenCompleteAll(all: seq<Task>, p: int, i: int, rank: map<int, nat>)
    requires RankedBy(Links(all), rank) && 0 <= i <= |all|
    ensures ChildrenComplete(all, p, i, rank) <==>
      forall j :: i <= j < |all| && all[j].parentId == Some(p) ==> IsTaskComplete(all[j], all, rank)
    decreases |all| - i
  {
    if i < |all| {
      ChildrenCompleteAll(all, p, i + 1, rank);
    }
  }

  /** Lines 12-13: a DONE task without children passes (`[].every` is true). */
  lemma {:induction false} DoneLeafComplete(t: Task, all: seq<Task>, rank: map<int, nat>)
    requires RankedBy(Links(all), rank) && t.status == Done && Children(all, t.id) == []
    ensures IsTaskComplete(t, all, rank)
  {
    forall j | 0 <= j < |all|
      ensures all[j].parentId != Some(t.id)
    {
      assert all[j] !in Children(all, t.id);
    }
    ChildrenCompleteAll(all, t.id, 0, rank);
  }

  /** Line 13: one failing child makes the parent fail. */
  lemma {:induction false} FailingChildFails(t: Task, all: seq<Task>, j: int, rank: map<int, nat>)
    requires RankedBy(Links(all), rank) && 0 <= j < |all| && all[j].parentId == Some(t.id)
    requires !IsTaskComplete(all[j], all, rank)
    ensures !IsTaskComplete(t, all, rank)
  {
    ChildrenCompleteAll(all, t.id, 0, rank);
  }

  /** The whole subtree below `t` is DONE. */
  ghost predicate SubtreeDone(t: Task, all: seq<Task>, rank: map<int, nat>)
    requires RankedBy(Links(all), rank)
  {
    t.status == Done &&
    forall j :: 0 <= j < |all| && IsDescendant(Links(all), t.id, all[j].id, rank) ==> all[j].status == Done
  }

  /** On a ranked list with unique ids, the test holds exactly when the task and every
      task below it are DONE: a task that is not DONE fails (line 10), and so does one
      with a COMPLETE task anywhere below it. */
  lemma {:induction false} CompleteIffSubtreeDone(t: Task, all: seq<Task>, rank: map<int, nat>)
    requires RankedBy(Links(all), rank) && UniqueIds(Links(all))
    ensures IsTaskComplete(t, all, rank) <==> SubtreeDone(t, all, rank)
    decreases RankOf(rank, t.id)
  {
    var ls := Links(all);
    ChildrenCompleteAll(all, t.id, 0, rank);
    forall i | 0 <= i < |all| && all[i].parentId == Some(t.id)
      ensures IsTaskComplete(all[i], all, rank) <==> SubtreeDone(all[i], all, rank)
    {
      assert ls[i] == Link(all[i].id, all[i].parentId);
      CompleteIffSubtreeDone(all[i], all, rank);
    }
    if IsTaskComplete(t, all, rank) {
      forall j | 0 <= j < |all| && IsDescendant(ls, t.id, all[j].id, rank)
        ensures all[j].status == Done
      {
        var i :| 0 <= i < |ls| && ls[i].parentId == Some(t.id) &&
          (ls[i].id == all[j].id || IsDescendant(ls, ls[i].id, all[j].id, rank));
        assert SubtreeDone(all[i], all, rank);
        if ls[i].id == all[j].id {
          UniqueIdIndex(all, i, j);
        }
      }
    }
    if SubtreeDone(t, all, rank) {
      forall i | 0 <= i < |all| && all[i].parentId == Some(t.id)
        ensures SubtreeDone(all[i], all, rank)
      {
        assert ls[i] == Link(all[i].id, all[i].parentId);
        assert IsDescendant(ls, t.id, all[i].id, rank);
        forall j | 0 <= j < |all| && IsDescendant(ls, all[i].id, all[j].id, rank)
          ensures all[j].status == Done
        {
          assert IsDescendant(ls, t.id, all[j].id, rank);
        }
      }
    }
  }

  /** Lines 12-13: the result reads only the statuses inside the task's subtree. Two lists
      with the same ids and parents that agree on the statuses below `t` give the same
      answer for `t`, whatever they hold elsewhere. */
  lemma {:induction false} CompleteReadsOnlySubtree(t: Task, t': Task, a: seq<Task>, b: seq<Task>, rank: map<int, nat>)
    requires RankedBy(Links(a), rank) && Links(a) == Links(b)
    requires t.id == t'.id && t.status == t'.status
    requires forall j :: 0 <= j < |a| && IsDescendant(Links(a), t.id, a[j].id, rank) ==> a[j].status == b[j].status
    ensures IsTaskComplete(t, a, rank) == IsTaskComplete(t', b, rank)
    decreases RankOf(rank, t.id)
  {
    var ls := Links(a);
    assert |a| == |b| by { assert |Links(a)| == |Links(b)|; }
    ChildrenCompleteAll(a, t.id, 0, rank);
    ChildrenCompleteAll(b, t.id, 0, rank);
    forall i | 0 <= i < |a| && a[i].parentId == Some(t.id)
      ensures b[i].parentId == Some(t.id)
      ensures IsTaskComplete(a[i], a, rank) == IsTaskComplete(b[i], b, rank)
    {
      assert ls[i] == Link(a[i].id, a[i].parentId) == Links(b)[i];
      assert IsDescendant(ls, t.id, a[i].id, rank);
      forall j | 0 <= j < |a| && IsDescendant(ls, a[i].id, a[j].id, rank)
        ensures a[j].status == b[j].status
      {
        assert IsDescendant(ls, t.id, a[j].id, rank);
      }
      CompleteReadsOnlySubtree(a[i], b[i], a, b, rank);
    }
    forall i | 0 <= i < |b| && b[i].parentId == Some(t.id)
      ensures a[i].parentId == Some(t.id)
    {
      assert ls[i] == Links(b)[i];
    }
  }
}
