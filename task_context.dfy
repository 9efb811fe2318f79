/** The reducer of src/context/TaskContext.tsx: a second, simpler command engine that
    appends tasks, toggles statuses and then makes one pass of COMPLETE propagation. */
module TaskContext {
  import opened Tasks
  import opened Forest
  import opened TaskUtils

  /** The two actions of the reducer, plus any other action object, which the `default`
      branch answers. The toggled id is compared with the task ids directly. */
  datatype Action = AddTask(task: Task) | ToggleTask(id: int) | Unknown

  /** Line 49-51: the loop body at index `i`. A DONE task with at least one child becomes
      COMPLETE when `isTaskComplete` holds for it in the list as it stands. The branch of
      lines 52-53 lies under the DONE guard and never fires, so it has no counterpart. */
  function Visit(s: seq<Task>, i: int, ghost rank: map<int, nat>): (r: seq<Task>)
    requires RankedBy(Links(s), rank) && 0 <= i < |s|
    ensures |r| == |s| && Links(r) == Links(s)
    ensures forall j :: 0 <= j < |s| && j != i ==> r[j] == s[j]
    ensures r[i] == s[i] || (s[i].status == Done && r[i].status == Complete)
  {
    if s[i].status == Done && ChildIds(Links(s), s[i].id) != [] && IsTaskComplete(s[i], s, rank) then
      s[i := s[i].(status := Complete)]
    else s
  }

  /** The list after the loop of lines 46-56 has visited indices `0 .. n-1`. */
  function Processed(ts: seq<Task>, n: int, ghost rank: map<int, nat>): (r: seq<Task>)
    requires RankedBy(Links(ts), rank) && 0 <= n <= |ts|
    ensures |r| == |ts| && Links(r) == Links(ts)
    decreases n
  {
    if n == 0 then ts
    else Visit(Processed(ts, n - 1, rank), n - 1, rank)
  }

  /** `propagateStatus(tasks)`: the list after the loop has visited every index. */
  function Propagate(ts: seq<Task>, ghost rank: map<int, nat>): seq<Task>
    requires RankedBy(Links(ts), rank)
  {
    Processed(ts, |ts|, rank)
  }

  /** `propagateStatus` (lines 43-58): the loop over a copy of the list, where each
      visit sees the writes of the earlier ones. */
  method PropagateStatus(tasks: seq<Task>, ghost rank: map<int, nat>) returns (r: seq<Task>)
    requires RankedBy(Links(tasks), rank)
    ensures r == Propagate(tasks, rank)
  {
    var updated := ToArray(tasks);
    for i := 0 to updated.Length
      invariant updated[..] == Processed(tasks, i, rank)
    {
      ProcessedStep(tasks, i + 1, rank);
      VisitInPlace(updated, i, rank);
    }
    r := updated[..];
  }

  /** Lines 47-55: one turn of the loop, writing into the copy. */
  method VisitInPlace(updated: array<Task>, i: int, ghost rank: map<int, nat>)
    requires 0 <= i < updated.Length && RankedBy(Links(updated[..]), rank)
    modifies updated
    ensures updated[..] == Visit(old(updated[..]), i, rank)
  {
    var task := updated[i];
    var children := Children(updated[..], task.id);
    ChildIdsOfTasks(updated[..], task.id);
    if task.status == Done && |children| > 0 {
      if IsTaskComplete(task, updated[..], rank) {
        updated[i] := task.(status := Complete);
      }
    }
  }

  /** Lines 22-32: the matching tasks flip IN_PROGRESS to DONE and anything else to
      IN_PROGRESS. */
  function ToggleMatching(state: seq<Task>, id: int): (r: seq<Task>)
    ensures SameExceptStatus(state, r)
  {
    seq(|state|, i requires 0 <= i < |state| =>
      if state[i].id == id then
        state[i].(status := if state[i].status == InProgress then Done else InProgress)
      else state[i])
  }

  /** `reducer(state, action)` (lines 16-41). */
  function Reducer(state: seq<Task>, action: Action, ghost rank: map<int, nat>): (r: seq<Task>)
    requires action.ToggleTask? ==> RankedBy(Links(state), rank)
    ensures action.AddTask? ==> |r| == |state| + 1 && r[..|state|] == state && r[|state|] == action.task
    ensures action.Unknown? ==> r == state
  {
    match action
    case AddTask(t) => state + [t]
    case ToggleTask(id) =>
      var toggled := ToggleMatching(state, id);
      LinksIgnoreStatus(state, toggled);
      Propagate(toggled, rank)
    case Unknown => state
  }

  /** One more visit: the list after `n` visits is the list after `n - 1` visited at `n - 1`. */
  lemma {:induction false} ProcessedStep(ts: seq<Task>, n: int, rank: map<int, nat>)
    requires RankedBy(Links(ts), rank) && 0 < n <= |ts|
    ensures RankedBy(Links(Processed(ts, n - 1, rank)), rank)
    ensures Processed(ts, n, rank) == Visit(Processed(ts, n - 1, rank), n - 1, rank)
  {
  }

  /** A visit leaves every index but its own alone, so an index keeps its input value
      until the loop reaches it. */
  lemma {:induction false} ProcessedUntouched(ts: seq<Task>, n: int, j: int, rank: map<int, nat>)
    requires RankedBy(Links(ts), rank) && 0 <= n <= j < |ts|
    ensures Processed(ts, n, rank)[j] == ts[j]
    decreases n
  {
    if n > 0 {
      ProcessedUntouched(ts, n - 1, j, rank);
      UntouchedStep(ts, n, j, rank);
    }
  }

  /** ... and keeps the value of its own visit after it. */
  lemma {:induction false} ProcessedSettled(ts: seq<Task>, n: int, rank: map<int, nat>)
    requires RankedBy(Links(ts), rank) && 0 <= n <= |ts|
    ensures forall j :: 0 <= j < n ==> Processed(ts, n, rank)[j] == Processed(ts, j + 1, rank)[j]
    decreases n
  {
    if n > 0 {
      ProcessedSettled(ts, n - 1, rank);
      forall j | 0 <= j < n - 1
        ensures Processed(ts, n, rank)[j] == Processed(ts, j + 1, rank)[j]
      {
        ProcessedStepKeeps(ts, n, j, rank);
      }
    }
  }

  /** The visit at `n - 1` leaves every other index as it was. */
  lemma {:induction false} ProcessedStepKeeps(ts: seq<Task>, n: int, j: int, rank: map<int, nat>)
    requires RankedBy(Links(ts), rank) && 0 < n <= |ts| && 0 <= j < |ts| && j != n - 1
    ensures Processed(ts, n, rank)[j] == Processed(ts, n - 1, rank)[j]
  {
    ProcessedStep(ts, n, rank);
  }

  /** The list the loop sees at index `j`: the final values before `j`, the input from `j` on. */
  lemma {:induction false} ProcessedIsSplice(ts: seq<Task>, j: int, rank: map<int, nat>)
    requires RankedBy(Links(ts), rank) && 0 <= j <= |ts|
    ensures Processed(ts, j, rank) == Propagate(ts, rank)[..j] + ts[j..]
  {
    var s := Processed(ts, j, rank);
    var r := Propagate(ts, rank);
    forall k | 0 <= k < |ts|
      ensures s[k] == (r[..j] + ts[j..])[k]
    {
      if k < j {
        ProcessedSettled(ts, j, rank);
        ProcessedSettled(ts, |ts|, rank);
        assert s[k] == Processed(ts, k + 1, rank)[k] == r[k];
      } else {
        ProcessedUntouched(ts, j, k, rank);
      }
    }
  }

  /** At index `j` the loop sees the final values before `j` and the input from `j` on,
      and its visit there settles the result at `j`. */
  lemma {:induction false} PropagateAt(ts: seq<Task>, j: int, rank: map<int, nat>)
    requires RankedBy(Links(ts), rank) && 0 <= j < |ts|
    ensures Links(Propagate(ts, rank)[..j] + ts[j..]) == Links(ts)
    ensures Propagate(ts, rank)[j] == Visit(Propagate(ts, rank)[..j] + ts[j..], j, rank)[j]
  {
    ProcessedIsSplice(ts, j, rank);
    ProcessedStep(ts, j + 1, rank);
    ProcessedSettled(ts, |ts|, rank);
  }

  /** What `propagateStatus` computes, index by index: a task becomes COMPLETE exactly
      when it is DONE, has a child, and `isTaskComplete` holds for it in the list made of
      the results before it and the input from it on; otherwise it is kept as it was.
      Nothing but statuses changes. */
  lemma {:induction false} PropagateDecidesInOrder(ts: seq<Task>, rank: map<int, nat>)
    requires RankedBy(Links(ts), rank)
    ensures |Propagate(ts, rank)| == |ts|
    ensures forall j :: 0 <= j < |ts| ==>
      Links(Propagate(ts, rank)[..j] + ts[j..]) == Links(ts)
    ensures forall j :: 0 <= j < |ts| ==>
      Propagate(ts, rank)[j] ==
        if ts[j].status == Done && |Children(ts, ts[j].id)| > 0 &&
           IsTaskComplete(ts[j], Propagate(ts, rank)[..j] + ts[j..], rank)
        then ts[j].(status := Complete)
        else ts[j]
  {
    var r := Propagate(ts, rank);
    forall j | 0 <= j < |ts|
      ensures Links(r[..j] + ts[j..]) == Links(ts)
      ensures r[j] ==
        if ts[j].status == Done && |Children(ts, ts[j].id)| > 0 &&
           IsTaskComplete(ts[j], r[..j] + ts[j..], rank)
        then ts[j].(status := Complete)
        else ts[j]
    {
      PropagateDecidesAt(ts, j, rank);
    }
  }

  /** The decision of `PropagateDecidesInOrder` at one index. */
  lemma {:induction false} PropagateDecidesAt(ts: seq<Task>, j: int, rank: map<int, nat>)
    requires RankedBy(Links(ts), rank) && 0 <= j < |ts|
    ensures var r := Propagate(ts, rank);
      Links(r[..j] + ts[j..]) == Links(ts) &&
      r[j] ==
        if ts[j].status == Done && |Children(ts, ts[j].id)| > 0 &&
           IsTaskComplete(ts[j], r[..j] + ts[j..], rank)
        then ts[j].(status := Complete)
        else ts[j]
  {
    var r := Propagate(ts, rank);
    PropagateAt(ts, j, rank);
    ChildIdsOfTasks(ts, ts[j].id);
    assert (r[..j] + ts[j..])[j] == ts[j];
  }

  /** Lines 46-56: the pass only turns DONE into COMPLETE, and only for a task with a
      child; a childless task and a task that is not DONE are left as they are. */
  lemma {:induction false} PropagateOnlyCompletes(ts: seq<Task>, rank: map<int, nat>)
    requires RankedBy(Links(ts), rank)
    ensures SameExceptStatus(ts, Propagate(ts, rank))
    ensures forall j :: 0 <= j < |ts| ==>
      Propagate(ts, rank)[j] == ts[j] ||
      (ts[j].status == Done && Propagate(ts, rank)[j].status == Complete && |Children(ts, ts[j].id)| > 0)
    ensures forall j :: 0 <= j < |ts| && (ts[j].status != Done || Children(ts, ts[j].id) == []) ==>
      Propagate(ts, rank)[j] == ts[j]
  {
    PropagateDecidesInOrder(ts, rank);
  }

  /** Lines 21-35: toggling changes statuses only; a matching task that was IN_PROGRESS
      ends DONE or COMPLETE, a matching task that was DONE or COMPLETE ends IN_PROGRESS,
      and any other task is kept or goes from DONE to COMPLETE. */
  lemma {:induction false} ReducerToggle(state: seq<Task>, id: int, rank: map<int, nat>)
    requires RankedBy(Links(state), rank)
    ensures var r := Reducer(state, ToggleTask(id), rank);
      SameExceptStatus(state, r) &&
      (forall j :: 0 <= j < |state| && state[j].id == id && state[j].status == InProgress ==>
         r[j].status != InProgress) &&
      (forall j :: 0 <= j < |state| && state[j].id == id && state[j].status != InProgress ==>
         r[j].status == InProgress) &&
      (forall j :: 0 <= j < |state| && state[j].id != id ==>
         r[j] == state[j] || (state[j].status == Done && r[j].status == Complete))
  {
    var toggled := ToggleMatching(state, id);
    LinksIgnoreStatus(state, toggled);
    PropagateOnlyCompletes(toggled, rank);
  }

  /** A root P, its child C and C's child G, all DONE, with a ranking of their links. */
  const ExampleP := Task(1, [1], "p", Done, None)
  const ExampleC := Task(2, [1, 1], "c", Done, Some(1))
  const ExampleG := Task(3, [1, 1, 1], "g", Done, Some(2))
  const ExampleRank: map<int, nat> := map[1 := 2, 2 := 1, 3 := 0]

  /** Listed as C, P, G: C becomes COMPLETE first, so P then fails the test and stays DONE. */
  lemma {:induction false} PropagateChildFirst()
    ensures RankedBy(Links([ExampleC, ExampleP, ExampleG]), ExampleRank)
    ensures Propagate([ExampleC, ExampleP, ExampleG], ExampleRank) ==
      [ExampleC.(status := Complete), ExampleP, ExampleG]
  {
    var p, c, g, rank := ExampleP, ExampleC, ExampleG, ExampleRank;
    var s := [c, p, g];
    var ls := [Link(2, Some(1)), Link(1, None), Link(3, Some(2))];
    assert Links(s) == ls;
    assert ls[1..] == [ls[1], ls[2]] && ls[2..] == [ls[2]] && ls[3..] == [];
    assert ChildIds(ls, 2) == [3] && ChildIds(ls, 3) == [];
    assert IsTaskComplete(c, s, rank) by {
      assert ChildrenComplete(s, 3, 3, rank); assert ChildrenComplete(s, 3, 2, rank);
      assert ChildrenComplete(s, 3, 1, rank); assert ChildrenComplete(s, 3, 0, rank);
      assert IsTaskComplete(g, s, rank);
      assert ChildrenComplete(s, 2, 3, rank); assert ChildrenComplete(s, 2, 2, rank);
      assert ChildrenComplete(s, 2, 1, rank); assert ChildrenComplete(s, 2, 0, rank);
    }
    var s1 := [c.(status := Complete), p, g];
    assert Processed(s, 1, rank) == s1;
    assert Links(s1) == ls;
    assert !IsTaskComplete(p, s1, rank) by {
      FailingChildFails(p, s1, 0, rank);
    }
    assert Processed(s, 2, rank) == s1;
    assert Processed(s, 3, rank) == s1;
  }

  /** Listed as P, C, G: P is visited while C is still DONE, so both become COMPLETE. */
  lemma {:induction false} PropagateParentFirst()
    ensures RankedBy(Links([ExampleP, ExampleC, ExampleG]), ExampleRank)
    ensures Propagate([ExampleP, ExampleC, ExampleG], ExampleRank) ==
      [ExampleP.(status := Complete), ExampleC.(status := Complete), ExampleG]
  {
    var p, c, g, rank := ExampleP, ExampleC, ExampleG, ExampleRank;
    var t := [p, c, g];
    var lt := [Link(1, None), Link(2, Some(1)), Link(3, Some(2))];
    assert Links(t) == lt;
    assert lt[1..] == [lt[1], lt[2]] && lt[2..] == [lt[2]] && lt[3..] == [];
    assert ChildIds(lt, 1) == [2] && ChildIds(lt, 2) == [3] && ChildIds(lt, 3) == [];
    assert IsTaskComplete(p, t, rank) by {
      assert ChildrenComplete(t, 3, 3, rank); assert ChildrenComplete(t, 3, 2, rank);
      assert ChildrenComplete(t, 3, 1, rank); assert ChildrenComplete(t, 3, 0, rank);
      assert IsTaskComplete(g, t, rank);
      assert ChildrenComplete(t, 2, 3, rank); assert ChildrenComplete(t, 2, 2, rank);
      assert ChildrenComplete(t, 2, 1, rank); assert ChildrenComplete(t, 2, 0, rank);
      assert IsTaskComplete(c, t, rank);
      assert ChildrenComplete(t, 1, 3, rank); assert ChildrenComplete(t, 1, 2, rank);
      assert ChildrenComplete(t, 1, 1, rank); assert ChildrenComplete(t, 1, 0, rank);
    }
    var t1 := [p.(status := Complete), c, g];
    assert Processed(t, 1, rank) == t1;
    assert Links(t1) == lt;
    assert IsTaskComplete(c, t1, rank) by {
      assert ChildrenComplete(t1, 3, 3, rank); assert ChildrenComplete(t1, 3, 2, rank);
      assert ChildrenComplete(t1, 3, 1, rank); assert ChildrenComplete(t1, 3, 0, rank);
      assert IsTaskComplete(g, t1, rank);
      assert ChildrenComplete(t1, 2, 3, rank); assert ChildrenComplete(t1, 2, 2, rank);
      assert ChildrenComplete(t1, 2, 1, rank); assert ChildrenComplete(t1, 2, 0, rank);
    }
    var t2 := [p.(status := Complete), c.(status := Complete), g];
    assert Processed(t, 2, rank) == t2;
    assert Links(t2) == lt;
    assert Processed(t, 3, rank) == t2;
  }

  /** The inductive step of `ProcessedUntouched`. */
  lemma {:induction false} UntouchedStep(ts: seq<Task>, n: int, j: int, rank: map<int, nat>)
    requires RankedBy(Links(ts), rank) && 0 < n <= j < |ts|
    requires Processed(ts, n - 1, rank)[j] == ts[j]
    ensures Processed(ts, n, rank)[j] == ts[j]
  {
    ProcessedStepKeeps(ts, n, j, rank);
  }
}
