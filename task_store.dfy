/** The command engine of src/App.tsx: the task list and the id counter as state,
    and the three commands that change them (create, toggle, edit). */
module TaskStore {
  import opened Tasks
  import opened Forest
  import opened StatusPropagation
  import opened DisplayIds
  import opened CycleGuard

  /** Why a command was refused (each is an `alert` followed by an early return). */
  datatype Rejection = ParentNotFound | SelfParent | CycleDetected

  /** `updates.parentDisplayId`: undefined, null, or a display id to move under. */
  datatype ParentUpdate = KeepParent | MakeRoot | MoveUnder(parent: DisplayId)

  /** The new parent chosen by an edit, and whether it differs from the old one. */
  datatype Resolution = Resolved(newParentId: Option<int>, parentChanged: bool) | Refused(why: Rejection)

  /** What `handleEditTask` leaves behind: a new list, the previous list after an
      alert, or no result at all: the renumbering recursion runs around a cycle until
      the call stack overflows, and the call throws. */
  datatype EditOutcome = Edited(tasks: seq<Task>) | Rejected(why: Rejection) | Diverges

  /** What `handleCreate` leaves behind. */
  datatype CreateOutcome = Created(tasks: seq<Task>) | NotCreated(why: Rejection)

  /** `task.name = updates.name.trim() || task.name` when a name is given. */
  function Rename(t: Task, name: Option<string>): (r: Task)
    ensures r == t.(name := r.name)
    ensures name.None? ==> r == t
    ensures name.Some? && Trim(name.value) != [] ==> r.name == Trim(name.value)
    ensures name.Some? && Trim(name.value) == [] ==> r.name == t.name
  {
    if name.Some? then t.(name := NameOr(name.value, t.name)) else t
  }

  /** The parent-resolution block of `handleEditTask`: a display id that no task shows,
      the task's own display id, or the display id of a task above which the edited
      task already lies is refused; otherwise the new parent and whether it changed. */
  function ResolveParent(ts: seq<Task>, task: Task, upd: ParentUpdate, ghost rank: map<int, nat>): (r: Resolution)
    requires RankedBy(Links(ts), rank)
    ensures upd.KeepParent? ==> r == Resolved(task.parentId, false)
    ensures upd.MakeRoot? ==> r == Resolved(None, task.parentId.Some?)
    ensures upd.MoveUnder? ==>
      (r == Refused(ParentNotFound) <==> forall j :: 0 <= j < |ts| ==> ts[j].displayId != upd.parent)
    ensures upd.MoveUnder? && r.Refused? && r.why != ParentNotFound ==>
      var p := ts[FindIndexByDisplayId(ts, upd.parent)];
      (r.why == SelfParent <==> p.id == task.id) &&
      (r.why == CycleDetected ==> IsDescendant(Links(ts), p.id, task.id, rank))
    ensures upd.MoveUnder? && r.Resolved? ==>
      var p := ts[FindIndexByDisplayId(ts, upd.parent)];
      p.displayId == upd.parent && p.id != task.id && !IsDescendant(Links(ts), p.id, task.id, rank) &&
      r == Resolved(Some(p.id), task.parentId != Some(p.id))
    ensures r.Resolved? ==> (r.parentChanged <==> r.newParentId != task.parentId)
  {
    match upd
    case KeepParent => Resolved(task.parentId, false)
    case MakeRoot => Resolved(None, task.parentId.Some?)
    case MoveUnder(d) =>
      var k := FindIndexByDisplayId(ts, d);
      if k == -1 then Refused(ParentNotFound)
      else if ts[k].id == task.id then Refused(SelfParent)
      else if IsDescendant(Links(ts), ts[k].id, task.id, rank) then Refused(CycleDetected)
      else Resolved(Some(ts[k].id), task.parentId != Some(ts[k].id))
  }

  /** The display id a moved task receives: a fresh top-level number, or its new
      parent's display id extended by `getNextChildNumber`, computed on the list in
      which the task already hangs under its new parent. */
  function MovedDisplayId(ts: seq<Task>, np: Option<int>): (d: DisplayId)
    requires np.Some? ==> FindIndex(ts, np.value) >= 0
    ensures np.None? ==> d == GenerateTopLevelDisplayId(ts)
    ensures np.Some? ==>
      d == ts[FindIndex(ts, np.value)].displayId + [|ChildIds(Links(ts), np.value)| + 1]
  {
    if np.None? then GenerateTopLevelDisplayId(ts)
    else ts[FindIndex(ts, np.value)].displayId + [GetNextChildNumber(ts, np.value)]
  }

  /** A ranking for the list after the task with id `x` is moved: its subtree keeps
      its ranks and everything else is lifted above it. */
  ghost function MovedRank(ls: seq<Link>, x: int, rank: map<int, nat>): map<int, nat>
    requires RankedBy(ls, rank)
  {
    map y | y in rank.Keys :: if y == x || IsDescendant(ls, x, y, rank) then rank[y] else rank[y] + RankOf(rank, x) + 1
  }

  lemma {:induction false} LinksUpdate(ts: seq<Task>, index: int, t: Task)
    requires 0 <= index < |ts|
    ensures Links(ts[index := t]) == Links(ts)[index := Link(t.id, t.parentId)]
  {
    var l1, l2 := Links(ts[index := t]), Links(ts)[index := Link(t.id, t.parentId)];
    assert forall i :: 0 <= i < |ts| ==> l1[i] == l2[i];
  }

  /** Moving a task to the root, or under a task outside its own subtree, keeps the
      list free of cycles. */
  lemma {:induction false} MovedRankRanks(ls: seq<Link>, index: int, np: Option<int>, rank: map<int, nat>)
    requires RankedBy(ls, rank) && UniqueIds(ls) && 0 <= index < |ls|
    requires np.Some? ==> HasId(ls, np.value) && np.value != ls[index].id && !IsDescendant(ls, ls[index].id, np.value, rank)
    ensures RankedBy(ls[index := Link(ls[index].id, np)], MovedRank(ls, ls[index].id, rank))
  {
    var x := ls[index].id;
    var ls' := ls[index := Link(x, np)];
    var rank' := MovedRank(ls, x, rank);
    forall i | 0 <= i < |ls'|
      ensures ls'[i].id in rank'
      ensures ls'[i].parentId.Some? ==>
        ls'[i].parentId.value in rank' && rank'[ls'[i].id] < rank'[ls'[i].parentId.value]
    {
      if i == index {
        if np.Some? {
          var q :| 0 <= q < |ls| && ls[q].id == np.value;
        }
      } else if ls[i].parentId.Some? {
        var c, p := ls[i].id, ls[i].parentId.value;
        if IsDescendant(ls, x, c, rank) {
          DescendantUp(ls, x, i, rank);
        } else if p == x || IsDescendant(ls, x, p, rank) {
          DescendantStep(ls, x, i, rank);
        }
      }
    }
  }

  /** Ranks the moved subtree below its new parent when that parent lies inside it:
      any ranking of the edited links would put the subtree above itself. */
  lemma {:induction false} RankBelowMoved(ls: seq<Link>, index: int, np: Option<int>, a: int, b: int,
                                          rank: map<int, nat>, rank': map<int, nat>)
    requires RankedBy(ls, rank) && UniqueIds(ls) && 0 <= index < |ls|
    requires RankedBy(ls[index := Link(ls[index].id, np)], rank')
    requires a == ls[index].id || IsDescendant(ls, ls[index].id, a, rank)
    requires IsDescendant(ls, a, b, rank)
    ensures a in rank' && b in rank' && rank'[b] < rank'[a]
    decreases RankOf(rank, a)
  {
    var x := ls[index].id;
    var ls' := ls[index := Link(x, np)];
    var i :| 0 <= i < |ls| && ls[i].parentId == Some(a) && (ls[i].id == b || IsDescendant(ls, ls[i].id, b, rank));
    if i == index {
      if a == x {
        assert false;
      }
      DescendantRank(ls, x, a, rank);
      assert false;
    }
    assert ls'[i] == ls[i];
    if ls[i].id != b {
      DescendantStep(ls, x, i, rank);
      RankBelowMoved(ls, index, np, ls[i].id, b, rank, rank');
    }
  }

  /** Moving a task under one of its own descendants closes a cycle. */
  lemma {:induction false} MoveIntoSubtreeCycles(ls: seq<Link>, index: int, p: int, rank: map<int, nat>)
    requires RankedBy(ls, rank) && UniqueIds(ls) && 0 <= index < |ls|
    requires IsDescendant(ls, ls[index].id, p, rank)
    ensures !Acyclic(ls[index := Link(ls[index].id, Some(p))])
  {
    var ls' := ls[index := Link(ls[index].id, Some(p))];
    if Acyclic(ls') {
      var rank' :| RankedBy(ls', rank');
      assert ls'[index] == Link(ls[index].id, Some(p));
      assert rank'[ls[index].id] < rank'[p];
      RankBelowMoved(ls, index, Some(p), ls[index].id, p, rank, rank');
      assert false;
    }
  }

  /** The parent an edit resolves to is another task of the list, and stays in the
      list once the edited task is written back. */
  lemma {:induction false} ResolvedParentStays(ts: seq<Task>, index: int, task: Task, upd: ParentUpdate, rank: map<int, nat>)
    requires RankedBy(Links(ts), rank) && 0 <= index < |ts| && task.id == ts[index].id
    requires ResolveParent(ts, task, upd, rank).Resolved? && ResolveParent(ts, task, upd, rank).parentChanged
    ensures var np := ResolveParent(ts, task, upd, rank).newParentId;
      np.Some? ==>
        HasId(Links(ts), np.value) && np.value != task.id &&
        FindIndex(ts[index := task.(parentId := np)], np.value) >= 0
  {
    var np := ResolveParent(ts, task, upd, rank).newParentId;
    if np.Some? {
      var k := FindIndexByDisplayId(ts, upd.parent);
      assert Links(ts)[k].id == np.value;
      assert ts[index := task.(parentId := np)][k].id == np.value;
    }
  }

  /** Setting the moved task's display id and renumbering its subtree (src/App.tsx
      193-203), on the list in which the task already hangs under its new parent. */
  function Reattach(ts: seq<Task>, index: int, ghost rank: map<int, nat>): (r: seq<Task>)
    requires 0 <= index < |ts| && RankedBy(Links(ts), rank)
    requires ParentListed(ts, ts[index])
    ensures SameExceptDisplayId(ts, r)
  {
    var d := MovedDisplayId(ts, ts[index].parentId);
    var ts1 := ts[index := ts[index].(displayId := d)];
    LinksIgnoreDisplayId(ts, ts1);
    Renumber(ts1, ts[index].id, d, rank)
  }

  /** The status walks that follow a change of parent (src/App.tsx 206-214): both
      parents' chains are downgraded, and then the moved task is upgraded when it is
      DONE with only COMPLETE direct children. */
  function Repropagate(ts: seq<Task>, oldParent: Option<int>, newParent: Option<int>, id: int): (r: seq<Task>)
    ensures SameExceptStatus(ts, r)
  {
    UpgradeAndPropagate(DowngradeParents(DowngradeParents(ts, oldParent), newParent), id)
  }

  /** The walks after a move leave IN_PROGRESS tasks alone, and once both parents' chains
      are downgraded, a DONE moved task with only COMPLETE direct children ends COMPLETE. */
  lemma {:induction false} RepropagateUpgradesMoved(ts: seq<Task>, oldParent: Option<int>, newParent: Option<int>, id: int)
    ensures var r := Repropagate(ts, oldParent, newParent, id);
      forall i :: 0 <= i < |ts| && ts[i].status == InProgress ==> r[i] == ts[i]
    ensures var m := DowngradeParents(DowngradeParents(ts, oldParent), newParent);
      var k := FindIndex(m, id);
      k >= 0 && m[k].status == Done && AllComplete(Children(m, id)) ==>
        Repropagate(ts, oldParent, newParent, id)[k].status == Complete
  {
  }

  /** `handleEditTask(id, updates)` as a value. */
  ghost function EditSpec(ts: seq<Task>, id: int, name: Option<string>, upd: ParentUpdate, rank: map<int, nat>): (r: EditOutcome)
    requires RankedBy(Links(ts), rank) && UniqueIds(Links(ts))
    ensures r.Edited? ==> |r.tasks| == |ts|
  {
    var index := FindIndex(ts, id);
    if index == -1 then Edited(ts)
    else
      var task := Rename(ts[index], name);
      match ResolveParent(ts, task, upd, rank)
      case Refused(why) => Rejected(why)
      case Resolved(np, changed) =>
        var ts1 := ts[index := task.(parentId := np)];
        if !changed then Edited(ts1)
        else if np.Some? && IsDescendant(Links(ts), id, np.value, rank) then Diverges
        else
          LinksUpdate(ts, index, task.(parentId := np));
          ResolvedParentStays(ts, index, task, upd, rank);
          MovedRankRanks(Links(ts), index, np, rank);
          Edited(Repropagate(Reattach(ts1, index, MovedRank(Links(ts), id, rank)), ts[index].parentId, np, id))
  }

  /** `handleCreate(name, parentDisplayId)` as a value. An empty reference makes a root;
      an unknown one or a parent chain that revisits an id is refused; otherwise the
      new IN_PROGRESS task is appended and the parent's COMPLETE ancestors are
      downgraded. */
  ghost function CreateSpec(ts: seq<Task>, nextId: int, name: string, parent: DisplayId): CreateOutcome
  {
    if parent != [] && FindByDisplayId(ts, parent).None? then NotCreated(ParentNotFound)
    else
      var pid := if parent == [] then None else Some(FindByDisplayId(ts, parent).value.id);
      if pid.Some? && Revisits(ts, pid.value, {}) then NotCreated(CycleDetected)
      else
        var d := GenerateDisplayId(ts, parent).value;
        Created(DowngradeParents(ts + [Task(nextId, d, name, InProgress, pid)], pid))
  }

  /** The invariant every reachable state of the command engine keeps: ids are unique,
      positive and below the counter, every parent exists, there is no cycle, and a
      COMPLETE task has only COMPLETE children. */
  ghost predicate Inv(ts: seq<Task>, nextId: int, rank: map<int, nat>)
  {
    UniqueIds(Links(ts)) && Closed(Links(ts)) && RankedBy(Links(ts), rank) && Consistent(ts) &&
    nextId >= 1 && forall i :: 0 <= i < |ts| ==> 1 <= ts[i].id < nextId
  }

  /** The ranking after a create: everything lifted by one, the new task at the bottom. */
  ghost function CreateRank(rank: map<int, nat>, nextId: int): map<int, nat>
  {
    (map y | y in rank.Keys :: rank[y] + 1)[nextId := 0]
  }

  /** The ranking after an edit. */
  ghost function EditRank(ts: seq<Task>, id: int, name: Option<string>, upd: ParentUpdate, rank: map<int, nat>): map<int, nat>
    requires RankedBy(Links(ts), rank) && UniqueIds(Links(ts))
  {
    var index := FindIndex(ts, id);
    if index == -1 then rank
    else
      match ResolveParent(ts, Rename(ts[index], name), upd, rank)
      case Refused(_) => rank
      case Resolved(_, changed) => if changed then MovedRank(Links(ts), id, rank) else rank
  }

  /** The status invariant reads only ids, parents and statuses. */
  lemma {:induction false} ConsistentTransfer(a: seq<Task>, b: seq<Task>, ex: set<int>)
    requires |a| == |b| && ConsistentExcept(a, ex)
    requires forall i :: 0 <= i < |a| ==>
      a[i].id == b[i].id && a[i].parentId == b[i].parentId && a[i].status == b[i].status
    ensures ConsistentExcept(b, ex)
  {
  }

  /** Re-hanging one task (same id, same status) can break the status invariant only
      at its new parent. */
  lemma {:induction false} ConsistentAfterMove(ts: seq<Task>, index: int, t: Task)
    requires Consistent(ts) && 0 <= index < |ts| && t.id == ts[index].id && t.status == ts[index].status
    ensures ConsistentExcept(ts[index := t], IdSet(t.parentId))
  {
  }

  /** Appending a new IN_PROGRESS task with a fresh id under an existing parent (or as
      a root) and downgrading from that parent keeps the invariant. */
  lemma {:induction false} AppendKeepsInv(ts: seq<Task>, nextId: int, t: Task, rank: map<int, nat>)
    requires Inv(ts, nextId, rank) && t.id == nextId && t.status == InProgress
    requires t.parentId.Some? ==> HasId(Links(ts), t.parentId.value)
    ensures Inv(DowngradeParents(ts + [t], t.parentId), nextId + 1, CreateRank(rank, nextId))
  {
    var ts' := ts + [t];
    var r := DowngradeParents(ts', t.parentId);
    var ls, ls' := Links(ts), Links(ts');
    assert ls' == ls + [Link(t.id, t.parentId)];
    LinksIgnoreStatus(ts', r);
    AppendLinksKeepInv(ls, nextId, t.parentId, rank);
    assert ConsistentExcept(ts', IdSet(t.parentId));
    DowngradeRestoresConsistency(ts', t.parentId, {});
  }

  lemma {:induction false} AppendLinksKeepInv(ls: seq<Link>, nextId: int, pid: Option<int>, rank: map<int, nat>)
    requires UniqueIds(ls) && Closed(ls) && RankedBy(ls, rank)
    requires forall i :: 0 <= i < |ls| ==> ls[i].id < nextId
    requires pid.Some? ==> HasId(ls, pid.value)
    ensures var ls' := ls + [Link(nextId, pid)];
      UniqueIds(ls') && Closed(ls') && RankedBy(ls', CreateRank(rank, nextId))
  {
    var ls' := ls + [Link(nextId, pid)];
    var rank' := CreateRank(rank, nextId);
    forall i | 0 <= i < |ls'| && ls'[i].parentId.Some?
      ensures HasId(ls', ls'[i].parentId.value)
      ensures ls'[i].parentId.value != nextId
    {
      var q :| 0 <= q < |ls| && ls[q].id == ls'[i].parentId.value;
      assert ls'[q] == ls[q];
    }
  }

  /** On a valid state the create command's cycle guard never fires. */
  lemma {:induction false} CreateNeverCycleDetected(ts: seq<Task>, nextId: int, name: string, parent: DisplayId, rank: map<int, nat>)
    requires Inv(ts, nextId, rank)
    ensures CreateSpec(ts, nextId, name, parent) != NotCreated(CycleDetected)
  {
    if parent != [] && FindByDisplayId(ts, parent).Some? {
      AcyclicNeverRevisits(ts, FindByDisplayId(ts, parent).value.id);
    }
  }

  lemma {:induction false} CreateKeepsInv(ts: seq<Task>, nextId: int, name: string, parent: DisplayId, rank: map<int, nat>)
    requires Inv(ts, nextId, rank)
    ensures CreateSpec(ts, nextId, name, parent).Created? ==>
      Inv(CreateSpec(ts, nextId, name, parent).tasks, nextId + 1, CreateRank(rank, nextId))
  {
    if parent == [] {
      AppendKeepsInv(ts, nextId, Task(nextId, GenerateDisplayId(ts, parent).value, name, InProgress, None), rank);
    } else if FindByDisplayId(ts, parent).Some? {
      var k := FindIndexByDisplayId(ts, parent);
      assert Links(ts)[k].id == ts[k].id;
      AppendKeepsInv(ts, nextId, Task(nextId, GenerateDisplayId(ts, parent).value, name, InProgress, Some(ts[k].id)), rank);
    }
  }

  lemma {:induction false} ToggleKeepsInv(ts: seq<Task>, nextId: int, id: int, rank: map<int, nat>)
    requires Inv(ts, nextId, rank)
    ensures Inv(ToggleStatus(ts, id), nextId, rank)
  {
    LinksIgnoreStatus(ts, ToggleStatus(ts, id));
    ToggleKeepsConsistency(ts, id);
  }

  /** Re-hanging one task under an existing parent, or at the root, keeps ids unique
      and parents present. */
  lemma {:induction false} MoveLinksKeepInv(ls: seq<Link>, index: int, np: Option<int>)
    requires UniqueIds(ls) && Closed(ls) && 0 <= index < |ls|
    requires np.Some? ==> HasId(ls, np.value)
    ensures UniqueIds(ls[index := Link(ls[index].id, np)]) && Closed(ls[index := Link(ls[index].id, np)])
  {
    var ls' := ls[index := Link(ls[index].id, np)];
    forall i | 0 <= i < |ls'| && ls'[i].parentId.Some?
      ensures HasId(ls', ls'[i].parentId.value)
    {
      var q :| 0 <= q < |ls| && ls[q].id == ls'[i].parentId.value;
      assert ls'[q].id == ls[q].id;
    }
  }

  /** After the move and the renumbering, only the new parent may break consistency. */
  lemma {:induction false} ReattachedConsistentExcept(ts: seq<Task>, index: int, moved: Task, rank: map<int, nat>)
    requires Consistent(ts) && UniqueIds(Links(ts)) && 0 <= index < |ts|
    requires moved.id == ts[index].id && moved.status == ts[index].status
    requires RankedBy(Links(ts[index := moved]), rank)
    requires ParentListed(ts[index := moved], moved)
    ensures var ts2 := Reattach(ts[index := moved], index, rank);
      UniqueIds(Links(ts2)) && ConsistentExcept(ts2, IdSet(moved.parentId))
  {
    var ts1 := ts[index := moved];
    var ts2 := Reattach(ts1, index, rank);
    LinksUpdate(ts, index, moved);
    LinksIgnoreDisplayId(ts1, ts2);
    ConsistentAfterMove(ts, index, moved);
    ConsistentTransfer(ts1, ts2, IdSet(moved.parentId));
  }

  /** The walks after a change of parent repair the status invariant. */
  lemma {:induction false} MoveKeepsConsistency(ts: seq<Task>, index: int, moved: Task, rank: map<int, nat>)
    requires Consistent(ts) && UniqueIds(Links(ts)) && 0 <= index < |ts|
    requires moved.id == ts[index].id && moved.status == ts[index].status
    requires RankedBy(Links(ts[index := moved]), rank)
    requires ParentListed(ts[index := moved], moved)
    ensures Consistent(Repropagate(Reattach(ts[index := moved], index, rank), ts[index].parentId, moved.parentId, moved.id))
  {
    var np := moved.parentId;
    var ts2 := Reattach(ts[index := moved], index, rank);
    ReattachedConsistentExcept(ts, index, moved, rank);
    var ts3 := DowngradeParents(ts2, ts[index].parentId);
    DowngradeRestoresConsistency(ts2, ts[index].parentId, IdSet(np));
    LinksIgnoreStatus(ts2, ts3);
    var ts4 := DowngradeParents(ts3, np);
    assert {} + IdSet(np) == IdSet(np);
    DowngradeRestoresConsistency(ts3, np, {});
    UpgradeKeepsConsistency(ts4, moved.id);
  }

  lemma {:induction false} IdsInRange(ts: seq<Task>, r: seq<Task>, nextId: int, index: int, id: int, np: Option<int>)
    requires forall i :: 0 <= i < |ts| ==> 1 <= ts[i].id < nextId
    requires 0 <= index < |ts| && id == ts[index].id
    requires Links(r) == Links(ts)[index := Link(id, np)]
    ensures forall i :: 0 <= i < |r| ==> 1 <= r[i].id < nextId
  {
    forall i | 0 <= i < |r|
      ensures 1 <= r[i].id < nextId
    {
      assert Links(r)[i].id == r[i].id;
      assert Links(ts)[i].id == ts[i].id;
    }
  }

  /** An accepted change of parent keeps the invariant, with the moved ranking. */
  lemma {:induction false} MoveKeepsInv(ts: seq<Task>, nextId: int, index: int, moved: Task, rank: map<int, nat>)
    requires Inv(ts, nextId, rank) && 0 <= index < |ts|
    requires moved.id == ts[index].id && moved.status == ts[index].status
    requires moved.parentId.Some? ==>
      HasId(Links(ts), moved.parentId.value) && FindIndex(ts[index := moved], moved.parentId.value) >= 0
    requires RankedBy(Links(ts[index := moved]), MovedRank(Links(ts), moved.id, rank))
    ensures Inv(Repropagate(Reattach(ts[index := moved], index, MovedRank(Links(ts), moved.id, rank)),
                            ts[index].parentId, moved.parentId, moved.id),
                nextId, MovedRank(Links(ts), moved.id, rank))
  {
    var rank' := MovedRank(Links(ts), moved.id, rank);
    var ts1 := ts[index := moved];
    var ts2 := Reattach(ts1, index, rank');
    var r := Repropagate(ts2, ts[index].parentId, moved.parentId, moved.id);
    var ls' := Links(ts)[index := Link(moved.id, moved.parentId)];
    assert Links(r) == ls' == Links(ts1) by {
      LinksUpdate(ts, index, moved);
      LinksIgnoreDisplayId(ts1, ts2);
      LinksIgnoreStatus(ts2, r);
    }
    assert RankedBy(Links(r), rank');
    assert UniqueIds(Links(r)) && Closed(Links(r)) by {
      MoveLinksKeepInv(Links(ts), index, moved.parentId);
    }
    assert Consistent(r) by {
      MoveKeepsConsistency(ts, index, moved, rank');
    }
    assert forall i :: 0 <= i < |r| ==> 1 <= r[i].id < nextId by {
      IdsInRange(ts, r, nextId, index, moved.id, moved.parentId);
    }
    assert Inv(r, nextId, rank');
  }

  lemma {:induction false} EditKeepsInv(ts: seq<Task>, nextId: int, id: int, name: Option<string>, upd: ParentUpdate, rank: map<int, nat>)
    requires Inv(ts, nextId, rank)
    ensures EditSpec(ts, id, name, upd, rank).Edited? ==>
      Inv(EditSpec(ts, id, name, upd, rank).tasks, nextId, EditRank(ts, id, name, upd, rank))
  {
    var index := FindIndex(ts, id);
    if index != -1 {
      var task := Rename(ts[index], name);
      var res := ResolveParent(ts, task, upd, rank);
      if res.Resolved? {
        var np := res.newParentId;
        var moved := task.(parentId := np);
        LinksUpdate(ts, index, moved);
        if !res.parentChanged {
          assert Links(ts[index := moved]) == Links(ts);
          ConsistentTransfer(ts, ts[index := moved], {});
        } else if !(np.Some? && IsDescendant(Links(ts), id, np.value, rank)) {
          ResolvedParentStays(ts, index, task, upd, rank);
          MovedRankRanks(Links(ts), index, np, rank);
          MoveKeepsInv(ts, nextId, index, moved, rank);
        }
      }
    }
  }

  /** The body of `handleCreate` (src/App.tsx:34-64) before `setTasks`: resolve the parent
      reference, refuse an unknown one or a cyclic chain, then append the new task and
      downgrade the parent's ancestors. */
  method CreateTasks(ts: seq<Task>, nextId: int, name: string, parentDisplayId: DisplayId, ghost rank: map<int, nat>)
    returns (outcome: CreateOutcome)
    requires Inv(ts, nextId, rank)
    ensures outcome == CreateSpec(ts, nextId, name, parentDisplayId)
  {
    var targetParentId: Option<int> := None;
    if parentDisplayId != [] {
      var parentTask := FindByDisplayId(ts, parentDisplayId);
      if parentTask.None? {
        return NotCreated(ParentNotFound);
      }
      targetParentId := Some(parentTask.value.id);
      var cyc := HasCycle(ts, targetParentId.value, {});
      if cyc {
        return NotCreated(CycleDetected);
      }
    }
    var displayId := GenerateDisplayId(ts, parentDisplayId).value;
    var newTask := Task(nextId, displayId, name, InProgress, targetParentId);
    var updatedTasks := ts + [newTask];
    if targetParentId.Some? {
      updatedTasks := DowngradeParents(updatedTasks, targetParentId);
    }
    outcome := Created(updatedTasks);
  }

  /** The updater `handleEditTask` hands to `setTasks` (src/App.tsx:147-217): rename,
      resolve the new parent, and on a change of parent renumber the moved subtree and
      walk the statuses of the old and new parents' chains. */
  method EditTasks(ts: seq<Task>, nextId: int, id: int, name: Option<string>, upd: ParentUpdate, ghost rank: map<int, nat>)
    returns (outcome: EditOutcome)
    requires Inv(ts, nextId, rank)
    ensures outcome == EditSpec(ts, id, name, upd, rank)
  {
    var index := FindIndex(ts, id);
    if index == -1 {
      return Edited(ts);
    }
    var task := ts[index];
    var oldParentId := task.parentId;
    if name.Some? {
      task := task.(name := NameOr(name.value, task.name));
    }
    assert task == Rename(ts[index], name);
    var res := ResolveParent(ts, task, upd, rank);
    if res.Refused? {
      return Rejected(res.why);
    }
    var newParentId := res.newParentId;
    task := task.(parentId := newParentId);
    var newTasks := ts[index := task];
    LinksUpdate(ts, index, task);
    if !res.parentChanged {
      return Edited(newTasks);
    }
    if newParentId.Some? && IsDescendant(Links(ts), id, newParentId.value, rank) {
      return Diverges;
    }
    ResolvedParentStays(ts, index, Rename(ts[index], name), upd, rank);
    MovedRankRanks(Links(ts), index, newParentId, rank);
    ghost var rank' := MovedRank(Links(ts), id, rank);
    assert EditSpec(ts, id, name, upd, rank) ==
      Edited(Repropagate(Reattach(newTasks, index, rank'), oldParentId, newParentId, id));
    newTasks := Reparent(newTasks, index, oldParentId, id, rank');
    outcome := Edited(newTasks);
  }

  /** The command engine's state: `tasks` and `nextId` of the App component. */
  class App {
    var tasks: seq<Task>
    var nextId: int
    ghost var rank: map<int, nat>

    ghost predicate Valid()
      reads this
    {
      Inv(tasks, nextId, rank)
    }

    /** `useState<Task[]>([])` and `useState(1)`. */
    constructor ()
      ensures Valid() && tasks == [] && nextId == 1
    {
      tasks := [];
      nextId := 1;
      rank := map[];
    }

    method HandleCreate(name: string, parentDisplayId: DisplayId) returns (outcome: CreateOutcome)
      requires Valid()
      modifies this
      ensures Valid()
      ensures outcome == CreateSpec(old(tasks), old(nextId), name, parentDisplayId)
      ensures outcome.Created? ==> tasks == outcome.tasks && nextId == old(nextId) + 1
      ensures outcome.NotCreated? ==> tasks == old(tasks) && nextId == old(nextId)
    {
      outcome := CreateTasks(tasks, nextId, name, parentDisplayId, rank);
      if outcome.Created? {
        CreateKeepsInv(tasks, nextId, name, parentDisplayId, rank);
        tasks, nextId, rank := outcome.tasks, nextId + 1, CreateRank(rank, nextId);
      }
    }

    method HandleToggleStatus(id: int)
      requires Valid()
      modifies this
      ensures Valid()
      ensures tasks == ToggleStatus(old(tasks), id) && nextId == old(nextId)
    {
      ToggleKeepsInv(tasks, nextId, id, rank);
      var newTasks := tasks;
      var index := FindIndex(newTasks, id);
      if index == -1 {
        return;
      }
      var task := newTasks[index];
      if task.status == InProgress {
        task := task.(status := Done);
        newTasks := newTasks[index := task];
        tasks := UpgradeAndPropagate(newTasks, id);
      } else {
        task := task.(status := InProgress);
        newTasks := newTasks[index := task];
        tasks := DowngradeParents(newTasks, task.parentId);
      }
    }

    /** `setTasks(newTasks)`: the new list replaces the old one, and the ranking that
        witnesses its acyclicity is replaced with it. */
    method SetTasks(newTasks: seq<Task>, ghost newRank: map<int, nat>)
      requires Inv(newTasks, nextId, newRank)
      modifies this
      ensures Valid() && tasks == newTasks && rank == newRank && nextId == old(nextId)
    {
      tasks, rank := newTasks, newRank;
    }

    method HandleEditTask(id: int, name: Option<string>, upd: ParentUpdate) returns (outcome: EditOutcome)
      requires Valid()
      modifies this
      ensures Valid()
      ensures outcome == EditSpec(old(tasks), id, name, upd, old(rank))
      ensures tasks == (if outcome.Edited? then outcome.tasks else old(tasks)) && nextId == old(nextId)
    {
      outcome := EditTasks(tasks, nextId, id, name, upd, rank);
      if outcome.Edited? {
        EditKeepsInv(tasks, nextId, id, name, upd, rank);
        SetTasks(outcome.tasks, EditRank(tasks, id, name, upd, rank));
      }
    }
  }

  /** The part of `handleEditTask` that runs once the parent has changed: the moved
      task's new display id and the renumbering of its subtree in place, then the
      downgrades of the old and the new parent and the upgrade of the task itself. */
  method Reparent(ts: seq<Task>, index: int, oldParentId: Option<int>, id: int, ghost rank: map<int, nat>)
    returns (r: seq<Task>)
    requires 0 <= index < |ts| && ts[index].id == id && RankedBy(Links(ts), rank)
    requires ParentListed(ts, ts[index])
    ensures r == Repropagate(Reattach(ts, index, rank), oldParentId, ts[index].parentId, id)
  {
    var newParentId := ts[index].parentId;
    r := RenumberMoved(ts, index, rank);
    if oldParentId.Some? {
      r := DowngradeParents(r, oldParentId);
    }
    if newParentId.Some? {
      r := DowngradeParents(r, newParentId);
    }
    r := UpgradeAndPropagate(r, id);
  }

  /** Lines 193-203 of src/App.tsx: the moved task receives its new display id and
      `updateDescendantDisplayIds` rewrites its subtree in a mutable copy of the list. */
  method RenumberMoved(ts: seq<Task>, index: int, ghost rank: map<int, nat>) returns (r: seq<Task>)
    requires 0 <= index < |ts| && RankedBy(Links(ts), rank)
    requires ParentListed(ts, ts[index])
    ensures r == Reattach(ts, index, rank)
  {
    var newDisplayId := MovedDisplayId(ts, ts[index].parentId);
    var moved := ts[index := ts[index].(displayId := newDisplayId)];
    LinksIgnoreDisplayId(ts, moved);
    var a := ToArray(moved);
    UpdateDescendantDisplayIds(a, ts[index].id, newDisplayId, rank);
    r := a[..];
  }
}
