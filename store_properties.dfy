/** What the edit and create commands of src/App.tsx do to the display ids, the parents
    and the statuses of the list, stated over `EditSpec` and `CreateSpec`. */
module StoreProperties {
  import opened Tasks
  import opened Forest
  import opened StatusPropagation
  import opened DisplayIds
  import opened TaskStore

  /** Hanging the link at `index` under `p`, where it was not before, gives `p` one more child. */
  lemma {:induction false} ChildIdsGain(ls: seq<Link>, index: int, x: int, p: int)
    requires 0 <= index < |ls| && ls[index].parentId != Some(p)
    ensures |ChildIds(ls[index := Link(x, Some(p))], p)| == |ChildIds(ls, p)| + 1
  {
    var ls' := ls[index := Link(x, Some(p))];
    if index == 0 {
      assert ls'[1..] == ls[1..];
    } else {
      assert ls'[1..] == ls[1..][index - 1 := Link(x, Some(p))];
      ChildIdsGain(ls[1..], index - 1, x, p);
    }
  }

  /** Lookup by id only sees the ids. */
  lemma {:induction false} FindIndexSameIds(a: seq<Task>, b: seq<Task>, id: int)
    requires |a| == |b| && forall i :: 0 <= i < |a| ==> a[i].id == b[i].id
    ensures FindIndex(a, id) == FindIndex(b, id)
  {
    var ka, kb := FindIndex(a, id), FindIndex(b, id);
    if ka != -1 && kb != -1 {
      assert a[kb].id == id && b[ka].id == id;
    }
  }

  /** With unique ids, the task at `k` is found at `k`, also after another task of the
      same id is written at `index`. */
  lemma {:induction false} FindIndexAfterUpdate(ts: seq<Task>, index: int, t: Task, k: int)
    requires UniqueIds(Links(ts)) && 0 <= index < |ts| && 0 <= k < |ts| && t.id == ts[index].id
    ensures FindIndex(ts[index := t], ts[k].id) == k
  {
    FindIndexSameIds(ts, ts[index := t], ts[k].id);
    if FindIndex(ts, ts[k].id) != k {
      UniqueIdIndex(ts, FindIndex(ts, ts[k].id), k);
    }
  }

  /** Moving a task under the task it already hangs under, or under any task above it,
      is refused as a cycle: the guard asks whether the edited task lies below the new
      parent, where a cycle needs the new parent to lie below the edited task. */
  lemma {:induction false} MoveAboveRefused(ts: seq<Task>, id: int, name: Option<string>, d: DisplayId, rank: map<int, nat>)
    requires RankedBy(Links(ts), rank) && UniqueIds(Links(ts))
    requires FindIndex(ts, id) >= 0 && FindIndexByDisplayId(ts, d) >= 0
    requires var p := ts[FindIndexByDisplayId(ts, d)].id;
      ts[FindIndex(ts, id)].parentId == Some(p) || IsDescendant(Links(ts), p, id, rank)
    ensures EditSpec(ts, id, name, MoveUnder(d), rank) == Rejected(CycleDetected)
  {
    var index, k := FindIndex(ts, id), FindIndexByDisplayId(ts, d);
    var p, ls := ts[k].id, Links(ts);
    if ts[index].parentId == Some(p) {
      assert ls[index].parentId == Some(p) && ls[index].id == id;
    }
    DescendantRank(ls, p, id, rank);
  }

  /** Hence a move under a task that is accepted always changes the parent. */
  lemma {:induction false} AcceptedMoveChangesParent(ts: seq<Task>, id: int, name: Option<string>, d: DisplayId, rank: map<int, nat>)
    requires RankedBy(Links(ts), rank) && UniqueIds(Links(ts)) && FindIndex(ts, id) >= 0
    ensures var res := ResolveParent(ts, Rename(ts[FindIndex(ts, id)], name), MoveUnder(d), rank);
      res.Resolved? ==> res.parentChanged
  {
    var index, k := FindIndex(ts, id), FindIndexByDisplayId(ts, d);
    if k >= 0 && ts[index].parentId == Some(ts[k].id) {
      MoveAboveRefused(ts, id, name, d, rank);
    }
  }

  /** Moving a task under one of its own descendants passes the guard; the new links
      hold a cycle, and the renumbering that follows recurses until the call stack
      overflows and throws, so no new list is produced. */
  lemma {:induction false} MoveBelowItselfDiverges(ts: seq<Task>, id: int, name: Option<string>, d: DisplayId, rank: map<int, nat>)
    requires RankedBy(Links(ts), rank) && UniqueIds(Links(ts))
    requires FindIndex(ts, id) >= 0 && FindIndexByDisplayId(ts, d) >= 0
    requires IsDescendant(Links(ts), id, ts[FindIndexByDisplayId(ts, d)].id, rank)
    ensures EditSpec(ts, id, name, MoveUnder(d), rank) == Diverges
    ensures var index := FindIndex(ts, id);
      !Acyclic(Links(ts[index := Rename(ts[index], name).(parentId := Some(ts[FindIndexByDisplayId(ts, d)].id))]))
  {
    var index, k := FindIndex(ts, id), FindIndexByDisplayId(ts, d);
    var p, ls := ts[k].id, Links(ts);
    DescendantRank(ls, id, p, rank);
    if IsDescendant(ls, p, id, rank) {
      DescendantRank(ls, p, id, rank);
      assert false;
    }
    assert ls[index].id == id;
    var moved := Rename(ts[index], name).(parentId := Some(p));
    LinksUpdate(ts, index, moved);
    MoveIntoSubtreeCycles(ls, index, p, rank);
  }

  /** Without a parent change an edit only renames: every other task, and every other
      field of the edited one, stays as it was. */
  lemma {:induction false} KeptParentOnlyRenames(ts: seq<Task>, id: int, name: Option<string>, upd: ParentUpdate, rank: map<int, nat>)
    requires RankedBy(Links(ts), rank) && UniqueIds(Links(ts))
    requires upd.KeepParent? || (upd.MakeRoot? && (FindIndex(ts, id) >= 0 ==> ts[FindIndex(ts, id)].parentId.None?))
    ensures EditSpec(ts, id, name, upd, rank).Edited?
    ensures var r := EditSpec(ts, id, name, upd, rank).tasks;
      |r| == |ts| && forall j :: 0 <= j < |ts| ==> r[j] == ts[j].(name := r[j].name) && (ts[j].id != id ==> r[j] == ts[j])
  {
  }

  /** `Reattach` gives the moved task the display id `MovedDisplayId` computes. */
  lemma {:induction false} ReattachMoved(ts: seq<Task>, index: int, rank: map<int, nat>)
    requires 0 <= index < |ts| && RankedBy(Links(ts), rank) && UniqueIds(Links(ts))
    requires ParentListed(ts, ts[index])
    ensures Reattach(ts, index, rank)[index] == ts[index].(displayId := MovedDisplayId(ts, ts[index].parentId))
  {
    var x := ts[index].id;
    var d := MovedDisplayId(ts, ts[index].parentId);
    var ts1 := ts[index := ts[index].(displayId := d)];
    LinksIgnoreDisplayId(ts, ts1);
    RenumberNumbersByPosition(ts1, x, d, rank);
    NotOwnDescendant(Links(ts), x, rank);
  }

  /** `Reattach` leaves every task outside the moved subtree as it was. */
  lemma {:induction false} ReattachOutside(ts: seq<Task>, index: int, rank: map<int, nat>)
    requires 0 <= index < |ts| && RankedBy(Links(ts), rank) && UniqueIds(Links(ts))
    requires ParentListed(ts, ts[index])
    ensures var r, x := Reattach(ts, index, rank), ts[index].id;
      forall j :: 0 <= j < |ts| && j != index && !IsDescendant(Links(ts), x, ts[j].id, rank) ==> r[j] == ts[j]
  {
    var x, ls := ts[index].id, Links(ts);
    var d := MovedDisplayId(ts, ts[index].parentId);
    var ts1 := ts[index := ts[index].(displayId := d)];
    LinksIgnoreDisplayId(ts, ts1);
    assert Links(ts1) == ls;
    RenumberNumbersByPosition(ts1, x, d, rank);
    forall j | 0 <= j < |ts| && j != index && !IsDescendant(ls, x, ts[j].id, rank)
      ensures Reattach(ts, index, rank)[j] == ts[j]
    {
      assert ts1[j] == ts[j];
    }
  }

  /** `Reattach` numbers each task below the moved one by its parent's new display id
      and its position among the parent's children. */
  lemma {:induction false} ReattachBelow(ts: seq<Task>, index: int, rank: map<int, nat>)
    requires 0 <= index < |ts| && RankedBy(Links(ts), rank) && UniqueIds(Links(ts))
    requires ParentListed(ts, ts[index])
    ensures var r := Reattach(ts, index, rank);
      NumberedBelow(Links(ts), r, ts[index].id, r[index].displayId, rank)
  {
    var x, ls := ts[index].id, Links(ts);
    var d := MovedDisplayId(ts, ts[index].parentId);
    var ts1 := ts[index := ts[index].(displayId := d)];
    LinksIgnoreDisplayId(ts, ts1);
    assert Links(ts1) == ls && ls[index].id == x;
    RenumberNumbersByPosition(ts1, x, d, rank);
    NotOwnDescendant(ls, x, rank);
    assert Reattach(ts, index, rank) == Renumber(ts1, x, d, rank);
    assert Renumber(ts1, x, d, rank)[index] == ts1[index];
  }

  /** The display ids that `Reattach` leaves: the moved task gets its new id, tasks
      outside its subtree keep theirs, and each task below it is numbered by its
      parent's new id and its position among the parent's children. */
  lemma {:induction false} ReattachRenumbers(ts: seq<Task>, index: int, rank: map<int, nat>)
    requires 0 <= index < |ts| && RankedBy(Links(ts), rank) && UniqueIds(Links(ts))
    requires ParentListed(ts, ts[index])
    ensures var r, x := Reattach(ts, index, rank), ts[index].id;
      r[index] == ts[index].(displayId := MovedDisplayId(ts, ts[index].parentId)) &&
      (forall j :: 0 <= j < |ts| && j != index && !IsDescendant(Links(ts), x, ts[j].id, rank) ==> r[j] == ts[j]) &&
      NumberedBelow(Links(ts), r, x, r[index].displayId, rank)
  {
    ReattachMoved(ts, index, rank);
    ReattachOutside(ts, index, rank);
    ReattachBelow(ts, index, rank);
  }

  /** The display id `Reattach` gives a task newly hung under the task at `k`. */
  lemma {:induction false} ReattachedUnderNumber(ts: seq<Task>, index: int, moved: Task, k: int, rank: map<int, nat>)
    requires UniqueIds(Links(ts)) && 0 <= index < |ts| && 0 <= k < |ts| && moved.id == ts[index].id
    requires moved.parentId == Some(ts[k].id) && ts[index].parentId != Some(ts[k].id)
    requires RankedBy(Links(ts[index := moved]), rank) && UniqueIds(Links(ts[index := moved]))
    requires FindIndex(ts[index := moved], ts[k].id) >= 0
    ensures Reattach(ts[index := moved], index, rank)[index].displayId ==
      ts[k].displayId + [|ChildIds(Links(ts), ts[k].id)| + 2]
  {
    ReattachMoved(ts[index := moved], index, rank);
    NewParentGainsChild(ts, index, moved, k);
  }

  /** Hanging the task at `index` under the task at `k` leaves that task where it was
      and gives it one more child. */
  lemma {:induction false} NewParentGainsChild(ts: seq<Task>, index: int, moved: Task, k: int)
    requires UniqueIds(Links(ts)) && 0 <= index < |ts| && 0 <= k < |ts| && moved.id == ts[index].id
    requires moved.parentId == Some(ts[k].id) && ts[index].parentId != Some(ts[k].id)
    ensures FindIndex(ts[index := moved], ts[k].id) == k
    ensures |ChildIds(Links(ts[index := moved]), ts[k].id)| == |ChildIds(Links(ts), ts[k].id)| + 1
  {
    var p := ts[k].id;
    FindIndexAfterUpdate(ts, index, moved, k);
    LinksUpdate(ts, index, moved);
    assert Links(ts)[index].parentId != Some(p);
    ChildIdsGain(Links(ts), index, moved.id, p);
  }

  /** A task moved under another task shows the new parent's display id extended by
      the number of children the parent had plus two: the next child number is taken
      after the task already hangs under its new parent, so it counts the task itself. */
  lemma {:induction false} MovedUnderNumber(ts: seq<Task>, nextId: int, id: int, name: Option<string>, d: DisplayId, rank: map<int, nat>)
    requires Inv(ts, nextId, rank) && FindIndex(ts, id) >= 0
    requires EditSpec(ts, id, name, MoveUnder(d), rank).Edited?
    ensures FindIndexByDisplayId(ts, d) >= 0
    ensures EditSpec(ts, id, name, MoveUnder(d), rank).tasks[FindIndex(ts, id)].displayId ==
      d + [|ChildIds(Links(ts), ts[FindIndexByDisplayId(ts, d)].id)| + 2]
  {
    var index, k := FindIndex(ts, id), FindIndexByDisplayId(ts, d);
    var task := Rename(ts[index], name);
    var p := ts[k].id;
    assert ResolveParent(ts, task, MoveUnder(d), rank) == Resolved(Some(p), true) by {
      AcceptedMoveChangesParent(ts, id, name, d, rank);
    }
    var moved := task.(parentId := Some(p));
    EditReattaches(ts, nextId, id, name, MoveUnder(d), rank);
    ReattachedUnderNumber(ts, index, moved, k, MovedRank(Links(ts), id, rank));
  }

  /** The display id `Reattach` gives a task newly made a root. */
  lemma {:induction false} ReattachedRootNumber(ts: seq<Task>, index: int, moved: Task, rank: map<int, nat>)
    requires 0 <= index < |ts| && moved == ts[index].(name := moved.name, parentId := None)
    requires ts[index].parentId.Some?
    requires RankedBy(Links(ts[index := moved]), rank) && UniqueIds(Links(ts[index := moved]))
    ensures var d := Reattach(ts[index := moved], index, rank)[index].displayId;
      |d| == 1 && Lead(ts[index].displayId) < d[0] &&
      forall t :: t in ts && t.parentId.None? ==> Lead(t.displayId) < d[0]
  {
    var ts1 := ts[index := moved];
    ReattachMoved(ts1, index, rank);
    var m := GenerateTopLevelDisplayId(ts1)[0];
    assert ts1[index] in ts1;
    forall t | t in ts && t.parentId.None?
      ensures Lead(t.displayId) < m
    {
      var j :| 0 <= j < |ts| && ts[j] == t;
      assert ts1[j] == t;
    }
  }

  /** A task made a root gets a one-part display id above the leading number of every
      root, and above the leading number of its own previous display id, which the
      maximum also sees. */
  lemma {:induction false} MadeRootNumber(ts: seq<Task>, nextId: int, id: int, name: Option<string>, rank: map<int, nat>)
    requires Inv(ts, nextId, rank) && FindIndex(ts, id) >= 0 && ts[FindIndex(ts, id)].parentId.Some?
    ensures EditSpec(ts, id, name, MakeRoot, rank).Edited?
    ensures var r, index := EditSpec(ts, id, name, MakeRoot, rank).tasks, FindIndex(ts, id);
      |r[index].displayId| == 1 && Lead(ts[index].displayId) < r[index].displayId[0] &&
      forall t :: t in ts && t.parentId.None? ==> Lead(t.displayId) < r[index].displayId[0]
  {
    var index := FindIndex(ts, id);
    var moved := Rename(ts[index], name).(parentId := None);
    EditReattaches(ts, nextId, id, name, MakeRoot, rank);
    ReattachedRootNumber(ts, index, moved, MovedRank(Links(ts), id, rank));
  }

  /** The moved ranking keeps the tasks outside the moved subtree out of it: `Reattach`
      leaves them as they were. */
  lemma {:induction false} ReattachKeepsOutside(ts: seq<Task>, index: int, moved: Task, rank: map<int, nat>)
    requires 0 <= index < |ts| && moved.id == ts[index].id
    requires RankedBy(Links(ts), rank) && UniqueIds(Links(ts))
    requires RankedBy(Links(ts[index := moved]), MovedRank(Links(ts), moved.id, rank))
    requires UniqueIds(Links(ts[index := moved]))
    requires ParentListed(ts[index := moved], moved)
    ensures var r := Reattach(ts[index := moved], index, MovedRank(Links(ts), moved.id, rank));
      forall j :: 0 <= j < |ts| && j != index && !IsDescendant(Links(ts), moved.id, ts[j].id, rank) ==> r[j] == ts[j]
  {
    var x, ls := moved.id, Links(ts);
    var ts1 := ts[index := moved];
    var rank' := MovedRank(ls, x, rank);
    ReattachRenumbers(ts1, index, rank');
    forall j | 0 <= j < |ts| && j != index && !IsDescendant(ls, x, ts[j].id, rank)
      ensures !IsDescendant(Links(ts1), x, ts1[j].id, rank')
    {
      assert ls[j].id == ts[j].id && ls[index].id == x;
      assert ts[j].id != x;
      assert rank'[ts[j].id] > rank'[x];
      if IsDescendant(Links(ts1), x, ts1[j].id, rank') {
        DescendantRank(Links(ts1), x, ts1[j].id, rank');
      }
    }
  }

  /** An accepted change of parent: the edit writes the renamed task back under its new
      parent, renumbers it with `Reattach` under the moved ranking, then walks the statuses. */
  lemma {:induction false} EditReattaches(ts: seq<Task>, nextId: int, id: int, name: Option<string>,
                                          upd: ParentUpdate, rank: map<int, nat>)
    requires Inv(ts, nextId, rank) && FindIndex(ts, id) >= 0
    requires var res := ResolveParent(ts, Rename(ts[FindIndex(ts, id)], name), upd, rank);
      res.Resolved? && res.parentChanged &&
      !(res.newParentId.Some? && IsDescendant(Links(ts), id, res.newParentId.value, rank))
    ensures var index := FindIndex(ts, id);
      var np := ResolveParent(ts, Rename(ts[index], name), upd, rank).newParentId;
      var ts1 := ts[index := Rename(ts[index], name).(parentId := np)];
      var rank' := MovedRank(Links(ts), id, rank);
      RankedBy(Links(ts1), rank') && UniqueIds(Links(ts1)) && (np.Some? ==> FindIndex(ts1, np.value) >= 0) &&
      EditSpec(ts, id, name, upd, rank) == Edited(Repropagate(Reattach(ts1, index, rank'), ts[index].parentId, np, id))
  {
    var index := FindIndex(ts, id);
    var task := Rename(ts[index], name);
    var np := ResolveParent(ts, task, upd, rank).newParentId;
    var moved := task.(parentId := np);
    LinksUpdate(ts, index, moved);
    ResolvedParentStays(ts, index, task, upd, rank);
    MovedRankRanks(Links(ts), index, np, rank);
    MoveLinksKeepInv(Links(ts), index, np);
  }

  /** An edit changes, in tasks outside the edited task's subtree, nothing but the
      status; the name, the parent and the display id of every such task stay. */
  lemma {:induction false} EditKeepsOutsideSubtree(ts: seq<Task>, nextId: int, id: int, name: Option<string>,
                                                   upd: ParentUpdate, rank: map<int, nat>)
    requires Inv(ts, nextId, rank)
    requires EditSpec(ts, id, name, upd, rank).Edited?
    ensures var r, index := EditSpec(ts, id, name, upd, rank).tasks, FindIndex(ts, id);
      |r| == |ts| &&
      forall j :: 0 <= j < |ts| && j != index && !IsDescendant(Links(ts), id, ts[j].id, rank) ==>
        r[j] == ts[j].(status := r[j].status)
  {
    var index := FindIndex(ts, id);
    if index != -1 {
      var task := Rename(ts[index], name);
      var res := ResolveParent(ts, task, upd, rank);
      if res.parentChanged {
        EditReattaches(ts, nextId, id, name, upd, rank);
        ReattachKeepsOutside(ts, index, task.(parentId := res.newParentId), rank);
      }
    }
  }

  /** The moved task's old siblings keep their display ids: the gap the task leaves is
      not closed. */
  lemma {:induction false} OldSiblingsKeepDisplayIds(ts: seq<Task>, nextId: int, id: int, name: Option<string>,
                                  upd: ParentUpdate, rank: map<int, nat>)
    requires Inv(ts, nextId, rank) && FindIndex(ts, id) >= 0
    requires EditSpec(ts, id, name, upd, rank).Edited?
    ensures var r, index := EditSpec(ts, id, name, upd, rank).tasks, FindIndex(ts, id);
      forall j :: 0 <= j < |ts| && j != index && ts[j].parentId == ts[index].parentId ==>
        r[j].displayId == ts[j].displayId
  {
    var index, ls := FindIndex(ts, id), Links(ts);
    EditKeepsOutsideSubtree(ts, nextId, id, name, upd, rank);
    forall j | 0 <= j < |ts| && j != index && ts[j].parentId == ts[index].parentId
      ensures !IsDescendant(ls, id, ts[j].id, rank)
    {
      if ts[j].parentId.Some? {
        SiblingSubtreesDisjoint(ls, j, index, ts[j].id, rank);
      } else if IsDescendant(ls, id, ts[j].id, rank) {
        DescendantUp(ls, id, j, rank);
      }
    }
  }


  /** After the status walks, the subtree still shows the numbering `Reattach` gave it. */
  lemma {:induction false} ReattachedSubtree(ts: seq<Task>, index: int, rank: map<int, nat>, r: seq<Task>)
    requires 0 <= index < |ts| && RankedBy(Links(ts), rank) && UniqueIds(Links(ts))
    requires ParentListed(ts, ts[index])
    requires SameExceptStatus(Reattach(ts, index, rank), r)
    ensures Links(r) == Links(ts) && |r| == |ts| && r[index].id == ts[index].id
    ensures NumberedBelow(Links(r), r, r[index].id, r[index].displayId, rank)
  {
    var ts2 := Reattach(ts, index, rank);
    LinksIgnoreDisplayId(ts, ts2);
    LinksIgnoreStatus(ts2, r);
    ReattachBelow(ts, index, rank);
    NumberedBelowIgnoresStatus(Links(ts), ts2, r, ts[index].id, ts2[index].displayId, rank);
  }

  /** The numbering reads display ids only, so status changes keep it. */
  lemma {:induction false} NumberedBelowIgnoresStatus(ls: seq<Link>, a: seq<Task>, b: seq<Task>, x: int, top: DisplayId,
                                   rank: map<int, nat>)
    requires RankedBy(ls, rank) && |a| == |ls| && SameExceptStatus(a, b)
    requires NumberedBelow(ls, a, x, top, rank)
    ensures NumberedBelow(ls, b, x, top, rank)
  {
    forall j | 0 <= j < |ls| && IsDescendant(ls, x, ls[j].id, rank) && ls[j].parentId.Some? &&
      ls[j].parentId != Some(x) && LinkIndex(ls, ls[j].parentId.value) >= 0
      ensures b[LinkIndex(ls, ls[j].parentId.value)].displayId == a[LinkIndex(ls, ls[j].parentId.value)].displayId
    {
    }
  }

  /** An accepted edit that leaves the task under a different parent went through a
      change of parent. */
  lemma {:induction false} EditMovedParent(ts: seq<Task>, nextId: int, id: int, name: Option<string>,
                        upd: ParentUpdate, rank: map<int, nat>)
    requires Inv(ts, nextId, rank) && FindIndex(ts, id) >= 0
    requires EditSpec(ts, id, name, upd, rank).Edited?
    requires EditSpec(ts, id, name, upd, rank).tasks[FindIndex(ts, id)].parentId != ts[FindIndex(ts, id)].parentId
    ensures var res := ResolveParent(ts, Rename(ts[FindIndex(ts, id)], name), upd, rank);
      res.Resolved? && res.parentChanged
  {
  }

  /** The list an accepted change of parent works on: the edited task hung under its
      new parent, with the moved ranking. */
  lemma {:induction false} ChangedEdit(ts: seq<Task>, nextId: int, id: int, name: Option<string>,
                                       upd: ParentUpdate, rank: map<int, nat>)
    returns (index: int, ts1: seq<Task>, np: Option<int>, rank': map<int, nat>)
    requires Inv(ts, nextId, rank) && FindIndex(ts, id) >= 0
    requires EditSpec(ts, id, name, upd, rank).Edited?
    requires ResolveParent(ts, Rename(ts[FindIndex(ts, id)], name), upd, rank).parentChanged
    ensures index == FindIndex(ts, id) && 0 <= index < |ts| == |ts1| && ts1[index].id == id
    ensures np == ResolveParent(ts, Rename(ts[index], name), upd, rank).newParentId
    ensures ts1 == ts[index := Rename(ts[index], name).(parentId := np)]
    ensures rank' == MovedRank(Links(ts), id, rank)
    ensures RankedBy(Links(ts1), rank') && UniqueIds(Links(ts1)) && (np.Some? ==> FindIndex(ts1, np.value) >= 0)
  {
    index := FindIndex(ts, id);
    var task := Rename(ts[index], name);
    np := ResolveParent(ts, task, upd, rank).newParentId;
    var moved := task.(parentId := np);
    ts1 := ts[index := moved];
    rank' := MovedRank(Links(ts), id, rank);
    LinksUpdate(ts, index, moved);
    ResolvedParentStays(ts, index, task, upd, rank);
    MovedRankRanks(Links(ts), index, np, rank);
    MoveLinksKeepInv(Links(ts), index, np);
  }

  /** The outcome of an accepted change of parent, on the list `ChangedEdit` gives. */
  lemma {:induction false} ChangedEditOutcome(ts: seq<Task>, id: int, name: Option<string>, upd: ParentUpdate,
                                              rank: map<int, nat>, index: int, ts1: seq<Task>, np: Option<int>,
                                              rank': map<int, nat>)
    requires RankedBy(Links(ts), rank) && UniqueIds(Links(ts))
    requires index == FindIndex(ts, id) && 0 <= index < |ts1| && ts1[index].id == id
    requires EditSpec(ts, id, name, upd, rank).Edited?
    requires ResolveParent(ts, Rename(ts[index], name), upd, rank).parentChanged
    requires np == ResolveParent(ts, Rename(ts[index], name), upd, rank).newParentId
    requires ts1 == ts[index := Rename(ts[index], name).(parentId := np)]
    requires rank' == MovedRank(Links(ts), id, rank)
    requires RankedBy(Links(ts1), rank') && (np.Some? ==> FindIndex(ts1, np.value) >= 0)
    ensures EditSpec(ts, id, name, upd, rank) ==
      Edited(Repropagate(Reattach(ts1, index, rank'), ts[index].parentId, np, id))
    ensures EditRank(ts, id, name, upd, rank) == rank'
  {
  }

  /** When an edit changes a task's parent, the subtree below the edited task (in the
      new tree) is numbered by position. */
  lemma {:induction false} MoveRenumbersSubtree(ts: seq<Task>, nextId: int, id: int, name: Option<string>,
                                                upd: ParentUpdate, rank: map<int, nat>)
    requires Inv(ts, nextId, rank) && FindIndex(ts, id) >= 0
    requires EditSpec(ts, id, name, upd, rank).Edited?
    requires EditSpec(ts, id, name, upd, rank).tasks[FindIndex(ts, id)].parentId != ts[FindIndex(ts, id)].parentId
    ensures RankedBy(Links(EditSpec(ts, id, name, upd, rank).tasks), EditRank(ts, id, name, upd, rank))
    ensures EditSpec(ts, id, name, upd, rank).tasks[FindIndex(ts, id)].id == id
    ensures var r := EditSpec(ts, id, name, upd, rank).tasks;
      NumberedBelow(Links(r), r, id, r[FindIndex(ts, id)].displayId, EditRank(ts, id, name, upd, rank))
  {
    EditMovedParent(ts, nextId, id, name, upd, rank);
    var index, ts1, np, rank' := ChangedEdit(ts, nextId, id, name, upd, rank);
    ChangedEditOutcome(ts, id, name, upd, rank, index, ts1, np, rank');
    ReattachedSubtree(ts1, index, rank', EditSpec(ts, id, name, upd, rank).tasks);
  }

  /** Status changes keep the number of roots. */
  lemma {:induction false} RootsCountIgnoresStatus(a: seq<Task>, b: seq<Task>)
    requires SameExceptStatus(a, b)
    ensures |Roots(a)| == |Roots(b)|
  {
    if |a| > 0 {
      assert SameExceptStatus(a[1..], b[1..]) by {
        forall i | 0 <= i < |a| - 1
          ensures b[1..][i] == a[1..][i].(status := b[1..][i].status)
        {
          assert b[1..][i] == b[i + 1] && a[1..][i] == a[i + 1];
        }
      }
      RootsCountIgnoresStatus(a[1..], b[1..]);
      assert b[0] == a[0].(status := b[0].status);
    }
  }

  /** Create appends exactly one IN_PROGRESS task, with the next id, the generated
      display id and the resolved parent; every earlier task stays, except that a
      COMPLETE one may become DONE. A parent reference that no task shows is refused. */
  lemma {:induction false} CreateAppendsOneTask(ts: seq<Task>, nextId: int, name: string, parent: DisplayId)
    ensures var out := CreateSpec(ts, nextId, name, parent);
      out.Created? ==>
        GenerateDisplayId(ts, parent).Some? && |out.tasks| == |ts| + 1 &&
        out.tasks[|ts|] == Task(nextId, GenerateDisplayId(ts, parent).value, name, InProgress,
                                if parent == [] then None else Some(FindByDisplayId(ts, parent).value.id)) &&
        forall i :: 0 <= i < |ts| ==>
          out.tasks[i] == ts[i] || (ts[i].status == Complete && out.tasks[i] == ts[i].(status := Done))
    ensures CreateSpec(ts, nextId, name, parent) == NotCreated(ParentNotFound) <==>
      parent != [] && forall j :: 0 <= j < |ts| ==> ts[j].displayId != parent
  {
  }

  /** The new task's display id ends in its own position: a new root's number is the
      number of roots after the create, a new child's last part the number of the
      parent's children after the create. */
  lemma {:induction false} CreateNumbersByCount(ts: seq<Task>, nextId: int, name: string, parent: DisplayId)
    ensures var out := CreateSpec(ts, nextId, name, parent);
      out.Created? && parent == [] ==> out.tasks[|ts|].displayId == [|Roots(out.tasks)|]
    ensures var out := CreateSpec(ts, nextId, name, parent);
      out.Created? && parent != [] ==>
        FindByDisplayId(ts, parent).Some? &&
        out.tasks[|ts|].displayId == parent + [|Children(out.tasks, FindByDisplayId(ts, parent).value.id)|]
  {
    var out := CreateSpec(ts, nextId, name, parent);
    CreateAppendsOneTask(ts, nextId, name, parent);
    if out.Created? {
      var pid := if parent == [] then None else Some(FindByDisplayId(ts, parent).value.id);
      var t := Task(nextId, GenerateDisplayId(ts, parent).value, name, InProgress, pid);
      var ts' := ts + [t];
      assert out.tasks == DowngradeParents(ts', pid);
      if parent == [] {
        RootsAppend(ts, [t]);
        assert Roots([t]) == [t];
        RootsCountIgnoresStatus(ts', out.tasks);
      } else {
        ChildrenAppend(ts, [t], pid.value);
        assert Children([t], pid.value) == [t];
        ChildrenCountIgnoresStatus(ts', out.tasks, pid.value);
      }
    }
  }

  /** Creating a child under a COMPLETE task makes that task DONE: the earlier tasks
      are not all left unchanged. */
  lemma {:induction false} CreateDowngradesCompleteParent(ts: seq<Task>, nextId: int, name: string, parent: DisplayId,
                                       rank: map<int, nat>)
    requires Inv(ts, nextId, rank)
    requires parent != [] && FindIndexByDisplayId(ts, parent) >= 0
    requires ts[FindIndexByDisplayId(ts, parent)].status == Complete
    ensures CreateSpec(ts, nextId, name, parent).Created?
    ensures CreateSpec(ts, nextId, name, parent).tasks[FindIndexByDisplayId(ts, parent)].status == Done
  {
    var k := FindIndexByDisplayId(ts, parent);
    var pid := ts[k].id;
    CreateNeverCycleDetected(ts, nextId, name, parent, rank);
    var ts' := ts + [Task(nextId, GenerateDisplayId(ts, parent).value, name, InProgress, Some(pid))];
    assert ts'[k] == ts[k];
    assert FindIndex(ts', pid) == k;
    DowngradeStartsAtParent(ts', pid);
  }

  /** The downgrade walk makes its first task, a COMPLETE one, DONE. */
  lemma {:induction false} DowngradeStartsAtParent(ts: seq<Task>, pid: int)
    requires FindIndex(ts, pid) >= 0 && ts[FindIndex(ts, pid)].status == Complete
    ensures DowngradeParents(ts, Some(pid))[FindIndex(ts, pid)].status == Done
  {
    var k := FindIndex(ts, pid);
    var mid := ts[k := ts[k].(status := Done)];
    assert DowngradeParents(ts, Some(pid)) == DowngradeParents(mid, ts[k].parentId);
  }

  /** The parent resolution of the repeated-display-id example: task 2 is found, it is
      not below task 1, and the parent changes. */
  lemma {:induction false} RepeatExampleResolve(a: Task, b: Task, rank: map<int, nat>)
    requires a == Task(1, [1], "a", InProgress, None) && b == Task(2, [2], "b", InProgress, None)
    requires rank == map[1 := 0, 2 := 0]
    ensures RankedBy(Links([a, b]), rank) && UniqueIds(Links([a, b]))
    ensures ResolveParent([a, b], a, MoveUnder([2]), rank) == Resolved(Some(2), true)
    ensures !IsDescendant(Links([a, b]), 1, 2, rank)
  {
    var ls := Links([a, b]);
    assert ls == [Link(1, None), Link(2, None)];
    assert !IsDescendant(ls, 1, 2, rank) && !IsDescendant(ls, 2, 1, rank) by {
      assert forall i :: 0 <= i < |ls| ==> ls[i].parentId.None?;
    }
    assert FindIndexByDisplayId([a, b], [2]) == 1 by {
      assert [a, b][1..] == [b];
    }
  }

  /** The moved ranking of the repeated-display-id example puts task 2 above task 1. */
  lemma {:induction false} RepeatExampleRank(a: Task, b: Task, rank: map<int, nat>)
    requires a == Task(1, [1], "a", InProgress, None) && b == Task(2, [2], "b", InProgress, None)
    requires rank == map[1 := 0, 2 := 0]
    ensures RankedBy(Links([a, b]), rank)
    ensures MovedRank(Links([a, b]), 1, rank) == map[1 := 0, 2 := 1]
    ensures RankedBy(Links([a.(parentId := Some(2)), b]), map[1 := 0, 2 := 1])
  {
    var ls := Links([a, b]);
    assert ls == [Link(1, None), Link(2, None)];
    assert !IsDescendant(ls, 1, 2, rank) && !IsDescendant(ls, 2, 1, rank) by {
      assert forall i :: 0 <= i < |ls| ==> ls[i].parentId.None?;
    }
    assert Links([a.(parentId := Some(2)), b]) == [Link(1, Some(2)), Link(2, None)];
  }

  /** The renumbering of the repeated-display-id example: task 1 becomes 2.2 and has
      no children to renumber. */
  lemma {:induction false} RepeatExampleReattach(a: Task, b: Task)
    requires a == Task(1, [1], "a", InProgress, None) && b == Task(2, [2], "b", InProgress, None)
    requires RankedBy(Links([a.(parentId := Some(2)), b]), map[1 := 0, 2 := 1])
    ensures Reattach([a.(parentId := Some(2)), b], 0, map[1 := 0, 2 := 1]) ==
      [a.(displayId := [2, 2], parentId := Some(2)), b]
  {
    var ts1 := [a.(parentId := Some(2)), b];
    var rank' := map[1 := 0, 2 := 1];
    assert Links(ts1) == [Link(1, Some(2)), Link(2, None)];
    var a' := a.(displayId := [2, 2], parentId := Some(2));
    assert MovedDisplayId(ts1, Some(2)) == [2, 2] by {
      assert ChildIds(Links(ts1), 2) == [1];
    }
    var ts2 := [a', b];
    assert ts1[0 := ts1[0].(displayId := [2, 2])] == ts2;
    assert Links(ts2) == Links(ts1);
    assert Renumber(ts2, 1, [2, 2], rank') == ts2 by {
      assert ChildIds(Links(ts2), 1) == [];
    }
  }

  /** The move of the repeated-display-id example: task 1, a root showing 1, moved
      under task 2, the root showing 2, becomes 2.2. */
  lemma {:induction false} RepeatExampleMove(a: Task, b: Task, rank: map<int, nat>)
    requires a == Task(1, [1], "a", InProgress, None) && b == Task(2, [2], "b", InProgress, None)
    requires rank == map[1 := 0, 2 := 0]
    ensures RankedBy(Links([a, b]), rank)
    ensures EditSpec([a, b], 1, None, MoveUnder([2]), rank) ==
      Edited([a.(displayId := [2, 2], parentId := Some(2)), b])
  {
    RepeatExampleResolve(a, b, rank);
    RepeatExampleRank(a, b, rank);
    RepeatExampleReattach(a, b);
    var a' := a.(displayId := [2, 2], parentId := Some(2));
    assert FindIndex([a, b], 1) == 0;
    assert Rename(a, None) == a;
    assert [a, b][0 := a.(parentId := Some(2))] == [a.(parentId := Some(2)), b];
    assert Repropagate([a', b], None, Some(2), 1) == [a', b];
  }

  /** The creates of the repeated-display-id example: "a" then "b" as roots, numbered 1
      and 2. */
  lemma {:induction false} RepeatExampleCreates(a: Task, b: Task)
    requires a == Task(1, [1], "a", InProgress, None) && b == Task(2, [2], "b", InProgress, None)
    ensures CreateSpec([], 1, "a", []) == Created([a])
    ensures CreateSpec([a], 2, "b", []) == Created([a, b])
  {
    assert CreateSpec([], 1, "a", []) == Created([a]) by {
      assert Roots([]) == [];
    }
    assert Roots([a]) == [a];
    assert [a] + [b] == [a, b];
  }

  /** The last create of the repeated-display-id example: root "c" after the move is
      numbered by the root count, 2. */
  lemma {:induction false} RepeatExampleLastCreate(a': Task, b: Task)
    requires a' == Task(1, [2, 2], "a", InProgress, Some(2)) && b == Task(2, [2], "b", InProgress, None)
    ensures CreateSpec([a', b], 3, "c", []) == Created([a', b, Task(3, [2], "c", InProgress, None)])
  {
    assert Roots([a', b]) == [b] by {
      assert [a', b][1..] == [b];
    }
    assert [a', b] + [Task(3, [2], "c", InProgress, None)] == [a', b, Task(3, [2], "c", InProgress, None)];
  }

  /** Display ids need not be unique: create roots "a" and "b", move "a" under "b"
      (it becomes 2.2, counting itself), then create root "c", which is numbered by
      the root count and also gets 2. */
  lemma {:induction false} DisplayIdsCanRepeat()
    ensures var a, b := Task(1, [1], "a", InProgress, None), Task(2, [2], "b", InProgress, None);
      var a' := a.(displayId := [2, 2], parentId := Some(2));
      CreateSpec([], 1, "a", []) == Created([a]) &&
      CreateSpec([a], 2, "b", []) == Created([a, b]) &&
      RankedBy(Links([a, b]), map[1 := 0, 2 := 0]) &&
      EditSpec([a, b], 1, None, MoveUnder([2]), map[1 := 0, 2 := 0]) == Edited([a', b]) &&
      CreateSpec([a', b], 3, "c", []) == Created([a', b, Task(3, [2], "c", InProgress, None)])
  {
    var a, b := Task(1, [1], "a", InProgress, None), Task(2, [2], "b", InProgress, None);
    RepeatExampleCreates(a, b);
    RepeatExampleResolve(a, b, map[1 := 0, 2 := 0]);
    RepeatExampleMove(a, b, map[1 := 0, 2 := 0]);
    RepeatExampleLastCreate(a.(displayId := [2, 2], parentId := Some(2)), b);
  }
}
