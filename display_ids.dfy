/** Display-id allocation in src/App.tsx: the ids given at creation
    (`generateDisplayId`), the ids given to a moved task (`generateTopLevelDisplayId`,
    `getNextChildNumber`) and the renumbering of its descendants
    (`updateDescendantDisplayIds`). */
module DisplayIds {
  import opened Tasks
  import opened Forest

  /** `parseInt(d) || 0` on a dotted id: its leading part, or 0 when there is none. */
  function Lead(d: DisplayId): nat
  {
    if |d| > 0 then d[0] else 0
  }

  /** `generateDisplayId(parentDisplayId)`. An absent or empty parent reference (both
      falsy, written `[]` here) gives the next top-level number; a reference that no
      task shows gives None (the string 'ERROR'); otherwise the parent's id is
      extended by one more than the number of its children. */
  function GenerateDisplayId(ts: seq<Task>, parent: DisplayId): (r: Option<DisplayId>)
    ensures parent == [] ==> r == Some([|Roots(ts)| + 1])
    ensures parent != [] ==> (r.None? <==> forall j :: 0 <= j < |ts| ==> ts[j].displayId != parent)
    ensures parent != [] && r.Some? ==>
      |r.value| == |parent| + 1 && r.value[..|parent|] == parent &&
      exists j :: 0 <= j < |ts| && ts[j].displayId == parent && r.value[|parent|] == |Children(ts, ts[j].id)| + 1 &&
        forall i :: 0 <= i < j ==> ts[i].displayId != parent
  {
    if parent == [] then Some([|Roots(ts)| + 1])
    else
      match FindByDisplayId(ts, parent)
      case None => None
      case Some(p) => Some(parent + [|Children(ts, p.id)| + 1])
  }

  /** The largest leading part among `rs`, or 0 (the `reduce` with `Math.max`). */
  function MaxLead(rs: seq<Task>): (m: nat)
    ensures forall t :: t in rs ==> Lead(t.displayId) <= m
    ensures m == 0 || exists t :: t in rs && Lead(t.displayId) == m
  {
    if |rs| == 0 then 0
    else
      var m := MaxLead(rs[1..]);
      assert forall t :: t in rs[1..] ==> t in rs;
      if Lead(rs[0].displayId) > m then Lead(rs[0].displayId) else m
  }

  /** `generateTopLevelDisplayId(tasksList)`: one more than the largest leading part of
      a root's display id, so larger than every root's leading part. */
  function GenerateTopLevelDisplayId(ts: seq<Task>): (r: DisplayId)
    ensures |r| == 1 && r[0] > 0
    ensures forall t :: t in ts && t.parentId.None? ==> Lead(t.displayId) < r[0]
    ensures r[0] == 1 || exists t :: t in ts && t.parentId.None? && Lead(t.displayId) == r[0] - 1
  {
    [MaxLead(Roots(ts)) + 1]
  }

  /** `getNextChildNumber(tasksList, parentId)`: the number of tasks already under
      `pid`, plus one. */
  function GetNextChildNumber(ts: seq<Task>, pid: int): (n: nat)
    ensures n == |ChildIds(Links(ts), pid)| + 1
  {
    ChildIdsOfTasks(ts, pid);
    |Children(ts, pid)| + 1
  }

  /** The ids of the children of `pid` exist in the list and rank below `pid`. */
  lemma {:induction false} ChildOfRanked(ts: seq<Task>, pid: int, m: int, rank: map<int, nat>)
    requires RankedBy(Links(ts), rank) && 0 <= m < |ChildIds(Links(ts), pid)|
    ensures FindIndex(ts, ChildIds(Links(ts), pid)[m]) >= 0
    ensures RankOf(rank, ChildIds(Links(ts), pid)[m]) < RankOf(rank, pid)
  {
    PositionOfChild(Links(ts), pid, m);
  }

  /** `updateDescendantDisplayIds(tasksList, parentId, newParentDisplayId)` as a value:
      the children of `pid` (collected once, in list order) get `prefix.1`, `prefix.2`,
      ..., each followed at once by its own descendants. */
  function Renumber(ts: seq<Task>, pid: int, prefix: DisplayId, ghost rank: map<int, nat>): (r: seq<Task>)
    requires RankedBy(Links(ts), rank)
    ensures SameExceptDisplayId(ts, r)
    decreases RankOf(rank, pid), 1
  {
    RenumberFrom(ts, pid, ChildIds(Links(ts), pid), 0, prefix, rank)
  }

  /** The `forEach` of `updateDescendantDisplayIds` from the child at `idx` on. */
  function RenumberFrom(ts: seq<Task>, pid: int, cs: seq<int>, idx: nat, prefix: DisplayId,
                        ghost rank: map<int, nat>): (r: seq<Task>)
    requires RankedBy(Links(ts), rank) && cs == ChildIds(Links(ts), pid) && idx <= |cs|
    ensures SameExceptDisplayId(ts, r)
    decreases RankOf(rank, pid), 0, |cs| - idx
  {
    if idx == |cs| then ts
    else
      ChildOfRanked(ts, pid, idx, rank);
      var k := FindIndex(ts, cs[idx]);
      var d := prefix + [idx + 1];
      var ts1 := ts[k := ts[k].(displayId := d)];
      LinksIgnoreDisplayId(ts, ts1);
      var ts2 := Renumber(ts1, cs[idx], d, rank);
      LinksIgnoreDisplayId(ts1, ts2);
      RenumberFrom(ts2, pid, cs, idx + 1, prefix, rank)
  }

  /** The in-place renumbering of `updateDescendantDisplayIds` on the task array. */
  method UpdateDescendantDisplayIds(a: array<Task>, pid: int, prefix: DisplayId, ghost rank: map<int, nat>)
    requires RankedBy(Links(a[..]), rank)
    modifies a
    ensures a[..] == Renumber(old(a[..]), pid, prefix, rank)
    decreases RankOf(rank, pid), 1
  {
    ghost var ts0 := a[..];
    var children := ChildIds(Links(a[..]), pid);
    for idx := 0 to |children|
      invariant Links(a[..]) == Links(ts0)
      invariant RenumberFrom(a[..], pid, children, idx, prefix, rank) == Renumber(ts0, pid, prefix, rank)
    {
      RenumberChild(a, pid, children, idx, prefix, rank);
    }
  }

  /** The callback of the `forEach` in `updateDescendantDisplayIds`, for the child at `idx`:
      its display id becomes `prefix.(idx+1)`, then its own subtree is renumbered. */
  method RenumberChild(a: array<Task>, pid: int, children: seq<int>, idx: nat, prefix: DisplayId,
                       ghost rank: map<int, nat>)
    requires RankedBy(Links(a[..]), rank) && children == ChildIds(Links(a[..]), pid) && idx < |children|
    modifies a
    ensures Links(a[..]) == Links(old(a[..]))
    ensures RenumberFrom(a[..], pid, children, idx + 1, prefix, rank) ==
      RenumberFrom(old(a[..]), pid, children, idx, prefix, rank)
    decreases RankOf(rank, pid), 0
  {
    ghost var before := a[..];
    RenumberFromUnfold(before, pid, children, idx, prefix, rank);
    ChildOfRanked(before, pid, idx, rank);
    var childIndex := FindIndex(a[..], children[idx]);
    var childDisplayId := prefix + [idx + 1];
    a[childIndex] := a[childIndex].(displayId := childDisplayId);
    assert a[..] == before[childIndex := before[childIndex].(displayId := childDisplayId)];
    UpdateDescendantDisplayIds(a, children[idx], childDisplayId, rank);
  }

  /** One turn of the `forEach`: number the child at `idx`, renumber below it, go on. */
  lemma {:induction false} RenumberFromUnfold(ts: seq<Task>, pid: int, cs: seq<int>, idx: nat, prefix: DisplayId,
                                              rank: map<int, nat>)
    requires RankedBy(Links(ts), rank) && cs == ChildIds(Links(ts), pid) && idx < |cs|
    ensures FindIndex(ts, cs[idx]) >= 0
    ensures var k, d := FindIndex(ts, cs[idx]), prefix + [idx + 1];
      var ts1 := ts[k := ts[k].(displayId := d)];
      Links(ts1) == Links(ts) &&
      Links(Renumber(ts1, cs[idx], d, rank)) == Links(ts) &&
      RenumberFrom(ts, pid, cs, idx, prefix, rank) ==
        RenumberFrom(Renumber(ts1, cs[idx], d, rank), pid, cs, idx + 1, prefix, rank)
  {
    ChildOfRanked(ts, pid, idx, rank);
    var k, d := FindIndex(ts, cs[idx]), prefix + [idx + 1];
    var ts1 := ts[k := ts[k].(displayId := d)];
    LinksIgnoreDisplayId(ts, ts1);
    LinksIgnoreDisplayId(ts1, Renumber(ts1, cs[idx], d, rank));
  }

  /** The index of the parent of task `j`, which lies below `pid` without being its child. */
  ghost function ParentIndex(ls: seq<Link>, pid: int, j: int, rank: map<int, nat>): (q: int)
    requires RankedBy(ls, rank) && UniqueIds(ls) && 0 <= j < |ls|
    requires IsDescendant(ls, pid, ls[j].id, rank) && ls[j].parentId != Some(pid)
    ensures 0 <= q < |ls| && ls[j].parentId == Some(ls[q].id)
    ensures IsDescendant(ls, pid, ls[q].id, rank)
    ensures RankOf(rank, ls[j].id) < RankOf(rank, ls[q].id) < RankOf(rank, pid)
  {
    DescendantUp(ls, pid, j, rank);
    DescendantRank(ls, pid, ls[j].parentId.value, rank);
    LinkIndex(ls, ls[j].parentId.value)
  }

  /** The display id that renumbering below `pid` with `prefix` gives task `j`: the
      id given to its parent (`prefix` for a child of `pid`) followed by one more than
      its position among its parent's children in list order. */
  ghost function Expected(ls: seq<Link>, pid: int, prefix: DisplayId, j: int, rank: map<int, nat>): DisplayId
    requires RankedBy(ls, rank) && UniqueIds(ls) && 0 <= j < |ls|
    requires IsDescendant(ls, pid, ls[j].id, rank)
    decreases RankOf(rank, pid) - RankOf(rank, ls[j].id)
  {
    DescendantUp(ls, pid, j, rank);
    (if ls[j].parentId == Some(pid) then prefix
     else Expected(ls, pid, prefix, ParentIndex(ls, pid, j, rank), rank)) + [Position(ls, j) + 1]
  }

  /** The child of `pid` whose subtree holds task `j`. */
  ghost function Branch(ls: seq<Link>, pid: int, j: int, rank: map<int, nat>): (b: int)
    requires RankedBy(ls, rank) && UniqueIds(ls) && 0 <= j < |ls|
    requires IsDescendant(ls, pid, ls[j].id, rank)
    ensures 0 <= b < |ls| && ls[b].parentId == Some(pid)
    ensures b == j || IsDescendant(ls, ls[b].id, ls[j].id, rank)
    decreases RankOf(rank, pid) - RankOf(rank, ls[j].id)
  {
    DescendantUp(ls, pid, j, rank);
    if ls[j].parentId == Some(pid) then j
    else
      var q := ParentIndex(ls, pid, j, rank);
      var b := Branch(ls, pid, q, rank);
      DescendantStep(ls, ls[b].id, j, rank);
      b
  }

  /** A task in the subtree of a child `k` of `pid` lies below `pid`, in branch `k`. */
  lemma {:induction false} BranchOfSubtree(ls: seq<Link>, pid: int, k: int, j: int, rank: map<int, nat>)
    requires RankedBy(ls, rank) && UniqueIds(ls) && 0 <= k < |ls| && 0 <= j < |ls|
    requires ls[k].parentId == Some(pid)
    requires j == k || IsDescendant(ls, ls[k].id, ls[j].id, rank)
    ensures IsDescendant(ls, pid, ls[j].id, rank)
    ensures Branch(ls, pid, j, rank) == k
  {
    assert ls[k].parentId == Some(pid) && (ls[k].id == ls[j].id || IsDescendant(ls, ls[k].id, ls[j].id, rank));
    var b := Branch(ls, pid, j, rank);
    if b != k {
      SiblingSubtreesDisjoint(ls, k, b, ls[j].id, rank);
    }
  }

  /** Renumbering the subtree of a child `k` of `pid` with the id the walk gives `k`
      yields the same ids as renumbering from `pid`. */
  lemma {:induction false} ExpectedReroot(ls: seq<Link>, pid: int, prefix: DisplayId, k: int, j: int,
                                          rank: map<int, nat>)
    requires RankedBy(ls, rank) && UniqueIds(ls) && 0 <= k < |ls| && 0 <= j < |ls|
    requires ls[k].parentId == Some(pid) && IsDescendant(ls, ls[k].id, ls[j].id, rank)
    ensures IsDescendant(ls, pid, ls[j].id, rank)
    ensures Expected(ls, ls[k].id, prefix + [Position(ls, k) + 1], j, rank) == Expected(ls, pid, prefix, j, rank)
    decreases RankOf(rank, ls[k].id) - RankOf(rank, ls[j].id)
  {
    BranchOfSubtree(ls, pid, k, j, rank);
    DescendantRank(ls, ls[k].id, ls[j].id, rank);
    if ls[j].parentId == Some(pid) {
      assert false;
    }
    DescendantUp(ls, ls[k].id, j, rank);
    var q := ParentIndex(ls, pid, j, rank);
    if ls[j].parentId != Some(ls[k].id) {
      ExpectedReroot(ls, pid, prefix, k, q, rank);
    } else {
      UniqueLinkIndex(ls, q, k);
    }
  }

  /** Task `j` lies in the subtree of a child of `pid` at position `idx` or later. */
  ghost predicate InBranchFrom(ls: seq<Link>, pid: int, idx: nat, j: int, rank: map<int, nat>)
    requires RankedBy(ls, rank) && UniqueIds(ls) && 0 <= j < |ls|
  {
    IsDescendant(ls, pid, ls[j].id, rank) && Position(ls, Branch(ls, pid, j, rank)) >= idx
  }

  /** One step of the `forEach`, for one task `j`: the child `k` at position `idx` and
      its subtree leave the range still to be renumbered, and nothing else does. */
  lemma {:induction false} RenumberStep(ls: seq<Link>, pid: int, idx: nat, prefix: DisplayId, k: int, j: int, rank: map<int, nat>)
    requires RankedBy(ls, rank) && UniqueIds(ls) && 0 <= k < |ls| && 0 <= j < |ls|
    requires ls[k].parentId == Some(pid) && Position(ls, k) == idx
    ensures j == k ==>
      InBranchFrom(ls, pid, idx, k, rank) && !InBranchFrom(ls, pid, idx + 1, k, rank) &&
      !IsDescendant(ls, ls[k].id, ls[k].id, rank) && Expected(ls, pid, prefix, k, rank) == prefix + [idx + 1]
    ensures j != k && IsDescendant(ls, ls[k].id, ls[j].id, rank) ==>
      InBranchFrom(ls, pid, idx, j, rank) && !InBranchFrom(ls, pid, idx + 1, j, rank) &&
      Expected(ls, ls[k].id, prefix + [idx + 1], j, rank) == Expected(ls, pid, prefix, j, rank)
    ensures j != k && !IsDescendant(ls, ls[k].id, ls[j].id, rank) ==>
      (InBranchFrom(ls, pid, idx, j, rank) <==> InBranchFrom(ls, pid, idx + 1, j, rank))
  {
    if j == k {
      BranchOfSubtree(ls, pid, k, k, rank);
      NotOwnDescendant(ls, ls[k].id, rank);
    } else if IsDescendant(ls, ls[k].id, ls[j].id, rank) {
      BranchOfSubtree(ls, pid, k, j, rank);
      ExpectedReroot(ls, pid, prefix, k, j, rank);
    } else if IsDescendant(ls, pid, ls[j].id, rank) {
      var b := Branch(ls, pid, j, rank);
      if b < k {
        PositionInjective(ls, b, k);
      } else if k < b {
        PositionInjective(ls, k, b);
      }
    }
  }

  /** What the `forEach` from child `idx` on does: every task in the subtree of a child
      of `pid` at position `idx` or later gets its expected display id; nothing else
      changes. */
  lemma {:induction false} RenumberFromSpec(ts: seq<Task>, pid: int, idx: nat, prefix: DisplayId,
                                            rank: map<int, nat>)
    requires RankedBy(Links(ts), rank) && UniqueIds(Links(ts)) && idx <= |ChildIds(Links(ts), pid)|
    ensures var ls := Links(ts);
      var r := RenumberFrom(ts, pid, ChildIds(ls, pid), idx, prefix, rank);
      forall j :: 0 <= j < |ts| ==>
        r[j] == if InBranchFrom(ls, pid, idx, j, rank)
                then ts[j].(displayId := Expected(ls, pid, prefix, j, rank)) else ts[j]
    decreases RankOf(rank, pid), 0, |ChildIds(Links(ts), pid)| - idx, 1
  {
    var ls := Links(ts);
    var cs := ChildIds(ls, pid);
    if idx == |cs| {
      forall j | 0 <= j < |ts| && IsDescendant(ls, pid, ls[j].id, rank)
        ensures Position(ls, Branch(ls, pid, j, rank)) < idx
      {
        ChildAtPosition(ls, Branch(ls, pid, j, rank));
      }
    } else {
      ChildOfRanked(ts, pid, idx, rank);
      var k := FindIndex(ts, cs[idx]);
      PositionOfChild(ls, pid, idx);
      var j0 :| 0 <= j0 < |ls| && ls[j0].parentId == Some(pid) && ls[j0].id == cs[idx] && Position(ls, j0) == idx;
      UniqueLinkIndex(ls, j0, k);
      RenumberFromStep(ts, pid, idx, prefix, k, rank);
    }
  }

  /** One step of `RenumberFromSpec`: renumbering child `k` at position `idx` and its
      subtree, then the children after it, renumbers exactly the subtrees from `idx` on. */
  lemma {:induction false} RenumberFromStep(ts: seq<Task>, pid: int, idx: nat, prefix: DisplayId, k: int,
                                            rank: map<int, nat>)
    requires RankedBy(Links(ts), rank) && UniqueIds(Links(ts)) && idx < |ChildIds(Links(ts), pid)|
    requires 0 <= k < |ts| && k == FindIndex(ts, ChildIds(Links(ts), pid)[idx])
    requires ts[k].parentId == Some(pid) && Position(Links(ts), k) == idx
    ensures var ls := Links(ts);
      var r := RenumberFrom(ts, pid, ChildIds(ls, pid), idx, prefix, rank);
      forall j :: 0 <= j < |ts| ==>
        r[j] == if InBranchFrom(ls, pid, idx, j, rank)
                then ts[j].(displayId := Expected(ls, pid, prefix, j, rank)) else ts[j]
    decreases RankOf(rank, pid), 0, |ChildIds(Links(ts), pid)| - idx, 0
  {
    var ls := Links(ts);
    var cs := ChildIds(ls, pid);
    assert ls[k].id == ts[k].id == cs[idx];
    ChildOfRanked(ts, pid, idx, rank);
    var d := prefix + [idx + 1];
    var ts1 := ts[k := ts[k].(displayId := d)];
    LinksIgnoreDisplayId(ts, ts1);
    var ts2 := Renumber(ts1, cs[idx], d, rank);
    LinksIgnoreDisplayId(ts1, ts2);
    assert Links(ts1) == ls && Links(ts2) == ls;
    RenumberSpec(ts1, cs[idx], d, rank);
    RenumberFromSpec(ts2, pid, idx + 1, prefix, rank);
    var r := RenumberFrom(ts2, pid, cs, idx + 1, prefix, rank);
    assert RenumberFrom(ts, pid, cs, idx, prefix, rank) == r;
    forall j | 0 <= j < |ts|
      ensures r[j] == if InBranchFrom(ls, pid, idx, j, rank)
                      then ts[j].(displayId := Expected(ls, pid, prefix, j, rank)) else ts[j]
    {
      RenumberStep(ls, pid, idx, prefix, k, j, rank);
    }
  }

  /** What `updateDescendantDisplayIds(ts, pid, prefix)` does: every task strictly below
      `pid` gets its expected display id, and every other task is left as it was. */
  lemma {:induction false} RenumberSpec(ts: seq<Task>, pid: int, prefix: DisplayId, rank: map<int, nat>)
    requires RankedBy(Links(ts), rank) && UniqueIds(Links(ts))
    ensures var ls := Links(ts);
      var r := Renumber(ts, pid, prefix, rank);
      forall j :: 0 <= j < |ts| ==>
        r[j] == if IsDescendant(ls, pid, ls[j].id, rank)
                then ts[j].(displayId := Expected(ls, pid, prefix, j, rank)) else ts[j]
    decreases RankOf(rank, pid), 1, 0, 0
  {
    RenumberFromSpec(ts, pid, 0, prefix, rank);
  }

  /** Every task strictly below `x` shows the display id of its parent, `top` for a
      direct child of `x`, followed by one more than the number of its parent's
      children listed before it. */
  ghost predicate NumberedBelow(ls: seq<Link>, r: seq<Task>, x: int, top: DisplayId, rank: map<int, nat>)
    requires RankedBy(ls, rank) && |r| == |ls|
  {
    forall j :: 0 <= j < |ls| && IsDescendant(ls, x, ls[j].id, rank) ==>
      ls[j].parentId.Some? && (ls[j].parentId == Some(x) || LinkIndex(ls, ls[j].parentId.value) >= 0) &&
      r[j].displayId ==
        (if ls[j].parentId == Some(x) then top else r[LinkIndex(ls, ls[j].parentId.value)].displayId) +
        [Position(ls, j) + 1]
  }

  /** The renumbering read locally: a task strictly below `pid` shows the new display id
      of its parent (`prefix` for a direct child of `pid`) followed by one more than the
      number of its parent's children that precede it in the list; a task anywhere else
      keeps its display id, and nothing but display ids changes. */
  lemma {:induction false} RenumberNumbersByPosition(ts: seq<Task>, pid: int, prefix: DisplayId, rank: map<int, nat>)
    requires RankedBy(Links(ts), rank) && UniqueIds(Links(ts))
    ensures NumberedBelow(Links(ts), Renumber(ts, pid, prefix, rank), pid, prefix, rank)
    ensures var r := Renumber(ts, pid, prefix, rank);
      forall j :: 0 <= j < |ts| && !IsDescendant(Links(ts), pid, ts[j].id, rank) ==> r[j] == ts[j]
  {
    var ls := Links(ts);
    RenumberSpec(ts, pid, prefix, rank);
    forall j | 0 <= j < |ls| && IsDescendant(ls, pid, ls[j].id, rank)
      ensures ls[j].parentId.Some? && (ls[j].parentId == Some(pid) || LinkIndex(ls, ls[j].parentId.value) >= 0)
    {
      DescendantUp(ls, pid, j, rank);
      if ls[j].parentId != Some(pid) {
        var q := ParentIndex(ls, pid, j, rank);
        assert HasId(ls, ls[j].parentId.value) by {
          assert ls[q].id == ls[j].parentId.value;
        }
      }
    }
  }
}
