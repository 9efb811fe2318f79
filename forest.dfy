/** The tree structure that parent edges give the flat task list: the links
    (id, parentId) of the tasks, acyclicity as a ranking of ids, and the
    `isDescendant` walk of src/App.tsx together with the facts about it that the
    rest of the model relies on. */
module Forest {
  import opened Tasks

  /** The part of a task that the tree structure depends on. */
  datatype Link = Link(id: int, parentId: Option<int>)

  function Links(ts: seq<Task>): (ls: seq<Link>)
    ensures |ls| == |ts|
    ensures forall i :: 0 <= i < |ts| ==> ls[i] == Link(ts[i].id, ts[i].parentId)
  {
    seq(|ts|, i requires 0 <= i < |ts| => Link(ts[i].id, ts[i].parentId))
  }

  /** Editing statuses or display ids leaves the structure as it was. */
  lemma {:induction false} LinksIgnoreStatus(a: seq<Task>, b: seq<Task>)
    requires SameExceptStatus(a, b)
    ensures Links(a) == Links(b)
  {
    assert forall i :: 0 <= i < |a| ==> Links(a)[i] == Links(b)[i];
  }

  lemma {:induction false} LinksIgnoreDisplayId(a: seq<Task>, b: seq<Task>)
    requires SameExceptDisplayId(a, b)
    ensures Links(a) == Links(b)
  {
    assert forall i :: 0 <= i < |a| ==> Links(a)[i] == Links(b)[i];
  }

  /** Every child is ranked strictly below its parent: the list has no cycle. */
  ghost predicate RankedBy(ls: seq<Link>, rank: map<int, nat>)
  {
    forall i :: 0 <= i < |ls| ==>
      ls[i].id in rank &&
      (ls[i].parentId.Some? ==>
         ls[i].parentId.value in rank && rank[ls[i].id] < rank[ls[i].parentId.value])
  }

  ghost predicate Acyclic(ls: seq<Link>)
  {
    exists rank :: RankedBy(ls, rank)
  }

  /** No id is held by two tasks. */
  predicate UniqueIds(ls: seq<Link>)
  {
    forall i, j :: 0 <= i < |ls| && 0 <= j < |ls| && i != j ==> ls[i].id != ls[j].id
  }

  /** Every parent id names a task of the list. */
  predicate Closed(ls: seq<Link>)
  {
    forall i :: 0 <= i < |ls| && ls[i].parentId.Some? ==> HasId(ls, ls[i].parentId.value)
  }

  /** With unique ids, an id picks out a single index. */
  lemma {:induction false} UniqueIdIndex(ts: seq<Task>, i: int, k: int)
    requires UniqueIds(Links(ts)) && 0 <= i < |ts| && 0 <= k < |ts| && ts[i].id == ts[k].id
    ensures i == k
  {
    assert Links(ts)[i].id == Links(ts)[k].id;
  }

  lemma {:induction false} UniqueLinkIndex(ls: seq<Link>, i: int, k: int)
    requires UniqueIds(ls) && 0 <= i < |ls| && 0 <= k < |ls| && ls[i].id == ls[k].id
    ensures i == k
  {
  }

  predicate HasId(ls: seq<Link>, id: int)
  {
    exists j :: 0 <= j < |ls| && ls[j].id == id
  }

  /** The first index holding `id`, or -1. */
  function LinkIndex(ls: seq<Link>, id: int): (k: int)
    ensures -1 <= k < |ls|
    ensures k >= 0 ==> ls[k].id == id
    ensures k == -1 <==> !HasId(ls, id)
  {
    if |ls| == 0 then -1
    else if ls[0].id == id then 0
    else
      var k := LinkIndex(ls[1..], id);
      assert HasId(ls[1..], id) ==> HasId(ls, id);
      assert HasId(ls, id) ==> ls[0].id == id || HasId(ls[1..], id) by {
        if HasId(ls, id) {
          var j :| 0 <= j < |ls| && ls[j].id == id;
          if j > 0 {
            assert ls[1..][j - 1].id == id;
          }
        }
      }
      if k == -1 then -1 else k + 1
  }

  function RankOf(rank: map<int, nat>, a: int): nat
  {
    if a in rank then rank[a] else 0
  }

  /** `isDescendant(a, b, tasksList)`: some child of `a` is `b` or has `b` below it,
      so `b` lies strictly below `a`. */
  predicate IsDescendant(ls: seq<Link>, a: int, b: int, ghost rank: map<int, nat>)
    requires RankedBy(ls, rank)
    decreases RankOf(rank, a)
  {
    exists i :: 0 <= i < |ls| && ls[i].parentId == Some(a) &&
      (ls[i].id == b || IsDescendant(ls, ls[i].id, b, rank))
  }

  /** Ids below `a` have smaller rank than `a`, and belong to the list. */
  lemma {:induction false} DescendantRank(ls: seq<Link>, a: int, b: int, rank: map<int, nat>)
    requires RankedBy(ls, rank) && IsDescendant(ls, a, b, rank)
    ensures a in rank && b in rank && rank[b] < rank[a]
    ensures HasId(ls, b)
    decreases RankOf(rank, a)
  {
    var i :| 0 <= i < |ls| && ls[i].parentId == Some(a) &&
      (ls[i].id == b || IsDescendant(ls, ls[i].id, b, rank));
    if ls[i].id != b {
      DescendantRank(ls, ls[i].id, b, rank);
    }
  }

  /** No task lies below itself. */
  lemma {:induction false} NotOwnDescendant(ls: seq<Link>, a: int, rank: map<int, nat>)
    requires RankedBy(ls, rank)
    ensures !IsDescendant(ls, a, a, rank)
  {
    if IsDescendant(ls, a, a, rank) {
      DescendantRank(ls, a, a, rank);
      assert false;
    }
  }

  /** A child of `a`, or of a task below `a`, lies below `a`. */
  lemma {:induction false} DescendantStep(ls: seq<Link>, a: int, j: int, rank: map<int, nat>)
    requires RankedBy(ls, rank) && 0 <= j < |ls| && ls[j].parentId.Some?
    requires ls[j].parentId.value == a || IsDescendant(ls, a, ls[j].parentId.value, rank)
    ensures IsDescendant(ls, a, ls[j].id, rank)
    decreases RankOf(rank, a)
  {
    var p := ls[j].parentId.value;
    if p == a {
      assert ls[j].parentId == Some(a) && ls[j].id == ls[j].id;
    } else {
      var i :| 0 <= i < |ls| && ls[i].parentId == Some(a) &&
        (ls[i].id == p || IsDescendant(ls, ls[i].id, p, rank));
      if ls[i].id == p {
        assert IsDescendant(ls, ls[i].id, ls[j].id, rank) by {
          assert ls[j].parentId == Some(ls[i].id);
        }
      } else {
        DescendantStep(ls, ls[i].id, j, rank);
      }
    }
  }

  /** With unique ids, the parent of a task below `a` is `a` or lies below `a`. */
  lemma {:induction false} DescendantUp(ls: seq<Link>, a: int, j: int, rank: map<int, nat>)
    requires RankedBy(ls, rank) && UniqueIds(ls) && 0 <= j < |ls|
    requires IsDescendant(ls, a, ls[j].id, rank)
    ensures ls[j].parentId.Some?
    ensures ls[j].parentId.value == a || IsDescendant(ls, a, ls[j].parentId.value, rank)
    decreases RankOf(rank, a)
  {
    var x := ls[j].id;
    var i :| 0 <= i < |ls| && ls[i].parentId == Some(a) &&
      (ls[i].id == x || IsDescendant(ls, ls[i].id, x, rank));
    if ls[i].id == x {
      assert i == j;
    } else {
      DescendantUp(ls, ls[i].id, j, rank);
      var p := ls[j].parentId.value;
      assert ls[i].parentId == Some(a) && (ls[i].id == p || IsDescendant(ls, ls[i].id, p, rank));
    }
  }

  /** Two tasks above the same task are equal or one lies below the other. */
  lemma {:induction false} DescendantCompare(ls: seq<Link>, a: int, b: int, j: int, rank: map<int, nat>)
    requires RankedBy(ls, rank) && UniqueIds(ls) && 0 <= j < |ls|
    requires IsDescendant(ls, a, ls[j].id, rank) && IsDescendant(ls, b, ls[j].id, rank)
    ensures a == b || IsDescendant(ls, a, b, rank) || IsDescendant(ls, b, a, rank)
    decreases if RankOf(rank, a) > RankOf(rank, ls[j].id) then RankOf(rank, a) - RankOf(rank, ls[j].id) else 0
  {
    DescendantRank(ls, a, ls[j].id, rank);
    DescendantUp(ls, a, j, rank);
    DescendantUp(ls, b, j, rank);
    var p := ls[j].parentId.value;
    if p != a && p != b {
      DescendantRank(ls, a, p, rank);
      var k :| 0 <= k < |ls| && ls[k].id == p;
      DescendantCompare(ls, a, b, k, rank);
    }
  }

  /** The subtrees of two different children of one parent share no task. */
  lemma {:induction false} SiblingSubtreesDisjoint(ls: seq<Link>, i1: int, i2: int, x: int, rank: map<int, nat>)
    requires RankedBy(ls, rank) && UniqueIds(ls)
    requires 0 <= i1 < |ls| && 0 <= i2 < |ls| && i1 != i2
    requires ls[i1].parentId.Some? && ls[i1].parentId == ls[i2].parentId
    requires x == ls[i1].id || IsDescendant(ls, ls[i1].id, x, rank)
    ensures !(x == ls[i2].id || IsDescendant(ls, ls[i2].id, x, rank))
  {
    var c1, c2 := ls[i1].id, ls[i2].id;
    if x == c2 || IsDescendant(ls, c2, x, rank) {
      if x == c1 {
        DescendantUp(ls, c2, i1, rank);
        if ls[i1].parentId.value != c2 {
          DescendantRank(ls, c2, ls[i1].parentId.value, rank);
        }
      } else if x == c2 {
        DescendantUp(ls, c1, i2, rank);
        if ls[i2].parentId.value != c1 {
          DescendantRank(ls, c1, ls[i2].parentId.value, rank);
        }
      } else {
        DescendantRank(ls, c1, x, rank);
        var j :| 0 <= j < |ls| && ls[j].id == x;
        DescendantCompare(ls, c1, c2, j, rank);
        if IsDescendant(ls, c1, c2, rank) {
          DescendantUp(ls, c1, i2, rank);
          if ls[i2].parentId.value != c1 {
            DescendantRank(ls, c1, ls[i2].parentId.value, rank);
          }
        } else {
          DescendantUp(ls, c2, i1, rank);
          if ls[i1].parentId.value != c2 {
            DescendantRank(ls, c2, ls[i1].parentId.value, rank);
          }
        }
      }
      assert false;
    }
  }

  /** The subtrees of two different roots share no task. */
  lemma {:induction false} RootSubtreesDisjoint(ls: seq<Link>, i1: int, i2: int, x: int, rank: map<int, nat>)
    requires RankedBy(ls, rank) && UniqueIds(ls)
    requires 0 <= i1 < |ls| && 0 <= i2 < |ls| && i1 != i2
    requires ls[i1].parentId.None? && ls[i2].parentId.None?
    requires x == ls[i1].id || IsDescendant(ls, ls[i1].id, x, rank)
    ensures !(x == ls[i2].id || IsDescendant(ls, ls[i2].id, x, rank))
  {
    var c1, c2 := ls[i1].id, ls[i2].id;
    if x == c2 || IsDescendant(ls, c2, x, rank) {
      if x == c1 {
        if x == c2 {
          UniqueLinkIndex(ls, i1, i2);
        } else {
          DescendantUp(ls, c2, i1, rank);
        }
      } else if x == c2 {
        DescendantUp(ls, c1, i2, rank);
      } else {
        DescendantRank(ls, c1, x, rank);
        var j :| 0 <= j < |ls| && ls[j].id == x;
        DescendantCompare(ls, c1, c2, j, rank);
        if c1 == c2 {
          UniqueLinkIndex(ls, i1, i2);
        } else if IsDescendant(ls, c1, c2, rank) {
          DescendantUp(ls, c1, i2, rank);
        } else {
          DescendantUp(ls, c2, i1, rank);
        }
      }
      assert false;
    }
  }

  /** `isDescendant` reads only the structure: any two rankings give the same answer. */
  lemma {:induction false} DescendantRankIrrelevant(ls: seq<Link>, a: int, b: int, r1: map<int, nat>, r2: map<int, nat>)
    requires RankedBy(ls, r1) && RankedBy(ls, r2)
    ensures IsDescendant(ls, a, b, r1) == IsDescendant(ls, a, b, r2)
    decreases RankOf(r1, a)
  {
    forall i | 0 <= i < |ls| && ls[i].parentId == Some(a)
      ensures IsDescendant(ls, ls[i].id, b, r1) == IsDescendant(ls, ls[i].id, b, r2)
    {
      DescendantRankIrrelevant(ls, ls[i].id, b, r1, r2);
    }
  }

  /** `tasks.filter(t => t.parentId === p).map(t => t.id)`. */
  function ChildIds(ls: seq<Link>, p: int): (cs: seq<int>)
    ensures |cs| <= |ls|
  {
    if |ls| == 0 then []
    else (if ls[0].parentId == Some(p) then [ls[0].id] else []) + ChildIds(ls[1..], p)
  }

  lemma {:induction false} ChildIdsAppend(a: seq<Link>, b: seq<Link>, p: int)
    ensures ChildIds(a + b, p) == ChildIds(a, p) + ChildIds(b, p)
  {
    if |a| > 0 {
      assert (a + b)[1..] == a[1..] + b;
      ChildIdsAppend(a[1..], b, p);
    } else {
      assert a + b == b;
    }
  }

  lemma {:induction false} ChildIdsOfTasks(ts: seq<Task>, p: int)
    ensures |ChildIds(Links(ts), p)| == |Children(ts, p)|
    ensures forall m :: 0 <= m < |Children(ts, p)| ==> ChildIds(Links(ts), p)[m] == Children(ts, p)[m].id
  {
    if |ts| > 0 {
      assert Links(ts)[1..] == Links(ts[1..]);
      ChildIdsOfTasks(ts[1..], p);
    }
  }

  /** The 0-based position of task `j` among the children of its parent, in list order. */
  function Position(ls: seq<Link>, j: int): nat
    requires 0 <= j < |ls| && ls[j].parentId.Some?
  {
    |ChildIds(ls[..j], ls[j].parentId.value)|
  }

  /** Task `j` stands at its position in the list of its parent's children. */
  lemma {:induction false} ChildAtPosition(ls: seq<Link>, j: int)
    requires 0 <= j < |ls| && ls[j].parentId.Some?
    ensures Position(ls, j) < |ChildIds(ls, ls[j].parentId.value)|
    ensures ChildIds(ls, ls[j].parentId.value)[Position(ls, j)] == ls[j].id
  {
    var p := ls[j].parentId.value;
    assert ls == ls[..j] + ls[j..];
    ChildIdsAppend(ls[..j], ls[j..], p);
    assert ls[j..][1..] == ls[j + 1..];
  }

  /** Every entry of the children list is a child standing at that position. */
  lemma {:induction false} PositionOfChild(ls: seq<Link>, p: int, m: int)
    requires 0 <= m < |ChildIds(ls, p)|
    ensures exists j ::
              0 <= j < |ls| && ls[j].parentId == Some(p) &&
              ls[j].id == ChildIds(ls, p)[m] && Position(ls, j) == m
  {
    if ls[0].parentId == Some(p) && m == 0 {
      assert ls[..0] == [];
      assert ls[0].parentId == Some(p) && ls[0].id == ChildIds(ls, p)[m] && Position(ls, 0) == m;
    } else {
      var m' := if ls[0].parentId == Some(p) then m - 1 else m;
      PositionOfChild(ls[1..], p, m');
      var j' :| 0 <= j' < |ls[1..]| && ls[1..][j'].parentId == Some(p) &&
        ls[1..][j'].id == ChildIds(ls[1..], p)[m'] && Position(ls[1..], j') == m';
      assert ls[..j' + 1][1..] == ls[1..][..j'];
      assert ls[1 + j'].parentId == Some(p) && ls[1 + j'].id == ChildIds(ls, p)[m] && Position(ls, 1 + j') == m;
    }
  }

  /** Two different children of one parent stand at different positions. */
  lemma {:induction false} PositionInjective(ls: seq<Link>, j1: int, j2: int)
    requires 0 <= j1 < j2 < |ls| && ls[j1].parentId.Some? && ls[j1].parentId == ls[j2].parentId
    ensures Position(ls, j1) < Position(ls, j2)
  {
    var p := ls[j1].parentId.value;
    assert ls[..j2] == ls[..j1] + [ls[j1]] + ls[j1 + 1..j2];
    ChildIdsAppend(ls[..j1] + [ls[j1]], ls[j1 + 1..j2], p);
    ChildIdsAppend(ls[..j1], [ls[j1]], p);
    assert ChildIds([ls[j1]], p) == [ls[j1].id] by {
      assert [ls[j1]][1..] == [];
    }
  }

  /** Status changes keep the number of children of every task. */
  lemma {:induction false} ChildrenCountIgnoresStatus(a: seq<Task>, b: seq<Task>, p: int)
    requires SameExceptStatus(a, b)
    ensures |Children(a, p)| == |Children(b, p)|
  {
    LinksIgnoreStatus(a, b);
    ChildIdsOfTasks(a, p);
    ChildIdsOfTasks(b, p);
  }
}
