/** `buildHierarchy` and `allHierarchicalTasks` of src/components/TaskList.tsx: the list
    laid out in pre-order, roots and siblings sorted by display id. */
module Hierarchy {
  import opened Tasks
  import opened Forest
  import opened DisplayOrder

  /** No value occurs twice. */
  predicate NoDup(s: seq<Task>)
  {
    forall i, j :: 0 <= i < j < |s| ==> s[i] != s[j]
  }

  /** Every element of a rearrangement of the children of `p` hangs under `p`, belongs to
      the list and is ranked below `p`. */
  lemma {:induction false} ChildrenRankedBelow(ts: seq<Task>, p: int, cs: seq<Task>, rank: map<int, nat>)
    requires RankedBy(Links(ts), rank) && multiset(cs) == multiset(Children(ts, p))
    ensures forall c :: c in cs ==> c in ts && c.parentId == Some(p) && RankOf(rank, c.id) < RankOf(rank, p)
  {
    forall c | c in cs
      ensures c in ts && c.parentId == Some(p) && RankOf(rank, c.id) < RankOf(rank, p)
    {
      assert c in multiset(Children(ts, p));
      assert c in Children(ts, p);
      var i :| 0 <= i < |ts| && ts[i] == c;
      assert Links(ts)[i] == Link(c.id, c.parentId);
    }
  }

  /** A rank above every rank of the list. */
  ghost function RankBound(ts: seq<Task>, rank: map<int, nat>): (b: nat)
    ensures forall c :: c in ts ==> RankOf(rank, c.id) < b
  {
    if ts == [] then 0
    else
      var b := RankBound(ts[1..], rank);
      assert forall c :: c in ts ==> c == ts[0] || c in ts[1..];
      if RankOf(rank, ts[0].id) < b then b else RankOf(rank, ts[0].id) + 1
  }

  /** `buildHierarchy(task)` (lines 38-44): the task, then the hierarchy of each child in
      display-id order. It descends child links, so it is given a ranking of the list. */
  function BuildHierarchy(t: Task, ts: seq<Task>, ghost rank: map<int, nat>): seq<Task>
    requires RankedBy(Links(ts), rank)
    decreases RankOf(rank, t.id), 1
  {
    var cs := SortByDisplayId(Children(ts, t.id));
    ChildrenRankedBelow(ts, t.id, cs, rank);
    [t] + Flatten(cs, ts, RankOf(rank, t.id), rank)
  }

  /** `.flatMap(child => buildHierarchy(child))` over tasks ranked below `bound`. */
  function Flatten(cs: seq<Task>, ts: seq<Task>, ghost bound: nat, ghost rank: map<int, nat>): seq<Task>
    requires RankedBy(Links(ts), rank)
    requires forall c :: c in cs ==> RankOf(rank, c.id) < bound
    decreases bound, 0, |cs|
  {
    if cs == [] then []
    else BuildHierarchy(cs[0], ts, rank) + Flatten(cs[1..], ts, bound, rank)
  }

  /** `allHierarchicalTasks` (lines 46-49): the hierarchy of each root, roots in
      display-id order. */
  function AllHierarchical(ts: seq<Task>, ghost rank: map<int, nat>): seq<Task>
    requires RankedBy(Links(ts), rank)
  {
    var rs := SortByDisplayId(Roots(ts));
    assert forall c :: c in rs ==> c in ts by {
      forall c | c in rs ensures c in ts {
        assert c in multiset(Roots(ts));
      }
    }
    Flatten(rs, ts, RankBound(ts, rank), rank)
  }

  /** A flattened list holds exactly the members of the hierarchies it joins. */
  lemma {:induction false} FlattenMembers(cs: seq<Task>, ts: seq<Task>, bound: nat, rank: map<int, nat>, x: Task)
    requires RankedBy(Links(ts), rank)
    requires forall c :: c in cs ==> RankOf(rank, c.id) < bound
    ensures x in Flatten(cs, ts, bound, rank) <==> exists c :: c in cs && x in BuildHierarchy(c, ts, rank)
    decreases |cs|
  {
    if cs != [] {
      var h := BuildHierarchy(cs[0], ts, rank);
      assert Flatten(cs, ts, bound, rank) == h + Flatten(cs[1..], ts, bound, rank);
      FlattenMembers(cs[1..], ts, bound, rank, x);
      if exists c :: c in cs && x in BuildHierarchy(c, ts, rank) {
        var c :| c in cs && x in BuildHierarchy(c, ts, rank);
        if c != cs[0] {
          assert c in cs[1..];
        }
      }
      if x in h {
        assert cs[0] in cs;
      }
    }
  }

  /** One level of `buildHierarchy`: the task, then the flattened sorted children. */
  lemma {:induction false} HierarchyUnfold(t: Task, ts: seq<Task>, rank: map<int, nat>, x: Task)
    requires RankedBy(Links(ts), rank)
    ensures forall c :: c in SortByDisplayId(Children(ts, t.id)) ==>
      c in ts && c.parentId == Some(t.id) && RankOf(rank, c.id) < RankOf(rank, t.id)
    ensures x in BuildHierarchy(t, ts, rank) <==>
      x == t || exists c :: c in SortByDisplayId(Children(ts, t.id)) && x in BuildHierarchy(c, ts, rank)
  {
    var cs := SortByDisplayId(Children(ts, t.id));
    ChildrenRankedBelow(ts, t.id, cs, rank);
    assert BuildHierarchy(t, ts, rank) == [t] + Flatten(cs, ts, RankOf(rank, t.id), rank);
    FlattenMembers(cs, ts, RankOf(rank, t.id), rank, x);
  }

  /** Everything in the hierarchy of `t` is `t` or a task of the list below it. */
  lemma {:induction false} HierarchyBelow(t: Task, ts: seq<Task>, rank: map<int, nat>, x: Task)
    requires RankedBy(Links(ts), rank)
    requires x in BuildHierarchy(t, ts, rank)
    ensures x == t || (x in ts && IsDescendant(Links(ts), t.id, x.id, rank))
    decreases RankOf(rank, t.id)
  {
    HierarchyUnfold(t, ts, rank, x);
    if x != t {
      var c :| c in SortByDisplayId(Children(ts, t.id)) && x in BuildHierarchy(c, ts, rank);
      HierarchyBelow(c, ts, rank, x);
      var i :| 0 <= i < |ts| && ts[i] == c;
      assert Links(ts)[i] == Link(c.id, c.parentId);
    }
  }

  /** With unique ids, every task of the list below `t` is in the hierarchy of `t`. */
  lemma {:induction false} HierarchyReaches(t: Task, ts: seq<Task>, rank: map<int, nat>, x: Task)
    requires RankedBy(Links(ts), rank) && UniqueIds(Links(ts))
    requires x in ts && IsDescendant(Links(ts), t.id, x.id, rank)
    ensures x in BuildHierarchy(t, ts, rank)
    decreases RankOf(rank, t.id)
  {
    var ls := Links(ts);
    var cs := SortByDisplayId(Children(ts, t.id));
    HierarchyUnfold(t, ts, rank, x);
    var i :| 0 <= i < |ls| && ls[i].parentId == Some(t.id) &&
      (ls[i].id == x.id || IsDescendant(ls, ls[i].id, x.id, rank));
    assert ts[i] in Children(ts, t.id);
    assert ts[i] in multiset(cs);
    if ls[i].id == x.id {
      var k :| 0 <= k < |ts| && ts[k] == x;
      UniqueIdIndex(ts, i, k);
      HierarchyUnfold(x, ts, rank, x);
    } else {
      assert RankOf(rank, ts[i].id) < RankOf(rank, t.id);
      HierarchyReaches(ts[i], ts, rank, x);
    }
  }

  /** On a ranked list with unique ids, the hierarchy of `t` holds `t` and exactly the
      tasks below it. */
  lemma {:induction false} HierarchyMembers(t: Task, ts: seq<Task>, rank: map<int, nat>, x: Task)
    requires RankedBy(Links(ts), rank) && UniqueIds(Links(ts))
    ensures x in BuildHierarchy(t, ts, rank) <==>
      x == t || (x in ts && IsDescendant(Links(ts), t.id, x.id, rank))
  {
    if x in BuildHierarchy(t, ts, rank) {
      HierarchyBelow(t, ts, rank, x);
    }
    if x in ts && IsDescendant(Links(ts), t.id, x.id, rank) {
      HierarchyReaches(t, ts, rank, x);
    }
    HierarchyUnfold(t, ts, rank, x);
  }

  /** A list without repeats is one in which every value occurs at most once. */
  lemma {:induction false} NoDupCounts(s: seq<Task>)
    ensures NoDup(s) <==> forall x :: multiset(s)[x] <= 1
  {
    if s != [] {
      NoDupCounts(s[1..]);
      assert s == [s[0]] + s[1..];
      assert multiset(s) == multiset{s[0]} + multiset(s[1..]);
      if NoDup(s) {
        assert s[0] !in s[1..] by {
          forall j | 0 <= j < |s[1..]| ensures s[1..][j] != s[0] {
            assert s[1..][j] == s[j + 1];
          }
        }
        assert NoDup(s[1..]) by {
          forall i, j | 0 <= i < j < |s[1..]| ensures s[1..][i] != s[1..][j] {
            assert s[1..][i] == s[i + 1] && s[1..][j] == s[j + 1];
          }
        }
      }
      if forall x :: multiset(s)[x] <= 1 {
        assert multiset(s)[s[0]] <= 1;
        assert s[0] !in multiset(s[1..]);
        forall x ensures multiset(s[1..])[x] <= 1 {
          assert multiset(s)[x] <= 1;
        }
        forall i, j | 0 <= i < j < |s| ensures s[i] != s[j] {
          if i == 0 {
            assert s[j] == s[1..][j - 1];
            assert s[j] in s[1..];
          } else {
            assert s[i] == s[1..][i - 1] && s[j] == s[1..][j - 1];
          }
        }
      }
    }
  }

  /** Rearranging a list without repeats gives a list without repeats. */
  lemma {:induction false} NoDupPermutation(a: seq<Task>, b: seq<Task>)
    requires NoDup(a) && multiset(a) == multiset(b)
    ensures NoDup(b)
  {
    NoDupCounts(a);
    NoDupCounts(b);
  }

  /** Two lists without repeats and with the same members are rearrangements of each other. */
  lemma {:induction false} NoDupSameMembers(a: seq<Task>, b: seq<Task>)
    requires NoDup(a) && NoDup(b) && forall x :: x in a <==> x in b
    ensures multiset(a) == multiset(b)
  {
    NoDupCounts(a);
    NoDupCounts(b);
    forall x ensures multiset(a)[x] == multiset(b)[x] {
      assert x in a <==> x in multiset(a);
      assert x in b <==> x in multiset(b);
    }
  }

  /** Joining two lists without repeats and without a common member gives none. */
  lemma {:induction false} NoDupAppend(a: seq<Task>, b: seq<Task>)
    requires NoDup(a) && NoDup(b) && forall x :: x in a ==> x !in b
    ensures NoDup(a + b)
  {
    var ab := a + b;
    forall i, j | 0 <= i < j < |ab| ensures ab[i] != ab[j] {
      if j < |a| {
      } else if i >= |a| {
        assert ab[i] == b[i - |a|] && ab[j] == b[j - |a|];
      } else {
        assert ab[i] in a && ab[j] == b[j - |a|];
      }
    }
  }

  /** Unique ids make the tasks of the list distinct. */
  lemma {:induction false} UniqueIdsNoDup(ts: seq<Task>)
    requires UniqueIds(Links(ts))
    ensures NoDup(ts)
  {
    forall i, j | 0 <= i < j < |ts| ensures ts[i] != ts[j] {
      assert Links(ts)[i].id != Links(ts)[j].id;
    }
  }

  /** Filtering a list without repeats gives a list without repeats. */
  lemma {:induction false} ChildrenNoDup(ts: seq<Task>, p: Option<int>)
    requires NoDup(ts)
    ensures p.Some? ==> NoDup(Children(ts, p.value))
    ensures p.None? ==> NoDup(Roots(ts))
  {
    if ts != [] {
      assert NoDup(ts[1..]) by {
        forall i, j | 0 <= i < j < |ts[1..]| ensures ts[1..][i] != ts[1..][j] {
          assert ts[1..][i] == ts[i + 1] && ts[1..][j] == ts[j + 1];
        }
      }
      ChildrenNoDup(ts[1..], p);
      assert ts[0] !in ts[1..] by {
        forall j | 0 <= j < |ts[1..]| ensures ts[1..][j] != ts[0] {
          assert ts[1..][j] == ts[j + 1];
        }
      }
      if p.Some? {
        NoDupAppend(if ts[0].parentId == p then [ts[0]] else [], Children(ts[1..], p.value));
      } else {
        NoDupAppend(if ts[0].parentId.None? then [ts[0]] else [], Roots(ts[1..]));
      }
    }
  }

  /** `x` is `c` or a task of the list below `c`. */
  ghost predicate InSubtree(ts: seq<Task>, c: Task, x: Task, rank: map<int, nat>)
    requires RankedBy(Links(ts), rank)
  {
    x == c || (x in ts && IsDescendant(Links(ts), c.id, x.id, rank))
  }

  /** Different members of `cs` have subtrees without a common task. */
  ghost predicate DisjointSubtrees(cs: seq<Task>, ts: seq<Task>, rank: map<int, nat>)
    requires RankedBy(Links(ts), rank)
  {
    forall i, j, x :: 0 <= i < |cs| && 0 <= j < |cs| && cs[i] != cs[j] && InSubtree(ts, cs[i], x, rank) ==>
      !InSubtree(ts, cs[j], x, rank)
  }

  /** Every task in the flattened subtrees of `cs` ranks below the bound of `cs`. */
  lemma {:induction false} FlattenRanksBelow(cs: seq<Task>, ts: seq<Task>, bound: nat, rank: map<int, nat>, x: Task)
    requires RankedBy(Links(ts), rank)
    requires forall c :: c in cs ==> RankOf(rank, c.id) < bound
    requires x in Flatten(cs, ts, bound, rank)
    ensures RankOf(rank, x.id) < bound
  {
    FlattenMembers(cs, ts, bound, rank, x);
    var c :| c in cs && x in BuildHierarchy(c, ts, rank);
    HierarchyRanks(c, ts, rank, x);
  }

  /** The hierarchy of `t` holds `t` once and otherwise only tasks ranked below it. */
  lemma {:induction false} HierarchyRanks(t: Task, ts: seq<Task>, rank: map<int, nat>, x: Task)
    requires RankedBy(Links(ts), rank) && x in BuildHierarchy(t, ts, rank)
    ensures x == t || RankOf(rank, x.id) < RankOf(rank, t.id)
  {
    HierarchyBelow(t, ts, rank, x);
    if x != t {
      DescendantRank(Links(ts), t.id, x.id, rank);
    }
  }

  /** On a ranked list with unique ids, the hierarchy of a task has no repeats. */
  lemma {:induction false} HierarchyNoDup(t: Task, ts: seq<Task>, rank: map<int, nat>)
    requires RankedBy(Links(ts), rank) && UniqueIds(Links(ts))
    ensures NoDup(BuildHierarchy(t, ts, rank))
    decreases RankOf(rank, t.id), 1
  {
    var cs := SortByDisplayId(Children(ts, t.id));
    ChildrenRankedBelow(ts, t.id, cs, rank);
    var f := Flatten(cs, ts, RankOf(rank, t.id), rank);
    assert BuildHierarchy(t, ts, rank) == [t] + f;
    UniqueIdsNoDup(ts);
    ChildrenNoDup(ts, Some(t.id));
    NoDupPermutation(Children(ts, t.id), cs);
    forall i, j, x | 0 <= i < |cs| && 0 <= j < |cs| && cs[i] != cs[j] && InSubtree(ts, cs[i], x, rank)
      ensures !InSubtree(ts, cs[j], x, rank)
    {
      assert cs[i] in multiset(Children(ts, t.id)) && cs[j] in multiset(Children(ts, t.id));
      ChildTasksDisjoint(ts, t.id, cs[i], cs[j], x, rank);
    }
    FlattenNoDup(cs, ts, RankOf(rank, t.id), rank);
    forall x | x in f ensures x != t {
      FlattenRanksBelow(cs, ts, RankOf(rank, t.id), rank, x);
    }
    NoDupAppend([t], f);
  }

  /** Dropping the first task keeps the list free of repeats and its subtrees disjoint. */
  lemma {:induction false} DisjointTail(cs: seq<Task>, ts: seq<Task>, rank: map<int, nat>)
    requires RankedBy(Links(ts), rank) && cs != []
    requires NoDup(cs) && DisjointSubtrees(cs, ts, rank)
    ensures NoDup(cs[1..]) && DisjointSubtrees(cs[1..], ts, rank)
    ensures cs[0] !in cs[1..]
  {
    var rest := cs[1..];
    forall i, j | 0 <= i < j < |rest| ensures rest[i] != rest[j] {
      assert rest[i] == cs[i + 1] && rest[j] == cs[j + 1];
    }
    forall i, j, x | 0 <= i < |rest| && 0 <= j < |rest| && rest[i] != rest[j] && InSubtree(ts, rest[i], x, rank)
      ensures !InSubtree(ts, rest[j], x, rank)
    {
      assert rest[i] == cs[i + 1] && rest[j] == cs[j + 1];
    }
    forall j | 0 <= j < |rest| ensures rest[j] != cs[0] {
      assert rest[j] == cs[j + 1];
    }
  }

  /** A task in the hierarchy of the first task is in none of the others' hierarchies. */
  lemma {:induction false} HeadApart(cs: seq<Task>, ts: seq<Task>, bound: nat, rank: map<int, nat>, x: Task)
    requires RankedBy(Links(ts), rank) && UniqueIds(Links(ts)) && cs != []
    requires forall c :: c in cs ==> RankOf(rank, c.id) < bound
    requires DisjointSubtrees(cs, ts, rank) && cs[0] !in cs[1..]
    requires x in BuildHierarchy(cs[0], ts, rank)
    ensures x !in Flatten(cs[1..], ts, bound, rank)
  {
    HierarchyMembers(cs[0], ts, rank, x);
    assert InSubtree(ts, cs[0], x, rank);
    FlattenMembers(cs[1..], ts, bound, rank, x);
    forall c | c in cs[1..] ensures x !in BuildHierarchy(c, ts, rank) {
      var j :| 0 <= j < |cs[1..]| && cs[1..][j] == c;
      assert cs[j + 1] == c;
      assert !InSubtree(ts, cs[j + 1], x, rank);
      HierarchyMembers(c, ts, rank, x);
    }
  }

  /** Joining the hierarchies of distinct tasks with disjoint subtrees gives no repeats. */
  lemma {:induction false} FlattenNoDup(cs: seq<Task>, ts: seq<Task>, bound: nat, rank: map<int, nat>)
    requires RankedBy(Links(ts), rank) && UniqueIds(Links(ts))
    requires forall c :: c in cs ==> RankOf(rank, c.id) < bound
    requires NoDup(cs) && DisjointSubtrees(cs, ts, rank)
    ensures NoDup(Flatten(cs, ts, bound, rank))
    decreases bound, 0, |cs|
  {
    if cs != [] {
      var h := BuildHierarchy(cs[0], ts, rank);
      var f := Flatten(cs[1..], ts, bound, rank);
      assert Flatten(cs, ts, bound, rank) == h + f;
      HierarchyNoDup(cs[0], ts, rank);
      DisjointTail(cs, ts, rank);
      FlattenNoDup(cs[1..], ts, bound, rank);
      forall x | x in h ensures x !in f {
        HeadApart(cs, ts, bound, rank, x);
      }
      NoDupAppend(h, f);
    }
  }

  /** When every parent id names a task, each task is a root or lies below one. */
  lemma {:induction false} RootAbove(ts: seq<Task>, j: int, rank: map<int, nat>) returns (r: int)
    requires RankedBy(Links(ts), rank) && Closed(Links(ts)) && 0 <= j < |ts|
    ensures 0 <= r < |ts| && ts[r].parentId.None?
    ensures r == j || IsDescendant(Links(ts), ts[r].id, ts[j].id, rank)
    decreases RankBound(ts, rank) - RankOf(rank, ts[j].id)
  {
    var ls := Links(ts);
    assert ls[j] == Link(ts[j].id, ts[j].parentId);
    if ts[j].parentId.None? {
      r := j;
    } else {
      var p := ts[j].parentId.value;
      assert HasId(ls, p);
      var k :| 0 <= k < |ls| && ls[k].id == p;
      assert ls[k] == Link(ts[k].id, ts[k].parentId);
      assert ts[k] in ts;
      r := RootAbove(ts, k, rank);
      if r == k {
        DescendantStep(ls, p, j, rank);
      } else {
        DescendantStep(ls, ts[r].id, j, rank);
      }
    }
  }

  /** The roots in display-id order have no repeats and pairwise disjoint subtrees. */
  lemma {:induction false} SortedRootsDisjoint(ts: seq<Task>, rank: map<int, nat>)
    requires RankedBy(Links(ts), rank) && UniqueIds(Links(ts))
    ensures NoDup(SortByDisplayId(Roots(ts)))
    ensures DisjointSubtrees(SortByDisplayId(Roots(ts)), ts, rank)
  {
    var rs := SortByDisplayId(Roots(ts));
    UniqueIdsNoDup(ts);
    ChildrenNoDup(ts, None);
    NoDupPermutation(Roots(ts), rs);
    forall i, j, x | 0 <= i < |rs| && 0 <= j < |rs| && rs[i] != rs[j] && InSubtree(ts, rs[i], x, rank)
      ensures !InSubtree(ts, rs[j], x, rank)
    {
      assert rs[i] in multiset(Roots(ts)) && rs[j] in multiset(Roots(ts));
      RootTasksDisjoint(ts, rs[i], rs[j], x, rank);
    }
  }

  /** Two different children of one task have disjoint subtrees. */
  lemma {:induction false} ChildTasksDisjoint(ts: seq<Task>, pid: int, a: Task, b: Task, x: Task, rank: map<int, nat>)
    requires RankedBy(Links(ts), rank) && UniqueIds(Links(ts))
    requires a in Children(ts, pid) && b in Children(ts, pid) && a != b && InSubtree(ts, a, x, rank)
    ensures !InSubtree(ts, b, x, rank)
  {
    var ls := Links(ts);
    var i1 :| 0 <= i1 < |ts| && ts[i1] == a;
    var i2 :| 0 <= i2 < |ts| && ts[i2] == b;
    assert ls[i1] == Link(a.id, a.parentId) && ls[i2] == Link(b.id, b.parentId);
    SiblingSubtreesDisjoint(ls, i1, i2, x.id, rank);
  }

  /** Two different roots of the list have no task below both. */
  lemma {:induction false} RootTasksDisjoint(ts: seq<Task>, a: Task, b: Task, x: Task, rank: map<int, nat>)
    requires RankedBy(Links(ts), rank) && UniqueIds(Links(ts))
    requires a in Roots(ts) && b in Roots(ts) && a != b && InSubtree(ts, a, x, rank)
    ensures !InSubtree(ts, b, x, rank)
  {
    var ls := Links(ts);
    var i1 :| 0 <= i1 < |ts| && ts[i1] == a;
    var i2 :| 0 <= i2 < |ts| && ts[i2] == b;
    assert ls[i1] == Link(a.id, a.parentId) && ls[i2] == Link(b.id, b.parentId);
    RootSubtreesDisjoint(ls, i1, i2, x.id, rank);
  }

  /** With unique ids and every parent present, the hierarchical listing holds exactly the
      tasks of the list. */
  lemma {:induction false} AllHierarchicalMembers(ts: seq<Task>, rank: map<int, nat>, x: Task)
    requires RankedBy(Links(ts), rank) && UniqueIds(Links(ts)) && Closed(Links(ts))
    ensures x in AllHierarchical(ts, rank) <==> x in ts
  {
    var rs := SortByDisplayId(Roots(ts));
    var b := RankBound(ts, rank);
    assert forall c :: c in rs ==> c in ts by {
      forall c | c in rs ensures c in ts {
        assert c in multiset(Roots(ts));
      }
    }
    assert AllHierarchical(ts, rank) == Flatten(rs, ts, b, rank);
    FlattenMembers(rs, ts, b, rank, x);
    if x in AllHierarchical(ts, rank) {
      var c :| c in rs && x in BuildHierarchy(c, ts, rank);
      HierarchyBelow(c, ts, rank, x);
    }
    if x in ts {
      var j :| 0 <= j < |ts| && ts[j] == x;
      var r := RootAbove(ts, j, rank);
      assert ts[r] in Roots(ts);
      assert ts[r] in multiset(rs);
      HierarchyMembers(ts[r], ts, rank, x);
    }
  }

  /** With unique ids and every parent present, the hierarchical listing is a
      rearrangement of the list: every task appears exactly once. */
  lemma {:induction false} AllHierarchicalPermutation(ts: seq<Task>, rank: map<int, nat>)
    requires RankedBy(Links(ts), rank) && UniqueIds(Links(ts)) && Closed(Links(ts))
    ensures multiset(AllHierarchical(ts, rank)) == multiset(ts)
  {
    var rs := SortByDisplayId(Roots(ts));
    var b := RankBound(ts, rank);
    assert forall c :: c in rs ==> RankOf(rank, c.id) < b by {
      forall c | c in rs ensures RankOf(rank, c.id) < b {
        assert c in multiset(Roots(ts));
      }
    }
    assert AllHierarchical(ts, rank) == Flatten(rs, ts, b, rank);
    SortedRootsDisjoint(ts, rank);
    FlattenNoDup(rs, ts, b, rank);
    UniqueIdsNoDup(ts);
    forall x ensures x in AllHierarchical(ts, rank) <==> x in ts {
      AllHierarchicalMembers(ts, rank, x);
    }
    NoDupSameMembers(AllHierarchical(ts, rank), ts);
  }
}
