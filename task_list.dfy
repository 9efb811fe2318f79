/** The read-only view logic of src/components/TaskList.tsx: the status filter, the
    ancestor-visibility rule, pagination, the dependency counts shown beside a parent,
    the validation done before an edit is submitted, and the view state (filter,
    expanded set, current page) that its handlers update. */
module TaskList {
  import opened Tasks
  import opened Forest
  import opened DisplayOrder
  import opened Hierarchy
  import opened TaskStore

  /** The status filter of the view: ALL, or a single status. */
  datatype StatusFilter = All | Only(status: Status)

  predicate Matches(f: StatusFilter, t: Task)
  {
    f.All? || t.status == f.status
  }

  /** `filteredTasks` (lines 51-54): keeps the tasks the filter lets through, in order. */
  function FilterTasks(ts: seq<Task>, f: StatusFilter): (r: seq<Task>)
    ensures |r| <= |ts|
    ensures forall i :: 0 <= i < |r| ==> Matches(f, r[i])
  {
    if ts == [] then []
    else (if Matches(f, ts[0]) then [ts[0]] else []) + FilterTasks(ts[1..], f)
  }

  /** A task the filter lets through keeps all its occurrences; any other loses them all. */
  lemma {:induction false} FilterCounts(ts: seq<Task>, f: StatusFilter)
    ensures forall x :: multiset(FilterTasks(ts, f))[x] == if Matches(f, x) then multiset(ts)[x] else 0
  {
    if ts != [] {
      FilterCounts(ts[1..], f);
      assert ts == [ts[0]] + ts[1..];
    }
  }

  /** The filter works piece by piece, so it keeps the list order. */
  lemma {:induction false} FilterAppend(a: seq<Task>, b: seq<Task>, f: StatusFilter)
    ensures FilterTasks(a + b, f) == FilterTasks(a, f) + FilterTasks(b, f)
  {
    if a == [] {
      assert a + b == b;
    } else {
      var h := if Matches(f, a[0]) then [a[0]] else [];
      var ab := a + b;
      assert ab[0] == a[0] && ab[1..] == a[1..] + b;
      FilterAppend(a[1..], b, f);
      calc {
        FilterTasks(ab, f);
        h + FilterTasks(a[1..] + b, f);
        h + (FilterTasks(a[1..], f) + FilterTasks(b, f));
        (h + FilterTasks(a[1..], f)) + FilterTasks(b, f);
      }
    }
  }

  /** ALL keeps the list as it is; a status keeps exactly the tasks showing it. */
  lemma {:induction false} FilterKeeps(ts: seq<Task>, f: StatusFilter)
    ensures f.All? ==> FilterTasks(ts, f) == ts
    ensures forall x :: x in FilterTasks(ts, f) <==> x in ts && Matches(f, x)
  {
    if f.All? {
      FilterAllKeeps(ts);
    }
    FilterCounts(ts, f);
    forall x ensures x in FilterTasks(ts, f) <==> x in ts && Matches(f, x) {
      assert x in FilterTasks(ts, f) <==> x in multiset(FilterTasks(ts, f));
      assert x in ts <==> x in multiset(ts);
    }
  }

  /** The ALL filter lets every task through. */
  lemma {:induction false} FilterAllKeeps(ts: seq<Task>)
    ensures FilterTasks(ts, All) == ts
  {
    if ts != [] {
      FilterAllKeeps(ts[1..]);
      assert ts == [ts[0]] + ts[1..];
    }
  }

  /** Each task of a ranked list is ranked below its parent. */
  lemma {:induction false} ParentRankAbove(ts: seq<Task>, t: Task, k: int, rank: map<int, nat>)
    requires RankedBy(Links(ts), rank) && t in ts && t.parentId.Some?
    requires 0 <= k < |ts| && ts[k].id == t.parentId.value
    ensures RankOf(rank, t.id) < RankOf(rank, ts[k].id)
  {
    var j :| 0 <= j < |ts| && ts[j] == t;
    assert Links(ts)[j] == Link(t.id, t.parentId);
  }

  /** `isVisible(task)` (lines 56-61): a root is visible; any other task is visible when
      the first task holding its parent id exists, is expanded, and is visible itself.
      The walk climbs parent links, so it is given a ranking of the list. */
  predicate IsVisible(t: Task, ts: seq<Task>, expanded: set<int>, ghost rank: map<int, nat>)
    requires RankedBy(Links(ts), rank) && t in ts
    decreases RankBound(ts, rank) - RankOf(rank, t.id)
  {
    if t.parentId.None? then true
    else
      var k := FindIndex(ts, t.parentId.value);
      if k == -1 || ts[k].id !in expanded then false
      else
        ParentRankAbove(ts, t, k, rank);
        IsVisible(ts[k], ts, expanded, rank)
  }

  /** Every task above `t` is expanded. */
  ghost predicate AncestorsExpanded(t: Task, ts: seq<Task>, expanded: set<int>, rank: map<int, nat>)
    requires RankedBy(Links(ts), rank)
  {
    forall a :: IsDescendant(Links(ts), a, t.id, rank) ==> a in expanded
  }

  /** A visible task has every task above it expanded. */
  lemma {:induction false} VisibleAncestorsExpanded(t: Task, ts: seq<Task>, expanded: set<int>, rank: map<int, nat>)
    requires RankedBy(Links(ts), rank) && UniqueIds(Links(ts)) && t in ts
    requires IsVisible(t, ts, expanded, rank)
    ensures AncestorsExpanded(t, ts, expanded, rank)
    decreases RankBound(ts, rank) - RankOf(rank, t.id)
  {
    var ls := Links(ts);
    var j :| 0 <= j < |ts| && ts[j] == t;
    assert ls[j] == Link(t.id, t.parentId);
    if t.parentId.Some? {
      var k := FindIndex(ts, t.parentId.value);
      ParentRankAbove(ts, t, k, rank);
      VisibleAncestorsExpanded(ts[k], ts, expanded, rank);
      forall a | IsDescendant(ls, a, t.id, rank) ensures a in expanded {
        DescendantUp(ls, a, j, rank);
      }
    } else {
      forall a ensures !IsDescendant(ls, a, t.id, rank) {
        if IsDescendant(ls, a, t.id, rank) {
          DescendantUp(ls, a, j, rank);
          assert false;
        }
      }
    }
  }

  /** When every parent exists, a task whose ancestors are all expanded is visible. */
  lemma {:induction false} ExpandedAncestorsVisible(t: Task, ts: seq<Task>, expanded: set<int>, rank: map<int, nat>)
    requires RankedBy(Links(ts), rank) && Closed(Links(ts)) && t in ts
    requires AncestorsExpanded(t, ts, expanded, rank)
    ensures IsVisible(t, ts, expanded, rank)
    decreases RankBound(ts, rank) - RankOf(rank, t.id)
  {
    var ls := Links(ts);
    var j :| 0 <= j < |ts| && ts[j] == t;
    assert ls[j] == Link(t.id, t.parentId);
    if t.parentId.Some? {
      var p := t.parentId.value;
      assert HasId(ls, p);
      var m :| 0 <= m < |ls| && ls[m].id == p;
      assert ts[m].id == ls[m].id;
      var k := FindIndex(ts, p);
      DescendantStep(ls, p, j, rank);
      ParentRankAbove(ts, t, k, rank);
      forall a | IsDescendant(ls, a, p, rank) ensures a in expanded {
        DescendantStep(ls, a, j, rank);
      }
      ExpandedAncestorsVisible(ts[k], ts, expanded, rank);
    }
  }

  /** With unique ids and every parent present, a task is visible exactly when every
      task above it is expanded. */
  lemma {:induction false} VisibleIffAncestorsExpanded(t: Task, ts: seq<Task>, expanded: set<int>, rank: map<int, nat>)
    requires RankedBy(Links(ts), rank) && UniqueIds(Links(ts)) && Closed(Links(ts)) && t in ts
    ensures IsVisible(t, ts, expanded, rank) <==> AncestorsExpanded(t, ts, expanded, rank)
  {
    if IsVisible(t, ts, expanded, rank) {
      VisibleAncestorsExpanded(t, ts, expanded, rank);
    }
    if AncestorsExpanded(t, ts, expanded, rank) {
      ExpandedAncestorsVisible(t, ts, expanded, rank);
    }
  }

  /** The hierarchical listing draws only on the list. */
  lemma {:induction false} AllHierarchicalWithin(ts: seq<Task>, rank: map<int, nat>)
    requires RankedBy(Links(ts), rank)
    ensures forall x :: x in AllHierarchical(ts, rank) ==> x in ts
  {
    var rs := SortByDisplayId(Roots(ts));
    var b := RankBound(ts, rank);
    assert forall c :: c in rs ==> c in ts by {
      forall c | c in rs ensures c in ts {
        assert c in multiset(Roots(ts));
      }
    }
    assert AllHierarchical(ts, rank) == Flatten(rs, ts, b, rank);
    forall x | x in AllHierarchical(ts, rank) ensures x in ts {
      FlattenMembers(rs, ts, b, rank, x);
      var c :| c in rs && x in BuildHierarchy(c, ts, rank);
      HierarchyBelow(c, ts, rank, x);
    }
  }

  /** `.filter(isVisible)` over tasks of the list, in order. */
  function KeepVisible(s: seq<Task>, ts: seq<Task>, expanded: set<int>, ghost rank: map<int, nat>): (r: seq<Task>)
    requires RankedBy(Links(ts), rank) && forall x :: x in s ==> x in ts
    ensures |r| <= |s|
    ensures forall x :: x in r <==> x in s && IsVisible(x, ts, expanded, rank)
  {
    if s == [] then []
    else (if IsVisible(s[0], ts, expanded, rank) then [s[0]] else []) + KeepVisible(s[1..], ts, expanded, rank)
  }

  /** `visibleTasks` (line 63): the hierarchical listing, filtered by status, then by
      visibility. */
  function VisibleTasks(ts: seq<Task>, f: StatusFilter, expanded: set<int>, ghost rank: map<int, nat>): (r: seq<Task>)
    requires RankedBy(Links(ts), rank)
    ensures forall x :: x in r ==> x in ts && Matches(f, x) && IsVisible(x, ts, expanded, rank)
  {
    var h := AllHierarchical(ts, rank);
    AllHierarchicalWithin(ts, rank);
    FilterKeeps(h, f);
    KeepVisible(FilterTasks(h, f), ts, expanded, rank)
  }

  /** With unique ids and every parent present, the rows before pagination are exactly
      the tasks that pass the filter and are visible. */
  lemma {:induction false} VisibleTasksMembers(ts: seq<Task>, f: StatusFilter, expanded: set<int>, rank: map<int, nat>, x: Task)
    requires RankedBy(Links(ts), rank) && UniqueIds(Links(ts)) && Closed(Links(ts))
    ensures x in VisibleTasks(ts, f, expanded, rank) <==>
      x in ts && Matches(f, x) && AncestorsExpanded(x, ts, expanded, rank)
  {
    var h := AllHierarchical(ts, rank);
    AllHierarchicalWithin(ts, rank);
    AllHierarchicalMembers(ts, rank, x);
    FilterKeeps(h, f);
    if x in ts {
      VisibleIffAncestorsExpanded(x, ts, expanded, rank);
    }
  }

  /** `ITEMS_PER_PAGE` (line 4). */
  const ItemsPerPage: nat := 20

  /** `Math.ceil(n / ITEMS_PER_PAGE)` (line 65): the fewest pages that hold `n` rows. */
  function TotalPages(n: nat): (p: nat)
    ensures p * ItemsPerPage >= n
    ensures p > 0 ==> (p - 1) * ItemsPerPage < n
  {
    (n + ItemsPerPage - 1) / ItemsPerPage
  }

  /** `visibleTasks.slice((page - 1) * 20, page * 20)` (lines 66-69); `slice` clamps
      both bounds to the length. */
  function Page(s: seq<Task>, page: int): (r: seq<Task>)
    requires page >= 1
    ensures |r| <= ItemsPerPage
    ensures forall i :: 0 <= i < |r| ==> (page - 1) * ItemsPerPage + i < |s| && r[i] == s[(page - 1) * ItemsPerPage + i]
    ensures |r| == if |s| <= (page - 1) * ItemsPerPage then 0 else if |s| < page * ItemsPerPage then |s| - (page - 1) * ItemsPerPage else ItemsPerPage
  {
    var lo := (page - 1) * ItemsPerPage;
    var hi := page * ItemsPerPage;
    if |s| <= lo then [] else s[lo..if hi < |s| then hi else |s|]
  }

  /** Every row appears on page `i / 20 + 1`, at position `i % 20`, and that page is
      one of the `TotalPages` pages. */
  lemma {:induction false} RowOnItsPage(s: seq<Task>, i: int)
    requires 0 <= i < |s|
    ensures 1 <= i / ItemsPerPage + 1 <= TotalPages(|s|)
    ensures Page(s, i / ItemsPerPage + 1)[i % ItemsPerPage] == s[i]
  {
    var p := i / ItemsPerPage + 1;
    assert (p - 1) * ItemsPerPage + i % ItemsPerPage == i;
    assert (p - 1) * ItemsPerPage <= i;
  }

  /** A page within `1..TotalPages` holds at least one row; any later page is empty. */
  lemma {:induction false} PageNonEmptyIffInRange(s: seq<Task>, page: int)
    requires page >= 1
    ensures Page(s, page) != [] <==> page <= TotalPages(|s|)
  {
    var t := TotalPages(|s|);
    if page <= t {
      assert (page - 1) * ItemsPerPage <= (t - 1) * ItemsPerPage;
    } else {
      assert t * ItemsPerPage <= (page - 1) * ItemsPerPage;
    }
  }

  /** The number of tasks whose status is not `s`. */
  function CountOther(ts: seq<Task>, s: Status): (n: nat)
    ensures n + CountStatus(ts, s) == |ts|
  {
    if |ts| == 0 then 0
    else (if ts[0].status != s then 1 else 0) + CountOther(ts[1..], s)
  }

  /** Every task has exactly one of the three statuses. */
  lemma {:induction false} StatusCountsPartition(ts: seq<Task>)
    ensures CountStatus(ts, InProgress) + CountStatus(ts, Done) + CountStatus(ts, Complete) == |ts|
  {
    if |ts| > 0 {
      StatusCountsPartition(ts[1..]);
    }
  }

  /** The counts shown under a parent's status. */
  datatype DependencyStats = DependencyStats(total: nat, done: nat, complete: nat)

  /** `getDependencyStats(task)` (lines 92-98): the direct children, those not IN_PROGRESS,
      and those COMPLETE. */
  function GetDependencyStats(t: Task, ts: seq<Task>): (r: DependencyStats)
    ensures r.total == |Children(ts, t.id)|
    ensures r.done == CountStatus(Children(ts, t.id), Done) + CountStatus(Children(ts, t.id), Complete)
    ensures r.complete == CountStatus(Children(ts, t.id), Complete)
    ensures r.complete <= r.done <= r.total
  {
    var cs := Children(ts, t.id);
    StatusCountsPartition(cs);
    DependencyStats(|cs|, CountOther(cs, InProgress), CountStatus(cs, Complete))
  }

  /** What `saveEdit` does: an alert, or a call of `onEditTask` with the task's id, the
      trimmed name (or the old one when that is empty) and the parent reference. */
  datatype SaveOutcome = Alerted(why: Rejection) | Submitted(id: int, name: string, parent: ParentUpdate)

  /** `saveEdit(task)` (lines 125-134). The typed parent reference is taken as an already
      parsed display id; an empty one stands for a cleared field and submits `null`. A
      reference that no task shows, or that names the task itself, raises an alert. */
  function SaveEdit(task: Task, ts: seq<Task>, editName: string, editParent: DisplayId): (r: SaveOutcome)
    ensures r.Alerted? ==> editParent != [] && r.why != CycleDetected
    ensures r == Alerted(ParentNotFound) <==>
      editParent != [] && forall j :: 0 <= j < |ts| ==> ts[j].displayId != editParent
    ensures r == Alerted(SelfParent) <==>
      editParent != [] &&
      (exists k :: 0 <= k < |ts| && ts[k].displayId == editParent && ts[k].id == task.id &&
        forall j :: 0 <= j < k ==> ts[j].displayId != editParent)
    ensures r.Submitted? ==> r.id == task.id && r.name == NameOr(editName, task.name)
    ensures r.Submitted? ==> r.parent == if editParent == [] then MakeRoot else MoveUnder(editParent)
  {
    FirstShownBy(ts, editParent, task.id);
    if editParent != [] && FindByDisplayId(ts, editParent).None? then Alerted(ParentNotFound)
    else if editParent != [] && FindByDisplayId(ts, editParent).value.id == task.id then Alerted(SelfParent)
    else Submitted(task.id, NameOr(editName, task.name), if editParent == [] then MakeRoot else MoveUnder(editParent))
  }

  /** `find` by display id returns a task with id `x` exactly when the first task showing
      `d` has id `x`. */
  lemma {:induction false} FirstShownBy(ts: seq<Task>, d: DisplayId, x: int)
    ensures FindByDisplayId(ts, d).Some? && FindByDisplayId(ts, d).value.id == x <==>
      exists k :: 0 <= k < |ts| && ts[k].displayId == d && ts[k].id == x &&
        forall j :: 0 <= j < k ==> ts[j].displayId != d
  {
    var k := FindIndexByDisplayId(ts, d);
    if k >= 0 && ts[k].id == x {
      assert FindByDisplayId(ts, d) == Some(ts[k]);
    }
    if exists k' :: 0 <= k' < |ts| && ts[k'].displayId == d && ts[k'].id == x &&
        forall j :: 0 <= j < k' ==> ts[j].displayId != d {
      var k' :| 0 <= k' < |ts| && ts[k'].displayId == d && ts[k'].id == x &&
        forall j :: 0 <= j < k' ==> ts[j].displayId != d;
      assert k' == k;
    }
  }

  /** The view raises the same two alerts that the edit command would: what it submits
      is never refused for an unknown parent or for naming the task itself, and what it
      refuses the command would refuse for the same reason. */
  lemma {:induction false} SaveEditGuardsEdit(task: Task, ts: seq<Task>, editName: string, editParent: DisplayId, rank: map<int, nat>)
    requires RankedBy(Links(ts), rank)
    ensures SaveEdit(task, ts, editName, editParent).Submitted? ==>
      var r := SaveEdit(task, ts, editName, editParent);
      ResolveParent(ts, task, r.parent, rank) != Refused(ParentNotFound) &&
      ResolveParent(ts, task, r.parent, rank) != Refused(SelfParent)
    ensures SaveEdit(task, ts, editName, editParent).Alerted? ==>
      ResolveParent(ts, task, MoveUnder(editParent), rank) == Refused(SaveEdit(task, ts, editName, editParent).why)
  {
  }

  /** The state of the view: the status filter, the ids whose children are shown, and
      the current page. */
  class TaskListView {
    var filter: StatusFilter
    var expanded: set<int>
    var currentPage: int

    /** Every handler sets the page to 1 or to a page within range, so it is never
        below 1. */
    predicate Valid()
      reads this
    {
      currentPage >= 1
    }

    /** The initial state (lines 13-18): ALL, nothing expanded, page 1. */
    constructor ()
      ensures Valid()
      ensures filter == All && expanded == {} && currentPage == 1
    {
      filter := All;
      expanded := {};
      currentPage := 1;
    }

    /** `paginatedTasks`: the rows of the current page. */
    function Rows(ts: seq<Task>, ghost rank: map<int, nat>): (r: seq<Task>)
      requires Valid() && RankedBy(Links(ts), rank)
      reads this
      ensures |r| <= ItemsPerPage
      ensures forall x :: x in r ==> x in ts && Matches(filter, x) && IsVisible(x, ts, expanded, rank)
    {
      Page(VisibleTasks(ts, filter, expanded, rank), currentPage)
    }

    /** `goToPage(page)` (lines 71-73): moves only to a page within `1..totalPages`. */
    method GoToPage(page: int, ts: seq<Task>, ghost rank: map<int, nat>)
      requires Valid() && RankedBy(Links(ts), rank)
      modifies this
      ensures Valid()
      ensures filter == old(filter) && expanded == old(expanded)
      ensures currentPage ==
        if 1 <= page <= TotalPages(|VisibleTasks(ts, filter, expanded, rank)|) then page else old(currentPage)
    {
      var totalPages := TotalPages(|VisibleTasks(ts, filter, expanded, rank)|);
      if page >= 1 && page <= totalPages {
        currentPage := page;
      }
    }

    /** `toggleExpand(id)` (lines 75-84): flips whether `id` is expanded, touches no
        other id, and returns to page 1. */
    method ToggleExpand(id: int)
      modifies this
      ensures Valid()
      ensures filter == old(filter) && currentPage == 1
      ensures id in expanded <==> id !in old(expanded)
      ensures forall x :: x != id ==> (x in expanded <==> x in old(expanded))
    {
      var newExpanded := expanded;
      if id in newExpanded {
        newExpanded := newExpanded - {id};
      } else {
        newExpanded := newExpanded + {id};
      }
      expanded := newExpanded;
      currentPage := 1;
    }

    /** The filter's change handler (line 150): a new filter, and page 1. */
    method SetFilter(f: StatusFilter)
      modifies this
      ensures Valid()
      ensures filter == f && expanded == old(expanded) && currentPage == 1
    {
      filter := f;
      currentPage := 1;
    }
  }
}
