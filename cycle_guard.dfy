/** `hasCycle` of src/App.tsx: the walk up the parent chain with a set of visited ids
    that the create command runs before adding a child. */
module CycleGuard {
  import opened Tasks
  import opened Forest

  /** The parent id of the first task holding `x`, if there is such a task. */
  function ParentOf(ts: seq<Task>, x: int): Option<int>
  {
    var k := FindIndex(ts, x);
    if k == -1 then None else ts[k].parentId
  }

  /** The `n`-th id of the parent chain that starts at `x`, while the chain lasts. */
  ghost function Walk(ts: seq<Task>, x: int, n: nat): Option<int>
  {
    if n == 0 then Some(x)
    else
      match Walk(ts, x, n - 1)
      case None => None
      case Some(y) => ParentOf(ts, y)
  }

  /** At step `n` the chain from `x` stands on an id of `visiting`, or on an id it has
      already passed. */
  ghost predicate RevisitsAt(ts: seq<Task>, x: int, visiting: set<int>, n: nat)
  {
    Walk(ts, x, n).Some? &&
    (Walk(ts, x, n).value in visiting || exists m: nat :: m < n && Walk(ts, x, m) == Walk(ts, x, n))
  }

  /** The chain from `x` reaches an id of `visiting`, or an id it has already passed. */
  ghost predicate Revisits(ts: seq<Task>, x: int, visiting: set<int>)
  {
    exists n: nat :: RevisitsAt(ts, x, visiting, n)
  }

  function IdsOf(ts: seq<Task>): set<int>
  {
    set j | 0 <= j < |ts| :: ts[j].id
  }

  /** Stepping to the parent first shifts the chain by one. */
  lemma {:induction false} WalkShift(ts: seq<Task>, x: int, p: int, n: nat)
    requires ParentOf(ts, x) == Some(p)
    ensures Walk(ts, x, n + 1) == Walk(ts, p, n)
  {
    if n > 0 {
      WalkShift(ts, x, p, n - 1);
    }
  }

  /** Once the chain ends it stays ended. */
  lemma {:induction false} WalkEnded(ts: seq<Task>, x: int, m: nat, n: nat)
    requires m <= n && Walk(ts, x, m).None?
    ensures Walk(ts, x, n).None?
    decreases n - m
  {
    if m < n {
      WalkEnded(ts, x, m + 1, n);
    }
  }

  /** A revisit from `x` at step `n` is a revisit from its parent one step earlier. */
  lemma {:induction false} RevisitsFromChild(ts: seq<Task>, x: int, p: int, visiting: set<int>, n: nat)
    requires x !in visiting && ParentOf(ts, x) == Some(p) && RevisitsAt(ts, x, visiting, n)
    ensures Revisits(ts, p, visiting + {x})
  {
    assert n > 0;
    WalkShift(ts, x, p, n - 1);
    if Walk(ts, x, n).value !in visiting {
      var m: nat :| m < n && Walk(ts, x, m) == Walk(ts, x, n);
      if m > 0 {
        WalkShift(ts, x, p, m - 1);
        assert RevisitsAt(ts, p, visiting + {x}, n - 1);
      } else {
        assert RevisitsAt(ts, p, visiting + {x}, n - 1);
      }
    } else {
      assert RevisitsAt(ts, p, visiting + {x}, n - 1);
    }
  }

  /** A revisit from the parent at step `n`, with `x` visited, is a revisit from `x` one
      step later. */
  lemma {:induction false} RevisitsFromParent(ts: seq<Task>, x: int, p: int, visiting: set<int>, n: nat)
    requires ParentOf(ts, x) == Some(p) && RevisitsAt(ts, p, visiting + {x}, n)
    ensures Revisits(ts, x, visiting)
  {
    WalkShift(ts, x, p, n);
    if Walk(ts, p, n).value == x {
      assert Walk(ts, x, 0) == Walk(ts, x, n + 1);
    } else if Walk(ts, p, n).value !in visiting {
      var m: nat :| m < n && Walk(ts, p, m) == Walk(ts, p, n);
      WalkShift(ts, x, p, m);
      assert Walk(ts, x, m + 1) == Walk(ts, x, n + 1);
    }
    assert RevisitsAt(ts, x, visiting, n + 1);
  }

  /** From `x` outside `visiting`, the chain revisits exactly when the chain from its
      parent revisits with `x` added to the visited ids. */
  lemma {:induction false} RevisitsStep(ts: seq<Task>, x: int, p: int, visiting: set<int>)
    requires x !in visiting && ParentOf(ts, x) == Some(p)
    ensures Revisits(ts, x, visiting) <==> Revisits(ts, p, visiting + {x})
  {
    if Revisits(ts, x, visiting) {
      var n: nat :| RevisitsAt(ts, x, visiting, n);
      RevisitsFromChild(ts, x, p, visiting, n);
    }
    if Revisits(ts, p, visiting + {x}) {
      var n: nat :| RevisitsAt(ts, p, visiting + {x}, n);
      RevisitsFromParent(ts, x, p, visiting, n);
    }
  }

  /** `hasCycle(taskId, visiting)`: true exactly when the parent chain from `taskId`
      meets an id already visited. */
  method HasCycle(ts: seq<Task>, taskId: int, visiting: set<int>) returns (cyc: bool)
    ensures cyc <==> Revisits(ts, taskId, visiting)
    decreases IdsOf(ts) - visiting
  {
    if taskId in visiting {
      assert RevisitsAt(ts, taskId, visiting, 0);
      return true;
    }
    var visited := visiting + {taskId};
    var k := FindIndex(ts, taskId);
    if k != -1 && ts[k].parentId.Some? {
      assert taskId in IdsOf(ts);
      RevisitsStep(ts, taskId, ts[k].parentId.value, visiting);
      cyc := HasCycle(ts, ts[k].parentId.value, visited);
    } else {
      cyc := false;
      if Revisits(ts, taskId, visiting) {
        var n: nat :| RevisitsAt(ts, taskId, visiting, n);
        WalkEnded(ts, taskId, 1, n);
        assert false;
      }
    }
  }

  /** Along the chain, ranks strictly grow. */
  lemma {:induction false} WalkRankGrows(ts: seq<Task>, x: int, m: nat, n: nat, rank: map<int, nat>)
    requires RankedBy(Links(ts), rank) && m < n && Walk(ts, x, n).Some?
    ensures Walk(ts, x, m).Some? && Walk(ts, x, m).value in rank && Walk(ts, x, n).value in rank
    ensures rank[Walk(ts, x, m).value] < rank[Walk(ts, x, n).value]
  {
    var y := Walk(ts, x, n - 1).value;
    var k := FindIndex(ts, y);
    assert Links(ts)[k] == Link(ts[k].id, ts[k].parentId);
    if m < n - 1 {
      WalkRankGrows(ts, x, m, n - 1, rank);
    }
  }

  /** On a list without cycles the create command's guard `hasCycle(id, new Set())`
      never fires. */
  lemma {:induction false} AcyclicNeverRevisits(ts: seq<Task>, x: int)
    requires Acyclic(Links(ts))
    ensures !Revisits(ts, x, {})
  {
    var rank :| RankedBy(Links(ts), rank);
    if Revisits(ts, x, {}) {
      var n: nat :| RevisitsAt(ts, x, {}, n);
      var m: nat :| m < n && Walk(ts, x, m) == Walk(ts, x, n);
      WalkRankGrows(ts, x, m, n, rank);
      assert false;
    }
  }
}
