/** The numeric order on dotted display ids that src/components/TaskList.tsx sorts by
    (`compareDisplayIds`), and the sort it drives. */
module DisplayOrder {
  import opened Tasks

  /** `compareDisplayIds` as a value: the difference of the first parts that differ, or
      else the difference of the lengths. */
  function Compare(a: DisplayId, b: DisplayId): int
  {
    if |a| == 0 || |b| == 0 then |a| - |b|
    else if a[0] != b[0] then a[0] - b[0]
    else Compare(a[1..], b[1..])
  }

  /** `compareDisplayIds(a, b)` (src/components/TaskList.tsx:25-36): an index loop over the
      common length that returns at the first differing part. */
  method CompareDisplayIds(a: DisplayId, b: DisplayId) returns (c: int)
    ensures c == Compare(a, b)
  {
    var minLength := if |a| < |b| then |a| else |b|;
    var i := 0;
    while i < minLength
      invariant 0 <= i <= minLength
      invariant Compare(a[i..], b[i..]) == Compare(a, b)
    {
      if a[i] != b[i] {
        return a[i] as int - b[i] as int;
      }
      assert a[i..][1..] == a[i + 1..] && b[i..][1..] == b[i + 1..];
      i := i + 1;
    }
    return |a| - |b|;
  }

  /** Lexicographic order on the numeric parts: `a` comes first when, after a common
      prefix, its part is smaller, or when it is a proper prefix of `b`. */
  predicate LexBefore(a: DisplayId, b: DisplayId)
  {
    (exists k :: 0 <= k < |a| && k < |b| && a[..k] == b[..k] && a[k] < b[k]) ||
    (|a| < |b| && a == b[..|a|])
  }

  /** A negative comparator means `a` comes first in the lexicographic order. */
  lemma {:induction false} CompareNegativeIsLexBefore(a: DisplayId, b: DisplayId)
    requires Compare(a, b) < 0
    ensures LexBefore(a, b)
  {
    if |a| == 0 || |b| == 0 {
      assert a == b[..|a|];
    } else if a[0] != b[0] {
      assert a[..0] == b[..0];
    } else {
      CompareNegativeIsLexBefore(a[1..], b[1..]);
      if exists k :: 0 <= k < |a| - 1 && k < |b| - 1 && a[1..][..k] == b[1..][..k] && a[1..][k] < b[1..][k] {
        var k :| 0 <= k < |a| - 1 && k < |b| - 1 && a[1..][..k] == b[1..][..k] && a[1..][k] < b[1..][k];
        assert a[..k + 1] == [a[0]] + a[1..][..k];
        assert b[..k + 1] == [b[0]] + b[1..][..k];
      } else {
        assert a == [a[0]] + a[1..];
        assert b[..|a|] == [b[0]] + b[1..][..|a| - 1];
      }
    }
  }

  /** Coming first in the lexicographic order makes the comparator negative. */
  lemma {:induction false} LexBeforeIsCompareNegative(a: DisplayId, b: DisplayId)
    requires LexBefore(a, b)
    ensures Compare(a, b) < 0
  {
    if exists k :: 0 <= k < |a| && k < |b| && a[..k] == b[..k] && a[k] < b[k] {
      var k :| 0 <= k < |a| && k < |b| && a[..k] == b[..k] && a[k] < b[k];
      if k > 0 {
        assert a[0] == a[..k][0] && b[0] == b[..k][0];
        assert a[1..][..k - 1] == a[..k][1..] && b[1..][..k - 1] == b[..k][1..];
        assert a[1..][k - 1] == a[k] && b[1..][k - 1] == b[k];
        LexBeforeIsCompareNegative(a[1..], b[1..]);
      }
    } else if |a| > 0 {
      assert a[0] == b[..|a|][0];
      assert a[1..] == b[..|a|][1..] == b[1..][..|a| - 1];
      LexBeforeIsCompareNegative(a[1..], b[1..]);
    }
  }

  /** The comparator is negative exactly when `a` comes first in that order; so "1.2"
      sorts before "1.10", and "1" before "1.1". */
  lemma {:induction false} CompareNegativeIffLexBefore(a: DisplayId, b: DisplayId)
    ensures Compare(a, b) < 0 <==> LexBefore(a, b)
  {
    if Compare(a, b) < 0 {
      CompareNegativeIsLexBefore(a, b);
    }
    if LexBefore(a, b) {
      LexBeforeIsCompareNegative(a, b);
    }
  }

  /** The comparator is zero exactly on equal part sequences. */
  lemma {:induction false} CompareZeroIffEqual(a: DisplayId, b: DisplayId)
    ensures Compare(a, b) == 0 <==> a == b
  {
    if |a| > 0 && |b| > 0 && a[0] == b[0] {
      CompareZeroIffEqual(a[1..], b[1..]);
      if a[1..] == b[1..] {
        assert a == [a[0]] + a[1..] && b == [b[0]] + b[1..];
      }
    }
  }

  /** Swapping the arguments negates the comparator. */
  lemma {:induction false} CompareAntisymmetric(a: DisplayId, b: DisplayId)
    ensures Compare(b, a) == -Compare(a, b)
  {
    if |a| > 0 && |b| > 0 && a[0] == b[0] {
      CompareAntisymmetric(a[1..], b[1..]);
    }
  }

  /** "Sorts no later than" is transitive. */
  lemma {:induction false} CompareTransitive(a: DisplayId, b: DisplayId, c: DisplayId)
    requires Compare(a, b) <= 0 && Compare(b, c) <= 0
    ensures Compare(a, c) <= 0
  {
    if |a| > 0 && |b| > 0 && |c| > 0 && a[0] == b[0] && b[0] == c[0] {
      CompareTransitive(a[1..], b[1..], c[1..]);
    }
  }

  /** Every task sorts no later than every task after it. */
  predicate SortedByDisplayId(ts: seq<Task>)
  {
    forall i, j :: 0 <= i < j < |ts| ==> Compare(ts[i].displayId, ts[j].displayId) <= 0
  }

  /** Places `t` before the first task it does not sort after. */
  function Insert(t: Task, s: seq<Task>): (r: seq<Task>)
    ensures multiset(r) == multiset(s) + multiset{t}
  {
    if s == [] then [t]
    else if Compare(t.displayId, s[0].displayId) <= 0 then [t] + s
    else
      assert s == [s[0]] + s[1..];
      [s[0]] + Insert(t, s[1..])
  }

  /** A task that sorts no later than the head of a sorted list sorts no later than all of it. */
  lemma {:induction false} SortedFront(t: Task, s: seq<Task>)
    requires SortedByDisplayId(s) && s != [] && Compare(t.displayId, s[0].displayId) <= 0
    ensures SortedByDisplayId([t] + s)
  {
    var r := [t] + s;
    forall i, j | 0 <= i < j < |r| ensures Compare(r[i].displayId, r[j].displayId) <= 0 {
      if i == 0 && j > 1 {
        CompareTransitive(t.displayId, s[0].displayId, s[j - 1].displayId);
      } else if i > 0 {
        assert r[i] == s[i - 1] && r[j] == s[j - 1];
      }
    }
  }

  /** A head that sorts no later than every element of a sorted tail gives a sorted list. */
  lemma {:induction false} SortedCons(h: Task, rest: seq<Task>)
    requires SortedByDisplayId(rest)
    requires forall x :: x in rest ==> Compare(h.displayId, x.displayId) <= 0
    ensures SortedByDisplayId([h] + rest)
  {
    var r := [h] + rest;
    forall i, j | 0 <= i < j < |r| ensures Compare(r[i].displayId, r[j].displayId) <= 0 {
      if i == 0 {
        assert r[j] in rest;
      } else {
        assert r[i] == rest[i - 1] && r[j] == rest[j - 1];
      }
    }
  }

  /** Inserting into a sorted list keeps it sorted. */
  lemma {:induction false} InsertKeepsSorted(t: Task, s: seq<Task>)
    requires SortedByDisplayId(s)
    ensures SortedByDisplayId(Insert(t, s))
  {
    if s == [] {
    } else if Compare(t.displayId, s[0].displayId) <= 0 {
      SortedFront(t, s);
    } else {
      CompareAntisymmetric(t.displayId, s[0].displayId);
      var rest := Insert(t, s[1..]);
      assert SortedByDisplayId(s[1..]);
      InsertKeepsSorted(t, s[1..]);
      forall x | x in rest ensures Compare(s[0].displayId, x.displayId) <= 0 {
        assert x in multiset(rest);
        if x != t {
          assert x in multiset(s[1..]);
          var j :| 0 <= j < |s[1..]| && s[1..][j] == x;
          assert s[j + 1] == x;
        }
      }
      SortedCons(s[0], rest);
    }
  }

  /** `.sort((a, b) => compareDisplayIds(a.displayId, b.displayId))` as insertion sort:
      each task goes ahead of the tasks it ties with that come later in the input, so
      ties keep their list order. */
  function SortByDisplayId(ts: seq<Task>): (r: seq<Task>)
    ensures multiset(r) == multiset(ts)
  {
    if ts == [] then []
    else
      assert ts == [ts[0]] + ts[1..];
      Insert(ts[0], SortByDisplayId(ts[1..]))
  }

  /** The sort returns a rearrangement of its input in which the comparator never
      decreases. */
  lemma {:induction false} SortSorts(ts: seq<Task>)
    ensures multiset(SortByDisplayId(ts)) == multiset(ts)
    ensures SortedByDisplayId(SortByDisplayId(ts))
  {
    if ts != [] {
      SortSorts(ts[1..]);
      InsertKeepsSorted(ts[0], SortByDisplayId(ts[1..]));
    }
  }
}
