/** The task record of src/types.ts and the list primitives (find, findIndex, filter)
    that every component applies to the flat task list. */
module Tasks {

  datatype Option<T> = None | Some(value: T)

  /** The three-valued status of a task. */
  datatype Status = InProgress | Done | Complete

  /** A dotted display id such as 1.2.10, held as its sequence of numeric parts. */
  type DisplayId = seq<nat>

  /** A display id that the program can produce: one or more positive parts. */
  predicate WellFormedId(d: DisplayId)
  {
    |d| > 0 && forall i :: 0 <= i < |d| ==> d[i] > 0
  }

  datatype Task = Task(id: int, displayId: DisplayId, name: string, status: Status, parentId: Option<int>)

  /** `tasks.findIndex(t => t.id === id)`: the first index holding `id`, or -1. */
  function FindIndex(ts: seq<Task>, id: int): (k: int)
    ensures -1 <= k < |ts|
    ensures k >= 0 ==> ts[k].id == id && forall j :: 0 <= j < k ==> ts[j].id != id
    ensures k == -1 <==> forall j :: 0 <= j < |ts| ==> ts[j].id != id
  {
    if |ts| == 0 then -1
    else if ts[0].id == id then 0
    else
      var k := FindIndex(ts[1..], id);
      if k == -1 then -1 else k + 1
  }

  /** The parent `t` names, if it names one, is a task of the list. */
  predicate ParentListed(ts: seq<Task>, t: Task)
  {
    t.parentId.Some? ==> FindIndex(ts, t.parentId.value) >= 0
  }

  /** `tasks.findIndex(t => t.displayId === d)`: the first index showing `d`, or -1. */
  function FindIndexByDisplayId(ts: seq<Task>, d: DisplayId): (k: int)
    ensures -1 <= k < |ts|
    ensures k >= 0 ==> ts[k].displayId == d && forall j :: 0 <= j < k ==> ts[j].displayId != d
    ensures k == -1 <==> forall j :: 0 <= j < |ts| ==> ts[j].displayId != d
  {
    if |ts| == 0 then -1
    else if ts[0].displayId == d then 0
    else
      var k := FindIndexByDisplayId(ts[1..], d);
      if k == -1 then -1 else k + 1
  }

  /** `tasks.find(t => t.displayId === d)`. */
  function FindByDisplayId(ts: seq<Task>, d: DisplayId): (r: Option<Task>)
    ensures r.Some? <==> exists j :: 0 <= j < |ts| && ts[j].displayId == d
    ensures r.Some? ==> r.value in ts && r.value.displayId == d
  {
    var k := FindIndexByDisplayId(ts, d);
    if k == -1 then None else Some(ts[k])
  }

  /** `tasks.filter(t => t.parentId === pid)`: the direct children, in list order. */
  function Children(ts: seq<Task>, pid: int): (cs: seq<Task>)
    ensures |cs| <= |ts|
    ensures forall c :: c in cs <==> c in ts && c.parentId == Some(pid)
  {
    if |ts| == 0 then []
    else (if ts[0].parentId == Some(pid) then [ts[0]] else []) + Children(ts[1..], pid)
  }

  /** `tasks.filter(t => t.parentId === null)`: the roots, in list order. */
  function Roots(ts: seq<Task>): (rs: seq<Task>)
    ensures |rs| <= |ts|
    ensures forall c :: c in rs <==> c in ts && c.parentId.None?
  {
    if |ts| == 0 then []
    else (if ts[0].parentId.None? then [ts[0]] else []) + Roots(ts[1..])
  }

  /** The number of tasks in `ts` whose status is `s`. */
  function CountStatus(ts: seq<Task>, s: Status): nat
  {
    if |ts| == 0 then 0
    else (if ts[0].status == s then 1 else 0) + CountStatus(ts[1..], s)
  }

  lemma {:induction false} ChildrenAppend(a: seq<Task>, b: seq<Task>, pid: int)
    ensures Children(a + b, pid) == Children(a, pid) + Children(b, pid)
  {
    if |a| > 0 {
      assert (a + b)[1..] == a[1..] + b;
      ChildrenAppend(a[1..], b, pid);
    } else {
      assert a + b == b;
    }
  }

  lemma {:induction false} RootsAppend(a: seq<Task>, b: seq<Task>)
    ensures Roots(a + b) == Roots(a) + Roots(b)
  {
    if |a| > 0 {
      assert (a + b)[1..] == a[1..] + b;
      RootsAppend(a[1..], b);
    } else {
      assert a + b == b;
    }
  }

  /** Rewriting one task's status from `s` to another status removes exactly one `s`. */
  lemma {:induction false} CountStatusUpdate(ts: seq<Task>, k: nat, s: Status, s': Status)
    requires k < |ts| && ts[k].status == s && s' != s
    ensures CountStatus(ts[k := ts[k].(status := s')], s) == CountStatus(ts, s) - 1
  {
    if k > 0 {
      assert ts[k := ts[k].(status := s')][1..] == ts[1..][k - 1 := ts[k].(status := s')];
      CountStatusUpdate(ts[1..], k - 1, s, s');
    } else {
      assert ts[k := ts[k].(status := s')][1..] == ts[1..];
    }
  }

  /** Two lists agree on everything except, possibly, statuses. */
  predicate SameExceptStatus(a: seq<Task>, b: seq<Task>)
  {
    |a| == |b| && forall i :: 0 <= i < |a| ==> b[i] == a[i].(status := b[i].status)
  }

  /** Two lists agree on everything except, possibly, display ids. */
  predicate SameExceptDisplayId(a: seq<Task>, b: seq<Task>)
  {
    |a| == |b| && forall i :: 0 <= i < |a| ==> b[i] == a[i].(displayId := b[i].displayId)
  }

  /** The characters JavaScript's `String.prototype.trim` strips: the white space
      (tab, vertical tab, form feed, the byte order mark and every space separator)
      and the line terminators of ECMAScript. */
  predicate IsSpace(c: char)
  {
    ('\t' <= c <= '\r') || c == ' ' || c == '\U{A0}' || c == '\U{1680}' ||
    ('\U{2000}' <= c <= '\U{200A}') || c == '\U{2028}' || c == '\U{2029}' ||
    c == '\U{202F}' || c == '\U{205F}' || c == '\U{3000}' || c == '\U{FEFF}'
  }

  function TrimStart(s: string): (r: string)
    ensures |r| <= |s| && r == s[|s| - |r|..]
    ensures r == [] || !IsSpace(r[0])
    ensures forall i :: 0 <= i < |s| - |r| ==> IsSpace(s[i])
  {
    if |s| > 0 && IsSpace(s[0]) then TrimStart(s[1..]) else s
  }

  function TrimEnd(s: string): (r: string)
    ensures |r| <= |s| && r == s[..|r|]
    ensures r == [] || !IsSpace(r[|r| - 1])
    ensures forall i :: |r| <= i < |s| ==> IsSpace(s[i])
  {
    if |s| > 0 && IsSpace(s[|s| - 1]) then TrimEnd(s[..|s| - 1]) else s
  }

  /** `s.trim()`: the longest infix of `s` that neither starts nor ends with white space. */
  function Trim(s: string): (r: string)
  {
    TrimEnd(TrimStart(s))
  }

  lemma {:induction false} TrimIsInfix(s: string)
    ensures exists i, j :: 0 <= i <= j <= |s| && Trim(s) == s[i..j]
    ensures Trim(s) == [] || (!IsSpace(Trim(s)[0]) && !IsSpace(Trim(s)[|Trim(s)| - 1]))
    ensures Trim(s) == [] ==> forall i :: 0 <= i < |s| ==> IsSpace(s[i])
  {
    var a := TrimStart(s);
    var b := TrimEnd(a);
    var i := |s| - |a|;
    PrefixOfSuffix(s, i, a, b);
    assert Trim(s) == b;
    if b != [] {
      assert b[0] == a[0];
    } else {
      assert a == [];
    }
  }

  /** A prefix of a suffix of `s` is a slice of `s`. */
  lemma {:induction false} PrefixOfSuffix(s: string, i: int, a: string, b: string)
    requires 0 <= i <= |s| && a == s[i..] && |b| <= |a| && b == a[..|b|]
    ensures i + |b| <= |s| && s[i..i + |b|] == b
  {
  }


  /** `(trimmed || fallback)`: the trimmed name, unless it is empty. */
  function NameOr(newName: string, fallback: string): (r: string)
    ensures r == Trim(newName) || (Trim(newName) == [] && r == fallback)
    ensures r == [] ==> fallback == []
  {
    var t := Trim(newName);
    if t == [] then fallback else t
  }

  /** A fresh mutable copy of a list (`[...tasks]`). */
  method ToArray(ts: seq<Task>) returns (a: array<Task>)
    ensures fresh(a) && a[..] == ts
  {
    a := new Task[|ts|](i requires 0 <= i < |ts| => ts[i]);
  }
}
