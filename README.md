# Task hierarchy engine — a Dafny model

This project models the core of *task-management-system*, a small React application. The
application keeps a flat list of tasks. Each task has:

- a numeric `id`;
- a dotted `displayId` such as `1.2.10`;
- a name;
- a status: `IN_PROGRESS`, `DONE` or `COMPLETE`;
- an optional `parentId`.

The parent links and the dotted ids give the list its tree shape. The model covers four
parts of the program, and each becomes one or more Dafny modules:

- **The command engine of `src/App.tsx`.**
  - Create: `generateDisplayId`, `handleCreate`, `hasCycle`.
  - Toggle, with its two climbing walks, `upgradeAndPropagate` and `downgradeParents`.
  - Edit: `handleEditTask`, with `isDescendant`, `generateTopLevelDisplayId`,
    `getNextChildNumber` and `updateDescendantDisplayIds`.
  - Modules: `Tasks`, `Forest`, `CycleGuard`, `DisplayIds`, `StatusPropagation`,
    `TaskStore` (the class `App` holds `tasks` and `nextId`) and `StoreProperties`.
- **The reducer of `src/context/TaskContext.tsx`** and the recursive predicate
  `isTaskComplete` of `src/utils/taskUtils.ts`. Modules: `TaskContext`, `TaskUtils`.
- **The view logic of `src/components/TaskList.tsx`.**
  - The numeric display-id order and the sort it drives (`DisplayOrder`).
  - The pre-order listing (`Hierarchy`).
  - The status filter, the visibility rule, pagination, the dependency counts, the
    save-edit validation, and the view state `filter`/`expanded`/`currentPage`
    (`TaskList`, class `TaskListView`).
- **Display ids as text** (`DisplayIdText`). Ids are written with the template at
  `src/App.tsx:26` and read back by `parseDisplayId`.

## How the model is built

- **Tasks are values.** The task list is a `seq<Task>`, and order matters: lookups return
  the first match, and renumbering follows list order.
- **The tree is read off the links.** The tree structure is the sequence of `(id,
  parentId)` links of the list (`Forest.Links`). Changes of status or display id
  provably leave it unchanged.
- **Acyclicity is a ranking.** A list is acyclic when some map from ids to naturals ranks
  every child below its parent. The recursions that walk downwards take such a ranking
  as a ghost parameter: `isDescendant`, `updateDescendantDisplayIds`, `buildHierarchy`
  and `isTaskComplete`. So does `isVisible`, which walks upwards.
- **The climbing walks need no acyclicity.** Each recursive call of `upgradeAndPropagate`
  follows a DONE→COMPLETE write, so the walk ends when the DONE tasks run out. Each
  recursive call of `downgradeParents` follows a COMPLETE→DONE write, so it ends when
  the COMPLETE tasks run out.
- **`hasCycle` is a method.** It has a visited set, and the set grows on every call.
- **Imperative code stays imperative.**
  - Code that updates state step by step is written as methods: the in-place
    renumbering over an `array`, the `propagateStatus` loop, the comparator loop, and
    the handlers of the two components.
  - Each method is proved equal to a function that specifies it.
  - The properties are proved about those functions.

### Behaviour as written

The model follows the code, including these quirks, each stated as a lemma:

- **The reparent cycle check is inverted.** `handleEditTask` refuses a move when the
  task already lies below the new parent. It accepts a move under one of the task's
  own descendants. The new links then contain a cycle, and `updateDescendantDisplayIds`
  recurses around it until the call stack overflows: the update throws a `RangeError`
  and no new list is produced.
  - Lemmas: `StoreProperties.MoveAboveRefused`, `StoreProperties.MoveBelowItselfDiverges`,
    `TaskStore.MoveIntoSubtreeCycles`.
  - The edit outcome records this case as `Diverges`: the call throws on stack overflow.
- **A moved task counts itself.** Its new ordinal is the number of its new siblings plus
  two (`StoreProperties.MovedUnderNumber`).
- **Old siblings are not renumbered** after a move (`StoreProperties.OldSiblingsKeepDisplayIds`).
- **Descendants are renumbered in list order**
  (`DisplayIds.RenumberNumbersByPosition`).
- **Display ids can repeat** (`StoreProperties.DisplayIdsCanRepeat`).
- **Create can change an earlier task.** Creating a child under a COMPLETE task makes
  that task DONE (`StoreProperties.CreateDowngradesCompleteParent`). The earlier tasks
  are therefore not always left unchanged.
- **`propagateStatus` depends on list order.** `isTaskComplete` asks every child to be
  DONE, so a child that the same pass has just made COMPLETE makes its parent fail.
  Listing the child before the parent leaves the parent DONE; the other order makes
  both COMPLETE (`TaskContext.PropagateChildFirst`, `TaskContext.PropagateParentFirst`).
  The comment above `isTaskComplete` speaks of children being COMPLETE. The code is
  followed.

## Model

| member | source | states |
|---|---|---|
| Tasks.FindIndex | src/App.tsx:149 | the first index holding the id, or -1 exactly when no task holds it |
| Tasks.FindIndexByDisplayId | src/App.tsx:170 | the first index showing the display id, or -1 exactly when no task shows it |
| Tasks.FindByDisplayId | src/App.tsx:30-32 | a task is returned exactly when some task shows the display id, and it is a task of the list showing it |
| Tasks.Children | src/App.tsx:237 | the result holds exactly the tasks of the list whose parent is the given id |
| Tasks.Roots | src/App.tsx:230 | the result holds exactly the tasks of the list without a parent |
| Tasks.TrimStart | src/App.tsx:159 | removes exactly the leading white space (the white space and line terminators of ECMAScript, `IsSpace`): a suffix that does not start with white space, and everything cut off is white space |
| Tasks.TrimEnd | src/App.tsx:159 | removes exactly the trailing white space (ECMAScript white space and line terminators): a prefix that does not end with white space, and everything cut off is white space |
| Tasks.TrimIsInfix | src/App.tsx:159 | `trim` gives an infix that neither starts nor ends with ECMAScript white space or a line terminator, and it is empty only when the whole string is such characters |
| Tasks.NameOr | src/App.tsx:159 | the name with ECMAScript white space trimmed, or the old name exactly when the trimmed name is empty |
| Forest.DescendantRank | src/App.tsx:221-226 | a task below another is ranked below it and is in the list |
| Forest.NotOwnDescendant | src/App.tsx:221-226 | on an acyclic list no task lies below itself |
| Forest.DescendantStep | src/App.tsx:221-226 | a child of `a`, or of a task below `a`, lies below `a` |
| Forest.DescendantUp | src/App.tsx:221-226 | with unique ids, the parent of a task below `a` is `a` or lies below `a` |
| Forest.DescendantCompare | src/App.tsx:221-226 | two tasks above the same task are equal or one lies below the other |
| Forest.SiblingSubtreesDisjoint | src/App.tsx:221-226 | the subtrees of two different children of one parent share no task |
| Forest.RootSubtreesDisjoint | src/App.tsx:221-226 | the subtrees of two different roots share no task |
| Forest.DescendantRankIrrelevant | src/App.tsx:221-226 | `isDescendant` gives the same answer under any two rankings of the list |
| Forest.ChildrenCountIgnoresStatus | src/App.tsx:237 | status changes keep the number of children of every task |
| CycleGuard.HasCycle | src/App.tsx:70-79 | true exactly when the parent chain from the id meets an id already visited |
| CycleGuard.RevisitsStep | src/App.tsx:71-76 | from an unvisited id, the chain revisits exactly when the chain from its parent does, with the id marked visited |
| CycleGuard.AcyclicNeverRevisits | src/App.tsx:70-79 | on an acyclic list, the call `hasCycle(id, new Set())` is false |
| DisplayIds.GenerateDisplayId | src/App.tsx:13-27 | without a parent: the root count plus one; with an unknown parent: the error value; otherwise the parent's display id extended by one more than the child count of the first task showing it (`find`) |
| DisplayIds.MaxLead | src/App.tsx:231 | the maximum of the leading parts of the root ids, or 0 |
| DisplayIds.GenerateTopLevelDisplayId | src/App.tsx:229-233 | a one-part id above every root's leading part, and one above the largest of them |
| DisplayIds.GetNextChildNumber | src/App.tsx:236-239 | the number of tasks already under the parent, plus one |
| DisplayIds.Renumber | src/App.tsx:242-250 | renumbering changes display ids only |
| DisplayIds.RenumberFrom | src/App.tsx:244-249 | the `forEach` from a given child on changes display ids only |
| DisplayIds.UpdateDescendantDisplayIds | src/App.tsx:242-250 | the in-place array renumbering leaves the array equal to `Renumber` of its old contents |
| DisplayIds.RenumberChild | src/App.tsx:244-249 | one call of the `forEach` callback keeps the links and advances `RenumberFrom` by one child: what remains to be done after it equals what remained before it |
| DisplayIds.RenumberFromSpec | src/App.tsx:244-249 | the tasks in the subtrees of the children from a position on get their expected ids; nothing else changes |
| DisplayIds.RenumberSpec | src/App.tsx:242-250 | every task strictly below the parent gets its expected display id; every other task is unchanged |
| DisplayIds.RenumberNumbersByPosition | src/App.tsx:243-247 | a task below the parent shows its parent's new id followed by one more than the number of its parent's children listed before it; others keep their ids |
| StatusPropagation.UpgradeAndPropagate | src/App.tsx:104-125 | changes statuses only, and only DONE to COMPLETE; a DONE start task whose direct children are all COMPLETE (or who has none) ends COMPLETE |
| StatusPropagation.UpgradeClimbs | src/App.tsx:112-121 | when the start task is upgraded and its parent is DONE with every other direct child COMPLETE, the parent ends COMPLETE too |
| StatusPropagation.DowngradeParents | src/App.tsx:128-144 | changes statuses only, and only COMPLETE to DONE |
| StatusPropagation.ToggleStatus | src/App.tsx:81-101 | an unknown id changes nothing; IN_PROGRESS ends DONE or COMPLETE, and COMPLETE exactly when all its direct children are COMPLETE; DONE or COMPLETE ends IN_PROGRESS; only statuses change |
| StatusPropagation.UpgradeKeepsConsistency | src/App.tsx:104-125 | the upgrade keeps the invariant that a COMPLETE task has only COMPLETE children |
| StatusPropagation.UpgradeChangesOnlyReadyTasks | src/App.tsx:112-117 | every task the upgrade changes was DONE and has only COMPLETE children (none counts) |
| StatusPropagation.UpgradeChangesOnlyAncestors | src/App.tsx:115-121 | every changed task is the start task or the parent of another changed task: the walk climbs only after a change |
| StatusPropagation.DowngradeRestoresConsistency | src/App.tsx:128-144 | downgrading from a parent repairs a list whose only fault is at that parent |
| StatusPropagation.DowngradeChangesOnlyAncestors | src/App.tsx:135-141 | every changed task is the start parent or the parent of another changed task: only the ancestor chain is touched |
| StatusPropagation.ToggleKeepsConsistency | src/App.tsx:81-101 | toggling keeps the COMPLETE-children invariant |
| StatusPropagation.NoCompleteAbove | src/App.tsx:128-144 | under the invariant, nothing above a task that is not COMPLETE is COMPLETE |
| StatusPropagation.ToggleOffClearsAncestors | src/App.tsx:94-98 | toggling a DONE or COMPLETE task off leaves no COMPLETE task above it |
| TaskStore.Rename | src/App.tsx:158-160 | no name keeps the task; a name that trims to nothing keeps the old name; otherwise the name with ECMAScript white space trimmed; nothing else changes |
| TaskStore.ResolveParent | src/App.tsx:162-188 | undefined keeps the parent; null makes a root; an unknown display id, the task itself, or a parent with the task already below it is refused; otherwise the found task becomes the parent, and "changed" holds exactly when it differs |
| TaskStore.MovedDisplayId | src/App.tsx:195-197 | a new root gets the top-level id; a moved child gets the parent's id extended by the next child number |
| TaskStore.MovedRankRanks | src/App.tsx:179-187 | moving to the root, or under a task outside the moved subtree, keeps the list acyclic |
| TaskStore.MoveIntoSubtreeCycles | src/App.tsx:179-187 | moving a task under one of its own descendants leaves no ranking: the links hold a cycle |
| TaskStore.Reattach | src/App.tsx:193-203 | setting the moved id and renumbering the subtree change display ids only |
| TaskStore.Repropagate | src/App.tsx:205-214 | the walks after a move change statuses only |
| TaskStore.RepropagateUpgradesMoved | src/App.tsx:205-214 | the walks after a move leave IN_PROGRESS tasks alone; after both downgrades, a DONE moved task with only COMPLETE direct children ends COMPLETE |
| TaskStore.AppendKeepsInv | src/App.tsx:61-64 | appending a fresh IN_PROGRESS task and downgrading from its parent keeps the store invariant |
| TaskStore.CreateNeverCycleDetected | src/App.tsx:45-49 | on a valid store, create is never refused as circular |
| TaskStore.CreateKeepsInv | src/App.tsx:34-68 | a successful create keeps unique ids, present parents, acyclicity, the status invariant and ids below the counter |
| TaskStore.ToggleKeepsInv | src/App.tsx:81-101 | toggling keeps the store invariant |
| TaskStore.MoveKeepsConsistency | src/App.tsx:205-214 | the walks after a change of parent restore the status invariant |
| TaskStore.EditKeepsInv | src/App.tsx:146-218 | an accepted edit keeps the store invariant, under the moved ranking |
| TaskStore.App.constructor | src/App.tsx:9-10 | the store starts empty, with next id 1 |
| TaskStore.App.HandleCreate | src/App.tsx:34-68 | the outcome is the create specification; on success the list is the new one and the counter grows by one; on refusal nothing changes |
| TaskStore.CreateTasks | src/App.tsx:34-64 | the list `handleCreate` computes from the current state is exactly the create specification: an unknown parent reference or a revisiting parent chain refuses, otherwise the new task is appended and the ancestors downgraded |
| TaskStore.App.HandleToggleStatus | src/App.tsx:81-101 | the list becomes the toggle specification of the old list (so an IN_PROGRESS task ends COMPLETE exactly when its direct children are all COMPLETE); the counter stays |
| TaskStore.App.HandleEditTask | src/App.tsx:146-218 | the outcome is the edit specification; the list changes only when the edit is accepted |
| TaskStore.EditTasks | src/App.tsx:146-216 | the list `handleEditTask` computes from the current state is exactly the edit specification, including the refusals and the renumbering after a change of parent |
| TaskStore.Reparent | src/App.tsx:193-214 | the in-place reparenting equals `Reattach` followed by the status walks |
| TaskStore.RenumberMoved | src/App.tsx:193-203 | the moved task's new display id and the in-place renumbering of its subtree give exactly `Reattach` of the list |
| StoreProperties.ChildIdsGain | src/App.tsx:236-239 | hanging a task under a new parent gives that parent one more child |
| StoreProperties.MoveAboveRefused | src/App.tsx:179-183 | moving a task under its current parent, or under any task above it, is refused as circular |
| StoreProperties.AcceptedMoveChangesParent | src/App.tsx:184 | a move under a task that passes the guards always changes the parent |
| StoreProperties.MoveBelowItselfDiverges | src/App.tsx:179-203 | moving a task under one of its descendants passes the guard, the links then hold a cycle, and the outcome is `Diverges` (the source's call throws on stack overflow) |
| StoreProperties.KeptParentOnlyRenames | src/App.tsx:190-216 | without a parent change, only the edited task's name may change |
| StoreProperties.ReattachMoved | src/App.tsx:193-199 | the moved task receives the display id computed for its new place |
| StoreProperties.ReattachRenumbers | src/App.tsx:193-203 | the moved task gets its new id, tasks outside its subtree keep theirs, each task below it is numbered by its parent's id and its position |
| StoreProperties.ReattachedUnderNumber | src/App.tsx:195-198 | a task moved under a task gets that task's id extended by its child count after the move plus one |
| StoreProperties.MovedUnderNumber | src/App.tsx:187-197 | a moved task's new ordinal is the number of children the new parent had before, plus two |
| StoreProperties.ReattachedRootNumber | src/App.tsx:195-196 | a task made a root gets the top-level id of the list |
| StoreProperties.MadeRootNumber | src/App.tsx:195-196 | a task made a root gets a one-part id above every root's leading part and above its own previous leading part |
| StoreProperties.EditKeepsOutsideSubtree | src/App.tsx:146-218 | an edit changes only statuses outside the edited task's subtree |
| StoreProperties.OldSiblingsKeepDisplayIds | src/App.tsx:193-203 | the old siblings of a moved task keep their display ids |
| StoreProperties.EditMovedParent | src/App.tsx:184-193 | an accepted edit that leaves the task under a different parent went through a change of parent |
| StoreProperties.MoveRenumbersSubtree | src/App.tsx:242-250 | after a change of parent, the whole new subtree is numbered by position |
| StoreProperties.CreateAppendsOneTask | src/App.tsx:34-68 | an unknown parent reference is refused; otherwise one IN_PROGRESS task with the next id, the generated id and the resolved parent is appended, and earlier tasks keep everything but a COMPLETE status turned DONE |
| StoreProperties.CreateNumbersByCount | src/App.tsx:13-27 | a new root's number is the root count after the create; a new child's last part is the parent's child count after the create |
| StoreProperties.CreateDowngradesCompleteParent | src/App.tsx:61-64 | creating under a COMPLETE parent makes that parent DONE |
| StoreProperties.RepeatExampleMove | src/App.tsx:187-197 | moving root 1 under root 2 gives it the display id 2.2 |
| StoreProperties.DisplayIdsCanRepeat | src/App.tsx:13-17 | after such a move, a new root also receives display id 2 |
| TaskUtils.ChildrenCompleteAll | src/utils/taskUtils.ts:12-13 | the `every` over the filtered children holds exactly when every child passes |
| TaskUtils.DoneLeafComplete | src/utils/taskUtils.ts:12-13 | a DONE task without children passes |
| TaskUtils.FailingChildFails | src/utils/taskUtils.ts:13 | one failing child makes the parent fail |
| TaskUtils.CompleteIffSubtreeDone | src/utils/taskUtils.ts:9-14 | on an acyclic list with unique ids, the predicate holds exactly when the task and everything below it are DONE; a non-DONE task, COMPLETE included, fails |
| TaskUtils.CompleteReadsOnlySubtree | src/utils/taskUtils.ts:12-13 | the answer depends only on the statuses inside the task's subtree |
| TaskContext.Visit | src/context/TaskContext.tsx:47-55 | one visit keeps the length and links, touches only its index, and there turns DONE into COMPLETE or nothing |
| TaskContext.Processed | src/context/TaskContext.tsx:46-56 | the loop so far keeps the length and the links |
| TaskContext.PropagateStatus | src/context/TaskContext.tsx:43-58 | the loop over a copied array returns `Propagate` of its input |
| TaskContext.VisitInPlace | src/context/TaskContext.tsx:47-55 | one turn of the loop leaves the copy equal to `Visit` of its previous contents at that index |
| TaskContext.ToggleMatching | src/context/TaskContext.tsx:22-32 | the map changes statuses only |
| TaskContext.Reducer | src/context/TaskContext.tsx:16-41 | ADD appends exactly the given task; an unknown action returns the state |
| TaskContext.ProcessedUntouched | src/context/TaskContext.tsx:46-56 | an index keeps its input value until the loop reaches it |
| TaskContext.ProcessedSettled | src/context/TaskContext.tsx:46-56 | an index keeps the value of its own visit afterwards |
| TaskContext.ProcessedIsSplice | src/context/TaskContext.tsx:46-56 | the list the loop sees at index j is the final values before j and the input from j on |
| TaskContext.PropagateDecidesInOrder | src/context/TaskContext.tsx:46-56 | a task ends COMPLETE exactly when it is DONE, has a child and passes `isTaskComplete` in the list the loop sees at it; otherwise it is kept |
| TaskContext.PropagateOnlyCompletes | src/context/TaskContext.tsx:46-56 | only statuses change, only DONE to COMPLETE, only for tasks with a child; childless or non-DONE tasks are unchanged |
| TaskContext.ReducerToggle | src/context/TaskContext.tsx:21-35 | a matching IN_PROGRESS task ends DONE or COMPLETE, a matching other task ends IN_PROGRESS, any other task is kept or goes DONE to COMPLETE |
| TaskContext.PropagateChildFirst | src/context/TaskContext.tsx:46-56 | with the child listed first, the parent stays DONE |
| TaskContext.PropagateParentFirst | src/context/TaskContext.tsx:46-56 | with the parent listed first, both become COMPLETE |
| DisplayOrder.CompareDisplayIds | src/components/TaskList.tsx:25-36 | the index loop with early return computes the comparator `Compare` |
| DisplayOrder.CompareNegativeIsLexBefore | src/components/TaskList.tsx:25-36 | a negative result means the first id comes first in the numeric lexicographic order |
| DisplayOrder.LexBeforeIsCompareNegative | src/components/TaskList.tsx:25-36 | an id that comes first in that order gives a negative result |
| DisplayOrder.CompareNegativeIffLexBefore | src/components/TaskList.tsx:25-36 | negative exactly when the first id comes first; a proper prefix comes first, and parts compare as numbers |
| DisplayOrder.CompareZeroIffEqual | src/components/TaskList.tsx:25-36 | zero exactly on equal part sequences |
| DisplayOrder.CompareAntisymmetric | src/components/TaskList.tsx:25-36 | swapping the arguments negates the result |
| DisplayOrder.CompareTransitive | src/components/TaskList.tsx:25-36 | "sorts no later than" is transitive |
| DisplayOrder.Insert | src/components/TaskList.tsx:41 | inserting adds exactly the one task |
| DisplayOrder.InsertKeepsSorted | src/components/TaskList.tsx:41 | inserting into a sorted list keeps it sorted |
| DisplayOrder.SortByDisplayId | src/components/TaskList.tsx:41 | the sort returns a rearrangement of its input |
| DisplayOrder.SortSorts | src/components/TaskList.tsx:41 | the sort returns a rearrangement in which the comparator never decreases |
| Hierarchy.FlattenMembers | src/components/TaskList.tsx:42 | the `flatMap` holds exactly the members of the children's hierarchies |
| Hierarchy.HierarchyBelow | src/components/TaskList.tsx:38-44 | a task's hierarchy holds the task and tasks of the list below it |
| Hierarchy.HierarchyReaches | src/components/TaskList.tsx:38-44 | with unique ids, every task below the task is in its hierarchy |
| Hierarchy.HierarchyMembers | src/components/TaskList.tsx:38-44 | with unique ids, the hierarchy holds exactly the task and the tasks below it |
| Hierarchy.HierarchyNoDup | src/components/TaskList.tsx:38-44 | with unique ids, no task appears twice in a hierarchy |
| Hierarchy.FlattenNoDup | src/components/TaskList.tsx:42 | joining the hierarchies of distinct tasks with disjoint subtrees repeats nothing |
| Hierarchy.SortedRootsDisjoint | src/components/TaskList.tsx:46-48 | the sorted roots are distinct and have pairwise disjoint subtrees |
| Hierarchy.AllHierarchicalMembers | src/components/TaskList.tsx:46-49 | with unique ids and every parent present, the listing holds exactly the tasks of the list |
| Hierarchy.AllHierarchicalPermutation | src/components/TaskList.tsx:46-49 | with unique ids and every parent present, the listing is a rearrangement of the list: each task appears exactly once |
| TaskList.FilterTasks | src/components/TaskList.tsx:51-54 | the result is no longer than the input and every kept task passes the filter |
| TaskList.FilterCounts | src/components/TaskList.tsx:51-54 | a task that passes keeps all its occurrences, any other loses them all |
| TaskList.FilterAppend | src/components/TaskList.tsx:51-54 | filtering works piece by piece, so the list order is kept |
| TaskList.FilterKeeps | src/components/TaskList.tsx:51-54 | ALL keeps the list; otherwise exactly the tasks with the chosen status are kept |
| TaskList.VisibleAncestorsExpanded | src/components/TaskList.tsx:56-61 | a visible task has every task above it expanded |
| TaskList.ExpandedAncestorsVisible | src/components/TaskList.tsx:56-61 | when every parent exists, a task whose ancestors are all expanded is visible |
| TaskList.VisibleIffAncestorsExpanded | src/components/TaskList.tsx:56-61 | with unique ids and every parent present, visible exactly when every ancestor is expanded |
| TaskList.KeepVisible | src/components/TaskList.tsx:63 | keeps exactly the visible tasks |
| TaskList.VisibleTasks | src/components/TaskList.tsx:63 | every row is a task of the list that passes the filter and is visible |
| TaskList.VisibleTasksMembers | src/components/TaskList.tsx:46-63 | with unique ids and every parent present, the rows are exactly the tasks that pass the filter and have every ancestor expanded |
| TaskList.TotalPages | src/components/TaskList.tsx:65 | the fewest pages of 20 that hold all rows |
| TaskList.Page | src/components/TaskList.tsx:66-69 | at most 20 rows, the contiguous range from (page-1)·20, clamped to the list |
| TaskList.RowOnItsPage | src/components/TaskList.tsx:65-69 | row i is on page i/20+1 at position i%20, and that page is within the page count |
| TaskList.PageNonEmptyIffInRange | src/components/TaskList.tsx:65-69 | a page has rows exactly when it is at most the page count |
| TaskList.GetDependencyStats | src/components/TaskList.tsx:92-98 | total is the number of direct children, done counts DONE and COMPLETE ones, complete counts COMPLETE ones, and complete ≤ done ≤ total |
| TaskList.SaveEdit | src/components/TaskList.tsx:125-134 | alerts "not found" exactly when a non-empty reference matches no task, and "own parent" exactly when the first match is the task; otherwise submits the task's id, the name with ECMAScript white space trimmed or the old name, and null or the reference |
| TaskList.SaveEditGuardsEdit | src/components/TaskList.tsx:125-134 | what the view submits is never refused by the edit command as not found or self-parent, and what it refuses the command refuses for the same reason |
| TaskList.TaskListView.constructor | src/components/TaskList.tsx:13-18 | the view starts with ALL, nothing expanded, page 1 |
| TaskList.TaskListView.Rows | src/components/TaskList.tsx:66-69 | at most 20 rows, each a task of the list that passes the filter and is visible |
| TaskList.TaskListView.GoToPage | src/components/TaskList.tsx:71-73 | moves to the page only when it lies in 1..totalPages, else keeps the page; nothing else changes |
| TaskList.TaskListView.ToggleExpand | src/components/TaskList.tsx:75-84 | flips exactly the given id, leaves every other id, resets the page to 1 |
| TaskList.TaskListView.SetFilter | src/components/TaskList.tsx:150 | sets the filter and resets the page to 1 |
| DisplayIdText.NatToString | src/App.tsx:26 | a non-empty string of decimal digits |
| DisplayIdText.ParseNatString | src/components/TaskList.tsx:22 | `parseInt` reads back the decimal digits of a number as that number |
| DisplayIdText.Format | src/App.tsx:26 | a written id holds only digits and dots |
| DisplayIdText.Split | src/components/TaskList.tsx:22 | `split('.')` gives at least one piece, and no piece holds a dot |
| DisplayIdText.JoinSplit | src/components/TaskList.tsx:22 | joining the pieces with dots gives back the string |
| DisplayIdText.SplitLast | src/components/TaskList.tsx:22 | splitting `p + "." + q`, with no dot in q, splits p and adds q |
| DisplayIdText.ParseDisplayId | src/components/TaskList.tsx:21-23 | one part per piece of the split |
| DisplayIdText.SplitFormat | src/components/TaskList.tsx:21-23 | splitting a written id gives the decimal strings of its parts |
| DisplayIdText.ParseFormat | src/components/TaskList.tsx:21-23 | reading back a written non-empty id gives its parts |
| DisplayIdText.ParseChildDisplayId | src/App.tsx:26 | the child id `${parent}.${n}` reads back as the parent's parts followed by n |

## Left out

- React plumbing is not modelled: rendering, styles, hooks and functional-update batching. Component state is plain fields of the classes `TaskStore.App` and `TaskList.TaskListView`.
- An `alert` is an error result (`Rejected`, `NotCreated`, `Alerted`), and the popup itself is not modelled.
- Persistence through `localStorage` and JSON (src/context/TaskContext.tsx:61-70) is browser I/O and is left out.
- src/components/TaskForm.tsx and src/components/TaskItem.tsx are not part of this model. They collect input and render.
- Object aliasing between successive state arrays is not modelled; tasks are values. In the source, the walks write statuses and display ids into records shared with the previous array (src/App.tsx:116, 137, 247).
- `parseInt` on malformed input is not modelled: an empty piece, non-digits, NaN. `DisplayIdText.ParseDisplayId` requires digits and dots, and the model works on display ids already parsed into parts.
- `DisplayIds.Lead` reads only the leading part of a display id (`parseInt("2.3")` is 2). It does not model `parseInt` on a string that does not start with a digit.
- `TaskList.SaveEdit` takes the typed parent reference as an already parsed display id. The `trim` of that text is not modelled; an empty id stands for a field that is empty after trimming.
- `TaskStore.ResolveParent` likewise takes the parent reference as a parsed display id. `updates.parentDisplayId.trim()` is not modelled.
- `TaskStore.CreateSpec`, `TaskStore.App.HandleCreate` take the parent reference as a parsed display id too. The source does not trim it on this path: src/App.tsx:31 and :37 compare the raw text with `===`, so `" 1"` is refused by create but accepted by edit, which trims. The model cannot tell the two texts apart.
- `TaskContext.Visit` has no counterpart for the `else if COMPLETE` branch of src/context/TaskContext.tsx:52-53. That branch is under the DONE guard of line 49, so it never runs.
- The `Task` type that src/context/TaskContext.tsx imports from `../models/Task` is not part of this model. The reducer uses the same task record, and the toggle action's id is compared with task ids as a number.
- `StatusPropagation.ToggleStatus`, `TaskStore.App.HandleToggleStatus`: an id held by no task leaves the list unchanged.
- `DisplayIds.GenerateDisplayId`: the root count reads `!t.parentId` (src/App.tsx:16) as "no parent". The model counts tasks without a parent id only; a parent id of 0 does not occur, because ids start at 1 (src/App.tsx:10).
- `CycleGuard.HasCycle` follows parent ids while they are present. A parent id of 0, which `task.parentId` treats as absent, does not occur because ids start at 1.
- `TaskStore.App.HandleEditTask`: when a task is moved under one of its own descendants, the renumbering recursion (src/App.tsx:248, not a tail call) recurses until the call stack overflows, and the state updater of src/App.tsx:147 throws a `RangeError`; no new list is produced. Before the throw, src/App.tsx:247 has already written display ids into records shared with the previous list; those writes are not modelled. The model reports this case as the outcome `Diverges` and leaves the list unchanged.
- The rankings that witness acyclicity are ghost parameters. A recursion that the source runs on any list is modelled only on acyclic lists: `isDescendant`, `updateDescendantDisplayIds`, `buildHierarchy`, `isTaskComplete`, `isVisible`, and `propagateStatus`, which calls `isTaskComplete`. On a cyclic list, `isDescendant` and `isVisible` may not return in the source either: `some` stops at the first match (src/App.tsx:222-225), and `isVisible` returns false at the first collapsed ancestor (src/components/TaskList.tsx:59).
- `DisplayOrder.SortByDisplayId` is an insertion sort. The model proves that it sorts and permutes. It does not prove that its tie order matches the engine's `Array.prototype.sort`, which is stable in current engines.
- `TaskList.TaskListView.GoToPage` takes the task list as a parameter, because `tasks` is a prop of the component.
- Editing state is not modelled: `startEditing`, `cancelEdit`, `editingId`, `editName` and `editParentDisplayId`. The edited values are parameters of `TaskList.SaveEdit`.
- `hasChildren`, `getIndentStyle` and `getDisplayStatus` only choose what to render, and are left out.
