# Codex lifecycle agent core in Dafny

A Dafny model of three in-memory components of the Codex lifecycle agent, plus
the records they share:

- **The task DAG** (`TaskDAG`, `src/codex_agent/dag/engine.py`) has three parts:
  - a task map and two adjacency indexes;
  - `add_task`, with its depth-first cycle check and partial rollback, and `remove_task`;
  - the queries: ready list, next task, blocked pass, Kahn topological sort, progress, completion, validation.
- **The lifecycle state machine** (`Orchestrator`, `src/codex_agent/core/orchestrator.py`):
  - a nine-state transition table;
  - a guarded `transition` that records history;
  - an unguarded `reset`, plus the read-only queries.
- **The policy engine** (`PolicyEngine`, `src/codex_agent/policy/engine.py`):
  - the security, quality and safety validators and their concatenation;
  - prohibited-path matching;
  - `is_blocking` and `get_by_severity`.

Every mutator is a pure function that returns the new state together with its result. A raised exception becomes an error value (`Option`/`Result`). Python dicts are modelled as insertion-ordered dictionaries, because dict order decides two things: the order of equal-key tasks in the ready list, and the initial queue of the topological sort.

| file | module | contents |
|---|---|---|
| `outcomes.dfy` | `Outcomes` | `Option`, `Result` |
| `seqs.dfy` | `Seqs` | occurrence counts, distinctness, sublists |
| `pydict.dfy` | `PyDict` | insertion-ordered dictionary |
| `models.dfy` | `Models` | enums, `Task`, `StateTransition`, `PolicyViolation`, `AuditEvent` |
| `cycle_check.dfy` | `CycleCheck` | `_has_cycle`, proved to equal "a cycle is reachable from a task" |
| `task_dag.dfy` | `TaskDag` | the graph, `add_task`, `remove_task`, accessors |
| `scheduling.dfy` | `Scheduling` | ready list, next task, blocked pass, progress, completion |
| `topo_sort.dfy` | `TopoSort` | Kahn's sort, `validate` |
| `dag_invariants.dfy` | `DagInvariants` | index invariants: kept by successful adds of new ids and by removals, broken by a rejected add and by a replacing add |
| `dag_scenarios.dfy` | `DagScenarios` | the rollback, dangling-dependency, remove/re-add, replace-then-remove and reject-then-remove behaviours |
| `lifecycle.dfy` | `Lifecycle` | the orchestrator |
| `policy.dfy` | `Policy` | the policy engine |

Behaviours of the code that the model keeps on purpose and states as lemmas:

- **Rollback keeps edges.** When `add_task` closes a cycle, it deletes only the task entry. The appended edges stay. So while a cycle stays reachable from a task id, every later `add_task` fails as well.
  - A failed replacement (an existing id re-added with a cycle) also deletes the original task.
  - The rollback leaves a reverse-index key that belongs to no task.
- **A dangling dependency breaks the sort.** A dependency on an id that is not in the map never reaches in-degree 0. So `topological_sort` raises the cycle error, even though the ready list treats that dependency as satisfied.
- **The "unreachable" branch of `validate` is dead.**
- **Remove then re-add loses an edge.** Removing a task and adding it again drops the edges from its dependents. The sort may then place a dependent before the dependency it still declares.
- **The sort can raise `KeyError`.** `topological_sort` can raise `KeyError`, modelled as `MissingKey`, and `validate` does not catch it.
  - Re-adding an existing id appends the new edges and keeps the old ones. A later `remove_task` unlinks only the new declarations.
  - A dependency the replacement dropped then keeps listing a task that is gone, and the sort fails on that id.
  - `add x; add a[x]; add y; add a[y]; remove a` is an instance.
  - A rejected add also leads there. The rollback leaves a reverse-index key for an id that is no task.
  - `add task1[task2]; add task2[task1]` (rejected); `remove task1` leaves `task2` as the only in-degree key, with degree 0. The sort dequeues it and the task lookup raises `KeyError('task2')`.
  - While every add succeeds with a new id, the linked invariant holds through adds and removals, and the sort cannot raise `KeyError`.

## Model

| member | source | states |
|---|---|---|
| Models.NewTask | src/codex_agent/core/models.py:94-112 | construction succeeds exactly when the complexity lies in 1..5 and otherwise reports that value; a built task carries the given fields and the defaults PENDING, no attempts, no error, no timestamps, no target files |
| Models.DefaultTask | src/codex_agent/core/models.py:98-112 | a task from defaults is PENDING with priority 100, no dependencies, no attempts, no error, and its default complexity passes validation |
| Models.DefaultViolation | src/codex_agent/core/models.py:133-142 | a violation built without `blocking` is blocking |
| CycleCheck.HasCycleCorrect | src/codex_agent/dag/engine.py:211-240 | `_has_cycle` returns true exactly when some cycle is reachable from a task id along forward edges |
| CycleCheck.DfsSound | src/codex_agent/dag/engine.py:221-233 | a true from `dfs(v)`, entered along a path from a task id, means a cycle is reachable from a task id |
| CycleCheck.DfsChildrenSound | src/codex_agent/dag/engine.py:225-231 | a true from the dependents loop means a reachable cycle (either a recursive hit or an edge back into the recursion stack) |
| CycleCheck.DfsRootsSound | src/codex_agent/dag/engine.py:235-240 | a true from the outer loop over task ids means a cycle reachable from the ids |
| CycleCheck.DfsComplete | src/codex_agent/dag/engine.py:221-233 | a false from `dfs(v)` leaves `v` finished; the finished nodes stay closed under edges and lie on no cycle |
| CycleCheck.DfsChildrenComplete | src/codex_agent/dag/engine.py:225-233 | a false from the dependents loop leaves all dependents finished and keeps the same invariant |
| CycleCheck.DfsRootsComplete | src/codex_agent/dag/engine.py:235-240 | a false from the outer loop means no cycle is reachable from any task id |
| TaskDag.EmptyDag | src/codex_agent/dag/engine.py:33-37 | a new graph has no tasks and empty indexes |
| TaskDag.StageEdges | src/codex_agent/dag/engine.py:52-59 | storing a task and appending its edges adds the task id to each dependency's forward list once per listing, appends the dependencies to the task's own reverse list, leaves other reverse lists alone, and adds the id to the task ids |
| TaskDag.AddTask | src/codex_agent/dag/engine.py:39-65 | success leaves the task stored under its id (replacing silently) in an acyclic graph; failure happens exactly when the staged edges put a cycle within reach of the ids, reports that id, and removes only the task entry; the appended edges stay in both outcomes |
| TaskDag.UnlinkCount | src/codex_agent/dag/engine.py:80-83 | each declared dependency's forward list loses at most as many copies of the id as it held or as the dependency is listed; other entries are untouched |
| TaskDag.DetachCount | src/codex_agent/dag/engine.py:85-88 | each listed dependent's reverse list loses copies of the id the same way; reverse lists of tasks not listed stay unchanged |
| TaskDag.RemoveTask | src/codex_agent/dag/engine.py:67-94 | an unknown id changes nothing; otherwise the id leaves the task map and both indexes lose its own entry, and the forward lists lose exactly the copies the unlink loop removes while every other edge count is unchanged |
| TaskDag.RemoveTaskReverse | src/codex_agent/dag/engine.py:85-94 | on removal each dependent's reverse list loses the id as often as the forward list listed that dependent (capped); the reverse keys become the old keys plus the visited dependents, minus the id |
| TaskDag.GetTask | src/codex_agent/dag/engine.py:96-98 | returns the stored task exactly when the id is in the map |
| TaskDag.TaskDependencies | src/codex_agent/dag/engine.py:242-248 | empty for an unknown id; otherwise every declared dependency present in the map appears, each entry is the stored task of some declared dependency, and there are no more entries than declarations |
| TaskDag.TaskDependents | src/codex_agent/dag/engine.py:250-253 | every forward-edge target present in the map appears, and only such targets |
| DagInvariants.GetTaskKeyed | src/codex_agent/dag/engine.py:96-98 | under the keyed invariant, the task returned for an id carries that id |
| DagInvariants.DependentsInverse | src/codex_agent/dag/engine.py:242-253 | under the full invariant, `x` is among the dependents of `a` exactly when `a` is among the dependencies of `x` |
| Scheduling.ReadyIds | src/codex_agent/dag/engine.py:118-130 | an id is selected exactly when its task is PENDING and each of its dependencies that is in the map is COMPLETED; unknown dependencies are ignored |
| Scheduling.InsertSorted | src/codex_agent/dag/engine.py:133 | inserting into a list sorted by `(priority, created_at)` keeps it sorted |
| Scheduling.SortByKey | src/codex_agent/dag/engine.py:133 | the sort returns a permutation of its input, ordered by `(priority, created_at)` |
| Scheduling.GetReadyTasks | src/codex_agent/dag/engine.py:104-134 | the ready list is sorted by `(priority, created_at)`, is a permutation of the ready candidates, and contains exactly the ready tasks of the map |
| Scheduling.GetNextTask | src/codex_agent/dag/engine.py:136-144 | None exactly when nothing is ready; otherwise a ready task of the map whose key is no greater than any ready task's |
| Scheduling.SameFailuresSameVerdict | src/codex_agent/dag/engine.py:161-166 | two maps that agree on which ids are FAILED give the same failed-dependency verdict |
| Scheduling.MarkKeepsFailures | src/codex_agent/dag/engine.py:168-170 | marking a non-FAILED task BLOCKED does not change which ids are FAILED |
| Scheduling.BlockPassSnapshot | src/codex_agent/dag/engine.py:157-170 | the in-place blocking loop gives the same statuses and list as judging every task against the map before the pass |
| Scheduling.BlockedList | src/codex_agent/dag/engine.py:157-172 | the returned tasks are all BLOCKED and are exactly the non-terminal tasks with a FAILED dependency in the map |
| Scheduling.GetBlockedTasks | src/codex_agent/dag/engine.py:146-172 | each non-terminal task with a FAILED in-map dependency becomes BLOCKED and is returned; every other task keeps its status; ids, order and indexes are unchanged |
| Scheduling.TallyCounts | src/codex_agent/dag/engine.py:272-273 | the counting loop adds to each status exactly the number of tasks with that status, and the counts grow by the number of tasks |
| Scheduling.GetProgress | src/codex_agent/dag/engine.py:255-275 | the total is the number of tasks, each status count is the number of tasks with that status, and the counts sum to the total |
| Scheduling.IsComplete | src/codex_agent/dag/engine.py:277-280 | complete exactly when every task is COMPLETED, FAILED or SKIPPED (so an empty graph is complete) |
| Scheduling.CountTerminal | src/codex_agent/dag/engine.py:277-280 | all tasks are terminal exactly when the terminal counts add up to the number of tasks |
| Scheduling.CountsBounded | src/codex_agent/dag/engine.py:262-273 | the three terminal counts never exceed the number of tasks |
| Scheduling.CompleteIffTerminalCountsFill | src/codex_agent/dag/engine.py:255-280 | `is_complete()` holds exactly when completed + failed + skipped in `get_progress()` equals its total |
| DagInvariants.EmptyIsFull | src/codex_agent/dag/engine.py:33-37 | a new graph satisfies the full index invariant |
| DagInvariants.AddTaskKeepsMirror | src/codex_agent/dag/engine.py:55-59 | appending edges keeps forward and reverse edge multiplicities equal, whether or not the add then fails |
| DagInvariants.AddFreshKeepsFull | src/codex_agent/dag/engine.py:52-59 | a successful add of a new id keeps each reverse list equal to its task's dependencies |
| DagInvariants.AddFreshKeepsLinked | src/codex_agent/dag/engine.py:52-59 | a successful add of a new id keeps the weaker linked invariant |
| DagInvariants.RollbackLeavesReverseKey | src/codex_agent/dag/engine.py:59-65 | a failed add of a new id with dependencies leaves a reverse-index key that is no task, breaking the invariant |
| DagInvariants.RemoveDetaches | src/codex_agent/dag/engine.py:80-94 | under the invariant, after removal the id appears in no forward and no reverse list |
| DagInvariants.RemoveKeepsLinked | src/codex_agent/dag/engine.py:67-94 | removal keeps the linked invariant |
| DagInvariants.ReplaceAppendsReverse | src/codex_agent/dag/engine.py:52-59 | re-adding an existing id appends the new dependencies after the old ones in its reverse list |
| DagInvariants.ReplaceBreaksLinked | src/codex_agent/dag/engine.py:49-59 | a successful replacing add that drops a declared dependency breaks both the full and the linked invariant |
| DagInvariants.StaleEntryBreaksMirror | src/codex_agent/dag/engine.py:67-94 | removing a task whose reverse list holds a dependency more often than the task declares it leaves that dependency's forward list naming the removed id, so the indexes no longer mirror each other |
| DagInvariants.ReplaceThenRemoveBreaksMirror | src/codex_agent/dag/engine.py:39-94 | a replacing add that drops dependency `x`, then removing the task, leaves `x` listing a task that is gone and the indexes no longer mirrored |
| TopoSort.WithoutReverse | src/codex_agent/dag/engine.py:188-190 | selects exactly the task ids without a reverse entry, as an order-preserving sublist of the task ids |
| TopoSort.DegreeOrder | src/codex_agent/dag/engine.py:185-190 | the in-degree map's key order has no repeats and covers the reverse keys and the task ids |
| TopoSort.InitialDegrees | src/codex_agent/dag/engine.py:185-191 | each reverse key starts at the length of its list and each other task id starts at 0 |
| TopoSort.ZeroDegree | src/codex_agent/dag/engine.py:193 | the initial queue holds exactly the ids of degree 0, as an order-preserving sublist of the key order, without repeats |
| TopoSort.Relax | src/codex_agent/dag/engine.py:201-204 | relaxing fails with a missing key exactly when some dependent has no in-degree entry; otherwise the keys are kept |
| TopoSort.RelaxDegrees | src/codex_agent/dag/engine.py:201-202 | each degree drops by the number of times its id is listed as a dependent |
| TopoSort.RelaxQueue | src/codex_agent/dag/engine.py:202-204 | the ids appended to the queue are distinct and are exactly those that went from positive to at most zero |
| TopoSort.KahnStepInv | src/codex_agent/dag/engine.py:196-204 | one dequeue-and-relax step keeps the loop invariant (dequeued and queued ids distinct, tasks dequeued, queued exactly when degree at most zero) |
| TopoSort.Kahn | src/codex_agent/dag/engine.py:196-204 | a normal exit dequeues distinct task ids extending what was already dequeued; the only failure is a missing key |
| TopoSort.DequeuedIds | src/codex_agent/dag/engine.py:184-204 | from the initial state the loop dequeues distinct task ids, at most one per task, or fails with a missing key |
| TopoSort.SortIds | src/codex_agent/dag/engine.py:206-209 | on success the order holds every task id exactly once; the cycle error is raised exactly when fewer ids than tasks were dequeued |
| TopoSort.TopologicalSort | src/codex_agent/dag/engine.py:174-209 | on success returns one entry per task, every task appears and only tasks appear; the cycle error is raised exactly when fewer than `len(tasks)` ids were dequeued |
| TopoSort.KahnOrder | src/codex_agent/dag/engine.py:196-204 | when the indexes mirror each other, each dependency in the reverse index is dequeued before its dependent |
| TopoSort.SortRespectsEdges | src/codex_agent/dag/engine.py:174-209 | when the indexes mirror each other, a successful sort puts every recorded dependency before its dependent |
| TopoSort.KahnNoKeyError | src/codex_agent/dag/engine.py:196-204 | with mirrored indexes whose keys are tasks, the loop never fails on a missing key |
| TopoSort.SortFailsOnlyByCycle | src/codex_agent/dag/engine.py:174-209 | with mirrored indexes whose reverse keys are tasks, the sort can only fail with the cycle error |
| TopoSort.OrderedMeansAcyclic | src/codex_agent/dag/engine.py:211-240 | an ordering of all tasks that puts every recorded dependency first leaves no cycle reachable from a task |
| TopoSort.CycleBreaksSort | src/codex_agent/dag/engine.py:205-206 | with mirrored indexes whose reverse keys are tasks, a cycle reachable from a task makes the sort raise the cycle error |
| TopoSort.KahnLeavesBlocked | src/codex_agent/dag/engine.py:196-204 | when the loop ends normally, every id with a degree that was never dequeued still has a recorded dependency that was never dequeued |
| TopoSort.AcyclicSorts | src/codex_agent/dag/engine.py:174-209 | under the full invariant, with every declared dependency a task, a graph with no cycle reachable from a task sorts successfully |
| TopoSort.SortFailsIffCycle | src/codex_agent/dag/engine.py:174-209 | under the same hypotheses the sort raises the cycle error exactly when a cycle is reachable from a task, and succeeds exactly when none is |
| TopoSort.DanglingEntryBreaksSort | src/codex_agent/dag/engine.py:185-207 | a reverse entry naming an id that is no task makes the sort raise the cycle error |
| TopoSort.DanglingOf | src/codex_agent/dag/engine.py:296-299 | for one task, each dependency that is not a task is reported as often as the task lists it, a present one never, and nothing else is reported |
| TopoSort.MissingDependencies | src/codex_agent/dag/engine.py:295-300 | a missing-dependency message names `(a, d)` exactly when a task with id `a` declares `d` and `d` is not in the map; no other message occurs |
| TopoSort.MissingDependenciesCount | src/codex_agent/dag/engine.py:295-299 | the pair `(a, d)` is reported exactly as many times as the tasks with id `a` declare the missing `d` |
| TopoSort.CycleIssues | src/codex_agent/dag/engine.py:291-293 | the cycle message is present exactly when a cycle is reachable from some task, and no other message is |
| TopoSort.DanglingIssues | src/codex_agent/dag/engine.py:295-299 | a missing-dependency message names task `a` and id `d` exactly when `a` declares `d` and `d` is not a task |
| TopoSort.Validate | src/codex_agent/dag/engine.py:282-309 | `validate` itself fails only when the sort fails with something other than the cycle error, and then with the sort's error; otherwise the cycle issue is reported exactly when a cycle is reachable, the missing-dependency messages name exactly the dangling declarations, and the unreachable issue never occurs |
| TopoSort.ValidateDanglingCount | src/codex_agent/dag/engine.py:295-299 | a successful `validate` reports each pair `(a, d)` exactly as many times as the tasks with id `a` declare the missing `d` |
| DagScenarios.LeafRootsAcyclic | src/codex_agent/dag/engine.py:221-233 | when no root has dependents, no cycle is reachable |
| DagScenarios.CyclePersists | src/codex_agent/dag/engine.py:55-65 | once a cycle is reachable from the task ids, every later `add_task` fails |
| DagScenarios.CycleTestFirstAdd | tests/unit/test_dag.py:54-63 | adding task1 (depending on task2) to an empty graph succeeds and records the edge task2 -> task1 |
| DagScenarios.CycleTestSecondAdd | tests/unit/test_dag.py:64-73 | adding task2 (depending on task1) then fails, task2 is not stored, and both edges remain |
| DagScenarios.CycleTestKeepsCycle | tests/unit/test_dag.py:54-73 | the cycle test's second add raises, task1 stays, task2 is absent, both edges remain, and every further add fails |
| DagScenarios.DanglingDependencyBreaksSort | src/codex_agent/dag/engine.py:55-59 | adding a task with a dependency outside the map makes the sort raise the cycle error, while `validate` reports the missing dependency and no cycle; readiness is the same as for the task without that dependency |
| DagScenarios.SingleReady | src/codex_agent/dag/engine.py:104-134 | a graph with one ready task returns it as the whole ready list |
| DagScenarios.LoneDanglingAdd | src/codex_agent/dag/engine.py:39-65 | a lone task with an unknown dependency is added without error |
| DagScenarios.LoneDanglingTask | src/codex_agent/dag/engine.py:104-209 | a lone pending task with an unknown dependency is the whole ready list, yet the sort raises the cycle error |
| DagScenarios.RemoveThenReAddLosesEdge | src/codex_agent/dag/engine.py:67-94 | removing a dependency and re-adding it without dependencies leaves the dependent's declared edge out of both indexes: the graph stays linked but no longer matches the declarations |
| DagScenarios.ReAddInitialQueue | src/codex_agent/dag/engine.py:185-193 | for the re-added graph both ids start at degree 0 and the queue is b, a |
| DagScenarios.ReAddKahn | src/codex_agent/dag/engine.py:196-204 | with no edges left, the loop dequeues b then a |
| DagScenarios.ReAddSort | src/codex_agent/dag/engine.py:174-209 | the re-added graph sorts as b, a |
| DagScenarios.SmallFirstAdd | src/codex_agent/dag/engine.py:39-65 | adding a (no dependencies) to an empty graph succeeds with no edges |
| DagScenarios.SmallSecondAdd | src/codex_agent/dag/engine.py:39-65 | adding b (depending on a) succeeds with the edge a -> b |
| DagScenarios.SmallRemove | src/codex_agent/dag/engine.py:67-94 | removing a leaves only b, with an empty reverse list and no forward edges |
| DagScenarios.SmallReAdd | src/codex_agent/dag/engine.py:39-65 | re-adding a succeeds and appends it after b |
| DagScenarios.LeafAddSucceeds | src/codex_agent/dag/engine.py:39-65 | in a graph with no cycle reachable from a task, adding a task that nothing depends on and that does not depend on itself succeeds |
| DagScenarios.ReplaceThenRemoveRaises | src/codex_agent/dag/engine.py:39-209 | `add x; add a[x]; add y; add a[y]; remove a`: every add succeeds, then `topological_sort` and `validate` both raise `KeyError('a')` |
| DagScenarios.StaleReplace | src/codex_agent/dag/engine.py:52-59 | after the replacing add `a` declares only `y`, yet both `x` and `y` list `a` as a dependent |
| DagScenarios.StaleRemove | src/codex_agent/dag/engine.py:67-94 | removing `a` leaves `x` and `y` with empty reverse lists, `y` without dependents, and `x` still listing `a` |
| DagScenarios.StaleSort | src/codex_agent/dag/engine.py:174-209 | on that graph the loop dequeues `x` in either queue order and fails on `a`, which has no in-degree entry |
| DagScenarios.RejectThenRemoveRaises | src/codex_agent/dag/engine.py:39-209 | `add task1[task2]; add task2[task1]; remove task1`: the first add succeeds, the second is rejected, then `topological_sort` and `validate` both raise `KeyError('task2')` |
| DagScenarios.RejectedSecond | src/codex_agent/dag/engine.py:52-65 | after the rejected add only `task1` is a task, yet both ids are reverse keys and `task2`'s reverse list holds `task1` |
| DagScenarios.RejectedRemove | src/codex_agent/dag/engine.py:67-94 | removing `task1` leaves no task and a single, empty reverse list for `task2` |
| DagScenarios.OrphanSort | src/codex_agent/dag/engine.py:184-198 | with no task and one empty reverse list, the queue is that id and its task lookup raises |
| DagScenarios.SmallReAddSortsDependentFirst | src/codex_agent/dag/engine.py:174-209 | after add a, add b (depends on a), remove a, add a, the sort returns b before a although b declares a |
| Lifecycle.Init | src/codex_agent/core/orchestrator.py:58-62 | a new machine is IDLE with no previous state, empty history and no current task |
| Lifecycle.CanTransition | src/codex_agent/core/orchestrator.py:64-75 | an allowed move always changes the state; PLANNING can be entered only from IDLE; from FAILED the only allowed move is back to IDLE |
| Lifecycle.AllowedTransitions | src/codex_agent/core/orchestrator.py:128-130 | lists exactly the allowed targets, without repeats |
| Lifecycle.FromIdleOnlyPlanning | src/codex_agent/core/orchestrator.py:30-49 | from a new machine the only allowed target is PLANNING |
| Lifecycle.TableShape | src/codex_agent/core/orchestrator.py:30-49 | no state lists itself and no target is listed twice |
| Lifecycle.Transition | src/codex_agent/core/orchestrator.py:77-113 | fails exactly when the move is not allowed, then leaves the machine unchanged and reports the allowed list; otherwise returns the record (old, new, trigger, time), appends exactly it to history, sets previous to the old state and keeps the current task |
| Lifecycle.Reset | src/codex_agent/core/orchestrator.py:115-122 | from any state the machine becomes IDLE with no current task; previous state and history are untouched |
| Lifecycle.IsTerminal | src/codex_agent/core/orchestrator.py:132-134 | terminal exactly in the states that the table lets leave by a single move (IDLE and FAILED) |
| Lifecycle.CreateAuditEvent | src/codex_agent/core/orchestrator.py:136-153 | the event carries its type, the actor "orchestrator", the current state, and the current task's id when there is one |
| Lifecycle.TransitionRecords | src/codex_agent/core/orchestrator.py:77-113 | a successful transition extends `get_transition_history()` by exactly the returned record, and the next audit event reports the new state; a refused one changes neither |
| Lifecycle.ResetIsTerminal | src/codex_agent/core/orchestrator.py:115-121 | after `reset` the state is terminal, the transition history is unchanged, and audit events carry no task id |
| Lifecycle.RunExtendsHistory | src/codex_agent/core/orchestrator.py:155-157 | after any sequence of transitions and resets, the earlier transition history is a prefix of the new one |
| Lifecycle.InitConsistent | src/codex_agent/core/orchestrator.py:58-62 | a new machine satisfies the history invariant |
| Lifecycle.RunKeepsConsistent | src/codex_agent/core/orchestrator.py:91-122 | after any sequence of transitions and resets, every history record is an edge of the table and the previous state is the source of the last record (none when history is empty) |
| Lifecycle.MovesKeepChained | src/codex_agent/core/orchestrator.py:97-106 | transitions alone keep the history a walk from IDLE ending at the current state |
| Lifecycle.ResetBreaksChain | src/codex_agent/core/orchestrator.py:115-122 | IDLE -> PLANNING, reset, IDLE -> PLANNING leaves a consistent history that is no longer a walk |
| Lifecycle.WayHome | src/codex_agent/core/orchestrator.py:30-49 | every state has a walk of table edges back to IDLE |
| Lifecycle.WayFromIdle | src/codex_agent/core/orchestrator.py:30-49 | every state can be reached from IDLE by a walk of table edges |
| Lifecycle.MovesAlong | src/codex_agent/core/orchestrator.py:77-113 | a walk gives one transition request per step, in order |
| Lifecycle.WalkRuns | src/codex_agent/core/orchestrator.py:77-113 | following a walk from the current state succeeds at each step, ends at the walk's last state and records one transition per step |
| Lifecycle.EveryStateReturnsToIdle | src/codex_agent/core/orchestrator.py:30-49 | from any machine, transitions alone can bring it back to IDLE |
| Lifecycle.EveryStateReachable | src/codex_agent/core/orchestrator.py:30-49 | from a new machine, transitions alone reach every state |
| Policy.MatchViolations | src/codex_agent/policy/engine.py:179-194 | one critical, blocking `secret_scanning` violation per match, in match order |
| Policy.ScanFile | src/codex_agent/policy/engine.py:178-194 | for one file, each violation reports a real match of a configured pattern, and every match of every pattern is reported |
| Policy.ScanFiles | src/codex_agent/policy/engine.py:164-196 | across the files in order, each violation reports a real match in a scanned file, and every match in every file is reported |
| Policy.ValidateSecurity | src/codex_agent/policy/engine.py:53-69 | nothing when scanning is off; otherwise exactly the secret findings: each reports a real match and every match is reported |
| Policy.ValidateQuality | src/codex_agent/policy/engine.py:71-102 | at most one violation, present exactly when coverage checks are on and coverage is below the minimum; it blocks as configured and is ERROR when blocking, WARNING otherwise |
| Policy.Contains | src/codex_agent/policy/engine.py:215 | substring containment: true exactly when the pattern occurs at some position of the path |
| Policy.ContainsShift | src/codex_agent/policy/engine.py:215 | dropping a first character that starts no occurrence keeps containment unchanged |
| Policy.FirstCatch | src/codex_agent/policy/engine.py:210-218 | the pattern loop stops at the first pattern that catches the path (glob for a pattern with `*`, substring otherwise), and finds none only when no pattern catches it |
| Policy.IsProhibitedPath | src/codex_agent/policy/engine.py:198-218 | a path is prohibited exactly when some pattern catches its normalised form |
| Policy.ProhibitedFiles | src/codex_agent/policy/engine.py:148-160 | the prohibited modified files, as an order-preserving sublist that holds only prohibited files and as many as there are |
| Policy.ProhibitedFilesInAppend | src/codex_agent/policy/engine.py:114-162 | the prohibited-path files named in a concatenation are those of each part, in order |
| Policy.ProhibitedFilesOfViolations | src/codex_agent/policy/engine.py:149-160 | the violations built for a list of files name exactly those files, in order |
| Policy.LimitViolations | src/codex_agent/policy/engine.py:116-146 | a file-count violation exactly when there are more files than the maximum, a diff-size violation exactly when there are more lines than the maximum (equality passes); both are blocking ERRORs |
| Policy.ValidateSafety | src/codex_agent/policy/engine.py:104-162 | every violation is a blocking safety violation, CRITICAL for a prohibited path and ERROR otherwise; the size limits fire exactly above their maxima; the prohibited-path violations name exactly the prohibited modified files in file order |
| Policy.ValidateAll | src/codex_agent/policy/engine.py:35-51 | the result has the three validators' lengths combined and contains exactly their violations |
| Policy.IsBlocking | src/codex_agent/policy/engine.py:220-230 | true exactly when some violation is blocking, so false on an empty list |
| Policy.GetBySeverity | src/codex_agent/policy/engine.py:232-253 | an order-preserving sublist of exactly the violations ranked at or above the minimum, with their full count |
| Policy.InfoKeepsAll | src/codex_agent/policy/engine.py:245-253 | filtering at INFO returns the list unchanged |
| Policy.SeverityMonotone | src/codex_agent/policy/engine.py:245-253 | a higher minimum yields a sublist of what a lower minimum yields |
| Policy.BlockingMeansSevere | src/codex_agent/policy/engine.py:35-162 | every reported violation blocks exactly when its severity is at least ERROR, whatever the configuration |
| Policy.SecurityIsCritical | src/codex_agent/policy/engine.py:176-192 | every secret finding is CRITICAL and blocking |
| Policy.QualityBlocksWhenError | src/codex_agent/policy/engine.py:88-98 | the coverage violation blocks exactly when it is at least an ERROR |
| Policy.SafetyBlocksWhenError | src/codex_agent/policy/engine.py:118-160 | every safety violation blocks and is at least an ERROR |
| Policy.BlockingIffErrorsKept | src/codex_agent/policy/engine.py:220-253 | on such a list, `is_blocking` holds exactly when filtering at ERROR leaves something |
| Policy.BlockingIffErrorsRemain | src/codex_agent/policy/engine.py:220-253 | a validation run blocks exactly when filtering its violations at ERROR leaves something |
| Policy.DefaultCoverageAdvises | src/codex_agent/core/config.py:77-79 | under the shipped defaults, low coverage (below 80) yields one WARNING that does not block, and coverage of 80 or more yields nothing |
| Policy.DefaultProhibitsEnvAndSecrets | src/codex_agent/core/config.py:90-93 | under the shipped defaults, any path whose normalised form contains `.env` or `secrets/` is prohibited |

## Left out

- Logging, the clock and id generation:
  - every `logger` call is omitted;
  - `datetime.utcnow` timestamps and `created_at` are natural-number inputs;
  - task ids and audit-event ids (uuid, ULID) are inputs or omitted.
- Foreign code in the policy engine is a parameter (`Policy.Foreign`):
  - regular-expression search (`re.finditer`) over the configured secret patterns;
  - `Path.match` globbing;
  - the `str(Path(...))` normalisation.
  - Their behaviour is not modelled, so nothing is proved about which paths a `*` pattern catches.
- Display text is not modelled:
  - `format_violations`;
  - the violation `message` strings;
  - the text of the exceptions and of `validate`'s messages, which are kept as structured values.
- `get_all_tasks`, `get_state` and `__repr__` are plain reads and are not modelled separately.
- The free-form `metadata`, `context`, `event_data` and `verification` fields are not modelled.
- The pydantic and YAML configuration loading is not modelled. The policy defaults are constants, and the config's field bounds (coverage 0..100) are not enforced.
- Coverage is an integer. The source also accepts floating-point coverage.
- Python's recursion limit, which can stop the recursive cycle check on very deep graphs, is not modelled.
- Lifecycle.CreateAuditEvent: as written, the source raises `NameError` on every call. The audit event's default id factory calls `ULID` (`src/codex_agent/core/models.py:148`), which that file never imports. The model describes the event that a working id factory would build; the id itself is left out.
- Aliasing of task objects is not modelled. The source stores the caller's `Task` objects and hands the same objects out:
  - `get_blocked_tasks` changes their status in place;
  - callers change status through `get_task`.
  - A caller that edits `task.dependencies` after `add_task` puts the indexes out of step with the declarations.
  - The model treats tasks as values: status changes happen only through the modelled operations, and `Full` and `Linked` assume that no such outside edit happens.
- TopoSort.MissingDependencies: states which pairs are reported and how often (`MissingDependenciesCount`), not the order of the messages. The source emits them with the tasks in dict order and each task's declarations in list order.
- TopoSort.Validate: likewise states the membership and number of the missing-dependency messages, not their order.
- Lifecycle.Transition: the trigger is a required argument. The source defaults it to `"manual"` (`src/codex_agent/core/orchestrator.py:77`).
- The `TRANSITIONS.get(state, [])` fallback is not modelled, because every state has an entry.
- TopoSort.SortFailsIffCycle: "the sort fails exactly on a cycle" is proved only under the full index invariant with every declared dependency a task. Outside it the correspondence fails, and the scenarios show it: a dangling dependency raises the cycle error without a cycle, and a replace-then-remove raises `KeyError`.
- TopoSort.SortRespectsEdges: orders the edges recorded in the reverse index, not the declared `dependencies`. After a remove/re-add the two differ (`DagScenarios.RemoveThenReAddLosesEdge`).
- Scheduling.SortByKey: inserts each element after all equal keys, so equal keys keep dict order as Python's stable sort does. Stability itself is not stated in the contract.
- Scheduling.GetProgress: counts each task under its status. The source reads `task.status.value`. With the record's enum-values-as-strings setting, a status passed at construction is stored as a plain string and `.value` would fail. The model does not distinguish the two representations.
- TaskDag.TaskDependencies: states which tasks appear and bounds their number by the declarations. The order and the exact multiplicity are not stated.
- TaskDag.TaskDependents: states which tasks appear, not their order or multiplicity.
- Policy.ValidateAll: states lengths and membership; the security-quality-safety order is the definition itself.
- Policy.ScanFiles: states which findings appear, not their order or how many times each repeats.
