/** The task map and its two adjacency indexes, and the mutators `add_task`
    and `remove_task` (src/codex_agent/dag/engine.py:26-94, 242-253).
    Mutators are functions returning the new graph; a raised exception is
    returned as `Some(error)`. */
module TaskDag {
  import opened Outcomes
  import opened Seqs
  import opened PyDict
  import opened Models
  import opened CycleCheck

  /** `tasks` keeps dict order; `adj` is the forward index
      (dependency -> dependents), read through a defaultdict so key presence is
      never observable; `rev` is the reverse index (task -> dependencies),
      whose key order and presence feed the topological sort. */
  datatype TaskDag = TaskDag(
    tasks: Dict<Task>,
    adj: Adjacency,
    rev: Dict<seq<string>>)

  datatype DagError =
    | TaskCycle(taskId: string)   // "Adding task ... would create a cycle"
    | GraphCycle                  // "DAG contains a cycle"
    | MissingKey(key: string)     // a `KeyError` escaping `topological_sort`

  function EmptyDag(): (d: TaskDag)
    ensures d.tasks.values == map[] && d.adj == map[] && d.rev.values == map[]
  {
    TaskDag(PyDict.Empty(), map[], PyDict.Empty())
  }

  /** `self._reverse_adjacency[k]` read through the defaultdict. */
  function RevOf(rev: Dict<seq<string>>, k: string): seq<string>
  {
    if k in rev.values then rev.values[k] else []
  }

  /** The ids in the task map. */
  ghost function Ids(dag: TaskDag): set<string>
  {
    dag.tasks.values.Keys
  }

  lemma KeysAreIds(dag: TaskDag)
    ensures Elems(dag.tasks.keys) == Ids(dag)
  {
  }

  /** No cycle is reachable from a task in the map. */
  ghost predicate Acyclic(dag: TaskDag)
  {
    !CycleReachable(dag.adj, Ids(dag))
  }

  // ---------------------------------------------------------------------------
  // add_task
  // ---------------------------------------------------------------------------

  lemma RepeatSplit(x: string, n: nat)
    ensures Repeat(x, n + 1) == [x] + Repeat(x, n)
    ensures Repeat(x, n + 1) == Repeat(x, n) + [x]
  {
    if n > 0 {
      RepeatSplit(x, n - 1);
    }
  }

  /** The edge-building loop: for each declared dependency, append the task
      to the dependency's forward list and the dependency to the task's
      reverse list (the reverse key is created on the first append). */
  function LinkDeps(adj: Adjacency, rev: Dict<seq<string>>, id: string, deps: seq<string>)
    : (r: (Adjacency, Dict<seq<string>>))
    decreases |deps|
  {
    if deps == [] then (adj, rev)
    else
      var dep := deps[0];
      LinkDeps(adj[dep := Succ(adj, dep) + [id]], Put(rev, id, RevOf(rev, id) + [dep]), id, deps[1..])
  }

  /** Each dependency's forward list gains one copy of the id per declaration. */
  lemma {:induction false} LinkDepsForward(adj: Adjacency, rev: Dict<seq<string>>, id: string,
                                           deps: seq<string>, u: string)
    ensures Succ(LinkDeps(adj, rev, id, deps).0, u) == Succ(adj, u) + Repeat(id, Count(deps, u))
    decreases |deps|
  {
    if deps != [] {
      var dep := deps[0];
      var adj1 := adj[dep := Succ(adj, dep) + [id]];
      LinkDepsForward(adj1, Put(rev, id, RevOf(rev, id) + [dep]), id, deps[1..], u);
      RepeatSplit(id, Count(deps[1..], u));
    }
  }

  /** The id's reverse list gains the declared dependencies in order. */
  lemma {:induction false} LinkDepsReverse(adj: Adjacency, rev: Dict<seq<string>>, id: string,
                                           deps: seq<string>)
    ensures RevOf(LinkDeps(adj, rev, id, deps).1, id) == RevOf(rev, id) + deps
    decreases |deps|
  {
    if deps != [] {
      var dep := deps[0];
      var rev1 := Put(rev, id, RevOf(rev, id) + [dep]);
      LinkDepsReverse(adj[dep := Succ(adj, dep) + [id]], rev1, id, deps[1..]);
      assert RevOf(rev1, id) == RevOf(rev, id) + [dep];
      assert deps == [dep] + deps[1..];
      assert (RevOf(rev, id) + [dep]) + deps[1..] == RevOf(rev, id) + deps;
    }
  }

  /** No other reverse list changes. */
  lemma {:induction false} LinkDepsOthers(adj: Adjacency, rev: Dict<seq<string>>, id: string,
                                          deps: seq<string>, k: string)
    requires k != id
    ensures RevOf(LinkDeps(adj, rev, id, deps).1, k) == RevOf(rev, k)
    decreases |deps|
  {
    if deps != [] {
      var dep := deps[0];
      LinkDepsOthers(adj[dep := Succ(adj, dep) + [id]], Put(rev, id, RevOf(rev, id) + [dep]), id, deps[1..], k);
    }
  }

  /** The reverse key of the id is created, last in key order, by the first
      dependency; a task without dependencies creates no key. */
  lemma {:induction false} LinkDepsKeys(adj: Adjacency, rev: Dict<seq<string>>, id: string,
                                        deps: seq<string>)
    ensures LinkDeps(adj, rev, id, deps).1.keys ==
      (if deps == [] || id in rev.values then rev.keys else rev.keys + [id])
    ensures LinkDeps(adj, rev, id, deps).1.values.Keys ==
      (if deps == [] then rev.values.Keys else rev.values.Keys + {id})
    decreases |deps|
  {
    if deps != [] {
      var dep := deps[0];
      LinkDepsKeys(adj[dep := Succ(adj, dep) + [id]], Put(rev, id, RevOf(rev, id) + [dep]), id, deps[1..]);
    }
  }

  /** The graph after lines 52-59, before the cycle check. */
  function Stage(dag: TaskDag, t: Task): TaskDag
  {
    var links := LinkDeps(dag.adj, dag.rev, t.id, t.dependencies);
    TaskDag(Put(dag.tasks, t.id, t), links.0, links.1)
  }

  /** What staging does to the indexes: every dependency's forward list gains
      the id once per declaration, the id's reverse list gains the
      declarations in order, and nothing else changes. */
  lemma StageEdges(dag: TaskDag, t: Task)
    ensures forall u :: Succ(Stage(dag, t).adj, u) == Succ(dag.adj, u) + Repeat(t.id, Count(t.dependencies, u))
    ensures RevOf(Stage(dag, t).rev, t.id) == RevOf(dag.rev, t.id) + t.dependencies
    ensures forall k :: k != t.id ==> RevOf(Stage(dag, t).rev, k) == RevOf(dag.rev, k)
    ensures Ids(Stage(dag, t)) == Ids(dag) + {t.id}
  {
    forall u ensures Succ(Stage(dag, t).adj, u) == Succ(dag.adj, u) + Repeat(t.id, Count(t.dependencies, u)) {
      LinkDepsForward(dag.adj, dag.rev, t.id, t.dependencies, u);
    }
    LinkDepsReverse(dag.adj, dag.rev, t.id, t.dependencies);
    forall k | k != t.id ensures RevOf(Stage(dag, t).rev, k) == RevOf(dag.rev, k) {
      LinkDepsOthers(dag.adj, dag.rev, t.id, t.dependencies, k);
    }
  }

  /** `add_task(t)`: store `t` under its id (replacing silently), append its
      edges, then run the whole-graph cycle check; on a cycle delete the id
      from the task map only and raise. The appended edges stay either way. */
  function AddTask(dag: TaskDag, t: Task): (r: (TaskDag, Option<DagError>))
    ensures r.1.None? ==> Acyclic(r.0)
    ensures r.1.None? ==> r.0.tasks == Put(dag.tasks, t.id, t)
    ensures r.1.Some? <==> CycleReachable(Stage(dag, t).adj, Ids(dag) + {t.id})
    ensures r.1.Some? ==> r.1.value == TaskCycle(t.id)
    ensures r.1.Some? ==> r.0.tasks.values == dag.tasks.values - {t.id}
    ensures r.0.adj == Stage(dag, t).adj && r.0.rev == Stage(dag, t).rev
  {
    var staged := Stage(dag, t);
    HasCycleCorrect(staged.adj, staged.tasks.keys);
    KeysAreIds(staged);
    StageEdges(dag, t);
    if HasCycle(staged.adj, staged.tasks.keys) then
      (TaskDag(Delete(staged.tasks, t.id), staged.adj, staged.rev), Some(TaskCycle(t.id)))
    else
      (staged, None)
  }

  // ---------------------------------------------------------------------------
  // remove_task
  // ---------------------------------------------------------------------------

  function Min(a: nat, b: nat): nat
  {
    if a <= b then a else b
  }

  /** Lines 81-83: for each declared dependency, drop one occurrence of the
      task from that dependency's forward list, if there is one. */
  function Unlink(adj: Adjacency, id: string, deps: seq<string>): (r: Adjacency)
    decreases |deps|
  {
    if deps == [] then adj
    else
      var dep := deps[0];
      Unlink(if id in Succ(adj, dep) then adj[dep := RemoveFirst(Succ(adj, dep), id)] else adj, id, deps[1..])
  }

  /** Each declaration of `u` removes one copy of the id from `u`'s forward
      list, until none is left; nothing else changes. */
  lemma {:induction false} UnlinkCount(adj: Adjacency, id: string, deps: seq<string>, u: string, y: string)
    ensures Count(Succ(Unlink(adj, id, deps), u), y) ==
      Count(Succ(adj, u), y) - (if y == id then Min(Count(Succ(adj, u), id), Count(deps, u)) else 0)
    ensures u !in deps ==> Succ(Unlink(adj, id, deps), u) == Succ(adj, u)
    decreases |deps|
  {
    if deps != [] {
      var dep := deps[0];
      var adj1 := if id in Succ(adj, dep) then adj[dep := RemoveFirst(Succ(adj, dep), id)] else adj;
      UnlinkCount(adj1, id, deps[1..], u, y);
      UnlinkCount(adj1, id, deps[1..], u, id);
      if u == dep {
        CountRemoveFirst(Succ(adj, dep), id, y);
        CountRemoveFirst(Succ(adj, dep), id, id);
      }
    }
  }

  /** Lines 86-88: for each recorded dependent (each occurrence), read its
      reverse list (creating an empty one if absent) and drop one occurrence
      of the task from it, if there is one. */
  function DetachDependents(rev: Dict<seq<string>>, id: string, dependents: seq<string>)
    : (r: Dict<seq<string>>)
    decreases |dependents|
  {
    if dependents == [] then rev
    else
      var y := dependents[0];
      var cur := RevOf(rev, y);
      var rev1 := if y in rev.values then rev else Put(rev, y, []);
      var rev2 := if id in cur then Put(rev1, y, RemoveFirst(cur, id)) else rev1;
      DetachDependents(rev2, id, dependents[1..])
  }

  /** Each occurrence of dependent `k` removes one copy of the id from `k`'s
      reverse list, until none is left; nothing else changes. */
  lemma {:induction false} DetachCount(rev: Dict<seq<string>>, id: string, dependents: seq<string>,
                                       k: string, x: string)
    ensures Count(RevOf(DetachDependents(rev, id, dependents), k), x) ==
      Count(RevOf(rev, k), x) - (if x == id then Min(Count(RevOf(rev, k), id), Count(dependents, k)) else 0)
    ensures k !in dependents ==> RevOf(DetachDependents(rev, id, dependents), k) == RevOf(rev, k)
    decreases |dependents|
  {
    if dependents != [] {
      var y := dependents[0];
      var cur := RevOf(rev, y);
      var rev1 := if y in rev.values then rev else Put(rev, y, []);
      var rev2 := if id in cur then Put(rev1, y, RemoveFirst(cur, id)) else rev1;
      DetachCount(rev2, id, dependents[1..], k, x);
      DetachCount(rev2, id, dependents[1..], k, id);
      if k == y {
        CountRemoveFirst(cur, id, x);
        CountRemoveFirst(cur, id, id);
      }
    }
  }

  /** The pass creates a reverse key for every dependent it visits. */
  lemma {:induction false} DetachKeys(rev: Dict<seq<string>>, id: string, dependents: seq<string>)
    ensures DetachDependents(rev, id, dependents).values.Keys == rev.values.Keys + Elems(dependents)
    decreases |dependents|
  {
    if dependents != [] {
      var y := dependents[0];
      var cur := RevOf(rev, y);
      var rev1 := if y in rev.values then rev else Put(rev, y, []);
      var rev2 := if id in cur then Put(rev1, y, RemoveFirst(cur, id)) else rev1;
      DetachKeys(rev2, id, dependents[1..]);
      assert Elems(dependents) == {y} + Elems(dependents[1..]);
    }
  }

  /** `remove_task(id)`: a no-op for an unknown id; otherwise detach the task
      from its dependencies' forward lists and its dependents' reverse lists,
      then delete its own task entry and both of its own index entries. */
  function RemoveTask(dag: TaskDag, id: string): (r: TaskDag)
    ensures id !in dag.tasks.values ==> r == dag
    ensures id in dag.tasks.values ==>
      && r.tasks.values == dag.tasks.values - {id}
      && id !in r.adj && id !in r.rev.values
    ensures id in dag.tasks.values ==> forall u :: u != id ==>
      (Count(Succ(r.adj, u), id) == Count(Succ(dag.adj, u), id)
         - Min(Count(Succ(dag.adj, u), id), Count(dag.tasks.values[id].dependencies, u)))
    ensures id in dag.tasks.values ==> forall u, x :: u != id && x != id ==>
      Count(Succ(r.adj, u), x) == Count(Succ(dag.adj, u), x)
  {
    if id !in dag.tasks.values then dag
    else
      var t := dag.tasks.values[id];
      var adj1 := Unlink(dag.adj, id, t.dependencies);
      var rev1 := DetachDependents(dag.rev, id, Succ(adj1, id));
      assert forall u, x :: u != id ==> Count(Succ(adj1 - {id}, u), x) == Count(Succ(adj1, u), x);
      assert forall u, x :: (Count(Succ(adj1, u), x) == Count(Succ(dag.adj, u), x)
        - (if x == id then Min(Count(Succ(dag.adj, u), id), Count(t.dependencies, u)) else 0)) by {
        forall u, x ensures Count(Succ(adj1, u), x) == Count(Succ(dag.adj, u), x)
          - (if x == id then Min(Count(Succ(dag.adj, u), id), Count(t.dependencies, u)) else 0) {
          UnlinkCount(dag.adj, id, t.dependencies, u, x);
        }
      }
      TaskDag(Delete(dag.tasks, id), adj1 - {id}, Delete(rev1, id))
  }

  /** The reverse side of `remove_task`: each dependent listed in the
      task's forward list loses up to that many copies of the id from its
      reverse list; every dependent visited keeps (or gains) a reverse key;
      the task's own reverse key is gone. */
  lemma RemoveTaskReverse(dag: TaskDag, id: string)
    requires id in dag.tasks.values
    ensures forall k, x :: k != id ==>
      (Count(RevOf(RemoveTask(dag, id).rev, k), x) == Count(RevOf(dag.rev, k), x)
        - (if x == id then Min(Count(RevOf(dag.rev, k), id), Count(Succ(dag.adj, id), k)) else 0))
    ensures RemoveTask(dag, id).rev.values.Keys == (dag.rev.values.Keys + Elems(Succ(dag.adj, id))) - {id}
  {
    var t := dag.tasks.values[id];
    var adj1 := Unlink(dag.adj, id, t.dependencies);
    var rev1 := DetachDependents(dag.rev, id, Succ(adj1, id));
    assert RemoveTask(dag, id).rev == Delete(rev1, id);
    forall k, x | k != id ensures Count(RevOf(Delete(rev1, id), k), x) ==
      Count(RevOf(dag.rev, k), x)
        - (if x == id then Min(Count(RevOf(dag.rev, k), id), Count(Succ(dag.adj, id), k)) else 0) {
      DetachCount(dag.rev, id, Succ(adj1, id), k, x);
      UnlinkCount(dag.adj, id, t.dependencies, id, k);
    }
    DetachKeys(dag.rev, id, Succ(adj1, id));
    forall k | k != id ensures k in Succ(adj1, id) <==> k in Succ(dag.adj, id) {
      UnlinkCount(dag.adj, id, t.dependencies, id, k);
    }
  }

  // ---------------------------------------------------------------------------
  // Read accessors
  // ---------------------------------------------------------------------------

  /** `[self.tasks[i] for i in ids]`, every id known. */
  function TasksOf(tasks: Dict<Task>, ids: seq<string>): (r: seq<Task>)
    requires forall k :: k in ids ==> k in tasks.values
    ensures |r| == |ids|
    ensures forall i :: 0 <= i < |ids| ==> r[i] == tasks.values[ids[i]]
  {
    if ids == [] then [] else [tasks.values[ids[0]]] + TasksOf(tasks, ids[1..])
  }

  /** `get_task(id)`. */
  function GetTask(dag: TaskDag, id: string): (r: Option<Task>)
    ensures r.Some? <==> id in dag.tasks.values
    ensures r.Some? ==> r.value == dag.tasks.values[id]
  {
    Get(dag.tasks, id)
  }

  /** `[tasks[i] for i in ids if i in tasks]`. */
  function Resolve(tasks: Dict<Task>, ids: seq<string>): (r: seq<Task>)
    ensures |r| <= |ids|
    ensures forall i :: i in ids && i in tasks.values ==> tasks.values[i] in r
    ensures forall x :: x in r ==> exists i :: i in ids && i in tasks.values && tasks.values[i] == x
  {
    if ids == [] then []
    else
      var rest := Resolve(tasks, ids[1..]);
      if ids[0] in tasks.values then [tasks.values[ids[0]]] + rest else rest
  }

  /** The dependency ids `id` declares, none for an unknown id. */
  function DeclaredDependencies(dag: TaskDag, id: string): seq<string>
  {
    if id in dag.tasks.values then dag.tasks.values[id].dependencies else []
  }

  /** `get_task_dependencies(id)`: the declared dependencies that are in the map. */
  function TaskDependencies(dag: TaskDag, id: string): (r: seq<Task>)
    ensures id !in dag.tasks.values ==> r == []
    ensures id in dag.tasks.values ==>
      (forall d :: d in dag.tasks.values[id].dependencies && d in dag.tasks.values ==> dag.tasks.values[d] in r)
    ensures id in dag.tasks.values ==> forall x :: x in r ==>
      exists d :: d in dag.tasks.values[id].dependencies && d in dag.tasks.values && dag.tasks.values[d] == x
    ensures |r| <= |DeclaredDependencies(dag, id)|
  {
    if id !in dag.tasks.values then [] else Resolve(dag.tasks, dag.tasks.values[id].dependencies)
  }

  /** `get_task_dependents(id)`: the recorded forward edges whose target is in the map. */
  function TaskDependents(dag: TaskDag, id: string): (r: seq<Task>)
    ensures forall d :: d in Succ(dag.adj, id) && d in dag.tasks.values ==> dag.tasks.values[d] in r
    ensures forall x :: x in r ==> exists d :: d in Succ(dag.adj, id) && d in dag.tasks.values && dag.tasks.values[d] == x
  {
    Resolve(dag.tasks, Succ(dag.adj, id))
  }
}
