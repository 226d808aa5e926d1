/** Agreement between the task map and its two indexes. Nothing in the
    source enforces these; they are what `add_task` and `remove_task` keep or
    break (src/codex_agent/dag/engine.py:39-94), and what the topological
    sort relies on. */
module DagInvariants {
  import opened Outcomes
  import opened Seqs
  import opened PyDict
  import opened Models
  import opened CycleCheck
  import opened TaskDag

  /** The forward and reverse indexes record the same edges with the same
      multiplicities: `y` is listed `n` times as a dependent of `u` exactly
      when `u` is listed `n` times as a dependency of `y`. */
  ghost predicate Mirror(adj: Adjacency, rev: Dict<seq<string>>)
  {
    forall u, y :: Count(Succ(adj, u), y) == Count(RevOf(rev, y), u)
  }

  /** Every task is stored under its own id. */
  ghost predicate Keyed(dag: TaskDag)
  {
    forall k :: k in dag.tasks.values ==> dag.tasks.values[k].id == k
  }

  /** Every reverse key belongs to a task. */
  ghost predicate ReverseKeysAreTasks(dag: TaskDag)
  {
    dag.rev.values.Keys <= dag.tasks.values.Keys
  }

  /** What removal keeps: mirrored indexes, reverse keys that are tasks, and
      no reverse entry beyond the task's declarations. */
  ghost predicate Linked(dag: TaskDag)
  {
    && Keyed(dag)
    && Mirror(dag.adj, dag.rev)
    && ReverseKeysAreTasks(dag)
    && forall k, x :: k in dag.tasks.values ==> Count(RevOf(dag.rev, k), x) <= Count(dag.tasks.values[k].dependencies, x)
  }

  /** What a run of fresh, successful adds keeps: additionally, each task's
      reverse list is exactly its declared dependency list. */
  ghost predicate Full(dag: TaskDag)
  {
    && Keyed(dag)
    && Mirror(dag.adj, dag.rev)
    && ReverseKeysAreTasks(dag)
    && forall k :: k in dag.tasks.values ==> RevOf(dag.rev, k) == dag.tasks.values[k].dependencies
  }

  lemma FullIsLinked(dag: TaskDag)
    requires Full(dag)
    ensures Linked(dag)
  {
  }

  lemma EmptyIsFull()
    ensures Full(EmptyDag())
  {
  }

  /** Both outcomes of `add_task` leave the indexes mirrored: the same edges
      go into both, and the rollback touches neither. */
  lemma AddTaskKeepsMirror(dag: TaskDag, t: Task)
    requires Mirror(dag.adj, dag.rev)
    ensures Mirror(AddTask(dag, t).0.adj, AddTask(dag, t).0.rev)
  {
    var s := Stage(dag, t);
    StageEdges(dag, t);
    forall u, y ensures Count(Succ(s.adj, u), y) == Count(RevOf(s.rev, y), u) {
      StagedEdgeCount(dag, t, u, y);
    }
  }

  /** The edge `u -> y` is staged as often in the forward list as in the reverse one. */
  lemma StagedEdgeCount(dag: TaskDag, t: Task, u: string, y: string)
    requires Mirror(dag.adj, dag.rev)
    ensures Count(Succ(Stage(dag, t).adj, u), y) == Count(RevOf(Stage(dag, t).rev, y), u)
  {
    StageEdges(dag, t);
    CountAppend(Succ(dag.adj, u), Repeat(t.id, Count(t.dependencies, u)), y);
    CountRepeat(t.id, Count(t.dependencies, u), y);
    if y == t.id {
      CountAppend(RevOf(dag.rev, t.id), t.dependencies, u);
    }
  }

  /** A successful add of a fresh id keeps `Full`. */
  lemma AddFreshKeepsFull(dag: TaskDag, t: Task)
    requires Full(dag)
    requires t.id !in dag.tasks.values
    requires AddTask(dag, t).1.None?
    ensures Full(AddTask(dag, t).0)
  {
    var r := AddTask(dag, t).0;
    AddTaskKeepsMirror(dag, t);
    StageEdges(dag, t);
    LinkDepsKeys(dag.adj, dag.rev, t.id, t.dependencies);
    assert RevOf(dag.rev, t.id) == [];
    assert RevOf(r.rev, t.id) == t.dependencies;
    assert r.tasks.values == dag.tasks.values[t.id := t];
    assert Keyed(r);
    assert ReverseKeysAreTasks(r);
    forall k | k in r.tasks.values ensures RevOf(r.rev, k) == r.tasks.values[k].dependencies {
      if k != t.id {
        assert RevOf(r.rev, k) == RevOf(dag.rev, k);
      }
    }
  }

  /** A successful add of a fresh id keeps `Linked`. */
  lemma AddFreshKeepsLinked(dag: TaskDag, t: Task)
    requires Linked(dag)
    requires t.id !in dag.tasks.values
    requires AddTask(dag, t).1.None?
    ensures Linked(AddTask(dag, t).0)
  {
    var r := AddTask(dag, t).0;
    AddTaskKeepsMirror(dag, t);
    StageEdges(dag, t);
    LinkDepsKeys(dag.adj, dag.rev, t.id, t.dependencies);
    assert RevOf(dag.rev, t.id) == [];
    assert RevOf(r.rev, t.id) == t.dependencies;
    assert r.tasks.values == dag.tasks.values[t.id := t];
    assert Keyed(r);
    assert ReverseKeysAreTasks(r);
    forall k, x | k in r.tasks.values
      ensures Count(RevOf(r.rev, k), x) <= Count(r.tasks.values[k].dependencies, x)
    {
      if k != t.id {
        assert RevOf(r.rev, k) == RevOf(dag.rev, k);
      }
    }
  }

  /** The rollback of a cycle-closing add of a fresh id with dependencies
      leaves a reverse key behind for an id that is no task. */
  lemma RollbackLeavesReverseKey(dag: TaskDag, t: Task)
    requires t.id !in dag.tasks.values
    requires t.dependencies != []
    requires AddTask(dag, t).1.Some?
    ensures t.id in AddTask(dag, t).0.rev.values && t.id !in AddTask(dag, t).0.tasks.values
    ensures !ReverseKeysAreTasks(AddTask(dag, t).0) && !Linked(AddTask(dag, t).0)
  {
    LinkDepsKeys(dag.adj, dag.rev, t.id, t.dependencies);
  }

  /** Under `Linked`, removing a task detaches it completely: no forward
      list and no reverse list mentions it any more. */
  lemma RemoveDetaches(dag: TaskDag, id: string)
    requires Linked(dag)
    requires id in dag.tasks.values
    ensures forall u :: id !in Succ(RemoveTask(dag, id).adj, u)
    ensures forall y :: id !in RevOf(RemoveTask(dag, id).rev, y)
  {
    var r := RemoveTask(dag, id);
    RemoveTaskReverse(dag, id);
    forall u ensures Count(Succ(r.adj, u), id) == 0 {
      if u != id {
        assert Count(Succ(dag.adj, u), id) == Count(RevOf(dag.rev, id), u);
      }
    }
    forall y ensures Count(RevOf(r.rev, y), id) == 0 {
      if y != id {
        assert Count(Succ(dag.adj, id), y) == Count(RevOf(dag.rev, y), id);
      }
    }
  }

  /** `remove_task` keeps `Linked`. */
  lemma RemoveKeepsLinked(dag: TaskDag, id: string)
    requires Linked(dag)
    ensures Linked(RemoveTask(dag, id))
  {
    if id in dag.tasks.values {
      var r := RemoveTask(dag, id);
      RemoveTaskReverse(dag, id);
      RemoveDetaches(dag, id);
      forall u, y ensures Count(Succ(r.adj, u), y) == Count(RevOf(r.rev, y), u) {
        if u != id && y != id {
          assert Count(Succ(dag.adj, u), y) == Count(RevOf(dag.rev, y), u);
        }
      }
      forall y | y in Succ(dag.adj, id) && y != id ensures y in dag.rev.values {
        assert Count(Succ(dag.adj, id), y) == Count(RevOf(dag.rev, y), id);
      }
      forall k, x | k in r.tasks.values
        ensures Count(RevOf(r.rev, k), x) <= Count(r.tasks.values[k].dependencies, x) {
        assert Count(RevOf(dag.rev, k), x) <= Count(dag.tasks.values[k].dependencies, x);
      }
    }
  }

  /** Re-adding an existing id appends the new declarations to the old
      reverse list (whether or not the add succeeds), so under `Full` the
      id's reverse list then holds the old and the new dependencies. */
  lemma ReplaceAppendsReverse(dag: TaskDag, t: Task)
    requires Full(dag) && t.id in dag.tasks.values
    ensures RevOf(AddTask(dag, t).0.rev, t.id) == dag.tasks.values[t.id].dependencies + t.dependencies
  {
    StageEdges(dag, t);
  }

  /** So a successful replacing add that drops a dependency breaks `Linked`
      (and with it `Full`): the dropped id stays in the reverse list. */
  lemma ReplaceBreaksLinked(dag: TaskDag, t: Task, x: string)
    requires Full(dag) && t.id in dag.tasks.values && AddTask(dag, t).1.None?
    requires x in dag.tasks.values[t.id].dependencies && x !in t.dependencies
    ensures !Linked(AddTask(dag, t).0) && !Full(AddTask(dag, t).0)
  {
    var r := AddTask(dag, t).0;
    ReplaceAppendsReverse(dag, t);
    CountAppend(dag.tasks.values[t.id].dependencies, t.dependencies, x);
    assert r.tasks.values[t.id] == t;
    assert Count(RevOf(r.rev, t.id), x) > Count(r.tasks.values[t.id].dependencies, x);
  }

  /** Removing a task whose reverse list holds an entry beyond its
      declarations (as a replacing add leaves) unlinks only the declared
      edges: the extra dependency's forward list still names the removed id,
      while the id's reverse list is gone, so the indexes no longer mirror
      each other. */
  lemma StaleEntryBreaksMirror(dag: TaskDag, id: string, x: string)
    requires Mirror(dag.adj, dag.rev) && id in dag.tasks.values && x != id
    requires Count(RevOf(dag.rev, id), x) > Count(dag.tasks.values[id].dependencies, x)
    ensures id in Succ(RemoveTask(dag, id).adj, x) && id !in RemoveTask(dag, id).tasks.values
    ensures !Mirror(RemoveTask(dag, id).adj, RemoveTask(dag, id).rev)
  {
    var r := RemoveTask(dag, id);
    assert Count(Succ(dag.adj, x), id) == Count(RevOf(dag.rev, id), x);
    assert Count(Succ(r.adj, x), id) > 0;
    assert RevOf(r.rev, id) == [];
  }

  /** The two together: after a successful replacing add that drops a
      dependency, removing the task leaves a forward edge into an id that
      is neither a task nor mirrored. */
  lemma ReplaceThenRemoveBreaksMirror(dag: TaskDag, t: Task, x: string)
    requires Full(dag) && t.id in dag.tasks.values && AddTask(dag, t).1.None?
    requires x in dag.tasks.values[t.id].dependencies && x !in t.dependencies && x != t.id
    ensures var r := RemoveTask(AddTask(dag, t).0, t.id);
      t.id in Succ(r.adj, x) && t.id !in r.tasks.values && !Mirror(r.adj, r.rev)
  {
    var a := AddTask(dag, t).0;
    AddTaskKeepsMirror(dag, t);
    ReplaceAppendsReverse(dag, t);
    CountAppend(dag.tasks.values[t.id].dependencies, t.dependencies, x);
    assert a.tasks.values[t.id] == t;
    StaleEntryBreaksMirror(a, t.id, x);
  }

  /** Under `Keyed`, `get_task` returns the task with the id asked for. */
  lemma GetTaskKeyed(dag: TaskDag, id: string)
    requires Keyed(dag)
    ensures GetTask(dag, id).Some? ==> GetTask(dag, id).value.id == id
  {
  }

  /** Under `Full`, `get_task_dependents` and `get_task_dependencies` are
      inverse: a task is listed among `a`'s dependents exactly when `a` is
      listed among its dependencies. */
  lemma DependentsInverse(dag: TaskDag, a: string, x: Task)
    requires Full(dag)
    requires a in dag.tasks.values && x in dag.tasks.values.Values
    ensures x in TaskDependents(dag, a) <==> dag.tasks.values[a] in TaskDependencies(dag, x.id)
  {
    var tasks := dag.tasks.values;
    var b :| b in tasks && tasks[b] == x;
    assert x.id == b;
    assert Count(Succ(dag.adj, a), b) == Count(RevOf(dag.rev, b), a);
    if x in TaskDependents(dag, a) {
      var d :| d in Succ(dag.adj, a) && d in tasks && tasks[d] == x;
      assert d == tasks[d].id;
    }
    if tasks[a] in TaskDependencies(dag, b) {
      var d :| d in tasks[b].dependencies && d in tasks && tasks[d] == tasks[a];
      assert d == tasks[d].id;
    }
  }
}
