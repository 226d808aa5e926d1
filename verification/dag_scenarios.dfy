/** Consequences of the graph model that the source's own comments do not
    announce: the rollback that keeps edges (the cycle test of
    tests/unit/test_dag.py:54-73), a dangling dependency that the ready list
    ignores but the sort reports as a cycle, and a re-added task whose
    dependents no longer point at it. */
module DagScenarios {
  import opened Outcomes
  import opened Seqs
  import opened PyDict
  import opened Models
  import opened CycleCheck
  import opened TaskDag
  import opened DagInvariants
  import opened Scheduling
  import opened TopoSort

  lemma FirstStep(adj: Adjacency, p: seq<string>)
    requires IsPath(adj, p) && |p| >= 2
    ensures p[1] in Succ(adj, p[0])
  {
  }

  /** A graph whose roots have no successors has no reachable cycle. */
  lemma LeafRootsAcyclic(adj: Adjacency, roots: set<string>)
    requires forall r :: r in roots ==> Succ(adj, r) == []
    ensures !CycleReachable(adj, roots)
  {
    if CycleReachable(adj, roots) {
      var p: seq<string>, j: nat :| Lasso(adj, roots, p, j);
      FirstStep(adj, p);
      assert false;
    }
  }

  /** Staging only adds edges and roots, so a reachable cycle stays reachable
      and the add raises. */
  lemma CyclePersists(dag: TaskDag, t: Task)
    requires CycleReachable(dag.adj, Ids(dag))
    ensures AddTask(dag, t).1 == Some(TaskCycle(t.id))
  {
    var p: seq<string>, j: nat :| Lasso(dag.adj, Ids(dag), p, j);
    var s := Stage(dag, t).adj;
    StageEdges(dag, t);
    forall i | 0 <= i < |p| - 1 ensures p[i + 1] in Succ(s, p[i]) {
      assert p[i + 1] in Succ(dag.adj, p[i]);
      assert Succ(s, p[i]) == Succ(dag.adj, p[i]) + Repeat(t.id, Count(t.dependencies, p[i]));
    }
    assert Lasso(s, Ids(dag) + {t.id}, p, j);
  }

  /** An add to an acyclic graph succeeds when nothing lists the id as a
      dependent yet and it does not depend on itself: its new edges all end
      at the id, which has no way out, so no new cycle can close. */
  lemma LeafAddSucceeds(dag: TaskDag, t: Task)
    requires !CycleReachable(dag.adj, Ids(dag))
    requires Succ(dag.adj, t.id) == [] && t.id !in t.dependencies
    ensures AddTask(dag, t).1.None?
  {
    var s := Stage(dag, t).adj;
    StageEdges(dag, t);
    CountRepeat(t.id, Count(t.dependencies, t.id), t.id);
    assert Succ(s, t.id) == [];
    if CycleReachable(s, Ids(dag) + {t.id}) {
      var p: seq<string>, j: nat :| Lasso(s, Ids(dag) + {t.id}, p, j);
      LassoAvoidsLeaf(dag, t, p, j);
      forall i | 0 <= i < |p| - 1 ensures p[i + 1] in Succ(dag.adj, p[i]) {
        assert p[i + 1] in Succ(dag.adj, p[i]) + Repeat(t.id, Count(t.dependencies, p[i]));
      }
      assert Lasso(dag.adj, Ids(dag), p, j);
    }
  }

  /** No node of such a lasso is the new id: every node but the last has a
      successor, and the last repeats an earlier one. */
  lemma LassoAvoidsLeaf(dag: TaskDag, t: Task, p: seq<string>, j: nat)
    requires Succ(Stage(dag, t).adj, t.id) == []
    requires Lasso(Stage(dag, t).adj, Ids(dag) + {t.id}, p, j)
    ensures forall i :: 0 <= i < |p| ==> p[i] != t.id
  {
    forall i | 0 <= i < |p| ensures p[i] != t.id {
      if i < |p| - 1 {
        assert p[i + 1] in Succ(Stage(dag, t).adj, p[i]);
      } else {
        assert p[j + 1] in Succ(Stage(dag, t).adj, p[j]);
      }
    }
  }

  // ---------------------------------------------------------------------------
  // The cycle test
  // ---------------------------------------------------------------------------

  /** First add of the test: `task1` depends on the absent `task2`. */
  lemma CycleTestFirstAdd(t1: Task)
    requires t1.id == "task1" && t1.dependencies == ["task2"]
    ensures var r := AddTask(EmptyDag(), t1);
      && r.1.None?
      && Ids(r.0) == {"task1"}
      && Succ(r.0.adj, "task2") == ["task1"]
  {
    var d0 := EmptyDag();
    StageEdges(d0, t1);
    assert Succ(Stage(d0, t1).adj, "task1") == [];
    LeafRootsAcyclic(Stage(d0, t1).adj, Ids(d0) + {t1.id});
    assert Succ(Stage(d0, t1).adj, "task2") == [] + Repeat("task1", 1);
  }

  /** Second add: `task2` depends on `task1`, closing the cycle. */
  lemma CycleTestSecondAdd(d1: TaskDag, t2: Task)
    requires Ids(d1) == {"task1"} && Succ(d1.adj, "task2") == ["task1"]
    requires t2.id == "task2" && t2.dependencies == ["task1"]
    ensures var r := AddTask(d1, t2);
      && r.1 == Some(TaskCycle("task2"))
      && Ids(r.0) == {"task1"}
      && "task2" in Succ(r.0.adj, "task1") && "task1" in Succ(r.0.adj, "task2")
      && CycleReachable(r.0.adj, Ids(r.0))
  {
    StageEdges(d1, t2);
    var s2 := Stage(d1, t2).adj;
    assert Succ(s2, "task1") == Succ(d1.adj, "task1") + Repeat("task2", 1);
    assert Succ(s2, "task2") == Succ(d1.adj, "task2") + Repeat("task2", 0);
    var loop := ["task1", "task2", "task1"];
    assert Lasso(s2, Ids(d1) + {t2.id}, loop, 0);
    assert Lasso(s2, {"task1"}, loop, 0);
  }

  /** `task1` depends on `task2` (not yet present), then `task2` on `task1`:
      the second add raises and `task2` is gone, but both edges stay, so every
      later add fails whatever it adds. */
  lemma CycleTestKeepsCycle(t1: Task, t2: Task)
    requires t1.id == "task1" && t1.dependencies == ["task2"]
    requires t2.id == "task2" && t2.dependencies == ["task1"]
    ensures AddTask(EmptyDag(), t1).1.None?
    ensures var d1 := AddTask(EmptyDag(), t1).0;
      && AddTask(d1, t2).1 == Some(TaskCycle("task2"))
      && "task2" !in AddTask(d1, t2).0.tasks.values
      && "task1" in AddTask(d1, t2).0.tasks.values
      && "task2" in Succ(AddTask(d1, t2).0.adj, "task1")
      && "task1" in Succ(AddTask(d1, t2).0.adj, "task2")
    ensures var d2 := AddTask(AddTask(EmptyDag(), t1).0, t2).0;
      forall t :: AddTask(d2, t).1 == Some(TaskCycle(t.id))
  {
    CycleTestFirstAdd(t1);
    var d1 := AddTask(EmptyDag(), t1).0;
    CycleTestSecondAdd(d1, t2);
    var d2 := AddTask(d1, t2).0;
    forall t ensures AddTask(d2, t).1 == Some(TaskCycle(t.id)) {
      CyclePersists(d2, t);
    }
  }

  // ---------------------------------------------------------------------------
  // Rejected add, then remove
  // ---------------------------------------------------------------------------

  /** The cycle test followed by `remove task1`: no id is ever replaced, yet
      the rejected add left a reverse key for `task2`, the removal empties
      it, and the sort dequeues `task2` and raises `KeyError('task2')` on
      the task lookup; `validate` lets it escape. */
  lemma RejectThenRemoveRaises(t1: Task, t2: Task)
    requires t1.id == "task1" && t1.dependencies == ["task2"]
    requires t2.id == "task2" && t2.dependencies == ["task1"]
    ensures var d1 := AddTask(EmptyDag(), t1);
      var d2 := AddTask(d1.0, t2);
      var d3 := RemoveTask(d2.0, "task1");
      && d1.1.None? && d2.1 == Some(TaskCycle("task2"))
      && TopologicalSort(d3) == Err(MissingKey("task2"))
      && Validate(d3) == Err(MissingKey("task2"))
  {
    CycleTestFirstAdd(t1);
    RejectedFirst(t1);
    var d1 := AddTask(EmptyDag(), t1).0;
    CycleTestSecondAdd(d1, t2);
    RejectedSecond(d1, t1, t2);
    var d2 := AddTask(d1, t2).0;
    RejectedRemove(d2);
    OrphanSort(RemoveTask(d2, "task1"));
  }

  /** After the first add: `task1` alone, its reverse key only, no dependents. */
  lemma RejectedFirst(t1: Task)
    requires t1.id == "task1" && t1.dependencies == ["task2"]
    ensures var r := AddTask(EmptyDag(), t1);
      && r.1.None? && r.0.tasks.values == map["task1" := t1]
      && r.0.rev.values.Keys == {"task1"} && RevOf(r.0.rev, "task2") == []
      && Succ(r.0.adj, "task1") == []
  {
    var d0 := EmptyDag();
    CycleTestFirstAdd(t1);
    StageEdges(d0, t1);
    LinkDepsKeys(d0.adj, d0.rev, t1.id, t1.dependencies);
    assert Succ(Stage(d0, t1).adj, "task1") == [] + Repeat("task1", 0);
  }

  /** After the rejected second add: `task1` alone, but both reverse keys,
      `task2`'s listing `task1`, and `task1` listing `task2` as a dependent. */
  lemma RejectedSecond(d1: TaskDag, t1: Task, t2: Task)
    requires d1.tasks.values == map["task1" := t1] && t1.dependencies == ["task2"]
    requires d1.rev.values.Keys == {"task1"} && RevOf(d1.rev, "task2") == []
    requires Succ(d1.adj, "task1") == []
    requires t2.id == "task2" && t2.dependencies == ["task1"] && AddTask(d1, t2).1.Some?
    ensures var d2 := AddTask(d1, t2).0;
      && d2.tasks.values == map["task1" := t1]
      && d2.rev.values.Keys == {"task1", "task2"} && RevOf(d2.rev, "task2") == ["task1"]
      && Succ(d2.adj, "task1") == ["task2"]
  {
    RejectedSecondForward(d1, t2);
    RejectedSecondReverse(d1, t2);
  }

  lemma RejectedSecondForward(d1: TaskDag, t2: Task)
    requires Succ(d1.adj, "task1") == []
    requires t2.id == "task2" && t2.dependencies == ["task1"]
    ensures Succ(Stage(d1, t2).adj, "task1") == ["task2"]
  {
    StageEdges(d1, t2);
    assert Succ(Stage(d1, t2).adj, "task1") == [] + Repeat("task2", 1);
  }

  lemma RejectedSecondReverse(d1: TaskDag, t2: Task)
    requires d1.rev.values.Keys == {"task1"} && RevOf(d1.rev, "task2") == []
    requires t2.id == "task2" && t2.dependencies == ["task1"]
    ensures Stage(d1, t2).rev.values.Keys == {"task1", "task2"}
    ensures RevOf(Stage(d1, t2).rev, "task2") == ["task1"]
  {
    StageEdges(d1, t2);
    LinkDepsKeys(d1.adj, d1.rev, t2.id, t2.dependencies);
  }

  /** Removing `task1` leaves no task and a single, empty reverse list for `task2`. */
  lemma RejectedRemove(d2: TaskDag)
    requires d2.tasks.values.Keys == {"task1"}
    requires d2.rev.values.Keys == {"task1", "task2"} && RevOf(d2.rev, "task2") == ["task1"]
    requires Succ(d2.adj, "task1") == ["task2"]
    ensures var d3 := RemoveTask(d2, "task1");
      && d3.tasks.values.Keys == {}
      && d3.rev.values.Keys == {"task2"} && RevOf(d3.rev, "task2") == []
  {
    var d3 := RemoveTask(d2, "task1");
    RemoveTaskReverse(d2, "task1");
    forall x ensures Count(RevOf(d3.rev, "task2"), x) == 0 {
      assert Count(RevOf(d2.rev, "task2"), x) == Count(["task1"], x);
    }
    NoCountsEmpty(RevOf(d3.rev, "task2"));
  }

  /** A graph with no tasks but a reverse key `task2`: the queue is `[task2]`
      and the lookup of that id raises. */
  lemma OrphanSort(d3: TaskDag)
    requires d3.tasks.values.Keys == {}
    requires d3.rev.values.Keys == {"task2"} && RevOf(d3.rev, "task2") == []
    ensures TopologicalSort(d3) == Err(MissingKey("task2")) && Validate(d3) == Err(MissingKey("task2"))
  {
    var deg := InitialDegrees(d3);
    assert deg == map["task2" := 0];
    var q := ZeroDegree(DegreeOrder(d3), deg);
    assert forall k :: k in q <==> k == "task2";
    DistinctCover(q, {"task2"});
    assert q == [q[0]] && q[0] in q;
    InitialInv(d3);
  }

  // ---------------------------------------------------------------------------
  // Dangling dependency
  // ---------------------------------------------------------------------------

  /** `s` with every occurrence of `x` dropped. */
  function Without(s: seq<string>, x: string): (r: seq<string>)
    ensures forall y :: y in r <==> y in s && y != x
  {
    if s == [] then []
    else (if s[0] == x then [] else [s[0]]) + Without(s[1..], x)
  }

  /** Adding a fresh task that names an id which is not a task (and is not
      itself) to a fully indexed graph: the add succeeds, `validate` reports
      the missing dependency but no cycle, and the sort raises
      `DAGCycleError` all the same; the ready list ignores the unknown id. */
  lemma DanglingDependencyBreaksSort(dag: TaskDag, t: Task, d: string)
    requires Full(dag)
    requires t.id !in dag.tasks.values
    requires AddTask(dag, t).1.None?
    requires d in t.dependencies && d !in dag.tasks.values && d != t.id
    ensures var r := AddTask(dag, t).0;
      && TopologicalSort(r) == Err(GraphCycle)
      && Validate(r).Ok?
      && CycleIssue !in Validate(r).value
      && MissingDependency(t.id, d) in Validate(r).value
    ensures var r := AddTask(dag, t).0;
      IsReady(r.tasks, t) <==> IsReady(r.tasks, t.(dependencies := Without(t.dependencies, d)))
  {
    var r := AddTask(dag, t).0;
    AddFreshKeepsFull(dag, t);
    assert r.tasks.values[t.id] == t;
    DanglingEntryBreaksSort(r, t.id, d);
  }

  /** A one-task graph whose task is ready has exactly that task ready. */
  lemma SingleReady(dag: TaskDag, k: string)
    requires dag.tasks.keys == [k] && IsReady(dag.tasks, dag.tasks.values[k])
    ensures GetReadyTasks(dag) == [dag.tasks.values[k]]
  {
    var t := dag.tasks.values[k];
    assert ReadyIds(dag.tasks, dag.tasks.keys) == [k];
    assert TasksOf(dag.tasks, [k]) == [t];
    var ready := GetReadyTasks(dag);
    assert multiset(ready) == multiset{t};
    assert |ready| == 1;
    assert ready[0] in multiset(ready);
  }

  /** Adding a task with an unknown dependency to the empty graph succeeds. */
  lemma LoneDanglingAdd(t: Task)
    requires t.id == "x" && t.dependencies == ["ghost"]
    ensures AddTask(EmptyDag(), t).1.None?
    ensures AddTask(EmptyDag(), t).0.tasks.keys == ["x"]
  {
    var d0 := EmptyDag();
    StageEdges(d0, t);
    assert Succ(Stage(d0, t).adj, "x") == [];
    LeafRootsAcyclic(Stage(d0, t).adj, Ids(d0) + {t.id});
  }

  /** The smallest case: one pending task depending on an unknown id is the
      whole ready list, and the sort of the one-task graph raises. */
  lemma LoneDanglingTask(t: Task)
    requires t.id == "x" && t.dependencies == ["ghost"] && t.status == Pending
    ensures AddTask(EmptyDag(), t).1.None?
    ensures GetReadyTasks(AddTask(EmptyDag(), t).0) == [t]
    ensures TopologicalSort(AddTask(EmptyDag(), t).0) == Err(GraphCycle)
  {
    LoneDanglingAdd(t);
    EmptyIsFull();
    DanglingDependencyBreaksSort(EmptyDag(), t, "ghost");
    var r := AddTask(EmptyDag(), t).0;
    assert r.tasks.values["x"] == t;
    SingleReady(r, "x");
  }

  // ---------------------------------------------------------------------------
  // Remove, then add again
  // ---------------------------------------------------------------------------

  /** Removing a task and adding a task with the same id again: every
      dependent that declared the id has lost the reverse entry for it, and
      the new task has no forward list, so `Full` no longer holds. */
  lemma RemoveThenReAddLosesEdge(dag: TaskDag, id: string, b: string, t: Task)
    requires Full(dag)
    requires id in dag.tasks.values && b in dag.tasks.values && b != id
    requires id in dag.tasks.values[b].dependencies
    requires t.id == id && id !in t.dependencies
    requires AddTask(RemoveTask(dag, id), t).1.None?
    ensures var r := AddTask(RemoveTask(dag, id), t).0;
      && r.tasks.values[b] == dag.tasks.values[b]
      && id in r.tasks.values
      && id !in RevOf(r.rev, b)
      && b !in Succ(r.adj, id)
      && Linked(r) && !Full(r)
  {
    var d3 := RemoveTask(dag, id);
    FullIsLinked(dag);
    RemoveKeepsLinked(dag, id);
    RemoveDetaches(dag, id);
    AddFreshKeepsLinked(d3, t);
    StageEdges(d3, t);
    var r := AddTask(d3, t).0;
    assert RevOf(r.rev, b) == RevOf(d3.rev, b);
    assert Succ(r.adj, id) == Succ(d3.adj, id) + Repeat(id, Count(t.dependencies, id));
    assert Count(t.dependencies, id) == 0;
    assert Succ(d3.adj, id) == [];
  }

  // ---------------------------------------------------------------------------
  // The smallest re-add case, sorted
  // ---------------------------------------------------------------------------

  /** After `a`, then `b` (depending on `a`), then removing `a` and adding it
      back, the graph has tasks `b` then `a`, one empty reverse entry for `b`
      and no forward entries. Its in-degree order is `b` then `a`, both 0. */
  lemma ReAddInitialQueue(d4: TaskDag)
    requires d4.tasks.keys == ["b", "a"]
    requires d4.rev.keys == ["b"] && RevOf(d4.rev, "b") == []
    ensures DegreeOrder(d4) == ["b", "a"]
    ensures InitialDegrees(d4) == map["a" := 0, "b" := 0]
    ensures ZeroDegree(DegreeOrder(d4), InitialDegrees(d4)) == ["b", "a"]
  {
    ReAddOrder(d4);
    ReAddDegrees(d4);
    var deg := map["a" := 0, "b" := 0];
    assert ZeroDegree([], deg) == [];
    assert ZeroDegree(["a"], deg) == ["a"];
    assert ["b", "a"][1..] == ["a"];
  }

  lemma ReAddOrder(d4: TaskDag)
    requires d4.tasks.keys == ["b", "a"] && d4.rev.keys == ["b"]
    ensures DegreeOrder(d4) == ["b", "a"]
  {
    assert WithoutReverse([], d4.rev) == [];
    assert WithoutReverse(["a"], d4.rev) == ["a"];
    assert d4.tasks.keys[1..] == ["a"];
  }

  lemma ReAddDegrees(d4: TaskDag)
    requires d4.tasks.keys == ["b", "a"]
    requires d4.rev.keys == ["b"] && RevOf(d4.rev, "b") == []
    ensures InitialDegrees(d4) == map["a" := 0, "b" := 0]
  {
    var deg := InitialDegrees(d4);
    assert deg.Keys == {"a", "b"};
  }

  /** Both ids dequeue in queue order, neither with dependents. */
  lemma ReAddKahn(tasks: Dict<Task>, adj: Adjacency)
    requires tasks.values.Keys == {"a", "b"}
    requires Succ(adj, "a") == [] && Succ(adj, "b") == []
    requires KahnInv(tasks, KahnState(map["a" := 0, "b" := 0], ["b", "a"], []))
    ensures Kahn(tasks, adj, KahnState(map["a" := 0, "b" := 0], ["b", "a"], [])) == Ok(["b", "a"])
  {
    var deg := map["a" := 0, "b" := 0];
    var s1 := KahnState(deg, ["a"], ["b"]);
    var s2 := KahnState(deg, [], ["b", "a"]);
    assert Relax(deg, []) == Ok((deg, []));
    assert KahnInv(tasks, s1);
    assert KahnInv(tasks, s2);
    assert Kahn(tasks, adj, s2) == Ok(["b", "a"]);
    assert Kahn(tasks, adj, s1) == Kahn(tasks, adj, s2) by {
      assert ["a"][1..] + [] == [] && ["b"] + ["a"] == ["b", "a"];
    }
    assert ["b", "a"][1..] + [] == ["a"] && [] + ["b"] == ["b"];
  }

  lemma ReAddSort(d4: TaskDag)
    requires d4.tasks.keys == ["b", "a"]
    requires Succ(d4.adj, "a") == [] && Succ(d4.adj, "b") == []
    requires d4.rev.keys == ["b"] && RevOf(d4.rev, "b") == []
    ensures SortIds(d4) == Ok(["b", "a"])
  {
    ReAddInitialQueue(d4);
    InitialInv(d4);
    assert d4.tasks.values.Keys == {"a", "b"};
    ReAddKahn(d4.tasks, d4.adj);
    assert DequeuedIds(d4) == Ok(["b", "a"]);
    PyDict.SizeMatches(d4.tasks);
  }

  lemma MemberCounted(s: seq<string>, x: string)
    requires x in s
    ensures Count(s, x) > 0
  {
  }

  lemma NoCountsEmpty(s: seq<string>)
    requires forall x :: Count(s, x) == 0
    ensures s == []
  {
    if s != [] {
      MemberCounted(s, s[0]);
      assert false;
    }
  }

  lemma SingletonKeys(s: seq<string>, x: string)
    requires Distinct(s) && forall y :: y in s <==> y == x
    ensures s == [x]
  {
    DistinctCover(s, {x});
    assert s[0] in s;
  }

  /** Adding `a` (no dependencies) to the empty graph. */
  lemma SmallFirstAdd(a: Task)
    requires a.id == "a" && a.dependencies == []
    ensures var r := AddTask(EmptyDag(), a);
      && r.1.None? && r.0.tasks.keys == ["a"] && r.0.rev.keys == []
      && forall u :: Succ(r.0.adj, u) == []
  {
    var d0 := EmptyDag();
    StageEdges(d0, a);
    LinkDepsKeys(d0.adj, d0.rev, a.id, a.dependencies);
    LeafRootsAcyclic(Stage(d0, a).adj, Ids(d0) + {a.id});
  }

  /** Adding `b`, depending on `a`, to the graph holding only `a`. */
  lemma SmallSecondAdd(d1: TaskDag, b: Task)
    requires d1.tasks.keys == ["a"] && d1.rev.keys == [] && forall u :: Succ(d1.adj, u) == []
    requires b.id == "b" && b.dependencies == ["a"]
    ensures var r := AddTask(d1, b);
      && r.1.None? && r.0.tasks.keys == ["a", "b"] && r.0.rev.keys == ["b"]
      && Succ(r.0.adj, "a") == ["b"]
  {
    var r := AddTask(d1, b);
    SecondStageAcyclic(d1, b);
    assert r.1.None?;
    assert "b" !in d1.tasks.values;
    assert r.0.tasks.keys == d1.tasks.keys + ["b"];
    LinkDepsKeys(d1.adj, d1.rev, b.id, b.dependencies);
    assert "b" !in d1.rev.values;
  }

  lemma SecondStageAcyclic(d1: TaskDag, b: Task)
    requires d1.tasks.keys == ["a"] && forall u :: Succ(d1.adj, u) == []
    requires b.id == "b" && b.dependencies == ["a"]
    ensures Succ(Stage(d1, b).adj, "a") == ["b"]
    ensures !CycleReachable(Stage(d1, b).adj, Ids(d1) + {b.id})
  {
    StageEdges(d1, b);
    var s := Stage(d1, b).adj;
    assert Succ(s, "a") == [] + Repeat("b", 1);
    assert Succ(s, "b") == [] + Repeat("b", 0);
    assert Ids(d1) + {b.id} == {"a", "b"};
    TwoNodeAcyclic(s);
  }

  /** With the one edge `a -> b` no cycle is reachable from `a` or `b`. */
  lemma TwoNodeAcyclic(s: Adjacency)
    requires Succ(s, "a") == ["b"] && Succ(s, "b") == []
    ensures !CycleReachable(s, {"a", "b"})
  {
    if CycleReachable(s, {"a", "b"}) {
      var p: seq<string>, j: nat :| Lasso(s, {"a", "b"}, p, j);
      FirstStep(s, p);
      if |p| >= 3 {
        SecondStep(s, p);
      }
      assert false;
    }
  }

  lemma SecondStep(adj: Adjacency, p: seq<string>)
    requires IsPath(adj, p) && |p| >= 3
    ensures p[2] in Succ(adj, p[1])
  {
  }

  /** Removing `a` leaves `b` alone, with an empty reverse entry under its key. */
  lemma SmallRemove(d2: TaskDag, b: Task)
    requires Linked(d2) && d2.tasks.keys == ["a", "b"] && d2.rev.keys == ["b"]
    requires Succ(d2.adj, "a") == ["b"]
    requires d2.tasks.values["b"] == b && b.dependencies == ["a"]
    ensures var d3 := RemoveTask(d2, "a");
      && Linked(d3) && d3.tasks.keys == ["b"] && d3.rev.keys == ["b"] && RevOf(d3.rev, "b") == []
      && forall u :: Succ(d3.adj, u) == []
  {
    var d3 := RemoveTask(d2, "a");
    RemoveKeepsLinked(d2, "a");
    DeleteKeepsOrder(d2.tasks, "a");
    assert d3.tasks.keys == ["b"];
    SmallRemoveReverse(d2, b);
    forall u ensures Succ(d3.adj, u) == [] {
      forall y ensures Count(Succ(d3.adj, u), y) == 0 {
        assert Count(Succ(d3.adj, u), y) == Count(RevOf(d3.rev, y), u);
      }
      NoCountsEmpty(Succ(d3.adj, u));
    }
  }

  /** The reverse index after removing `a`: only `b`'s now empty entry. */
  lemma SmallRemoveReverse(d2: TaskDag, b: Task)
    requires Linked(d2) && d2.tasks.keys == ["a", "b"] && d2.rev.keys == ["b"]
    requires Succ(d2.adj, "a") == ["b"]
    requires d2.tasks.values["b"] == b && b.dependencies == ["a"]
    ensures var d3 := RemoveTask(d2, "a");
      d3.rev.keys == ["b"] && RevOf(d3.rev, "b") == [] && forall y :: RevOf(d3.rev, y) == []
  {
    var d3 := RemoveTask(d2, "a");
    SmallRemoveKeys(d2, b);
    forall x ensures Count(RevOf(d3.rev, "b"), x) == 0 {
      SmallRemoveCount(d2, b, x);
    }
    NoCountsEmpty(RevOf(d3.rev, "b"));
  }

  lemma SmallRemoveKeys(d2: TaskDag, b: Task)
    requires d2.tasks.keys == ["a", "b"] && d2.rev.keys == ["b"]
    requires Succ(d2.adj, "a") == ["b"]
    ensures RemoveTask(d2, "a").rev.keys == ["b"]
  {
    RemoveTaskReverse(d2, "a");
    assert Elems(Succ(d2.adj, "a")) == {"b"};
    SingletonKeys(RemoveTask(d2, "a").rev.keys, "b");
  }

  lemma SmallRemoveCount(d2: TaskDag, b: Task, x: string)
    requires Linked(d2) && d2.tasks.keys == ["a", "b"] && d2.rev.keys == ["b"]
    requires Succ(d2.adj, "a") == ["b"]
    requires d2.tasks.values["b"] == b && b.dependencies == ["a"]
    ensures Count(RevOf(RemoveTask(d2, "a").rev, "b"), x) == 0
  {
    RemoveDetaches(d2, "a");
    RemoveTaskReverse(d2, "a");
    assert Count(RevOf(RemoveTask(d2, "a").rev, "b"), x) <= Count(["a"], x);
  }

  /** Adding `a` back: it goes after `b`, and no index changes. */
  lemma SmallReAdd(d3: TaskDag, a: Task)
    requires d3.tasks.keys == ["b"] && d3.rev.keys == ["b"] && RevOf(d3.rev, "b") == []
    requires forall u :: Succ(d3.adj, u) == []
    requires a.id == "a" && a.dependencies == []
    ensures var r := AddTask(d3, a);
      && r.1.None? && r.0.tasks.keys == ["b", "a"] && r.0.rev.keys == ["b"] && RevOf(r.0.rev, "b") == []
      && Succ(r.0.adj, "a") == [] && Succ(r.0.adj, "b") == []
  {
    StageEdges(d3, a);
    LinkDepsKeys(d3.adj, d3.rev, a.id, a.dependencies);
    LeafRootsAcyclic(Stage(d3, a).adj, Ids(d3) + {a.id});
  }

  /** `b` depends on `a`; after removing `a` and adding it back, the sort
      returns `b` before its declared dependency `a`. */
  lemma SmallReAddSortsDependentFirst(a: Task, b: Task)
    requires a.id == "a" && a.dependencies == []
    requires b.id == "b" && b.dependencies == ["a"]
    ensures var d1 := AddTask(EmptyDag(), a);
      var d2 := AddTask(d1.0, b);
      var d4 := AddTask(RemoveTask(d2.0, "a"), a);
      && d1.1.None? && d2.1.None? && d4.1.None?
      && SortIds(d4.0) == Ok(["b", "a"])
  {
    SmallBuild(a, b);
    var d2 := AddTask(AddTask(EmptyDag(), a).0, b).0;
    SmallRemove(d2, b);
    var d3 := RemoveTask(d2, "a");
    SmallReAdd(d3, a);
    ReAddSort(AddTask(d3, a).0);
  }

  /** The two adds succeed and leave a linked graph with the edge `a -> b`. */
  lemma SmallBuild(a: Task, b: Task)
    requires a.id == "a" && a.dependencies == []
    requires b.id == "b" && b.dependencies == ["a"]
    ensures var d1 := AddTask(EmptyDag(), a);
      var d2 := AddTask(d1.0, b);
      && d1.1.None? && d2.1.None?
      && Linked(d2.0) && d2.0.tasks.keys == ["a", "b"] && d2.0.rev.keys == ["b"]
      && Succ(d2.0.adj, "a") == ["b"] && d2.0.tasks.values["b"] == b
  {
    SmallFirstAdd(a);
    var d1 := AddTask(EmptyDag(), a).0;
    SmallSecondAdd(d1, b);
    var d2 := AddTask(d1, b).0;
    EmptyIsFull();
    AddFreshKeepsFull(EmptyDag(), a);
    AddFreshKeepsFull(d1, b);
    FullIsLinked(d2);
  }

  // ---------------------------------------------------------------------------
  // Replace, then remove
  // ---------------------------------------------------------------------------

  /** `add x; add a[x]; add y; add a[y]; remove a`: every add succeeds, but
      the replacing add leaves `a`'s old dependency `x` pointing at `a`, the
      removal unlinks only the new dependency `y`, and then both
      `topological_sort` and `validate` raise `KeyError('a')`. */
  lemma ReplaceThenRemoveRaises(x: Task, a1: Task, y: Task, a2: Task)
    requires x.id == "x" && x.dependencies == [] && a1.id == "a" && a1.dependencies == ["x"]
    requires y.id == "y" && y.dependencies == [] && a2.id == "a" && a2.dependencies == ["y"]
    ensures var d1 := AddTask(EmptyDag(), x);
      var d2 := AddTask(d1.0, a1);
      var d3 := AddTask(d2.0, y);
      var d4 := AddTask(d3.0, a2);
      var d5 := RemoveTask(d4.0, "a");
      && d1.1.None? && d2.1.None? && d3.1.None? && d4.1.None?
      && TopologicalSort(d5) == Err(MissingKey("a"))
      && Validate(d5) == Err(MissingKey("a"))
  {
    StaleBuild(x, a1, y);
    StaleTail(AddTask(AddTask(AddTask(EmptyDag(), x).0, a1).0, y).0, a2);
  }

  /** The first three adds, `x`; `a` on `x`; `y`, succeed and leave a fully
      indexed acyclic graph whose only edge is `x -> a`. */
  lemma StaleBuild(x: Task, a1: Task, y: Task)
    requires x.id == "x" && x.dependencies == [] && a1.id == "a" && a1.dependencies == ["x"]
    requires y.id == "y" && y.dependencies == []
    ensures var d1 := AddTask(EmptyDag(), x);
      var d2 := AddTask(d1.0, a1);
      var d3 := AddTask(d2.0, y);
      && d1.1.None? && d2.1.None? && d3.1.None?
      && Full(d3.0) && !CycleReachable(d3.0.adj, Ids(d3.0))
      && d3.0.tasks.values.Keys == {"x", "a", "y"}
      && d3.0.tasks.values["x"].dependencies == [] && d3.0.tasks.values["y"].dependencies == []
      && Succ(d3.0.adj, "x") == ["a"] && Succ(d3.0.adj, "y") == [] && Succ(d3.0.adj, "a") == []
  {
    StaleFirstTwo(x, a1);
    var d2 := AddTask(AddTask(EmptyDag(), x).0, a1).0;
    StaleThird(d2, x, a1, y);
  }

  /** Then `a` again, on `y`, succeeds; removing `a` leaves a graph on which
      both the sort and `validate` raise `KeyError('a')`. */
  lemma StaleTail(d3: TaskDag, a2: Task)
    requires Full(d3) && !CycleReachable(d3.adj, Ids(d3)) && d3.tasks.values.Keys == {"x", "a", "y"}
    requires d3.tasks.values["x"].dependencies == [] && d3.tasks.values["y"].dependencies == []
    requires Succ(d3.adj, "x") == ["a"] && Succ(d3.adj, "y") == [] && Succ(d3.adj, "a") == []
    requires a2.id == "a" && a2.dependencies == ["y"]
    ensures AddTask(d3, a2).1.None?
    ensures TopologicalSort(RemoveTask(AddTask(d3, a2).0, "a")) == Err(MissingKey("a"))
    ensures Validate(RemoveTask(AddTask(d3, a2).0, "a")) == Err(MissingKey("a"))
  {
    StaleFourth(d3, a2);
    StaleReplace(d3, a2);
    var d4 := AddTask(d3, a2).0;
    StaleRemove(d4);
    StaleSort(RemoveTask(d4, "a"));
  }

  /** `x`, then `a` on `x`: both succeed; the only edge is `x -> a`. */
  lemma StaleFirstTwo(x: Task, a1: Task)
    requires x.id == "x" && x.dependencies == [] && a1.id == "a" && a1.dependencies == ["x"]
    ensures var d1 := AddTask(EmptyDag(), x);
      var d2 := AddTask(d1.0, a1);
      && d1.1.None? && d2.1.None? && Full(d2.0)
      && d2.0.tasks.values == map["x" := x, "a" := a1]
      && Succ(d2.0.adj, "x") == ["a"] && Succ(d2.0.adj, "a") == [] && Succ(d2.0.adj, "y") == []
  {
    var d0 := EmptyDag();
    EmptyIsFull();
    LeafRootsAcyclic(d0.adj, Ids(d0));
    LeafAddSucceeds(d0, x);
    AddFreshKeepsFull(d0, x);
    StageEdges(d0, x);
    var d1 := AddTask(d0, x).0;
    assert forall u :: Succ(d1.adj, u) == [];
    LeafAddSucceeds(d1, a1);
    AddFreshKeepsFull(d1, a1);
    StageEdges(d1, a1);
    var d2 := AddTask(d1, a1).0;
    assert Succ(d2.adj, "x") == [] + Repeat("a", 1);
    assert Succ(d2.adj, "a") == [] + Repeat("a", 0);
    assert Succ(d2.adj, "y") == [] + Repeat("a", 0);
  }

  /** Then `y`: succeeds, adds no edge. */
  lemma StaleThird(d2: TaskDag, x: Task, a1: Task, y: Task)
    requires Full(d2) && !CycleReachable(d2.adj, Ids(d2))
    requires d2.tasks.values == map["x" := x, "a" := a1] && Succ(d2.adj, "y") == []
    requires y.id == "y" && y.dependencies == []
    ensures var d3 := AddTask(d2, y);
      && d3.1.None? && Full(d3.0)
      && d3.0.tasks.values == map["x" := x, "a" := a1, "y" := y]
      && forall u :: Succ(d3.0.adj, u) == Succ(d2.adj, u)
  {
    LeafAddSucceeds(d2, y);
    AddFreshKeepsFull(d2, y);
    StageEdges(d2, y);
  }

  /** Then `a` again, now on `y`: nothing depends on `a`, so it succeeds. */
  lemma StaleFourth(d3: TaskDag, a2: Task)
    requires !CycleReachable(d3.adj, Ids(d3)) && Succ(d3.adj, "a") == []
    requires a2.id == "a" && a2.dependencies == ["y"]
    ensures AddTask(d3, a2).1.None?
  {
    LeafAddSucceeds(d3, a2);
  }

  /** The graph after the replacing add: `a` now declares `y`, yet both `x`
      and `y` list `a` as a dependent, and only `a` has reverse entries. */
  lemma StaleReplace(d3: TaskDag, a2: Task)
    requires Full(d3) && d3.tasks.values.Keys == {"x", "a", "y"}
    requires d3.tasks.values["x"].dependencies == [] && d3.tasks.values["y"].dependencies == []
    requires Succ(d3.adj, "x") == ["a"] && Succ(d3.adj, "y") == [] && Succ(d3.adj, "a") == []
    requires a2.id == "a" && a2.dependencies == ["y"] && AddTask(d3, a2).1.None?
    ensures var d4 := AddTask(d3, a2).0;
      && d4.tasks.values.Keys == {"x", "a", "y"} && d4.tasks.values["a"].dependencies == ["y"]
      && Succ(d4.adj, "x") == ["a"] && Succ(d4.adj, "y") == ["a"] && Succ(d4.adj, "a") == []
      && d4.rev.values.Keys <= {"x", "a", "y"}
      && forall k :: k != "a" ==> RevOf(d4.rev, k) == []
  {
    StaleReplaceTasks(d3, a2);
    StaleReplaceForward(d3, a2);
    StaleReplaceReverse(d3, a2);
  }

  lemma StaleReplaceTasks(d3: TaskDag, a2: Task)
    requires d3.tasks.values.Keys == {"x", "a", "y"}
    requires a2.id == "a" && a2.dependencies == ["y"] && AddTask(d3, a2).1.None?
    ensures var d4 := AddTask(d3, a2).0;
      d4.tasks.values.Keys == {"x", "a", "y"} && d4.tasks.values["a"].dependencies == ["y"]
  {
  }

  lemma StaleReplaceForward(d3: TaskDag, a2: Task)
    requires Succ(d3.adj, "x") == ["a"] && Succ(d3.adj, "y") == [] && Succ(d3.adj, "a") == []
    requires a2.id == "a" && a2.dependencies == ["y"]
    ensures var d4 := Stage(d3, a2);
      Succ(d4.adj, "x") == ["a"] && Succ(d4.adj, "y") == ["a"] && Succ(d4.adj, "a") == []
  {
    var d4 := Stage(d3, a2);
    StageEdges(d3, a2);
    assert Succ(d4.adj, "x") == ["a"] + Repeat("a", 0);
    assert Succ(d4.adj, "y") == [] + Repeat("a", 1);
    assert Succ(d4.adj, "a") == [] + Repeat("a", 0);
  }

  lemma StaleReplaceReverse(d3: TaskDag, a2: Task)
    requires Full(d3) && d3.tasks.values.Keys == {"x", "a", "y"}
    requires d3.tasks.values["x"].dependencies == [] && d3.tasks.values["y"].dependencies == []
    requires a2.id == "a" && a2.dependencies == ["y"]
    ensures var d4 := Stage(d3, a2);
      && d4.rev.values.Keys <= {"x", "a", "y"}
      && forall k :: k != "a" ==> RevOf(d4.rev, k) == []
  {
    StageEdges(d3, a2);
    LinkDepsKeys(d3.adj, d3.rev, a2.id, a2.dependencies);
  }

  /** Removing `a` where `u`'s forward list holds only `a`: it still holds
      only `a`, one copy fewer for each time `a` declares `u`. */
  lemma RemovedOnlyA(d4: TaskDag, u: string)
    requires "a" in d4.tasks.values && u != "a"
    requires forall z :: z in Succ(d4.adj, u) ==> z == "a"
    ensures forall z :: z in Succ(RemoveTask(d4, "a").adj, u) ==> z == "a"
    ensures Count(Succ(RemoveTask(d4, "a").adj, u), "a") ==
      Count(Succ(d4.adj, u), "a") - Min(Count(Succ(d4.adj, u), "a"), Count(d4.tasks.values["a"].dependencies, u))
  {
    forall z | z in Succ(RemoveTask(d4, "a").adj, u) ensures z == "a" {
      assert Count(Succ(RemoveTask(d4, "a").adj, u), z) > 0;
    }
  }

  /** A list holding nothing but `a`, and no `a`, is empty. */
  lemma OnlyAEmpty(s: seq<string>)
    requires forall z :: z in s ==> z == "a"
    requires Count(s, "a") == 0
    ensures s == []
  {
    NoCountsEmpty(s);
  }

  /** Removing `a`: the tasks `x` and `y` remain, no reverse entries, `y`
      without dependents, and `x` still listing `a` and nothing else. */
  lemma StaleRemove(d4: TaskDag)
    requires d4.tasks.values.Keys == {"x", "a", "y"} && d4.tasks.values["a"].dependencies == ["y"]
    requires Succ(d4.adj, "x") == ["a"] && Succ(d4.adj, "y") == ["a"] && Succ(d4.adj, "a") == []
    requires d4.rev.values.Keys <= {"x", "a", "y"}
    requires forall k :: k != "a" ==> RevOf(d4.rev, k) == []
    ensures var d5 := RemoveTask(d4, "a");
      && d5.tasks.values.Keys == {"x", "y"}
      && d5.rev.values.Keys <= {"x", "y"}
      && (forall k :: RevOf(d5.rev, k) == [])
      && "a" in Succ(d5.adj, "x") && (forall z :: z in Succ(d5.adj, "x") ==> z == "a")
      && Succ(d5.adj, "y") == []
  {
    var d5 := RemoveTask(d4, "a");
    RemovedOnlyA(d4, "x");
    RemovedOnlyA(d4, "y");
    OnlyAEmpty(Succ(d5.adj, "y"));
    RemovedReverse(d4);
  }

  /** The reverse side of that removal: nothing is left. */
  lemma RemovedReverse(d4: TaskDag)
    requires "a" in d4.tasks.values && Succ(d4.adj, "a") == []
    requires d4.rev.values.Keys <= {"x", "a", "y"}
    requires forall k :: k != "a" ==> RevOf(d4.rev, k) == []
    ensures var d5 := RemoveTask(d4, "a");
      d5.rev.values.Keys <= {"x", "y"} && forall k :: RevOf(d5.rev, k) == []
  {
    var d5 := RemoveTask(d4, "a");
    RemoveTaskReverse(d4, "a");
    forall k ensures RevOf(d5.rev, k) == [] {
      if k != "a" {
        RemovedReverseAt(d4, k);
      }
    }
  }

  lemma RemovedReverseAt(d4: TaskDag, k: string)
    requires "a" in d4.tasks.values && k != "a" && RevOf(d4.rev, k) == []
    ensures RevOf(RemoveTask(d4, "a").rev, k) == []
  {
    RemoveTaskReverse(d4, "a");
    NoCountsEmpty(RevOf(RemoveTask(d4, "a").rev, k));
  }

  /** What is left has the degrees `x: 0, y: 0`. */
  lemma StaleDegrees(d5: TaskDag)
    requires d5.tasks.values.Keys == {"x", "y"} && d5.rev.values.Keys <= {"x", "y"}
    requires forall k :: RevOf(d5.rev, k) == []
    ensures InitialDegrees(d5) == map["x" := 0, "y" := 0]
  {
    var deg := InitialDegrees(d5);
    assert deg.Keys == {"x", "y"};
  }

  /** A duplicate-free listing of exactly `x` and `y` is one of the two orders. */
  lemma TwoOrders(q: seq<string>)
    requires Distinct(q) && forall k :: k in q <==> k == "x" || k == "y"
    ensures q == ["x", "y"] || q == ["y", "x"]
  {
    DistinctCover(q, {"x", "y"});
    assert q[0] in q && q[1] in q;
  }

  /** On what is left, the loop dequeues `x` first or second; either way
      relaxing its dependents hits `a`, which has no in-degree. */
  lemma StaleSort(d5: TaskDag)
    requires d5.tasks.values.Keys == {"x", "y"} && d5.rev.values.Keys <= {"x", "y"}
    requires forall k :: RevOf(d5.rev, k) == []
    requires "a" in Succ(d5.adj, "x") && (forall z :: z in Succ(d5.adj, "x") ==> z == "a")
    requires Succ(d5.adj, "y") == []
    ensures TopologicalSort(d5) == Err(MissingKey("a")) && Validate(d5) == Err(MissingKey("a"))
  {
    StaleDegrees(d5);
    var deg := InitialDegrees(d5);
    var q := ZeroDegree(DegreeOrder(d5), deg);
    TwoOrders(q);
    InitialInv(d5);
    StaleKahn(d5.tasks, d5.adj, q);
  }

  lemma StaleKahn(tasks: Dict<Task>, adj: Adjacency, q: seq<string>)
    requires tasks.values.Keys == {"x", "y"}
    requires "a" in Succ(adj, "x") && (forall z :: z in Succ(adj, "x") ==> z == "a")
    requires Succ(adj, "y") == []
    requires q == ["x", "y"] || q == ["y", "x"]
    requires KahnInv(tasks, KahnState(map["x" := 0, "y" := 0], q, []))
    ensures Kahn(tasks, adj, KahnState(map["x" := 0, "y" := 0], q, [])) == Err(MissingKey("a"))
  {
    var deg := map["x" := 0, "y" := 0];
    assert Relax(deg, Succ(adj, "x")) == Err(MissingKey("a"));
    if q == ["y", "x"] {
      assert Relax(deg, []) == Ok((deg, []));
      var s1 := KahnState(deg, ["x"], ["y"]);
      assert q[1..] + [] == ["x"] && [] + ["y"] == ["y"];
      assert KahnInv(tasks, s1);
    }
  }
}
