/** Kahn's topological sort and `validate` (src/codex_agent/dag/engine.py:174-209,
    282-309). In-degrees are read from the reverse index, successors from the
    forward index; the two `KeyError`s the loop can raise are `MissingKey`. */
module TopoSort {
  import opened Outcomes
  import opened Seqs
  import opened PyDict
  import opened Models
  import opened CycleCheck
  import opened TaskDag
  import opened DagInvariants

  // ---------------------------------------------------------------------------
  // Initial in-degrees and queue
  // ---------------------------------------------------------------------------

  /** The task ids with no reverse entry, in dict order. */
  function WithoutReverse(keys: seq<string>, rev: Dict<seq<string>>): (r: seq<string>)
    ensures Sublist(r, keys)
    ensures forall k :: k in r <==> k in keys && k !in rev.values
    ensures Distinct(keys) ==> Distinct(r)
  {
    if keys == [] then []
    else
      var rest := WithoutReverse(keys[1..], rev);
      if keys[0] in rev.values then rest
      else
        assert ([keys[0]] + rest)[1..] == rest;
        [keys[0]] + rest
  }

  /** Key order of `in_degree`: the reverse index's keys, then the remaining task ids. */
  function DegreeOrder(dag: TaskDag): (r: seq<string>)
    ensures Distinct(r)
    ensures forall k :: k in r <==> k in dag.rev.values || k in dag.tasks.values
  {
    var extra := WithoutReverse(dag.tasks.keys, dag.rev);
    var r := dag.rev.keys + extra;
    assert forall i, j :: 0 <= i < |dag.rev.keys| <= j < |r| ==> r[i] != r[j] by {
      forall i, j | 0 <= i < |dag.rev.keys| <= j < |r| ensures r[i] != r[j] {
        assert r[j] in extra;
      }
    }
    r
  }

  /** `in_degree`: the length of each reverse list, 0 for a task without one. */
  function InitialDegrees(dag: TaskDag): (m: map<string, int>)
    ensures forall k :: k in m <==> k in dag.rev.values || k in dag.tasks.values
    ensures forall k :: k in m ==> m[k] == |RevOf(dag.rev, k)|
  {
    map k | k in dag.rev.values.Keys + dag.tasks.values.Keys :: |RevOf(dag.rev, k)|
  }

  /** The keys of `order` whose degree is exactly 0, in order. */
  function ZeroDegree(order: seq<string>, deg: map<string, int>): (r: seq<string>)
    requires forall k :: k in order ==> k in deg
    ensures Sublist(r, order)
    ensures forall k :: k in r <==> k in order && deg[k] == 0
    ensures Distinct(order) ==> Distinct(r)
  {
    if order == [] then []
    else
      var rest := ZeroDegree(order[1..], deg);
      if deg[order[0]] == 0 then
        assert ([order[0]] + rest)[1..] == rest;
        [order[0]] + rest
      else rest
  }

  // ---------------------------------------------------------------------------
  // The loop
  // ---------------------------------------------------------------------------

  /** Lines 200-203: decrement each listed dependent (each occurrence) and
      collect, in order, those whose degree hits exactly 0. A dependent
      without a degree is a `KeyError`. */
  function Relax(deg: map<string, int>, dependents: seq<string>): (r: Result<(map<string, int>, seq<string>), DagError>)
    ensures r.Err? <==> exists d :: d in dependents && d !in deg
    ensures r.Err? ==> r.error.MissingKey? && r.error.key in dependents && r.error.key !in deg
    ensures r.Ok? ==> r.value.0.Keys == deg.Keys
  {
    if dependents == [] then Ok((deg, []))
    else
      var d := dependents[0];
      if d !in deg then Err(MissingKey(d))
      else
        var deg1 := deg[d := deg[d] - 1];
        var hit := if deg1[d] == 0 then [d] else [];
        match Relax(deg1, dependents[1..])
        case Err(e) => Err(e)
        case Ok(res) => Ok((res.0, hit + res.1))
  }

  /** Each occurrence of a dependent lowers its degree by one. */
  lemma {:induction false} RelaxDegrees(deg: map<string, int>, dependents: seq<string>, k: string)
    requires Relax(deg, dependents).Ok? && k in deg
    ensures Relax(deg, dependents).value.0[k] == deg[k] - Count(dependents, k)
  {
    if dependents != [] {
      var d := dependents[0];
      var deg1 := deg[d := deg[d] - 1];
      RelaxDegrees(deg1, dependents[1..], k);
      assert dependents == [d] + dependents[1..];
    }
  }

  /** The ids collected are distinct and are exactly those whose degree went
      from positive to at most 0. */
  lemma {:induction false} RelaxQueue(deg: map<string, int>, dependents: seq<string>)
    requires Relax(deg, dependents).Ok?
    ensures var res := Relax(deg, dependents).value;
      && Distinct(res.1)
      && (forall k :: k in res.1 <==> k in deg && deg[k] > 0 && res.0[k] <= 0)
  {
    if dependents != [] {
      var d := dependents[0];
      var deg1 := deg[d := deg[d] - 1];
      var hit := if deg1[d] == 0 then [d] else [];
      RelaxQueue(deg1, dependents[1..]);
      var res := Relax(deg1, dependents[1..]).value;
      assert Relax(deg, dependents).value == (res.0, hit + res.1);
      RelaxDegrees(deg1, dependents[1..], d);
      assert res.0[d] <= deg1[d];
      assert d in res.1 ==> deg1[d] > 0;
      forall k | k in deg && k != d ensures deg1[k] == deg[k] { }
    }
  }

  /** Snapshot of the loop: degrees, the deque, and the ids dequeued so far. */
  datatype KahnState = KahnState(deg: map<string, int>, queue: seq<string>, out: seq<string>)

  /** What the loop keeps: the dequeued and queued ids are distinct degree
      keys; an id has been queued exactly when its degree is at most 0; every
      dequeued id is a task. */
  ghost predicate KahnInv(tasks: Dict<Task>, s: KahnState)
  {
    && Distinct(s.out + s.queue)
    && (forall k :: k in s.out + s.queue ==> k in s.deg)
    && (forall k :: k in s.out ==> k in tasks.values)
    && (forall k :: k in s.deg ==> (k in s.out + s.queue <==> s.deg[k] <= 0))
  }

  lemma KahnStepInv(tasks: Dict<Task>, s: KahnState, id: string, m: map<string, int>, q: seq<string>)
    requires KahnInv(tasks, s)
    requires s.queue != [] && id == s.queue[0] && id in tasks.values
    requires m.Keys == s.deg.Keys
    requires forall k :: k in s.deg ==> m[k] <= s.deg[k]
    requires Distinct(q)
    requires forall k :: k in q <==> k in s.deg && s.deg[k] > 0 && m[k] <= 0
    ensures KahnInv(tasks, KahnState(m, s.queue[1..] + q, s.out + [id]))
  {
    var before := s.out + s.queue;
    var after := (s.out + [id]) + (s.queue[1..] + q);
    assert after == before + q;
    assert forall k :: k in q ==> k !in before;
    forall i, j | 0 <= i < j < |after| ensures after[i] != after[j] {
      if j >= |before| {
        assert after[j] in q;
        if i >= |before| { assert after[i] == q[i - |before|] && after[j] == q[j - |before|]; }
        else { assert after[i] in before; }
      } else {
        assert after[i] == before[i] && after[j] == before[j];
      }
    }
  }

  /** One dequeue keeps the invariant and brings the loop one step nearer its end. */
  lemma KahnAdvance(tasks: Dict<Task>, adj: Adjacency, s: KahnState)
    requires KahnInv(tasks, s)
    requires s.queue != [] && s.queue[0] in tasks.values && Relax(s.deg, Succ(adj, s.queue[0])).Ok?
    ensures var res := Relax(s.deg, Succ(adj, s.queue[0])).value;
      var s' := KahnState(res.0, s.queue[1..] + res.1, s.out + [s.queue[0]]);
      && KahnInv(tasks, s')
      && s'.deg.Keys == s.deg.Keys
      && |s'.out| <= |s.deg.Keys|
  {
    var id := s.queue[0];
    var res := Relax(s.deg, Succ(adj, id)).value;
    forall k | k in s.deg ensures res.0[k] <= s.deg[k] {
      RelaxDegrees(s.deg, Succ(adj, id), k);
    }
    RelaxQueue(s.deg, Succ(adj, id));
    KahnStepInv(tasks, s, id, res.0, res.1);
    DistinctBound(s.out + s.queue, s.deg.Keys);
  }

  /** The loop of lines 196-203, one dequeue per call. */
  function Kahn(tasks: Dict<Task>, adj: Adjacency, s: KahnState): (r: Result<seq<string>, DagError>)
    requires KahnInv(tasks, s)
    ensures r.Ok? ==> Distinct(r.value) && (forall k :: k in r.value ==> k in tasks.values)
    ensures r.Ok? ==> |s.out| <= |r.value| && r.value[..|s.out|] == s.out
    ensures r.Err? ==> r.error.MissingKey?
    decreases |s.deg.Keys| - |s.out|
  {
    if s.queue == [] then
      assert s.out + s.queue == s.out;
      Ok(s.out)
    else
      var id := s.queue[0];
      if id !in tasks.values then Err(MissingKey(id))
      else
        match Relax(s.deg, Succ(adj, id))
        case Err(e) => Err(e)
        case Ok(res) =>
          KahnAdvance(tasks, adj, s);
          var r := Kahn(tasks, adj, KahnState(res.0, s.queue[1..] + res.1, s.out + [id]));
          assert r.Ok? ==> r.value[..|s.out|] == (r.value[..|s.out| + 1])[..|s.out|];
          r
  }

  lemma InitialInv(dag: TaskDag)
    ensures KahnInv(dag.tasks, KahnState(InitialDegrees(dag),
      ZeroDegree(DegreeOrder(dag), InitialDegrees(dag)), []))
  {
    var deg := InitialDegrees(dag);
    var q := ZeroDegree(DegreeOrder(dag), deg);
    assert [] + q == q;
  }

  /** The ids in the order the loop dequeues them, or the `KeyError` it hit. */
  function DequeuedIds(dag: TaskDag): (r: Result<seq<string>, DagError>)
    ensures r.Ok? ==> Distinct(r.value) && (forall k :: k in r.value ==> k in dag.tasks.values)
    ensures r.Ok? ==> |r.value| <= |dag.tasks.values|
    ensures r.Err? ==> r.error.MissingKey?
  {
    var deg := InitialDegrees(dag);
    InitialInv(dag);
    var r := Kahn(dag.tasks, dag.adj, KahnState(deg, ZeroDegree(DegreeOrder(dag), deg), []));
    if r.Ok? then DistinctBound(r.value, dag.tasks.values.Keys); r else r
  }

  /** Distinct task ids as many as the tasks are all of them. */
  lemma CoverAllIds(ids: seq<string>, tasks: Dict<Task>)
    requires Distinct(ids) && (forall k :: k in ids ==> k in tasks.values)
    requires |ids| == |tasks.values|
    ensures forall k :: k in tasks.values ==> k in ids
  {
    if exists k :: k in tasks.values && k !in ids {
      var k :| k in tasks.values && k !in ids;
      DistinctBound(ids, tasks.values.Keys - {k});
      assert false;
    }
  }

  /** `GraphCycle` when fewer ids than tasks come out (line 205). */
  function SortIds(dag: TaskDag): (r: Result<seq<string>, DagError>)
    ensures r.Ok? ==> Distinct(r.value) && (forall k :: k in r.value <==> k in dag.tasks.values)
    ensures r == Err(GraphCycle) <==> DequeuedIds(dag).Ok? && |DequeuedIds(dag).value| < |dag.tasks.values|
  {
    var d := DequeuedIds(dag);
    if d.Err? then Err(d.error)
    else if |d.value| != |dag.tasks.values| then Err(GraphCycle)
    else
      CoverAllIds(d.value, dag.tasks);
      Ok(d.value)
  }

  /** `topological_sort()`: on success every task appears exactly once;
      `DAGCycleError` is raised exactly when the loop finishes having
      dequeued fewer ids than there are tasks. */
  function TopologicalSort(dag: TaskDag): (r: Result<seq<Task>, DagError>)
    ensures r.Ok? ==> |r.value| == |dag.tasks.values|
    ensures r.Ok? ==> forall k :: k in dag.tasks.values ==> dag.tasks.values[k] in r.value
    ensures r.Ok? ==> forall x :: x in r.value ==> x in dag.tasks.values.Values
    ensures r == Err(GraphCycle) <==> DequeuedIds(dag).Ok? && |DequeuedIds(dag).value| < |dag.tasks.values|
    ensures r.Err? <==> SortIds(dag).Err?
  {
    match SortIds(dag)
    case Err(e) => Err(e)
    case Ok(ids) =>
      TasksOfCover(dag.tasks, ids);
      Ok(TasksOf(dag.tasks, ids))
  }

  /** Looking up an ordering of all the ids yields every task, once each. */
  lemma TasksOfCover(tasks: Dict<Task>, ids: seq<string>)
    requires Distinct(ids) && forall k :: k in ids <==> k in tasks.values
    ensures |TasksOf(tasks, ids)| == |tasks.values|
    ensures forall k :: k in tasks.values ==> tasks.values[k] in TasksOf(tasks, ids)
    ensures forall x :: x in TasksOf(tasks, ids) ==> x in tasks.values.Values
  {
    DistinctCover(ids, tasks.values.Keys);
    var r := TasksOf(tasks, ids);
    forall k | k in tasks.values ensures tasks.values[k] in r {
      var i :| 0 <= i < |ids| && ids[i] == k;
      assert r[i] == tasks.values[k];
    }
    forall x | x in r ensures x in tasks.values.Values {
      var i :| 0 <= i < |r| && r[i] == x;
      assert ids[i] in tasks.values;
    }
  }

  // ---------------------------------------------------------------------------
  // Ordering
  // ---------------------------------------------------------------------------

  /** Every id's reverse-index entries all come before it. */
  ghost predicate PredecessorsFirst(rev: Dict<seq<string>>, ids: seq<string>)
  {
    forall i, x :: 0 <= i < |ids| && x in RevOf(rev, ids[i]) ==> x in ids[..i]
  }

  /** Under `Mirror`, a degree is the number of reverse entries not yet dequeued. */
  ghost predicate DegreesCount(rev: Dict<seq<string>>, s: KahnState)
  {
    forall k :: k in s.deg ==> s.deg[k] == CountNotIn(RevOf(rev, k), s.out)
  }

  lemma {:induction false} CountNotInNothing(s: seq<string>)
    ensures CountNotIn(s, []) == |s|
  {
    if s != [] {
      CountNotInNothing(s[1..]);
    }
  }

  /** One dequeue keeps the degree count and the ordering. */
  lemma KahnOrderStep(tasks: Dict<Task>, adj: Adjacency, rev: Dict<seq<string>>, s: KahnState)
    requires Mirror(adj, rev)
    requires KahnInv(tasks, s) && DegreesCount(rev, s) && PredecessorsFirst(rev, s.out)
    requires s.queue != [] && s.queue[0] in tasks.values && Relax(s.deg, Succ(adj, s.queue[0])).Ok?
    ensures var res := Relax(s.deg, Succ(adj, s.queue[0])).value;
      var s' := KahnState(res.0, s.queue[1..] + res.1, s.out + [s.queue[0]]);
      DegreesCount(rev, s') && PredecessorsFirst(rev, s'.out)
  {
    var id := s.queue[0];
    assert id !in s.out by {
      assert (s.out + s.queue)[|s.out|] == id;
      forall i | 0 <= i < |s.out| ensures s.out[i] != id {
        assert (s.out + s.queue)[i] == s.out[i];
      }
    }
    DegreesStep(adj, rev, s.deg, s.out, id);
    assert forall x :: x in RevOf(rev, id) ==> x in s.out by {
      assert id in s.out + s.queue;
      assert CountNotIn(RevOf(rev, id), s.out) == 0;
    }
    OrderStep(rev, s.out, id);
  }

  /** Relaxing the dequeued id's successors keeps each degree equal to the
      number of its reverse entries still to be dequeued. */
  lemma DegreesStep(adj: Adjacency, rev: Dict<seq<string>>, deg: map<string, int>, out: seq<string>, id: string)
    requires Mirror(adj, rev)
    requires forall k :: k in deg ==> deg[k] == CountNotIn(RevOf(rev, k), out)
    requires id !in out && Relax(deg, Succ(adj, id)).Ok?
    ensures var m := Relax(deg, Succ(adj, id)).value.0;
      forall k :: k in m ==> m[k] == CountNotIn(RevOf(rev, k), out + [id])
  {
    var m := Relax(deg, Succ(adj, id)).value.0;
    forall k | k in m ensures m[k] == CountNotIn(RevOf(rev, k), out + [id]) {
      RelaxDegrees(deg, Succ(adj, id), k);
      assert Count(Succ(adj, id), k) == Count(RevOf(rev, k), id);
      CountNotInExtend(RevOf(rev, k), out, id);
    }
  }

  /** Appending an id whose reverse entries are all out keeps the ordering. */
  lemma OrderStep(rev: Dict<seq<string>>, out: seq<string>, id: string)
    requires PredecessorsFirst(rev, out)
    requires forall x :: x in RevOf(rev, id) ==> x in out
    ensures PredecessorsFirst(rev, out + [id])
  {
    var out' := out + [id];
    forall i, x | 0 <= i < |out'| && x in RevOf(rev, out'[i]) ensures x in out'[..i] {
      if i < |out| {
        assert out'[i] == out[i] && out'[..i] == out[..i];
      } else {
        assert out'[..i] == out;
      }
    }
  }

  lemma {:induction false} KahnOrder(tasks: Dict<Task>, adj: Adjacency, rev: Dict<seq<string>>, s: KahnState)
    requires Mirror(adj, rev)
    requires KahnInv(tasks, s) && DegreesCount(rev, s) && PredecessorsFirst(rev, s.out)
    ensures Kahn(tasks, adj, s).Ok? ==> PredecessorsFirst(rev, Kahn(tasks, adj, s).value)
    decreases |s.deg.Keys| - |s.out|
  {
    if s.queue != [] && s.queue[0] in tasks.values && Relax(s.deg, Succ(adj, s.queue[0])).Ok? {
      var id := s.queue[0];
      var res := Relax(s.deg, Succ(adj, id)).value;
      var s' := KahnState(res.0, s.queue[1..] + res.1, s.out + [id]);
      KahnAdvance(tasks, adj, s);
      KahnOrderStep(tasks, adj, rev, s);
      KahnOrder(tasks, adj, rev, s');
    }
  }

  /** Whenever the sort succeeds on a graph whose indexes mirror each other,
      every reverse-index entry of an id is dequeued before that id. */
  lemma SortRespectsEdges(dag: TaskDag)
    requires Mirror(dag.adj, dag.rev)
    ensures SortIds(dag).Ok? ==> PredecessorsFirst(dag.rev, SortIds(dag).value)
  {
    var deg := InitialDegrees(dag);
    var s := KahnState(deg, ZeroDegree(DegreeOrder(dag), deg), []);
    InitialInv(dag);
    forall k | k in deg ensures deg[k] == CountNotIn(RevOf(dag.rev, k), []) {
      CountNotInNothing(RevOf(dag.rev, k));
    }
    KahnOrder(dag.tasks, dag.adj, dag.rev, s);
  }

  /** With mirrored indexes and every reverse key a task, neither `KeyError`
      can happen: each dequeued id is a task and each dependent has a degree. */
  lemma {:induction false} KahnNoKeyError(tasks: Dict<Task>, adj: Adjacency, rev: Dict<seq<string>>, s: KahnState)
    requires Mirror(adj, rev)
    requires KahnInv(tasks, s)
    requires forall k :: k in s.deg ==> k in tasks.values
    requires forall k :: k in rev.values ==> k in s.deg
    ensures Kahn(tasks, adj, s).Ok?
    decreases |s.deg.Keys| - |s.out|
  {
    if s.queue != [] {
      var id := s.queue[0];
      assert id in s.out + s.queue;
      assert Relax(s.deg, Succ(adj, id)).Ok? by {
        forall d | d in Succ(adj, id) ensures d in s.deg {
          assert Count(Succ(adj, id), d) == Count(RevOf(rev, d), id);
        }
      }
      var res := Relax(s.deg, Succ(adj, id)).value;
      KahnAdvance(tasks, adj, s);
      KahnNoKeyError(tasks, adj, rev, KahnState(res.0, s.queue[1..] + res.1, s.out + [id]));
    }
  }

  /** The only failure left on such a graph is `DAGCycleError`. */
  lemma SortFailsOnlyByCycle(dag: TaskDag)
    requires Mirror(dag.adj, dag.rev)
    requires dag.rev.values.Keys <= dag.tasks.values.Keys
    ensures DequeuedIds(dag).Ok?
    ensures TopologicalSort(dag).Err? ==> TopologicalSort(dag) == Err(GraphCycle)
  {
    var deg := InitialDegrees(dag);
    InitialInv(dag);
    KahnNoKeyError(dag.tasks, dag.adj, dag.rev, KahnState(deg, ZeroDegree(DegreeOrder(dag), deg), []));
  }

  // ---------------------------------------------------------------------------
  // The cycle error and cycles
  // ---------------------------------------------------------------------------

  /** An edge whose ends both appear in an ordering that puts reverse-index
      entries first goes strictly forward in it. */
  lemma EdgeForward(rev: Dict<seq<string>>, ids: seq<string>, u: string, w: string)
    requires PredecessorsFirst(rev, ids)
    requires u in ids && w in ids && u in RevOf(rev, w)
    ensures FirstIndex(ids, u) < FirstIndex(ids, w)
  {
    var iw := FirstIndex(ids, w);
    assert u in ids[..iw];
    var m :| 0 <= m < iw && ids[m] == u;
  }

  /** Along a path whose nodes all appear in such an ordering, positions
      strictly increase. */
  lemma {:induction false} PathForward(adj: Adjacency, rev: Dict<seq<string>>, ids: seq<string>,
                                       p: seq<string>, i: nat, j: nat)
    requires Mirror(adj, rev) && PredecessorsFirst(rev, ids)
    requires IsPath(adj, p) && forall k :: 0 <= k < |p| ==> p[k] in ids
    requires i < j < |p|
    ensures FirstIndex(ids, p[i]) < FirstIndex(ids, p[j])
    decreases j - i
  {
    assert p[j] in Succ(adj, p[j - 1]);
    assert Count(Succ(adj, p[j - 1]), p[j]) == Count(RevOf(rev, p[j]), p[j - 1]);
    EdgeForward(rev, ids, p[j - 1], p[j]);
    if i < j - 1 {
      PathForward(adj, rev, ids, p, i, j - 1);
    }
  }

  /** With mirrored indexes, every node a path from a task reaches is a task. */
  lemma PathThroughTasks(dag: TaskDag, p: seq<string>)
    requires Mirror(dag.adj, dag.rev) && ReverseKeysAreTasks(dag)
    requires IsPath(dag.adj, p) && p[0] in dag.tasks.values
    ensures forall k :: 0 <= k < |p| ==> p[k] in dag.tasks.values
  {
    forall k | 1 <= k < |p| ensures p[k] in dag.tasks.values {
      assert p[k] in Succ(dag.adj, p[k - 1]);
      assert Count(Succ(dag.adj, p[k - 1]), p[k]) == Count(RevOf(dag.rev, p[k]), p[k - 1]);
    }
  }

  /** An ordering of all the tasks in which every reverse-index entry comes
      first rules out a cycle reachable from a task. */
  lemma OrderedMeansAcyclic(dag: TaskDag, ids: seq<string>)
    requires Mirror(dag.adj, dag.rev) && ReverseKeysAreTasks(dag)
    requires PredecessorsFirst(dag.rev, ids) && forall k :: k in dag.tasks.values ==> k in ids
    ensures !CycleReachable(dag.adj, Ids(dag))
  {
    if CycleReachable(dag.adj, Ids(dag)) {
      var p, j :| Lasso(dag.adj, Ids(dag), p, j);
      PathThroughTasks(dag, p);
      PathForward(dag.adj, dag.rev, ids, p, j, |p| - 1);
    }
  }

  /** A cycle reachable from a task makes the sort raise `DAGCycleError`. */
  lemma CycleBreaksSort(dag: TaskDag)
    requires Mirror(dag.adj, dag.rev) && ReverseKeysAreTasks(dag)
    requires CycleReachable(dag.adj, Ids(dag))
    ensures TopologicalSort(dag) == Err(GraphCycle)
  {
    SortFailsOnlyByCycle(dag);
    SortRespectsEdges(dag);
    if SortIds(dag).Ok? {
      OrderedMeansAcyclic(dag, SortIds(dag).value);
    }
  }

  /** Every declared dependency is a task. */
  ghost predicate DependenciesPresent(dag: TaskDag)
  {
    forall k, d :: k in dag.tasks.values && d in dag.tasks.values[k].dependencies ==> d in dag.tasks.values
  }

  /** When the loop stops, every degree key it did not dequeue still has a
      reverse entry that it did not dequeue. */
  lemma {:induction false} KahnLeavesBlocked(tasks: Dict<Task>, adj: Adjacency, rev: Dict<seq<string>>, s: KahnState)
    requires Mirror(adj, rev)
    requires KahnInv(tasks, s) && DegreesCount(rev, s) && PredecessorsFirst(rev, s.out)
    ensures Kahn(tasks, adj, s).Ok? ==> forall k :: k in s.deg && k !in Kahn(tasks, adj, s).value ==>
      CountNotIn(RevOf(rev, k), Kahn(tasks, adj, s).value) > 0
    decreases |s.deg.Keys| - |s.out|
  {
    if s.queue == [] {
      forall k | k in s.deg && k !in s.out ensures CountNotIn(RevOf(rev, k), s.out) > 0 {
        assert k !in s.out + s.queue;
      }
    } else if s.queue[0] in tasks.values && Relax(s.deg, Succ(adj, s.queue[0])).Ok? {
      var id := s.queue[0];
      var res := Relax(s.deg, Succ(adj, id)).value;
      var s' := KahnState(res.0, s.queue[1..] + res.1, s.out + [id]);
      KahnAdvance(tasks, adj, s);
      KahnOrderStep(tasks, adj, rev, s);
      KahnLeavesBlocked(tasks, adj, rev, s');
    }
  }

  /** What an undequeued task of a fully indexed graph whose dependencies
      are all tasks waits on: an undequeued task with an edge to it. */
  ghost function Blocker(dag: TaskDag, out: seq<string>, k: string): (x: string)
    requires Full(dag) && DependenciesPresent(dag)
    requires k in dag.tasks.values && CountNotIn(RevOf(dag.rev, k), out) > 0
    ensures x in dag.tasks.values && x !in out && k in Succ(dag.adj, x)
  {
    var x :| x in RevOf(dag.rev, k) && x !in out;
    assert Count(Succ(dag.adj, x), k) == Count(RevOf(dag.rev, k), x);
    x
  }

  /** The tasks not in `out`. */
  ghost function Stuck(dag: TaskDag, out: seq<string>): set<string>
  {
    set y | y in dag.tasks.values && y !in out
  }

  /** For each task left out of `out`, the left-out task it waits on. */
  ghost function Blockers(dag: TaskDag, out: seq<string>): (pred: map<string, string>)
    requires Full(dag) && DependenciesPresent(dag)
    requires forall y :: y in Stuck(dag, out) ==> CountNotIn(RevOf(dag.rev, y), out) > 0
    ensures PredecessorMap(dag.adj, Stuck(dag, out), pred)
  {
    map y | y in Stuck(dag, out) :: Blocker(dag, out, y)
  }

  /** If some task is left out of `out` and each left-out task still has a
      reverse entry outside `out`, a cycle is reachable from the tasks. */
  lemma StuckTasksCycle(dag: TaskDag, out: seq<string>, k: string)
    requires Full(dag) && DependenciesPresent(dag)
    requires forall y :: y in Stuck(dag, out) ==> CountNotIn(RevOf(dag.rev, y), out) > 0
    requires k in Stuck(dag, out)
    ensures CycleReachable(dag.adj, Ids(dag))
  {
    BackwardClosedCycle(dag.adj, Stuck(dag, out), Blockers(dag, out), Ids(dag));
  }

  /** With mirrored indexes, every task the loop leaves out still has a
      reverse entry that it left out. */
  lemma SortLeavesBlocked(dag: TaskDag)
    requires Mirror(dag.adj, dag.rev)
    ensures DequeuedIds(dag).Ok? ==> forall y :: y in Stuck(dag, DequeuedIds(dag).value) ==>
      CountNotIn(RevOf(dag.rev, y), DequeuedIds(dag).value) > 0
  {
    var deg := InitialDegrees(dag);
    var s := KahnState(deg, ZeroDegree(DegreeOrder(dag), deg), []);
    InitialInv(dag);
    forall k | k in deg ensures deg[k] == CountNotIn(RevOf(dag.rev, k), []) {
      CountNotInNothing(RevOf(dag.rev, k));
    }
    KahnLeavesBlocked(dag.tasks, dag.adj, dag.rev, s);
  }

  /** A fully indexed graph whose dependencies are all tasks and from whose
      tasks no cycle is reachable sorts successfully: if the loop stopped
      early, the tasks left over would each wait on another, and following
      those waits back would close a cycle. */
  lemma AcyclicSorts(dag: TaskDag)
    requires Full(dag) && DependenciesPresent(dag) && !CycleReachable(dag.adj, Ids(dag))
    ensures TopologicalSort(dag).Ok?
  {
    SortFailsOnlyByCycle(dag);
    SortLeavesBlocked(dag);
    var out := DequeuedIds(dag).value;
    if forall y :: y in dag.tasks.values ==> y in out {
      CoverBound(out, dag.tasks.values.Keys);
    } else {
      var k :| k in dag.tasks.values && k !in out;
      assert k in Stuck(dag, out);
      StuckTasksCycle(dag, out, k);
    }
  }

  /** On a fully indexed graph whose dependencies are all tasks, the sort
      raises `DAGCycleError` exactly when a cycle is reachable from a task,
      and otherwise succeeds. */
  lemma SortFailsIffCycle(dag: TaskDag)
    requires Full(dag) && DependenciesPresent(dag)
    ensures TopologicalSort(dag) == Err(GraphCycle) <==> CycleReachable(dag.adj, Ids(dag))
    ensures TopologicalSort(dag).Ok? <==> !CycleReachable(dag.adj, Ids(dag))
  {
    if CycleReachable(dag.adj, Ids(dag)) {
      CycleBreaksSort(dag);
    } else {
      AcyclicSorts(dag);
    }
  }

  /** A reverse-index entry naming an id that is not a task can never be
      dequeued, so its dependent never is either, and the sort reports a
      cycle although there is none. */
  lemma DanglingEntryBreaksSort(dag: TaskDag, k: string, d: string)
    requires Mirror(dag.adj, dag.rev)
    requires dag.rev.values.Keys <= dag.tasks.values.Keys
    requires k in dag.tasks.values && d in RevOf(dag.rev, k) && d !in dag.tasks.values
    ensures TopologicalSort(dag) == Err(GraphCycle)
  {
    SortFailsOnlyByCycle(dag);
    SortRespectsEdges(dag);
  }

  // ---------------------------------------------------------------------------
  // validate
  // ---------------------------------------------------------------------------

  datatype ValidationIssue =
    | CycleIssue                                        // "DAG contains a cycle"
    | MissingDependency(taskId: string, depId: string)  // "Task .. depends on non-existent task .."
    | Unreachable                                       // "Some tasks are unreachable"

  /** One message per declared dependency (each occurrence) that is not a task. */
  function DanglingOf(tasks: Dict<Task>, t: Task, deps: seq<string>): (r: seq<ValidationIssue>)
    ensures forall a, d :: MissingDependency(a, d) in r <==> a == t.id && d in deps && d !in tasks.values
    ensures forall d :: Count(r, MissingDependency(t.id, d)) == if d in tasks.values then 0 else Count(deps, d)
    ensures CycleIssue !in r && Unreachable !in r
  {
    if deps == [] then []
    else
      var rest := DanglingOf(tasks, t, deps[1..]);
      if deps[0] in tasks.values then rest
      else
        assert ([MissingDependency(t.id, deps[0])] + rest)[1..] == rest;
        [MissingDependency(t.id, deps[0])] + rest
  }

  /** How many times the tasks under `keys` whose id is `a` declare `d`. */
  function DeclaredCount(tasks: Dict<Task>, keys: seq<string>, a: string, d: string): nat
    requires forall k :: k in keys ==> k in tasks.values
  {
    if keys == [] then 0
    else
      (if tasks.values[keys[0]].id == a then Count(tasks.values[keys[0]].dependencies, d) else 0)
        + DeclaredCount(tasks, keys[1..], a, d)
  }

  /** Lines 296-299, tasks in dict order. */
  function MissingDependencies(tasks: Dict<Task>, keys: seq<string>): (r: seq<ValidationIssue>)
    requires forall k :: k in keys ==> k in tasks.values
    ensures forall a, d :: MissingDependency(a, d) in r <==>
      exists k :: k in keys && tasks.values[k].id == a && d in tasks.values[k].dependencies && d !in tasks.values
    ensures CycleIssue !in r && Unreachable !in r
  {
    if keys == [] then []
    else
      var t := tasks.values[keys[0]];
      DanglingOf(tasks, t, t.dependencies) + MissingDependencies(tasks, keys[1..])
  }

  /** One message per declaration: the pair `(a, d)` is reported as often as
      the tasks with id `a` declare the missing `d`, and never for a task. */
  lemma {:induction false} MissingDependenciesCount(tasks: Dict<Task>, keys: seq<string>, a: string, d: string)
    requires forall k :: k in keys ==> k in tasks.values
    ensures Count(MissingDependencies(tasks, keys), MissingDependency(a, d)) ==
      (if d in tasks.values then 0 else DeclaredCount(tasks, keys, a, d))
    decreases |keys|
  {
    if keys != [] {
      var t := tasks.values[keys[0]];
      CountAppend(DanglingOf(tasks, t, t.dependencies), MissingDependencies(tasks, keys[1..]), MissingDependency(a, d));
      MissingDependenciesCount(tasks, keys[1..], a, d);
    }
  }

  /** Lines 292-293: the cycle message iff a cycle is reachable from a task. */
  function CycleIssues(dag: TaskDag): (r: seq<ValidationIssue>)
    ensures CycleIssue in r <==> CycleReachable(dag.adj, Ids(dag))
    ensures Unreachable !in r && forall a, d :: MissingDependency(a, d) !in r
  {
    HasCycleCorrect(dag.adj, dag.tasks.keys);
    KeysAreIds(dag);
    if HasCycle(dag.adj, dag.tasks.keys) then [CycleIssue] else []
  }

  /** Lines 296-299 over the whole task map. */
  function DanglingIssues(dag: TaskDag): (r: seq<ValidationIssue>)
    ensures forall a, d :: MissingDependency(a, d) in r <==>
      exists k :: k in dag.tasks.values && dag.tasks.values[k].id == a
        && d in dag.tasks.values[k].dependencies && d !in dag.tasks.values
    ensures CycleIssue !in r && Unreachable !in r
  {
    MissingDependencies(dag.tasks, dag.tasks.keys)
  }

  /** `validate()`: a cycle message iff a cycle is reachable from a task, one
      message per dangling declaration, and never the "unreachable" message,
      because a successful sort always returns every task. A `KeyError` from
      the sort is not caught and escapes. */
  function Validate(dag: TaskDag): (r: Result<seq<ValidationIssue>, DagError>)
    ensures r.Err? <==> TopologicalSort(dag).Err? && TopologicalSort(dag) != Err(GraphCycle)
    ensures r.Err? ==> r.error == TopologicalSort(dag).error
    ensures r.Ok? ==> Unreachable !in r.value
    ensures r.Ok? ==> (CycleIssue in r.value <==> CycleReachable(dag.adj, Ids(dag)))
    ensures r.Ok? ==> forall a, d :: MissingDependency(a, d) in r.value <==>
      exists k :: k in dag.tasks.values && dag.tasks.values[k].id == a
        && d in dag.tasks.values[k].dependencies && d !in dag.tasks.values
  {
    var issues := CycleIssues(dag) + DanglingIssues(dag);
    match TopologicalSort(dag)
    case Ok(sorted) =>
      Ok(issues + (if |sorted| != |dag.tasks.values| then [Unreachable] else []))
    case Err(e) =>
      if e == GraphCycle then Ok(issues) else Err(e)
  }

  /** `validate` reports each missing dependency once per declaration: the
      pair `(a, d)` as often as the tasks with id `a` declare the missing `d`. */
  lemma ValidateDanglingCount(dag: TaskDag, a: string, d: string)
    requires Validate(dag).Ok?
    ensures Count(Validate(dag).value, MissingDependency(a, d)) ==
      (if d in dag.tasks.values then 0 else DeclaredCount(dag.tasks, dag.tasks.keys, a, d))
  {
    var x := MissingDependency(a, d);
    ValidateIssues(dag);
    MissingDependenciesCount(dag.tasks, dag.tasks.keys, a, d);
    CountAppend(CycleIssues(dag), DanglingIssues(dag), x);
    assert x !in CycleIssues(dag);
  }

  /** A successful `validate` returns the cycle messages, then the
      missing-dependency messages, and nothing more. */
  lemma ValidateIssues(dag: TaskDag)
    requires Validate(dag).Ok?
    ensures Validate(dag).value == CycleIssues(dag) + DanglingIssues(dag)
  {
    var issues := CycleIssues(dag) + DanglingIssues(dag);
    match TopologicalSort(dag)
    case Ok(sorted) =>
      assert |sorted| == |dag.tasks.values|;
      assert Validate(dag) == Ok(issues + []);
      assert issues + [] == issues;
    case Err(e) =>
      assert e == GraphCycle;
      assert Validate(dag) == Ok(issues);
  }
}
