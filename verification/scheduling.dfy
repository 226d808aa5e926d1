/** The scheduler's queries over the task map: the ready list and its
    (priority, created_at) ordering, the next task, the blocked-task pass,
    progress counts and completion (src/codex_agent/dag/engine.py:104-172,
    255-280). Eligibility depends on the task map only; ordering is the
    separate sort policy. */
module Scheduling {
  import opened Outcomes
  import opened Seqs
  import opened PyDict
  import opened Models
  import opened TaskDag

  // ---------------------------------------------------------------------------
  // Ready list
  // ---------------------------------------------------------------------------

  /** Every declared dependency that is in the map is completed; an unknown
      id counts as satisfied. */
  predicate DepsCompleted(tasks: Dict<Task>, t: Task)
  {
    forall d :: d in t.dependencies && d in tasks.values ==> tasks.values[d].status == Completed
  }

  predicate IsReady(tasks: Dict<Task>, t: Task)
  {
    t.status == Pending && DepsCompleted(tasks, t)
  }

  /** The ids whose task is ready, in the given (dict) order. */
  function ReadyIds(tasks: Dict<Task>, keys: seq<string>): (r: seq<string>)
    requires forall k :: k in keys ==> k in tasks.values
    ensures forall k :: k in r <==> k in keys && IsReady(tasks, tasks.values[k])
    ensures Distinct(keys) ==> Distinct(r)
  {
    if keys == [] then []
    else
      var rest := ReadyIds(tasks, keys[1..]);
      if IsReady(tasks, tasks.values[keys[0]]) then [keys[0]] + rest else rest
  }

  /** The sort key `(priority, created_at)`, compared lexicographically. */
  predicate KeyLe(a: Task, b: Task)
  {
    a.priority < b.priority || (a.priority == b.priority && a.createdAt <= b.createdAt)
  }

  ghost predicate SortedByKey(s: seq<Task>)
  {
    forall i, j :: 0 <= i < j < |s| ==> KeyLe(s[i], s[j])
  }

  /** Inserts `x` after every element whose key is not greater, so equal keys
      keep their arrival order (Python's sort is stable). */
  function Insert(s: seq<Task>, x: Task): (r: seq<Task>)
    ensures multiset(r) == multiset(s) + multiset{x}
  {
    if s == [] then [x]
    else if !KeyLe(s[0], x) then [x] + s
    else
      assert s == [s[0]] + s[1..];
      [s[0]] + Insert(s[1..], x)
  }

  lemma {:induction false} InsertSorted(s: seq<Task>, x: Task)
    requires SortedByKey(s)
    ensures SortedByKey(Insert(s, x))
  {
    if s == [] {
    } else if !KeyLe(s[0], x) {
      var r := [x] + s;
      forall i, j | 0 <= i < j < |r| ensures KeyLe(r[i], r[j]) {
        if i > 0 { assert r[i] == s[i - 1] && r[j] == s[j - 1]; }
        else { assert KeyLe(s[0], s[j - 1]) || j == 1; }
      }
    } else {
      assert SortedByKey(s[1..]);
      InsertSorted(s[1..], x);
      var rest := Insert(s[1..], x);
      var r := [s[0]] + rest;
      forall y | y in rest ensures KeyLe(s[0], y) {
        assert y in multiset(rest);
        if y != x {
          assert y in multiset(s[1..]);
          var j :| 0 <= j < |s[1..]| && s[1..][j] == y;
          assert s[j + 1] == y;
        }
      }
      forall i, j | 0 <= i < j < |r| ensures KeyLe(r[i], r[j]) {
        if i > 0 { assert r[i] == rest[i - 1] && r[j] == rest[j - 1]; }
        else { assert rest[j - 1] in rest; }
      }
    }
  }

  /** `list.sort(key=lambda t: (t.priority, t.created_at))`, as a stable
      insertion sort. */
  function SortByKey(s: seq<Task>): (r: seq<Task>)
    ensures multiset(r) == multiset(s)
    ensures SortedByKey(r)
  {
    if s == [] then []
    else
      assert s == s[..|s| - 1] + [s[|s| - 1]];
      var sorted := SortByKey(s[..|s| - 1]);
      InsertSorted(sorted, s[|s| - 1]);
      Insert(sorted, s[|s| - 1])
  }

  /** A task is among the candidates iff it is the ready task of some id. */
  lemma CandidatesAreReadyTasks(tasks: Dict<Task>, x: Task)
    ensures var cands := TasksOf(tasks, ReadyIds(tasks, tasks.keys));
      x in cands <==> exists k :: k in tasks.values && tasks.values[k] == x && IsReady(tasks, x)
  {
    var ids := ReadyIds(tasks, tasks.keys);
    var cands := TasksOf(tasks, ids);
    if x in cands {
      var i :| 0 <= i < |cands| && cands[i] == x;
      assert ids[i] in ids;
    }
    if exists k :: k in tasks.values && tasks.values[k] == x && IsReady(tasks, x) {
      var k :| k in tasks.values && tasks.values[k] == x && IsReady(tasks, x);
      assert k in ids;
      var i :| 0 <= i < |ids| && ids[i] == k;
      assert cands[i] == x;
    }
  }

  lemma SameMultisetSameMembers(a: seq<Task>, b: seq<Task>, x: Task)
    requires multiset(a) == multiset(b)
    ensures x in a <==> x in b
  {
    assert x in a <==> x in multiset(a);
    assert x in b <==> x in multiset(b);
  }

  /** `get_ready_tasks()`: the pending tasks whose in-map dependencies are all
      completed, sorted by (priority, created_at). */
  function GetReadyTasks(dag: TaskDag): (r: seq<Task>)
    ensures SortedByKey(r)
    ensures forall x :: x in r <==>
      exists k :: k in dag.tasks.values && dag.tasks.values[k] == x && IsReady(dag.tasks, x)
    ensures multiset(r) == multiset(TasksOf(dag.tasks, ReadyIds(dag.tasks, dag.tasks.keys)))
  {
    var cands := TasksOf(dag.tasks, ReadyIds(dag.tasks, dag.tasks.keys));
    var r := SortByKey(cands);
    assert forall x :: x in r <==>
      exists k :: k in dag.tasks.values && dag.tasks.values[k] == x && IsReady(dag.tasks, x) by {
      forall x ensures x in r <==>
        exists k :: k in dag.tasks.values && dag.tasks.values[k] == x && IsReady(dag.tasks, x) {
        SameMultisetSameMembers(r, cands, x);
        CandidatesAreReadyTasks(dag.tasks, x);
      }
    }
    r
  }

  /** `get_next_task()`: the head of the ready list, or None when it is empty. */
  function GetNextTask(dag: TaskDag): (r: Option<Task>)
    ensures r.None? <==> GetReadyTasks(dag) == []
    ensures r.Some? ==> r.value in dag.tasks.values.Values && IsReady(dag.tasks, r.value)
    ensures r.Some? ==> forall x :: x in GetReadyTasks(dag) ==> KeyLe(r.value, x)
  {
    var ready := GetReadyTasks(dag);
    if ready == [] then None
    else
      assert ready[0] in ready;
      assert forall x :: x in ready ==> KeyLe(ready[0], x) by {
        forall x | x in ready ensures KeyLe(ready[0], x) {
          var i :| 0 <= i < |ready| && ready[i] == x;
          if i > 0 { assert KeyLe(ready[0], ready[i]); } else { assert KeyLe(x, x); }
        }
      }
      Some(ready[0])
  }

  // ---------------------------------------------------------------------------
  // Blocked pass
  // ---------------------------------------------------------------------------

  predicate IsTerminalStatus(s: TaskStatus)
  {
    s == Completed || s == TaskStatus.Failed || s == Skipped
  }

  /** Some declared dependency is in the map and failed. */
  predicate HasFailedDep(tasks: Dict<Task>, t: Task)
  {
    exists d :: d in t.dependencies && d in tasks.values && tasks.values[d].status == TaskStatus.Failed
  }

  predicate ShouldBlock(tasks: Dict<Task>, t: Task)
  {
    !IsTerminalStatus(t.status) && HasFailedDep(tasks, t)
  }

  /** The loop of `get_blocked_tasks` over the remaining ids: each test reads
      the map as updated by the earlier iterations. */
  function BlockPass(tasks: Dict<Task>, keys: seq<string>): (r: (Dict<Task>, seq<Task>))
    requires forall k :: k in keys ==> k in tasks.values
    ensures r.0.keys == tasks.keys && r.0.values.Keys == tasks.values.Keys
    decreases |keys|
  {
    if keys == [] then (tasks, [])
    else
      var t := tasks.values[keys[0]];
      if ShouldBlock(tasks, t) then
        var t' := t.(status := Blocked);
        var rest := BlockPass(Put(tasks, keys[0], t'), keys[1..]);
        (rest.0, [t'] + rest.1)
      else BlockPass(tasks, keys[1..])
  }

  /** What the pass leaves at id `k`, judged against the snapshot `orig`. */
  function BlockedVersion(orig: Dict<Task>, k: string): Task
    requires k in orig.values
  {
    var t := orig.values[k];
    if ShouldBlock(orig, t) then t.(status := Blocked) else t
  }

  /** The two maps agree on which ids are failed. */
  ghost predicate SameFailures(a: Dict<Task>, b: Dict<Task>)
  {
    && a.values.Keys == b.values.Keys
    && forall k :: k in a.values ==> (a.values[k].status == TaskStatus.Failed <==> b.values[k].status == TaskStatus.Failed)
  }

  lemma SameFailuresSameVerdict(a: Dict<Task>, b: Dict<Task>, t: Task)
    requires SameFailures(a, b)
    ensures HasFailedDep(a, t) <==> HasFailedDep(b, t)
  {
  }

  /** The blocked pass equals one computed against the map as it was before
      the call: marking a task blocked never changes which tasks are failed. */
  /** Marking a non-failed task blocked keeps the failed set. */
  lemma MarkKeepsFailures(orig: Dict<Task>, tasks: Dict<Task>, k: string)
    requires SameFailures(orig, tasks)
    requires k in tasks.values && tasks.values[k].status != TaskStatus.Failed
    ensures SameFailures(orig, Put(tasks, k, tasks.values[k].(status := Blocked)))
  {
  }

  lemma {:induction false} BlockPassSnapshot(orig: Dict<Task>, tasks: Dict<Task>, keys: seq<string>)
    requires forall k :: k in keys ==> k in tasks.values
    requires Distinct(keys)
    requires SameFailures(orig, tasks)
    requires forall k :: k in keys ==> tasks.values[k] == orig.values[k]
    ensures forall k :: k in keys ==> BlockPass(tasks, keys).0.values[k] == BlockedVersion(orig, k)
    ensures forall k :: k in tasks.values && k !in keys ==> BlockPass(tasks, keys).0.values[k] == tasks.values[k]
    ensures BlockPass(tasks, keys).1 == BlockedList(orig, keys)
    decreases |keys|
  {
    if keys != [] {
      var k0 := keys[0];
      var rest := keys[1..];
      assert keys == [k0] + rest;
      var t := tasks.values[k0];
      SameFailuresSameVerdict(orig, tasks, t);
      assert Distinct(rest) && k0 !in rest by {
        DistinctCut(keys, 0);
      }
      if ShouldBlock(tasks, t) {
        var next := Put(tasks, k0, t.(status := Blocked));
        MarkKeepsFailures(orig, tasks, k0);
        assert forall k :: k in rest ==> next.values[k] == orig.values[k];
        BlockPassSnapshot(orig, next, rest);
        assert BlockPass(tasks, keys) == (BlockPass(next, rest).0, [t.(status := Blocked)] + BlockPass(next, rest).1);
      } else {
        BlockPassSnapshot(orig, tasks, rest);
        assert BlockPass(tasks, keys) == BlockPass(tasks, rest);
      }
    }
  }

  /** Reference: the blocked tasks of the snapshot, in dict order, already marked. */
  function BlockedList(orig: Dict<Task>, keys: seq<string>): (r: seq<Task>)
    requires forall k :: k in keys ==> k in orig.values
    ensures forall x :: x in r ==> x.status == Blocked
    ensures forall x :: x in r <==> exists k :: k in keys && ShouldBlock(orig, orig.values[k])
                                      && x == orig.values[k].(status := Blocked)
  {
    if keys == [] then []
    else
      var rest := BlockedList(orig, keys[1..]);
      var t := orig.values[keys[0]];
      if ShouldBlock(orig, t) then [t.(status := Blocked)] + rest else rest
  }

  /** `get_blocked_tasks()`: a mutating read. Every non-terminal task with a
      failed in-map dependency is set to BLOCKED and returned; every other
      task keeps its status; the indexes are untouched. */
  function GetBlockedTasks(dag: TaskDag): (r: (TaskDag, seq<Task>))
    ensures r.0.adj == dag.adj && r.0.rev == dag.rev
    ensures r.0.tasks.keys == dag.tasks.keys && r.0.tasks.values.Keys == dag.tasks.values.Keys
    ensures forall k :: k in dag.tasks.values ==>
      var t := dag.tasks.values[k];
      r.0.tasks.values[k] == (if ShouldBlock(dag.tasks, t) then t.(status := Blocked) else t)
    ensures forall x :: x in r.1 <==>
      (exists k :: k in dag.tasks.values && ShouldBlock(dag.tasks, dag.tasks.values[k]) && x == r.0.tasks.values[k])
    ensures forall x :: x in r.1 ==> x.status == Blocked
  {
    var pass := BlockPass(dag.tasks, dag.tasks.keys);
    BlockPassSnapshot(dag.tasks, dag.tasks, dag.tasks.keys);
    (TaskDag(pass.0, dag.adj, dag.rev), pass.1)
  }

  // ---------------------------------------------------------------------------
  // Progress and completion
  // ---------------------------------------------------------------------------

  datatype Progress = Progress(
    total: nat, pending: nat, running: nat, completed: nat,
    failed: nat, blocked: nat, skipped: nat)

  /** Adds one task of status `s` to the tally (`stats[task.status.value] += 1`). */
  function Bump(p: Progress, s: TaskStatus): Progress
  {
    match s
    case Pending => p.(pending := p.pending + 1)
    case Running => p.(running := p.running + 1)
    case Completed => p.(completed := p.completed + 1)
    case Failed => p.(failed := p.failed + 1)
    case Blocked => p.(blocked := p.blocked + 1)
    case Skipped => p.(skipped := p.skipped + 1)
  }

  function StatusCount(p: Progress, s: TaskStatus): nat
  {
    match s
    case Pending => p.pending
    case Running => p.running
    case Completed => p.completed
    case Failed => p.failed
    case Blocked => p.blocked
    case Skipped => p.skipped
  }

  function Tally(tasks: Dict<Task>, keys: seq<string>, p: Progress): Progress
    requires forall k :: k in keys ==> k in tasks.values
  {
    if keys == [] then p else Tally(tasks, keys[1..], Bump(p, tasks.values[keys[0]].status))
  }

  /** How many of the ids have a task of status `s`. */
  function CountWith(tasks: Dict<Task>, keys: seq<string>, s: TaskStatus): (n: nat)
    requires forall k :: k in keys ==> k in tasks.values
    ensures n <= |keys|
  {
    if keys == [] then 0
    else (if tasks.values[keys[0]].status == s then 1 else 0) + CountWith(tasks, keys[1..], s)
  }

  function SumOfCounts(p: Progress): nat
  {
    p.pending + p.running + p.completed + p.failed + p.blocked + p.skipped
  }

  /** Bumping status `x` adds one to that status's count and to the sum, and
      leaves the other counts and the total alone. */
  lemma BumpCounts(p: Progress, x: TaskStatus, s: TaskStatus)
    ensures StatusCount(Bump(p, x), s) == StatusCount(p, s) + (if x == s then 1 else 0)
    ensures SumOfCounts(Bump(p, x)) == SumOfCounts(p) + 1
    ensures Bump(p, x).total == p.total
  {
  }

  lemma {:induction false} TallyCounts(tasks: Dict<Task>, keys: seq<string>, p: Progress, s: TaskStatus)
    requires forall k :: k in keys ==> k in tasks.values
    ensures StatusCount(Tally(tasks, keys, p), s) == StatusCount(p, s) + CountWith(tasks, keys, s)
    ensures SumOfCounts(Tally(tasks, keys, p)) == SumOfCounts(p) + |keys|
    ensures Tally(tasks, keys, p).total == p.total
  {
    if keys != [] {
      var x := tasks.values[keys[0]].status;
      BumpCounts(p, x, s);
      TallyCounts(tasks, keys[1..], Bump(p, x), s);
    }
  }

  /** `get_progress()`: the total is the number of tasks, each status count is
      the number of tasks with that status, and the counts add up to the total. */
  function GetProgress(dag: TaskDag): (r: Progress)
    ensures r.total == |dag.tasks.values|
    ensures forall s :: StatusCount(r, s) == CountWith(dag.tasks, dag.tasks.keys, s)
    ensures SumOfCounts(r) == r.total
  {
    TallyTotals(dag.tasks);
    TallyStatuses(dag.tasks);
    Tally(dag.tasks, dag.tasks.keys, Progress(|dag.tasks.values|, 0, 0, 0, 0, 0, 0))
  }

  lemma TallyTotals(tasks: Dict<Task>)
    ensures Tally(tasks, tasks.keys, Progress(|tasks.values|, 0, 0, 0, 0, 0, 0)).total == |tasks.values|
    ensures SumOfCounts(Tally(tasks, tasks.keys, Progress(|tasks.values|, 0, 0, 0, 0, 0, 0))) == |tasks.values|
  {
    TallyCounts(tasks, tasks.keys, Progress(|tasks.values|, 0, 0, 0, 0, 0, 0), Pending);
    PyDict.SizeMatches(tasks);
  }

  lemma TallyStatuses(tasks: Dict<Task>)
    ensures forall s ::
      StatusCount(Tally(tasks, tasks.keys, Progress(|tasks.values|, 0, 0, 0, 0, 0, 0)), s) == CountWith(tasks, tasks.keys, s)
  {
    var start := Progress(|tasks.values|, 0, 0, 0, 0, 0, 0);
    forall s: TaskStatus
      ensures StatusCount(Tally(tasks, tasks.keys, start), s) == CountWith(tasks, tasks.keys, s)
    {
      TallyCounts(tasks, tasks.keys, start, s);
    }
  }

  /** `is_complete()`: every task is completed, failed or skipped (so an empty
      graph is complete). */
  function IsComplete(dag: TaskDag): (r: bool)
    ensures r <==> forall k :: k in dag.tasks.values ==> IsTerminalStatus(dag.tasks.values[k].status)
  {
    forall k :: k in dag.tasks.keys ==> IsTerminalStatus(dag.tasks.values[k].status)
  }

  lemma {:induction false} CountTerminal(tasks: Dict<Task>, keys: seq<string>)
    requires forall k :: k in keys ==> k in tasks.values
    ensures (forall k :: k in keys ==> IsTerminalStatus(tasks.values[k].status)) <==>
      CountWith(tasks, keys, Completed) + CountWith(tasks, keys, TaskStatus.Failed)
        + CountWith(tasks, keys, Skipped) == |keys|
  {
    if keys != [] {
      CountTerminal(tasks, keys[1..]);
      var n := CountWith(tasks, keys[1..], Completed) + CountWith(tasks, keys[1..], TaskStatus.Failed)
        + CountWith(tasks, keys[1..], Skipped);
      assert n <= |keys[1..]| by {
        CountsBounded(tasks, keys[1..]);
      }
    }
  }

  lemma {:induction false} CountsBounded(tasks: Dict<Task>, keys: seq<string>)
    requires forall k :: k in keys ==> k in tasks.values
    ensures CountWith(tasks, keys, Completed) + CountWith(tasks, keys, TaskStatus.Failed)
        + CountWith(tasks, keys, Skipped) <= |keys|
  {
    if keys != [] {
      CountsBounded(tasks, keys[1..]);
    }
  }

  /** Completion agrees with the progress counts: the graph is complete iff
      completed + failed + skipped equals the total. */
  lemma CompleteIffTerminalCountsFill(dag: TaskDag)
    ensures IsComplete(dag) <==>
      var p := GetProgress(dag);
      p.completed + p.failed + p.skipped == p.total
  {
    var p := GetProgress(dag);
    CountTerminal(dag.tasks, dag.tasks.keys);
    assert StatusCount(p, Completed) == p.completed;
    assert StatusCount(p, TaskStatus.Failed) == p.failed;
    assert StatusCount(p, Skipped) == p.skipped;
    DistinctCover(dag.tasks.keys, dag.tasks.values.Keys);
  }
}
