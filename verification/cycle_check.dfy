/** The depth-first cycle detector `TaskDAG._has_cycle`
    (src/codex_agent/dag/engine.py:211-240), over the forward adjacency
    (dependency -> dependents) and rooted at the ids currently in the task map.
    The proof shows it answers exactly "some cycle is reachable from a root". */
module CycleCheck {
  import opened Seqs

  type Adjacency = map<string, seq<string>>

  /** `self._adjacency_list[u]` read through the defaultdict: `[]` when absent. */
  function Succ(adj: Adjacency, u: string): seq<string>
  {
    if u in adj then adj[u] else []
  }

  // ---------------------------------------------------------------------------
  // Reference definitions
  // ---------------------------------------------------------------------------

  ghost predicate IsPath(adj: Adjacency, p: seq<string>)
  {
    && |p| >= 1
    && forall i :: 0 <= i < |p| - 1 ==> p[i + 1] in Succ(adj, p[i])
  }

  /** A path from a root whose last node already occurred at position `j`. */
  ghost predicate Lasso(adj: Adjacency, roots: set<string>, p: seq<string>, j: nat)
  {
    && IsPath(adj, p)
    && p[0] in roots
    && j < |p| - 1
    && p[j] == p[|p| - 1]
  }

  /** Some cycle can be reached from some root by following edges. */
  ghost predicate CycleReachable(adj: Adjacency, roots: set<string>)
  {
    exists p, j :: Lasso(adj, roots, p, j)
  }

  /** `n` lies on a cycle of length at least one edge. */
  ghost predicate OnCycle(adj: Adjacency, n: string)
  {
    exists p :: IsPath(adj, p) && |p| >= 2 && p[0] == n && p[|p| - 1] == n
  }

  /** No edge leaves `b`. */
  ghost predicate Closed(adj: Adjacency, b: set<string>)
  {
    forall u, w :: u in b && w in Succ(adj, u) ==> w in b
  }

  ghost predicate Acyclic(adj: Adjacency, b: set<string>)
  {
    forall u :: u in b ==> !OnCycle(adj, u)
  }

  ghost function Elems(s: seq<string>): set<string>
  {
    set x | x in s
  }

  /** Every node the search can ever touch: the roots and every endpoint of an edge. */
  ghost function Universe(adj: Adjacency, roots: set<string>): set<string>
  {
    roots + adj.Keys + (set u, w | u in adj && w in adj[u] :: w)
  }

  ghost predicate SuccInside(adj: Adjacency, univ: set<string>)
  {
    forall u, w :: w in Succ(adj, u) ==> w in univ
  }

  lemma {:induction false} SubsetCard(a: set<string>, b: set<string>)
    requires a <= b
    ensures |a| <= |b|
    decreases |a|
  {
    if a != {} {
      var x :| x in a;
      SubsetCard(a - {x}, b - {x});
    }
  }

  lemma PathExtend(adj: Adjacency, p: seq<string>, w: string)
    requires IsPath(adj, p) && w in Succ(adj, p[|p| - 1])
    ensures IsPath(adj, p + [w])
  {
    var q := p + [w];
    forall k | 0 <= k < |q| - 1 ensures q[k + 1] in Succ(adj, q[k]) {
      if k < |p| - 1 {
        assert q[k] == p[k] && q[k + 1] == p[k + 1];
      }
    }
  }

  lemma PathSuffix(adj: Adjacency, p: seq<string>, j: nat)
    requires IsPath(adj, p) && j < |p|
    ensures IsPath(adj, p[j..])
  {
    var q := p[j..];
    forall k | 0 <= k < |q| - 1 ensures q[k + 1] in Succ(adj, q[k]) {
      assert q[k] == p[j + k] && q[k + 1] == p[j + k + 1];
    }
  }

  lemma UniverseHoldsSuccessors(adj: Adjacency, roots: set<string>)
    ensures SuccInside(adj, Universe(adj, roots))
    ensures roots <= Universe(adj, roots)
  {
  }

  // ---------------------------------------------------------------------------
  // The search, statement for statement
  // ---------------------------------------------------------------------------

  /** `dfs(v)`: mark `v` visited, push it on the recursion stack (kept here
      as the path from the root, whose elements are the source's `rec_stack`),
      and scan its dependents. Returns whether a cycle was found and the
      visited set afterwards. */
  function Dfs(adj: Adjacency, ghost univ: set<string>, v: string, visited: set<string>,
               path: seq<string>): (r: (bool, set<string>))
    requires SuccInside(adj, univ)
    requires v in univ && visited <= univ && v !in visited
    ensures visited <= r.1 <= univ && v in r.1
    decreases |univ - visited|, 0
  {
    assert univ - (visited + {v}) < univ - visited;
    DfsChildren(adj, univ, v, 0, visited + {v}, path + [v])
  }

  /** The `for dependent_id in self._adjacency_list[task_id]` loop of `dfs`,
      from position `i` on. */
  function DfsChildren(adj: Adjacency, ghost univ: set<string>, v: string, i: nat,
                       visited: set<string>, path: seq<string>): (r: (bool, set<string>))
    requires SuccInside(adj, univ)
    requires visited <= univ && i <= |Succ(adj, v)|
    ensures visited <= r.1 <= univ
    decreases |univ - visited|, 1, |Succ(adj, v)| - i
  {
    if i == |Succ(adj, v)| then (false, visited)
    else
      var w := Succ(adj, v)[i];
      if w !in visited then
        var sub := Dfs(adj, univ, w, visited, path);
        if sub.0 then sub
        else
          SubsetCard(univ - sub.1, univ - visited);
          DfsChildren(adj, univ, v, i + 1, sub.1, path)
      else if w in path then (true, visited)
      else DfsChildren(adj, univ, v, i + 1, visited, path)
  }

  /** The outer `for task_id in self.tasks` loop, from position `i` on. */
  function DfsRoots(adj: Adjacency, ghost univ: set<string>, roots: seq<string>, i: nat,
                    visited: set<string>): bool
    requires SuccInside(adj, univ)
    requires visited <= univ && i <= |roots|
    requires forall k :: 0 <= k < |roots| ==> roots[k] in univ
    decreases |roots| - i
  {
    if i == |roots| then false
    else if roots[i] in visited then DfsRoots(adj, univ, roots, i + 1, visited)
    else
      var sub := Dfs(adj, univ, roots[i], visited, []);
      sub.0 || DfsRoots(adj, univ, roots, i + 1, sub.1)
  }

  /** `_has_cycle()` over the given adjacency and task ids (in dict order). */
  function HasCycle(adj: Adjacency, roots: seq<string>): bool
  {
    UniverseHoldsSuccessors(adj, Elems(roots));
    DfsRoots(adj, Universe(adj, Elems(roots)), roots, 0, {})
  }

  // ---------------------------------------------------------------------------
  // Soundness: a reported cycle exists
  // ---------------------------------------------------------------------------

  lemma {:induction false} DfsSound(adj: Adjacency, univ: set<string>, roots: set<string>,
                                    v: string, visited: set<string>, path: seq<string>)
    requires SuccInside(adj, univ)
    requires v in univ && visited <= univ && v !in visited
    requires IsPath(adj, path + [v]) && (path + [v])[0] in roots
    ensures Dfs(adj, univ, v, visited, path).0 ==> CycleReachable(adj, roots)
    decreases |univ - visited|, 0
  {
    assert univ - (visited + {v}) < univ - visited;
    DfsChildrenSound(adj, univ, roots, v, 0, visited + {v}, path + [v]);
  }

  lemma {:induction false} DfsChildrenSound(adj: Adjacency, univ: set<string>, roots: set<string>,
                                            v: string, i: nat, visited: set<string>, path: seq<string>)
    requires SuccInside(adj, univ)
    requires visited <= univ && i <= |Succ(adj, v)|
    requires IsPath(adj, path) && path[0] in roots && path[|path| - 1] == v
    ensures DfsChildren(adj, univ, v, i, visited, path).0 ==> CycleReachable(adj, roots)
    decreases |univ - visited|, 1, |Succ(adj, v)| - i
  {
    if i < |Succ(adj, v)| {
      var w := Succ(adj, v)[i];
      var p := path + [w];
      PathExtend(adj, path, w);
      if w !in visited {
        DfsSound(adj, univ, roots, w, visited, path);
        var sub := Dfs(adj, univ, w, visited, path);
        if !sub.0 {
          SubsetCard(univ - sub.1, univ - visited);
          DfsChildrenSound(adj, univ, roots, v, i + 1, sub.1, path);
        }
      } else if w in path {
        var j :| 0 <= j < |path| && path[j] == w;
        assert Lasso(adj, roots, p, j);
      } else {
        DfsChildrenSound(adj, univ, roots, v, i + 1, visited, path);
      }
    }
  }

  lemma {:induction false} DfsRootsSound(adj: Adjacency, univ: set<string>, roots: seq<string>,
                                         i: nat, visited: set<string>)
    requires SuccInside(adj, univ)
    requires visited <= univ && i <= |roots|
    requires forall k :: 0 <= k < |roots| ==> roots[k] in univ
    ensures DfsRoots(adj, univ, roots, i, visited) ==> CycleReachable(adj, Elems(roots))
    decreases |roots| - i
  {
    if i < |roots| {
      if roots[i] in visited {
        DfsRootsSound(adj, univ, roots, i + 1, visited);
      } else {
        assert ([] + [roots[i]])[0] in Elems(roots);
        DfsSound(adj, univ, Elems(roots), roots[i], visited, []);
        var sub := Dfs(adj, univ, roots[i], visited, []);
        DfsRootsSound(adj, univ, roots, i + 1, sub.1);
      }
    }
  }

  // ---------------------------------------------------------------------------
  // Completeness: a "no cycle" answer leaves a closed, acyclic finished set
  // ---------------------------------------------------------------------------

  /** A path that enters a closed set never leaves it. */
  lemma {:induction false} PathStaysInside(adj: Adjacency, b: set<string>, p: seq<string>, k: nat, m: nat)
    requires Closed(adj, b) && IsPath(adj, p)
    requires k <= m < |p| && p[k] in b
    ensures p[m] in b
    decreases m - k
  {
    if k < m {
      assert p[k + 1] in Succ(adj, p[k]);
      PathStaysInside(adj, b, p, k + 1, m);
    }
  }

  /** The loop of a lasso is a cycle through its repeated node. */
  lemma LassoCycle(adj: Adjacency, roots: set<string>, p: seq<string>, j: nat)
    requires Lasso(adj, roots, p, j)
    ensures OnCycle(adj, p[j])
  {
    var cyc := p[j..];
    PathSuffix(adj, p, j);
    assert cyc[0] == p[j] && cyc[|cyc| - 1] == p[|p| - 1];
  }

  /** A node outside a closed set whose successors all lie inside it is on no cycle. */
  lemma NotOnCycleAboveClosed(adj: Adjacency, b: set<string>, v: string)
    requires Closed(adj, b) && v !in b
    requires forall w :: w in Succ(adj, v) ==> w in b
    ensures !OnCycle(adj, v)
  {
    if OnCycle(adj, v) {
      var p :| IsPath(adj, p) && |p| >= 2 && p[0] == v && p[|p| - 1] == v;
      assert p[1] in Succ(adj, p[0]);
      PathStaysInside(adj, b, p, 1, |p| - 1);
    }
  }

  /** The finished ("black") nodes: visited and no longer on the stack. */
  ghost function Finished(visited: set<string>, path: seq<string>): set<string>
  {
    visited - Elems(path)
  }

  ghost predicate SearchInvariant(adj: Adjacency, visited: set<string>, path: seq<string>)
  {
    && Elems(path) <= visited
    && Closed(adj, Finished(visited, path))
    && Acyclic(adj, Finished(visited, path))
  }

  /** Entering `v` pushes it on the stack and leaves the finished set alone. */
  lemma EnterNode(adj: Adjacency, visited: set<string>, path: seq<string>, v: string)
    requires SearchInvariant(adj, visited, path) && v !in visited
    ensures Finished(visited + {v}, path + [v]) == Finished(visited, path)
    ensures SearchInvariant(adj, visited + {v}, path + [v])
  {
    assert Elems(path + [v]) == Elems(path) + {v};
  }

  /** Leaving `v` once its successors are all finished finishes it too. */
  lemma LeaveNode(adj: Adjacency, visited: set<string>, path: seq<string>, v: string)
    requires SearchInvariant(adj, visited, path + [v]) && v !in Elems(path)
    requires forall w :: w in Succ(adj, v) ==> w in Finished(visited, path + [v])
    ensures SearchInvariant(adj, visited, path) && v in Finished(visited, path)
  {
    var b := Finished(visited, path + [v]);
    assert Elems(path + [v]) == Elems(path) + {v};
    assert v in visited && v !in b;
    assert Finished(visited, path) == b + {v};
    FinishNode(adj, b, v);
  }

  lemma {:induction false} DfsComplete(adj: Adjacency, univ: set<string>, v: string,
                                       visited: set<string>, path: seq<string>)
    requires SuccInside(adj, univ)
    requires v in univ && visited <= univ && v !in visited
    requires SearchInvariant(adj, visited, path)
    ensures var r := Dfs(adj, univ, v, visited, path);
      !r.0 ==> SearchInvariant(adj, r.1, path) && v in Finished(r.1, path)
    decreases |univ - visited|, 0
  {
    assert univ - (visited + {v}) < univ - visited;
    EnterNode(adj, visited, path, v);
    DfsChildrenComplete(adj, univ, v, 0, visited + {v}, path + [v]);
    var r := Dfs(adj, univ, v, visited, path);
    if !r.0 {
      LeaveNode(adj, r.1, path, v);
    }
  }

  /** Finishing a node whose successors are all finished keeps the finished set
      closed and acyclic. */
  lemma FinishNode(adj: Adjacency, b: set<string>, v: string)
    requires Closed(adj, b) && Acyclic(adj, b) && v !in b
    requires forall w :: w in Succ(adj, v) ==> w in b
    ensures Closed(adj, b + {v}) && Acyclic(adj, b + {v})
  {
    NotOnCycleAboveClosed(adj, b, v);
  }

  lemma {:induction false} DfsChildrenComplete(adj: Adjacency, univ: set<string>, v: string, i: nat,
                                               visited: set<string>, path: seq<string>)
    requires SuccInside(adj, univ)
    requires visited <= univ && i <= |Succ(adj, v)|
    requires SearchInvariant(adj, visited, path)
    requires forall k :: 0 <= k < i ==> Succ(adj, v)[k] in Finished(visited, path)
    ensures var r := DfsChildren(adj, univ, v, i, visited, path);
      !r.0 ==> (SearchInvariant(adj, r.1, path)
                && forall w :: w in Succ(adj, v) ==> w in Finished(r.1, path))
    decreases |univ - visited|, 1, |Succ(adj, v)| - i
  {
    var succ := Succ(adj, v);
    if i == |succ| {
      forall w | w in succ ensures w in Finished(visited, path) {
        var k :| 0 <= k < |succ| && succ[k] == w;
      }
    } else {
      var w := succ[i];
      if w !in visited {
        assert w !in Elems(path);
        DfsComplete(adj, univ, w, visited, path);
        var sub := Dfs(adj, univ, w, visited, path);
        if !sub.0 {
          SubsetCard(univ - sub.1, univ - visited);
          assert Finished(visited, path) <= Finished(sub.1, path);
          DfsChildrenComplete(adj, univ, v, i + 1, sub.1, path);
        }
      } else if w !in path {
        assert w in Finished(visited, path);
        DfsChildrenComplete(adj, univ, v, i + 1, visited, path);
      }
    }
  }

  lemma {:induction false} DfsRootsComplete(adj: Adjacency, univ: set<string>, roots: seq<string>,
                                            i: nat, visited: set<string>)
    requires SuccInside(adj, univ)
    requires visited <= univ && i <= |roots|
    requires forall k :: 0 <= k < |roots| ==> roots[k] in univ
    requires SearchInvariant(adj, visited, [])
    requires forall k :: 0 <= k < i ==> roots[k] in visited
    ensures !DfsRoots(adj, univ, roots, i, visited) ==> !CycleReachable(adj, Elems(roots))
    decreases |roots| - i
  {
    assert Elems([]) == {};
    if i == |roots| {
      if CycleReachable(adj, Elems(roots)) {
        var p: seq<string>, j: nat :| Lasso(adj, Elems(roots), p, j);
        assert Finished(visited, []) == visited;
        LassoCycle(adj, Elems(roots), p, j);
        PathStaysInside(adj, visited, p, 0, j);
        assert false;
      }
    } else if roots[i] in visited {
      DfsRootsComplete(adj, univ, roots, i + 1, visited);
    } else {
      DfsComplete(adj, univ, roots[i], visited, []);
      var sub := Dfs(adj, univ, roots[i], visited, []);
      if !sub.0 {
        DfsRootsComplete(adj, univ, roots, i + 1, sub.1);
      }
    }
  }

  /** The detector is exact: it reports a cycle iff one is reachable from a root. */
  lemma HasCycleCorrect(adj: Adjacency, roots: seq<string>)
    ensures HasCycle(adj, roots) <==> CycleReachable(adj, Elems(roots))
  {
    var univ := Universe(adj, Elems(roots));
    UniverseHoldsSuccessors(adj, Elems(roots));
    assert forall k :: 0 <= k < |roots| ==> roots[k] in univ;
    assert Elems([]) == {};
    DfsRootsSound(adj, univ, roots, 0, {});
    DfsRootsComplete(adj, univ, roots, 0, {});
  }

  // ---------------------------------------------------------------------------
  // Backward-closed sets
  // ---------------------------------------------------------------------------

  /** Every node of `m` has, through `pred`, a predecessor inside `m`. */
  ghost predicate PredecessorMap(adj: Adjacency, m: set<string>, pred: map<string, string>)
  {
    && m <= pred.Keys
    && forall y {:trigger pred[y]} :: y in m ==> pred[y] in m && y in Succ(adj, pred[y])
  }

  /** Nodes of `m`, each an edge target of the next. */
  ghost predicate BackwardIn(adj: Adjacency, m: set<string>, c: seq<string>)
  {
    && (forall i :: 0 <= i < |c| ==> c[i] in m)
    && (forall i, j :: 0 <= i && j == i + 1 && j < |c| ==> c[i] in Succ(adj, c[j]))
  }

  /** Following `pred` from `k`: a chain of `n + 1` nodes starting at `k`. */
  lemma {:induction false} BackChain(adj: Adjacency, m: set<string>, pred: map<string, string>, k: string, n: nat)
    returns (c: seq<string>)
    requires k in m && PredecessorMap(adj, m, pred)
    ensures |c| == n + 1 && c[0] == k && BackwardIn(adj, m, c)
    decreases n
  {
    if n == 0 {
      c := [k];
    } else {
      var x := pred[k];
      var rest := BackChain(adj, m, pred, x, n - 1);
      c := [k] + rest;
      ChainCons(adj, m, k, rest);
    }
  }

  lemma ChainCons(adj: Adjacency, m: set<string>, k: string, rest: seq<string>)
    requires k in m && rest != [] && k in Succ(adj, rest[0]) && BackwardIn(adj, m, rest)
    ensures BackwardIn(adj, m, [k] + rest)
  {
    var c := [k] + rest;
    forall i | 0 <= i < |c| ensures c[i] in m {
      if i > 0 { assert c[i] == rest[i - 1]; }
    }
    forall i, j | 0 <= i && j == i + 1 && j < |c| ensures c[i] in Succ(adj, c[j]) {
      if i > 0 { assert c[i] == rest[i - 1] && c[j] == rest[i]; }
    }
  }

  /** A non-empty set of roots in which every node has a predecessor inside
      the set holds a reachable cycle: a backward chain longer than the set
      repeats a node, and read forwards the stretch between the repeats is a
      cycle starting at a root. */
  lemma BackwardClosedCycle(adj: Adjacency, m: set<string>, pred: map<string, string>, roots: set<string>)
    requires m != {} && m <= roots && PredecessorMap(adj, m, pred)
    ensures CycleReachable(adj, roots)
  {
    var k :| k in m;
    var c := BackChain(adj, m, pred, k, |m|);
    if Distinct(c) {
      DistinctBound(c, m);
      assert false;
    }
    var i, j :| 0 <= i < j < |c| && c[i] == c[j];
    RepeatCloses(adj, roots, c, i, j);
  }

  /** Read forwards, the stretch of a backward chain between two copies of
      a root is a lasso from that root. */
  lemma RepeatCloses(adj: Adjacency, roots: set<string>, c: seq<string>, i: nat, j: nat)
    requires i < j < |c| && c[i] == c[j] && c[j] in roots
    requires forall t, u :: 0 <= t && u == t + 1 && u < |c| ==> c[t] in Succ(adj, c[u])
    ensures CycleReachable(adj, roots)
  {
    var p := seq(j - i + 1, t requires 0 <= t <= j - i => c[j - t]);
    forall t | 0 <= t < |p| - 1 ensures p[t + 1] in Succ(adj, p[t]) {
      assert p[t + 1] == c[j - t - 1] && p[t] == c[j - t];
    }
    assert Lasso(adj, roots, p, 0);
  }
}
