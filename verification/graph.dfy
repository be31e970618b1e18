/**
 * Dependency graph builder: the adjacency lists and in-degree counts that
 * `topological_sort` builds from the task list and the dependency pairs.
 */
module Graph {
  import opened Seqs

  /** A dependency pair `(prerequisite, dependent)`. */
  type Edge<T> = (T, T)

  /**
   * What the source assumes of its input: task names are unique, and every
   * edge names declared tasks (otherwise the dictionary lookups raise).
   */
  predicate WellFormed<T(==)>(tasks: seq<T>, deps: seq<Edge<T>>) {
    && Distinct(tasks)
    && (forall e :: e in deps ==> e.0 in tasks && e.1 in tasks)
  }

  /** The dependents of `p`, in the order their edges are declared. */
  function Successors<T(==)>(deps: seq<Edge<T>>, p: T): seq<T>
    decreases |deps|
  {
    if deps == [] then []
    else (if deps[0].0 == p then [deps[0].1] else []) + Successors(deps[1..], p)
  }

  /**
   * The in-degree of `t` once the tasks in `done` have run: the number of
   * edges into `t` whose prerequisite is not in `done`.
   */
  function Pending<T(==)>(deps: seq<Edge<T>>, done: seq<T>, t: T): nat
    decreases |deps|
  {
    if deps == [] then 0
    else (if deps[0].1 == t && deps[0].0 !in done then 1 else 0) + Pending(deps[1..], done, t)
  }

  /** `x` is listed as a dependent of `p` exactly when the edge `(p, x)` is declared. */
  lemma {:induction false} SuccessorsEdges<T>(deps: seq<Edge<T>>, p: T, x: T)
    ensures x in Successors(deps, p) <==> (p, x) in deps
    decreases |deps|
  {
    if deps != [] {
      assert deps == [deps[0]] + deps[1..];
      SuccessorsEdges(deps[1..], p, x);
    }
  }

  /** No edge into `t` is unsatisfied exactly when every prerequisite of `t` is done. */
  lemma {:induction false} PendingZero<T>(deps: seq<Edge<T>>, done: seq<T>, t: T)
    ensures Pending(deps, done, t) == 0 <==> forall p :: (p, t) in deps ==> p in done
    decreases |deps|
  {
    if deps != [] {
      assert deps == [deps[0]] + deps[1..];
      PendingZero(deps[1..], done, t);
    }
  }

  /** Finishing more tasks never raises an in-degree. */
  lemma {:induction false} PendingAntitone<T>(deps: seq<Edge<T>>, d1: seq<T>, d2: seq<T>, t: T)
    requires forall x :: x in d1 ==> x in d2
    ensures Pending(deps, d2, t) <= Pending(deps, d1, t)
    decreases |deps|
  {
    if deps != [] {
      PendingAntitone(deps[1..], d1, d2, t);
    }
  }

  /**
   * Finishing `c` lowers the in-degree of `t` by the number of times `t`
   * is listed among the dependents of `c`.
   */
  lemma {:induction false} PendingPop<T>(deps: seq<Edge<T>>, done: seq<T>, c: T, t: T)
    requires c !in done
    ensures Pending(deps, done, t) == Pending(deps, done + [c], t) + Count(Successors(deps, c), t)
    decreases |deps|
  {
    if deps != [] {
      PendingPop(deps[1..], done, c, t);
      CountAppend(if deps[0].0 == c then [deps[0].1] else [], Successors(deps[1..], c), t);
    }
  }

  /** Declaring one more edge at the end adds its dependent at the end of the list. */
  lemma {:induction false} SuccessorsSnoc<T>(deps: seq<Edge<T>>, e: Edge<T>, p: T)
    ensures Successors(deps + [e], p) == Successors(deps, p) + (if e.0 == p then [e.1] else [])
    decreases |deps|
  {
    if deps == [] {
      assert [] + [e] == [e];
      assert [e][1..] == [];
    } else {
      assert (deps + [e])[1..] == deps[1..] + [e];
      SuccessorsSnoc(deps[1..], e, p);
    }
  }

  /** Declaring one more edge at the end adds at most one to an in-degree. */
  lemma {:induction false} PendingSnoc<T>(deps: seq<Edge<T>>, e: Edge<T>, done: seq<T>, t: T)
    ensures Pending(deps + [e], done, t) == Pending(deps, done, t) + (if e.1 == t && e.0 !in done then 1 else 0)
    decreases |deps|
  {
    if deps == [] {
      assert [] + [e] == [e];
      assert [e][1..] == [];
    } else {
      assert (deps + [e])[1..] == deps[1..] + [e];
      PendingSnoc(deps[1..], e, done, t);
    }
  }

  /**
   * The maps hold, for each declared task, its dependents and its in-degree
   * as declared by the first `k` edges.
   */
  ghost predicate Built<T(!new)>(tasks: seq<T>, deps: seq<Edge<T>>, k: nat, graph: map<T, seq<T>>, inDegree: map<T, int>)
    requires k <= |deps|
  {
    && (forall t :: t in graph <==> t in tasks)
    && (forall t :: t in inDegree <==> t in tasks)
    && (forall t :: t in tasks ==> graph[t] == Successors(deps[..k], t))
    && (forall t :: t in tasks ==> inDegree[t] == Pending(deps[..k], [], t))
  }

  /** Recording edge `k` in both maps accounts for one more edge. */
  lemma BuildStep<T(!new)>(tasks: seq<T>, deps: seq<Edge<T>>, k: nat, graph: map<T, seq<T>>, inDegree: map<T, int>)
    requires WellFormed(tasks, deps) && k < |deps| && Built(tasks, deps, k, graph, inDegree)
    ensures var (p, d) := deps[k];
            Built(tasks, deps, k + 1, graph[p := graph[p] + [d]], inDegree[d := inDegree[d] + 1])
  {
    var (p, d) := deps[k];
    assert deps[..k + 1] == deps[..k] + [deps[k]];
    forall t | t in tasks
      ensures Successors(deps[..k + 1], t) == Successors(deps[..k], t) + (if p == t then [d] else [])
      ensures Pending(deps[..k + 1], [], t) == Pending(deps[..k], [], t) + (if d == t then 1 else 0)
    {
      SuccessorsSnoc(deps[..k], deps[k], t);
      PendingSnoc(deps[..k], deps[k], [], t);
    }
  }

  /**
   * Lines 29-34 of the source: one adjacency list and one in-degree per
   * declared task, filled by one pass over the edges.
   */
  method BuildGraph<T(==,!new)>(tasks: seq<T>, deps: seq<Edge<T>>)
    returns (graph: map<T, seq<T>>, inDegree: map<T, int>)
    requires WellFormed(tasks, deps)
    ensures forall t :: t in graph <==> t in tasks
    ensures forall t :: t in inDegree <==> t in tasks
    ensures forall t :: t in tasks ==> graph[t] == Successors(deps, t)
    ensures forall t :: t in tasks ==> inDegree[t] == Pending(deps, [], t)
  {
    graph := map t | t in tasks :: [];
    inDegree := map t | t in tasks :: 0;
    for k := 0 to |deps|
      invariant Built(tasks, deps, k, graph, inDegree)
    {
      BuildStep(tasks, deps, k, graph, inDegree);
      var (p, d) := deps[k];
      graph := graph[p := graph[p] + [d]];
      inDegree := inDegree[d := inDegree[d] + 1];
    }
    assert deps[..|deps|] == deps;
  }

}
