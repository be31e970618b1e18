/**
 * Topological orderer: Kahn's algorithm as `topological_sort` runs it, with
 * a FIFO queue seeded in declared task order and a cycle error when some
 * task never reaches in-degree zero.
 *
 * `Drain` is the reference definition (one recursive step per dequeued
 * task, bounded by a fuel of one turn per task, which `DrainInv` shows is
 * never the reason it stops); `TopologicalSort` is the imperative algorithm
 * over maps and a queue, proved to compute the same result.
 */
module Kahn {
  import opened Seqs
  import opened Graph

  /** The text of the exception raised on a cycle. */
  const CycleMessage: string := "Cycle detected in task dependencies and its not a good sign :("

  datatype SortResult<T> = Order(order: seq<T>) | Cycle(message: string)

  /** A permutation of `tasks` that puts every prerequisite strictly before its dependent. */
  predicate IsTopologicalOrder<T(==,!new)>(tasks: seq<T>, deps: seq<Edge<T>>, o: seq<T>) {
    && multiset(o) == multiset(tasks)
    && (forall i, j :: 0 <= i < |o| && 0 <= j < |o| && (o[i], o[j]) in deps ==> i < j)
  }

  ghost predicate Linearizable<T(!new)>(tasks: seq<T>, deps: seq<Edge<T>>) {
    exists o :: IsTopologicalOrder(tasks, deps, o)
  }

  /**
   * A non-empty set of tasks each of which has a prerequisite inside the set:
   * no member of it can ever be the first of them to run.
   */
  ghost predicate Stuck<T(!new)>(tasks: seq<T>, deps: seq<Edge<T>>, u: set<T>) {
    && u != {}
    && (forall x :: x in u ==> x in tasks)
    && (forall x :: x in u ==> exists p :: p in u && (p, x) in deps)
  }

  /** The tasks of `ts` whose in-degree is zero once `done` has run, in the order of `ts`. */
  function Ready<T(==)>(ts: seq<T>, deps: seq<Edge<T>>, done: seq<T>): seq<T>
    decreases |ts|
  {
    if ts == [] then []
    else (if Pending(deps, done, ts[0]) == 0 then [ts[0]] else []) + Ready(ts[1..], deps, done)
  }

  /** The ready tasks are exactly the tasks of `ts` with in-degree zero, each once. */
  lemma {:induction false} ReadySound<T(!new)>(ts: seq<T>, deps: seq<Edge<T>>, done: seq<T>)
    ensures forall x :: x in Ready(ts, deps, done) <==> x in ts && Pending(deps, done, x) == 0
    ensures Distinct(ts) ==> Distinct(Ready(ts, deps, done))
    decreases |ts|
  {
    if ts != [] {
      ReadySound(ts[1..], deps, done);
      assert ts == [ts[0]] + ts[1..];
      var head := if Pending(deps, done, ts[0]) == 0 then [ts[0]] else [];
      if Distinct(ts) {
        DistinctSplit([ts[0]], ts[1..]);
        DistinctAppend(head, Ready(ts[1..], deps, done));
      }
    }
  }

  /** Seeding the queue with `ts[i]` or not keeps it a prefix of the ready list. */
  lemma ReadyFrom<T(!new)>(ts: seq<T>, deps: seq<Edge<T>>, done: seq<T>, i: nat, queue: seq<T>)
    requires i < |ts|
    requires queue + Ready(ts[i..], deps, done) == Ready(ts, deps, done)
    ensures (if Pending(deps, done, ts[i]) == 0 then queue + [ts[i]] else queue) + Ready(ts[i + 1..], deps, done)
         == Ready(ts, deps, done)
  {
    assert ts[i..][1..] == ts[i + 1..];
  }

  /**
   * What the inner loop enqueues after the first `k` entries of `adj` (the
   * dependents of the task just finished): an entry is enqueued when it is
   * the last listing of that dependent and its in-degree is then zero.
   */
  function Released<T(==)>(deps: seq<Edge<T>>, adj: seq<T>, done: seq<T>, k: nat): seq<T>
    requires k <= |adj|
  {
    if k == 0 then []
    else
      var n := adj[k - 1];
      Released(deps, adj, done, k - 1) + (if n !in adj[k..] && Pending(deps, done, n) == 0 then [n] else [])
  }

  /** Each released dependent is listed for the last time before position `k`, and is ready. */
  lemma {:induction false} ReleasedSound<T(!new)>(deps: seq<Edge<T>>, adj: seq<T>, done: seq<T>, k: nat)
    requires k <= |adj|
    ensures forall x :: x in Released(deps, adj, done, k) ==> x in adj[..k] && x !in adj[k..] && Pending(deps, done, x) == 0
    ensures Distinct(Released(deps, adj, done, k))
  {
    if k > 0 {
      var n := adj[k - 1];
      ReleasedSound(deps, adj, done, k - 1);
      assert n in adj[k - 1..];
      assert forall x :: x in adj[..k - 1] ==> x in adj[..k];
      assert forall x :: x !in adj[k - 1..] ==> x !in adj[k..];
    }
  }

  /** The dependents of `c` that become ready when `c` finishes, in enqueue order. */
  function Unblocked<T(==)>(deps: seq<Edge<T>>, c: T, done: seq<T>): seq<T> {
    var adj := Successors(deps, c);
    Released(deps, adj, done, |adj|)
  }

  lemma {:induction false} ReleasedComplete<T(!new)>(deps: seq<Edge<T>>, adj: seq<T>, done: seq<T>, k: nat, j: nat)
    requires j < k <= |adj|
    requires adj[j] !in adj[j + 1..] && Pending(deps, done, adj[j]) == 0
    ensures adj[j] in Released(deps, adj, done, k)
    decreases k
  {
    if j < k - 1 {
      ReleasedComplete(deps, adj, done, k - 1, j);
    }
  }

  /**
   * The state of the `while queue` loop: `order ++ queue` has no repeats and
   * holds only tasks; each task in `order` had its prerequisites before it;
   * each queued task has in-degree zero; every task neither ordered nor queued
   * still has a positive in-degree.
   */
  predicate Inv<T(==,!new)>(tasks: seq<T>, deps: seq<Edge<T>>, order: seq<T>, queue: seq<T>) {
    && WellFormed(tasks, deps)
    && Distinct(order + queue)
    && (forall x :: x in order + queue ==> x in tasks)
    && (forall i :: 0 <= i < |order| ==> Pending(deps, order[..i], order[i]) == 0)
    && (forall x :: x in queue ==> Pending(deps, order, x) == 0)
    && (forall t :: t in tasks && t !in order && t !in queue ==> Pending(deps, order, t) > 0)
  }

  lemma InitInv<T(!new)>(tasks: seq<T>, deps: seq<Edge<T>>)
    requires WellFormed(tasks, deps)
    ensures Inv(tasks, deps, [], Ready(tasks, deps, []))
  {
    ReadySound(tasks, deps, []);
    assert [] + Ready(tasks, deps, []) == Ready(tasks, deps, []);
  }

  lemma StepInv<T(!new)>(tasks: seq<T>, deps: seq<Edge<T>>, order: seq<T>, queue: seq<T>)
    requires Inv(tasks, deps, order, queue) && queue != []
    ensures |order| + |queue| <= |tasks|
    ensures Inv(tasks, deps, order + [queue[0]], queue[1..] + Unblocked(deps, queue[0], order + [queue[0]]))
  {
    DistinctSubsetLength(order + queue, tasks);
    var c := queue[0];
    var order' := order + [c];
    var adj := Successors(deps, c);
    var r := Unblocked(deps, c, order');
    var queue' := queue[1..] + r;
    ReleasedSound(deps, adj, order', |adj|);
    assert order + queue == order + [c] + queue[1..];
    assert order' + queue' == (order + queue) + r;
    DistinctSplit(order, queue);
    assert Pending(deps, order, c) == 0;
    forall x | x in r
      ensures x !in order + queue && x in tasks
    {
      SuccessorsEdges(deps, c, x);
      PendingZero(deps, order, x);
      if x in order {
        var i :| 0 <= i < |order| && order[i] == x;
        PendingAntitone(deps, order[..i], order, x);
      }
    }
    DistinctAppend(order + queue, r);
    forall i | 0 <= i < |order'|
      ensures Pending(deps, order'[..i], order'[i]) == 0
    {
      if i < |order| {
        assert order'[..i] == order[..i];
      } else {
        assert order'[..i] == order;
      }
    }
    forall x | x in queue'
      ensures Pending(deps, order', x) == 0
    {
      if x in queue[1..] {
        PendingAntitone(deps, order, order', x);
      }
    }
    forall t | t in tasks && t !in order' && t !in queue'
      ensures Pending(deps, order', t) > 0
    {
      assert t !in queue;
      PendingPop(deps, order, c, t);
      CountZero(adj, t);
      if Pending(deps, order', t) == 0 {
        var j := LastOccurrence(adj, t);
        ReleasedComplete(deps, adj, order', |adj|, j);
      }
    }
  }

  /**
   * The `while queue` loop (lines 40-48 of the source) from the state
   * `(order, queue)`, for at most `fuel` turns: dequeue the head, append it
   * to the order and enqueue the dependents it releases.
   */
  function Drain<T(==)>(deps: seq<Edge<T>>, order: seq<T>, queue: seq<T>, fuel: nat): seq<T>
    decreases fuel
  {
    if queue == [] || fuel == 0 then order
    else
      var c := queue[0];
      Drain(deps, order + [c], queue[1..] + Unblocked(deps, c, order + [c]), fuel - 1)
  }

  /**
   * Fuel for one turn per task not yet ordered is enough: the queue runs dry
   * first, and the loop ends in a state that satisfies the invariant with an
   * empty queue.
   */
  lemma {:induction false} DrainInv<T(!new)>(tasks: seq<T>, deps: seq<Edge<T>>, order: seq<T>, queue: seq<T>, fuel: nat)
    requires Inv(tasks, deps, order, queue) && |order| + fuel == |tasks|
    ensures Inv(tasks, deps, Drain(deps, order, queue, fuel), [])
    decreases fuel
  {
    if queue == [] {
      assert order + [] == order;
    } else {
      StepInv(tasks, deps, order, queue);
      var c := queue[0];
      var order', queue' := order + [c], queue[1..] + Unblocked(deps, c, order + [c]);
      DrainInv(tasks, deps, order', queue', fuel - 1);
      assert Drain(deps, order, queue, fuel) == Drain(deps, order', queue', fuel - 1);
    }
  }

  /** The loop only appends to `order`. */
  lemma {:induction false} DrainExtends<T>(deps: seq<Edge<T>>, order: seq<T>, queue: seq<T>, fuel: nat)
    ensures var f := Drain(deps, order, queue, fuel);
            |order| <= |f| && f[..|order|] == order
    decreases fuel
  {
    if queue != [] && fuel > 0 {
      var c := queue[0];
      var order', queue' := order + [c], queue[1..] + Unblocked(deps, c, order + [c]);
      DrainExtends(deps, order', queue', fuel - 1);
      var f := Drain(deps, order', queue', fuel - 1);
      assert f[..|order|] == f[..|order'|][..|order|];
    }
  }

  /**
   * The loop goes on from `(order, queue)`, with one turn to spare per task
   * not yet ordered, to the order it reaches from the seeded queue.
   */
  ghost predicate LoopsTo<T(!new)>(tasks: seq<T>, deps: seq<Edge<T>>, order: seq<T>, queue: seq<T>)
  {
    && WellFormed(tasks, deps)
    && |order| <= |tasks|
    && Drain(deps, order, queue, |tasks| - |order|) == Reached(tasks, deps)
  }

  /** One turn of the loop, as the imperative loop body performs it, keeps `LoopsTo`. */
  lemma LoopsToTurn<T(!new)>(tasks: seq<T>, deps: seq<Edge<T>>, order: seq<T>, queue: seq<T>,
                             order': seq<T>, queue': seq<T>)
    requires LoopsTo(tasks, deps, order, queue) && queue != [] && |order| < |tasks|
    requires order' == order + [queue[0]] && queue' == queue[1..] + Unblocked(deps, queue[0], order')
    ensures LoopsTo(tasks, deps, order', queue')
  {
  }

  /** The order Kahn's algorithm reaches before its queue runs dry. */
  function Reached<T(==,!new)>(tasks: seq<T>, deps: seq<Edge<T>>): (f: seq<T>)
    requires WellFormed(tasks, deps)
    ensures Inv(tasks, deps, f, [])
  {
    InitInv(tasks, deps);
    DrainInv(tasks, deps, [], Ready(tasks, deps, []), |tasks|);
    Drain(deps, [], Ready(tasks, deps, []), |tasks|)
  }

  /** A finished loop that reached every task produced a topological order. */
  lemma SettledSound<T(!new)>(tasks: seq<T>, deps: seq<Edge<T>>, f: seq<T>)
    requires Inv(tasks, deps, f, []) && |f| == |tasks|
    ensures IsTopologicalOrder(tasks, deps, f)
  {
    assert f + [] == f;
    DistinctCover(f, tasks);
    DistinctSameElements(f, tasks);
    forall i, j | 0 <= i < |f| && 0 <= j < |f| && (f[i], f[j]) in deps
      ensures i < j
    {
      PendingZero(deps, f[..j], f[j]);
      var k :| 0 <= k < j && f[k] == f[i];
    }
  }

  /** `topological_sort` (lines 27-55 of the source) as a function. */
  function KahnSort<T(==,!new)>(tasks: seq<T>, deps: seq<Edge<T>>): (r: SortResult<T>)
    requires WellFormed(tasks, deps)
    ensures r.Order? ==> IsTopologicalOrder(tasks, deps, r.order)
    ensures r.Cycle? ==> r.message == CycleMessage
  {
    var f := Reached(tasks, deps);
    if |f| == |tasks| then
      SettledSound(tasks, deps, f);
      Order(f)
    else
      Cycle(CycleMessage)
  }

  /** The tasks that do not occur in `f`. */
  function Unreached<T(==,!new)>(tasks: seq<T>, f: seq<T>): set<T> {
    set t | t in tasks && t !in f
  }

  /** When the cycle error is raised, the unreached tasks form a stuck set. */
  lemma CycleLeavesStuckTasks<T(!new)>(tasks: seq<T>, deps: seq<Edge<T>>)
    requires WellFormed(tasks, deps)
    requires KahnSort(tasks, deps).Cycle?
    ensures Stuck(tasks, deps, Unreached(tasks, Reached(tasks, deps)))
  {
    var f := Reached(tasks, deps);
    assert f + [] == f;
    UnreachedStuck(tasks, deps, f);
  }

  /**
   * A settled loop state that misses some task leaves the missed tasks
   * stuck: each of them still waits on a prerequisite that was not reached.
   */
  lemma UnreachedStuck<T(!new)>(tasks: seq<T>, deps: seq<Edge<T>>, f: seq<T>)
    requires WellFormed(tasks, deps) && Distinct(f) && |f| != |tasks|
    requires forall x :: x in f ==> x in tasks
    requires forall t :: t in tasks && t !in f ==> Pending(deps, f, t) > 0
    ensures Stuck(tasks, deps, Unreached(tasks, f))
  {
    var u := Unreached(tasks, f);
    DistinctSubsetLength(f, tasks);
    var missing := ShorterMisses(f, tasks);
    assert missing in u;
    forall x | x in u
      ensures exists p :: p in u && (p, x) in deps
    {
      PendingZero(deps, f, x);
      var p :| (p, x) in deps && p !in f;
      assert p in u;
    }
  }

  /**
   * By induction on the position: every task of a topological order is
   * reached, since an unreached task waits on an unreached prerequisite,
   * which the order puts earlier.
   */
  lemma {:induction false} ReachedCoversOrder<T(!new)>(tasks: seq<T>, deps: seq<Edge<T>>, f: seq<T>, o: seq<T>, i: nat)
    requires Inv(tasks, deps, f, [])
    requires IsTopologicalOrder(tasks, deps, o)
    requires i < |o|
    ensures o[i] in f
    decreases i
  {
    if o[i] !in f {
      assert o[i] in multiset(tasks);
      PendingZero(deps, f, o[i]);
      var p :| (p, o[i]) in deps && p !in f;
      var k := PositionOf(o, tasks, p);
      assert (o[k], o[i]) in deps;
      ReachedCoversOrder(tasks, deps, f, o, k);
    }
  }

  /** The cycle error is raised exactly when the tasks admit no topological order. */
  lemma CycleIffNoOrder<T(!new)>(tasks: seq<T>, deps: seq<Edge<T>>)
    requires WellFormed(tasks, deps)
    ensures KahnSort(tasks, deps).Cycle? <==> !Linearizable(tasks, deps)
  {
    var r := KahnSort(tasks, deps);
    if r.Cycle? {
      var f := Reached(tasks, deps);
      assert f + [] == f;
      forall o | IsTopologicalOrder(tasks, deps, o)
        ensures false
      {
        forall x | x in tasks
          ensures x in f
        {
          var i := PositionOf(o, tasks, x);
          ReachedCoversOrder(tasks, deps, f, o, i);
        }
        DistinctSubsetLength(tasks, f);
        DistinctSubsetLength(f, tasks);
      }
    } else {
      assert IsTopologicalOrder(tasks, deps, r.order);
    }
  }

  /** A task that depends on itself makes the whole sort fail. */
  lemma SelfEdgeIsCycle<T(!new)>(tasks: seq<T>, deps: seq<Edge<T>>, t: T)
    requires WellFormed(tasks, deps)
    requires (t, t) in deps
    ensures KahnSort(tasks, deps).Cycle?
  {
    CycleIffNoOrder(tasks, deps);
    forall o | IsTopologicalOrder(tasks, deps, o)
      ensures false
    {
      var i := PositionOf(o, tasks, t);
    }
  }

  /** Without dependencies each turn releases nothing, so the queue is appended as it is. */
  lemma {:induction false} DrainNoEdges<T>(order: seq<T>, queue: seq<T>, fuel: nat)
    requires |queue| <= fuel
    ensures Drain([], order, queue, fuel) == order + queue
    decreases |queue|
  {
    if queue != [] {
      var c := queue[0];
      assert Successors([], c) == [];
      assert queue[1..] + Unblocked([], c, order + [c]) == queue[1..];
      DrainNoEdges(order + [c], queue[1..], fuel - 1);
      assert order + [c] + queue[1..] == order + queue;
    }
  }

  /** With no dependencies every task is ready at once, so the declared order is kept. */
  lemma NoEdgesKeepsOrder<T(!new)>(tasks: seq<T>)
    requires Distinct(tasks)
    ensures KahnSort(tasks, []) == Order(tasks)
  {
    assert WellFormed(tasks, []);
    var roots := Ready(tasks, [], []);
    assert roots == tasks by {
      ReadyNoEdges(tasks);
    }
    DrainNoEdges([], roots, |tasks|);
    assert [] + tasks == tasks;
  }

  lemma {:induction false} ReadyNoEdges<T(!new)>(ts: seq<T>)
    ensures Ready(ts, [], []) == ts
    decreases |ts|
  {
    if ts != [] {
      ReadyNoEdges(ts[1..]);
      assert ts == [ts[0]] + ts[1..];
    }
  }

  /**
   * The state of the inner loop after `k` listed dependents: each in-degree
   * still counts the listings not yet visited, and the queue has grown by
   * what was released so far.
   */
  ghost predicate RelaxInv<T(!new)>(tasks: seq<T>, deps: seq<Edge<T>>, done: seq<T>, adj: seq<T>, k: nat,
                                inDegree: map<T, int>, queue0: seq<T>, queue: seq<T>)
  {
    && k <= |adj|
    && (forall t :: t in inDegree <==> t in tasks)
    && (forall t :: t in tasks ==> inDegree[t] == Pending(deps, done, t) + Count(adj[k..], t))
    && queue == queue0 + Released(deps, adj, done, k)
  }

  lemma RelaxStep<T(!new)>(tasks: seq<T>, deps: seq<Edge<T>>, done: seq<T>, adj: seq<T>, k: nat,
                           inDegree: map<T, int>, queue0: seq<T>, queue: seq<T>)
    requires RelaxInv(tasks, deps, done, adj, k, inDegree, queue0, queue)
    requires k < |adj| && adj[k] in tasks
    ensures var d := inDegree[adj[k] := inDegree[adj[k]] - 1];
            RelaxInv(tasks, deps, done, adj, k + 1, d, queue0, if d[adj[k]] == 0 then queue + [adj[k]] else queue)
  {
    var n := adj[k];
    forall t | t in tasks
      ensures Count(adj[k..], t) == (if n == t then 1 else 0) + Count(adj[k + 1..], t)
    {
      CountSuffix(adj, k, t);
    }
    ReleasedNext(deps, adj, done, k);
    CountZero(adj[k + 1..], n);
  }

  /**
   * The inner `for neighbor in graph[current]` loop (lines 45-48 of the
   * source): lower each listed dependent's in-degree and enqueue it when the
   * count reaches zero.
   */
  method ReleaseDependents<T(==,!new)>(tasks: seq<T>, deps: seq<Edge<T>>, done: seq<T>, adj: seq<T>,
                                     inDegree: map<T, int>, queue: seq<T>)
    returns (inDegree': map<T, int>, queue': seq<T>)
    requires forall x :: x in adj ==> x in tasks
    requires forall t :: t in inDegree <==> t in tasks
    requires forall t :: t in tasks ==> inDegree[t] == Pending(deps, done, t) + Count(adj, t)
    ensures forall t :: t in inDegree' <==> t in tasks
    ensures forall t :: t in tasks ==> inDegree'[t] == Pending(deps, done, t)
    ensures queue' == queue + Released(deps, adj, done, |adj|)
  {
    inDegree', queue' := inDegree, queue;
    assert adj[0..] == adj;
    assert queue + [] == queue;
    for k := 0 to |adj|
      invariant RelaxInv(tasks, deps, done, adj, k, inDegree', queue, queue')
    {
      var n := adj[k];
      RelaxStep(tasks, deps, done, adj, k, inDegree', queue, queue');
      inDegree' := inDegree'[n := inDegree'[n] - 1];
      if inDegree'[n] == 0 {
        queue' := queue' + [n];
      }
    }
    assert adj[|adj|..] == [];
  }

  lemma ReleasedNext<T(!new)>(deps: seq<Edge<T>>, adj: seq<T>, done: seq<T>, k: nat)
    requires k < |adj|
    ensures Released(deps, adj, done, k + 1)
      == Released(deps, adj, done, k) + (if adj[k] !in adj[k + 1..] && Pending(deps, done, adj[k]) == 0 then [adj[k]] else [])
  {
  }

  lemma CountSuffix<T>(s: seq<T>, k: nat, t: T)
    requires k < |s|
    ensures Count(s[k..], t) == (if s[k] == t then 1 else 0) + Count(s[k + 1..], t)
  {
    assert s[k..][1..] == s[k + 1..];
  }

  /** Line 37 of the source: the tasks with in-degree zero, in declared order. */
  method SeedQueue<T(==,!new)>(tasks: seq<T>, deps: seq<Edge<T>>, inDegree: map<T, int>) returns (queue: seq<T>)
    requires forall t :: t in tasks ==> t in inDegree && inDegree[t] == Pending(deps, [], t)
    ensures queue == Ready(tasks, deps, [])
  {
    queue := [];
    assert tasks[0..] == tasks;
    for i := 0 to |tasks|
      invariant queue + Ready(tasks[i..], deps, []) == Ready(tasks, deps, [])
    {
      ReadyFrom(tasks, deps, [], i, queue);
      if inDegree[tasks[i]] == 0 {
        queue := queue + [tasks[i]];
      }
    }
    assert queue + [] == queue;
  }

  /** One turn of the `while queue` loop (lines 41-48 of the source). */
  method Dequeue<T(==,!new)>(tasks: seq<T>, deps: seq<Edge<T>>, graph: map<T, seq<T>>,
                             order: seq<T>, queue: seq<T>, inDegree: map<T, int>)
    returns (order': seq<T>, queue': seq<T>, inDegree': map<T, int>)
    requires Inv(tasks, deps, order, queue) && queue != []
    requires forall t :: t in tasks ==> t in graph && graph[t] == Successors(deps, t)
    requires forall t :: t in inDegree <==> t in tasks
    requires forall t :: t in tasks ==> inDegree[t] == Pending(deps, order, t)
    ensures order' == order + [queue[0]]
    ensures queue' == queue[1..] + Unblocked(deps, queue[0], order')
    ensures forall t :: t in inDegree' <==> t in tasks
    ensures forall t :: t in tasks ==> inDegree'[t] == Pending(deps, order', t)
  {
    DistinctSplit(order, queue);
    var current := queue[0];
    var adj := graph[current];
    forall t | t in tasks
      ensures inDegree[t] == Pending(deps, order + [current], t) + Count(adj, t)
    {
      PendingPop(deps, order, current, t);
    }
    forall x | x in adj
      ensures x in tasks
    {
      SuccessorsEdges(deps, current, x);
    }
    order' := order + [current];
    inDegree', queue' := ReleaseDependents(tasks, deps, order', adj, inDegree, queue[1..]);
  }

  /**
   * The source's algorithm over mutable maps and a queue: build the graph,
   * seed the queue, run the loop, compare lengths.
   */
  method TopologicalSort<T(==,!new)>(tasks: seq<T>, deps: seq<Edge<T>>) returns (r: SortResult<T>)
    requires WellFormed(tasks, deps)
    ensures r == KahnSort(tasks, deps)
    ensures r.Order? ==> IsTopologicalOrder(tasks, deps, r.order)
  {
    var graph, inDegree := BuildGraph(tasks, deps);
    var queue := SeedQueue(tasks, deps, inDegree);
    InitInv(tasks, deps);

    var order := [];
    while queue != []
      invariant Inv(tasks, deps, order, queue)
      invariant LoopsTo(tasks, deps, order, queue)
      invariant forall t :: t in inDegree <==> t in tasks
      invariant forall t :: t in tasks ==> inDegree[t] == Pending(deps, order, t)
      decreases |tasks| - |order|
    {
      StepInv(tasks, deps, order, queue);
      ghost var order0, queue0 := order, queue;
      order, queue, inDegree := Dequeue(tasks, deps, graph, order, queue, inDegree);
      LoopsToTurn(tasks, deps, order0, queue0, order, queue);
    }
    assert order + [] == order;

    if |order| == |tasks| {
      r := Order(order);
    } else {
      r := Cycle(CycleMessage);
    }
  }
}
