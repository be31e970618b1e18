/**
 * The unit-test vectors of the repository, stated as facts about the model:
 * the exact orders `topological_sort` returns, its cycle error, and the two
 * `execute_tasks` scenarios with every duration fixed.
 */
module Examples {
  import opened Seqs
  import opened Graph
  import opened Kahn
  import opened Budget
  import opened Scheduler

  datatype Name = A | B | C | D | E

  /**
   * One turn of the loop from `(order, [c] + rest)`: `c` lists the dependents
   * `adj`, of which `released` become ready once `c` is ordered.
   */
  lemma Turned(deps: seq<Edge<Name>>, order: seq<Name>, c: Name, rest: seq<Name>, fuel: nat,
               order': seq<Name>, adj: seq<Name>, released: seq<Name>, queue': seq<Name>)
    requires fuel > 0 && order + [c] == order' && rest + released == queue'
    requires Successors(deps, c) == adj && Released(deps, adj, order', |adj|) == released
    ensures Drain(deps, order, [c] + rest, fuel) == Drain(deps, order', queue', fuel - 1)
  {
    assert ([c] + rest)[1..] == rest;
  }

  const Tasks4: seq<Name> := [A, B, C, D]
  const Deps4: seq<Edge<Name>> := [(B, A), (B, D), (C, D)]

  /** The four turns of the loop on the four-task vector, given what each turn releases. */
  lemma BasicRun(deps: seq<Edge<Name>>)
    requires Successors(deps, B) == [A, D] && Released(deps, [A, D], [B], 2) == [A]
    requires Successors(deps, C) == [D] && Released(deps, [D], [B, C], 1) == [D]
    requires Successors(deps, A) == [] && Successors(deps, D) == []
    ensures Drain(deps, [], [B, C], 4) == [B, C, A, D]
  {
    Turned(deps, [], B, [C], 4, [B], [A, D], [A], [C, A]);
    Turned(deps, [B], C, [A], 3, [B, C], [D], [D], [A, D]);
    Turned(deps, [B, C], A, [D], 2, [B, C, A], [], [], [D]);
    Turned(deps, [B, C, A], D, [], 1, [B, C, A, D], [], [], []);
  }

  lemma BasicFirst()
    ensures Successors(Deps4, B) == [A, D] && Released(Deps4, [A, D], [B], 2) == [A]
  {
  }

  lemma BasicSecond()
    ensures Successors(Deps4, C) == [D] && Released(Deps4, [D], [B, C], 1) == [D]
  {
  }

  lemma BasicLeaves()
    ensures Successors(Deps4, A) == [] && Successors(Deps4, D) == []
  {
  }

  lemma BasicSeed()
    ensures WellFormed(Tasks4, Deps4) && Ready(Tasks4, Deps4, []) == [B, C]
  {
  }

  /** Lines 6-11 of the tests: the four-task vector. */
  lemma BasicSortOrder()
    ensures KahnSort(Tasks4, Deps4) == Order([B, C, A, D])
  {
    BasicSeed();
    BasicFirst();
    BasicSecond();
    BasicLeaves();
    BasicRun(Deps4);
  }

  const Tasks5: seq<Name> := [A, B, C, D, E]
  const Deps5: seq<Edge<Name>> := [(B, A), (C, B), (D, A), (D, C), (E, D)]

  /** The five turns of the loop on the five-task vector, given what each turn releases. */
  lemma LayeredRun(deps: seq<Edge<Name>>)
    requires Successors(deps, E) == [D] && Released(deps, [D], [E], 1) == [D]
    requires Successors(deps, D) == [A, C] && Released(deps, [A, C], [E, D], 2) == [C]
    requires Successors(deps, C) == [B] && Released(deps, [B], [E, D, C], 1) == [B]
    requires Successors(deps, B) == [A] && Released(deps, [A], [E, D, C, B], 1) == [A]
    requires Successors(deps, A) == []
    ensures Drain(deps, [], [E], 5) == [E, D, C, B, A]
  {
    Turned(deps, [], E, [], 5, [E], [D], [D], [D]);
    Turned(deps, [E], D, [], 4, [E, D], [A, C], [C], [C]);
    LayeredRunTail(deps);
  }

  lemma LayeredRunTail(deps: seq<Edge<Name>>)
    requires Successors(deps, C) == [B] && Released(deps, [B], [E, D, C], 1) == [B]
    requires Successors(deps, B) == [A] && Released(deps, [A], [E, D, C, B], 1) == [A]
    requires Successors(deps, A) == []
    ensures Drain(deps, [E, D], [C], 3) == [E, D, C, B, A]
  {
    Turned(deps, [E, D], C, [], 3, [E, D, C], [B], [B], [B]);
    Turned(deps, [E, D, C], B, [], 2, [E, D, C, B], [A], [A], [A]);
    Turned(deps, [E, D, C, B], A, [], 1, [E, D, C, B, A], [], [], []);
  }

  lemma LayeredFirst()
    ensures Successors(Deps5, E) == [D] && Released(Deps5, [D], [E], 1) == [D]
  {
  }

  lemma LayeredSecond()
    ensures Successors(Deps5, D) == [A, C] && Released(Deps5, [A, C], [E, D], 2) == [C]
  {
  }

  lemma LayeredThird()
    ensures Successors(Deps5, C) == [B] && Released(Deps5, [B], [E, D, C], 1) == [B]
  {
  }

  lemma LayeredFourth()
    ensures Successors(Deps5, B) == [A] && Released(Deps5, [A], [E, D, C, B], 1) == [A]
    ensures Successors(Deps5, A) == []
  {
  }

  lemma LayeredSeed()
    ensures Ready(Tasks5, Deps5, []) == [E]
  {
  }

  /** Lines 88-93 of the tests: five tasks in layers of dependencies. */
  lemma LayeredSortOrder()
    ensures KahnSort(Tasks5, Deps5) == Order([E, D, C, B, A])
  {
    assert WellFormed(Tasks5, Deps5);
    LayeredSeed();
    LayeredFirst();
    LayeredSecond();
    LayeredThird();
    LayeredFourth();
    LayeredRun(Deps5);
  }

  /** Lines 21-26 of the tests: a three-task cycle raises the cycle error. */
  lemma CycleVector()
    ensures KahnSort([A, B, C], [(A, B), (B, C), (C, A)]) == Cycle(CycleMessage)
  {
    var tasks, deps := [A, B, C], [(A, B), (B, C), (C, A)];
    assert WellFormed(tasks, deps);
    assert Ready(tasks, deps, []) == [];
  }

  /** Lines 14-18, 74-78 and 81-85 of the tests: without dependencies the declared order is kept. */
  lemma NoDependencyOrders()
    ensures KahnSort([A, B, C], []) == Order([A, B, C])
    ensures KahnSort<Name>([], []) == Order([])
    ensures KahnSort([A], []) == Order([A])
  {
    NoEdgesKeepsOrder([A, B, C]);
    NoEdgesKeepsOrder<Name>([]);
    NoEdgesKeepsOrder([A]);
  }

  const Tasks3: seq<Name> := [A, B, C]
  const Chain3: seq<Edge<Name>> := [(A, B), (B, C)]

  /** The three turns of the loop on a chain of three tasks, given what each turn releases. */
  lemma ChainRun(deps: seq<Edge<Name>>)
    requires Successors(deps, A) == [B] && Released(deps, [B], [A], 1) == [B]
    requires Successors(deps, B) == [C] && Released(deps, [C], [A, B], 1) == [C]
    requires Successors(deps, C) == []
    ensures Drain(deps, [], [A], 3) == [A, B, C]
  {
    Turned(deps, [], A, [], 3, [A], [B], [B], [B]);
    Turned(deps, [A], B, [], 2, [A, B], [C], [C], [C]);
    Turned(deps, [A, B], C, [], 1, [A, B, C], [], [], []);
  }

  lemma ChainReleases()
    ensures Successors(Chain3, A) == [B] && Released(Chain3, [B], [A], 1) == [B]
    ensures Successors(Chain3, B) == [C] && Released(Chain3, [C], [A, B], 1) == [C]
    ensures Successors(Chain3, C) == []
  {
  }

  lemma ChainSeed()
    ensures WellFormed(Tasks3, Chain3) && Ready(Tasks3, Chain3, []) == [A]
  {
  }

  /** The chain `A -> B -> C` of the executor tests is ordered as declared. */
  lemma ChainSortOrder()
    ensures KahnSort(Tasks3, Chain3) == Order([A, B, C])
  {
    ChainSeed();
    ChainReleases();
    ChainRun(Chain3);
  }

  /** A run whose order and buckets are known. */
  lemma ExecutesAs(tasks: seq<Name>, deps: seq<Edge<Name>>, dur: Name -> nat, timeout: real, fraction: real,
                   o: seq<Name>, threshold: real, b: Buckets<Name>)
    requires WellFormed(tasks, deps) && KahnSort(tasks, deps) == Order(o)
    requires ThresholdTime(tasks, dur, fraction) == threshold && Classify(o, dur, 0, timeout, threshold) == b
    ensures ExecuteTasks(tasks, deps, dur, timeout, fraction) == Completed(o, b)
  {
  }

  function Two(t: Name): nat { 2 }
  function Six(t: Name): nat { 6 }

  /** With 2 seconds per task the threshold is 4.8 and each task of the chain runs. */
  lemma TwoSecondBuckets()
    ensures ThresholdTime(Tasks3, Two, DefaultStartThreshold) == 4.8
    ensures Classify([A, B, C], Two, 0, 10.0, 4.8) == Buckets([A, B, C], [], [], [])
  {
    assert Classify([C], Two, 4, 10.0, 4.8) == Buckets([C], [], [], []);
    assert Classify([B, C], Two, 2, 10.0, 4.8) == Buckets([B, C], [], [], []);
  }

  /**
   * Lines 29-42 of the tests: every task takes 2 seconds and the timeout is
   * 10; the threshold is 4.8, so the third task still starts, and all three
   * succeed.
   */
  lemma AllWithinTimeout()
    ensures ExecuteTasks(Tasks3, Chain3, Two, 10.0, DefaultStartThreshold)
         == Completed([A, B, C], Buckets([A, B, C], [], [], []))
  {
    ChainSeed();
    ChainSortOrder();
    TwoSecondBuckets();
    ExecutesAs(Tasks3, Chain3, Two, 10.0, DefaultStartThreshold, [A, B, C], 4.8, Buckets([A, B, C], [], [], []));
  }

  /** With 6 seconds per task the threshold is 14.4 and the first task overruns the timeout of 5. */
  lemma SixSecondBuckets()
    ensures ThresholdTime(Tasks3, Six, DefaultStartThreshold) == 14.4
    ensures Classify([A, B, C], Six, 0, 5.0, 14.4) == Buckets([], [], [B, C], [A])
  {
  }

  /**
   * Lines 44-58 of the tests: every task takes 6 seconds and the timeout is
   * 5; the first task cannot finish in time and the others are cancelled.
   */
  lemma FirstOverruns()
    ensures ExecuteTasks(Tasks3, Chain3, Six, 5.0, DefaultStartThreshold)
         == Completed([A, B, C], Buckets([], [], [B, C], [A]))
  {
    ChainSeed();
    ChainSortOrder();
    SixSecondBuckets();
    ExecutesAs(Tasks3, Chain3, Six, 5.0, DefaultStartThreshold, [A, B, C], 14.4, Buckets([], [], [B, C], [A]));
  }

  /** A task reached exactly at the start threshold is cancelled, and the walk goes on. */
  lemma ThresholdIsInclusive()
    ensures Decide(3, 8, 100.0, 8.0) == ThresholdCancel
    ensures Classify([A, B], Six, 8, 100.0, 8.0) == Buckets([], [], [A, B], [])
  {
  }
}
