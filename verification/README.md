# Task scheduler: dependency ordering and sequential time-budget execution

A Dafny model of the two sequential algorithms in `task_scheduler.py`.

- **Dependency ordering (`topological_sort`).** This is Kahn's algorithm. It builds an adjacency list and an in-degree count per task from `(prerequisite, dependent)` pairs. It seeds a FIFO queue with the tasks of in-degree zero, in declared order. It then repeatedly dequeues a task, appends it to the order and lowers the in-degree of its dependents, enqueuing each one that reaches zero. If the order ends shorter than the task list, it raises "Cycle detected in task dependencies and its not a good sign :(".
- **Sequential time-budget execution (`execute_tasks`).** The threshold time is a fraction (default 0.8) of the total duration. The executor then walks the order with a clock starting at 0 and puts each task into one of four buckets: successful, failed, cancelled or unfinished.
  - A zero duration is retried twice with zero again, and the task then fails.
  - A task reached at or after the threshold is cancelled, and the walk goes on.
  - A task that would end after the timeout is unfinished, and the rest are cancelled.
  - A task reached at or after the timeout is cancelled together with the rest.
  - Any other task runs (`run_task` returns start + duration), and the clock advances.

## Modules

| module | file | contents |
|---|---|---|
| `Seqs` | seqs.dfy | repetition-freeness, counting, subsequences, and permutation facts |
| `Graph` | graph.dfy | edges, the dependents list (`Successors`), the in-degree once some tasks are done (`Pending`), and the imperative graph builder |
| `Kahn` | kahn.dfy | `KahnSort`, the reference definition (a recursive `Drain` of the queue); `TopologicalSort`, the imperative algorithm over maps and a queue, proved equal to it; soundness, and the cycle characterisation |
| `Budget` | budget.dfy | `Classify`, the classification walk as a recursive function; `RunSchedule`, the imperative loop, proved equal to it; the partition, order, timing and stopping properties |
| `Scheduler` | scheduler.dfy | `ExecuteTasks`, the ordering followed by the classification |
| `Examples` | examples.dfy | the concrete vectors of `unit_test.py`, proved on the model |

Task names are a type parameter `T`; the examples use a five-constructor datatype `Name`. Durations are a function `dur: T -> nat` given as input. Timeout and threshold are exact `real`s. The clock is a `nat`, because durations are whole seconds. The source's in-degree map is related to `Pending(deps, order, t)`, the number of edges `(p, t)` whose prerequisite `p` is not yet in the order.

## Model

| member | source | states |
|---|---|---|
| `Graph.BuildGraph` | task_scheduler.py:29-34 | both maps are keyed by exactly the declared tasks; each task's list holds its dependents in edge order; each in-degree is the number of edges into the task |
| `Graph.SuccessorsEdges` | task_scheduler.py:32-33 | a task is listed among the dependents of `p` exactly when the edge `(p, x)` is declared |
| `Graph.PendingZero` | task_scheduler.py:34 | an in-degree is zero exactly when every prerequisite of the task is done |
| `Graph.PendingPop` | task_scheduler.py:45-46 | finishing `c` lowers the in-degree of `t` by the number of times `t` is listed among `c`'s dependents |
| `Kahn.ReadySound` | task_scheduler.py:37 | the initial queue holds exactly the tasks with in-degree zero, each once |
| `Kahn.SeedQueue` | task_scheduler.py:37 | the seeding comprehension yields the in-degree-zero tasks in declared order |
| `Kahn.ReleaseDependents` | task_scheduler.py:45-48 | after the inner loop, every in-degree counts only unfinished prerequisites; the queue has grown by the released dependents, each one at its last listing with count zero |
| `Kahn.Dequeue` | task_scheduler.py:41-48 | one turn appends the queue head to the order, enqueues the dependents it unblocks, and keeps the in-degree map exact |
| `Kahn.StepInv` | task_scheduler.py:40-48 | a turn keeps the loop invariant: order ++ queue has no repeats and holds only tasks; ordered tasks came after their prerequisites; queued tasks are ready; every other task still waits |
| `Kahn.DrainInv` | task_scheduler.py:40-48 | the loop ends with an empty queue within one turn per task, in a state that satisfies the invariant |
| `Kahn.DrainExtends` | task_scheduler.py:42 | the loop only ever appends to the order |
| `Kahn.KahnSort` | task_scheduler.py:27-55 | an `Order` result is a permutation of the tasks with each prerequisite strictly before its dependent; a `Cycle` result carries the source's message |
| `Kahn.TopologicalSort` | task_scheduler.py:27-55 | the imperative algorithm over maps and a FIFO queue returns exactly `KahnSort`'s result, with the same soundness |
| `Kahn.CycleIffNoOrder` | task_scheduler.py:52-55 | the cycle error is raised exactly when no topological order of the tasks exists (both directions) |
| `Kahn.CycleLeavesStuckTasks` | task_scheduler.py:52-55 | on the cycle error, the unreached tasks form a non-empty set in which each task has a prerequisite inside the set |
| `Kahn.SelfEdgeIsCycle` | task_scheduler.py:32-55 | a task that depends on itself makes the sort fail |
| `Kahn.NoEdgesKeepsOrder` | task_scheduler.py:37-48 | with no dependencies the order is the declared task list, unchanged |
| `Budget.ThresholdTime` | task_scheduler.py:73-74 | the threshold is non-negative for a non-negative fraction, and at most the total duration for a fraction up to 1 |
| `Budget.Retry` | task_scheduler.py:92-99 | the retry loop never changes the duration; it retries exactly twice on a zero duration and never on a positive one |
| `Budget.Decide` | task_scheduler.py:101-126 | the verdict on one task, each of the five cases as an if-and-only-if over duration, clock, threshold and timeout |
| `Budget.Classify` | task_scheduler.py:79-129 | every task of the order is counted in one bucket, and at most one task is unfinished |
| `Budget.ClassifyPartition` | task_scheduler.py:79-129 | the four buckets together are a permutation of the order |
| `Budget.ClassifyKeepsOrder` | task_scheduler.py:88-129 | each bucket is a subsequence of the order |
| `Budget.ClassifyDurations` | task_scheduler.py:101-104 | only zero-duration tasks fail, and none of them succeeds or is left unfinished |
| `Budget.ClassifyStops` | task_scheduler.py:88-126 | the walk visits a prefix of the order, and the failed tasks are exactly the zero-duration tasks of that prefix; after an unfinished task every later task is cancelled; otherwise the walk reached the end or cancelled the rest from where it stopped |
| `Budget.AfterThreshold` | task_scheduler.py:106-112 | once the clock reaches the threshold (inclusive), the rest of the walk fails the zero-duration tasks, cancels all others in order, and runs nothing |
| `Budget.PastTimeout` | task_scheduler.py:115-126 | once the clock reaches the timeout, no further task succeeds or is left unfinished |
| `Budget.ClassifyTiming` | task_scheduler.py:106-129 | each successful task starts once the earlier successful tasks have run, strictly below threshold and timeout, and ends no later than the timeout |
| `Budget.VisitTask` | task_scheduler.py:88-129 | one iteration of the loop body appends to the buckets and advances the clock, consistently with the recursive walk; on an early exit it has also cancelled the rest |
| `Budget.RunSchedule` | task_scheduler.py:79-129 | the imperative loop with its early exits computes `Classify`'s buckets, and its final clock is the total duration of the successful tasks |
| `Scheduler.ExecuteTasks` | task_scheduler.py:59-129 | a run aborts with the cycle message exactly when no order exists; otherwise the order is topological, the buckets partition the task set without repeats, and at most one task is unfinished |
| `Scheduler.RunExecuteTasks` | task_scheduler.py:59-129 | the imperative sort followed by the imperative loop gives the same outcome, and the clock ends at the total duration of the successful tasks |
| `Examples.BasicSortOrder` | unit_test.py:6-11 | `[A, B, C, D]` with `[(B, A), (B, D), (C, D)]` is ordered `[B, C, A, D]` |
| `Examples.NoDependencyOrders` | unit_test.py:14-18 | with no dependencies `[A, B, C]`, `[]` and `[A]` are returned unchanged (also the vectors of lines 74-85) |
| `Examples.CycleVector` | unit_test.py:21-26 | the 3-cycle `[(A, B), (B, C), (C, A)]` gives the cycle error with its message |
| `Examples.ChainSortOrder` | unit_test.py:35-36 | the chain `A -> B -> C` is ordered `[A, B, C]` |
| `Examples.AllWithinTimeout` | unit_test.py:29-42 | with every duration 2 and timeout 10, A, B and C all succeed (threshold 4.8) |
| `Examples.FirstOverruns` | unit_test.py:44-58 | with every duration 6 and timeout 5, A is unfinished and B, C are cancelled (threshold 14.4) |
| `Examples.LayeredSortOrder` | unit_test.py:88-93 | `[A..E]` with `[(B, A), (C, B), (D, A), (D, C), (E, D)]` is ordered `[E, D, C, B, A]` |
| `Examples.ThresholdIsInclusive` | task_scheduler.py:108-112 | a task reached exactly at the threshold is cancelled, and the next task is still visited (and cancelled too) |

## Left out

- `concurrent_execute_tasks` and its thread pool (task_scheduler.py:142-194): its completion order is nondeterministic, and it has no classification logic beyond "every task succeeds".
- Random durations (`randint`, task_scheduler.py:66): durations are an input function `dur`. The retry loop reassigns zero, so no random draw happens after the initial one.
- `sleep`, `time` and all printing, including the summary lines: the buckets are returned instead of printed. `run_task` is modelled by its return value `start + duration` (`Budget.RunTask`).
- Floating-point rounding of `total * 0.8`: the threshold is computed in exact `real` arithmetic.
- The `try`/`except` that prints `Error: ...` (task_scheduler.py:138-139): it becomes the `Aborted` outcome carrying the same message.
- Unknown task names in edges (a `KeyError` at lines 33-34) and duplicate task names: excluded by the precondition `WellFormed`.
- The module-level demonstration run (task_scheduler.py:197-225).
- Unbounded looping in the reference definition: `Drain` carries a fuel of one turn per task so that it terminates syntactically. `Kahn.DrainInv` proves the queue always runs dry within that fuel, so the bound never cuts the loop short.
- The retry count: the retry loop is the separate `Budget.Retry`, which `Budget.Decide` calls. The walk uses only the resulting duration, since the count matters only for a printed message.
