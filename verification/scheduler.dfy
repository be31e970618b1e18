/**
 * The sequential entry point `execute_tasks`: order the tasks, compute the
 * start threshold from the total duration, and classify the tasks along the
 * order. Durations are an input; the cycle error that the source catches and
 * prints is an `Aborted` outcome carrying the error message.
 */
module Scheduler {
  import opened Seqs
  import opened Graph
  import opened Kahn
  import opened Budget

  datatype Outcome<T> =
    | Aborted(message: string)
    | Completed(order: seq<T>, buckets: Buckets<T>)

  /**
   * Lines 59-129: the buckets of a run with durations `dur`, the given
   * timeout and start-threshold fraction.
   */
  function ExecuteTasks<T(==,!new)>(tasks: seq<T>, deps: seq<Edge<T>>, dur: T -> nat, timeout: real, fraction: real)
    : (out: Outcome<T>)
    requires WellFormed(tasks, deps)
    ensures out.Aborted? <==> !Linearizable(tasks, deps)
    ensures out.Aborted? ==> out.message == CycleMessage
    ensures out.Completed? ==> IsTopologicalOrder(tasks, deps, out.order)
    ensures out.Completed? ==> multiset(out.buckets.All()) == multiset(tasks) && Distinct(out.buckets.All())
    ensures out.Completed? ==> |out.buckets.unfinished| <= 1
  {
    CycleIffNoOrder(tasks, deps);
    match KahnSort(tasks, deps)
    case Cycle(message) => Aborted(message)
    case Order(o) =>
      var b := Classify(o, dur, 0, timeout, ThresholdTime(tasks, dur, fraction));
      ClassifyPartition(o, dur, 0, timeout, ThresholdTime(tasks, dur, fraction));
      ContentsAll(b);
      PermutationDistinct(b.All(), tasks);
      Completed(o, b)
  }

  /**
   * The same run computed the way the source does it: the imperative
   * Kahn's algorithm followed by the classification loop.
   */
  method RunExecuteTasks<T(==,!new)>(tasks: seq<T>, deps: seq<Edge<T>>, dur: T -> nat, timeout: real, fraction: real)
    returns (out: Outcome<T>, clock: nat)
    requires WellFormed(tasks, deps)
    ensures out == ExecuteTasks(tasks, deps, dur, timeout, fraction)
    ensures out.Completed? ==> clock == TotalDuration(out.buckets.successful, dur)
  {
    var sorted := TopologicalSort(tasks, deps);
    match sorted
    case Cycle(message) =>
      out, clock := Aborted(message), 0;
    case Order(o) =>
      var threshold := ThresholdTime(tasks, dur, fraction);
      var b;
      b, clock := RunSchedule(o, dur, timeout, threshold);
      out := Completed(o, b);
  }
}
