/**
 * Sequential time-budget executor: the classification loop of
 * `execute_tasks`, which walks the execution order with a running clock and
 * puts each task into exactly one of four buckets.
 *
 * Durations are an input (the source draws them at random before the loop);
 * the clock starts at 0 and only a successful task advances it.
 */
module Budget {
  import opened Seqs

  datatype Buckets<T> = Buckets(successful: seq<T>, failed: seq<T>, cancelled: seq<T>, unfinished: seq<T>)
  {
    /** Every classified task, bucket after bucket. */
    function All(): seq<T> {
      successful + failed + cancelled + unfinished
    }
  }

  /** The classified tasks, counted with multiplicity. */
  function Contents<T(==)>(b: Buckets<T>): multiset<T> {
    multiset(b.successful) + multiset(b.failed) + multiset(b.cancelled) + multiset(b.unfinished)
  }

  lemma ContentsAll<T>(b: Buckets<T>)
    ensures Contents(b) == multiset(b.All())
  {
  }

  /** The buckets of `a` followed, bucket by bucket, by those of `b`. */
  function Join<T>(a: Buckets<T>, b: Buckets<T>): Buckets<T> {
    Buckets(a.successful + b.successful, a.failed + b.failed, a.cancelled + b.cancelled, a.unfinished + b.unfinished)
  }

  /** How many times a zero duration is retried before the task fails. */
  const MaxRetries: nat := 2

  /** Fraction of the total duration after which no task may start (the source's default). */
  const DefaultStartThreshold: real := 0.8

  /** `run_task` without its logging and sleep: the clock after running a task. */
  function RunTask(start: nat, duration: nat): nat {
    start + duration
  }

  /**
   * The retry loop of lines 92-99: while the duration is zero and fewer than
   * `MaxRetries` retries were made, retry (reassigning zero). Returns the
   * duration and the number of retries made.
   */
  function Retry(duration: nat, retries: nat): (r: (nat, nat))
    requires retries <= MaxRetries
    ensures r.0 == duration
    ensures retries <= r.1 <= MaxRetries
    ensures duration == 0 ==> r.1 == MaxRetries
    ensures duration != 0 ==> r.1 == retries
    decreases MaxRetries - retries
  {
    if duration == 0 && retries < MaxRetries then Retry(0, retries + 1) else (duration, retries)
  }

  /** Sum of the durations of the tasks of `s`. */
  function TotalDuration<T>(s: seq<T>, dur: T -> nat): nat {
    if s == [] then 0 else dur(s[0]) + TotalDuration(s[1..], dur)
  }

  lemma {:induction false} TotalDurationAppend<T>(s: seq<T>, t: T, dur: T -> nat)
    ensures TotalDuration(s + [t], dur) == TotalDuration(s, dur) + dur(t)
    decreases |s|
  {
    if s != [] {
      assert (s + [t])[1..] == s[1..] + [t];
      TotalDurationAppend(s[1..], t, dur);
    } else {
      assert [] + [t] == [t];
    }
  }

  /** Lines 73-74: the start threshold is a fraction of the total duration of all tasks. */
  function ThresholdTime<T>(tasks: seq<T>, dur: T -> nat, fraction: real): (r: real)
    ensures 0.0 <= fraction ==> 0.0 <= r
    ensures fraction <= 1.0 ==> r <= TotalDuration(tasks, dur) as real
  {
    var total := TotalDuration(tasks, dur) as real;
    assert fraction <= 1.0 ==> total * fraction <= total * 1.0;
    total * fraction
  }

  /** The tasks of `s` whose duration is zero, in order. */
  function ZeroDuration<T>(s: seq<T>, dur: T -> nat): seq<T> {
    if s == [] then [] else (if dur(s[0]) == 0 then [s[0]] else []) + ZeroDuration(s[1..], dur)
  }

  /** The tasks of `s` whose duration is positive, in order. */
  function PositiveDuration<T>(s: seq<T>, dur: T -> nat): seq<T> {
    if s == [] then [] else (if dur(s[0]) != 0 then [s[0]] else []) + PositiveDuration(s[1..], dur)
  }

  /** What happens to one task. */
  datatype Verdict = Fail | ThresholdCancel | Overrun | TimeoutCancel | Run

  /**
   * Lines 89-126: the verdict on a task of assigned duration `duration` met
   * with the clock at `now`; the checks are made in the source's order.
   */
  function Decide(duration: nat, now: nat, timeout: real, threshold: real): (v: Verdict)
    ensures v == Fail <==> duration == 0
    ensures v == ThresholdCancel <==> duration != 0 && now as real >= threshold
    ensures v == Overrun <==>
              duration != 0 && now as real < threshold && now as real < timeout && (now + duration) as real > timeout
    ensures v == TimeoutCancel <==> duration != 0 && now as real < threshold && now as real >= timeout
    ensures v == Run <==>
              duration != 0 && now as real < threshold && now as real < timeout && (now + duration) as real <= timeout
  {
    var (d, _) := Retry(duration, 0);
    if d == 0 then Fail
    else if now as real >= threshold then ThresholdCancel
    else if now as real < timeout then (if (now + d) as real > timeout then Overrun else Run)
    else TimeoutCancel
  }

  /**
   * The loop of lines 79-129, from the task `rest[0]` on with the clock at
   * `now`: a failed or threshold-cancelled task is recorded and the walk goes
   * on; an overrunning task is unfinished and the rest are cancelled; a task
   * reached at or after the timeout is cancelled with the rest; a task that
   * runs advances the clock by its duration.
   */
  function Classify<T(!new)>(rest: seq<T>, dur: T -> nat, now: nat, timeout: real, threshold: real): (b: Buckets<T>)
    ensures |b.successful| + |b.failed| + |b.cancelled| + |b.unfinished| == |rest|
    ensures |b.unfinished| <= 1
    decreases |rest|
  {
    if rest == [] then Buckets([], [], [], [])
    else
      var t := rest[0];
      match Decide(dur(t), now, timeout, threshold)
      case Fail =>
        var b := Classify(rest[1..], dur, now, timeout, threshold);
        b.(failed := [t] + b.failed)
      case ThresholdCancel =>
        var b := Classify(rest[1..], dur, now, timeout, threshold);
        b.(cancelled := [t] + b.cancelled)
      case Overrun =>
        Buckets([], [], rest[1..], [t])
      case TimeoutCancel =>
        Buckets([], [], rest, [])
      case Run =>
        var b := Classify(rest[1..], dur, RunTask(now, dur(t)), timeout, threshold);
        b.(successful := [t] + b.successful)
  }

  /** Every task of the order lands in exactly one bucket. */
  lemma {:induction false} ClassifyPartition<T(!new)>(rest: seq<T>, dur: T -> nat, now: nat, timeout: real, threshold: real)
    ensures Contents(Classify(rest, dur, now, timeout, threshold)) == multiset(rest)
    decreases |rest|
  {
    if rest != [] {
      var t := rest[0];
      assert rest == [t] + rest[1..];
      match Decide(dur(t), now, timeout, threshold)
      case Fail =>
        ClassifyPartition(rest[1..], dur, now, timeout, threshold);
        ContentsVisit(rest, Classify(rest[1..], dur, now, timeout, threshold), Classify(rest, dur, now, timeout, threshold));
      case ThresholdCancel =>
        ClassifyPartition(rest[1..], dur, now, timeout, threshold);
        ContentsVisit(rest, Classify(rest[1..], dur, now, timeout, threshold), Classify(rest, dur, now, timeout, threshold));
      case Overrun =>
      case TimeoutCancel =>
      case Run =>
        var next := RunTask(now, dur(t));
        ClassifyPartition(rest[1..], dur, next, timeout, threshold);
        ContentsVisit(rest, Classify(rest[1..], dur, next, timeout, threshold), Classify(rest, dur, now, timeout, threshold));
    }
  }

  /** Recording `rest[0]` in one bucket of a partition of `rest[1..]` gives a partition of `rest`. */
  lemma ContentsVisit<T>(rest: seq<T>, inner: Buckets<T>, b: Buckets<T>)
    requires rest != [] && Contents(inner) == multiset(rest[1..])
    requires || b == inner.(successful := [rest[0]] + inner.successful)
             || b == inner.(failed := [rest[0]] + inner.failed)
             || b == inner.(cancelled := [rest[0]] + inner.cancelled)
    ensures Contents(b) == multiset(rest)
  {
    assert rest == [rest[0]] + rest[1..];
  }


  /** Each bucket keeps the tasks in execution order. */
  lemma {:induction false} ClassifyKeepsOrder<T(!new)>(rest: seq<T>, dur: T -> nat, now: nat, timeout: real, threshold: real)
    ensures var b := Classify(rest, dur, now, timeout, threshold);
            && IsSubsequence(b.successful, rest) && IsSubsequence(b.failed, rest)
            && IsSubsequence(b.cancelled, rest) && IsSubsequence(b.unfinished, rest)
    decreases |rest|
  {
    if rest != [] {
      var t := rest[0];
      match Decide(dur(t), now, timeout, threshold)
      case Fail =>
        ClassifyKeepsOrder(rest[1..], dur, now, timeout, threshold);
      case ThresholdCancel =>
        ClassifyKeepsOrder(rest[1..], dur, now, timeout, threshold);
      case Overrun =>
        SubsequenceRefl(rest[1..]);
      case TimeoutCancel =>
        SubsequenceRefl(rest);
      case Run =>
        ClassifyKeepsOrder(rest[1..], dur, RunTask(now, dur(t)), timeout, threshold);
    }
  }

  /**
   * Zero-duration tasks never succeed and never end unfinished, and only they
   * fail.
   */
  lemma {:induction false} ClassifyDurations<T(!new)>(rest: seq<T>, dur: T -> nat, now: nat, timeout: real, threshold: real)
    ensures var b := Classify(rest, dur, now, timeout, threshold);
            && (forall t :: t in b.failed ==> dur(t) == 0)
            && (forall t :: t in b.successful ==> dur(t) > 0)
            && (forall t :: t in b.unfinished ==> dur(t) > 0)
    decreases |rest|
  {
    if rest != [] {
      var t := rest[0];
      match Decide(dur(t), now, timeout, threshold)
      case Fail =>
        ClassifyDurations(rest[1..], dur, now, timeout, threshold);
      case ThresholdCancel =>
        ClassifyDurations(rest[1..], dur, now, timeout, threshold);
      case Overrun =>
      case TimeoutCancel =>
      case Run =>
        ClassifyDurations(rest[1..], dur, RunTask(now, dur(t)), timeout, threshold);
    }
  }

  /**
   * Run back to back from time `start`, each task of `s` starts strictly
   * before the threshold and the timeout and ends no later than the timeout.
   */
  predicate OnTime<T>(s: seq<T>, dur: T -> nat, start: nat, timeout: real, threshold: real) {
    forall k :: 0 <= k < |s| ==>
      var begin := start + TotalDuration(s[..k], dur);
      && (begin as real) < threshold
      && (begin as real) < timeout
      && ((begin + dur(s[k])) as real) <= timeout
  }

  /**
   * The clock: the `k`-th successful task starts once the earlier successful
   * tasks have run, strictly before the threshold and the timeout, and ends
   * no later than the timeout.
   */
  lemma {:induction false} ClassifyTiming<T(!new)>(rest: seq<T>, dur: T -> nat, now: nat, timeout: real, threshold: real)
    ensures OnTime(Classify(rest, dur, now, timeout, threshold).successful, dur, now, timeout, threshold)
    decreases |rest|
  {
    if rest != [] {
      var t := rest[0];
      match Decide(dur(t), now, timeout, threshold)
      case Fail =>
        ClassifyTiming(rest[1..], dur, now, timeout, threshold);
      case ThresholdCancel =>
        ClassifyTiming(rest[1..], dur, now, timeout, threshold);
      case Overrun =>
      case TimeoutCancel =>
      case Run =>
        var d := dur(t);
        ClassifyTiming(rest[1..], dur, RunTask(now, d), timeout, threshold);
        var b := Classify(rest[1..], dur, RunTask(now, d), timeout, threshold);
        OnTimeCons(t, b.successful, dur, now, timeout, threshold);
    }
  }

  /** A task that fits before the deadlines, followed by tasks on time from its end, is on time. */
  lemma OnTimeCons<T>(t: T, s: seq<T>, dur: T -> nat, now: nat, timeout: real, threshold: real)
    requires (now as real) < threshold && (now as real) < timeout && ((now + dur(t)) as real) <= timeout
    requires OnTime(s, dur, now + dur(t), timeout, threshold)
    ensures OnTime([t] + s, dur, now, timeout, threshold)
  {
    var c := [t] + s;
    forall k | 0 <= k < |c|
      ensures var begin := now + TotalDuration(c[..k], dur);
              && (begin as real) < threshold
              && (begin as real) < timeout
              && ((begin + dur(c[k])) as real) <= timeout
    {
      if k == 0 {
        assert c[..k] == [];
      } else {
        assert c[..k] == [t] + s[..k - 1];
        assert ([t] + s[..k - 1])[1..] == s[..k - 1];
        assert c[k] == s[k - 1];
      }
    }
  }


  /**
   * Once the clock has reached the start threshold, the rest of the walk
   * fails the zero-duration tasks and cancels all others; nothing runs.
   */
  lemma {:induction false} AfterThreshold<T(!new)>(rest: seq<T>, dur: T -> nat, now: nat, timeout: real, threshold: real)
    requires threshold <= now as real
    ensures Classify(rest, dur, now, timeout, threshold) == Buckets([], ZeroDuration(rest, dur), PositiveDuration(rest, dur), [])
    decreases |rest|
  {
    if rest != [] {
      AfterThreshold(rest[1..], dur, now, timeout, threshold);
    }
  }

  /** Once the clock has reached the timeout, no further task runs or is left unfinished. */
  lemma {:induction false} PastTimeout<T(!new)>(rest: seq<T>, dur: T -> nat, now: nat, timeout: real, threshold: real)
    requires timeout <= now as real
    ensures Classify(rest, dur, now, timeout, threshold).successful == []
    ensures Classify(rest, dur, now, timeout, threshold).unfinished == []
    decreases |rest|
  {
    if rest != [] {
      PastTimeout(rest[1..], dur, now, timeout, threshold);
    }
  }

  /**
   * Where a walk over `rest` stopped: its first `v` tasks were visited and
   * the failed ones among them are exactly the zero-duration ones. If a task
   * is unfinished it is `rest[v]` and every task after it is cancelled;
   * otherwise the walk either went to the end or cancelled `rest[v]` and
   * everything after it.
   */
  predicate StopsAt<T(==)>(b: Buckets<T>, rest: seq<T>, dur: T -> nat, v: nat) {
    && v <= |rest|
    && b.failed == ZeroDuration(rest[..v], dur)
    && (b.unfinished == [] ==> EndsWith(b.cancelled, rest[v..]))
    && (b.unfinished != [] ==> v < |rest| && b.unfinished == [rest[v]] && EndsWith(b.cancelled, rest[v + 1..]))
  }

  /** The walk over `rest` stops somewhere, as `StopsAt` describes. */
  lemma {:induction false} ClassifyStops<T(!new)>(rest: seq<T>, dur: T -> nat, now: nat, timeout: real, threshold: real)
    returns (v: nat)
    ensures StopsAt(Classify(rest, dur, now, timeout, threshold), rest, dur, v)
    decreases |rest|
  {
    if rest == [] {
      v := 0;
    } else {
      var t := rest[0];
      match Decide(dur(t), now, timeout, threshold)
      case Overrun =>
        v := 0;
      case TimeoutCancel =>
        v := 0;
      case Fail =>
        var w := ClassifyStops(rest[1..], dur, now, timeout, threshold);
        v := StopsAtVisit(rest, dur, w, Classify(rest[1..], dur, now, timeout, threshold), Classify(rest, dur, now, timeout, threshold));
      case ThresholdCancel =>
        var w := ClassifyStops(rest[1..], dur, now, timeout, threshold);
        v := StopsAtVisit(rest, dur, w, Classify(rest[1..], dur, now, timeout, threshold), Classify(rest, dur, now, timeout, threshold));
      case Run =>
        var next := RunTask(now, dur(t));
        var w := ClassifyStops(rest[1..], dur, next, timeout, threshold);
        v := StopsAtVisit(rest, dur, w, Classify(rest[1..], dur, next, timeout, threshold), Classify(rest, dur, now, timeout, threshold));
    }
  }

  /** Visiting `rest[0]` without stopping moves the stop point one task on. */
  lemma StopsAtVisit<T>(rest: seq<T>, dur: T -> nat, w: nat, inner: Buckets<T>, b: Buckets<T>) returns (v: nat)
    requires rest != [] && StopsAt(inner, rest[1..], dur, w)
    requires b.failed == (if dur(rest[0]) == 0 then [rest[0]] else []) + inner.failed
    requires b.unfinished == inner.unfinished
    requires b.cancelled == inner.cancelled || b.cancelled == [rest[0]] + inner.cancelled
    ensures v == w + 1 && StopsAt(b, rest, dur, v)
  {
    v := w + 1;
    assert rest[..v][1..] == rest[1..][..w];
    assert rest[v..] == rest[1..][w..];
    if b.cancelled != inner.cancelled {
      var c := inner.cancelled;
      var x := if b.unfinished == [] then rest[v..] else rest[v + 1..];
      assert ([rest[0]] + c)[|c| + 1 - |x|..] == c[|c| - |x|..];
    }
  }

  /**
   * One step of the walk, seen from buckets `acc` already filled: what the
   * task `rest[0]` adds to them, in each of the five cases.
   */
  lemma WalkStep<T(!new)>(s: seq<T>, f: seq<T>, c: seq<T>, u: seq<T>, rest: seq<T>, dur: T -> nat, now: nat, timeout: real, threshold: real)
    requires rest != []
    ensures var t, whole := rest[0], Join(Buckets(s, f, c, u), Classify(rest, dur, now, timeout, threshold));
            match Decide(dur(t), now, timeout, threshold)
            case Fail =>
              whole == Join(Buckets(s, f + [t], c, u), Classify(rest[1..], dur, now, timeout, threshold))
            case ThresholdCancel =>
              whole == Join(Buckets(s, f, c + [t], u), Classify(rest[1..], dur, now, timeout, threshold))
            case Run =>
              whole == Join(Buckets(s + [t], f, c, u), Classify(rest[1..], dur, now + dur(t), timeout, threshold))
            case Overrun =>
              whole == Buckets(s, f, c + rest[1..], u + [t])
            case TimeoutCancel =>
              whole == Buckets(s, f, c + rest, u)
  {
    var t := rest[0];
    match Decide(dur(t), now, timeout, threshold)
    case Fail =>
      var b := Classify(rest[1..], dur, now, timeout, threshold);
      assert f + ([t] + b.failed) == (f + [t]) + b.failed;
    case ThresholdCancel =>
      var b := Classify(rest[1..], dur, now, timeout, threshold);
      assert c + ([t] + b.cancelled) == (c + [t]) + b.cancelled;
    case Run =>
      var b := Classify(rest[1..], dur, now + dur(t), timeout, threshold);
      assert s + ([t] + b.successful) == (s + [t]) + b.successful;
    case Overrun =>
      assert s + [] == s && f + [] == f;
    case TimeoutCancel =>
      assert s + [] == s && f + [] == f && u + [] == u;
  }

  /**
   * The body of the loop of lines 79-126 for one task `t`, followed in the
   * order by `later`: the buckets grown by appending and the clock advanced.
   * `stop` reports the early exit of lines 112-122, which also cancels
   * `later`.
   */
  method VisitTask<T(!new)>(s: seq<T>, f: seq<T>, c: seq<T>, u: seq<T>, t: T, later: seq<T>,
                            dur: T -> nat, now: nat, timeout: real, threshold: real)
    returns (s': seq<T>, f': seq<T>, c': seq<T>, u': seq<T>, now': nat, stop: bool)
    ensures stop ==> Buckets(s', f', c', u') == Join(Buckets(s, f, c, u), Classify([t] + later, dur, now, timeout, threshold))
    ensures !stop ==> Join(Buckets(s', f', c', u'), Classify(later, dur, now', timeout, threshold))
                      == Join(Buckets(s, f, c, u), Classify([t] + later, dur, now, timeout, threshold))
    ensures now == TotalDuration(s, dur) ==> now' == TotalDuration(s', dur)
  {
    s', f', c', u', now', stop := s, f, c, u, now, false;
    assert ([t] + later)[1..] == later;
    ghost var v := Decide(dur(t), now, timeout, threshold);
    WalkStep(s, f, c, u, [t] + later, dur, now, timeout, threshold);
    var (d, _) := Retry(dur(t), 0);
    if d == 0 {
      assert v == Fail;
      f' := f + [t];
      return;
    }
    var endTime := now + d;
    if now as real >= threshold {
      assert v == ThresholdCancel;
      c' := c + [t];
      return;
    }
    if now as real < timeout {
      if endTime as real > timeout {
        assert v == Overrun;
        u' := u + [t];
        c' := c + later;
        stop := true;
        return;
      }
    } else {
      assert v == TimeoutCancel;
      c' := c + [t] + later;
      stop := true;
      return;
    }
    assert v == Run;
    now' := RunTask(now, d);
    s' := s + [t];
    TotalDurationAppend(s, t, dur);
  }

  /**
   * The loop of lines 79-126 as the source writes it: buckets grown by
   * appending, a running clock, and an early exit on the timeout. It
   * computes what the recursive walk defines.
   */
  method RunSchedule<T(!new)>(order: seq<T>, dur: T -> nat, timeout: real, threshold: real) returns (b: Buckets<T>, clock: nat)
    ensures b == Classify(order, dur, 0, timeout, threshold)
    ensures clock == TotalDuration(b.successful, dur)
  {
    var successful, failed, cancelled, unfinished := [], [], [], [];
    var now: nat := 0;
    for i := 0 to |order|
      invariant Join(Buckets(successful, failed, cancelled, unfinished), Classify(order[i..], dur, now, timeout, threshold))
                == Classify(order, dur, 0, timeout, threshold)
      invariant now == TotalDuration(successful, dur)
    {
      assert order[i..] == [order[i]] + order[i + 1..];
      var stop;
      successful, failed, cancelled, unfinished, now, stop :=
        VisitTask(successful, failed, cancelled, unfinished, order[i], order[i + 1..], dur, now, timeout, threshold);
      if stop {
        b, clock := Buckets(successful, failed, cancelled, unfinished), now;
        return;
      }
    }
    assert order[|order|..] == [];
    b, clock := Buckets(successful, failed, cancelled, unfinished), now;
  }
}
