/** The bounded pool behind the match list: a fixed number of workers take items from one
    shared index until none is left. Workers interleave only where one awaits `fn`, so the
    test of the index and its increment are one step. `fn` gives nothing where its promise
    rejects; the worker then stops and the whole call rejects. */
module WorkerPool {
  import opened Prelude

  datatype Phase =
    | Ready
    | Busy(item: nat)
    | Finished
    | Failed(item: nat)

  /** `calls` is the log of the invocations of `fn`, in order. */
  datatype Pool<R> = Pool(index: nat, phases: seq<Phase>, results: seq<Option<R>>, calls: seq<nat>)

  datatype Step =
    | Take(worker: nat)     // index < length: take the next item and call fn on it
    | Stop(worker: nat)     // index >= length: the worker returns
    | Settle(worker: nat)   // the awaited call resolves or rejects

  function WorkerCount(limit: int, n: nat): nat {
    Max(0, Min(limit, n))
  }

  function Start<R>(limit: int, n: nat): Pool<R> {
    Pool(0, seq(WorkerCount(limit, n), _ => Ready), seq(n, _ => None), [])
  }

  predicate Enabled<R>(s: Pool<R>, step: Step) {
    && step.worker < |s.phases|
    && match step
       case Take(w) => s.phases[w].Ready? && s.index < |s.results|
       case Stop(w) => s.phases[w].Ready? && s.index >= |s.results|
       case Settle(w) => s.phases[w].Busy? && s.phases[w].item < |s.results|
  }

  function Next<T, R>(items: seq<T>, fn: T -> Option<R>, s: Pool<R>, step: Step): Pool<R>
    requires Enabled(s, step) && |items| == |s.results|
  {
    match step
    case Take(w) => s.(phases := s.phases[w := Busy(s.index)], index := s.index + 1, calls := s.calls + [s.index])
    case Stop(w) => s.(phases := s.phases[w := Finished])
    case Settle(w) =>
      var current := s.phases[w].item;
      var r := fn(items[current]);
      if r.Some? then s.(phases := s.phases[w := Ready], results := s.results[current := r])
      else s.(phases := s.phases[w := Failed(current)])
  }

  /** The steps can be taken in turn: any interleaving of the workers. */
  predicate CanRun<T, R>(items: seq<T>, fn: T -> Option<R>, s: Pool<R>, steps: seq<Step>)
    requires |items| == |s.results|
    decreases steps
  {
    steps == [] || (Enabled(s, steps[0]) && CanRun(items, fn, Next(items, fn, s, steps[0]), steps[1..]))
  }

  function After<T, R>(items: seq<T>, fn: T -> Option<R>, s: Pool<R>, steps: seq<Step>): Pool<R>
    requires |items| == |s.results| && CanRun(items, fn, s, steps)
    decreases steps
  {
    if steps == [] then s else After(items, fn, Next(items, fn, s, steps[0]), steps[1..])
  }

  /** No worker can move. */
  ghost predicate Quiet<R>(s: Pool<R>) {
    forall step :: !Enabled(s, step)
  }

  /** Every worker has returned, so the call resolves with the results. */
  predicate Resolves<R>(s: Pool<R>) {
    forall w :: 0 <= w < |s.phases| ==> s.phases[w].Finished?
  }

  function InFlight<R>(s: Pool<R>): set<nat> {
    set w: nat | w < |s.phases| && s.phases[w].Busy?
  }

  // ---- What every run keeps ----

  /** The item a worker holds, or -1. */
  function Held(p: Phase): int {
    if p.Busy? || p.Failed? then p.item else -1
  }

  ghost predicate HeldOnce(phases: seq<Phase>) {
    forall v, w :: 0 <= v < w < |phases| && Held(phases[v]) >= 0 ==> Held(phases[v]) != Held(phases[w])
  }

  ghost predicate WorkerOk<T, R>(items: seq<T>, fn: T -> Option<R>, s: Pool<R>, p: Phase) {
    match p
    case Ready => true
    case Busy(i) => i < s.index && i < |s.results| && s.results[i].None?
    case Finished => s.index >= |s.results|
    case Failed(i) => i < s.index && i < |s.results| && i < |items| && s.results[i].None? && fn(items[i]).None?
  }

  /** Item `i` is done, or in the hands of a worker. */
  ghost predicate Accounted<T, R>(items: seq<T>, fn: T -> Option<R>, s: Pool<R>, i: nat)
    requires i < |items| == |s.results|
  {
    || (s.results[i].Some? && s.results[i] == fn(items[i]))
    || exists w :: 0 <= w < |s.phases| && Held(s.phases[w]) == i
  }

  /** The items taken so far are 0, 1, ..., index - 1, each taken once; each of them is stored
      with its own value or held by exactly one worker, and nothing else is stored. */
  ghost predicate Inv<T, R>(items: seq<T>, fn: T -> Option<R>, limit: int, s: Pool<R>) {
    && |s.results| == |items| && s.index <= |items| && |s.phases| == WorkerCount(limit, |items|)
    && |s.calls| == s.index && (forall k :: 0 <= k < s.index ==> s.calls[k] == k)
    && HeldOnce(s.phases)
    && (forall w :: 0 <= w < |s.phases| ==> WorkerOk(items, fn, s, s.phases[w]))
    && (forall i :: 0 <= i < s.index ==> Accounted(items, fn, s, i))
    && (forall i :: s.index <= i < |items| ==> s.results[i].None?)
  }

  lemma StartIsInv<T, R>(items: seq<T>, fn: T -> Option<R>, limit: int)
    ensures Inv(items, fn, limit, Start(limit, |items|))
  {
  }

  lemma StepKeepsAccounted<T, R>(items: seq<T>, fn: T -> Option<R>, s: Pool<R>, step: Step, i: nat)
    requires |items| == |s.results| && Enabled(s, step)
    requires i < Next(items, fn, s, step).index <= |items|
    requires i < s.index ==> Accounted(items, fn, s, i)
    ensures Accounted(items, fn, Next(items, fn, s, step), i)
  {
    var t := Next(items, fn, s, step);
    var w := step.worker;
    if Held(t.phases[w]) != i {
      assert i < s.index;
      if !(s.results[i].Some? && s.results[i] == fn(items[i])) {
        var v :| 0 <= v < |s.phases| && Held(s.phases[v]) == i;
        assert v != w ==> t.phases[v] == s.phases[v];
      }
    }
  }

  lemma StepKeepsHeldOnce<T, R>(items: seq<T>, fn: T -> Option<R>, s: Pool<R>, step: Step)
    requires |items| == |s.results| && Enabled(s, step) && HeldOnce(s.phases)
    requires forall w :: 0 <= w < |s.phases| ==> WorkerOk(items, fn, s, s.phases[w])
    ensures HeldOnce(Next(items, fn, s, step).phases)
  {
    var t := Next(items, fn, s, step);
    forall v, w | 0 <= v < w < |t.phases| && Held(t.phases[v]) >= 0 ensures Held(t.phases[v]) != Held(t.phases[w]) {
      assert WorkerOk(items, fn, s, s.phases[v]) && WorkerOk(items, fn, s, s.phases[w]);
    }
  }

  lemma StepKeepsWorkerOk<T, R>(items: seq<T>, fn: T -> Option<R>, s: Pool<R>, step: Step, v: nat)
    requires |items| == |s.results| && Enabled(s, step) && HeldOnce(s.phases) && v < |s.phases|
    requires WorkerOk(items, fn, s, s.phases[v]) && WorkerOk(items, fn, s, s.phases[step.worker])
    requires s.index < |items| ==> s.results[s.index].None?
    ensures WorkerOk(items, fn, Next(items, fn, s, step), Next(items, fn, s, step).phases[v])
  {
    var w := step.worker;
    assert v != w ==> Held(s.phases[v]) < 0 || Held(s.phases[v]) != Held(s.phases[w]);
  }

  lemma StepKeepsInv<T, R>(items: seq<T>, fn: T -> Option<R>, limit: int, s: Pool<R>, step: Step)
    requires Inv(items, fn, limit, s) && Enabled(s, step)
    ensures Inv(items, fn, limit, Next(items, fn, s, step))
  {
    var t := Next(items, fn, s, step);
    StepKeepsHeldOnce(items, fn, s, step);
    forall i | 0 <= i < t.index ensures Accounted(items, fn, t, i) {
      StepKeepsAccounted(items, fn, s, step, i);
    }
    forall v | 0 <= v < |t.phases| ensures WorkerOk(items, fn, t, t.phases[v]) {
      StepKeepsWorkerOk(items, fn, s, step, v);
    }
    assert WorkerOk(items, fn, s, s.phases[step.worker]);
  }

  lemma {:induction false} RunKeepsInv<T, R>(items: seq<T>, fn: T -> Option<R>, limit: int, s: Pool<R>, steps: seq<Step>)
    requires Inv(items, fn, limit, s) && CanRun(items, fn, s, steps)
    ensures Inv(items, fn, limit, After(items, fn, s, steps))
    decreases steps
  {
    if steps != [] {
      StepKeepsInv(items, fn, limit, s, steps[0]);
      RunKeepsInv(items, fn, limit, Next(items, fn, s, steps[0]), steps[1..]);
    }
  }

  /** At every point of every interleaving each index has been taken at most once, in order,
      and at most `limit` items are in flight. */
  lemma PoolIsBounded<T, R>(items: seq<T>, fn: T -> Option<R>, limit: int, steps: seq<Step>)
    requires CanRun(items, fn, Start(limit, |items|), steps)
    ensures var s := After(items, fn, Start(limit, |items|), steps);
            && s.calls == seq(s.index, k => k) && s.index <= |items|
            && |InFlight(s)| <= Max(0, limit) && |InFlight(s)| <= |items|
  {
    StartIsInv(items, fn, limit);
    RunKeepsInv(items, fn, limit, Start(limit, |items|), steps);
    var s := After(items, fn, Start(limit, |items|), steps);
    CountBelow(InFlight(s), |s.phases|);
  }

  lemma {:induction false} CountBelow(xs: set<nat>, n: nat)
    requires forall x :: x in xs ==> x < n
    ensures |xs| <= n
  {
    if n > 0 {
      CountBelow(xs - {n - 1}, n - 1);
      assert xs <= (xs - {n - 1}) + {n - 1};
    } else {
      assert xs == {};
    }
  }

  // ---- Termination ----

  function Weight(p: Phase): nat {
    match p
    case Ready => 1
    case Busy(_) => 2
    case _ => 0
  }

  function Weights(phases: seq<Phase>): nat {
    if phases == [] then 0 else Weight(phases[0]) + Weights(phases[1..])
  }

  function Measure<R>(s: Pool<R>): int {
    3 * (|s.results| - s.index) + Weights(s.phases)
  }

  lemma {:induction false} WeightsUpdate(phases: seq<Phase>, w: nat, p: Phase)
    requires w < |phases|
    ensures Weights(phases[w := p]) == Weights(phases) - Weight(phases[w]) + Weight(p)
  {
    if w > 0 {
      WeightsUpdate(phases[1..], w - 1, p);
      assert phases[w := p][1..] == phases[1..][w - 1 := p];
    } else {
      assert phases[w := p][1..] == phases[1..];
    }
  }

  lemma {:induction false} ReadyWeights(n: nat)
    ensures Weights(seq(n, _ => Ready)) == n
  {
    if n > 0 {
      ReadyWeights(n - 1);
      assert seq(n, _ => Ready)[1..] == seq(n - 1, _ => Ready);
    }
  }

  lemma {:induction false} RunsShrinkMeasure<T, R>(items: seq<T>, fn: T -> Option<R>, s: Pool<R>, steps: seq<Step>)
    requires |items| == |s.results| && CanRun(items, fn, s, steps)
    ensures |steps| + Measure(After(items, fn, s, steps)) <= Measure(s)
    decreases steps
  {
    if steps != [] {
      var t := Next(items, fn, s, steps[0]);
      WeightsUpdate(s.phases, steps[0].worker, t.phases[steps[0].worker]);
      RunsShrinkMeasure(items, fn, t, steps[1..]);
    }
  }

  /** Every interleaving ends, after at most three steps an item and one a worker. */
  lemma PoolTerminates<T, R>(items: seq<T>, fn: T -> Option<R>, limit: int, steps: seq<Step>)
    requires CanRun(items, fn, Start(limit, |items|), steps)
    ensures |steps| <= 3 * |items| + WorkerCount(limit, |items|)
  {
    StartIsInv(items, fn, limit);
    RunKeepsInv(items, fn, limit, Start(limit, |items|), steps);
    RunsShrinkMeasure(items, fn, Start(limit, |items|), steps);
    ReadyWeights(WorkerCount(limit, |items|));
  }

  // ---- The outcome ----

  lemma QuietWorkersAreOver<T, R>(items: seq<T>, fn: T -> Option<R>, limit: int, s: Pool<R>)
    requires Inv(items, fn, limit, s) && Quiet(s)
    ensures forall w :: 0 <= w < |s.phases| ==> s.phases[w].Finished? || s.phases[w].Failed?
  {
    forall w | 0 <= w < |s.phases| ensures s.phases[w].Finished? || s.phases[w].Failed? {
      assert !Enabled(s, Take(w)) && !Enabled(s, Stop(w)) && !Enabled(s, Settle(w));
      assert WorkerOk(items, fn, s, s.phases[w]);
    }
  }

  ghost predicate Complete<T, R>(items: seq<T>, fn: T -> Option<R>, s: Pool<R>) {
    |s.results| == |items| && forall i :: 0 <= i < |items| ==> s.results[i].Some? && s.results[i] == fn(items[i])
  }

  ghost predicate NoneRejects<T, R>(items: seq<T>, fn: T -> Option<R>) {
    forall i :: 0 <= i < |items| ==> fn(items[i]).Some?
  }

  lemma FinishedWorkersLeaveAllDone<T, R>(items: seq<T>, fn: T -> Option<R>, limit: int, s: Pool<R>)
    requires Inv(items, fn, limit, s) && Resolves(s) && |s.phases| > 0
    ensures Complete(items, fn, s) && s.index == |items|
  {
    assert WorkerOk(items, fn, s, s.phases[0]);
    forall i | 0 <= i < |items| ensures s.results[i].Some? && s.results[i] == fn(items[i]) {
      assert Accounted(items, fn, s, i);
    }
  }

  lemma FailedWorkersShowARejection<T, R>(items: seq<T>, fn: T -> Option<R>, limit: int, s: Pool<R>)
    requires Inv(items, fn, limit, s) && Quiet(s) && !Resolves(s)
    ensures !NoneRejects(items, fn)
  {
    QuietWorkersAreOver(items, fn, limit, s);
    var w :| 0 <= w < |s.phases| && !s.phases[w].Finished?;
    assert WorkerOk(items, fn, s, s.phases[w]);
  }

  /** However the workers interleave, once none can move: the call has resolved with
      results[i] == fn(items[i]) for every i, having called fn once on each item, exactly
      when no item rejects and either the limit is positive or there is nothing to map. */
  lemma PoolMapsExactly<T, R>(items: seq<T>, fn: T -> Option<R>, limit: int, steps: seq<Step>)
    requires CanRun(items, fn, Start(limit, |items|), steps)
    requires Quiet(After(items, fn, Start(limit, |items|), steps))
    ensures var s := After(items, fn, Start(limit, |items|), steps);
            (Resolves(s) && Complete(items, fn, s) && s.calls == seq(|items|, k => k))
            <==> NoneRejects(items, fn) && (limit >= 1 || items == [])
  {
    StartIsInv(items, fn, limit);
    RunKeepsInv(items, fn, limit, Start(limit, |items|), steps);
    var s := After(items, fn, Start(limit, |items|), steps);
    if !Resolves(s) {
      FailedWorkersShowARejection(items, fn, limit, s);
    } else if |s.phases| > 0 {
      FinishedWorkersLeaveAllDone(items, fn, limit, s);
      assert s.calls == seq(|items|, k => k);
    } else {
      NoWorkersNoSteps(items, fn, Start(limit, |items|), steps);
    }
  }

  /** With no workers nothing is ever taken. */
  lemma NoWorkersNoSteps<T, R>(items: seq<T>, fn: T -> Option<R>, s: Pool<R>, steps: seq<Step>)
    requires |items| == |s.results| && s.phases == [] && CanRun(items, fn, s, steps)
    ensures After(items, fn, s, steps) == s
  {
  }

  /** A rejecting item is never swallowed: with a positive limit the call rejects. */
  lemma RejectionsAreReported<T, R>(items: seq<T>, fn: T -> Option<R>, limit: int, steps: seq<Step>)
    requires CanRun(items, fn, Start(limit, |items|), steps) && limit >= 1
    requires Quiet(After(items, fn, Start(limit, |items|), steps))
    ensures var s := After(items, fn, Start(limit, |items|), steps);
            Resolves(s) <==> NoneRejects(items, fn)
  {
    StartIsInv(items, fn, limit);
    RunKeepsInv(items, fn, limit, Start(limit, |items|), steps);
    var s := After(items, fn, Start(limit, |items|), steps);
    if !Resolves(s) {
      FailedWorkersShowARejection(items, fn, limit, s);
    } else if |s.phases| > 0 {
      FinishedWorkersLeaveAllDone(items, fn, limit, s);
    }
  }
}
