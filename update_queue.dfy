/**
 * The asynchronous update pipeline: the trainer puts one request per
 * trace entry on a queue, and a worker takes requests off it and applies
 * each with the same sparse Adagrad step, until it meets the stop request
 * `(None, None, None)`. The queue is a first-in first-out sequence; the
 * worker's effect on a table is the fold `ApplyJobs`.
 */
module UpdateQueue {
  import opened SparseOps
  import opened Adagrad

  /** One request: a gradient batch and the device id it came from, or the stop request. */
  datatype UpdateJob = Job(grad: SparseGrad, gpuId: int) | Sentinel

  /** The request queue shared by the trainer and the update worker. */
  class JobQueue {
    var items: seq<UpdateJob>

    constructor ()
      ensures items == []
    {
      items := [];
    }

    /** `queue.put(job)`: the job joins the back of the queue. */
    method Put(job: UpdateJob)
      modifies this
      ensures items == old(items) + [job]
    {
      items := items + [job];
    }

    /** `queue.get()`: the job at the front leaves the queue. */
    method Get() returns (job: UpdateJob)
      requires items != []
      modifies this
      ensures old(items) == [job] + items
    {
      job := items[0];
      items := items[1..];
    }
  }

  /** Every gradient request on the queue can be applied to the table. */
  predicate JobsFit(st: Store, jobs: seq<UpdateJob>) {
    forall k :: 0 <= k < |jobs| && jobs[k].Job? ==> Fits(st, jobs[k].grad)
  }

  /** The requests `update` puts on the queue for a trace, in trace order. */
  function Jobs(gs: seq<SparseGrad>, gpuId: int): (r: seq<UpdateJob>)
    ensures |r| == |gs| && Sentinel !in r
    ensures forall k :: 0 <= k < |gs| ==> r[k].Job? && r[k].grad == gs[k]
  {
    seq(|gs|, k requires 0 <= k < |gs| => Job(gs[k], gpuId))
  }

  /** The first request for a trace is its first batch's. */
  lemma JobsFront(gs: seq<SparseGrad>, gpuId: int, tail: seq<UpdateJob>)
    requires |gs| > 0
    ensures Jobs(gs, gpuId) + tail == [Job(gs[0], gpuId)] + (Jobs(gs[1..], gpuId) + tail)
  {
    var a, b := Jobs(gs, gpuId), [Job(gs[0], gpuId)] + Jobs(gs[1..], gpuId);
    assert |a| == |b|;
    forall k | 0 <= k < |a| ensures a[k] == b[k] {
      if k > 0 { assert b[k] == Jobs(gs[1..], gpuId)[k - 1]; }
    }
    assert a == b;
  }

  /** A batch that fits a table fits every table of the same shape. */
  lemma FitsSameShape(a: Store, b: Store, g: SparseGrad)
    requires SameShape(a, b) && Fits(a, g)
    ensures Fits(b, g)
  {
    forall k | 0 <= k < |g.indices| ensures 0 < |g.values[k]| == |b.rows[g.indices[k]]| {
      assert g.indices[k] < |a.rows|;
    }
  }

  /** A trace that fits a table fits every table of the same shape. */
  lemma AllFitSameShape(a: Store, b: Store, gs: seq<SparseGrad>)
    requires SameShape(a, b) && AllFit(a, gs)
    ensures AllFit(b, gs)
  {
    forall k | 0 <= k < |gs| ensures Fits(b, gs[k]) {
      FitsSameShape(a, b, gs[k]);
    }
  }

  /** A queue that fits a table fits every table of the same shape. */
  lemma JobsFitSameShape(a: Store, b: Store, jobs: seq<UpdateJob>)
    requires SameShape(a, b) && JobsFit(a, jobs)
    ensures JobsFit(b, jobs)
  {
    forall k | 0 <= k < |jobs| && jobs[k].Job? ensures Fits(b, jobs[k].grad) {
      FitsSameShape(a, b, jobs[k].grad);
    }
  }

  /** What is left of a fitting queue after some requests are taken still fits. */
  lemma JobsFitSuffix(st: Store, jobs: seq<UpdateJob>, n: nat)
    requires JobsFit(st, jobs) && n <= |jobs|
    ensures JobsFit(st, jobs[n..])
  {
    forall k | 0 <= k < |jobs| - n && jobs[n..][k].Job? ensures Fits(st, jobs[n..][k].grad) {
      assert jobs[n..][k] == jobs[k + n];
    }
  }

  /**
   * The worker's effect on a table: the requests are applied from the
   * front, each as one sparse Adagrad step, up to the first stop request.
   */
  function ApplyJobs(st: Store, jobs: seq<UpdateJob>, lr: real): (r: Store)
    requires JobsFit(st, jobs)
    ensures SameShape(r, st)
    decreases |jobs|
  {
    if |jobs| == 0 then st
    else match jobs[0]
      case Sentinel => st
      case Job(g, _) =>
        var next := SparseStep(st, g, lr);
        assert Fits(st, jobs[0].grad);
        JobsFitSuffix(st, jobs, 1);
        JobsFitSameShape(st, next, jobs[1..]);
        ApplyJobs(next, jobs[1..], lr)
  }

  /** What the worker leaves on the queue: whatever follows the first stop request, or nothing. */
  function Leftover(jobs: seq<UpdateJob>): (r: seq<UpdateJob>)
    ensures Sentinel in jobs ==> |r| < |jobs| && r == jobs[|jobs| - |r|..] && jobs[|jobs| - |r| - 1] == Sentinel
    ensures Sentinel in jobs ==> Sentinel !in jobs[..|jobs| - |r| - 1]
    ensures Sentinel !in jobs ==> r == []
    decreases |jobs|
  {
    if |jobs| == 0 then []
    else if jobs[0] == Sentinel then jobs[1..]
    else
      var r := Leftover(jobs[1..]);
      assert Sentinel in jobs ==> Sentinel in jobs[1..];
      r
  }

  /** Whether a queue holds the stop request, and what the worker leaves of it, from its front. */
  lemma LeftoverCons(jobs: seq<UpdateJob>)
    requires jobs != []
    ensures Sentinel in jobs <==> jobs[0] == Sentinel || Sentinel in jobs[1..]
    ensures Leftover(jobs) == if jobs[0] == Sentinel then jobs[1..] else Leftover(jobs[1..])
  {
    assert jobs == [jobs[0]] + jobs[1..];
  }

  /** A batch that fits, put in front of a trace that fits, gives a trace that fits. */
  lemma AllFitCons(st: Store, g: SparseGrad, gs: seq<SparseGrad>)
    requires Fits(st, g) && AllFit(st, gs)
    ensures AllFit(st, [g] + gs)
  {
    forall k | 0 <= k < |gs| + 1 ensures Fits(st, ([g] + gs)[k]) {
      if k > 0 { assert ([g] + gs)[k] == gs[k - 1]; }
    }
  }

  /** The requests for a trace that fits a table fit the table. */
  lemma JobsFitAppend(st: Store, gs: seq<SparseGrad>, gpuId: int, tail: seq<UpdateJob>)
    requires AllFit(st, gs) && JobsFit(st, tail)
    ensures JobsFit(st, Jobs(gs, gpuId) + tail)
  {
    var jobs := Jobs(gs, gpuId) + tail;
    forall k | 0 <= k < |jobs| && jobs[k].Job? ensures Fits(st, jobs[k].grad) {
      if k < |gs| { assert jobs[k] == Job(gs[k], gpuId); } else { assert jobs[k] == tail[k - |gs|]; }
    }
  }

  /** The worker applies a gradient request at the front of the queue and goes on with the rest. */
  lemma ApplyJobsCons(st: Store, g: SparseGrad, gpuId: int, rest: seq<UpdateJob>, lr: real)
    requires Fits(st, g) && JobsFit(st, rest)
    ensures JobsFit(st, [Job(g, gpuId)] + rest)
    ensures JobsFit(SparseStep(st, g, lr), rest)
    ensures ApplyJobs(st, [Job(g, gpuId)] + rest, lr) == ApplyJobs(SparseStep(st, g, lr), rest, lr)
  {
    var jobs := [Job(g, gpuId)] + rest;
    assert jobs[1..] == rest;
    forall k | 0 <= k < |jobs| && jobs[k].Job? ensures Fits(st, jobs[k].grad) {
      if k > 0 { assert jobs[k] == rest[k - 1]; }
    }
    JobsFitSameShape(st, SparseStep(st, g, lr), rest);
  }

  /** Applying a first batch and then a trace is applying the longer trace. */
  lemma {:induction false} SyncStepsCons(st: Store, g: SparseGrad, gs: seq<SparseGrad>, lr: real)
    requires Fits(st, g) && AllFit(st, gs)
    ensures AllFit(st, [g] + gs) && AllFit(SparseStep(st, g, lr), gs)
    ensures SyncSteps(st, [g] + gs, lr) == SyncSteps(SparseStep(st, g, lr), gs, lr)
    decreases |gs|
  {
    AllFitCons(st, g, gs);
    AllFitSameShape(st, SparseStep(st, g, lr), gs);
    if |gs| > 0 {
      var n := |gs| - 1;
      assert ([g] + gs)[..n + 1] == [g] + gs[..n];
      assert AllFit(st, gs[..n]) by {
        forall k | 0 <= k < n ensures Fits(st, gs[..n][k]) { assert gs[..n][k] == gs[k]; }
      }
      SyncStepsCons(st, g, gs[..n], lr);
    }
  }

  /**
   * Putting a trace's requests on the queue and letting the worker apply
   * them is the same as applying the trace's steps directly, after which
   * the worker goes on with whatever follows.
   */
  lemma {:induction false} ApplyJobsSync(st: Store, gs: seq<SparseGrad>, gpuId: int, tail: seq<UpdateJob>, lr: real)
    requires AllFit(st, gs) && JobsFit(st, tail)
    ensures JobsFit(st, Jobs(gs, gpuId) + tail)
    ensures JobsFit(SyncSteps(st, gs, lr), tail)
    ensures ApplyJobs(st, Jobs(gs, gpuId) + tail, lr) == ApplyJobs(SyncSteps(st, gs, lr), tail, lr)
    decreases |gs|
  {
    JobsFitAppend(st, gs, gpuId, tail);
    JobsFitSameShape(st, SyncSteps(st, gs, lr), tail);
    if |gs| > 0 {
      var g, rest := gs[0], gs[1..];
      assert Fits(st, g);
      assert AllFit(st, rest) by {
        forall k | 0 <= k < |rest| ensures Fits(st, rest[k]) { assert rest[k] == gs[k + 1]; }
      }
      assert gs == [g] + rest;
      SyncStepsCons(st, g, rest, lr);
      var next := SparseStep(st, g, lr);
      JobsFitSameShape(st, next, tail);
      ApplyJobsSync(next, rest, gpuId, tail, lr);
      JobsFitAppend(st, rest, gpuId, tail);
      JobsFront(gs, gpuId, tail);
      ApplyJobsCons(st, g, gpuId, Jobs(rest, gpuId) + tail, lr);
    } else {
      assert Jobs(gs, gpuId) + tail == tail;
    }
  }

  /**
   * A trace's requests followed by the stop request leave the table as the
   * direct updates do, whatever was queued after the stop request.
   */
  lemma AsyncMatchesSync(st: Store, gs: seq<SparseGrad>, gpuId: int, tail: seq<UpdateJob>, lr: real)
    requires AllFit(st, gs)
    ensures JobsFit(st, Jobs(gs, gpuId) + [Sentinel] + tail) ==>
      ApplyJobs(st, Jobs(gs, gpuId) + [Sentinel] + tail, lr) == SyncSteps(st, gs, lr)
  {
    var after := [Sentinel] + tail;
    if JobsFit(st, Jobs(gs, gpuId) + [Sentinel] + tail) {
      assert Jobs(gs, gpuId) + [Sentinel] + tail == Jobs(gs, gpuId) + after;
      assert JobsFit(st, after) by {
        forall k | 0 <= k < |after| && after[k].Job? ensures Fits(st, after[k].grad) {
          assert after[k] == (Jobs(gs, gpuId) + after)[|gs| + k];
        }
      }
      ApplyJobsSync(st, gs, gpuId, after, lr);
    }
  }
}
