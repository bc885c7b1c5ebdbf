/**
 * The sparse Adagrad step of the embedding store, on values. For one
 * batch of row indices and their gradient rows: add the per-row mean of
 * the squared gradient to the accumulator of each touched row, then add
 * `-lr * grad / (sqrt(accumulator) + 1e-10)` to each touched row. The
 * folds over a whole trace, with and without the overflow ("cross
 * relation") table, are defined here too, with the lemmas that state
 * what the step promises.
 */
module Adagrad {
  import opened SparseOps

  /** The constant added to the root of the accumulator before dividing. */
  const Eps: real := 0.0000000001

  /**
   * Stand-in for float32 `sqrt`. The proofs use nothing about it but that
   * it is never negative, so that `Sqrt(s) + Eps` is a positive divisor;
   * the body is a few Newton iterations and no numeric claim rests on it.
   */
  function Sqrt(x: real): (r: real)
    ensures r >= 0.0
  {
    if x <= 0.0 then 0.0 else Newton(x, if x < 1.0 then 1.0 else x, 6)
  }

  function Newton(x: real, y: real, steps: nat): (r: real)
    requires x > 0.0 && y > 0.0
    ensures r > 0.0
    decreases steps
  {
    if steps == 0 then y
    else
      assert x / y > 0.0;
      Newton(x, (y + x / y) / 2.0, steps - 1)
  }

  /** The product of two positive numbers is positive. */
  function PosMul(x: real, y: real): (r: real)
    requires x > 0.0 && y > 0.0
    ensures r > 0.0
  {
    x * y
  }

  /** The square of a number: never negative, positive for a non-zero number. */
  function Square(x: real): (r: real)
    ensures r >= 0.0
    ensures x != 0.0 ==> r > 0.0
  {
    if x == 0.0 then 0.0 else if x > 0.0 then PosMul(x, x) else PosMul(-x, -x)
  }

  /** Sum of squares of a vector: never negative, zero exactly for the zero vector. */
  function SumSq(v: seq<real>): (r: real)
    ensures r >= 0.0
    ensures r == 0.0 <==> IsZero(v)
    decreases |v|
  {
    if |v| == 0 then 0.0
    else
      var n := |v| - 1;
      assert IsZero(v) <==> IsZero(v[..n]) && v[n] == 0.0;
      SumSq(v[..n]) + Square(v[n])
  }

  /** `(g * g).mean()` of one gradient row. */
  function MeanSq(v: seq<real>): (r: real)
    requires |v| > 0
    ensures r >= 0.0
    ensures r == 0.0 <==> IsZero(v)
  {
    SumSq(v) / (|v| as real)
  }

  /** `(grad * grad).mean(1)`: one mean square per gradient row. */
  function RowMeanSq(g: Matrix): (r: seq<real>)
    requires forall k :: 0 <= k < |g| ==> |g[k]| > 0
    ensures |r| == |g|
    ensures forall k {:trigger r[k]} :: 0 <= k < |g| ==> r[k] >= 0.0 && (r[k] == 0.0 <==> IsZero(g[k]))
  {
    seq(|g|, k requires 0 <= k < |g| => MeanSq(g[k]))
  }

  /** The step added to one row: `-lr * g / (sqrt(acc) + 1e-10)`. */
  function StepRow(g: seq<real>, acc: real, lr: real): (r: seq<real>)
    ensures |r| == |g|
    ensures lr > 0.0 ==> forall j {:trigger r[j]} :: 0 <= j < |g| ==>
      (g[j] > 0.0 ==> r[j] < 0.0) && (g[j] < 0.0 ==> r[j] > 0.0) && (g[j] == 0.0 ==> r[j] == 0.0)
  {
    var d := Sqrt(acc) + Eps;
    assert d > 0.0;
    seq(|g|, j requires 0 <= j < |g| => -lr * g[j] / d)
  }

  /** The steps for a batch, row k scaled by the accumulator value `std[k]`. */
  function ScaledStep(std: seq<real>, g: Matrix, lr: real): (r: Matrix)
    requires |std| == |g|
    ensures |r| == |g| && forall k :: 0 <= k < |g| ==> |r[k]| == |g[k]|
  {
    seq(|g|, k requires 0 <= k < |g| => StepRow(g[k], std[k], lr))
  }

  /** A zero gradient row gives a zero step, whatever the accumulator holds. */
  lemma StepRowZero(g: seq<real>, acc: real, lr: real)
    requires IsZero(g)
    ensures IsZero(StepRow(g, acc, lr)) && |StepRow(g, acc, lr)| == |g|
  {
    var d := Sqrt(acc) + Eps;
    assert d > 0.0;
    forall j | 0 <= j < |g| ensures -lr * g[j] / d == 0.0 {
      assert -lr * g[j] == 0.0;
    }
  }

  /** An embedding table's values: its rows and its per-row accumulator. */
  datatype Store = Store(rows: Matrix, sums: seq<real>)

  /** A batch of row indices with one gradient row per index. */
  datatype SparseGrad = SparseGrad(indices: seq<int>, values: Matrix)

  /** Every row has `dim` entries and every row has one accumulator value. */
  predicate Shaped(st: Store, num: int, dim: int) {
    |st.rows| == num && |st.sums| == num &&
    forall i :: 0 <= i < num ==> |st.rows[i]| == dim
  }

  /** Every accumulator value is non-negative. */
  predicate NonNegative(st: Store) {
    forall i :: 0 <= i < |st.sums| ==> st.sums[i] >= 0.0
  }

  /** Two stores have the same number of rows and the same row widths. */
  predicate SameShape(a: Store, b: Store) {
    |a.rows| == |b.rows| && |a.sums| == |b.sums| &&
    forall i :: 0 <= i < |a.rows| ==> |a.rows[i]| == |b.rows[i]|
  }

  /** A gradient batch can be applied to a store. */
  predicate Fits(st: Store, g: SparseGrad) {
    |st.sums| == |st.rows| && |g.values| == |g.indices| && InRange(g.indices, |st.rows|) &&
    forall k :: 0 <= k < |g.indices| ==> 0 < |g.values[k]| == |st.rows[g.indices[k]]|
  }

  /**
   * One sparse Adagrad step: the accumulator is scatter-added first, then
   * the rows are scatter-added with steps scaled by the new accumulator.
   */
  function SparseStep(st: Store, g: SparseGrad, lr: real): (r: Store)
    requires Fits(st, g)
    ensures SameShape(r, st)
  {
    var sums := IndexAdd(st.sums, g.indices, RowMeanSq(g.values));
    var std := Gather(sums, g.indices);
    Store(IndexAddRows(st.rows, g.indices, ScaledStep(std, g.values, lr)), sums)
  }

  /** Rows and accumulator entries outside the batch are left alone. */
  lemma SparseStepOutside(st: Store, g: SparseGrad, lr: real, i: int)
    requires Fits(st, g) && 0 <= i < |st.rows| && i !in g.indices
    ensures SparseStep(st, g, lr).rows[i] == st.rows[i]
    ensures SparseStep(st, g, lr).sums[i] == st.sums[i]
  {
    var sums := IndexAdd(st.sums, g.indices, RowMeanSq(g.values));
    IndexAddOutside(st.sums, g.indices, RowMeanSq(g.values), i);
    IndexAddRowsOutside(st.rows, g.indices, ScaledStep(Gather(sums, g.indices), g.values, lr), i);
  }

  /**
   * With unique indices, the accumulator of row `indices[k]` grows by the
   * mean square of gradient row k, and the row gains the step scaled by
   * that new accumulator value.
   */
  lemma SparseStepAt(st: Store, g: SparseGrad, lr: real, k: int)
    requires Fits(st, g) && NoDuplicates(g.indices) && 0 <= k < |g.indices|
    ensures var r, i := SparseStep(st, g, lr), g.indices[k];
      r.sums[i] == st.sums[i] + MeanSq(g.values[k]) &&
      r.rows[i] == VecAdd(st.rows[i], StepRow(g.values[k], r.sums[i], lr))
  {
    var sums := IndexAdd(st.sums, g.indices, RowMeanSq(g.values));
    IndexAddAt(st.sums, g.indices, RowMeanSq(g.values), k);
    IndexAddRowsAt(st.rows, g.indices, ScaledStep(Gather(sums, g.indices), g.values, lr), k);
  }

  /** The accumulator never decreases (repeated indices included). */
  lemma SparseStepGrows(st: Store, g: SparseGrad, lr: real)
    requires Fits(st, g)
    ensures forall i :: 0 <= i < |st.sums| ==> SparseStep(st, g, lr).sums[i] >= st.sums[i]
  {
    IndexAddGrows(st.sums, g.indices, RowMeanSq(g.values));
  }

  /** With unique indices, the accumulator of a touched row strictly grows iff its gradient row is non-zero. */
  lemma SparseStepStrict(st: Store, g: SparseGrad, lr: real, k: int)
    requires Fits(st, g) && NoDuplicates(g.indices) && 0 <= k < |g.indices|
    ensures SparseStep(st, g, lr).sums[g.indices[k]] > st.sums[g.indices[k]] <==> !IsZero(g.values[k])
  {
    SparseStepAt(st, g, lr, k);
  }

  /** A zero gradient changes neither the rows nor the accumulator. */
  lemma SparseStepZero(st: Store, g: SparseGrad, lr: real)
    requires Fits(st, g)
    requires forall k :: 0 <= k < |g.values| ==> IsZero(g.values[k])
    ensures SparseStep(st, g, lr) == st
  {
    var gs := RowMeanSq(g.values);
    assert IsZero(gs);
    IndexAddZero(st.sums, g.indices, gs);
    var steps := ScaledStep(Gather(st.sums, g.indices), g.values, lr);
    forall k | 0 <= k < |g.indices| ensures IsZero(steps[k]) {
      StepRowZero(g.values[k], Gather(st.sums, g.indices)[k], lr);
    }
    IndexAddRowsZero(st.rows, g.indices, steps);
  }

  /** An empty batch changes nothing. */
  lemma SparseStepEmpty(st: Store, g: SparseGrad, lr: real)
    requires Fits(st, g) && |g.indices| == 0
    ensures SparseStep(st, g, lr) == st
  {
  }

  /** Every batch of a trace can be applied to a store. */
  predicate AllFit(st: Store, gs: seq<SparseGrad>) {
    forall k :: 0 <= k < |gs| ==> Fits(st, gs[k])
  }

  /** The steps of a whole trace, applied in order to one table. */
  function SyncSteps(st: Store, gs: seq<SparseGrad>, lr: real): (r: Store)
    requires AllFit(st, gs)
    ensures SameShape(r, st)
    decreases |gs|
  {
    if |gs| == 0 then st
    else
      var n := |gs| - 1;
      SparseStep(SyncSteps(st, gs[..n], lr), gs[n], lr)
  }

  /** Rows that no batch of the trace names keep their row and accumulator. */
  lemma {:induction false} SyncStepsOutside(st: Store, gs: seq<SparseGrad>, lr: real, i: int)
    requires AllFit(st, gs) && |st.sums| == |st.rows|
    requires 0 <= i < |st.rows| && forall g <- gs :: i !in g.indices
    ensures SyncSteps(st, gs, lr).rows[i] == st.rows[i]
    ensures SyncSteps(st, gs, lr).sums[i] == st.sums[i]
    decreases |gs|
  {
    if |gs| > 0 {
      var n := |gs| - 1;
      SyncStepsOutside(st, gs[..n], lr, i);
      SparseStepOutside(SyncSteps(st, gs[..n], lr), gs[n], lr, i);
    }
  }

  /** Over a whole trace the accumulator never decreases. */
  lemma {:induction false} SyncStepsGrows(st: Store, gs: seq<SparseGrad>, lr: real)
    requires AllFit(st, gs)
    ensures forall i :: 0 <= i < |st.sums| ==> SyncSteps(st, gs, lr).sums[i] >= st.sums[i]
    decreases |gs|
  {
    if |gs| > 0 {
      var n := |gs| - 1;
      SyncStepsGrows(st, gs[..n], lr);
      SparseStepGrows(SyncSteps(st, gs[..n], lr), gs[n], lr);
    }
  }

  /** A non-negative accumulator stays non-negative. */
  lemma SyncStepsNonNegative(st: Store, gs: seq<SparseGrad>, lr: real)
    requires AllFit(st, gs)
    requires NonNegative(st)
    ensures NonNegative(SyncSteps(st, gs, lr))
  {
    SyncStepsGrows(st, gs, lr);
  }

  /** A trace of zero gradients changes nothing. */
  lemma {:induction false} SyncStepsZero(st: Store, gs: seq<SparseGrad>, lr: real)
    requires AllFit(st, gs)
    requires forall g <- gs :: forall k :: 0 <= k < |g.values| ==> IsZero(g.values[k])
    ensures SyncSteps(st, gs, lr) == st
    decreases |gs|
  {
    if |gs| > 0 {
      var n := |gs| - 1;
      SyncStepsZero(st, gs[..n], lr);
      SparseStepZero(st, gs[n], lr);
    }
  }

  /** The device table and the authoritative overflow table of a relation embedding. */
  datatype Tables = Tables(local: Store, global: Store)

  /**
   * The part of a batch that names overflow rows: the indices whose bit is
   * set, with their gradient rows, in batch order.
   */
  function CrossPart(bitmap: seq<bool>, g: SparseGrad): (r: SparseGrad)
    requires InRange(g.indices, |bitmap|) && |g.values| == |g.indices|
    ensures |r.indices| == |r.values| <= |g.indices|
  {
    var mask := Gather(bitmap, g.indices);
    SparseGrad(MaskSelect(g.indices, mask), MaskSelect(g.values, mask))
  }

  /**
   * The overflow part holds, in batch order, exactly the batch positions
   * whose index has its bit set, each with its own gradient row.
   */
  lemma CrossPartAt(bitmap: seq<bool>, g: SparseGrad)
    requires InRange(g.indices, |bitmap|) && |g.values| == |g.indices|
    ensures var r, p := CrossPart(bitmap, g), MaskPositions(Gather(bitmap, g.indices));
      |r.indices| == |p| && |r.values| == |p| &&
      forall j :: 0 <= j < |p| ==>
        r.indices[j] == g.indices[p[j]] && r.values[j] == g.values[p[j]] && bitmap[r.indices[j]]
  {
    var mask := Gather(bitmap, g.indices);
    MaskSelectAt(g.indices, mask);
    MaskSelectAt(g.values, mask);
  }

  /** The overflow part of a batch that fits the device table fits the authoritative table. */
  lemma CrossPartFits(local: Store, global: Store, bitmap: seq<bool>, g: SparseGrad)
    requires |bitmap| == |local.rows| && |global.sums| == |global.rows| && SameShape(global, local)
    requires Fits(local, g)
    ensures Fits(global, CrossPart(bitmap, g))
  {
    CrossPartAt(bitmap, g);
  }

  /**
   * Selecting the mean squares of the selected gradient rows is taking the
   * mean squares of the selected rows (`grad_sum[cpu_mask]`).
   */
  lemma {:induction false} MaskSelectRowMeanSq(v: Matrix, mask: seq<bool>)
    requires |v| == |mask| && forall k :: 0 <= k < |v| ==> |v[k]| > 0
    ensures forall k :: 0 <= k < |MaskSelect(v, mask)| ==> |MaskSelect(v, mask)[k]| > 0
    ensures MaskSelect(RowMeanSq(v), mask) == RowMeanSq(MaskSelect(v, mask))
    decreases |v|
  {
    MaskSelectAt(v, mask);
    if |v| > 0 {
      var n := |v| - 1;
      assert RowMeanSq(v)[..n] == RowMeanSq(v[..n]);
      MaskSelectRowMeanSq(v[..n], mask[..n]);
      MaskSelectAt(v[..n], mask[..n]);
    }
  }

  /** The overflow parts of every batch of a trace. */
  function CrossParts(bitmap: seq<bool>, gs: seq<SparseGrad>): (r: seq<SparseGrad>)
    requires forall g <- gs :: InRange(g.indices, |bitmap|) && |g.values| == |g.indices|
    ensures |r| == |gs| && forall k :: 0 <= k < |gs| ==> |r[k].indices| <= |gs[k].indices|
  {
    seq(|gs|, i requires 0 <= i < |gs| => CrossPart(bitmap, gs[i]))
  }

  /** Tables over the same rows, with one bit per row. */
  predicate Paired(t: Tables, bitmap: seq<bool>) {
    |bitmap| == |t.local.rows| && |t.local.sums| == |t.local.rows| && SameShape(t.global, t.local)
  }

  /**
   * The authoritative-table half of one batch with cross relations: the
   * overflow part, when not empty, is applied as one sparse Adagrad step.
   */
  function CrossGlobalStep(t: Tables, bitmap: seq<bool>, g: SparseGrad, lr: real): (r: Store)
    requires Paired(t, bitmap) && Fits(t.local, g)
    ensures SameShape(r, t.global)
  {
    var part := CrossPart(bitmap, g);
    CrossPartFits(t.local, t.global, bitmap, g);
    if |part.indices| > 0 then SparseStep(t.global, part, lr) else t.global
  }

  /**
   * One batch with cross relations: the overflow part goes to the
   * authoritative table, then the whole batch to the device table.
   */
  function CrossStep(t: Tables, bitmap: seq<bool>, g: SparseGrad, lr: real): (r: Tables)
    requires Paired(t, bitmap) && Fits(t.local, g)
    ensures Paired(r, bitmap) && SameShape(r.local, t.local)
  {
    Tables(SparseStep(t.local, g, lr), CrossGlobalStep(t, bitmap, g, lr))
  }

  /** The overflow step keeps the authoritative accumulator non-negative. */
  lemma CrossGlobalStepNonNegative(t: Tables, bitmap: seq<bool>, g: SparseGrad, lr: real)
    requires Paired(t, bitmap) && Fits(t.local, g) && NonNegative(t.global)
    ensures NonNegative(CrossGlobalStep(t, bitmap, g, lr))
  {
    CrossPartFits(t.local, t.global, bitmap, g);
    SparseStepGrows(t.global, CrossPart(bitmap, g), lr);
  }

  /** The steps of a whole trace with cross relations, applied in order. */
  function CrossSyncSteps(t: Tables, bitmap: seq<bool>, gs: seq<SparseGrad>, lr: real): (r: Tables)
    requires Paired(t, bitmap) && AllFit(t.local, gs)
    ensures Paired(r, bitmap) && SameShape(r.local, t.local)
    decreases |gs|
  {
    if |gs| == 0 then t
    else
      var n := |gs| - 1;
      CrossStep(CrossSyncSteps(t, bitmap, gs[..n], lr), bitmap, gs[n], lr)
  }

  /** The fold over one more batch is one more cross-relation step. */
  lemma CrossSyncStepsSnoc(t: Tables, bitmap: seq<bool>, gs: seq<SparseGrad>, k: int, lr: real)
    requires Paired(t, bitmap) && AllFit(t.local, gs) && 0 <= k < |gs|
    ensures AllFit(t.local, gs[..k]) && AllFit(t.local, gs[..k + 1])
    ensures CrossSyncSteps(t, bitmap, gs[..k + 1], lr) ==
      CrossStep(CrossSyncSteps(t, bitmap, gs[..k], lr), bitmap, gs[k], lr)
  {
    assert gs[..k + 1][..k] == gs[..k];
  }

  /** The fold over one more batch is one more step. */
  lemma SyncStepsSnoc(st: Store, gs: seq<SparseGrad>, k: int, lr: real)
    requires AllFit(st, gs) && 0 <= k < |gs|
    ensures AllFit(st, gs[..k]) && AllFit(st, gs[..k + 1])
    ensures SyncSteps(st, gs[..k + 1], lr) == SparseStep(SyncSteps(st, gs[..k], lr), gs[k], lr)
  {
    assert gs[..k + 1][..k] == gs[..k];
  }

  /**
   * With cross relations the device table receives exactly the updates it
   * receives without them, and the authoritative table receives the
   * overflow part of every batch: in addition to the device copy, never
   * instead of it.
   */
  lemma CrossSyncSplits(t: Tables, bitmap: seq<bool>, gs: seq<SparseGrad>, lr: real)
    requires Paired(t, bitmap) && AllFit(t.local, gs)
    ensures AllFit(t.global, CrossParts(bitmap, gs))
    ensures CrossSyncSteps(t, bitmap, gs, lr).local == SyncSteps(t.local, gs, lr)
    ensures CrossSyncSteps(t, bitmap, gs, lr).global == SyncSteps(t.global, CrossParts(bitmap, gs), lr)
  {
    CrossSyncLocal(t, bitmap, gs, lr);
    CrossSyncGlobal(t, bitmap, gs, lr);
  }

  /** The device-table half of `CrossSyncSplits`. */
  lemma {:induction false} CrossSyncLocal(t: Tables, bitmap: seq<bool>, gs: seq<SparseGrad>, lr: real)
    requires Paired(t, bitmap) && AllFit(t.local, gs)
    ensures CrossSyncSteps(t, bitmap, gs, lr).local == SyncSteps(t.local, gs, lr)
    decreases |gs|
  {
    if |gs| > 0 {
      var n := |gs| - 1;
      assert AllFit(t.local, gs[..n]);
      CrossSyncLocal(t, bitmap, gs[..n], lr);
      var prev := CrossSyncSteps(t, bitmap, gs[..n], lr);
      assert CrossStep(prev, bitmap, gs[n], lr).local == SparseStep(prev.local, gs[n], lr);
    }
  }

  /** The authoritative-table half of `CrossSyncSplits`. */
  lemma {:induction false} CrossSyncGlobal(t: Tables, bitmap: seq<bool>, gs: seq<SparseGrad>, lr: real)
    requires Paired(t, bitmap) && AllFit(t.local, gs)
    ensures AllFit(t.global, CrossParts(bitmap, gs))
    ensures CrossSyncSteps(t, bitmap, gs, lr).global == SyncSteps(t.global, CrossParts(bitmap, gs), lr)
    decreases |gs|
  {
    CrossPartsFit(t, bitmap, gs);
    if |gs| > 0 {
      var n := |gs| - 1;
      var parts := CrossParts(bitmap, gs);
      assert AllFit(t.local, gs[..n]) && AllFit(t.global, parts[..n]);
      var prev := CrossSyncSteps(t, bitmap, gs[..n], lr);
      CrossGlobalStepIsStep(prev, bitmap, gs[n], lr);
      calc {
        CrossSyncSteps(t, bitmap, gs, lr).global;
        CrossStep(prev, bitmap, gs[n], lr).global;
        SparseStep(prev.global, CrossPart(bitmap, gs[n]), lr);
        { CrossSyncGlobal(t, bitmap, gs[..n], lr); CrossPartsPrefix(bitmap, gs, n); }
        SparseStep(SyncSteps(t.global, parts[..n], lr), parts[n], lr);
        SyncSteps(t.global, parts, lr);
      }
    }
  }

  /** The overflow parts of a prefix of a trace are the prefix of its overflow parts. */
  lemma CrossPartsPrefix(bitmap: seq<bool>, gs: seq<SparseGrad>, n: int)
    requires forall g <- gs :: InRange(g.indices, |bitmap|) && |g.values| == |g.indices|
    requires 0 <= n < |gs|
    ensures CrossParts(bitmap, gs[..n]) == CrossParts(bitmap, gs)[..n]
    ensures CrossParts(bitmap, gs)[n] == CrossPart(bitmap, gs[n])
  {
    var a, b := CrossParts(bitmap, gs[..n]), CrossParts(bitmap, gs)[..n];
    forall k | 0 <= k < n ensures a[k] == b[k] {
      assert gs[..n][k] == gs[k];
    }
  }

  /** The authoritative-table half of a step is one sparse step by the overflow part, an empty one included. */
  lemma CrossGlobalStepIsStep(t: Tables, bitmap: seq<bool>, g: SparseGrad, lr: real)
    requires Paired(t, bitmap) && Fits(t.local, g)
    ensures Fits(t.global, CrossPart(bitmap, g))
    ensures CrossGlobalStep(t, bitmap, g, lr) == SparseStep(t.global, CrossPart(bitmap, g), lr)
  {
    CrossPartFits(t.local, t.global, bitmap, g);
    if |CrossPart(bitmap, g).indices| == 0 {
      SparseStepEmpty(t.global, CrossPart(bitmap, g), lr);
    }
  }

  /** The overflow parts of a trace that fits the device table fit the authoritative table. */
  lemma CrossPartsFit(t: Tables, bitmap: seq<bool>, gs: seq<SparseGrad>)
    requires Paired(t, bitmap) && AllFit(t.local, gs)
    ensures AllFit(t.global, CrossParts(bitmap, gs))
  {
    var parts := CrossParts(bitmap, gs);
    forall k | 0 <= k < |parts| ensures Fits(t.global, parts[k]) {
      CrossPartFits(t.local, t.global, bitmap, gs[k]);
    }
  }

  /** Overflow-table rows whose bit is clear are never touched. */
  lemma CrossSyncKeepsResident(t: Tables, bitmap: seq<bool>, gs: seq<SparseGrad>, lr: real, i: int)
    requires Paired(t, bitmap) && AllFit(t.local, gs)
    requires 0 <= i < |bitmap| && !bitmap[i]
    ensures CrossSyncSteps(t, bitmap, gs, lr).global.rows[i] == t.global.rows[i]
    ensures CrossSyncSteps(t, bitmap, gs, lr).global.sums[i] == t.global.sums[i]
  {
    CrossSyncSplits(t, bitmap, gs, lr);
    var parts := CrossParts(bitmap, gs);
    forall p <- parts ensures i !in p.indices {
      var m :| 0 <= m < |gs| && parts[m] == p;
      CrossPartAt(bitmap, gs[m]);
    }
    SyncStepsOutside(t.global, parts, lr, i);
  }

  /**
   * `std = state_sum[idx]; tmp = -lr * grad / (sqrt(std) + 1e-10)`, with
   * both scatter-adds done in place on a table's arrays; `gradSum` is the
   * caller's `(grad * grad).mean(1)`.
   */
  method SparseStepInPlace(emb: array<seq<real>>, stateSum: array<real>, g: SparseGrad, gradSum: seq<real>, lr: real)
    requires Fits(Store(emb[..], stateSum[..]), g) && gradSum == RowMeanSq(g.values)
    modifies emb, stateSum
    ensures Store(emb[..], stateSum[..]) == SparseStep(old(Store(emb[..], stateSum[..])), g, lr)
  {
    IndexAddInPlace(stateSum, g.indices, gradSum);
    var std := Gather(stateSum[..], g.indices);
    var tmp := ScaledStep(std, g.values, lr);
    IndexAddRowsInPlace(emb, g.indices, tmp);
  }

  /**
   * The overflow half of one batch on the authoritative table's arrays:
   * `cpu_mask = cpu_bitmap[idx]` selects the indices, gradient rows and
   * mean squares of the rows whose bit is set, and when there are any
   * they get the same sparse step as the device table.
   */
  method CrossGlobalStepInPlace(emb: array<seq<real>>, stateSum: array<real>, local: Store,
                                bitmap: seq<bool>, g: SparseGrad, gradSum: seq<real>, lr: real)
    requires Paired(Tables(local, Store(emb[..], stateSum[..])), bitmap) && Fits(local, g)
    requires gradSum == RowMeanSq(g.values)
    modifies emb, stateSum
    ensures Store(emb[..], stateSum[..]) ==
      CrossGlobalStep(Tables(local, old(Store(emb[..], stateSum[..]))), bitmap, g, lr)
  {
    var cpuMask := Gather(bitmap, g.indices);
    var cpuIdx := MaskSelect(g.indices, cpuMask);
    if |cpuIdx| > 0 {
      ghost var before := Store(emb[..], stateSum[..]);
      var cpuGrad := MaskSelect(g.values, cpuMask);
      MaskSelectRowMeanSq(g.values, cpuMask);
      var cpuSum := MaskSelect(gradSum, cpuMask);
      var part := SparseGrad(cpuIdx, cpuGrad);
      assert part == CrossPart(bitmap, g);
      CrossPartFits(local, before, bitmap, g);
      SparseStepInPlace(emb, stateSum, part, cpuSum, lr);
    }
  }
}
