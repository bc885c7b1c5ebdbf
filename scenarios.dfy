/**
 * A worked instance of one sparse Adagrad update: a table of ten zero rows
 * of width four, a traced read of rows 2 and 5, gradients of ones and of
 * twos, learning rate 0.1.
 */
module Scenarios {
  import opened SparseOps
  import opened Adagrad

  /** Ten rows of four zeros, with a zero accumulator. */
  function ZeroTable(): Store {
    Store(seq(10, _ => [0.0, 0.0, 0.0, 0.0]), seq(10, _ => 0.0))
  }

  /** The gradient batch of the read of rows 2 and 5. */
  function TwoRowGrad(): SparseGrad {
    SparseGrad([2, 5], [[1.0, 1.0, 1.0, 1.0], [2.0, 2.0, 2.0, 2.0]])
  }

  /** The mean square of a row of four equal entries is the square of the entry. */
  lemma {:induction false} MeanSqConstant(x: real)
    ensures MeanSq([x, x, x, x]) == x * x
  {
    var sq := Square(x);
    assert sq == x * x;
    assert [x][..0] == [] && SumSq([x]) == sq;
    assert [x, x][..1] == [x] && SumSq([x, x]) == 2.0 * sq;
    assert [x, x, x][..2] == [x, x] && SumSq([x, x, x]) == 3.0 * sq;
    assert [x, x, x, x][..3] == [x, x, x] && SumSq([x, x, x, x]) == 4.0 * sq;
  }

  /** The update of a one-entry trace is the one sparse step of its batch. */
  lemma TwoRowSingleStep()
    ensures AllFit(ZeroTable(), [TwoRowGrad()])
    ensures SyncSteps(ZeroTable(), [TwoRowGrad()], 0.1) == SparseStep(ZeroTable(), TwoRowGrad(), 0.1)
  {
    var st, g := ZeroTable(), TwoRowGrad();
    assert Fits(st, g);
    assert AllFit(st, [g]);
    assert [g][..0] == [] && SyncSteps(st, [g][..0], 0.1) == st;
  }

  /**
   * A zero row with a zero accumulator, stepped by a gradient row of four
   * equal positive entries x at learning rate 0.1: the accumulator becomes
   * x * x and every entry `-0.1 * x / (sqrt(x * x) + 1e-10)`.
   */
  lemma ConstantRowStep(st: Store, g: SparseGrad, k: int, x: real)
    requires Fits(st, g) && NoDuplicates(g.indices) && 0 <= k < |g.indices|
    requires x > 0.0 && g.values[k] == [x, x, x, x]
    requires st.sums[g.indices[k]] == 0.0 && st.rows[g.indices[k]] == [0.0, 0.0, 0.0, 0.0]
    ensures SparseStep(st, g, 0.1).sums[g.indices[k]] == x * x
    ensures SparseStep(st, g, 0.1).rows[g.indices[k]] == seq(4, _ => -0.1 * x / (Sqrt(x * x) + Eps))
  {
    MeanSqConstant(x);
    SparseStepAt(st, g, 0.1, k);
  }

  /** The two rows of the batch: accumulators 1.0 and 4.0, and the scaled steps. */
  lemma TwoRowTouched()
    ensures Fits(ZeroTable(), TwoRowGrad())
    ensures var r := SparseStep(ZeroTable(), TwoRowGrad(), 0.1);
      r.sums[2] == 1.0 && r.sums[5] == 4.0 &&
      r.rows[2] == seq(4, _ => -0.1 / (Sqrt(1.0) + Eps)) &&
      r.rows[5] == seq(4, _ => -0.2 / (Sqrt(4.0) + Eps))
  {
    var st, g := ZeroTable(), TwoRowGrad();
    assert Fits(st, g);
    ConstantRowStep(st, g, 0, 1.0);
    ConstantRowStep(st, g, 1, 2.0);
  }

  /** Every row outside the batch stays zero, with a zero accumulator. */
  lemma TwoRowUntouched()
    ensures Fits(ZeroTable(), TwoRowGrad())
    ensures var r := SparseStep(ZeroTable(), TwoRowGrad(), 0.1);
      forall i :: 0 <= i < 10 && i != 2 && i != 5 ==> r.rows[i] == [0.0, 0.0, 0.0, 0.0] && r.sums[i] == 0.0
  {
    var st, g := ZeroTable(), TwoRowGrad();
    assert Fits(st, g);
    forall i | 0 <= i < 10 && i != 2 && i != 5
      ensures SparseStep(st, g, 0.1).rows[i] == [0.0, 0.0, 0.0, 0.0] && SparseStep(st, g, 0.1).sums[i] == 0.0
    {
      SparseStepOutside(st, g, 0.1, i);
    }
  }

  /**
   * After the update the accumulator holds 1.0 at row 2 and 4.0 at row 5;
   * row 2 holds `-0.1 / (sqrt(1.0) + 1e-10)` and row 5 holds
   * `-0.2 / (sqrt(4.0) + 1e-10)` in every entry; every other row and
   * accumulator value is still zero.
   */
  lemma TwoRowUpdate()
    ensures AllFit(ZeroTable(), [TwoRowGrad()])
    ensures var r := SyncSteps(ZeroTable(), [TwoRowGrad()], 0.1);
      r.sums[2] == 1.0 && r.sums[5] == 4.0 &&
      r.rows[2] == seq(4, _ => -0.1 / (Sqrt(1.0) + Eps)) &&
      r.rows[5] == seq(4, _ => -0.2 / (Sqrt(4.0) + Eps)) &&
      forall i :: 0 <= i < 10 && i != 2 && i != 5 ==> r.rows[i] == [0.0, 0.0, 0.0, 0.0] && r.sums[i] == 0.0
  {
    TwoRowSingleStep();
    TwoRowTouched();
    TwoRowUntouched();
  }
}
