/**
 * `ExternalEmbedding`: a fixed-size table of embedding rows with one
 * Adagrad accumulator per row, read by index batches and updated sparsely.
 * Traced reads are recorded so that `update` can apply the gradients that
 * autograd attaches to the rows handed out. Optionally the rows named in a
 * bitmap ("cross relations") are mirrored from an authoritative second
 * table, and the updates can be handed to a worker through a queue.
 */
module Embedding {
  import opened SparseOps
  import opened Adagrad
  import opened UpdateQueue

  datatype Option<T> = None | Some(value: T)

  datatype Result<T> = Success(value: T) | Failure(error: string)

  /** One traced read: the indices, the rows handed out, and the gradient autograd attaches to them. */
  datatype TraceEntry = TraceEntry(indices: seq<int>, data: Matrix, grad: Option<Matrix>)

  /** A trace entry over a table of `num` rows of width `dim`. */
  predicate EntryFits(e: TraceEntry, num: int, dim: int) {
    InRange(e.indices, num) && |e.data| == |e.indices| &&
    (forall j :: 0 <= j < |e.data| ==> |e.data[j]| == dim) &&
    (e.grad.Some? ==>
      |e.grad.value| == |e.indices| && forall j :: 0 <= j < |e.grad.value| ==> |e.grad.value[j]| == dim)
  }

  /** Every entry of the trace carries a gradient. */
  predicate HasGrads(trace: seq<TraceEntry>) {
    forall k :: 0 <= k < |trace| ==> trace[k].grad.Some?
  }

  /** The gradient batches of a trace, in trace order. */
  function Grads(trace: seq<TraceEntry>): (r: seq<SparseGrad>)
    requires HasGrads(trace)
    ensures |r| == |trace|
    ensures forall k {:trigger r[k]} :: 0 <= k < |trace| ==> r[k].indices == trace[k].indices && trace[k].grad == Some(r[k].values)
  {
    seq(|trace|, k requires 0 <= k < |trace| => SparseGrad(trace[k].indices, trace[k].grad.value))
  }

  /** The gradients of a fitting trace can be applied to a table of the same shape. */
  lemma GradsFit(st: Store, trace: seq<TraceEntry>, num: int, dim: int)
    requires Shaped(st, num, dim) && dim > 0 && HasGrads(trace)
    requires forall k :: 0 <= k < |trace| ==> EntryFits(trace[k], num, dim)
    ensures AllFit(st, Grads(trace))
  {
    forall k | 0 <= k < |trace| ensures Fits(st, Grads(trace)[k]) {
      assert EntryFits(trace[k], num, dim);
    }
  }

  /** Two tables shaped alike have the same shape. */
  lemma ShapedSame(a: Store, b: Store, num: int, dim: int)
    requires Shaped(a, num, dim) && Shaped(b, num, dim)
    ensures SameShape(a, b)
  {
  }

  /** The number of rows handed out by the reads of a trace. */
  function RowCount(trace: seq<TraceEntry>): nat
    decreases |trace|
  {
    if |trace| == 0 then 0 else RowCount(trace[..|trace| - 1]) + |trace[|trace| - 1].data|
  }

  /** `th.cat([data for _, data in trace], 0)`: the traced rows, entry after entry. */
  function Cat(trace: seq<TraceEntry>): (r: Matrix)
    ensures |r| == RowCount(trace)
    decreases |trace|
  {
    if |trace| == 0 then []
    else
      var n := |trace| - 1;
      Cat(trace[..n]) + trace[n].data
  }

  /** A traced read puts its rows at the end of the concatenation. */
  lemma CatAppend(trace: seq<TraceEntry>, e: TraceEntry)
    ensures Cat(trace + [e]) == Cat(trace) + e.data
  {
    assert (trace + [e])[..|trace|] == trace;
  }

  /**
   * Row j of entry k sits in the concatenation right after the rows of
   * the entries before k.
   */
  lemma {:induction false} CatAt(trace: seq<TraceEntry>, k: int, j: int)
    requires 0 <= k < |trace| && 0 <= j < |trace[k].data|
    ensures |Cat(trace[..k])| + j < |Cat(trace)|
    ensures Cat(trace)[|Cat(trace[..k])| + j] == trace[k].data[j]
    decreases |trace|
  {
    var n := |trace| - 1;
    assert trace[..n + 1] == trace;
    if k < n {
      assert trace[..n][..k] == trace[..k];
      CatAt(trace[..n], k, j);
    } else {
      assert Cat(trace) == Cat(trace[..n]) + trace[n].data;
    }
  }

  /** The rows of the first m entries start the concatenation of the whole trace. */
  lemma {:induction false} CatPrefix(trace: seq<TraceEntry>, m: int)
    requires 0 <= m <= |trace|
    ensures |Cat(trace[..m])| <= |Cat(trace)| && Cat(trace)[..|Cat(trace[..m])|] == Cat(trace[..m])
    decreases |trace|
  {
    if m < |trace| {
      var n := |trace| - 1;
      assert trace[..n + 1] == trace;
      assert trace[..n][..m] == trace[..m];
      CatPrefix(trace[..n], m);
    } else {
      assert trace[..m] == trace;
    }
  }

  /**
   * The rows of entry k fill the concatenation from the end of the rows of
   * the entries before it.
   */
  lemma {:induction false} CatEntries(trace: seq<TraceEntry>)
    ensures forall k :: 0 <= k < |trace| ==>
      |Cat(trace[..k])| + |trace[k].data| <= |Cat(trace)| &&
      Cat(trace)[|Cat(trace[..k])|..|Cat(trace[..k])| + |trace[k].data|] == trace[k].data
  {
    forall k | 0 <= k < |trace|
      ensures |Cat(trace[..k])| + |trace[k].data| <= |Cat(trace)|
      ensures Cat(trace)[|Cat(trace[..k])|..|Cat(trace[..k])| + |trace[k].data|] == trace[k].data
    {
      CatPrefix(trace, k + 1);
      assert trace[..k + 1][..k] == trace[..k];
      assert Cat(trace[..k + 1]) == Cat(trace[..k]) + trace[k].data;
    }
  }

  /**
   * The rows after the refresh of a read with cross relations:
   * `unique(idx[bitmap[idx]])` names the overflow rows requested, and each
   * is overwritten with the authoritative table's row.
   */
  function Refresh(local: Matrix, global: Matrix, bitmap: seq<bool>, idx: seq<int>): (r: Matrix)
    requires |global| == |local| == |bitmap| && InRange(idx, |local|)
    ensures |r| == |local|
  {
    var mask := Gather(bitmap, idx);
    MaskSelectInRange(idx, mask, |local|);
    var u := Unique(MaskSelect(idx, mask), |local|);
    Scatter(local, u, Gather(global, u))
  }

  /**
   * After the refresh, every requested row whose bit is set holds the
   * authoritative row; every other row is unchanged.
   */
  lemma RefreshAt(local: Matrix, global: Matrix, bitmap: seq<bool>, idx: seq<int>, i: int)
    requires |global| == |local| == |bitmap| && InRange(idx, |local|) && 0 <= i < |local|
    ensures Refresh(local, global, bitmap, idx)[i] ==
      if i in idx && bitmap[i] then global[i] else local[i]
  {
    var mask := Gather(bitmap, idx);
    MaskSelectInRange(idx, mask, |local|);
    var sel := MaskSelect(idx, mask);
    var u := Unique(sel, |local|);
    MaskSelectMembers(idx, mask);
    if i in idx && bitmap[i] {
      var k :| 0 <= k < |idx| && idx[k] == i;
      assert mask[k];
      assert i in sel;
      var m :| 0 <= m < |u| && u[m] == i;
      ScatterAt(local, u, Gather(global, u), m);
    } else {
      assert i !in sel;
      ScatterOutside(local, u, Gather(global, u), i);
    }
  }

  /**
   * A read with cross relations never returns a stale mirror: position k
   * of the rows handed out is the authoritative row when the bit of
   * `idx[k]` is set, and the device row otherwise.
   */
  lemma ReadSeesAuthoritative(local: Matrix, global: Matrix, bitmap: seq<bool>, idx: seq<int>)
    requires |global| == |local| == |bitmap| && InRange(idx, |local|)
    ensures forall k :: 0 <= k < |idx| ==>
      Gather(Refresh(local, global, bitmap, idx), idx)[k] == if bitmap[idx[k]] then global[idx[k]] else local[idx[k]]
  {
    forall k | 0 <= k < |idx|
      ensures Gather(Refresh(local, global, bitmap, idx), idx)[k] == if bitmap[idx[k]] then global[idx[k]] else local[idx[k]]
    {
      RefreshAt(local, global, bitmap, idx, idx[k]);
    }
  }

  /** `RefreshAt` for every row at once. */
  lemma RefreshRowsAt(local: Matrix, global: Matrix, bitmap: seq<bool>, idx: seq<int>)
    requires |global| == |local| == |bitmap| && InRange(idx, |local|)
    ensures forall i :: 0 <= i < |local| ==>
      Refresh(local, global, bitmap, idx)[i] == if i in idx && bitmap[i] then global[i] else local[i]
  {
    forall i | 0 <= i < |local|
      ensures Refresh(local, global, bitmap, idx)[i] == if i in idx && bitmap[i] then global[i] else local[i]
    {
      RefreshAt(local, global, bitmap, idx, i);
    }
  }

  /**
   * `setup_cross_rels`' bitmap: a bit per row, set exactly for the rows
   * named in `crossRels`.
   */
  method BuildBitmap(n: nat, crossRels: seq<int>) returns (bitmap: seq<bool>)
    requires InRange(crossRels, n)
    ensures |bitmap| == n
    ensures forall i :: 0 <= i < n ==> (bitmap[i] <==> i in crossRels)
  {
    var a := new bool[n](_ => false);
    var k := 0;
    while k < |crossRels|
      invariant 0 <= k <= |crossRels|
      invariant forall i :: 0 <= i < n ==> (a[i] <==> i in crossRels[..k])
    {
      assert crossRels[..k + 1] == crossRels[..k] + [crossRels[k]];
      a[crossRels[k]] := true;
      k := k + 1;
    }
    assert crossRels[..k] == crossRels;
    bitmap := a[..];
  }

  class ExternalEmbedding {
    /** The learning rate, `args.lr`. */
    const lr: real
    /** The number of rows. */
    var num: int
    /** The width of every row. */
    var dim: int
    /** The rows. */
    var emb: array<seq<real>>
    /** The Adagrad accumulator, one value per row. */
    var stateSum: array<real>
    var stateStep: int
    var trace: seq<TraceEntry>
    var hasCrossRel: bool
    /** One bit per row: set for the rows whose authoritative copy is `globalEmb`. */
    var cpuBitmap: seq<bool>
    var globalEmb: ExternalEmbedding?
    /** The queue to the update worker, when updates are asynchronous. */
    var asyncQ: JobQueue?

    /** The rows and accumulator as values. */
    function Table(): Store
      reads this`emb, this`stateSum, emb, stateSum
    {
      Store(emb[..], stateSum[..])
    }

    ghost predicate Valid()
      reads this, emb, stateSum, asyncQ, globalEmb
      reads if globalEmb != null then {globalEmb.emb, globalEmb.stateSum} else {}
    {
      0 < dim && emb.Length == num && stateSum.Length == num &&
      Shaped(Table(), num, dim) && NonNegative(Table()) &&
      (forall k :: 0 <= k < |trace| ==> EntryFits(trace[k], num, dim)) &&
      (hasCrossRel ==>
        |cpuBitmap| == num && globalEmb != null &&
        globalEmb.emb != emb && globalEmb.stateSum != stateSum &&
        Shaped(globalEmb.Table(), num, dim) && NonNegative(globalEmb.Table())) &&
      (asyncQ != null ==> JobsFit(Table(), asyncQ.items))
    }

    /**
     * `__init__`: `num` rows of width `dim` (their contents are left
     * unspecified, as `th.empty` leaves them), a zero accumulator, step
     * zero, an empty trace, no cross relations and no queue.
     */
    constructor (lr: real, num: nat, dim: nat)
      requires dim > 0
      ensures Valid() && fresh(emb) && fresh(stateSum)
      ensures this.lr == lr && this.num == num && this.dim == dim
      ensures forall i :: 0 <= i < num ==> stateSum[i] == 0.0
      ensures stateStep == 0 && trace == [] && !hasCrossRel && asyncQ == null
    {
      this.lr := lr;
      this.num := num;
      this.dim := dim;
      emb := new seq<real>[num](_ => seq(dim, _ => 0.0));
      stateSum := new real[num](_ => 0.0);
      stateStep := 0;
      trace := [];
      hasCrossRel := false;
      cpuBitmap := [];
      globalEmb := null;
      asyncQ := null;
    }

    /**
     * `setup_cross_rels`: the bit of row i is set exactly when i is one of
     * `crossRels`, and `g` becomes the authoritative table of those rows.
     */
    method SetupCrossRels(crossRels: seq<int>, g: ExternalEmbedding)
      requires Valid() && InRange(crossRels, num)
      requires g.emb != emb && g.stateSum != stateSum
      requires Shaped(g.Table(), num, dim) && NonNegative(g.Table())
      modifies this`cpuBitmap, this`hasCrossRel, this`globalEmb
      ensures Valid() && hasCrossRel && globalEmb == g
      ensures |cpuBitmap| == num && forall i :: 0 <= i < num ==> (cpuBitmap[i] <==> i in crossRels)
    {
      cpuBitmap := BuildBitmap(num, crossRels);
      hasCrossRel := true;
      globalEmb := g;
    }

    /**
     * `get_noncross_idx`: the requested indices whose bit is clear, in
     * their order and with their repetitions.
     */
    function NonCrossIdx(idx: seq<int>): (r: seq<int>)
      reads this
      requires |cpuBitmap| == num && InRange(idx, num)
      ensures var p := MaskPositions(Not(Gather(cpuBitmap, idx)));
        |r| == |p| && forall j :: 0 <= j < |p| ==> r[j] == idx[p[j]] && !cpuBitmap[r[j]]
      ensures forall x :: x in r <==> x in idx && !cpuBitmap[x]
    {
      var gpuMask := Not(Gather(cpuBitmap, idx));
      MaskSelectAt(idx, gpuMask);
      MaskSelectMembers(idx, gpuMask);
      MaskSelect(idx, gpuMask)
    }

    /**
     * The refresh step of `__call__` with cross relations: the requested
     * rows whose bit is set are overwritten with the authoritative rows.
     */
    method RefreshRows(idx: seq<int>)
      requires Valid() && hasCrossRel && InRange(idx, num)
      modifies emb
      ensures Valid()
      ensures emb[..] == Refresh(old(emb[..]), globalEmb.emb[..], cpuBitmap, idx)
    {
      ghost var before := Table();
      ghost var local, global := emb[..], globalEmb.emb[..];
      var cpuMask := Gather(cpuBitmap, idx);
      MaskSelectInRange(idx, cpuMask, num);
      var cpuIdx := Unique(MaskSelect(idx, cpuMask), num);
      if |cpuIdx| != 0 {
        var cpuEmb := Gather(globalEmb.emb[..], cpuIdx);
        ScatterInPlace(emb, cpuIdx, cpuEmb);
      }
      assert emb[..] == Refresh(local, global, cpuBitmap, idx);
      RefreshRowsAt(local, global, cpuBitmap, idx);
      ShapedSame(before, globalEmb.Table(), num, dim);
      assert SameShape(before, Table());
      if asyncQ != null {
        JobsFitSameShape(before, Table(), asyncQ.items);
      }
    }

    /**
     * `__call__`: with cross relations, the requested overflow rows are
     * first refreshed from the authoritative table; the requested rows are
     * returned, and a traced read records one trace entry.
     */
    method Read(idx: seq<int>, traced: bool) returns (data: Matrix)
      requires Valid() && InRange(idx, num)
      modifies emb, this`trace
      ensures Valid()
      ensures hasCrossRel ==> emb[..] == Refresh(old(emb[..]), globalEmb.emb[..], cpuBitmap, idx)
      ensures !hasCrossRel ==> emb[..] == old(emb[..])
      ensures data == Gather(emb[..], idx)
      ensures trace == if traced then old(trace) + [TraceEntry(idx, data, None)] else old(trace)
    {
      if hasCrossRel {
        RefreshRows(idx);
      }
      data := Gather(emb[..], idx);
      if traced {
        Record(TraceEntry(idx, data, None));
      }
    }

    /** A traced read joins the end of the trace. */
    method Record(e: TraceEntry)
      requires Valid() && EntryFits(e, num, dim)
      modifies this`trace
      ensures Valid() && trace == old(trace) + [e]
    {
      trace := trace + [e];
    }

    /**
     * `curr_emb`: the rows handed out by the traced reads, entry after
     * entry; concatenating an empty trace is an error.
     */
    function CurrEmb(): (r: Result<Matrix>)
      reads this
      ensures r.Failure? <==> trace == []
      ensures r.Success? ==> |r.value| == RowCount(trace)
      ensures r.Success? ==> forall k :: 0 <= k < |trace| ==>
        RowCount(trace[..k]) + |trace[k].data| <= |r.value| &&
        r.value[RowCount(trace[..k])..RowCount(trace[..k]) + |trace[k].data|] == trace[k].data
    {
      if trace == [] then Failure("expected a non-empty list of tensors")
      else
        CatEntries(trace);
        Success(Cat(trace))
    }

    /**
     * `load_emb`: a NumPy array is copied into a new table of rows; any
     * other array becomes the table itself.
     */
    method LoadEmb(a: array<seq<real>>, fromNumpy: bool)
      requires Valid() && a.Length == num && forall i :: 0 <= i < a.Length ==> |a[i]| == dim
      requires hasCrossRel ==> a != globalEmb.emb
      modifies this`emb
      ensures Valid()
      ensures fromNumpy ==> fresh(emb) && emb[..] == a[..]
      ensures !fromNumpy ==> emb == a
    {
      ghost var before := Table();
      if fromNumpy {
        var c := new seq<real>[a.Length];
        forall i | 0 <= i < a.Length {
          c[i] := a[i];
        }
        emb := c;
      } else {
        emb := a;
      }
      assert Shaped(Table(), num, dim);
      if asyncQ != null {
        ShapedSame(before, Table(), num, dim);
        JobsFitSameShape(before, Table(), asyncQ.items);
      }
    }

    /**
     * The gradient autograd leaves on the rows of trace entry k once the
     * loss has been back-propagated.
     */
    method AttachGrad(k: int, grad: Matrix)
      requires Valid() && 0 <= k < |trace| && |grad| == |trace[k].indices|
      requires forall j :: 0 <= j < |grad| ==> |grad[j]| == dim
      modifies this`trace
      ensures Valid()
      ensures trace == old(trace)[k := old(trace)[k].(grad := Some(grad))]
    {
      trace := trace[k := trace[k].(grad := Some(grad))];
    }

    /**
     * The device-table half of one entry of a synchronous `update`:
     * `state_sum.index_add_` with the mean squared gradient, then
     * `emb.index_add_` with the step scaled by the new accumulator.
     */
    method ApplyStep(g: SparseGrad, gradSum: seq<real>)
      requires Valid() && Fits(Table(), g) && gradSum == RowMeanSq(g.values)
      modifies emb, stateSum
      ensures Valid() && Table() == SparseStep(old(Table()), g, lr)
    {
      ghost var before := Table();
      SparseStepInPlace(emb, stateSum, g, gradSum, lr);
      SparseStepGrows(before, g, lr);
      if asyncQ != null {
        JobsFitSameShape(before, Table(), asyncQ.items);
      }
    }

    /**
     * The overflow half of one entry of a synchronous `update` with cross
     * relations: when some of the entry's indices have their bit set, the
     * same step is applied to those rows of the authoritative table, with
     * their gradient rows and mean squares.
     */
    method ApplyCrossPart(g: SparseGrad, gradSum: seq<real>)
      requires Valid() && hasCrossRel && Fits(Table(), g) && gradSum == RowMeanSq(g.values)
      modifies globalEmb.emb, globalEmb.stateSum
      ensures Valid()
      ensures Paired(old(Tables(Table(), globalEmb.Table())), cpuBitmap)
      ensures globalEmb.Table() == CrossGlobalStep(old(Tables(Table(), globalEmb.Table())), cpuBitmap, g, lr)
    {
      ghost var t := Tables(Table(), globalEmb.Table());
      ShapedSame(t.global, t.local, num, dim);
      CrossGlobalStepInPlace(globalEmb.emb, globalEmb.stateSum, Table(), cpuBitmap, g, gradSum, lr);
      CrossGlobalStepNonNegative(t, cpuBitmap, g, lr);
      assert Table() == t.local;
    }

    /**
     * The asynchronous branch of `update`: one request per trace entry is
     * put on the queue, in trace order.
     */
    method EnqueueTrace(gpuId: int)
      requires Valid() && asyncQ != null && HasGrads(trace)
      modifies asyncQ
      ensures Valid()
      ensures asyncQ.items == old(asyncQ.items) + Jobs(Grads(trace), gpuId)
    {
      ghost var gs := Grads(trace);
      GradsFit(Table(), trace, num, dim);
      var k := 0;
      while k < |trace|
        invariant 0 <= k <= |trace|
        invariant Valid()
        invariant asyncQ.items == old(asyncQ.items) + Jobs(gs[..k], gpuId)
      {
        var g := SparseGrad(trace[k].indices, trace[k].grad.value);
        assert g == gs[k] && Fits(Table(), g);
        asyncQ.Put(Job(g, gpuId));
        assert Jobs(gs[..k + 1], gpuId) == Jobs(gs[..k], gpuId) + [Job(g, gpuId)];
        k := k + 1;
      }
      assert gs[..k] == gs;
    }

    /**
     * One trace entry of a synchronous `update` with cross relations: the
     * overflow part first goes to the authoritative table, then the whole
     * entry goes to the device table.
     */
    method ApplyCrossEntry(g: SparseGrad)
      requires Valid() && hasCrossRel && Fits(Table(), g)
      modifies emb, stateSum, globalEmb.emb, globalEmb.stateSum
      ensures Valid()
      ensures Paired(old(Tables(Table(), globalEmb.Table())), cpuBitmap)
      ensures Tables(Table(), globalEmb.Table()) == CrossStep(old(Tables(Table(), globalEmb.Table())), cpuBitmap, g, lr)
    {
      var gradSum := RowMeanSq(g.values);
      ShapedSame(globalEmb.Table(), Table(), num, dim);
      ApplyCrossPart(g, gradSum);
      ApplyStep(g, gradSum);
    }

    /**
     * The synchronous branch of `update` without cross relations: each
     * trace entry's step is applied in trace order.
     */
    method ApplyTrace()
      requires Valid() && HasGrads(trace) && !hasCrossRel
      modifies emb, stateSum
      ensures Valid()
      ensures AllFit(old(Table()), Grads(trace)) && Table() == SyncSteps(old(Table()), Grads(trace), lr)
    {
      ghost var gs := Grads(trace);
      ghost var t0 := Table();
      GradsFit(t0, trace, num, dim);
      var k := 0;
      while k < |trace|
        invariant 0 <= k <= |trace|
        invariant Valid()
        invariant AllFit(t0, gs[..k]) && Table() == SyncSteps(t0, gs[..k], lr)
      {
        GradsFit(Table(), trace, num, dim);
        var g := SparseGrad(trace[k].indices, trace[k].grad.value);
        assert g == gs[k] && Fits(Table(), g);
        SyncStepsSnoc(t0, gs, k, lr);
        ApplyStep(g, RowMeanSq(g.values));
        k := k + 1;
      }
      assert gs[..k] == gs;
    }

    /**
     * The synchronous branch of `update` with cross relations: each trace
     * entry's cross-relation step is applied in trace order.
     */
    method ApplyTraceCross()
      requires Valid() && HasGrads(trace) && hasCrossRel
      modifies emb, stateSum, globalEmb.emb, globalEmb.stateSum
      ensures Valid()
      ensures Paired(old(Tables(Table(), globalEmb.Table())), cpuBitmap) && AllFit(old(Table()), Grads(trace))
      ensures Tables(Table(), globalEmb.Table()) == CrossSyncSteps(old(Tables(Table(), globalEmb.Table())), cpuBitmap, Grads(trace), lr)
      ensures Table() == SyncSteps(old(Table()), Grads(trace), lr)
      ensures AllFit(old(globalEmb.Table()), CrossParts(cpuBitmap, Grads(trace))) &&
        globalEmb.Table() == SyncSteps(old(globalEmb.Table()), CrossParts(cpuBitmap, Grads(trace)), lr)
    {
      ghost var gs := Grads(trace);
      ghost var t0 := Tables(Table(), globalEmb.Table());
      GradsFit(t0.local, trace, num, dim);
      ShapedSame(t0.global, t0.local, num, dim);
      var k := 0;
      while k < |trace|
        invariant 0 <= k <= |trace|
        invariant Valid()
        invariant AllFit(t0.local, gs[..k])
        invariant Tables(Table(), globalEmb.Table()) == CrossSyncSteps(t0, cpuBitmap, gs[..k], lr)
      {
        ApplyCrossAt(k, t0);
        k := k + 1;
      }
      assert gs[..k] == gs;
      CrossSyncSplits(t0, cpuBitmap, gs, lr);
    }

    /**
     * Entry k of the trace, with cross relations, applied once entries
     * 0 to k - 1 have been: the fold reaches one entry further.
     */
    method ApplyCrossAt(k: int, ghost t0: Tables)
      requires Valid() && hasCrossRel && HasGrads(trace) && 0 <= k < |trace|
      requires Paired(t0, cpuBitmap) && AllFit(t0.local, Grads(trace)) && AllFit(t0.local, Grads(trace)[..k])
      requires Tables(Table(), globalEmb.Table()) == CrossSyncSteps(t0, cpuBitmap, Grads(trace)[..k], lr)
      modifies emb, stateSum, globalEmb.emb, globalEmb.stateSum
      ensures Valid() && AllFit(t0.local, Grads(trace)[..k + 1])
      ensures Tables(Table(), globalEmb.Table()) == CrossSyncSteps(t0, cpuBitmap, Grads(trace)[..k + 1], lr)
    {
      ghost var gs := Grads(trace);
      GradsFit(Table(), trace, num, dim);
      var g := SparseGrad(trace[k].indices, trace[k].grad.value);
      assert g == gs[k] && Fits(Table(), g);
      CrossSyncStepsSnoc(t0, cpuBitmap, gs, k, lr);
      ghost var cur := Tables(Table(), globalEmb.Table());
      ApplyCrossEntry(g);
      assert Tables(Table(), globalEmb.Table()) == CrossStep(cur, cpuBitmap, g, lr);
    }

    /**
     * `update`: the step counter goes up by one and the trace is emptied.
     * With a queue, one request per trace entry is put on it, in trace
     * order, and the table is left alone. Without one, each entry's
     * sparse Adagrad step is applied in trace order; with cross relations
     * the overflow part of each entry is applied to the authoritative
     * table as well.
     */
    method Update(gpuId: int)
      requires Valid() && HasGrads(trace)
      modifies this`stateStep, this`trace, emb, stateSum, asyncQ
      modifies if hasCrossRel && globalEmb != null then {globalEmb.emb, globalEmb.stateSum} else {}
      ensures Valid()
      ensures stateStep == old(stateStep) + 1 && trace == []
      ensures asyncQ != null ==>
        asyncQ.items == old(asyncQ.items) + Jobs(Grads(old(trace)), gpuId) && Table() == old(Table())
      ensures asyncQ == null ==>
        AllFit(old(Table()), Grads(old(trace))) && Table() == SyncSteps(old(Table()), Grads(old(trace)), lr)
      ensures hasCrossRel && asyncQ == null ==>
        AllFit(old(globalEmb.Table()), CrossParts(cpuBitmap, Grads(old(trace)))) &&
        globalEmb.Table() == SyncSteps(old(globalEmb.Table()), CrossParts(cpuBitmap, Grads(old(trace))), lr)
      ensures hasCrossRel && asyncQ != null ==> globalEmb.Table() == old(globalEmb.Table())
    {
      if asyncQ != null {
        EnqueueTrace(gpuId);
      } else if hasCrossRel {
        ApplyTraceCross();
      } else {
        ApplyTrace();
      }
      EndUpdate();
    }

    /** The end of every `update`: the step counter goes up by one and the trace is emptied. */
    method EndUpdate()
      requires Valid()
      modifies this`stateStep, this`trace
      ensures Valid() && stateStep == old(stateStep) + 1 && trace == []
    {
      stateStep := stateStep + 1;
      trace := [];
    }

    /**
     * `create_async_update`: a new, empty queue to the update worker; from
     * now on `update` puts its requests on it.
     */
    method CreateAsyncUpdate()
      requires Valid()
      modifies this`asyncQ
      ensures Valid() && asyncQ != null && fresh(asyncQ) && asyncQ.items == []
    {
      asyncQ := new JobQueue();
    }

    /** `finish_async_update`: the stop request joins the back of the queue. */
    method FinishAsyncUpdate()
      requires Valid() && asyncQ != null
      modifies asyncQ
      ensures Valid() && asyncQ.items == old(asyncQ.items) + [Sentinel]
    {
      ghost var items := asyncQ.items;
      asyncQ.Put(Sentinel);
      assert forall k :: 0 <= k < |items| ==> asyncQ.items[k] == items[k];
    }
  }

  /**
   * The update worker `async_update`: it takes requests off the front of
   * the queue and applies each to the table with the sparse Adagrad step of
   * `update` (cross relations are not consulted), until it takes the stop
   * request. It returns whether it stopped; when the queue runs dry first,
   * the worker would wait for the next request.
   */
  method AsyncUpdate(e: ExternalEmbedding, q: JobQueue) returns (stopped: bool)
    requires e.Valid() && e.asyncQ == q
    modifies e.emb, e.stateSum, q
    ensures e.Valid()
    ensures stopped <==> Sentinel in old(q.items)
    ensures q.items == Leftover(old(q.items))
    ensures JobsFit(old(e.Table()), old(q.items)) && e.Table() == ApplyJobs(old(e.Table()), old(q.items), e.lr)
  {
    ghost var jobs, t0 := q.items, e.Table();
    stopped := false;
    while !stopped && q.items != []
      invariant e.Valid() && e.asyncQ == q
      invariant stopped ==> Sentinel in jobs && q.items == Leftover(jobs) && e.Table() == ApplyJobs(t0, jobs, e.lr)
      invariant !stopped ==> (Sentinel in jobs <==> Sentinel in q.items) && Leftover(jobs) == Leftover(q.items)
      invariant !stopped ==> ApplyJobs(t0, jobs, e.lr) == ApplyJobs(e.Table(), q.items, e.lr)
      decreases |q.items|
    {
      LeftoverCons(q.items);
      stopped := ServeJob(e, q);
    }
  }

  /**
   * One turn of the worker: the request at the front is taken off the
   * queue and, unless it is the stop request, applied as one sparse step.
   */
  method ServeJob(e: ExternalEmbedding, q: JobQueue) returns (stopped: bool)
    requires e.Valid() && e.asyncQ == q && q.items != []
    modifies e.emb, e.stateSum, q
    ensures e.Valid() && q.items == old(q.items)[1..]
    ensures stopped <==> old(q.items)[0] == Sentinel
    ensures JobsFit(old(e.Table()), old(q.items))
    ensures stopped ==> e.Table() == old(e.Table()) == ApplyJobs(old(e.Table()), old(q.items), e.lr)
    ensures !stopped ==>
      old(q.items)[0].Job? && Fits(old(e.Table()), old(q.items)[0].grad) &&
      e.Table() == SparseStep(old(e.Table()), old(q.items)[0].grad, e.lr)
    ensures !stopped ==> ApplyJobs(old(e.Table()), old(q.items), e.lr) == ApplyJobs(e.Table(), q.items, e.lr)
  {
    ghost var before, t := q.items, e.Table();
    assert JobsFit(t, before);
    var job := q.Get();
    JobsFitSuffix(t, before, 1);
    assert before[0] == job && before[1..] == q.items;
    match job
    case Sentinel =>
      stopped := true;
    case Job(g, gpuId) =>
      stopped := false;
      assert Fits(t, g);
      ApplyJobsCons(t, g, gpuId, q.items, e.lr);
      e.ApplyStep(g, RowMeanSq(g.values));
  }
}
