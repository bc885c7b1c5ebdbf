/**
 * The tensor primitives the sparse embedding store is built from, on
 * values (`seq`) and, where the store applies them in place, on arrays:
 * gathering rows by index (`t[idx]`), boolean-mask selection
 * (`t[mask]`), `unique`, and `index_add_` (scatter-add along dimension 0).
 */
module SparseOps {

  /** A two-dimensional tensor: a sequence of rows. */
  type Matrix = seq<seq<real>>

  /** Every index lies in [0, n). */
  predicate InRange(idx: seq<int>, n: int) {
    forall k :: 0 <= k < |idx| ==> 0 <= idx[k] < n
  }

  /** No index occurs twice. */
  predicate NoDuplicates(idx: seq<int>) {
    forall i, j :: 0 <= i < j < |idx| ==> idx[i] != idx[j]
  }

  /** Strictly increasing, hence free of duplicates. */
  predicate Increasing(p: seq<int>) {
    forall i, j :: 0 <= i < j < |p| ==> p[i] < p[j]
  }

  /** `t[idx]`: the elements of `t` at the given indices, in order. */
  function Gather<T>(t: seq<T>, idx: seq<int>): (r: seq<T>)
    requires InRange(idx, |t|)
    ensures |r| == |idx| && forall k {:trigger t[idx[k]]} :: 0 <= k < |idx| ==> r[k] == t[idx[k]]
  {
    seq(|idx|, k requires 0 <= k < |idx| => t[idx[k]])
  }

  /** The positions at which a boolean mask is set, in ascending order. */
  function MaskPositions(mask: seq<bool>): (p: seq<int>)
    ensures |p| <= |mask|
    ensures Increasing(p)
    ensures forall j :: 0 <= j < |p| ==> 0 <= p[j] < |mask| && mask[p[j]]
    ensures forall k :: 0 <= k < |mask| && mask[k] ==> k in p
    decreases |mask|
  {
    if |mask| == 0 then []
    else
      var q := MaskPositions(mask[..|mask| - 1]);
      if mask[|mask| - 1] then q + [|mask| - 1] else q
  }

  /** `t[mask]`: the elements of `t` whose mask bit is set, in order. */
  function MaskSelect<T>(t: seq<T>, mask: seq<bool>): (r: seq<T>)
    requires |t| == |mask|
    ensures |r| == |MaskPositions(mask)| <= |t|
    decreases |t|
  {
    if |t| == 0 then []
    else
      var n := |t| - 1;
      MaskSelect(t[..n], mask[..n]) + (if mask[n] then [t[n]] else [])
  }

  /**
   * `MaskSelect` keeps exactly the elements at `MaskPositions(mask)`: the
   * selected elements keep their order and their multiplicity.
   */
  lemma {:induction false} MaskSelectAt<T>(t: seq<T>, mask: seq<bool>)
    requires |t| == |mask|
    ensures |MaskSelect(t, mask)| == |MaskPositions(mask)|
    ensures forall j :: 0 <= j < |MaskPositions(mask)| ==>
      MaskSelect(t, mask)[j] == t[MaskPositions(mask)[j]]
    decreases |t|
  {
    if |t| > 0 {
      var n := |t| - 1;
      MaskSelectAt(t[..n], mask[..n]);
    }
  }

  /** An element is selected exactly when it sits at a position whose bit is set. */
  lemma MaskSelectMembers<T>(t: seq<T>, mask: seq<bool>)
    requires |t| == |mask|
    ensures forall x :: x in MaskSelect(t, mask) <==>
      exists k :: 0 <= k < |t| && mask[k] && t[k] == x
  {
    MaskSelectAt(t, mask);
    var s, p := MaskSelect(t, mask), MaskPositions(mask);
    forall x | x in s ensures exists k :: 0 <= k < |t| && mask[k] && t[k] == x {
      var j :| 0 <= j < |s| && s[j] == x;
      assert t[p[j]] == x;
    }
    forall x | exists k :: 0 <= k < |t| && mask[k] && t[k] == x ensures x in s {
      var k :| 0 <= k < |t| && mask[k] && t[k] == x;
      var j :| 0 <= j < |p| && p[j] == k;
      assert s[j] == x;
    }
  }

  /** Selecting from indices without duplicates yields indices without duplicates. */
  lemma MaskSelectNoDuplicates(idx: seq<int>, mask: seq<bool>)
    requires |idx| == |mask| && NoDuplicates(idx)
    ensures NoDuplicates(MaskSelect(idx, mask))
  {
    MaskSelectAt(idx, mask);
  }

  /** Selecting from indices in [0, n) yields indices in [0, n). */
  lemma MaskSelectInRange(idx: seq<int>, mask: seq<bool>, n: int)
    requires |idx| == |mask| && InRange(idx, n)
    ensures InRange(MaskSelect(idx, mask), n)
  {
    MaskSelectAt(idx, mask);
  }

  /** `~mask`: the element-wise negation of a boolean mask. */
  function Not(mask: seq<bool>): (r: seq<bool>)
    ensures |r| == |mask| && forall k :: 0 <= k < |mask| ==> r[k] != mask[k]
  {
    seq(|mask|, k requires 0 <= k < |mask| => !mask[k])
  }

  /**
   * `unique(idx)`: the distinct values of `idx` in ascending order. For
   * indices known to lie in [0, n) these are the positions of the
   * membership mask over [0, n).
   */
  function Unique(idx: seq<int>, n: nat): (u: seq<int>)
    requires InRange(idx, n)
    ensures Increasing(u) && NoDuplicates(u) && InRange(u, n)
    ensures forall x :: x in u <==> x in idx
  {
    var u := MaskPositions(seq(n, i requires 0 <= i < n => i in idx));
    assert forall x :: x in idx ==> 0 <= x < n;
    u
  }

  /** Element-wise sum of two vectors of the same length. */
  function VecAdd(a: seq<real>, b: seq<real>): seq<real>
    requires |a| == |b|
  {
    seq(|a|, j requires 0 <= j < |a| => a[j] + b[j])
  }

  /** A vector whose entries are all zero. */
  predicate IsZero(v: seq<real>) {
    forall j :: 0 <= j < |v| ==> v[j] == 0.0
  }

  /**
   * `s.index_add_(0, idx, v)` on a vector: `s[idx[k]] += v[k]` for each
   * k in turn (a repeated index accumulates).
   */
  function IndexAdd(s: seq<real>, idx: seq<int>, v: seq<real>): (r: seq<real>)
    requires |idx| == |v| && InRange(idx, |s|)
    ensures |r| == |s|
    decreases |idx|
  {
    if |idx| == 0 then s
    else
      var n := |idx| - 1;
      var t := IndexAdd(s, idx[..n], v[..n]);
      t[idx[n] := t[idx[n]] + v[n]]
  }

  /** Entries whose index is not named are left alone. */
  lemma {:induction false} IndexAddOutside(s: seq<real>, idx: seq<int>, v: seq<real>, i: int)
    requires |idx| == |v| && InRange(idx, |s|)
    requires 0 <= i < |s| && i !in idx
    ensures IndexAdd(s, idx, v)[i] == s[i]
    decreases |idx|
  {
    if |idx| > 0 {
      var n := |idx| - 1;
      assert i !in idx[..n] by { assert forall x :: x in idx[..n] ==> x in idx; }
      IndexAddOutside(s, idx[..n], v[..n], i);
    }
  }

  /** With unique indices, entry `idx[k]` grows by exactly `v[k]`. */
  lemma {:induction false} IndexAddAt(s: seq<real>, idx: seq<int>, v: seq<real>, k: int)
    requires |idx| == |v| && InRange(idx, |s|) && NoDuplicates(idx)
    requires 0 <= k < |idx|
    ensures IndexAdd(s, idx, v)[idx[k]] == s[idx[k]] + v[k]
    decreases |idx|
  {
    var n := |idx| - 1;
    if k == n {
      assert idx[n] !in idx[..n];
      IndexAddOutside(s, idx[..n], v[..n], idx[n]);
    } else {
      IndexAddAt(s, idx[..n], v[..n], k);
    }
  }

  /** The sum of the amounts whose index is i. */
  function AmountAt(idx: seq<int>, v: seq<real>, i: int): real
    requires |idx| == |v|
    decreases |idx|
  {
    if |idx| == 0 then 0.0
    else
      var n := |idx| - 1;
      AmountAt(idx[..n], v[..n], i) + (if idx[n] == i then v[n] else 0.0)
  }

  /** Repeated indices accumulate: entry i grows by the sum of all amounts named i. */
  lemma {:induction false} IndexAddSum(s: seq<real>, idx: seq<int>, v: seq<real>, i: int)
    requires |idx| == |v| && InRange(idx, |s|) && 0 <= i < |s|
    ensures IndexAdd(s, idx, v)[i] == s[i] + AmountAt(idx, v, i)
    decreases |idx|
  {
    if |idx| > 0 {
      var n := |idx| - 1;
      IndexAddSum(s, idx[..n], v[..n], i);
    }
  }

  /** Adding non-negative amounts never decreases an entry, duplicates or not. */
  lemma {:induction false} IndexAddGrows(s: seq<real>, idx: seq<int>, v: seq<real>)
    requires |idx| == |v| && InRange(idx, |s|)
    requires forall k :: 0 <= k < |v| ==> v[k] >= 0.0
    ensures forall i :: 0 <= i < |s| ==> IndexAdd(s, idx, v)[i] >= s[i]
    decreases |idx|
  {
    if |idx| > 0 {
      var n := |idx| - 1;
      IndexAddGrows(s, idx[..n], v[..n]);
    }
  }

  /** Adding zeros changes nothing. */
  lemma {:induction false} IndexAddZero(s: seq<real>, idx: seq<int>, v: seq<real>)
    requires |idx| == |v| && InRange(idx, |s|) && IsZero(v)
    ensures IndexAdd(s, idx, v) == s
    decreases |idx|
  {
    if |idx| > 0 {
      var n := |idx| - 1;
      IndexAddZero(s, idx[..n], v[..n]);
    }
  }

  /**
   * `rows.index_add_(0, idx, v)` on a matrix: row `idx[k]` gains `v[k]`
   * element-wise, for each k in turn.
   */
  function IndexAddRows(rows: Matrix, idx: seq<int>, v: Matrix): (r: Matrix)
    requires |idx| == |v| && InRange(idx, |rows|)
    requires forall k :: 0 <= k < |idx| ==> |v[k]| == |rows[idx[k]]|
    ensures |r| == |rows|
    ensures forall i :: 0 <= i < |rows| ==> |r[i]| == |rows[i]|
    decreases |idx|
  {
    if |idx| == 0 then rows
    else
      var n := |idx| - 1;
      var t := IndexAddRows(rows, idx[..n], v[..n]);
      t[idx[n] := VecAdd(t[idx[n]], v[n])]
  }

  /** Rows whose index is not named are left alone. */
  lemma {:induction false} IndexAddRowsOutside(rows: Matrix, idx: seq<int>, v: Matrix, i: int)
    requires |idx| == |v| && InRange(idx, |rows|)
    requires forall k :: 0 <= k < |idx| ==> |v[k]| == |rows[idx[k]]|
    requires 0 <= i < |rows| && i !in idx
    ensures IndexAddRows(rows, idx, v)[i] == rows[i]
    decreases |idx|
  {
    if |idx| > 0 {
      var n := |idx| - 1;
      assert i !in idx[..n] by { assert forall x :: x in idx[..n] ==> x in idx; }
      IndexAddRowsOutside(rows, idx[..n], v[..n], i);
    }
  }

  /** With unique indices, row `idx[k]` becomes its old value plus `v[k]`. */
  lemma {:induction false} IndexAddRowsAt(rows: Matrix, idx: seq<int>, v: Matrix, k: int)
    requires |idx| == |v| && InRange(idx, |rows|) && NoDuplicates(idx)
    requires forall k :: 0 <= k < |idx| ==> |v[k]| == |rows[idx[k]]|
    requires 0 <= k < |idx|
    ensures IndexAddRows(rows, idx, v)[idx[k]] == VecAdd(rows[idx[k]], v[k])
    decreases |idx|
  {
    var n := |idx| - 1;
    if k == n {
      assert idx[n] !in idx[..n];
      IndexAddRowsOutside(rows, idx[..n], v[..n], idx[n]);
    } else {
      IndexAddRowsAt(rows, idx[..n], v[..n], k);
    }
  }

  /** Adding zero rows changes nothing. */
  lemma {:induction false} IndexAddRowsZero(rows: Matrix, idx: seq<int>, v: Matrix)
    requires |idx| == |v| && InRange(idx, |rows|)
    requires forall k :: 0 <= k < |idx| ==> |v[k]| == |rows[idx[k]]| && IsZero(v[k])
    ensures IndexAddRows(rows, idx, v) == rows
    decreases |idx|
  {
    if |idx| > 0 {
      var n := |idx| - 1;
      IndexAddRowsZero(rows, idx[..n], v[..n]);
      assert VecAdd(rows[idx[n]], v[n]) == rows[idx[n]];
    }
  }

  /**
   * `t[idx] = v` (index assignment): element `idx[k]` is overwritten with
   * `v[k]`, for each k in turn.
   */
  function Scatter<T>(t: seq<T>, idx: seq<int>, v: seq<T>): (r: seq<T>)
    requires |idx| == |v| && InRange(idx, |t|)
    ensures |r| == |t|
    decreases |idx|
  {
    if |idx| == 0 then t
    else
      var n := |idx| - 1;
      Scatter(t, idx[..n], v[..n])[idx[n] := v[n]]
  }

  /** Elements whose index is not named are left alone. */
  lemma {:induction false} ScatterOutside<T>(t: seq<T>, idx: seq<int>, v: seq<T>, i: int)
    requires |idx| == |v| && InRange(idx, |t|)
    requires 0 <= i < |t| && i !in idx
    ensures Scatter(t, idx, v)[i] == t[i]
    decreases |idx|
  {
    if |idx| > 0 {
      var n := |idx| - 1;
      assert i !in idx[..n] by { assert forall x :: x in idx[..n] ==> x in idx; }
      ScatterOutside(t, idx[..n], v[..n], i);
    }
  }

  /** With unique indices, element `idx[k]` ends up holding `v[k]`. */
  lemma {:induction false} ScatterAt<T>(t: seq<T>, idx: seq<int>, v: seq<T>, k: int)
    requires |idx| == |v| && InRange(idx, |t|) && NoDuplicates(idx)
    requires 0 <= k < |idx|
    ensures Scatter(t, idx, v)[idx[k]] == v[k]
    decreases |idx|
  {
    var n := |idx| - 1;
    if k < n {
      ScatterAt(t, idx[..n], v[..n], k);
    }
  }

  /** `a[idx] = v` performed in place. */
  method ScatterInPlace<T>(a: array<T>, idx: seq<int>, v: seq<T>)
    requires |idx| == |v| && InRange(idx, a.Length)
    modifies a
    ensures a[..] == Scatter(old(a[..]), idx, v)
  {
    var k := 0;
    while k < |idx|
      invariant 0 <= k <= |idx|
      invariant a[..] == Scatter(old(a[..]), idx[..k], v[..k])
    {
      assert idx[..k + 1][..k] == idx[..k] && v[..k + 1][..k] == v[..k];
      a[idx[k]] := v[k];
      k := k + 1;
    }
    assert idx[..k] == idx && v[..k] == v;
  }

  /** `a.index_add_(0, idx, v)` performed in place on a vector. */
  method IndexAddInPlace(a: array<real>, idx: seq<int>, v: seq<real>)
    requires |idx| == |v| && InRange(idx, a.Length)
    modifies a
    ensures a[..] == IndexAdd(old(a[..]), idx, v)
  {
    var k := 0;
    while k < |idx|
      invariant 0 <= k <= |idx|
      invariant a[..] == IndexAdd(old(a[..]), idx[..k], v[..k])
    {
      assert idx[..k + 1][..k] == idx[..k] && v[..k + 1][..k] == v[..k];
      a[idx[k]] := a[idx[k]] + v[k];
      k := k + 1;
    }
    assert idx[..k] == idx && v[..k] == v;
  }

  /** `a.index_add_(0, idx, v)` performed in place on a matrix. */
  method IndexAddRowsInPlace(a: array<seq<real>>, idx: seq<int>, v: Matrix)
    requires |idx| == |v| && InRange(idx, a.Length)
    requires forall k :: 0 <= k < |idx| ==> |v[k]| == |a[idx[k]]|
    modifies a
    ensures a[..] == IndexAddRows(old(a[..]), idx, v)
  {
    var k := 0;
    while k < |idx|
      invariant 0 <= k <= |idx|
      invariant a[..] == IndexAddRows(old(a[..]), idx[..k], v[..k])
    {
      assert idx[..k + 1][..k] == idx[..k] && v[..k + 1][..k] == v[..k];
      a[idx[k]] := VecAdd(a[idx[k]], v[k]);
      k := k + 1;
    }
    assert idx[..k] == idx && v[..k] == v;
  }
}
