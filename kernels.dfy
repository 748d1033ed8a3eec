/**
 * The outer-product modes and the two generated kernels ("holes") the
 * iterators call, with the effect each visit has on the output:
 *  - the vector kernel genexecDense(a, u, ui, v, vi, ..., c, ci, ..., i, j)
 *    adds a k-long row into c at offset ci;
 *  - the scalar kernel genexecCellwise(a, u, ui, v, vi, ..., i, j) returns
 *    one value.
 * The generated arithmetic is not known: both kernels are parameters. The
 * factor matrices U and V, the side inputs and the scalars are the same for
 * every visit of one call, so a kernel value stands for the generated code
 * together with them; what varies per visit is passed explicitly.
 */
module Kernels {
  import opened Entries

  datatype OutProdType =
    | LeftOuterProduct
    | RightOuterProduct
    | CellwiseOuterProduct
    | AggOuterProduct

  /** The arguments of one genexecDense call that vary per visit. */
  datatype KernelCall = KernelCall(a: real, ui: int, vi: int, ci: int, row: int, col: int)

  /** vk(call, t) is what the vector kernel adds to c[call.ci + t], 0 <= t < k. */
  type VectorKernel = (KernelCall, int) -> real

  /** genexecCellwise(a, ui, vi, rowIndex, colIndex). */
  type CellKernel = (real, int, int, int, int) -> real

  /** The vector-kernel call a visit makes: U row offset i*k, V row offset
      j*k, and the output row offset j*k in Left mode, i*k otherwise. */
  function CallOf(e: Entry, k: int, left: bool): KernelCall
  {
    KernelCall(e.val, e.row * k, e.col * k, if left then e.col * k else e.row * k, e.row, e.col)
  }

  /** What one call adds at output position p. */
  function CallContribution(vk: VectorKernel, call: KernelCall, k: int, p: int): real
  {
    if call.ci <= p < call.ci + k then vk(call, p - call.ci) else 0.0
  }

  /** What each visit's call adds at output position p. */
  function Contributions(vk: VectorKernel, k: int, left: bool, p: int): Entry -> real
  {
    e => CallContribution(vk, CallOf(e, k, left), k, p)
  }

  /** The output after one vector-kernel call. */
  function ApplyCall(c: seq<real>, call: KernelCall, vk: VectorKernel, k: int): (r: seq<real>)
    ensures |r| == |c|
  {
    seq(|c|, p requires 0 <= p < |c| => c[p] + CallContribution(vk, call, k, p))
  }

  /** The output after the vector-kernel calls of a visit trace, made in
      trace order. */
  function ApplyCalls(c: seq<real>, es: seq<Entry>, vk: VectorKernel, k: int, left: bool): (r: seq<real>)
    ensures |r| == |c|
    decreases |es|
  {
    if es == [] then c
    else ApplyCall(ApplyCalls(c, es[..|es| - 1], vk, k, left), CallOf(es[|es| - 1], k, left), vk, k)
  }

  /** Every output position ends up with its old value plus the sum of what
      the trace's calls add there. */
  lemma {:induction false} ApplyCallsAt(c: seq<real>, es: seq<Entry>, vk: VectorKernel, k: int, left: bool, p: int)
    requires 0 <= p < |c|
    ensures ApplyCalls(c, es, vk, k, left)[p] == c[p] + SumBy(es, Contributions(vk, k, left, p))
    decreases |es|
  {
    if es != [] {
      ApplyCallsAt(c, es[..|es| - 1], vk, k, left, p);
    }
  }

  /** genexecDense: the vector kernel adds its k values into c[ci..ci+k). */
  method GenexecDense(vk: VectorKernel, call: KernelCall, c: array<real>, k: int)
    requires 0 <= call.ci && call.ci + k <= c.Length
    modifies c
    ensures c[..] == ApplyCall(old(c[..]), call, vk, k)
  {
    forall p | call.ci <= p < call.ci + k {
      c[p] := c[p] + vk(call, p - call.ci);
    }
  }

  /** One more visit is one more kernel call on the output. */
  lemma ApplyCallsSnoc(c: seq<real>, es: seq<Entry>, e: Entry, vk: VectorKernel, k: int, left: bool)
    ensures ApplyCalls(c, es + [e], vk, k, left) == ApplyCall(ApplyCalls(c, es, vk, k, left), CallOf(e, k, left), vk, k)
  {
    assert (es + [e])[..|es|] == es;
  }

  /** Running two traces one after the other is running their concatenation. */
  lemma ApplyCallsConcat(c: seq<real>, s: seq<Entry>, t: seq<Entry>, vk: VectorKernel, k: int, left: bool)
    ensures ApplyCalls(ApplyCalls(c, s, vk, k, left), t, vk, k, left) == ApplyCalls(c, s + t, vk, k, left)
  {
    forall p | 0 <= p < |c|
      ensures ApplyCalls(ApplyCalls(c, s, vk, k, left), t, vk, k, left)[p] == ApplyCalls(c, s + t, vk, k, left)[p]
    {
      ApplyCallsAt(ApplyCalls(c, s, vk, k, left), t, vk, k, left, p);
      ApplyCallsAt(c, s, vk, k, left, p);
      ApplyCallsAt(c, s + t, vk, k, left, p);
      SumByConcat(s, t, Contributions(vk, k, left, p));
    }
  }

  /** The output of a trace does not depend on the order of its visits. */
  lemma ApplyCallsPermutation(c: seq<real>, s: seq<Entry>, t: seq<Entry>, vk: VectorKernel, k: int, left: bool)
    requires multiset(s) == multiset(t)
    ensures ApplyCalls(c, s, vk, k, left) == ApplyCalls(c, t, vk, k, left)
  {
    forall p | 0 <= p < |c|
      ensures ApplyCalls(c, s, vk, k, left)[p] == ApplyCalls(c, t, vk, k, left)[p]
    {
      ApplyCallsAt(c, s, vk, k, left, p);
      ApplyCallsAt(c, t, vk, k, left, p);
      SumByPermutation(s, t, Contributions(vk, k, left, p));
    }
  }

  /** Calls whose output rows lie outside [lo, hi) leave c[lo..hi) alone. */
  lemma {:induction false} ApplyCallsElsewhere(c: seq<real>, es: seq<Entry>, vk: VectorKernel, k: int, left: bool, lo: int, hi: int)
    requires 0 <= lo <= hi <= |c|
    requires forall e :: e in es ==> CallOf(e, k, left).ci + k <= lo || hi <= CallOf(e, k, left).ci
    ensures ApplyCalls(c, es, vk, k, left)[lo..hi] == c[lo..hi]
  {
    forall p | lo <= p < hi ensures ApplyCalls(c, es, vk, k, left)[p] == c[p] {
      ApplyCallsAt(c, es, vk, k, left, p);
      SumByZero(es, Contributions(vk, k, left, p));
    }
  }

  lemma {:induction false} SumByZero(es: seq<Entry>, w: Entry -> real)
    requires forall e :: e in es ==> w(e) == 0.0
    ensures SumBy(es, w) == 0.0
    decreases |es|
  {
    if es != [] {
      assert es[|es| - 1] in es;
      assert forall e :: e in es[..|es| - 1] ==> e in es;
      SumByZero(es[..|es| - 1], w);
    }
  }

  /** The scalar kernel's result for a visit. */
  function CellValue(f: CellKernel, k: int, e: Entry): real
  {
    f(e.val, e.row * k, e.col * k, e.row, e.col)
  }

  /** The scalar kernel's value at each visit. */
  function CellValues(f: CellKernel, k: int): Entry -> real
  {
    e => CellValue(f, k, e)
  }

  /** The sum of the scalar kernel over a visit trace. */
  function CellSum(es: seq<Entry>, f: CellKernel, k: int): real
  {
    SumBy(es, CellValues(f, k))
  }

  /** The dense output after one scalar-kernel visit: in Cellwise mode
      `c[pos] = value` (a position outside c is never written here; callers
      rule it out first), in every other mode `c[0] += value`. */
  function ApplyCell(c: seq<real>, e: Entry, f: CellKernel, k: int, cellwise: bool): (r: seq<real>)
    ensures |r| == |c|
  {
    if cellwise then (if 0 <= e.pos < |c| then c[e.pos := CellValue(f, k, e)] else c)
    else if |c| == 0 then c
    else c[0 := c[0] + CellValue(f, k, e)]
  }

  /** The dense output after the scalar-kernel visits of a trace, in order. */
  function ApplyCells(c: seq<real>, es: seq<Entry>, f: CellKernel, k: int, cellwise: bool): seq<real>
    decreases |es|
  {
    if es == [] then c
    else ApplyCell(ApplyCells(c, es[..|es| - 1], f, k, cellwise), es[|es| - 1], f, k, cellwise)
  }

  lemma ApplyCellsSnoc(c: seq<real>, es: seq<Entry>, e: Entry, f: CellKernel, k: int, cellwise: bool)
    ensures ApplyCells(c, es + [e], f, k, cellwise) == ApplyCell(ApplyCells(c, es, f, k, cellwise), e, f, k, cellwise)
  {
    assert (es + [e])[..|es|] == es;
  }

  lemma {:induction false} ApplyCellsConcat(c: seq<real>, s: seq<Entry>, t: seq<Entry>, f: CellKernel, k: int, cellwise: bool)
    ensures ApplyCells(ApplyCells(c, s, f, k, cellwise), t, f, k, cellwise) == ApplyCells(c, s + t, f, k, cellwise)
    decreases |t|
  {
    if t == [] {
      assert s + t == s;
    } else {
      var t' := t[..|t| - 1];
      var e := t[|t| - 1];
      assert t == t' + [e];
      assert s + t == (s + t') + [e];
      ApplyCellsConcat(c, s, t', f, k, cellwise);
      ApplyCellsSnoc(c, s + t', e, f, k, cellwise);
    }
  }

  /** Outside Cellwise mode the visits only accumulate into c[0]: the result
      is the old buffer with the sum of the kernel values added to c[0]. */
  lemma {:induction false} ApplyCellsAggregate(c: seq<real>, es: seq<Entry>, f: CellKernel, k: int)
    requires |c| > 0
    ensures ApplyCells(c, es, f, k, false) == c[0 := c[0] + CellSum(es, f, k)]
    decreases |es|
  {
    if es != [] {
      ApplyCellsAggregate(c, es[..|es| - 1], f, k);
    }
  }

  /** In Cellwise mode, when no two visits share a storage position, the
      output holds each visit's value at its position and the old value
      everywhere else. */
  lemma {:induction false} ApplyCellsAt(c: seq<real>, es: seq<Entry>, f: CellKernel, k: int)
    requires forall x, y :: x in es && y in es && x.pos == y.pos ==> x == y
    ensures |ApplyCells(c, es, f, k, true)| == |c|
    ensures forall e :: e in es && 0 <= e.pos < |c| ==> ApplyCells(c, es, f, k, true)[e.pos] == CellValue(f, k, e)
    ensures forall p :: 0 <= p < |c| && (forall e :: e in es ==> e.pos != p) ==> ApplyCells(c, es, f, k, true)[p] == c[p]
    decreases |es|
  {
    if es != [] {
      var es' := es[..|es| - 1];
      var last := es[|es| - 1];
      assert es == es' + [last];
      assert forall e :: e in es' ==> e in es;
      ApplyCellsAt(c, es', f, k);
    }
  }

  /** Every visit of the trace has a storage position inside a buffer of
      length len. */
  predicate PositionsBelow(es: seq<Entry>, len: int)
    decreases |es|
  {
    es == [] || (PositionsBelow(es[..|es| - 1], len) && 0 <= es[|es| - 1].pos < len)
  }

  lemma {:induction false} PositionsBelowConcat(s: seq<Entry>, t: seq<Entry>, len: int)
    ensures PositionsBelow(s + t, len) <==> PositionsBelow(s, len) && PositionsBelow(t, len)
    decreases |t|
  {
    if t == [] {
      assert s + t == s;
    } else {
      var t' := t[..|t| - 1];
      assert (s + t)[..|s + t| - 1] == s + t';
      PositionsBelowConcat(s, t', len);
    }
  }

  /** Every visit of a trace within bounds is within bounds. */
  lemma {:induction false} PositionsBelowMember(es: seq<Entry>, len: int, e: Entry)
    requires PositionsBelow(es, len) && e in es
    ensures 0 <= e.pos < len
    decreases |es|
  {
    if e != es[|es| - 1] {
      assert es == es[..|es| - 1] + [es[|es| - 1]];
      PositionsBelowMember(es[..|es| - 1], len, e);
    }
  }

  /** One `c.append(row, col, value)` on a sparse output block. */
  datatype Append = Append(row: int, col: int, val: real)

  /** The sparse output's appends after those of a visit trace,
      `c.append(i, index, genexecCellwise(...))` in trace order: the column
      given to append is the visit's storage position, not its column. */
  function Appends(log: seq<Append>, es: seq<Entry>, f: CellKernel, k: int): seq<Append>
    decreases |es|
  {
    if es == [] then log
    else
      var e := es[|es| - 1];
      Appends(log, es[..|es| - 1], f, k) + [Append(e.row, e.pos, CellValue(f, k, e))]
  }

  lemma AppendsSnoc(log: seq<Append>, es: seq<Entry>, e: Entry, f: CellKernel, k: int)
    ensures Appends(log, es + [e], f, k) == Appends(log, es, f, k) + [Append(e.row, e.pos, CellValue(f, k, e))]
  {
    assert (es + [e])[..|es|] == es;
  }

  /** One append per visit; the earlier appends stay, and the q-th new one
      carries the q-th visit's row, storage position and kernel value. */
  lemma {:induction false} AppendsAt(log: seq<Append>, es: seq<Entry>, f: CellKernel, k: int)
    ensures |Appends(log, es, f, k)| == |log| + |es|
    ensures Appends(log, es, f, k)[..|log|] == log
    ensures forall q :: 0 <= q < |es| ==>
      Appends(log, es, f, k)[|log| + q] == Append(es[q].row, es[q].pos, CellValue(f, k, es[q]))
    decreases |es|
  {
    if es != [] {
      AppendsAt(log, es[..|es| - 1], f, k);
    }
  }

  lemma {:induction false} AppendsConcat(log: seq<Append>, s: seq<Entry>, t: seq<Entry>, f: CellKernel, k: int)
    ensures Appends(Appends(log, s, f, k), t, f, k) == Appends(log, s + t, f, k)
    decreases |t|
  {
    if t == [] {
      assert s + t == s;
    } else {
      var t' := t[..|t| - 1];
      var e := t[|t| - 1];
      assert t == t' + [e];
      assert s + t == (s + t') + [e];
      AppendsConcat(log, s, t', f, k);
      AppendsSnoc(log, s + t', e, f, k);
      AppendsSnoc(Appends(log, s, f, k), t', e, f, k);
    }
  }

  /** A trace in increasing storage order within each row leaves, in a
      fresh log, appends whose columns strictly increase within each row:
      the order the append-only sparse rows of the output need. */
  lemma AppendsIncreasing(es: seq<Entry>, f: CellKernel, k: int)
    requires PositionsIncreasing(es)
    ensures forall p, q :: 0 <= p < q < |Appends([], es, f, k)| && Appends([], es, f, k)[p].row == Appends([], es, f, k)[q].row ==>
      Appends([], es, f, k)[p].col < Appends([], es, f, k)[q].col
  {
    var log := Appends([], es, f, k);
    AppendsAt([], es, f, k);
    forall p, q | 0 <= p < q < |log| && log[p].row == log[q].row ensures log[p].col < log[q].col {
      assert log[0 + p] == Append(es[p].row, es[p].pos, CellValue(f, k, es[p]));
      assert log[0 + q] == Append(es[q].row, es[q].pos, CellValue(f, k, es[q]));
    }
  }

  /** A fresh log after a trace holds one append per visit of the trace and
      nothing else. */
  lemma AppendsMembers(es: seq<Entry>, f: CellKernel, k: int)
    ensures |Appends([], es, f, k)| == |es|
    ensures forall e :: e in es ==> Append(e.row, e.pos, CellValue(f, k, e)) in Appends([], es, f, k)
    ensures forall x :: x in Appends([], es, f, k) ==>
      exists e :: e in es && x == Append(e.row, e.pos, CellValue(f, k, e))
  {
    var log := Appends([], es, f, k);
    AppendsAt([], es, f, k);
    forall e | e in es ensures Append(e.row, e.pos, CellValue(f, k, e)) in log {
      var q :| 0 <= q < |es| && es[q] == e;
      assert log[q] == Append(e.row, e.pos, CellValue(f, k, e));
    }
    forall x | x in log ensures exists e :: e in es && x == Append(e.row, e.pos, CellValue(f, k, e)) {
      var q :| 0 <= q < |log| && log[q] == x;
      assert es[q] in es;
    }
  }
}
