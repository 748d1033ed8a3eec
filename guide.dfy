/**
 * The guiding matrix A as the iterators read it, in either physical form,
 * and what one row of it contributes to a column range: the non-zero cells
 * of a dense row (stored zeros are skipped), or the stored entries of a
 * sparse row (every stored entry counts, whatever its value).
 */
module Guides {
  import opened Entries
  import opened SparseBlocks

  /** A dense m x n matrix as a flat row-major array, or a sparse block
      of m rows over n columns. */
  datatype Guide =
    | DenseGuide(a: seq<real>, m: int, n: int)
    | SparseGuide(sb: SparseBlock, m: int, n: int)

  predicate ValidGuide(g: Guide)
  {
    0 <= g.m && 0 <= g.n &&
    match g
    case DenseGuide(a, m, n) => |a| == m * n
    case SparseGuide(sb, m, n) => ValidBlock(sb, m, n)
  }

  /** The visit of dense cell (i, j) of the row that starts at position ix,
      if it is a non-zero inside the row. */
  function DenseCell(a: seq<real>, n: int, i: int, ix: int, j: int): seq<Entry>
  {
    if 0 <= j < n && 0 <= ix + j < |a| && a[ix + j] != 0.0
    then [Entry(i, j, ix + j, a[ix + j])]
    else []
  }

  /** The visits of dense row i, which starts at position ix, columns
      lo..hi-1, left to right. */
  function DenseRow(a: seq<real>, n: int, i: int, ix: int, lo: int, hi: int): seq<Entry>
    decreases hi - lo
  {
    if hi <= lo then [] else DenseRow(a, n, i, ix, lo, hi - 1) + DenseCell(a, n, i, ix, hi - 1)
  }

  /** e is the visit of a non-zero dense cell: right position, right value. */
  ghost predicate IsDenseVisit(a: seq<real>, m: int, n: int, e: Entry)
  {
    0 <= e.row < m && 0 <= e.col < n && e.pos == e.row * n + e.col &&
    0 <= e.pos < |a| && a[e.pos] != 0.0 && e.val == a[e.pos]
  }

  lemma {:induction false} DenseRowSpec(a: seq<real>, m: int, n: int, i: int, lo: int, hi: int)
    requires 0 <= i < m
    ensures NoDup(DenseRow(a, n, i, i * n, lo, hi))
    ensures forall e :: e in DenseRow(a, n, i, i * n, lo, hi) <==>
      e.row == i && lo <= e.col < hi && IsDenseVisit(a, m, n, e)
    decreases hi - lo
  {
    if lo < hi {
      var ix := i * n;
      DenseRowSpec(a, m, n, i, lo, hi - 1);
      NoDupConcat(DenseRow(a, n, i, ix, lo, hi - 1), DenseCell(a, n, i, ix, hi - 1));
      forall e ensures e in DenseCell(a, n, i, ix, hi - 1) <==> e.row == i && e.col == hi - 1 && IsDenseVisit(a, m, n, e) {
        if e.row == i && e.col == hi - 1 && IsDenseVisit(a, m, n, e) {
          assert e == Entry(i, hi - 1, ix + hi - 1, a[ix + hi - 1]);
        }
      }
    }
  }

  lemma {:induction false} DenseRowIncreasing(a: seq<real>, m: int, n: int, i: int, lo: int, hi: int)
    requires 0 <= i < m
    ensures ColumnsIncreasing(DenseRow(a, n, i, i * n, lo, hi))
    decreases hi - lo
  {
    if lo < hi {
      DenseRowIncreasing(a, m, n, i, lo, hi - 1);
      DenseRowSpec(a, m, n, i, lo, hi - 1);
      ColumnsIncreasingConcat(DenseRow(a, n, i, i * n, lo, hi - 1), DenseCell(a, n, i, i * n, hi - 1));
    }
  }

  /** A non-zero cell inside the column range is a visit of its row. */
  lemma {:induction false} DenseRowHas(a: seq<real>, m: int, n: int, e: Entry, lo: int, hi: int)
    requires IsDenseVisit(a, m, n, e) && lo <= e.col < hi
    ensures e in DenseRow(a, n, e.row, e.row * n, lo, hi)
    decreases hi - lo
  {
    if e.col < hi - 1 {
      DenseRowHas(a, m, n, e, lo, hi - 1);
    } else {
      assert DenseCell(a, n, e.row, e.row * n, e.col) == [e];
    }
  }

  /** The visits of row i whose column lies in [lo, hi), in visiting order. */
  function RowVisits(g: Guide, i: int, lo: int, hi: int): seq<Entry>
  {
    match g
    case DenseGuide(a, m, n) => if 0 <= i < m then DenseRow(a, n, i, i * n, lo, hi) else []
    case SparseGuide(sb, m, n) =>
      if 0 <= i < |sb.rows| && ValidRow(sb.rows[i], n) then SparseRowVisits(sb.rows[i], i, lo, hi) else []
  }

  /** e is a visit of A: a non-zero cell of a dense A, or a stored entry of
      a sparse A, with its row, column, storage position and value. */
  ghost predicate IsVisit(g: Guide, e: Entry)
  {
    match g
    case DenseGuide(a, m, n) => IsDenseVisit(a, m, n, e)
    case SparseGuide(sb, m, n) =>
      0 <= e.row < |sb.rows| && ValidRow(sb.rows[e.row], n) && IsStoredEntry(sb.rows[e.row], e.row, e)
  }

  /** A row contributes each of its visits in the column range exactly once,
      and nothing else. */
  lemma RowVisitsSpec(g: Guide, i: int, lo: int, hi: int)
    ensures NoDup(RowVisits(g, i, lo, hi))
    ensures forall e :: e in RowVisits(g, i, lo, hi) <==> e.row == i && lo <= e.col < hi && IsVisit(g, e)
  {
    match g
    case DenseGuide(a, m, n) =>
      if 0 <= i < m {
        DenseRowSpec(a, m, n, i, lo, hi);
      }
    case SparseGuide(sb, m, n) =>
      if 0 <= i < |sb.rows| && ValidRow(sb.rows[i], n) {
        SparseRowVisitsSpec(sb.rows[i], n, i, lo, hi);
      }
  }

  /** A row's visits come left to right. */
  lemma RowVisitsIncreasing(g: Guide, i: int, lo: int, hi: int)
    ensures ColumnsIncreasing(RowVisits(g, i, lo, hi))
  {
    match g
    case DenseGuide(a, m, n) =>
      if 0 <= i < m {
        DenseRowIncreasing(a, m, n, i, lo, hi);
      }
    case SparseGuide(sb, m, n) =>
      if 0 <= i < |sb.rows| && ValidRow(sb.rows[i], n) {
        SparseRowVisitsIncreasing(sb.rows[i], n, i, lo, hi);
      }
  }

  /** Of two visits of the same row, the one further left is stored first:
      at i*n+j in a dense A, and at a lower offset of the row's sorted
      index array in a sparse A. */
  lemma VisitPositionOrder(g: Guide, x: Entry, y: Entry)
    requires IsVisit(g, x) && IsVisit(g, y) && x.row == y.row && x.col < y.col
    ensures x.pos < y.pos
  {
  }

  /** A trace of visits that runs left to right within each row also runs
      in increasing storage order within each row. */
  lemma PositionsFollowColumns(g: Guide, es: seq<Entry>)
    requires ColumnsIncreasing(es) && forall e :: e in es ==> IsVisit(g, e)
    ensures PositionsIncreasing(es)
  {
    forall p, q | 0 <= p < q < |es| && es[p].row == es[q].row ensures es[p].pos < es[q].pos {
      VisitPositionOrder(g, es[p], es[q]);
    }
  }

  /** Every visit of a well-formed A lies inside the matrix. */
  lemma VisitInside(g: Guide, e: Entry)
    requires ValidGuide(g) && IsVisit(g, e)
    ensures 0 <= e.row < g.m && 0 <= e.col < g.n
  {
  }
}
