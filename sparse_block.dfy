/**
 * The read side of a sparse block in compressed-row form, as the
 * iterators use it: per row a start position pos(i), a length size(i), and
 * the column-index and value arrays indexes(i) / values(i) that hold the
 * row's entries at positions pos(i) .. pos(i)+size(i)-1. In the shared-array
 * layout pos(i) is the row's offset into arrays common to all rows; in the
 * per-row layout it is 0. Either way the storage position of an entry is the
 * `index` the iterators step through.
 */
module SparseBlocks {
  import opened Entries

  datatype SparseRow = SparseRow(pos: int, size: int, indexes: seq<int>, values: seq<real>)

  datatype SparseBlock = SparseBlock(rows: seq<SparseRow>)

  /** The row's entries lie inside its arrays. */
  predicate InStorage(r: SparseRow)
  {
    0 <= r.pos && 0 <= r.size && r.pos + r.size <= |r.indexes| && |r.values| == |r.indexes|
  }

  /** The column of the entry at offset t of the row. */
  function ColAt(r: SparseRow, t: int): int
    requires InStorage(r) && 0 <= t < r.size
  {
    r.indexes[r.pos + t]
  }

  /** A well-formed row of a matrix with n columns: the entries lie inside
      the arrays, and their column indexes are inside [0, n) and strictly
      increasing. */
  predicate ValidRow(r: SparseRow, n: int)
  {
    InStorage(r) &&
    (forall p :: r.pos <= p < r.pos + r.size ==> 0 <= r.indexes[p] < n) &&
    (forall p, q :: r.pos <= p < q < r.pos + r.size ==> r.indexes[p] < r.indexes[q])
  }

  /** A well-formed m x n sparse block. */
  predicate ValidBlock(sb: SparseBlock, m: int, n: int)
  {
    |sb.rows| == m && forall i :: 0 <= i < m ==> ValidRow(sb.rows[i], n)
  }

  /** isEmpty(i): the row stores no entry. */
  predicate IsEmptyRow(sb: SparseBlock, i: int)
    requires 0 <= i < |sb.rows|
  {
    sb.rows[i].size == 0
  }

  /** The offset (relative to pos) of the first entry at or after offset q
      whose column is at least x, or size if there is none. */
  function FrontFrom(r: SparseRow, x: int, q: int): (f: int)
    requires InStorage(r) && 0 <= q
    ensures q <= f || (f == r.size && r.size < q)
    ensures f <= r.size || f == q
    decreases r.size - q
  {
    if q >= r.size then (if q == r.size then q else r.size)
    else if ColAt(r, q) >= x then q
    else FrontFrom(r, x, q + 1)
  }

  /** The offset of the first entry whose column is at least x, or size if
      there is none. */
  function Front(r: SparseRow, x: int): int
    requires InStorage(r)
  {
    FrontFrom(r, x, 0)
  }

  lemma {:induction false} FrontFromSpec(r: SparseRow, n: int, x: int, q: int)
    requires ValidRow(r, n) && 0 <= q <= r.size
    requires forall t :: 0 <= t < q ==> ColAt(r, t) < x
    ensures 0 <= FrontFrom(r, x, q) <= r.size
    ensures forall t :: 0 <= t < r.size ==> (ColAt(r, t) >= x <==> t >= FrontFrom(r, x, q))
    decreases r.size - q
  {
    if q < r.size {
      if ColAt(r, q) < x {
        FrontFromSpec(r, n, x, q + 1);
      } else {
        forall t | q < t < r.size ensures ColAt(r, q) < ColAt(r, t) {
          assert r.indexes[r.pos + q] < r.indexes[r.pos + t];
        }
      }
    }
  }

  /** In a sorted row, the entries whose column is at least x are exactly
      those at offsets Front(r, x) and beyond. */
  lemma FrontSpec(r: SparseRow, n: int, x: int)
    requires ValidRow(r, n)
    ensures 0 <= Front(r, x) <= r.size
    ensures forall t :: 0 <= t < r.size ==> (ColAt(r, t) >= x <==> t >= Front(r, x))
  {
    FrontFromSpec(r, n, x, 0);
  }

  /** The front lies inside the row. */
  lemma FrontBounds(r: SparseRow, n: int, x: int)
    requires ValidRow(r, n)
    ensures 0 <= Front(r, x) <= r.size
  {
    FrontSpec(r, n, x);
  }

  /** FrontSpec at the single offset t. */
  lemma FrontAt(r: SparseRow, n: int, x: int, t: int)
    requires ValidRow(r, n) && 0 <= t < r.size
    ensures ColAt(r, t) >= x <==> t >= Front(r, x)
  {
    FrontSpec(r, n, x);
  }

  /** The front moves right as the column bound grows. */
  lemma FrontMonotone(r: SparseRow, n: int, x: int, y: int)
    requires ValidRow(r, n) && x <= y
    ensures Front(r, x) <= Front(r, y)
  {
    FrontSpec(r, n, x);
    FrontSpec(r, n, y);
    if Front(r, y) < r.size {
      assert ColAt(r, Front(r, y)) >= y;
    }
  }

  /** Every stored column is at least 0, so the front of 0 is the row's
      first entry. */
  lemma FrontZero(r: SparseRow, n: int)
    requires ValidRow(r, n)
    ensures Front(r, 0) == 0
  {
    FrontSpec(r, n, 0);
    if 0 < r.size {
      assert ColAt(r, 0) >= 0;
    }
  }

  /** posFIndexGTE(i, x): the offset of the row's first entry with column
      at least x, or -1 if every stored column is below x. */
  function PosFIndexGTE(r: SparseRow, n: int, x: int): (q: int)
    requires ValidRow(r, n)
    ensures q == -1 || 0 <= q < r.size
    ensures q == -1 <==> forall t :: 0 <= t < r.size ==> ColAt(r, t) < x
    ensures 0 <= q ==> ColAt(r, q) >= x && forall t :: 0 <= t < q ==> ColAt(r, t) < x
  {
    FrontSpec(r, n, x);
    if Front(r, x) < r.size then Front(r, x) else -1
  }

  /** The visits of the entries at storage positions start .. stop-1 of row i,
      in storage order. */
  function RowRun(r: SparseRow, i: int, start: int, stop: int): seq<Entry>
    requires InStorage(r) && 0 <= start && stop <= |r.indexes|
    decreases stop - start
  {
    if stop <= start then []
    else RowRun(r, i, start, stop - 1) + [Entry(i, r.indexes[stop - 1], stop - 1, r.values[stop - 1])]
  }

  /** The visit of the entry at storage position p of row i. */
  ghost predicate IsRunEntry(r: SparseRow, i: int, e: Entry)
    requires InStorage(r)
  {
    e.row == i && 0 <= e.pos < |r.indexes| &&
    e.col == r.indexes[e.pos] && e.val == r.values[e.pos]
  }

  lemma {:induction false} RowRunSpec(r: SparseRow, i: int, start: int, stop: int)
    requires InStorage(r) && 0 <= start && stop <= |r.indexes|
    ensures NoDup(RowRun(r, i, start, stop))
    ensures forall e :: e in RowRun(r, i, start, stop) <==> start <= e.pos < stop && IsRunEntry(r, i, e)
    decreases stop - start
  {
    if start < stop {
      RowRunSpec(r, i, start, stop - 1);
      var e := Entry(i, r.indexes[stop - 1], stop - 1, r.values[stop - 1]);
      NoDupConcat(RowRun(r, i, start, stop - 1), [e]);
    }
  }

  /** A run inside a sorted row visits columns left to right. */
  lemma {:induction false} RowRunIncreasing(r: SparseRow, n: int, i: int, start: int, stop: int)
    requires ValidRow(r, n) && r.pos <= start && stop <= r.pos + r.size
    ensures ColumnsIncreasing(RowRun(r, i, start, stop))
    decreases stop - start
  {
    if start < stop {
      var init := RowRun(r, i, start, stop - 1);
      var e := Entry(i, r.indexes[stop - 1], stop - 1, r.values[stop - 1]);
      RowRunIncreasing(r, n, i, start, stop - 1);
      RowRunSpec(r, i, start, stop - 1);
      forall x | x in init ensures x.col < e.col {
        assert start <= x.pos < stop - 1 && x.col == r.indexes[x.pos];
      }
      ColumnsIncreasingConcat(init, [e]);
    }
  }

  /** The visits of row i whose column lies in [lo, hi): in a sorted row,
      the entries between the fronts of lo and hi. */
  function SparseRowVisits(r: SparseRow, i: int, lo: int, hi: int): seq<Entry>
    requires InStorage(r)
  {
    RowRun(r, i, r.pos + Front(r, lo), r.pos + Front(r, hi))
  }

  /** e is the visit of a stored entry of row i. */
  ghost predicate IsStoredEntry(r: SparseRow, i: int, e: Entry)
    requires InStorage(r)
  {
    r.pos <= e.pos < r.pos + r.size && IsRunEntry(r, i, e)
  }

  lemma SparseRowVisitsSpec(r: SparseRow, n: int, i: int, lo: int, hi: int)
    requires ValidRow(r, n)
    ensures NoDup(SparseRowVisits(r, i, lo, hi))
    ensures forall e :: e in SparseRowVisits(r, i, lo, hi) <==> lo <= e.col < hi && IsStoredEntry(r, i, e)
  {
    FrontSpec(r, n, lo);
    FrontSpec(r, n, hi);
    RowRunSpec(r, i, r.pos + Front(r, lo), r.pos + Front(r, hi));
    forall e ensures e in SparseRowVisits(r, i, lo, hi) <==> lo <= e.col < hi && IsStoredEntry(r, i, e) {
      if IsStoredEntry(r, i, e) {
        assert ColAt(r, e.pos - r.pos) == e.col;
      }
    }
  }

  lemma SparseRowVisitsIncreasing(r: SparseRow, n: int, i: int, lo: int, hi: int)
    requires ValidRow(r, n)
    ensures ColumnsIncreasing(SparseRowVisits(r, i, lo, hi))
  {
    FrontSpec(r, n, lo);
    FrontSpec(r, n, hi);
    RowRunIncreasing(r, n, i, r.pos + Front(r, lo), r.pos + Front(r, hi));
  }

  /** In a sorted row the column at offset t is at least t. */
  lemma {:induction false} ColAtLeast(r: SparseRow, n: int, t: int)
    requires ValidRow(r, n) && 0 <= t < r.size
    ensures t <= ColAt(r, t)
  {
    if 0 < t {
      ColAtLeast(r, n, t - 1);
      assert r.indexes[r.pos + t - 1] < r.indexes[r.pos + t];
    } else {
      assert 0 <= r.indexes[r.pos];
    }
  }

  /** A row of distinct columns in [0, n) stores at most n entries. */
  lemma RowSizeBound(r: SparseRow, n: int)
    requires ValidRow(r, n) && 0 <= n
    ensures r.size <= n
  {
    if 0 < r.size {
      var t := r.size - 1;
      ColAtLeast(r, n, t);
      assert ColAt(r, t) == r.indexes[r.pos + t] < n;
    }
  }
}
