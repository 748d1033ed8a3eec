/**
 * executeCellwiseSparse: the scalar-kernel iterator over a sparse guiding
 * matrix. One block size serves rows and columns; the cursors of a row
 * block are reset to 0, and the column blocks always cover [0, n), whatever
 * column range the caller passed. Each visited entry is written at its
 * storage position `index`: `c[index] = value` into a dense output in
 * Cellwise mode, `c[0] += value` into a dense output in any other mode, and
 * `append(i, index, value)` into a sparse output.
 *
 * As in the Java method, the loop nest is written twice: once for a dense
 * output (CellDense...) and once for a sparse one (CellAppend...).
 */
module SparseCellwiseIteration {
  import opened Entries
  import opened SparseBlocks
  import opened Guides
  import opened Tiling
  import opened Kernels
  import opened Outcomes
  import opened Blocking
  import opened Outputs
  import opened SparseIteration
  import opened Folds

  /** Every non-empty row of [rl, ru) stores its entries at positions
      below len, so that `c[index]` stays inside a buffer of length len. */
  predicate StorageBelow(sb: SparseBlock, rl: int, ru: int, len: int)
    decreases ru - rl
  {
    rl >= ru ||
    (StorageBelow(sb, rl, ru - 1, len) &&
     (0 <= ru - 1 < |sb.rows| && 0 < sb.rows[ru - 1].size ==> sb.rows[ru - 1].pos + sb.rows[ru - 1].size <= len))
  }

  /** The storage bound of one row of the range. */
  lemma {:induction false} StorageBelowRow(sb: SparseBlock, rl: int, ru: int, len: int, i: int)
    requires StorageBelow(sb, rl, ru, len) && rl <= i < ru && 0 <= i < |sb.rows| && 0 < sb.rows[i].size
    ensures sb.rows[i].pos + sb.rows[i].size <= len
    decreases ru - rl
  {
    if i < ru - 1 {
      StorageBelowRow(sb, rl, ru - 1, len, i);
    }
  }

  /** What the writes into a dense output need: the storage positions fit
      in Cellwise mode, and c[0] exists otherwise. */
  predicate DenseWritable(sb: SparseBlock, rl: int, ru: int, len: int, cellwise: bool)
  {
    (cellwise ==> StorageBelow(sb, rl, ru, len)) && (!cellwise ==> 0 < len)
  }

  /** executeCellwiseSparse: every stored entry of the rows [rl, ru), in
      blocked order over all n columns, is written once to the output (a
      sparse output when toSparse, the dense buffer c otherwise); or the
      block-size formula fails before anything is written. */
  method ExecuteCellwiseSparse(sb: SparseBlock, f: CellKernel, c: array<real>, sc: SparseOut, toSparse: bool,
                               n: int, m: int, k: int, nnz: int, outType: OutProdType, rl: int, ru: int, cl: int, cu: int)
    returns (res: Result<()>)
    requires ValidBlock(sb, m, n) && 0 <= m && 0 <= n && 0 <= k && 0 <= rl && ru <= m
    requires !toSparse ==> DenseWritable(sb, rl, ru, c.Length, outType == CellwiseOuterProduct)
    modifies c, sc
    ensures CellwiseBlockSize(m, n, nnz, rl, ru).Err? ==>
      res == Err(CellwiseBlockSize(m, n, nnz, rl, ru).why) && c[..] == old(c[..]) && sc.appended == old(sc.appended)
    ensures CellwiseBlockSize(m, n, nnz, rl, ru).Ok? ==>
      var bs := CellwiseBlockSize(m, n, nnz, rl, ru).value;
      var trace := SparseEntries(sb, m, n, rl, ru, 0, n, bs, bs);
      res == Ok(()) &&
      c[..] == (if toSparse then old(c[..]) else ApplyCells(old(c[..]), trace, f, k, outType == CellwiseOuterProduct)) &&
      sc.appended == (if toSparse then Appends(old(sc.appended), trace, f, k) else old(sc.appended))
  {
    var size := CellwiseBlockSize(m, n, nnz, rl, ru);
    if size.Err? {
      return Err(size.why);
    }
    var bs := size.value;
    var curk := new int[bs];
    // Over an empty row range the row-block loop stops at its first test.
    if rl < ru {
      ghost var g := SparseGuide(sb, m, n);
      if !toSparse {
        ghost var c0 := c[..];
        CellDenseRowBlocks(sb, f, c, curk, n, m, k, outType == CellwiseOuterProduct, rl, ru, bs);
        RunTiledCellsSpec(c0, g, rl, ru, 0, n, bs, bs, f, k, outType == CellwiseOuterProduct);
      } else {
        ghost var a0 := sc.appended;
        CellAppendRowBlocks(sb, f, sc, curk, n, m, k, rl, ru, bs);
        RunTiledAppendsSpec(a0, g, rl, ru, 0, n, bs, bs, f, k);
      }
    }
    res := Ok(());
  }

  /** Arrays.fill(curk, 0): a cursor at offset 0 is positioned for the
      column block starting at 0, in every well-formed row. */
  method ResetCursors(sb: SparseBlock, curk: array<int>, n: int, m: int, bi: int, bimin: int)
    requires ValidBlock(sb, m, n) && 0 <= bi <= bimin <= m && bimin - bi <= curk.Length
    modifies curk
    ensures forall t :: 0 <= t < curk.Length ==> curk[t] == 0
    ensures CursorsAt(sb, curk[..], bi, bi, bimin, 0)
  {
    var t := 0;
    while t < curk.Length
      invariant 0 <= t <= curk.Length
      invariant forall t' :: 0 <= t' < t ==> curk[t'] == 0
    {
      curk[t] := 0;
      t := t + 1;
    }
    CursorsAtZero(sb, curk[..], n, m, bi, bimin);
  }

  lemma {:induction false} CursorsAtZero(sb: SparseBlock, ks: seq<int>, n: int, m: int, bi: int, bimin: int)
    requires ValidBlock(sb, m, n) && 0 <= bi <= bimin <= m && bimin - bi <= |ks|
    requires forall t :: 0 <= t < |ks| ==> ks[t] == 0
    ensures CursorsAt(sb, ks, bi, bi, bimin, 0)
    decreases bimin - bi
  {
    if bi < bimin {
      CursorsAtZero(sb, ks, n, m, bi, bimin - 1);
      FrontZero(sb.rows[bimin - 1], n);
    }
  }

  /** The row-block loop into a dense output: `Arrays.fill(curk, 0)`, then
      the column blocks [0, bs), [bs, 2bs), ... below n. */
  method CellDenseRowBlocks(sb: SparseBlock, f: CellKernel, c: array<real>, curk: array<int>,
                            n: int, m: int, k: int, cellwise: bool, rl: int, ru: int, bs: int)
    requires ValidBlock(sb, m, n) && 0 <= m && 0 <= n && 0 <= k && 0 <= rl && ru <= m
    requires DenseWritable(sb, rl, ru, c.Length, cellwise)
    requires curk.Length == bs && 0 < bs
    modifies c, curk
    ensures c[..] == RunTiledCells(old(c[..]), SparseGuide(sb, m, n), rl, ru, 0, n, bs, bs, f, k, cellwise)
  {
    ghost var g := SparseGuide(sb, m, n);
    ghost var goal := RunTiledCells(c[..], g, rl, ru, 0, n, bs, bs, f, k, cellwise);
    var bi := rl;
    while bi < ru
      invariant rl <= bi
      invariant RunTiledCells(c[..], g, bi, ru, 0, n, bs, bs, f, k, cellwise) == goal
      decreases ru - bi
    {
      var bimin := Min(ru, bi + bs);
      ResetCursors(sb, curk, n, m, bi, bimin);
      CellDenseBandCalls(sb, f, c, curk, n, m, k, cellwise, rl, ru, bi, bimin, bs);
      bi := bi + bs;
    }
  }

  /** The column-block loop over the row block [bi, bimin), dense output. */
  method CellDenseBandCalls(sb: SparseBlock, f: CellKernel, c: array<real>, curk: array<int>,
                            n: int, m: int, k: int, cellwise: bool, ghost rl: int, ghost ru: int, bi: int, bimin: int, bs: int)
    requires ValidBlock(sb, m, n) && 0 <= m && 0 <= n && 0 <= k && 0 < bs
    requires rl <= bi <= bimin <= ru && 0 <= bi && bimin <= m
    requires DenseWritable(sb, rl, ru, c.Length, cellwise)
    requires CursorsAt(sb, curk[..], bi, bi, bimin, 0)
    modifies c, curk
    ensures c[..] == RunBandCells(old(c[..]), SparseGuide(sb, m, n), bi, bimin, 0, n, bs, f, k, cellwise)
  {
    ghost var g := SparseGuide(sb, m, n);
    ghost var goal := RunBandCells(c[..], g, bi, bimin, 0, n, bs, f, k, cellwise);
    var bj := 0;
    while bj < n
      invariant 0 <= bj
      invariant bj < n ==> CursorsAt(sb, curk[..], bi, bi, bimin, bj)
      invariant RunBandCells(c[..], g, bi, bimin, bj, n, bs, f, k, cellwise) == goal
      decreases n - bj
    {
      var bjmin := Min(n, bj + bs);
      CellDenseTileCalls(sb, f, c, curk, n, m, k, cellwise, rl, ru, bi, bimin, bj, bjmin);
      bj := bj + bs;
    }
  }

  /** The row loop of one tile, dense output; empty rows are skipped. */
  method CellDenseTileCalls(sb: SparseBlock, f: CellKernel, c: array<real>, curk: array<int>,
                            n: int, m: int, k: int, cellwise: bool, ghost rl: int, ghost ru: int,
                            bi: int, bimin: int, bj: int, bjmin: int)
    requires ValidBlock(sb, m, n) && 0 <= m && 0 <= n && 0 <= k
    requires rl <= bi <= bimin <= ru && 0 <= bi && bimin <= m && bj <= bjmin
    requires DenseWritable(sb, rl, ru, c.Length, cellwise)
    requires CursorsAt(sb, curk[..], bi, bi, bimin, bj)
    modifies c, curk
    ensures CursorsAt(sb, curk[..], bi, bi, bimin, bjmin)
    ensures c[..] == RunTileCells(old(c[..]), SparseGuide(sb, m, n), bi, bimin, bj, bjmin, f, k, cellwise)
  {
    ghost var g := SparseGuide(sb, m, n);
    ghost var s0 := c[..];
    var i, uix := bi, bi * k;
    while i < bimin
      invariant bi <= i <= bimin && uix == i * k
      invariant TileCursors(sb, curk[..], bi, i, bimin, bj, bjmin)
      invariant c[..] == RunTileCells(s0, g, bi, i, bj, bjmin, f, k, cellwise)
    {
      CellDenseRowStep(sb, f, c, curk, n, m, k, cellwise, rl, ru, bi, i, bimin, uix, bj, bjmin);
      MulSucc(i, k);
      i, uix := i + 1, uix + k;
    }
    assert i == bimin;
  }

  /** One row of a tile, dense output: an empty row is skipped, any other
      row runs its entry loop from its cursor and stores the new cursor. */
  method CellDenseRowStep(sb: SparseBlock, f: CellKernel, c: array<real>, curk: array<int>,
                          n: int, m: int, k: int, cellwise: bool, ghost rl: int, ghost ru: int,
                          bi: int, i: int, bimin: int, uix: int, bj: int, bjmin: int)
    requires ValidBlock(sb, m, n) && 0 <= k && i < bimin <= m && uix == i * k
    requires rl <= i < ru && DenseWritable(sb, rl, ru, c.Length, cellwise)
    requires TileCursors(sb, curk[..], bi, i, bimin, bj, bjmin) && bj <= bjmin
    modifies c, curk
    ensures TileCursors(sb, curk[..], bi, i + 1, bimin, bj, bjmin)
    ensures old(curk[i - bi]) <= curk[i - bi]
    ensures curk[..] == old(curk[..])[i - bi := curk[i - bi]]
    ensures c[..] == RunRowCells(old(c[..]), SparseGuide(sb, m, n), i, bj, bjmin, f, k, cellwise)
  {
    var r := sb.rows[i];
    if IsEmptyRow(sb, i) {
      EmptyRowCursor(sb, n, curk[..], bi, i, bimin, bj, bjmin);
    } else {
      CursorsAtFirst(sb, curk[..], bi, i, bimin, bj);
      ghost var ks := curk[..];
      if cellwise {
        StorageBelowRow(sb, rl, ru, c.Length, i);
      }
      var wpos := r.pos;
      var index := CellDenseRowCalls(r, f, c, n, m, k, cellwise, i, uix, wpos + curk[i - bi], bj, bjmin);
      curk[i - bi] := index - wpos;
      assert curk[..] == ks[i - bi := index - wpos];
      CursorsAdvance(sb, ks, bi, i, bimin, bj, bjmin, index - wpos);
    }
  }

  /** The entry loop of one row of a tile, dense output: every entry from
      the cursor on whose column is below bjmin is written once, at its
      storage position in Cellwise mode and into c[0] otherwise. */
  method CellDenseRowCalls(r: SparseRow, f: CellKernel, c: array<real>,
                           n: int, m: int, k: int, cellwise: bool, i: int, uix: int, start: int, bj: int, bjmin: int)
    returns (index: int)
    requires ValidRow(r, n) && 0 <= i < m && 0 <= k && uix == i * k
    requires cellwise ==> r.pos + r.size <= c.Length
    requires !cellwise ==> 0 < c.Length
    requires CursorAt(r, start - r.pos, bj) && bj <= bjmin
    modifies c
    ensures start <= index && CursorAt(r, index - r.pos, bjmin)
    ensures c[..] == RunStoredCells(old(c[..]), r, i, r.pos + Front(r, bj), r.pos + Front(r, bjmin), f, k, cellwise)
  {
    ghost var c0 := c[..];
    FrontBounds(r, n, bjmin);
    FrontMonotone(r, n, bj, bjmin);
    var wpos, wlen := r.pos, r.size;
    ghost var lo, hi := wpos + Front(r, bj), wpos + Front(r, bjmin);
    index := start;
    while index < wpos + wlen && r.indexes[index] < bjmin
      invariant start <= index && lo <= Min(index, wpos + wlen) <= hi
      invariant c[..] == RunStoredCells(c0, r, i, lo, Min(index, wpos + wlen), f, k, cellwise)
      decreases wpos + wlen - index
    {
      var col := r.indexes[index];
      assert ColAt(r, index - wpos) == col;
      FrontAt(r, n, bjmin, index - wpos);
      var v := f(r.values[index], uix, col * k, i, col);
      if cellwise {
        c[index] := v;
      } else {
        c[0] := c[0] + v;
      }
      index := index + 1;
    }
    if index < wpos + wlen {
      FrontAt(r, n, bjmin, index - wpos);
    }
    assert Min(index, wpos + wlen) == hi;
  }

  /** The row-block loop into a sparse output: `Arrays.fill(curk, 0)`,
      then the column blocks [0, bs), [bs, 2bs), ... below n. */
  method CellAppendRowBlocks(sb: SparseBlock, f: CellKernel, sc: SparseOut, curk: array<int>,
                             n: int, m: int, k: int, rl: int, ru: int, bs: int)
    requires ValidBlock(sb, m, n) && 0 <= m && 0 <= n && 0 <= k && 0 <= rl && ru <= m
    requires curk.Length == bs && 0 < bs
    modifies sc, curk
    ensures sc.appended == RunTiledAppends(old(sc.appended), SparseGuide(sb, m, n), rl, ru, 0, n, bs, bs, f, k)
  {
    ghost var g := SparseGuide(sb, m, n);
    ghost var goal := RunTiledAppends(sc.appended, g, rl, ru, 0, n, bs, bs, f, k);
    var bi := rl;
    while bi < ru
      invariant rl <= bi
      invariant RunTiledAppends(sc.appended, g, bi, ru, 0, n, bs, bs, f, k) == goal
      decreases ru - bi
    {
      var bimin := Min(ru, bi + bs);
      ResetCursors(sb, curk, n, m, bi, bimin);
      CellAppendBandCalls(sb, f, sc, curk, n, m, k, bi, bimin, bs);
      bi := bi + bs;
    }
  }

  /** The column-block loop over the row block [bi, bimin), sparse output. */
  method CellAppendBandCalls(sb: SparseBlock, f: CellKernel, sc: SparseOut, curk: array<int>,
                             n: int, m: int, k: int, bi: int, bimin: int, bs: int)
    requires ValidBlock(sb, m, n) && 0 <= m && 0 <= n && 0 <= k && 0 < bs
    requires 0 <= bi <= bimin <= m
    requires CursorsAt(sb, curk[..], bi, bi, bimin, 0)
    modifies sc, curk
    ensures sc.appended == RunBandAppends(old(sc.appended), SparseGuide(sb, m, n), bi, bimin, 0, n, bs, f, k)
  {
    ghost var g := SparseGuide(sb, m, n);
    ghost var goal := RunBandAppends(sc.appended, g, bi, bimin, 0, n, bs, f, k);
    var bj := 0;
    while bj < n
      invariant 0 <= bj
      invariant bj < n ==> CursorsAt(sb, curk[..], bi, bi, bimin, bj)
      invariant RunBandAppends(sc.appended, g, bi, bimin, bj, n, bs, f, k) == goal
      decreases n - bj
    {
      var bjmin := Min(n, bj + bs);
      CellAppendTileCalls(sb, f, sc, curk, n, m, k, bi, bimin, bj, bjmin);
      bj := bj + bs;
    }
  }

  /** The row loop of one tile, sparse output; empty rows are skipped. */
  method CellAppendTileCalls(sb: SparseBlock, f: CellKernel, sc: SparseOut, curk: array<int>,
                             n: int, m: int, k: int, bi: int, bimin: int, bj: int, bjmin: int)
    requires ValidBlock(sb, m, n) && 0 <= m && 0 <= n && 0 <= k
    requires 0 <= bi <= bimin <= m && bj <= bjmin
    requires CursorsAt(sb, curk[..], bi, bi, bimin, bj)
    modifies sc, curk
    ensures CursorsAt(sb, curk[..], bi, bi, bimin, bjmin)
    ensures sc.appended == RunTileAppends(old(sc.appended), SparseGuide(sb, m, n), bi, bimin, bj, bjmin, f, k)
  {
    ghost var g := SparseGuide(sb, m, n);
    ghost var s0 := sc.appended;
    var i, uix := bi, bi * k;
    while i < bimin
      invariant bi <= i <= bimin && uix == i * k
      invariant TileCursors(sb, curk[..], bi, i, bimin, bj, bjmin)
      invariant sc.appended == RunTileAppends(s0, g, bi, i, bj, bjmin, f, k)
    {
      CellAppendRowStep(sb, f, sc, curk, n, m, k, bi, i, bimin, uix, bj, bjmin);
      MulSucc(i, k);
      i, uix := i + 1, uix + k;
    }
    assert i == bimin;
  }

  /** One row of a tile, sparse output. */
  method CellAppendRowStep(sb: SparseBlock, f: CellKernel, sc: SparseOut, curk: array<int>,
                           n: int, m: int, k: int, bi: int, i: int, bimin: int, uix: int, bj: int, bjmin: int)
    requires ValidBlock(sb, m, n) && 0 <= k && i < bimin <= m && uix == i * k
    requires TileCursors(sb, curk[..], bi, i, bimin, bj, bjmin) && bj <= bjmin
    modifies sc, curk
    ensures TileCursors(sb, curk[..], bi, i + 1, bimin, bj, bjmin)
    ensures old(curk[i - bi]) <= curk[i - bi]
    ensures curk[..] == old(curk[..])[i - bi := curk[i - bi]]
    ensures sc.appended == RunRowAppends(old(sc.appended), SparseGuide(sb, m, n), i, bj, bjmin, f, k)
  {
    var r := sb.rows[i];
    if IsEmptyRow(sb, i) {
      EmptyRowCursor(sb, n, curk[..], bi, i, bimin, bj, bjmin);
    } else {
      CursorsAtFirst(sb, curk[..], bi, i, bimin, bj);
      ghost var ks := curk[..];
      var wpos := r.pos;
      var index := CellAppendRowCalls(r, f, sc, n, m, k, i, uix, wpos + curk[i - bi], bj, bjmin);
      curk[i - bi] := index - wpos;
      assert curk[..] == ks[i - bi := index - wpos];
      CursorsAdvance(sb, ks, bi, i, bimin, bj, bjmin, index - wpos);
    }
  }

  /** The entry loop of one row of a tile, sparse output: every entry from
      the cursor on whose column is below bjmin is appended once, under its
      storage position. */
  method CellAppendRowCalls(r: SparseRow, f: CellKernel, sc: SparseOut,
                            n: int, m: int, k: int, i: int, uix: int, start: int, bj: int, bjmin: int)
    returns (index: int)
    requires ValidRow(r, n) && 0 <= i < m && 0 <= k && uix == i * k
    requires CursorAt(r, start - r.pos, bj) && bj <= bjmin
    modifies sc
    ensures start <= index && CursorAt(r, index - r.pos, bjmin)
    ensures sc.appended == RunStoredAppends(old(sc.appended), r, i, r.pos + Front(r, bj), r.pos + Front(r, bjmin), f, k)
  {
    ghost var a0 := sc.appended;
    FrontBounds(r, n, bjmin);
    FrontMonotone(r, n, bj, bjmin);
    var wpos, wlen := r.pos, r.size;
    ghost var lo, hi := wpos + Front(r, bj), wpos + Front(r, bjmin);
    index := start;
    while index < wpos + wlen && r.indexes[index] < bjmin
      invariant start <= index && lo <= Min(index, wpos + wlen) <= hi
      invariant sc.appended == RunStoredAppends(a0, r, i, lo, Min(index, wpos + wlen), f, k)
      decreases wpos + wlen - index
    {
      var col := r.indexes[index];
      assert ColAt(r, index - wpos) == col;
      FrontAt(r, n, bjmin, index - wpos);
      sc.AppendValue(i, index, f(r.values[index], uix, col * k, i, col));
      index := index + 1;
    }
    if index < wpos + wlen {
      FrontAt(r, n, bjmin, index - wpos);
    }
    assert Min(index, wpos + wlen) == hi;
  }
}
