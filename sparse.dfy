/**
 * The two iterators over a sparse guiding matrix A: executeSparse (vector
 * kernel, Left and Right modes) and executeCellwiseSparse (scalar kernel).
 * Both cut the row range into blocks of blocksizeI rows and the column range
 * into blocks of blocksizeJ columns, and keep for every row of the current
 * row block a cursor curk[i-bi]: the offset of the row's first entry not yet
 * visited, which only moves forward as the column blocks advance.
 */
module SparseIteration {
  import opened Entries
  import opened SparseBlocks
  import opened Guides
  import opened Tiling
  import opened Kernels
  import opened Outcomes
  import opened Blocking
  import opened Folds

  /** The visits of a blocked sparse iteration over [rl, ru) x [cl, cu)
      with blocks of bsI rows and bsJ columns (none without positive block
      sizes: then the range is empty or the iteration never starts). */
  function SparseEntries(sb: SparseBlock, m: int, n: int, rl: int, ru: int, cl: int, cu: int, bsI: int, bsJ: int): seq<Entry>
  {
    if 0 < bsI && 0 < bsJ then TiledFrom(SparseGuide(sb, m, n), rl, ru, cl, cu, bsI, bsJ) else []
  }

  /** Both sparse iterators visit every row of A in increasing column
      order and so in increasing storage order, whatever the block sizes. */
  lemma SparseEntriesIncreasing(sb: SparseBlock, m: int, n: int, rl: int, ru: int, cl: int, cu: int, bsI: int, bsJ: int)
    ensures ColumnsIncreasing(SparseEntries(sb, m, n, rl, ru, cl, cu, bsI, bsJ))
    ensures PositionsIncreasing(SparseEntries(sb, m, n, rl, ru, cl, cu, bsI, bsJ))
  {
    if 0 < bsI && 0 < bsJ {
      var g := SparseGuide(sb, m, n);
      TiledFromIncreasing(g, rl, ru, cl, cu, bsI, bsJ);
      TiledFromSpec(g, rl, ru, cl, cu, bsI, bsJ);
      PositionsFollowColumns(g, TiledFrom(g, rl, ru, cl, cu, bsI, bsJ));
    }
  }

  /** A cursor of row r positioned for the column block starting at x: at
      the row's first entry with column at least x, or anywhere at or past
      the row's end when there is none. */
  ghost predicate CursorAt(r: SparseRow, cur: int, x: int)
  {
    InStorage(r) && 0 <= cur && Min(cur, r.size) == Front(r, x)
  }

  /** The cursors of the rows [lo, hi) of the row block starting at bi are
      all positioned for the column block starting at x; row i's cursor is
      ks[i - bi]. */
  ghost predicate CursorsAt(sb: SparseBlock, ks: seq<int>, bi: int, lo: int, hi: int, x: int)
    decreases hi - lo
  {
    0 <= bi <= lo <= hi <= |sb.rows| && hi - bi <= |ks| &&
    (lo < hi ==> CursorsAt(sb, ks, bi, lo, hi - 1, x) && CursorAt(sb.rows[hi - 1], ks[hi - 1 - bi], x))
  }

  /** Midway through a tile over the column block [bj, bjmin): the rows
      [bi, i) have their cursors positioned for the next column block, the
      rows [i, bimin) still for this one. */
  ghost predicate TileCursors(sb: SparseBlock, ks: seq<int>, bi: int, i: int, bimin: int, bj: int, bjmin: int)
  {
    CursorsAt(sb, ks, bi, bi, i, bjmin) && CursorsAt(sb, ks, bi, i, bimin, bj)
  }

  /** One more positioned cursor at the top of the range. */
  lemma CursorsAtSnoc(sb: SparseBlock, ks: seq<int>, bi: int, lo: int, i: int, x: int)
    requires CursorsAt(sb, ks, bi, lo, i, x) && i < |sb.rows| && i + 1 - bi <= |ks|
    requires CursorAt(sb.rows[i], ks[i - bi], x)
    ensures CursorsAt(sb, ks, bi, lo, i + 1, x)
  {
  }

  /** The first cursor of the range, and the rest of the range. */
  lemma {:induction false} CursorsAtFirst(sb: SparseBlock, ks: seq<int>, bi: int, lo: int, hi: int, x: int)
    requires CursorsAt(sb, ks, bi, lo, hi, x) && lo < hi
    ensures CursorAt(sb.rows[lo], ks[lo - bi], x) && CursorsAt(sb, ks, bi, lo + 1, hi, x)
    decreases hi - lo
  {
    if lo < hi - 1 {
      CursorsAtFirst(sb, ks, bi, lo, hi - 1, x);
    }
  }

  /** Changing a cursor outside the range keeps the range positioned. */
  lemma {:induction false} CursorsAtUpdate(sb: SparseBlock, ks: seq<int>, bi: int, lo: int, hi: int, x: int, j: int, v: int)
    requires CursorsAt(sb, ks, bi, lo, hi, x) && 0 <= j < |ks| && (j < lo - bi || hi - bi <= j)
    ensures CursorsAt(sb, ks[j := v], bi, lo, hi, x)
    decreases hi - lo
  {
    if lo < hi {
      CursorsAtUpdate(sb, ks, bi, lo, hi - 1, x, j, v);
    }
  }

  /** Row i of a tile is done and its new cursor v is positioned for the
      next column block: the tile moves on to row i + 1. */
  lemma CursorsAdvance(sb: SparseBlock, ks: seq<int>, bi: int, i: int, bimin: int, bj: int, bjmin: int, v: int)
    requires TileCursors(sb, ks, bi, i, bimin, bj, bjmin) && i < bimin
    requires CursorAt(sb.rows[i], v, bjmin)
    ensures TileCursors(sb, ks[i - bi := v], bi, i + 1, bimin, bj, bjmin)
  {
    CursorsAtFirst(sb, ks, bi, i, bimin, bj);
    CursorsAtUpdate(sb, ks, bi, bi, i, bjmin, i - bi, v);
    CursorsAtUpdate(sb, ks, bi, i + 1, bimin, bj, i - bi, v);
    CursorsAtSnoc(sb, ks[i - bi := v], bi, bi, i, bjmin);
  }

  /** An empty row's cursor is positioned for every column block, and the
      row contributes nothing to any of them. */
  lemma EmptyRowCursor(sb: SparseBlock, n: int, ks: seq<int>, bi: int, i: int, bimin: int, bj: int, bjmin: int)
    requires TileCursors(sb, ks, bi, i, bimin, bj, bjmin) && i < bimin
    requires ValidRow(sb.rows[i], n) && sb.rows[i].size == 0
    ensures TileCursors(sb, ks, bi, i + 1, bimin, bj, bjmin)
    ensures Front(sb.rows[i], bj) == 0 && Front(sb.rows[i], bjmin) == 0
  {
    CursorsAtFirst(sb, ks, bi, i, bimin, bj);
    FrontBounds(sb.rows[i], n, bj);
    FrontBounds(sb.rows[i], n, bjmin);
    CursorsAtSnoc(sb, ks, bi, bi, i, bjmin);
  }

  /** executeSparse: for every stored entry of the rows [rl, ru) whose
      column lies in [cl, cu), call the vector kernel with the entry's
      value, U offset i*k, V offset j*k and output offset j*k (Left) or i*k
      (otherwise), in blocked order; or fail as the block-size formulas
      dictate, before touching the output. */
  method ExecuteSparse(sb: SparseBlock, vk: VectorKernel, c: array<real>, n: int, m: int, k: int, nnz: int,
                       outType: OutProdType, rl: int, ru: int, cl: int, cu: int) returns (res: Result<()>)
    requires ValidBlock(sb, m, n) && 0 <= m && 0 <= n && 0 <= k
    requires 0 <= rl && ru <= m && 0 <= cl && cu <= n
    requires c.Length == (if outType == LeftOuterProduct then n else m) * k
    modifies c
    ensures SparseBlockSizes(m, n, k, nnz, outType == LeftOuterProduct, rl, ru).Err? ==>
      res == Err(SparseBlockSizes(m, n, k, nnz, outType == LeftOuterProduct, rl, ru).why) && c[..] == old(c[..])
    ensures SparseBlockSizes(m, n, k, nnz, outType == LeftOuterProduct, rl, ru).Ok? ==>
      var sizes := SparseBlockSizes(m, n, k, nnz, outType == LeftOuterProduct, rl, ru).value;
      res == Ok(()) &&
      c[..] == ApplyCalls(old(c[..]), SparseEntries(sb, m, n, rl, ru, cl, cu, sizes.0, sizes.1), vk, k, outType == LeftOuterProduct)
  {
    var left := outType == LeftOuterProduct;
    var sizes := SparseBlockSizes(m, n, k, nnz, left, rl, ru);
    if sizes.Err? {
      return Err(sizes.why);
    }
    var bsI, bsJ := sizes.value.0, sizes.value.1;
    var curk := new int[bsI];
    // Over an empty row range the row-block loop stops at its first test.
    if rl < ru {
      ghost var c0 := c[..];
      SparseRowBlocks(sb, vk, c, curk, n, m, k, left, rl, ru, cl, cu, bsI, bsJ);
      RunTiledCallsSpec(c0, SparseGuide(sb, m, n), rl, ru, cl, cu, bsI, bsJ, vk, k, left);
    }
    res := Ok(());
  }

  /** The row-block loop of executeSparse: each row block gets its cursors
      prepared and then its column blocks in turn. */
  method SparseRowBlocks(sb: SparseBlock, vk: VectorKernel, c: array<real>, curk: array<int>, n: int, m: int, k: int,
                         left: bool, rl: int, ru: int, cl: int, cu: int, bsI: int, bsJ: int)
    requires ValidBlock(sb, m, n) && 0 <= m && 0 <= n && 0 <= k
    requires 0 <= rl && ru <= m && 0 <= cl && cu <= n
    requires c.Length == (if left then n else m) * k
    requires curk.Length == bsI && 0 < bsI && 0 < bsJ
    modifies c, curk
    ensures c[..] == RunTiledCalls(old(c[..]), SparseGuide(sb, m, n), rl, ru, cl, cu, bsI, bsJ, vk, k, left)
  {
    ghost var g := SparseGuide(sb, m, n);
    ghost var goal := RunTiledCalls(c[..], g, rl, ru, cl, cu, bsI, bsJ, vk, k, left);
    var bi := rl;
    while bi < ru
      invariant rl <= bi
      invariant RunTiledCalls(c[..], g, bi, ru, cl, cu, bsI, bsJ, vk, k, left) == goal
      decreases ru - bi
    {
      var bimin := Min(ru, bi + bsI);
      SparseRowFronts(sb, curk, n, m, bi, bimin, cl);
      SparseBandCalls(sb, vk, c, curk, n, m, k, left, bi, bimin, cl, cu, bsJ);
      bi := bi + bsI;
    }
  }

  /** The cursor preparation of a row block: `index = (cl == 0 ||
      isEmpty(i)) ? 0 : posFIndexGTE(i, cl); curk[i-bi] = index >= 0 ? index : n`
      positions every cursor for the column block starting at cl. */
  method SparseRowFronts(sb: SparseBlock, curk: array<int>, n: int, m: int, bi: int, bimin: int, cl: int)
    requires ValidBlock(sb, m, n) && 0 <= n && 0 <= cl
    requires 0 <= bi <= bimin <= m && bimin - bi <= curk.Length
    modifies curk
    ensures CursorsAt(sb, curk[..], bi, bi, bimin, cl)
  {
    var i := bi;
    while i < bimin
      invariant bi <= i <= bimin
      invariant CursorsAt(sb, curk[..], bi, bi, i, cl)
    {
      var r := sb.rows[i];
      var index := if cl == 0 || IsEmptyRow(sb, i) then 0 else PosFIndexGTE(r, n, cl);
      FrontSpec(r, n, cl);
      if cl == 0 {
        FrontZero(r, n);
      }
      if index < 0 {
        RowSizeBound(r, n);
      }
      ghost var ks := curk[..];
      curk[i - bi] := if index >= 0 then index else n;
      assert curk[..] == ks[i - bi := curk[i - bi]];
      CursorsAtUpdate(sb, ks, bi, bi, i, cl, i - bi, curk[i - bi]);
      CursorsAtSnoc(sb, curk[..], bi, bi, i, cl);
      i := i + 1;
    }
  }

  /** The column-block loop of executeSparse over the row block
      [bi, bimin): every tile in turn, each moving the cursors forward. */
  method SparseBandCalls(sb: SparseBlock, vk: VectorKernel, c: array<real>, curk: array<int>, n: int, m: int, k: int,
                         left: bool, bi: int, bimin: int, cl: int, cu: int, bsJ: int)
    requires ValidBlock(sb, m, n) && 0 <= m && 0 <= n && 0 <= k && 0 < bsJ
    requires 0 <= bi <= bimin <= m && 0 <= cl && cu <= n
    requires c.Length == (if left then n else m) * k
    requires CursorsAt(sb, curk[..], bi, bi, bimin, cl)
    modifies c, curk
    ensures c[..] == RunBandCalls(old(c[..]), SparseGuide(sb, m, n), bi, bimin, cl, cu, bsJ, vk, k, left)
  {
    ghost var g := SparseGuide(sb, m, n);
    ghost var goal := RunBandCalls(c[..], g, bi, bimin, cl, cu, bsJ, vk, k, left);
    var bj := cl;
    while bj < cu
      invariant cl <= bj
      invariant bj < cu ==> CursorsAt(sb, curk[..], bi, bi, bimin, bj)
      invariant RunBandCalls(c[..], g, bi, bimin, bj, cu, bsJ, vk, k, left) == goal
      decreases cu - bj
    {
      var bjmin := Min(cu, bj + bsJ);
      SparseTileCalls(sb, vk, c, curk, n, m, k, left, bi, bimin, bj, bjmin);
      bj := bj + bsJ;
    }
  }

  /** The row loop of one tile of executeSparse: the rows [bi, bimin) over
      the column block [bj, bjmin); empty rows are skipped. */
  method SparseTileCalls(sb: SparseBlock, vk: VectorKernel, c: array<real>, curk: array<int>, n: int, m: int, k: int,
                         left: bool, bi: int, bimin: int, bj: int, bjmin: int)
    requires ValidBlock(sb, m, n) && 0 <= m && 0 <= n && 0 <= k
    requires 0 <= bi <= bimin <= m && bj <= bjmin
    requires c.Length == (if left then n else m) * k
    requires CursorsAt(sb, curk[..], bi, bi, bimin, bj)
    modifies c, curk
    ensures CursorsAt(sb, curk[..], bi, bi, bimin, bjmin)
    ensures c[..] == RunTileCalls(old(c[..]), SparseGuide(sb, m, n), bi, bimin, bj, bjmin, vk, k, left)
  {
    ghost var g := SparseGuide(sb, m, n);
    ghost var s0 := c[..];
    var i, uix := bi, bi * k;
    while i < bimin
      invariant bi <= i <= bimin && uix == i * k
      invariant TileCursors(sb, curk[..], bi, i, bimin, bj, bjmin)
      invariant c[..] == RunTileCalls(s0, g, bi, i, bj, bjmin, vk, k, left)
    {
      SparseRowStep(sb, vk, c, curk, n, m, k, left, bi, i, bimin, uix, bj, bjmin);
      MulSucc(i, k);
      i, uix := i + 1, uix + k;
    }
    assert i == bimin;
  }

  /** Row i of a well-formed sparse A contributes the calls of its stored
      entries between its fronts for the two column bounds. */
  lemma RowCallsStored(c: seq<real>, sb: SparseBlock, m: int, n: int, i: int, lo: int, hi: int, vk: VectorKernel, k: int, left: bool)
    requires ValidBlock(sb, m, n) && 0 <= i < m
    ensures InStorage(sb.rows[i]) && 0 <= Front(sb.rows[i], lo) && Front(sb.rows[i], hi) <= sb.rows[i].size
    ensures RunRowCalls(c, SparseGuide(sb, m, n), i, lo, hi, vk, k, left) ==
      RunStoredCalls(c, sb.rows[i], i, sb.rows[i].pos + Front(sb.rows[i], lo), sb.rows[i].pos + Front(sb.rows[i], hi), vk, k, left)
  {
    FrontBounds(sb.rows[i], n, lo);
    FrontBounds(sb.rows[i], n, hi);
  }

  /** One row of a tile of executeSparse: an empty row is skipped, any
      other row runs its entry loop from its cursor and stores the new
      cursor `curk[i-bi] = index - wpos`. */
  method SparseRowStep(sb: SparseBlock, vk: VectorKernel, c: array<real>, curk: array<int>, n: int, m: int, k: int,
                       left: bool, bi: int, i: int, bimin: int, uix: int, bj: int, bjmin: int)
    requires ValidBlock(sb, m, n) && 0 <= k && i < bimin <= m && uix == i * k
    requires c.Length == (if left then n else m) * k
    requires TileCursors(sb, curk[..], bi, i, bimin, bj, bjmin) && bj <= bjmin
    modifies c, curk
    ensures TileCursors(sb, curk[..], bi, i + 1, bimin, bj, bjmin)
    ensures old(curk[i - bi]) <= curk[i - bi]
    ensures curk[..] == old(curk[..])[i - bi := curk[i - bi]]
    ensures c[..] == RunRowCalls(old(c[..]), SparseGuide(sb, m, n), i, bj, bjmin, vk, k, left)
  {
    var r := sb.rows[i];
    RowCallsStored(old(c[..]), sb, m, n, i, bj, bjmin, vk, k, left);
    if IsEmptyRow(sb, i) {
      EmptyRowCursor(sb, n, curk[..], bi, i, bimin, bj, bjmin);
    } else {
      CursorsAtFirst(sb, curk[..], bi, i, bimin, bj);
      ghost var ks := curk[..];
      var wpos := r.pos;
      var index := SparseRowCalls(r, vk, c, n, m, k, left, i, uix, wpos + curk[i - bi], bj, bjmin);
      curk[i - bi] := index - wpos;
      assert curk[..] == ks[i - bi := index - wpos];
      CursorsAdvance(sb, ks, bi, i, bimin, bj, bjmin, index - wpos);
    }
  }

  /** The entry loop of one row of a tile: from the cursor, every entry
      whose column is below bjmin gets one vector-kernel call; the returned
      storage position is the new cursor. */
  method SparseRowCalls(r: SparseRow, vk: VectorKernel, c: array<real>, n: int, m: int, k: int,
                        left: bool, i: int, uix: int, start: int, bj: int, bjmin: int) returns (index: int)
    requires ValidRow(r, n) && 0 <= i < m && 0 <= k && uix == i * k
    requires c.Length == (if left then n else m) * k
    requires CursorAt(r, start - r.pos, bj) && bj <= bjmin
    modifies c
    ensures start <= index && CursorAt(r, index - r.pos, bjmin)
    ensures c[..] == RunStoredCalls(old(c[..]), r, i, r.pos + Front(r, bj), r.pos + Front(r, bjmin), vk, k, left)
  {
    ghost var c0 := c[..];
    FrontBounds(r, n, bjmin);
    FrontMonotone(r, n, bj, bjmin);
    if !left { RowFits(i, m, k); }
    var wpos, wlen := r.pos, r.size;
    ghost var lo, hi := wpos + Front(r, bj), wpos + Front(r, bjmin);
    index := start;
    while index < wpos + wlen && r.indexes[index] < bjmin
      invariant start <= index && lo <= Min(index, wpos + wlen) <= hi
      invariant c[..] == RunStoredCalls(c0, r, i, lo, Min(index, wpos + wlen), vk, k, left)
      decreases wpos + wlen - index
    {
      var col := r.indexes[index];
      assert ColAt(r, index - wpos) == col;
      FrontAt(r, n, bjmin, index - wpos);
      if left { RowFits(col, n, k); }
      GenexecDense(vk, KernelCall(r.values[index], uix, col * k, if left then col * k else uix, i, col), c, k);
      index := index + 1;
    }
    if index < wpos + wlen {
      FrontAt(r, n, bjmin, index - wpos);
    }
    assert Min(index, wpos + wlen) == hi;
  }
}
