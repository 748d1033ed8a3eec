/**
 * The blocked iteration order shared by all four iterators of the
 * outer-product executor: the row range is cut into row blocks of bsI rows,
 * each row block into column blocks of bsJ columns, and inside one
 * (row block, column block) tile every row contributes, in row order, the
 * visits that fall into the tile's column range.
 */
module Tiling {
  import opened Entries
  import opened Guides

  /** Rows bi..bimin-1 of the tile whose column range is [bj, bjmin), in
      row order. */
  function TileRows(g: Guide, bi: int, bimin: int, bj: int, bjmin: int): seq<Entry>
    decreases bimin - bi
  {
    if bimin <= bi then [] else TileRows(g, bi, bimin - 1, bj, bjmin) + RowVisits(g, bimin - 1, bj, bjmin)
  }

  /** The tiles of row block [bi, bimin) whose column blocks start at bj,
      bj + bsJ, ... below cu. */
  function BandFrom(g: Guide, bi: int, bimin: int, bj: int, cu: int, bsJ: int): seq<Entry>
    requires bsJ > 0
    decreases cu - bj
  {
    if bj >= cu then []
    else TileRows(g, bi, bimin, bj, Min(cu, bj + bsJ)) + BandFrom(g, bi, bimin, bj + bsJ, cu, bsJ)
  }

  /** The row blocks starting at bi, bi + bsI, ... below ru, over the column
      range [cl, cu). */
  function TiledFrom(g: Guide, bi: int, ru: int, cl: int, cu: int, bsI: int, bsJ: int): seq<Entry>
    requires bsI > 0 && bsJ > 0
    decreases ru - bi
  {
    if bi >= ru then []
    else BandFrom(g, bi, Min(ru, bi + bsI), cl, cu, bsJ) + TiledFrom(g, bi + bsI, ru, cl, cu, bsI, bsJ)
  }

  lemma {:induction false} TileRowsSpec(g: Guide, bi: int, bimin: int, bj: int, bjmin: int)
    ensures NoDup(TileRows(g, bi, bimin, bj, bjmin))
    ensures forall e :: e in TileRows(g, bi, bimin, bj, bjmin) <==>
      bi <= e.row < bimin && bj <= e.col < bjmin && IsVisit(g, e)
    decreases bimin - bi
  {
    if bi < bimin {
      TileRowsSpec(g, bi, bimin - 1, bj, bjmin);
      RowVisitsSpec(g, bimin - 1, bj, bjmin);
      NoDupConcat(TileRows(g, bi, bimin - 1, bj, bjmin), RowVisits(g, bimin - 1, bj, bjmin));
    }
  }

  /** The visits of the column block [lo, min(hi, lo + b)) followed by those
      of [lo + b, hi), in rows [rl, ru), are those of [lo, hi), each once. */
  lemma JoinColumns(whole: seq<Entry>, s: seq<Entry>, t: seq<Entry>, g: Guide, rl: int, ru: int, lo: int, hi: int, b: int)
    requires whole == s + t && 0 < b && lo < hi && NoDup(s) && NoDup(t)
    requires forall e :: e in s <==> rl <= e.row < ru && lo <= e.col < Min(hi, lo + b) && IsVisit(g, e)
    requires forall e :: e in t <==> rl <= e.row < ru && lo + b <= e.col < hi && IsVisit(g, e)
    ensures NoDup(whole)
    ensures forall e :: e in whole <==> rl <= e.row < ru && lo <= e.col < hi && IsVisit(g, e)
  {
    NoDupConcat(s, t);
  }

  /** The visits of the row block [lo, min(hi, lo + b)) followed by those of
      [lo + b, hi), in columns [cl, cu), are those of [lo, hi), each once. */
  lemma JoinRows(whole: seq<Entry>, s: seq<Entry>, t: seq<Entry>, g: Guide, lo: int, hi: int, cl: int, cu: int, b: int)
    requires whole == s + t && 0 < b && lo < hi && NoDup(s) && NoDup(t)
    requires forall e :: e in s <==> lo <= e.row < Min(hi, lo + b) && cl <= e.col < cu && IsVisit(g, e)
    requires forall e :: e in t <==> lo + b <= e.row < hi && cl <= e.col < cu && IsVisit(g, e)
    ensures NoDup(whole)
    ensures forall e :: e in whole <==> lo <= e.row < hi && cl <= e.col < cu && IsVisit(g, e)
  {
    NoDupConcat(s, t);
  }

  lemma {:induction false} BandFromSpec(g: Guide, bi: int, bimin: int, bj: int, cu: int, bsJ: int)
    requires bsJ > 0
    ensures NoDup(BandFrom(g, bi, bimin, bj, cu, bsJ))
    ensures forall e :: e in BandFrom(g, bi, bimin, bj, cu, bsJ) <==>
      bi <= e.row < bimin && bj <= e.col < cu && IsVisit(g, e)
    decreases cu - bj
  {
    if bj < cu {
      var bjmin := Min(cu, bj + bsJ);
      var tile, rest := TileRows(g, bi, bimin, bj, bjmin), BandFrom(g, bi, bimin, bj + bsJ, cu, bsJ);
      TileRowsSpec(g, bi, bimin, bj, bjmin);
      BandFromSpec(g, bi, bimin, bj + bsJ, cu, bsJ);
      JoinColumns(BandFrom(g, bi, bimin, bj, cu, bsJ), tile, rest, g, bi, bimin, bj, cu, bsJ);
    }
  }

  /** The blocked traversal visits every entry of [bi, ru) x [cl, cu) that
      is a visit of A exactly once, and nothing else. */
  lemma {:induction false} TiledFromSpec(g: Guide, bi: int, ru: int, cl: int, cu: int, bsI: int, bsJ: int)
    requires bsI > 0 && bsJ > 0
    ensures NoDup(TiledFrom(g, bi, ru, cl, cu, bsI, bsJ))
    ensures forall e :: e in TiledFrom(g, bi, ru, cl, cu, bsI, bsJ) <==>
      bi <= e.row < ru && cl <= e.col < cu && IsVisit(g, e)
    decreases ru - bi
  {
    if bi < ru {
      var bimin := Min(ru, bi + bsI);
      var band, rest := BandFrom(g, bi, bimin, cl, cu, bsJ), TiledFrom(g, bi + bsI, ru, cl, cu, bsI, bsJ);
      BandFromSpec(g, bi, bimin, cl, cu, bsJ);
      TiledFromSpec(g, bi + bsI, ru, cl, cu, bsI, bsJ);
      JoinRows(TiledFrom(g, bi, ru, cl, cu, bsI, bsJ), band, rest, g, bi, ru, cl, cu, bsI);
    }
  }

  /** A column block followed by the column blocks to its right, each
      left to right within its rows, is left to right within its rows. */
  lemma JoinColumnsIncreasing(whole: seq<Entry>, s: seq<Entry>, t: seq<Entry>, g: Guide, rl: int, ru: int, lo: int, hi: int, b: int)
    requires whole == s + t && 0 < b && ColumnsIncreasing(s) && ColumnsIncreasing(t)
    requires forall e :: e in s <==> rl <= e.row < ru && lo <= e.col < Min(hi, lo + b) && IsVisit(g, e)
    requires forall e :: e in t <==> rl <= e.row < ru && lo + b <= e.col < hi && IsVisit(g, e)
    ensures ColumnsIncreasing(whole)
  {
    ColumnsIncreasingConcat(s, t);
  }

  /** A row block followed by the row blocks below it, each left to right
      within its rows, is left to right within its rows. */
  lemma JoinRowsIncreasing(whole: seq<Entry>, s: seq<Entry>, t: seq<Entry>, g: Guide, lo: int, hi: int, cl: int, cu: int, b: int)
    requires whole == s + t && 0 < b && ColumnsIncreasing(s) && ColumnsIncreasing(t)
    requires forall e :: e in s <==> lo <= e.row < Min(hi, lo + b) && cl <= e.col < cu && IsVisit(g, e)
    requires forall e :: e in t <==> lo + b <= e.row < hi && cl <= e.col < cu && IsVisit(g, e)
    ensures ColumnsIncreasing(whole)
  {
    ColumnsIncreasingConcat(s, t);
  }

  /** Inside a tile the rows come one after another, each left to right. */
  lemma {:induction false} TileRowsIncreasing(g: Guide, bi: int, bimin: int, bj: int, bjmin: int)
    ensures ColumnsIncreasing(TileRows(g, bi, bimin, bj, bjmin))
    decreases bimin - bi
  {
    if bi < bimin {
      TileRowsIncreasing(g, bi, bimin - 1, bj, bjmin);
      TileRowsSpec(g, bi, bimin - 1, bj, bjmin);
      RowVisitsIncreasing(g, bimin - 1, bj, bjmin);
      RowVisitsSpec(g, bimin - 1, bj, bjmin);
      ColumnsIncreasingConcat(TileRows(g, bi, bimin - 1, bj, bjmin), RowVisits(g, bimin - 1, bj, bjmin));
    }
  }

  /** Across a row block the column blocks come left to right, so every row
      of the block is still visited left to right. */
  lemma {:induction false} BandFromIncreasing(g: Guide, bi: int, bimin: int, bj: int, cu: int, bsJ: int)
    requires bsJ > 0
    ensures ColumnsIncreasing(BandFrom(g, bi, bimin, bj, cu, bsJ))
    decreases cu - bj
  {
    if bj < cu {
      var bjmin := Min(cu, bj + bsJ);
      var tile, rest := TileRows(g, bi, bimin, bj, bjmin), BandFrom(g, bi, bimin, bj + bsJ, cu, bsJ);
      TileRowsIncreasing(g, bi, bimin, bj, bjmin);
      TileRowsSpec(g, bi, bimin, bj, bjmin);
      BandFromIncreasing(g, bi, bimin, bj + bsJ, cu, bsJ);
      BandFromSpec(g, bi, bimin, bj + bsJ, cu, bsJ);
      JoinColumnsIncreasing(BandFrom(g, bi, bimin, bj, cu, bsJ), tile, rest, g, bi, bimin, bj, cu, bsJ);
    }
  }

  /** One row block followed by the blocks below it. */
  lemma TiledStepIncreasing(g: Guide, bi: int, ru: int, cl: int, cu: int, bsI: int, bsJ: int)
    requires bsI > 0 && bsJ > 0 && bi < ru
    requires ColumnsIncreasing(BandFrom(g, bi, Min(ru, bi + bsI), cl, cu, bsJ))
    requires ColumnsIncreasing(TiledFrom(g, bi + bsI, ru, cl, cu, bsI, bsJ))
    ensures ColumnsIncreasing(TiledFrom(g, bi, ru, cl, cu, bsI, bsJ))
  {
    var bimin := Min(ru, bi + bsI);
    var band, rest := BandFrom(g, bi, bimin, cl, cu, bsJ), TiledFrom(g, bi + bsI, ru, cl, cu, bsI, bsJ);
    BandFromSpec(g, bi, bimin, cl, cu, bsJ);
    TiledFromSpec(g, bi + bsI, ru, cl, cu, bsI, bsJ);
    JoinRowsIncreasing(TiledFrom(g, bi, ru, cl, cu, bsI, bsJ), band, rest, g, bi, ru, cl, cu, bsI);
  }

  /** The blocked traversal visits every row left to right: a row lies in
      one row block, whose column blocks come in increasing order. */
  lemma {:induction false} TiledFromIncreasing(g: Guide, bi: int, ru: int, cl: int, cu: int, bsI: int, bsJ: int)
    requires bsI > 0 && bsJ > 0
    ensures ColumnsIncreasing(TiledFrom(g, bi, ru, cl, cu, bsI, bsJ))
    decreases ru - bi
  {
    if bi < ru {
      BandFromIncreasing(g, bi, Min(ru, bi + bsI), cl, cu, bsJ);
      TiledFromIncreasing(g, bi + bsI, ru, cl, cu, bsI, bsJ);
      TiledStepIncreasing(g, bi, ru, cl, cu, bsI, bsJ);
    }
  }
}
