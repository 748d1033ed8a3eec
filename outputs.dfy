/**
 * The sparse output block as the cellwise iterator writes it: a log of the
 * `append(row, col, value)` calls made on it. How the block stores them is
 * not part of this model.
 */
module Outputs {
  import opened Kernels

  class SparseOut {
    var appended: seq<Append>

    /** An empty, freshly allocated sparse block. */
    constructor ()
      ensures appended == []
    {
      appended := [];
    }

    /** append(r, c, v): one more entry at the end of the log. */
    method AppendValue(row: int, col: int, val: real)
      modifies this
      ensures appended == old(appended) + [Append(row, col, val)]
    {
      appended := appended + [Append(row, col, val)];
    }
  }
}
