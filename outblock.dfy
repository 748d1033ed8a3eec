/**
 * The output MatrixBlock of the matrix-valued execute methods, as far as
 * the executor uses it: its dimensions, its format, its dense row-major
 * buffer or the log of appends made to its sparse block, and its count of
 * non-zeros. MatrixBlock itself is not part of this model; the operations
 * below are the behaviour the executor relies on.
 */
module OutBlocks {
  import opened Entries
  import opened Kernels
  import opened Outputs

  /** What an output block holds: the dense buffer and the sparse appends. */
  datatype Contents = Contents(dense: seq<real>, appended: seq<Append>)

  /** The number of non-zero cells at positions [lo, hi) of a dense buffer. */
  function CountDense(s: seq<real>, lo: int, hi: int): nat
    decreases hi - lo
  {
    if hi <= lo then 0
    else CountDense(s, lo, hi - 1) + (if 0 <= hi - 1 < |s| && s[hi - 1] != 0.0 then 1 else 0)
  }

  /** The number of non-zero values appended to the rows [rl, ru). */
  function CountAppends(log: seq<Append>, rl: int, ru: int): nat
    decreases |log|
  {
    if log == [] then 0
    else
      var x := log[|log| - 1];
      CountAppends(log[..|log| - 1], rl, ru) + (if rl <= x.row < ru && x.val != 0.0 then 1 else 0)
  }

  /** recomputeNonZeros over the rows [rl, ru) and all columns of a block
      with the given format and number of columns. */
  function NonZerosIn(st: Contents, sparse: bool, cols: int, rl: int, ru: int): nat
  {
    if sparse then CountAppends(st.appended, rl, ru) else CountDense(st.dense, rl * cols, ru * cols)
  }

  /** Counting over two adjacent ranges is counting over their union. */
  lemma {:induction false} CountDenseSplit(s: seq<real>, a: int, b: int, c: int)
    requires a <= b <= c
    ensures CountDense(s, a, c) == CountDense(s, a, b) + CountDense(s, b, c)
    decreases c - b
  {
    if b < c {
      CountDenseSplit(s, a, b, c - 1);
    }
  }

  /** The count over a range depends only on the cells in that range. */
  lemma {:induction false} CountDenseFrame(s: seq<real>, t: seq<real>, lo: int, hi: int)
    requires 0 <= lo <= hi <= |s| && |s| == |t|
    requires forall p :: lo <= p < hi ==> s[p] == t[p]
    ensures CountDense(s, lo, hi) == CountDense(t, lo, hi)
    decreases hi - lo
  {
    if lo < hi {
      CountDenseFrame(s, t, lo, hi - 1);
    }
  }

  /** A buffer of zeros has no non-zero. */
  lemma {:induction false} CountDenseZeros(s: seq<real>, lo: int, hi: int)
    requires forall p :: 0 <= p < |s| ==> s[p] == 0.0
    ensures CountDense(s, lo, hi) == 0
    decreases hi - lo
  {
    if lo < hi {
      CountDenseZeros(s, lo, hi - 1);
    }
  }

  /** Counting appends over two logs one after the other. */
  lemma {:induction false} CountAppendsConcat(s: seq<Append>, t: seq<Append>, rl: int, ru: int)
    ensures CountAppends(s + t, rl, ru) == CountAppends(s, rl, ru) + CountAppends(t, rl, ru)
    decreases |t|
  {
    if t == [] {
      assert s + t == s;
    } else {
      assert (s + t)[..|s + t| - 1] == s + t[..|t| - 1];
      CountAppendsConcat(s, t[..|t| - 1], rl, ru);
    }
  }

  /** Counting appends over two adjacent row ranges. */
  lemma {:induction false} CountAppendsSplit(log: seq<Append>, a: int, b: int, c: int)
    requires a <= b <= c
    ensures CountAppends(log, a, c) == CountAppends(log, a, b) + CountAppends(log, b, c)
    decreases |log|
  {
    if log != [] {
      CountAppendsSplit(log[..|log| - 1], a, b, c);
    }
  }

  /** Appends to rows outside the range do not count. */
  lemma {:induction false} CountAppendsNone(log: seq<Append>, rl: int, ru: int)
    requires forall x :: x in log ==> x.row < rl || ru <= x.row
    ensures CountAppends(log, rl, ru) == 0
    decreases |log|
  {
    if log != [] {
      assert log[|log| - 1] in log;
      assert forall x :: x in log[..|log| - 1] ==> x in log;
      CountAppendsNone(log[..|log| - 1], rl, ru);
    }
  }

  /** The non-zero count of adjacent row ranges adds up. */
  lemma NonZerosSplit(st: Contents, sparse: bool, cols: int, a: int, b: int, c: int)
    requires a <= b <= c && 0 <= cols
    ensures NonZerosIn(st, sparse, cols, a, c) == NonZerosIn(st, sparse, cols, a, b) + NonZerosIn(st, sparse, cols, b, c)
  {
    if sparse {
      CountAppendsSplit(st.appended, a, b, c);
    } else {
      MulMonotone(a, b, cols);
      MulMonotone(b, c, cols);
      CountDenseSplit(st.dense, a * cols, b * cols, c * cols);
    }
  }

  /** A matrix block as the executor writes it. A block whose dense buffer
      was never allocated holds an empty array. */
  class OutBlock {
    var rows: int
    var cols: int
    var sparse: bool
    var dense: array<real>
    var sparseBlock: SparseOut
    var nonZeros: int

    /** The block's current contents. */
    ghost function State(): Contents
      reads this, dense, sparseBlock
    {
      Contents(dense[..], sparseBlock.appended)
    }

    /** new MatrixBlock(r, c, sp): nothing allocated, no non-zeros. */
    constructor (r: int, c: int, sp: bool)
      ensures rows == r && cols == c && sparse == sp && nonZeros == 0
      ensures State() == Contents([], [])
    {
      rows, cols, sparse, nonZeros := r, c, sp, 0;
      dense := new real[0];
      sparseBlock := new SparseOut();
    }

    /** reset(r, c, sp): new dimensions and format, no non-zeros; the
        storage itself is left to the allocation that follows. */
    method Reset(r: int, c: int, sp: bool)
      modifies this
      ensures rows == r && cols == c && sparse == sp && nonZeros == 0
      ensures dense == old(dense) && sparseBlock == old(sparseBlock)
    {
      rows, cols, sparse, nonZeros := r, c, sp, 0;
    }

    /** allocateDenseBlock(): a zeroed rows x cols buffer, dense format, no
        non-zeros. */
    method AllocateDenseBlock()
      requires 0 <= rows && 0 <= cols
      modifies this
      ensures fresh(dense) && dense.Length == rows * cols
      ensures forall p :: 0 <= p < dense.Length ==> dense[p] == 0.0
      ensures !sparse && nonZeros == 0
      ensures rows == old(rows) && cols == old(cols) && sparseBlock == old(sparseBlock)
    {
      dense := new real[rows * cols](_ => 0.0);
      sparse, nonZeros := false, 0;
    }

    /** allocateDenseOrSparseBlock(): an empty sparse block in sparse
        format, a zeroed dense buffer otherwise. */
    method AllocateDenseOrSparseBlock()
      requires 0 <= rows && 0 <= cols
      modifies this
      ensures sparse == old(sparse) && rows == old(rows) && cols == old(cols) && nonZeros == old(nonZeros)
      ensures sparse ==> fresh(sparseBlock) && sparseBlock.appended == [] && dense == old(dense)
      ensures !sparse ==> fresh(dense) && dense.Length == rows * cols && sparseBlock == old(sparseBlock)
      ensures !sparse ==> forall p :: 0 <= p < dense.Length ==> dense[p] == 0.0
    {
      if sparse {
        sparseBlock := new SparseOut();
      } else {
        dense := new real[rows * cols](_ => 0.0);
      }
    }

    /** recomputeNonZeros(rl, ru-1, 0, cols-1): the non-zeros of the rows
        [rl, ru), counted cell by cell (dense) or append by append (sparse). */
    method CountNonZeros(rl: int, ru: int) returns (count: int)
      ensures count == NonZerosIn(State(), sparse, cols, rl, ru)
    {
      count := 0;
      if sparse {
        var log := sparseBlock.appended;
        var q := 0;
        while q < |log|
          invariant 0 <= q <= |log|
          invariant count == CountAppends(log[..q], rl, ru)
        {
          assert log[..q + 1][..q] == log[..q];
          if rl <= log[q].row < ru && log[q].val != 0.0 {
            count := count + 1;
          }
          q := q + 1;
        }
        assert log[..q] == log;
        assert count == CountAppends(log, rl, ru);
      } else {
        var lo, hi := rl * cols, ru * cols;
        var p := lo;
        while p < hi
          invariant if lo <= hi then lo <= p <= hi else p == lo
          invariant count == CountDense(dense[..], lo, p)
        {
          if 0 <= p < dense.Length && dense[p] != 0.0 {
            count := count + 1;
          }
          p := p + 1;
        }
      }
    }

    /** recomputeNonZeros(): the block's non-zero count over all its rows. */
    method RecomputeNonZeros()
      modifies this
      ensures nonZeros == NonZerosIn(State(), sparse, cols, 0, rows)
      ensures rows == old(rows) && cols == old(cols) && sparse == old(sparse)
      ensures dense == old(dense) && sparseBlock == old(sparseBlock)
    {
      nonZeros := CountNonZeros(0, rows);
    }
  }
}
