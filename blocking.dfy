/**
 * The integer formulas of the executor: the sparse iterators' block sizes
 * and the split of a row or column range into one block per task. Java's
 * int and long arithmetic is written out: a multiplication or a narrowing
 * cast keeps the low 32 (64) bits, and division truncates toward zero.
 */
module Blocking {
  import opened Entries
  import opened Outcomes

  /** The L2 cache size the Left-mode column block is fitted to (256 KB). */
  const L2_CACHESIZE: int := 256 * 1024

  const TWO_32: int := 0x1_0000_0000
  const TWO_64: int := 0x1_0000_0000_0000_0000

  predicate IsInt32(x: int) { -0x8000_0000 <= x < 0x8000_0000 }

  predicate IsInt64(x: int) { -0x8000_0000_0000_0000 <= x < 0x8000_0000_0000_0000 }

  function Abs(x: int): int { if x < 0 then -x else x }

  /** A Java int result: the low 32 bits of x, read in two's complement. */
  function ToInt32(x: int): (r: int)
    ensures IsInt32(r)
    ensures (x - r) % TWO_32 == 0
    ensures IsInt32(x) ==> r == x
  {
    var low := x % TWO_32;
    if low < 0x8000_0000 then low else low - TWO_32
  }

  /** A Java long result: the low 64 bits of x, read in two's complement. */
  function ToInt64(x: int): (r: int)
    ensures IsInt64(r)
    ensures (x - r) % TWO_64 == 0
    ensures IsInt64(x) ==> r == x
  {
    var low := x % TWO_64;
    if low < 0x8000_0000_0000_0000 then low else low - TWO_64
  }

  /** Java's integer division: the exact quotient truncated toward zero. */
  function JavaDiv(a: int, b: int): (q: int)
    requires b != 0
    ensures Abs(a) - Abs(b) < Abs(q) * Abs(b) <= Abs(a)
    ensures q > 0 ==> (a > 0) == (b > 0)
    ensures q < 0 ==> (a > 0) != (b > 0)
  {
    DivMod(Abs(a), Abs(b));
    var t := Abs(a) / Abs(b);
    if (a < 0) == (b < 0) then t else -t
  }

  /** Euclidean division of a non-negative number: the quotient times the
      divisor lies within one divisor below the dividend. */
  lemma DivMod(a: int, b: int)
    requires 0 <= a && 0 < b
    ensures 0 <= a / b
    ensures a - b < (a / b) * b <= a
  {
    assert a == b * (a / b) + a % b;
  }

  /** blocksizeI = (int) (8L*m*n/nnz): the row block of the sparse
      iterators, so that each U/V row is reused about 8 times. The product
      is a long, the quotient is narrowed to an int without rounding up. */
  function BlockSizeI(m: int, n: int, nnz: int): (r: Result<int>)
    ensures r.Err? <==> nnz == 0
    ensures r.Err? ==> r.why == DivideByZero
    ensures r.Ok? ==> IsInt32(r.value)
  {
    if nnz == 0 then Err(DivideByZero)
    else Ok(ToInt32(ToInt64(JavaDiv(ToInt64(8 * m * n), nnz))))
  }

  lemma DivAtLeast(a: int, b: int, c: int)
    requires 0 < b && 0 <= c && c * b <= a
    ensures c <= a / b
  {
    DivMod(a, b);
    if a / b < c {
      MulMonotone(a / b + 1, c, b);
    }
  }

  /** When 0 < nnz <= m*n, the product fits a long and the quotient fits an
      int, the row block is the truncated quotient, and at least 8. */
  lemma BlockSizeIBounds(m: int, n: int, nnz: int)
    requires 0 <= m && 0 <= n && 0 < nnz <= m * n
    requires 8 * m * n < 0x8000_0000_0000_0000
    requires 8 * m * n / nnz < 0x8000_0000
    ensures BlockSizeI(m, n, nnz) == Ok(8 * m * n / nnz)
    ensures 8 <= BlockSizeI(m, n, nnz).value
    ensures BlockSizeI(m, n, nnz).value * nnz <= 8 * m * n < (BlockSizeI(m, n, nnz).value + 1) * nnz
  {
    var p := 8 * m * n;
    var q := p / nnz;
    assert JavaDiv(p, nnz) == q;
    DivAtLeast(p, nnz, 8);
    assert p == nnz * q + p % nnz;
  }

  /** The row block wraps when the quotient does not fit an int: a
      65536 x 65536 matrix with a single non-zero gets row blocks of 0 rows. */
  lemma BlockSizeIWraps()
    ensures BlockSizeI(65536, 65536, 1) == Ok(0)
  {
    assert 8 * 65536 * 65536 == 0x8_0000_0000;
    assert JavaDiv(0x8_0000_0000, 1) == 0x8_0000_0000;
  }

  /** blocksizeJ: in Left mode max(8, min(L2_CACHESIZE/(k*8), blocksizeI))
      with int arithmetic, otherwise the row block itself. */
  function BlockSizeJ(bsI: int, k: int, left: bool): (r: Result<int>)
    ensures !left ==> r == Ok(bsI)
    ensures left ==> (r.Err? <==> ToInt32(k * 8) == 0)
    ensures r.Err? ==> r.why == DivideByZero
    ensures left && r.Ok? ==> 8 <= r.value && (bsI <= 8 ==> r.value == 8) && (8 <= bsI ==> r.value <= bsI)
  {
    if !left then Ok(bsI)
    else
      var d := ToInt32(k * 8);
      if d == 0 then Err(DivideByZero)
      else Ok(Max(8, Min(JavaDiv(L2_CACHESIZE, d), bsI)))
  }

  /** For a rank k whose k*8 fits an int, the Left column block holds as
      many V rows of k doubles as fit the L2 cache, at least 8 and at most
      the row block when that is larger. */
  lemma BlockSizeJLeft(bsI: int, k: int)
    requires 0 < k && k * 8 < 0x8000_0000
    ensures BlockSizeJ(bsI, k, true) == Ok(Max(8, Min(L2_CACHESIZE / (k * 8), bsI)))
  {
    assert JavaDiv(L2_CACHESIZE, k * 8) == L2_CACHESIZE / (k * 8);
  }

  /** The block sizes executeSparse works with, or the way it fails:
      division by zero in either formula, a negative cursor array, or a
      row block of 0 over a non-empty row range, on which the row-block
      loop never advances. */
  function SparseBlockSizes(m: int, n: int, k: int, nnz: int, left: bool, rl: int, ru: int): (r: Result<(int, int)>)
    ensures r.Ok? ==> 0 <= r.value.0 && (rl < ru ==> 0 < r.value.0 && 0 < r.value.1)
    ensures r.Ok? && left ==> 8 <= r.value.1
    ensures r.Ok? && !left ==> r.value.1 == r.value.0
  {
    match BlockSizeI(m, n, nnz)
    case Err(why) => Err(why)
    case Ok(bsI) =>
      match BlockSizeJ(bsI, k, left)
      case Err(why) => Err(why)
      case Ok(bsJ) =>
        if bsI < 0 then Err(NegativeArraySize)
        else if bsI == 0 && rl < ru then Err(NonTerminating)
        else Ok((bsI, bsJ))
  }

  /** The square block size executeCellwiseSparse works with, or the way
      it fails. */
  function CellwiseBlockSize(m: int, n: int, nnz: int, rl: int, ru: int): (r: Result<int>)
    ensures r.Ok? ==> 0 <= r.value && (rl < ru ==> 0 < r.value)
    ensures r.Err? ==> r.why in {DivideByZero, NegativeArraySize, NonTerminating}
  {
    match BlockSizeI(m, n, nnz)
    case Err(why) => Err(why)
    case Ok(bs) =>
      if bs < 0 then Err(NegativeArraySize)
      else if bs == 0 && rl < ru then Err(NonTerminating)
      else Ok(bs)
  }

  /** One task's slice [lo, hi) of a row or column range. */
  datatype Block = Block(lo: int, hi: int)

  /** blklen = (int) Math.ceil((double) len / P). For int operands the
      double quotient is never rounded across an integer, so this is the
      exact ceiling of len / P. */
  function BlockLength(len: int, p: int): (b: int)
    requires 0 <= len && 1 <= p
    ensures 0 <= b
    ensures (b - 1) * p < len <= b * p
  {
    DivMod(len + p - 1, p);
    (len + p - 1) / p
  }

  /** The blocks the loop that creates the tasks makes from task j on:
      `for (j = ...; j < P & j*blklen < len; j++) [j*blklen, min((j+1)*blklen, len))`. */
  function PartitionFrom(j: int, b: int, len: int, p: int): seq<Block>
    decreases p - j
  {
    if j < p && j * b < len then [Block(j * b, Min((j + 1) * b, len))] + PartitionFrom(j + 1, b, len, p)
    else []
  }

  /** The blocks of one parallel call over [0, len) with P threads; none
      when P < 1, for the loop condition j < P never holds. */
  function PartitionBlocks(len: int, p: int): seq<Block>
    requires 0 <= len
  {
    if p < 1 then [] else PartitionFrom(0, BlockLength(len, p), len, p)
  }

  /** The loop of the parallel execute methods that creates the tasks: one block per task. */
  method Partition(len: int, p: int) returns (blocks: seq<Block>)
    requires 0 <= len
    ensures blocks == PartitionBlocks(len, p)
  {
    blocks := [];
    if p < 1 {
      return;
    }
    var b := BlockLength(len, p);
    var j := 0;
    while j < p && j * b < len
      invariant 0 <= j <= p
      invariant blocks + PartitionFrom(j, b, len, p) == PartitionBlocks(len, p)
      decreases p - j
    {
      assert PartitionFrom(j, b, len, p) == [Block(j * b, Min((j + 1) * b, len))] + PartitionFrom(j + 1, b, len, p);
      blocks := blocks + [Block(j * b, Min((j + 1) * b, len))];
      j := j + 1;
    }
    assert blocks + [] == blocks;
  }

  /** Block t of a split into blocks of b: [t*b, min((t+1)*b, len)). */
  function BlockAt(t: int, b: int, len: int): Block
  {
    Block(t * b, Min((t + 1) * b, len))
  }

  lemma {:induction false} PartitionFromSpec(j: int, b: int, len: int, p: int)
    requires 0 <= j <= p && 1 <= b && len <= p * b
    ensures j + |PartitionFrom(j, b, len, p)| <= p
    ensures forall t :: 0 <= t < |PartitionFrom(j, b, len, p)| ==>
      PartitionFrom(j, b, len, p)[t] == BlockAt(j + t, b, len) && BlockAt(j + t, b, len).lo < len
    ensures len <= (j + |PartitionFrom(j, b, len, p)|) * b
    decreases p - j
  {
    var blocks := PartitionFrom(j, b, len, p);
    if j < p && j * b < len {
      var rest := PartitionFrom(j + 1, b, len, p);
      PartitionFromSpec(j + 1, b, len, p);
      assert blocks == [BlockAt(j, b, len)] + rest;
      forall t | 0 <= t < |blocks|
        ensures blocks[t] == BlockAt(j + t, b, len) && BlockAt(j + t, b, len).lo < len
      {
        if 0 < t {
          assert blocks[t] == rest[t - 1];
          assert j + 1 + (t - 1) == j + t;
        }
      }
    }
  }

  /** The split of [0, len) among P >= 1 tasks: at most P blocks, block t
      is [t*blklen, min((t+1)*blklen, len)), every block is non-empty, each
      starts where the previous one ends, the first starts at 0 and the
      last ends at len. */
  lemma PartitionSpec(len: int, p: int)
    requires 0 <= len && 1 <= p
    ensures |PartitionBlocks(len, p)| <= p
    ensures forall t :: 0 <= t < |PartitionBlocks(len, p)| ==>
      PartitionBlocks(len, p)[t] == Block(t * BlockLength(len, p), Min((t + 1) * BlockLength(len, p), len))
    ensures forall t :: 0 <= t < |PartitionBlocks(len, p)| ==> PartitionBlocks(len, p)[t].lo < PartitionBlocks(len, p)[t].hi
    ensures forall t :: 0 < t < |PartitionBlocks(len, p)| ==> PartitionBlocks(len, p)[t - 1].hi == PartitionBlocks(len, p)[t].lo
    ensures len == 0 <==> PartitionBlocks(len, p) == []
    ensures PartitionBlocks(len, p) != [] ==>
      PartitionBlocks(len, p)[0].lo == 0 && PartitionBlocks(len, p)[|PartitionBlocks(len, p)| - 1].hi == len
  {
    var b := BlockLength(len, p);
    var blocks := PartitionBlocks(len, p);
    if len == 0 {
      assert b == 0;
      assert blocks == [];
    } else {
      assert 1 <= b by {
        if b <= 0 {
          MulMonotone(b, 0, p);
        }
      }
      PartitionFromSpec(0, b, len, p);
      forall t | 0 <= t < |blocks| ensures blocks[t].lo < blocks[t].hi {
        MulSucc(t, b);
      }
      forall t | 0 < t < |blocks| ensures blocks[t - 1].hi == blocks[t].lo {
        assert t - 1 + 1 == t;
      }
    }
  }

  /** The blocks cover [0, len) and nothing else, and never overlap: every
      x in the range lies in block x / blklen, and an earlier block ends
      before a later one starts. */
  lemma PartitionCovers(len: int, p: int)
    requires 0 <= len && 1 <= p
    ensures forall x :: 0 <= x < len ==>
      0 <= x / BlockLength(len, p) < |PartitionBlocks(len, p)| &&
      PartitionBlocks(len, p)[x / BlockLength(len, p)].lo <= x < PartitionBlocks(len, p)[x / BlockLength(len, p)].hi
    ensures forall t :: 0 <= t < |PartitionBlocks(len, p)| ==>
      0 <= PartitionBlocks(len, p)[t].lo && PartitionBlocks(len, p)[t].hi <= len
    ensures forall s, t :: 0 <= s < t < |PartitionBlocks(len, p)| ==> PartitionBlocks(len, p)[s].hi <= PartitionBlocks(len, p)[t].lo
  {
    var b := BlockLength(len, p);
    var blocks := PartitionBlocks(len, p);
    PartitionSpec(len, p);
    if len > 0 {
      assert 1 <= b by {
        if b <= 0 {
          MulMonotone(b, 0, p);
        }
      }
      PartitionFromSpec(0, b, len, p);
      forall x | 0 <= x < len
        ensures 0 <= x / b < |blocks| && blocks[x / b].lo <= x < blocks[x / b].hi
      {
        DivMod(x, b);
        var t := x / b;
        if |blocks| <= t {
          MulMonotone(|blocks|, t, b);
        }
        MulSucc(t, b);
      }
      forall t | 0 <= t < |blocks| ensures 0 <= blocks[t].lo && blocks[t].hi <= len {
        MulNonNegative(t, b);
      }
      forall s, t | 0 <= s < t < |blocks| ensures blocks[s].hi <= blocks[t].lo {
        MulMonotone(s + 1, t, b);
      }
    }
  }
}
