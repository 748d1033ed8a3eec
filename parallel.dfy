/**
 * What the parallel execute methods rely on: the tasks' slices of A
 * together visit exactly what one run over all of A visits, the output
 * does not depend on the order in which the visits arrive, and a task
 * leaves the output rows of the other tasks alone.
 */
module Parallel {
  import opened Entries
  import opened Guides
  import opened Kernels
  import opened Blocking
  import opened OutBlocks
  import opened Tasks

  /** e is a visit of A anywhere in the matrix. */
  ghost predicate IsVisitOf(g: Guide, e: Entry)
  {
    0 <= e.row < g.m && 0 <= e.col < g.n && IsVisit(g, e)
  }

  /** The coordinate the work is split on: the column of A when the split
      is over columns (Left mode), its row otherwise. It is also the output
      row the visit writes. */
  function Coord(e: Entry, byCols: bool): int
  {
    if byCols then e.col else e.row
  }

  /** The visits of the tasks of a split, task after task. */
  function ConcatOver(blocks: seq<Block>, trace: Block -> seq<Entry>): seq<Entry>
    decreases |blocks|
  {
    if blocks == [] then [] else ConcatOver(blocks[..|blocks| - 1], trace) + trace(blocks[|blocks| - 1])
  }

  lemma ConcatOverPrefix(blocks: seq<Block>, trace: Block -> seq<Entry>, t: int)
    requires 0 <= t < |blocks|
    ensures ConcatOver(blocks[..t + 1], trace) == ConcatOver(blocks[..t], trace) + trace(blocks[t])
  {
    assert blocks[..t + 1][..t] == blocks[..t];
  }

  /** Where the first t blocks end. */
  function End(blocks: seq<Block>, t: int): int
    requires 0 <= t <= |blocks|
  {
    if t == 0 then 0 else blocks[t - 1].hi
  }

  /** The first t tasks visit each visit of A whose split coordinate lies
      before the end of block t - 1 exactly once, and nothing else. */
  lemma {:induction false} PrefixTraces(g: Guide, len: int, p: int, byCols: bool, trace: Block -> seq<Entry>, t: int)
    requires 0 <= len && 1 <= p
    requires forall b :: b in PartitionBlocks(len, p) ==> NoDup(trace(b))
    requires forall b, e :: b in PartitionBlocks(len, p) ==>
      (e in trace(b) <==> b.lo <= Coord(e, byCols) < b.hi && IsVisitOf(g, e))
    requires 0 <= t <= |PartitionBlocks(len, p)|
    ensures NoDup(ConcatOver(PartitionBlocks(len, p)[..t], trace))
    ensures forall e :: e in ConcatOver(PartitionBlocks(len, p)[..t], trace) <==>
      0 <= Coord(e, byCols) < End(PartitionBlocks(len, p), t) && IsVisitOf(g, e)
  {
    var blocks := PartitionBlocks(len, p);
    if t == 0 {
      assert blocks[..0] == [];
    } else {
      PrefixTraces(g, len, p, byCols, trace, t - 1);
      PartitionSpec(len, p);
      PartitionCovers(len, p);
      var b := blocks[t - 1];
      var before := ConcatOver(blocks[..t - 1], trace);
      ConcatOverPrefix(blocks, trace, t - 1);
      assert b in blocks;
      assert b.lo == End(blocks, t - 1);
      NoDupConcat(before, trace(b));
    }
  }

  /** The parallel execute methods' split is exact: when each task visits
      exactly the visits of A whose split coordinate lies in its block,
      once each, all tasks together visit every visit of A exactly once and
      nothing else. */
  lemma PartitionedTraces(g: Guide, len: int, p: int, byCols: bool, trace: Block -> seq<Entry>)
    requires 1 <= p && len == (if byCols then g.n else g.m) && 0 <= len
    requires forall b :: b in PartitionBlocks(len, p) ==> NoDup(trace(b))
    requires forall b, e :: b in PartitionBlocks(len, p) ==>
      (e in trace(b) <==> b.lo <= Coord(e, byCols) < b.hi && IsVisitOf(g, e))
    ensures NoDup(ConcatOver(PartitionBlocks(len, p), trace))
    ensures forall e :: e in ConcatOver(PartitionBlocks(len, p), trace) <==> IsVisitOf(g, e)
  {
    var blocks := PartitionBlocks(len, p);
    PrefixTraces(g, len, p, byCols, trace, |blocks|);
    assert blocks[..|blocks|] == blocks;
    PartitionSpec(len, p);
  }

  /** Two outputs that agree on the dense buffer and on the appends made,
      whatever their order. */
  ghost predicate SameResult(x: Contents, y: Contents)
  {
    x.dense == y.dense && multiset(x.appended) == multiset(y.appended)
  }

  lemma {:induction false} ApplyCellsLength(c: seq<real>, es: seq<Entry>, f: CellKernel, k: int, cellwise: bool)
    ensures |ApplyCells(c, es, f, k, cellwise)| == |c|
    decreases |es|
  {
    if es != [] {
      ApplyCellsLength(c, es[..|es| - 1], f, k, cellwise);
    }
  }

  /** Cellwise visits stored at or after position lo leave the buffer
      before lo alone. */
  lemma {:induction false} ApplyCellsBelow(c: seq<real>, es: seq<Entry>, f: CellKernel, k: int, lo: int)
    requires forall e :: e in es ==> lo <= e.pos
    ensures |ApplyCells(c, es, f, k, true)| == |c|
    ensures forall p :: 0 <= p < lo && p < |c| ==> ApplyCells(c, es, f, k, true)[p] == c[p]
    decreases |es|
  {
    if es != [] {
      assert forall e :: e in es[..|es| - 1] ==> e in es;
      assert es[|es| - 1] in es;
      ApplyCellsBelow(c, es[..|es| - 1], f, k, lo);
    }
  }

  /** The appends of a trace: the old log, then one append per visit. */
  lemma {:induction false} AppendsMultiset(log: seq<Append>, es: seq<Entry>, f: CellKernel, k: int)
    ensures multiset(Appends(log, es, f, k)) == multiset(log) + multiset(Appends([], es, f, k))
    decreases |es|
  {
    if es != [] {
      AppendsMultiset(log, es[..|es| - 1], f, k);
    }
  }

  /** The appends a trace makes to an empty log, as a multiset. */
  ghost function Logged(es: seq<Entry>, f: CellKernel, k: int): multiset<Append>
  {
    multiset(Appends([], es, f, k))
  }

  lemma AppendsSplit(s: seq<Entry>, t: seq<Entry>, f: CellKernel, k: int)
    ensures Logged(s + t, f, k) == Logged(s, f, k) + Logged(t, f, k)
  {
    AppendsConcat([], s, t, f, k);
    AppendsMultiset(Appends([], s, f, k), t, f, k);
  }

  /** The appends of a trace, as a multiset, do not depend on the order of
      the trace. */
  lemma {:induction false} AppendsPermutation(s: seq<Entry>, t: seq<Entry>, f: CellKernel, k: int)
    requires multiset(s) == multiset(t)
    ensures Logged(s, f, k) == Logged(t, f, k)
    decreases |s|
  {
    if s == [] {
      assert |t| == |multiset(t)| == 0;
    } else {
      var s' := s[..|s| - 1];
      var e := s[|s| - 1];
      var i := PermutationSplit(s, t);
      assert s == s' + [e];
      AppendsPermutation(s', t[..i] + t[i + 1..], f, k);
      AppendsSplit(s', [e], f, k);
      LoggedRemove(t, i, f, k);
    }
  }

  /** Taking one visit out of a trace takes its append out of the log. */
  lemma LoggedRemove(t: seq<Entry>, i: int, f: CellKernel, k: int)
    requires 0 <= i < |t|
    ensures Logged(t, f, k) == Logged(t[..i] + t[i + 1..], f, k) + Logged([t[i]], f, k)
  {
    var a, b := t[..i], t[i + 1..];
    assert t == a + ([t[i]] + b);
    AppendsSplit(a, [t[i]] + b, f, k);
    AppendsSplit([t[i]], b, f, k);
    AppendsSplit(a, b, f, k);
  }

  /** In Cellwise mode, two traces with the same visits and no shared
      storage position leave the same dense buffer. */
  lemma ApplyCellsSameMembers(c: seq<real>, s: seq<Entry>, t: seq<Entry>, f: CellKernel, k: int)
    requires forall e :: e in s <==> e in t
    requires forall x, y :: x in s && y in s && x.pos == y.pos ==> x == y
    ensures ApplyCells(c, s, f, k, true) == ApplyCells(c, t, f, k, true)
  {
    ApplyCellsAt(c, s, f, k);
    ApplyCellsAt(c, t, f, k);
    forall p | 0 <= p < |c| ensures ApplyCells(c, s, f, k, true)[p] == ApplyCells(c, t, f, k, true)[p] {
      if e :| e in s && e.pos == p {
        assert e in t;
      }
    }
  }

  /** Two duplicate-free traces with the same visits produce the same
      output in every matrix-output mode: the same dense buffer, and the
      same appends up to their order. */
  lemma EmitSameMembers(st: Contents, s: seq<Entry>, t: seq<Entry>, outType: OutProdType, toSparse: bool,
                        vk: VectorKernel, f: CellKernel, k: int)
    requires NoDup(s) && NoDup(t)
    requires forall e :: e in s <==> e in t
    requires outType == CellwiseOuterProduct && !toSparse ==>
      forall x, y :: x in s && y in s && x.pos == y.pos ==> x == y
    ensures SameResult(Emit(st, s, outType, toSparse, vk, f, k), Emit(st, t, outType, toSparse, vk, f, k))
  {
    SameMembersPermutation(s, t);
    if outType == LeftOuterProduct || outType == RightOuterProduct {
      ApplyCallsPermutation(st.dense, s, t, vk, k, outType == LeftOuterProduct);
    } else if outType == CellwiseOuterProduct {
      if toSparse {
        AppendsMultiset(st.appended, s, f, k);
        AppendsMultiset(st.appended, t, f, k);
        AppendsPermutation(s, t, f, k);
        assert Logged(s, f, k) == Logged(t, f, k);
      } else {
        ApplyCellsSameMembers(st.dense, s, t, f, k);
      }
    }
  }

  /** Emitting two traces one after the other is emitting their
      concatenation. */
  lemma EmitConcat(st: Contents, s: seq<Entry>, t: seq<Entry>, outType: OutProdType, toSparse: bool,
                   vk: VectorKernel, f: CellKernel, k: int)
    ensures Emit(Emit(st, s, outType, toSparse, vk, f, k), t, outType, toSparse, vk, f, k) ==
            Emit(st, s + t, outType, toSparse, vk, f, k)
  {
    ApplyCallsConcat(st.dense, s, t, vk, k, outType == LeftOuterProduct);
    ApplyCellsConcat(st.dense, s, t, f, k, true);
    AppendsConcat(st.appended, s, t, f, k);
  }

  /** A task whose visits all write output rows at or after lo leaves the
      non-zero count of every row range before lo as it was: dense rows
      are cols wide, Left and Right write k-wide rows, Cellwise visits of a
      dense A are stored at row * cols + col. */
  lemma EmitKeepsCountsBelow(st: Contents, es: seq<Entry>, outType: OutProdType, toSparse: bool,
                             vk: VectorKernel, f: CellKernel, k: int, cols: int, lo: int, rl: int, ru: int)
    requires outType != AggOuterProduct
    requires 0 <= rl <= ru <= lo && 0 <= cols
    requires !toSparse ==> lo * cols <= |st.dense|
    requires outType != CellwiseOuterProduct ==> cols == k && !toSparse
    requires forall e :: e in es ==> lo <= Coord(e, outType == LeftOuterProduct)
    requires outType == CellwiseOuterProduct && !toSparse ==>
      forall e :: e in es ==> e.pos == e.row * cols + e.col && 0 <= e.col
    ensures NonZerosIn(Emit(st, es, outType, toSparse, vk, f, k), toSparse, cols, rl, ru) ==
            NonZerosIn(st, toSparse, cols, rl, ru)
  {
    var after := Emit(st, es, outType, toSparse, vk, f, k);
    if toSparse {
      var log := st.appended;
      AppendsAt(log, es, f, k);
      var tail := after.appended[|log|..];
      assert after.appended == log + tail;
      forall x | x in tail ensures x.row < rl || ru <= x.row {
        var q :| 0 <= q < |tail| && tail[q] == x;
        assert after.appended[|log| + q] == x;
        assert es[q] in es;
      }
      CountAppendsConcat(log, tail, rl, ru);
      CountAppendsNone(tail, rl, ru);
    } else {
      MulMonotone(rl, ru, cols);
      MulMonotone(ru, lo, cols);
      MulNonNegative(rl, cols);
      if outType == CellwiseOuterProduct {
        forall e | e in es ensures lo * cols <= e.pos {
          MulMonotone(lo, e.row, cols);
        }
        ApplyCellsBelow(st.dense, es, f, k, lo * cols);
      } else {
        var left := outType == LeftOuterProduct;
        forall e | e in es ensures CallOf(e, k, left).ci + k <= 0 || lo * k <= CallOf(e, k, left).ci {
          MulMonotone(lo, Coord(e, left), k);
        }
        ApplyCallsElsewhere(st.dense, es, vk, k, left, 0, lo * k);
        forall p | rl * cols <= p < ru * cols ensures after.dense[p] == st.dense[p] {
          assert after.dense[p] == after.dense[0..lo * k][p];
        }
      }
      CountDenseFrame(st.dense, after.dense, rl * cols, ru * cols);
    }
  }
}
