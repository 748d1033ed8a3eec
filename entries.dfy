/**
 * Visits of the guiding matrix A and the sequence facts the iterators are
 * specified with: a visit trace, duplicate-freedom, sums over a trace and
 * their invariance under reordering.
 */
module Entries {

  /** A stored non-zero of A that an iterator visits: its row, its column,
      its storage position (i*n+j for a dense A, the offset into the row's
      index/value arrays for a sparse A) and its value. */
  datatype Entry = Entry(row: int, col: int, pos: int, val: real)

  function Min(a: int, b: int): int { if a < b then a else b }

  function Max(a: int, b: int): int { if a < b then b else a }

  /** Row i of a row-major buffer with m rows of width w lies inside it. */
  lemma RowFits(i: int, m: int, w: int)
    requires 0 <= i < m && 0 <= w
    ensures 0 <= i * w && i * w + w <= m * w
    decreases m - i
  {
    MulNonNegative(i, w);
    MulSucc(m - 1, w);
    if i < m - 1 {
      RowFits(i, m - 1, w);
    }
  }

  lemma MulSucc(i: int, w: int)
    ensures (i + 1) * w == i * w + w
  {
  }

  lemma MulNonNegative(x: int, y: int)
    requires 0 <= x && 0 <= y
    ensures 0 <= x * y
  {
  }

  lemma MulMonotone(x: int, y: int, b: int)
    requires x <= y && 0 <= b
    ensures x * b <= y * b
  {
    MulNonNegative(y - x, b);
    assert (y - x) * b == y * b - x * b;
  }

  /** The only multiple of n strictly between -n and n is 0. */
  lemma ZeroMultiple(x: int, n: int)
    requires 0 < n && -n < x * n < n
    ensures x == 0
  {
    if x > 0 {
      MulNonNegative(x - 1, n);
    } else if x < 0 {
      MulNonNegative(-x - 1, n);
    }
  }

  /** Distinct cells of a row-major buffer of width n have distinct
      positions. */
  lemma CellPositionInjective(i1: int, j1: int, i2: int, j2: int, n: int)
    requires 0 <= j1 < n && 0 <= j2 < n
    requires i1 * n + j1 == i2 * n + j2
    ensures i1 == i2 && j1 == j2
  {
    assert (i1 - i2) * n == j2 - j1;
    ZeroMultiple(i1 - i2, n);
  }

  /** No entry of the trace occurs twice. */
  ghost predicate NoDup(s: seq<Entry>) {
    forall p, q :: 0 <= p < q < |s| ==> s[p] != s[q]
  }

  lemma NoDupConcat(s: seq<Entry>, t: seq<Entry>)
    requires NoDup(s) && NoDup(t)
    requires forall e :: e in s ==> e !in t
    ensures NoDup(s + t)
  {
    forall p, q | 0 <= p < q < |s + t| ensures (s + t)[p] != (s + t)[q] {
      if q >= |s| && p < |s| {
        assert (s + t)[p] in s;
        assert (s + t)[q] in t;
      }
    }
  }

  /** Within each row the trace visits columns strictly left to right. */
  ghost predicate ColumnsIncreasing(s: seq<Entry>) {
    forall p, q :: 0 <= p < q < |s| && s[p].row == s[q].row ==> s[p].col < s[q].col
  }

  /** Within each row the trace visits storage positions in strictly
      increasing order. */
  ghost predicate PositionsIncreasing(s: seq<Entry>) {
    forall p, q :: 0 <= p < q < |s| && s[p].row == s[q].row ==> s[p].pos < s[q].pos
  }

  /** Two traces, each left to right within its rows, where every entry of
      the first lies left of the second's entries of the same row. */
  lemma ColumnsIncreasingConcat(s: seq<Entry>, t: seq<Entry>)
    requires ColumnsIncreasing(s) && ColumnsIncreasing(t)
    requires forall x, y :: x in s && y in t && x.row == y.row ==> x.col < y.col
    ensures ColumnsIncreasing(s + t)
  {
    forall p, q | 0 <= p < q < |s + t| && (s + t)[p].row == (s + t)[q].row ensures (s + t)[p].col < (s + t)[q].col {
      if q < |s| {
        assert (s + t)[p] == s[p] && (s + t)[q] == s[q];
      } else if p >= |s| {
        assert (s + t)[p] == t[p - |s|] && (s + t)[q] == t[q - |s|];
      } else {
        assert (s + t)[p] in s;
        assert (s + t)[q] in t;
      }
    }
  }

  /** The sum of w over the trace, in trace order. */
  function SumBy(s: seq<Entry>, w: Entry -> real): real
  {
    if s == [] then 0.0 else SumBy(s[..|s| - 1], w) + w(s[|s| - 1])
  }

  lemma SumBySnoc(s: seq<Entry>, e: Entry, w: Entry -> real)
    ensures SumBy(s + [e], w) == SumBy(s, w) + w(e)
  {
    assert (s + [e])[..|s + [e]| - 1] == s;
  }

  lemma {:induction false} SumByConcat(s: seq<Entry>, t: seq<Entry>, w: Entry -> real)
    ensures SumBy(s + t, w) == SumBy(s, w) + SumBy(t, w)
    decreases |t|
  {
    if t == [] {
      assert s + t == s;
    } else {
      var t' := t[..|t| - 1];
      var e := t[|t| - 1];
      assert t == t' + [e];
      assert s + t == (s + t') + [e];
      SumBySnoc(s + t', e, w);
      SumBySnoc(t', e, w);
      SumByConcat(s, t', w);
    }
  }

  /** Removing one position from a sequence. */
  lemma RemoveAt(t: seq<Entry>, i: int)
    requires 0 <= i < |t|
    ensures t == t[..i] + [t[i]] + t[i + 1..]
    ensures multiset(t) == multiset(t[..i] + t[i + 1..]) + multiset{t[i]}
  {
    assert t == t[..i] + [t[i]] + t[i + 1..];
    calc {
      multiset(t);
      multiset(t[..i] + [t[i]] + t[i + 1..]);
      multiset(t[..i]) + multiset([t[i]]) + multiset(t[i + 1..]);
      multiset(t[..i] + t[i + 1..]) + multiset{t[i]};
    }
  }

  /** The last visit of a trace occurs somewhere in any permutation of it,
      and what remains of the two once it is taken out are permutations of
      each other. */
  lemma PermutationSplit(s: seq<Entry>, t: seq<Entry>) returns (i: int)
    requires multiset(s) == multiset(t) && s != []
    ensures 0 <= i < |t| && t[i] == s[|s| - 1]
    ensures t == t[..i] + [t[i]] + t[i + 1..]
    ensures multiset(s[..|s| - 1]) == multiset(t[..i] + t[i + 1..])
  {
    var s' := s[..|s| - 1];
    var e := s[|s| - 1];
    assert s == s' + [e];
    assert multiset(s) == multiset(s') + multiset{e};
    assert e in multiset(t);
    i :| 0 <= i < |t| && t[i] == e;
    RemoveAt(t, i);
    calc {
      multiset(s');
      multiset(s') + multiset{e} - multiset{e};
      multiset(t[..i] + t[i + 1..]) + multiset{e} - multiset{e};
      multiset(t[..i] + t[i + 1..]);
    }
  }

  /** A sum over a trace does not depend on the order of the trace. */
  lemma {:induction false} SumByPermutation(s: seq<Entry>, t: seq<Entry>, w: Entry -> real)
    requires multiset(s) == multiset(t)
    ensures SumBy(s, w) == SumBy(t, w)
    decreases |s|
  {
    if s == [] {
      assert |t| == |multiset(t)| == 0;
    } else {
      var s' := s[..|s| - 1];
      var e := s[|s| - 1];
      var i := PermutationSplit(s, t);
      var a, b := t[..i], t[i + 1..];
      assert s == s' + [e];
      SumByPermutation(s', a + b, w);
      SumBySnoc(s', e, w);
      assert t == (a + [e]) + b;
      SumByConcat(a + [e], b, w);
      SumBySnoc(a, e, w);
      SumByConcat(a, b, w);
    }
  }

  /** In a duplicate-free trace every member occurs exactly once. */
  lemma {:induction false} NoDupCounts(t: seq<Entry>)
    requires NoDup(t)
    ensures forall x :: multiset(t)[x] == if x in t then 1 else 0
    decreases |t|
  {
    if t != [] {
      var t' := t[..|t| - 1];
      var e := t[|t| - 1];
      assert t == t' + [e];
      assert NoDup(t') by {
        forall p, q | 0 <= p < q < |t'| ensures t'[p] != t'[q] { assert t'[p] == t[p] && t'[q] == t[q]; }
      }
      assert e !in t' by {
        forall p | 0 <= p < |t'| ensures t'[p] != e { assert t'[p] == t[p]; }
      }
      NoDupCounts(t');
      assert multiset(t) == multiset(t') + multiset{e};
    }
  }

  /** Two duplicate-free traces with the same members are permutations of
      each other. */
  lemma SameMembersPermutation(s: seq<Entry>, t: seq<Entry>)
    requires NoDup(s) && NoDup(t)
    requires forall e :: e in s <==> e in t
    ensures multiset(s) == multiset(t)
  {
    NoDupCounts(s);
    NoDupCounts(t);
    forall x ensures multiset(s)[x] == multiset(t)[x] { }
  }
}
