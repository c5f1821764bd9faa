/**
 * The full pattern built from the reduced one: col as the reduced rows
 * expanded over the four column blocks and repeated over the three later
 * row blocks, the zeroed value array, and the routine that runs all passes
 * of the pattern builder in order.
 */
module CsrExpand {
  import opened Mesh
  import opened Csr
  import opened CsrBuild
  import Sums

  /** The first b column blocks of an expanded row: seg shifted by 0, NN, ..., (b - 1) NN. */
  function Partial(seg: seq<int>, nn: int, b: nat): (r: seq<int>)
  {
    if b == 0 then [] else Partial(seg, nn, b - 1) + Shifted(seg, (b - 1) * nn)
  }

  /** All four column blocks make the expanded row. */
  lemma PartialFull(seg: seq<int>, nn: int)
    ensures Partial(seg, nn, 4) == Expanded(seg, nn)
  {
    assert Shifted(seg, 0) == seg;
    assert Partial(seg, nn, 1) == seg;
    assert Partial(seg, nn, 2) == seg + Shifted(seg, nn);
    assert Partial(seg, nn, 3) == seg + Shifted(seg, nn) + Shifted(seg, 2 * nn);
  }

  /** The innermost loop of the col build: col[m0 + t] = colSmall[lo + t] + k for t < hi - lo. */
  method CopyShifted(colSmall: array<int>, lo: int, hi: int, col: array<int>, m0: int, k: int) returns (m: int)
    requires 0 <= lo <= hi <= colSmall.Length && 0 <= m0 && m0 + (hi - lo) <= col.Length
    requires col != colSmall
    modifies col
    ensures m == m0 + (hi - lo)
    ensures col[m0..m] == Shifted(colSmall[lo..hi], k)
    ensures col[..m0] == old(col[..m0])
  {
    m := m0;
    for j := lo to hi
      invariant m == m0 + (j - lo)
      invariant forall q :: m0 <= q < m ==> col[q] == colSmall[q - m0 + lo] + k
      invariant col[..m0] == old(col[..m0])
    {
      col[m] := colSmall[j] + k;
      m := m + 1;
    }
    assert forall t :: 0 <= t < hi - lo ==> col[m0..m][t] == col[m0 + t];
  }

  /**
   * The column blocks loop of the col build, k = 0, NN, 2NN, 3NN: the
   * reduced row colSmall[lo..hi) written four times from col[m0] on.
   */
  method ExpandRow(nn: int, colSmall: array<int>, lo: int, hi: int, col: array<int>, m0: int) returns (m: int)
    requires 0 < nn && 0 <= lo <= hi <= colSmall.Length && 0 <= m0 && m0 + 4 * (hi - lo) <= col.Length
    requires col != colSmall
    modifies col
    ensures m == m0 + 4 * (hi - lo)
    ensures col[m0..m] == Expanded(colSmall[lo..hi], nn)
    ensures col[..m0] == old(col[..m0])
  {
    ghost var seg := colSmall[lo..hi];
    m := m0;
    var k := 0;
    ghost var b: nat := 0;
    while k < 4 * nn
      invariant b <= 4 && k == b * nn && m == m0 + b * (hi - lo)
      invariant col[m0..m] == Partial(seg, nn, b)
      invariant col[..m0] == old(col[..m0])
    {
      if b == 4 {
        assert false;
      }
      BlockArith(b, hi - lo, nn);
      m := ExpandBlock(colSmall, lo, hi, col, m0, m, k, Partial(seg, nn, b));
      k, b := k + nn, b + 1;
    }
    if b < 4 {
      Sums.MulLe(b, 3, nn);
    }
    PartialFull(seg, nn);
  }

  /** One pass of the column blocks loop: the reduced row shifted by k, appended to col[m0..m) at col[m]. */
  method ExpandBlock(colSmall: array<int>, lo: int, hi: int, col: array<int>, m0: int, m: int, k: int,
                     ghost prev: seq<int>) returns (m': int)
    requires 0 <= lo <= hi <= colSmall.Length && 0 <= m0 <= m && m + (hi - lo) <= col.Length
    requires col != colSmall && col[m0..m] == prev
    modifies col
    ensures m' == m + (hi - lo)
    ensures col[m0..m'] == prev + Shifted(colSmall[lo..hi], k)
    ensures col[..m0] == old(col[..m0])
  {
    ghost var before := col[..];
    m' := CopyShifted(colSmall, lo, hi, col, m, k);
    assert col[m0..m] == col[..m][m0..] == before[..m][m0..] == before[m0..m];
    assert col[m0..m'] == col[m0..m] + col[m..m'];
  }

  /** The bookkeeping of the column blocks loop: block b + 1 ends within the four blocks. */
  lemma BlockArith(b: nat, len: nat, nn: int)
    requires b < 4
    ensures (b + 1) * len == b * len + len <= 4 * len
    ensures (b + 1) * nn == b * nn + nn
  {
    Sums.MulLe(b + 1, 4, len);
  }

  /** The first NN rows of col are the expanded reduced rows, in order. */
  method BuildFirstBlock(nn: int, rowStartsSmall: array<int>, colSmall: array<int>, col: array<int>,
                         ghost rows: seq<seq<int>>, ghost rs: seq<int>)
    requires nn == |rows| && ReducedPattern(rows, rowStartsSmall[..], colSmall[..]) && FullStarts(rows, rs)
    requires col.Length == 4 * rs[nn]
    requires col != colSmall && col != rowStartsSmall
    modifies col
    ensures forall i :: 0 <= i < nn ==> FirstBlockRow(nn, rowStartsSmall[..], colSmall[..], rs, col[..], i)
  {
    ghost var rss := rowStartsSmall[..];
    var m := 0;
    for i := 0 to nn
      invariant m == rs[i] == 4 * rss[i]
      invariant forall v :: 0 <= v < i ==> FirstBlockRow(nn, rss, colSmall[..], rs, col[..], v)
    {
      ReducedStartMonotone(rows, i, i + 1);
      ReducedStartMonotone(rows, i + 1, nn);
      assert rs[i + 1] == 4 * rss[i + 1];
      ghost var before := col[..];
      m := ExpandRow(nn, colSmall, rowStartsSmall[i], rowStartsSmall[i + 1], col, m);
      KeepBlockRows(rows, rss, colSmall[..], rs, before, col[..], i);
    }
  }

  /** Rows of the first block below position rs[i] keep their contents when only positions from rs[i] on change. */
  lemma KeepBlockRows(rows: seq<seq<int>>, rss: seq<int>, cs: seq<int>, rs: seq<int>, col: seq<int>, col': seq<int>, i: int)
    requires ReducedPattern(rows, rss, cs) && FullStarts(rows, rs) && 0 <= i < |rows| && |col| == |col'|
    requires forall v :: 0 <= v < i ==> FirstBlockRow(|rows|, rss, cs, rs, col, v)
    requires 0 <= rs[i] <= rs[i + 1] <= |col| && col'[..rs[i]] == col[..rs[i]]
    requires 0 <= rss[i] <= rss[i + 1] <= |cs| && col'[rs[i]..rs[i + 1]] == Expanded(cs[rss[i]..rss[i + 1]], |rows|)
    ensures forall v :: 0 <= v <= i ==> FirstBlockRow(|rows|, rss, cs, rs, col', v)
  {
    forall v | 0 <= v < i
      ensures FirstBlockRow(|rows|, rss, cs, rs, col', v)
    {
      assert FirstBlockRow(|rows|, rss, cs, rs, col, v);
      ReducedStartMonotone(rows, v + 1, i);
      assert rs[v + 1] <= rs[i];
      assert col[rs[v]..rs[v + 1]] == col[..rs[i]][rs[v]..rs[v + 1]];
      assert col'[rs[v]..rs[v + 1]] == col'[..rs[i]][rs[v]..rs[v + 1]];
    }
  }

  /** The forward copy col[i + R] = col[i] for i < 3R, R = rowStarts[NN]: col becomes R-periodic. */
  method RepeatBlocks(col: array<int>, R: int)
    requires 0 <= R && col.Length == 4 * R
    modifies col
    ensures col[..R] == old(col[..R])
    ensures forall q :: R <= q < col.Length ==> Repeats(col[..], R, q)
  {
    for i := 0 to 3 * R
      invariant col[..R] == old(col[..R])
      invariant forall q :: R <= q < R + i ==> Repeats(col[..], R, q)
    {
      ghost var before := col[..];
      col[i + R] := col[i];
      RepeatStep(before, col[..], R, i);
    }
  }

  /** Copying position i to i + R extends the repeated range by one. */
  lemma RepeatStep(s: seq<int>, s': seq<int>, R: int, i: int)
    requires 0 <= i && 0 <= R && i + R < |s| && s' == s[i + R := s[i]]
    requires forall q :: R <= q < R + i ==> Repeats(s, R, q)
    ensures forall q :: R <= q < R + i + 1 ==> Repeats(s', R, q)
  {
    forall q | R <= q < R + i + 1
      ensures Repeats(s', R, q)
    {
      if q < R + i {
        assert Repeats(s, R, q);
      }
    }
  }

  /** Rows of the first block lie below rowStarts[NN], so they survive a change above it. */
  lemma KeepFirstBlock(rows: seq<seq<int>>, rss: seq<int>, cs: seq<int>, rs: seq<int>, col: seq<int>, col': seq<int>)
    requires ReducedPattern(rows, rss, cs) && FullStarts(rows, rs)
    requires |col| == |col'| && 0 <= rs[|rows|] <= |col| && col'[..rs[|rows|]] == col[..rs[|rows|]]
    requires forall v :: 0 <= v < |rows| ==> FirstBlockRow(|rows|, rss, cs, rs, col, v)
    ensures forall v :: 0 <= v < |rows| ==> FirstBlockRow(|rows|, rss, cs, rs, col', v)
  {
    var R := rs[|rows|];
    forall v | 0 <= v < |rows|
      ensures FirstBlockRow(|rows|, rss, cs, rs, col', v)
    {
      assert FirstBlockRow(|rows|, rss, cs, rs, col, v);
      ReducedStartMonotone(rows, v + 1, |rows|);
      assert rs[v + 1] <= R;
      assert col[rs[v]..rs[v + 1]] == col[..R][rs[v]..rs[v + 1]];
      assert col'[rs[v]..rs[v + 1]] == col'[..R][rs[v]..rs[v + 1]];
    }
  }

  /** The end of the last full row is four times the end of the first row block. */
  lemma FullStartLast(rows: seq<seq<int>>)
    ensures FullStart(rows, 4 * |rows|) == 4 * FullStart(rows, |rows|)
  {
    var n := |rows|;
    if n > 0 {
      FullStartLater(rows, 4 * n);
      FullStartLater(rows, 3 * n);
      FullStartLater(rows, 2 * n);
    }
  }

  /** val: n values, all zero. */
  method ZeroValues(n: int) returns (val: array<real>)
    requires 0 <= n
    ensures fresh(val) && val.Length == n
    ensures forall p :: 0 <= p < n ==> val[p] == 0.0
  {
    val := new real[n];
    for i := 0 to n
      invariant forall p :: 0 <= p < i ==> val[p] == 0.0
    {
      val[i] := 0.0;
    }
  }

  /**
   * The whole pattern builder: the reduced pattern, the full pattern built
   * from it and the zeroed value array.
   */
  method CompressedSparseRowStorage(m: Mesh)
    returns (rowStarts: array<int>, rowStartsSmall: array<int>, colSmall: array<int>, col: array<int>, val: array<real>)
    requires Valid(m) && WithinBounds(m)
    ensures Pattern(ReducedRows(m), rowStartsSmall[..], colSmall[..], rowStarts[..], col[..])
    ensures val.Length == col.Length && forall p :: 0 <= p < val.Length ==> val[p] == 0.0
  {
    ghost var rows := ReducedRows(m);
    rowStarts, rowStartsSmall, colSmall := ReducedStorage(m);
    col := FullColumns(m.nn, rowStarts, rowStartsSmall, colSmall, rows);
    val := ZeroValues(col.Length);
  }

  /**
   * GtoL, the first pass (row lengths), the row starts and the second pass
   * (sorted reduced rows).
   */
  method ReducedStorage(m: Mesh) returns (rowStarts: array<int>, rowStartsSmall: array<int>, colSmall: array<int>)
    requires Valid(m) && WithinBounds(m)
    ensures fresh(rowStarts) && fresh(rowStartsSmall) && fresh(colSmall)
    ensures rowStarts != rowStartsSmall
    ensures ReducedPattern(ReducedRows(m), rowStartsSmall[..], colSmall[..])
    ensures FullStarts(ReducedRows(m), rowStarts[..])
  {
    ghost var rows := ReducedRows(m);
    ghost var incs := Incidences(m);
    var nn := m.nn;
    var gtoL := BuildIncidence(m);
    TableRows(m, gtoL);
    rowStarts := CountReduced(m.ltoG, gtoL, incs, rows);
    rowStartsSmall := ExpandStarts(nn, rowStarts, rows);
    assert rowStarts[nn] == 4 * rowStartsSmall[nn];
    colSmall := new int[rowStarts[nn] / 4];
    FillReducedColumns(m.ltoG, gtoL, incs, rows, rowStartsSmall, colSmall);
  }

  /** The col build over the first row block, then its copy over the three later row blocks. */
  method FullColumns(nn: int, rowStarts: array<int>, rowStartsSmall: array<int>, colSmall: array<int>,
                     ghost rows: seq<seq<int>>) returns (col: array<int>)
    requires nn == |rows| && ReducedPattern(rows, rowStartsSmall[..], colSmall[..])
    requires FullStarts(rows, rowStarts[..])
    ensures fresh(col)
    ensures Pattern(rows, rowStartsSmall[..], colSmall[..], rowStarts[..], col[..])
  {
    ghost var rs := rowStarts[..];
    FullStartLast(rows);
    ReducedStartMonotone(rows, 0, nn);
    col := new int[rowStarts[4 * nn]];
    BuildFirstBlock(nn, rowStartsSmall, colSmall, col, rows, rs);
    ghost var first := col[..];
    RepeatBlocks(col, rowStarts[nn]);
    KeepFirstBlock(rows, rowStartsSmall[..], colSmall[..], rs, first, col[..]);
  }
}
