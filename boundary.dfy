/**
 * applyBC: essential boundary conditions imposed by the penalty method. The
 * row of every constrained unknown is zeroed in both the dense K and the
 * compressed val, bigNumber is written on its diagonal, and F receives the
 * prescribed value times bigNumber. Velocity conditions constrain the u, v
 * and w unknowns of their node, pressure conditions the p unknown.
 */
module Boundary {
  import opened Csr
  import opened Assembly
  import System
  import Sums
  import Gauss

  /** bigNumber: the penalty that applyBC writes on the diagonal of a constrained row. */
  const BigNumber: real := 1000.0

  datatype Option<T> = None | Some(value: T)

  /** One entry of velNodes or pressureNodes: a node and the number, counted from 1, of its boundary condition. */
  datatype Condition = Condition(node: int, which: int)

  /** velNodes, pressureNodes and BCstrings, the three values of every boundary condition. */
  datatype Conditions = Conditions(velocity: seq<Condition>, pressure: seq<Condition>, values: seq<seq<real>>)

  /** Condition c names a node among nn and one of the boundary conditions in values. */
  predicate Names(c: Condition, nn: int, values: seq<seq<real>>)
  {
    0 <= c.node < nn && 1 <= c.which <= |values|
  }

  /** Every condition names a node and a boundary condition, and every boundary condition has three values. */
  predicate WellFormed(bc: Conditions, nn: int)
  {
    && (forall k :: 0 <= k < |bc.values| ==> |bc.values[k]| == 3)
    && (forall i :: 0 <= i < |bc.velocity| ==> Names(bc.velocity[i], nn, bc.values))
    && (forall i :: 0 <= i < |bc.pressure| ==> Names(bc.pressure[i], nn, bc.values))
  }

  /** Condition c constrains full row r: r is one of the fields lo .. hi - 1 of c's node. */
  predicate Hits(c: Condition, lo: int, hi: int, nn: int, r: int)
  {
    c.node == NodeOf(r, nn) && lo <= BlockOf(r, nn) < hi
  }

  /**
   * The value condition c prescribes for the field of full row r, counted
   * from lo: BCstrings[which - 1][BlockOf(r) - lo]. A condition outside
   * WellFormed gives 0.
   */
  function ValueOf(c: Condition, values: seq<seq<real>>, lo: int, nn: int, r: int): real
  {
    var d := BlockOf(r, nn) - lo;
    if 1 <= c.which <= |values| && 0 <= d < |values[c.which - 1]| then values[c.which - 1][d] else 0.0
  }

  /**
   * The value the conditions conds prescribe for full row r, or None when
   * none of them hits r. Later conditions overwrite earlier ones, so the
   * last condition that hits r decides.
   */
  function Prescribed(conds: seq<Condition>, values: seq<seq<real>>, lo: int, hi: int, nn: int, r: int): Option<real>
    decreases |conds|
  {
    if conds == [] then None
    else if Hits(conds[|conds| - 1], lo, hi, nn, r) then Some(ValueOf(conds[|conds| - 1], values, lo, nn, r))
    else Prescribed(conds[..|conds| - 1], values, lo, hi, nn, r)
  }

  /** The value prescribed for full row r: velocity conditions fix the u, v and w rows, pressure conditions the p rows. */
  function Imposed(bc: Conditions, nn: int, r: int): Option<real>
  {
    if BlockOf(r, nn) < 3 then Prescribed(bc.velocity, bc.values, 0, 3, nn, r)
    else Prescribed(bc.pressure, bc.values, 3, 4, nn, r)
  }

  /** Entry (r, c) after the penalty: a constrained row keeps only bigNumber, on its diagonal. */
  function Penalized(k: real, p: Option<real>, r: int, c: int): real
  {
    if p.None? then k else if c == r then BigNumber else 0.0
  }

  /** Entry r of the right-hand side after the penalty: the prescribed value times bigNumber. */
  function Loaded(f: real, p: Option<real>): real
  {
    if p.None? then f else p.value * BigNumber
  }

  // ---------------------------------------------------------------------
  // Properties of the prescription.

  /**
   * A row is prescribed exactly when some condition hits it, and then by
   * the value of the last condition that hits it.
   */
  lemma {:induction false} PrescribedLast(conds: seq<Condition>, values: seq<seq<real>>, lo: int, hi: int, nn: int, r: int)
    ensures Prescribed(conds, values, lo, hi, nn, r).Some? <==> exists i :: 0 <= i < |conds| && Hits(conds[i], lo, hi, nn, r)
    ensures forall i :: 0 <= i < |conds| && Hits(conds[i], lo, hi, nn, r) && (forall j :: i < j < |conds| ==> !Hits(conds[j], lo, hi, nn, r)) ==>
      Prescribed(conds, values, lo, hi, nn, r) == Some(ValueOf(conds[i], values, lo, nn, r))
    decreases |conds|
  {
    if conds != [] {
      var n := |conds| - 1;
      var init := conds[..n];
      PrescribedLast(init, values, lo, hi, nn, r);
      assert forall i :: 0 <= i < n ==> init[i] == conds[i];
      if !Hits(conds[n], lo, hi, nn, r) {
        if Prescribed(conds, values, lo, hi, nn, r).Some? {
          var i :| 0 <= i < n && Hits(init[i], lo, hi, nn, r);
          assert Hits(conds[i], lo, hi, nn, r);
        }
      }
    }
  }

  /** No condition prescribes a row outside the fields lo .. hi - 1. */
  lemma {:induction false} PrescribedOutside(conds: seq<Condition>, values: seq<seq<real>>, lo: int, hi: int, nn: int, r: int)
    requires !(lo <= BlockOf(r, nn) < hi)
    ensures Prescribed(conds, values, lo, hi, nn, r) == None
    decreases |conds|
  {
    if conds != [] {
      PrescribedOutside(conds[..|conds| - 1], values, lo, hi, nn, r);
    }
  }

  /** One more condition: it decides the rows it hits and leaves the others as they were. */
  lemma PrescribedStep(conds: seq<Condition>, values: seq<seq<real>>, lo: int, hi: int, nn: int, i: int, r: int)
    requires 0 <= i < |conds|
    ensures Prescribed(conds[..i + 1], values, lo, hi, nn, r) ==
      if Hits(conds[i], lo, hi, nn, r) then Some(ValueOf(conds[i], values, lo, nn, r)) else Prescribed(conds[..i], values, lo, hi, nn, r)
  {
    assert conds[..i + 1][..i] == conds[..i];
  }

  /**
   * The velocity pass followed by the pressure pass is the penalty by the
   * imposed value: the two passes touch disjoint rows.
   */
  lemma PassesCompose(bc: Conditions, nn: int, k: real, f: real, r: int, c: int)
    ensures Penalized(Penalized(k, Prescribed(bc.velocity, bc.values, 0, 3, nn, r), r, c), Prescribed(bc.pressure, bc.values, 3, 4, nn, r), r, c)
      == Penalized(k, Imposed(bc, nn, r), r, c)
    ensures Loaded(Loaded(f, Prescribed(bc.velocity, bc.values, 0, 3, nn, r)), Prescribed(bc.pressure, bc.values, 3, 4, nn, r))
      == Loaded(f, Imposed(bc, nn, r))
  {
    if BlockOf(r, nn) < 3 {
      PrescribedOutside(bc.pressure, bc.values, 3, 4, nn, r);
    } else {
      PrescribedOutside(bc.velocity, bc.values, 0, 3, nn, r);
    }
  }

  /** Applying the penalty a second time changes nothing. */
  lemma PenaltyIdempotent(k: real, f: real, p: Option<real>, r: int, c: int)
    ensures Penalized(Penalized(k, p, r, c), p, r, c) == Penalized(k, p, r, c)
    ensures Loaded(Loaded(f, p), p) == Loaded(f, p)
  {
  }

  /**
   * The equation of a constrained row: row r of the penalized matrix times
   * u is bigNumber * u[r], so the equation of row r holds exactly when u[r]
   * is the prescribed value g, whatever the row held before.
   */
  lemma PenaltyEquation(n: nat, r: int, k: int -> real, f: real, g: real, u: int -> real)
    requires 0 <= r < n
    ensures Sums.Sum(n, c => Penalized(k(c), Some(g), r, c) * u(c)) == BigNumber * u(r)
    ensures Sums.Sum(n, c => Penalized(k(c), Some(g), r, c) * u(c)) == Loaded(f, Some(g)) <==> u(r) == g
  {
    var h := c => Penalized(k(c), Some(g), r, c) * u(c);
    forall t | 0 <= t < n && t != r
      ensures h(t) == 0.0
    {
      assert Penalized(k(t), Some(g), r, t) == 0.0;
    }
    Sums.SumSingle(n, h, r);
  }

  /** Entry c of s, and 0 outside s. */
  function At(s: seq<real>, c: int): real
  {
    if 0 <= c < |s| then s[c] else 0.0
  }

  /** The row dot product of the elimination is the sum of the products of the entries. */
  lemma {:induction false} DotRangeSum(row: seq<real>, x: seq<real>, n: nat)
    requires n <= |row| && n <= |x|
    ensures Gauss.DotRange(row, x, 0, n) == Sums.Sum(n, c => At(row, c) * At(x, c))
  {
    if n > 0 {
      DotRangeSum(row, x, n - 1);
    }
  }

  /**
   * A penalized row in the system handed to the solver: if row r of M is
   * bigNumber on the diagonal and zero elsewhere, and b[r] is g times
   * bigNumber, then every solution x of M x = b has x[r] == g.
   */
  lemma PenaltyExact(M: seq<seq<real>>, b: seq<real>, x: seq<real>, N: nat, r: int, g: real)
    requires Gauss.Solves(M, b, x, N) && 0 <= r < N
    requires forall c :: 0 <= c < N ==> M[r][c] == if c == r then BigNumber else 0.0
    requires b[r] == g * BigNumber
    ensures x[r] == g
  {
    var row := M[r];
    var u := c => At(x, c);
    var k := c => 0.0;
    DotRangeSum(row, x, N);
    assert forall c :: 0 <= c < N ==> At(row, c) == Penalized(k(c), Some(g), r, c);
    Sums.SumExt(N, c => At(row, c) * At(x, c), c => Penalized(k(c), Some(g), r, c) * u(c));
    PenaltyEquation(N, r, k, b[r], g, u);
  }

  /**
   * The diagonal slot of full row Unknown(v, d): with q the offset of v in
   * its own reduced row, position rowStarts[row] + d * len + q, len the
   * reduced row's length, lies in the row and holds column row; it is the
   * only position of the row that does.
   */
  lemma DiagonalSlot(rows: seq<seq<int>>, rss: seq<int>, cs: seq<int>, rs: seq<int>, col: seq<int>, v: int, d: int, q: int,
                      row: int, pos: int)
    requires SparseFrame(rows, rss, cs, rs, col)
    requires 0 <= v < |rows| && 0 <= d < 4 && OffsetOf(rss, cs, v, q, v)
    requires row == Unknown(v, d, |rows|) && 0 <= row < |rs| && pos == rs[row] + d * RowLength(rss, v) + q
    ensures InRow(rs, row, pos) && col[pos] == row
    ensures forall p :: InRow(rs, row, p) ==> (p == pos <==> col[p] == row)
  {
    SlotColumn(rows, rss, cs, rs, col, v, d, q);
    forall p | InRow(rs, row, p)
      ensures p == pos <==> col[p] == row
    {
      if col[p] == row {
        SameColumnSamePosition(rows, rss, cs, rs, col, row, p, pos);
      }
    }
  }


  /** The position of the diagonal slot lies in its row and holds the row's own column. */
  lemma SlotColumn(rows: seq<seq<int>>, rss: seq<int>, cs: seq<int>, rs: seq<int>, col: seq<int>, v: int, d: int, q: int)
    requires SparseFrame(rows, rss, cs, rs, col)
    requires 0 <= v < |rows| && 0 <= d < 4 && OffsetOf(rss, cs, v, q, v)
    ensures 0 <= Unknown(v, d, |rows|) < 4 * |rows|
    ensures InRow(rs, Unknown(v, d, |rows|), rs[Unknown(v, d, |rows|)] + d * RowLength(rss, v) + q)
    ensures col[rs[Unknown(v, d, |rows|)] + d * RowLength(rss, v) + q] == Unknown(v, d, |rows|)
  {
    var nn := |rows|;
    var row := Unknown(v, d, nn);
    UnknownParts(v, d, nn);
    assert NodeOf(row, nn) == v;
    FullRowLayout(rows, rss, cs, rs, col, row);
    FullColumnAt(rows, rss, cs, rs, col, row, d, q);
  }

  // ---------------------------------------------------------------------
  // The dense passes.

  /**
   * One constrained row of the dense system: F[row] becomes value *
   * bigNumber, the row of K is zeroed over all Ndof columns, and bigNumber
   * goes on its diagonal.
   */
  method PenalizeRow(K: array2<real>, F: array<real>, row: int, value: real)
    requires K.Length0 == F.Length && 0 <= row < F.Length && row < K.Length1
    modifies K, F
    ensures forall r, c :: 0 <= r < K.Length0 && 0 <= c < K.Length1 ==>
      K[r, c] == Penalized(old(K[r, c]), if r == row then Some(value) else None, r, c)
    ensures forall r :: 0 <= r < F.Length ==> F[r] == Loaded(old(F[r]), if r == row then Some(value) else None)
  {
    F[row] := value * BigNumber;
    for j := 0 to K.Length1
      invariant forall r, c :: 0 <= r < K.Length0 && 0 <= c < K.Length1 ==> K[r, c] == if r == row && c < j then 0.0 else old(K[r, c])
      invariant forall r :: 0 <= r < F.Length ==> F[r] == if r == row then value * BigNumber else old(F[r])
    {
      K[row, j] := 0.0;
    }
    K[row, row] := BigNumber;
  }

  /** The sizes of the dense system over nn nodes. */
  predicate DenseSized(K: array2<real>, F: array<real>, nn: int)
  {
    K.Length0 == 4 * nn && K.Length1 == 4 * nn && F.Length == 4 * nn
  }

  /** One velocity condition on the dense system: the u, v and w rows of its node. */
  method PenalizeVelocity(K: array2<real>, F: array<real>, c: Condition, values: seq<seq<real>>, nn: int)
    requires DenseSized(K, F, nn) && Names(c, nn, values) && |values[c.which - 1]| == 3
    modifies K, F
    ensures forall r, k :: 0 <= r < 4 * nn && 0 <= k < 4 * nn ==>
      K[r, k] == if Hits(c, 0, 3, nn, r) then Penalized(old(K[r, k]), Some(ValueOf(c, values, 0, nn, r)), r, k) else old(K[r, k])
    ensures forall r :: 0 <= r < 4 * nn ==>
      F[r] == if Hits(c, 0, 3, nn, r) then Loaded(old(F[r]), Some(ValueOf(c, values, 0, nn, r))) else old(F[r])
  {
    var node := c.node;
    var whichBC := c.which - 1;
    PenalizeRow(K, F, node, values[whichBC][0]);
    PenalizeRow(K, F, node + nn, values[whichBC][1]);
    PenalizeRow(K, F, node + nn * 2, values[whichBC][2]);
  }

  /** One pressure condition on the dense system: the p row of its node. */
  method PenalizePressure(K: array2<real>, F: array<real>, c: Condition, values: seq<seq<real>>, nn: int)
    requires DenseSized(K, F, nn) && Names(c, nn, values) && |values[c.which - 1]| == 3
    modifies K, F
    ensures forall r, k :: 0 <= r < 4 * nn && 0 <= k < 4 * nn ==>
      K[r, k] == if Hits(c, 3, 4, nn, r) then Penalized(old(K[r, k]), Some(ValueOf(c, values, 3, nn, r)), r, k) else old(K[r, k])
    ensures forall r :: 0 <= r < 4 * nn ==>
      F[r] == if Hits(c, 3, 4, nn, r) then Loaded(old(F[r]), Some(ValueOf(c, values, 3, nn, r))) else old(F[r])
  {
    var node := c.node;
    var whichBC := c.which - 1;
    PenalizeRow(K, F, node + nn * 3, values[whichBC][0]);
  }

  /** The dense velocity pass: every velocity condition in the order of velNodes. */
  method PenalizeVelocities(K: array2<real>, F: array<real>, conds: seq<Condition>, values: seq<seq<real>>, nn: int)
    requires DenseSized(K, F, nn)
    requires forall i :: 0 <= i < |conds| ==> Names(conds[i], nn, values)
    requires forall k :: 0 <= k < |values| ==> |values[k]| == 3
    modifies K, F
    ensures forall r, c :: 0 <= r < 4 * nn && 0 <= c < 4 * nn ==>
      K[r, c] == Penalized(old(K[r, c]), Prescribed(conds, values, 0, 3, nn, r), r, c)
    ensures forall r :: 0 <= r < 4 * nn ==> F[r] == Loaded(old(F[r]), Prescribed(conds, values, 0, 3, nn, r))
  {
    for i := 0 to |conds|
      invariant forall r, c :: 0 <= r < 4 * nn && 0 <= c < 4 * nn ==>
        K[r, c] == Penalized(old(K[r, c]), Prescribed(conds[..i], values, 0, 3, nn, r), r, c)
      invariant forall r :: 0 <= r < 4 * nn ==> F[r] == Loaded(old(F[r]), Prescribed(conds[..i], values, 0, 3, nn, r))
    {
      PenalizeVelocity(K, F, conds[i], values, nn);
      forall r | 0 <= r < 4 * nn
        ensures Prescribed(conds[..i + 1], values, 0, 3, nn, r) ==
          if Hits(conds[i], 0, 3, nn, r) then Some(ValueOf(conds[i], values, 0, nn, r)) else Prescribed(conds[..i], values, 0, 3, nn, r)
      {
        PrescribedStep(conds, values, 0, 3, nn, i, r);
      }
    }
    assert conds[..|conds|] == conds;
  }

  /** The dense pressure pass: every pressure condition in the order of pressureNodes. */
  method PenalizePressures(K: array2<real>, F: array<real>, conds: seq<Condition>, values: seq<seq<real>>, nn: int)
    requires DenseSized(K, F, nn)
    requires forall i :: 0 <= i < |conds| ==> Names(conds[i], nn, values)
    requires forall k :: 0 <= k < |values| ==> |values[k]| == 3
    modifies K, F
    ensures forall r, c :: 0 <= r < 4 * nn && 0 <= c < 4 * nn ==>
      K[r, c] == Penalized(old(K[r, c]), Prescribed(conds, values, 3, 4, nn, r), r, c)
    ensures forall r :: 0 <= r < 4 * nn ==> F[r] == Loaded(old(F[r]), Prescribed(conds, values, 3, 4, nn, r))
  {
    for i := 0 to |conds|
      invariant forall r, c :: 0 <= r < 4 * nn && 0 <= c < 4 * nn ==>
        K[r, c] == Penalized(old(K[r, c]), Prescribed(conds[..i], values, 3, 4, nn, r), r, c)
      invariant forall r :: 0 <= r < 4 * nn ==> F[r] == Loaded(old(F[r]), Prescribed(conds[..i], values, 3, 4, nn, r))
    {
      PenalizePressure(K, F, conds[i], values, nn);
      forall r | 0 <= r < 4 * nn
        ensures Prescribed(conds[..i + 1], values, 3, 4, nn, r) ==
          if Hits(conds[i], 3, 4, nn, r) then Some(ValueOf(conds[i], values, 3, nn, r)) else Prescribed(conds[..i], values, 3, 4, nn, r)
      {
        PrescribedStep(conds, values, 3, 4, nn, i, r);
      }
    }
    assert conds[..|conds|] == conds;
  }

  // ---------------------------------------------------------------------
  // The compressed passes.

  /** The pattern arrays hold the pattern of frame f, and val fits its col. */
  ghost predicate Holds(f: System.PatternFrame, rowStarts: array<int>, rowStartsSmall: array<int>, colSmall: array<int>, val: array<real>)
    reads rowStarts, rowStartsSmall, colSmall
  {
    rowStarts[..] == f.starts && rowStartsSmall[..] == f.startsSmall && colSmall[..] == f.columnsSmall && val.Length == |f.columns|
  }

  /** Positions first .. last - 1 of val zeroed, then bigNumber written at pos. */
  method ResetRange(val: array<real>, first: int, last: int, pos: int)
    requires 0 <= first <= pos < last <= val.Length
    modifies val
    ensures forall p :: 0 <= p < val.Length ==> val[p] == if first <= p < last then (if p == pos then BigNumber else 0.0) else old(val[p])
  {
    for j := first to last
      invariant forall p :: 0 <= p < val.Length ==> val[p] == if first <= p < j then 0.0 else old(val[p])
    {
      val[j] := 0.0;
    }
    val[pos] := BigNumber;
  }

  /**
   * One constrained row of val, the row of field d of node: the positions
   * of the row zeroed, and bigNumber written at offset d * len + q, where
   * len is the length of the node's reduced row and q the offset of the
   * node in it. That slot is the row's diagonal, so every position of the
   * row ends as the penalized entry at its column; other rows keep their
   * values.
   */
  method PenalizeStoredRow(val: array<real>, rowStarts: array<int>, rowStartsSmall: array<int>, colSmall: array<int>,
                           node: int, d: int, q: int, nn: int, ghost f: System.PatternFrame)
    requires Holds(f, rowStarts, rowStartsSmall, colSmall, val) && nn == |f.rows|
    requires 0 <= node < nn && 0 <= d < 4 && OffsetOf(f.startsSmall, f.columnsSmall, node, q, node)
    modifies val
    ensures forall r, p {:trigger InRow(f.starts, r, p)} :: InRow(f.starts, r, p) ==>
      val[p] == if r == Unknown(node, d, nn) then (if f.columns[p] == r then BigNumber else 0.0) else old(val[p])
  {
    ghost var rs, col := f.starts, f.columns;
    var row := node + d * nn;
    var len := rowStartsSmall[node + 1] - rowStartsSmall[node];
    UnknownParts(node, d, nn);
    FullRowLayout(f.rows, f.startsSmall, f.columnsSmall, rs, col, row);
    var pos := rowStarts[row] + d * len + q;
    DiagonalSlot(f.rows, f.startsSmall, f.columnsSmall, rs, col, node, d, q, row, pos);
    ResetRange(val, rowStarts[row], rowStarts[row + 1], pos);
    RowReset(f.rows, f.startsSmall, f.columnsSmall, rs, col, row, pos, old(val[..]), val[..]);
  }

  /**
   * Zeroing the range of positions of full row `row` and writing bigNumber
   * at its diagonal slot pos leaves, at every position of the pattern, the
   * penalized entry of its row and column.
   */
  lemma RowReset(rows: seq<seq<int>>, rss: seq<int>, cs: seq<int>, rs: seq<int>, col: seq<int>, row: int, pos: int,
                 before: seq<real>, after: seq<real>)
    requires SparseFrame(rows, rss, cs, rs, col)
    requires 0 <= row < 4 * |rows| && |before| == |col| && |after| == |col|
    requires forall p :: InRow(rs, row, p) ==> (p == pos <==> col[p] == row)
    requires forall p :: 0 <= p < |after| ==>
      after[p] == if rs[row] <= p < rs[row + 1] then (if p == pos then BigNumber else 0.0) else before[p]
    ensures forall r, p {:trigger InRow(rs, r, p)} :: InRow(rs, r, p) ==>
      0 <= p < |after| && after[p] == if r == row then (if col[p] == row then BigNumber else 0.0) else before[p]
  {
    forall r, p | InRow(rs, r, p)
      ensures 0 <= p < |after| && after[p] == if r == row then (if col[p] == row then BigNumber else 0.0) else before[p]
    {
      if r != row && InRow(rs, row, p) {
        RowOfPosition(rows, rss, cs, rs, col, r, row, p);
      }
    }
  }

  /** Full row r is the unknown of its node and field. */
  lemma UnknownOf(r: int, nn: int)
    requires 0 <= r < 4 * nn
    ensures 0 <= NodeOf(r, nn) < nn && 0 <= BlockOf(r, nn) < 4
    ensures r == Unknown(NodeOf(r, nn), BlockOf(r, nn), nn)
  {
  }

  /**
   * The scan of the reduced row of node v for v itself: it always
   * succeeds, because every node is in its own reduced row.
   */
  method FindDiagonal(rowStartsSmall: array<int>, colSmall: array<int>, v: int, ghost f: System.PatternFrame) returns (q: int)
    requires rowStartsSmall[..] == f.startsSmall && colSmall[..] == f.columnsSmall && 0 <= v < |f.rows|
    ensures OffsetOf(f.startsSmall, f.columnsSmall, v, q, v)
  {
    ghost var rows, rss, cs := f.rows, f.startsSmall, f.columnsSmall;
    assert v in rows[v];
    assert ReducedRowAt(rows, rss, cs, v);
    SortedRowFacts(rows[v], cs[rss[v]..rss[v + 1]], |rows|);
    var found;
    found, q := FindOffset(colSmall, rowStartsSmall[v], rowStartsSmall[v + 1], v);
  }

  /** One velocity condition on val: the u, v and w rows of its node. */
  method PenalizeStoredVelocity(val: array<real>, rowStarts: array<int>, rowStartsSmall: array<int>, colSmall: array<int>,
                                c: Condition, nn: int, ghost values: seq<seq<real>>, ghost f: System.PatternFrame)
    requires Holds(f, rowStarts, rowStartsSmall, colSmall, val) && nn == |f.rows| && 0 <= c.node < nn
    modifies val
    ensures forall r, p {:trigger InRow(f.starts, r, p)} :: InRow(f.starts, r, p) ==>
      val[p] == if Hits(c, 0, 3, nn, r) then Penalized(old(val[p]), Some(ValueOf(c, values, 0, nn, r)), r, f.columns[p]) else old(val[p])
  {
    var node := c.node;
    var q := FindDiagonal(rowStartsSmall, colSmall, node, f);
    PenalizeStoredRow(val, rowStarts, rowStartsSmall, colSmall, node, 0, q, nn, f);
    PenalizeStoredRow(val, rowStarts, rowStartsSmall, colSmall, node, 1, q, nn, f);
    PenalizeStoredRow(val, rowStarts, rowStartsSmall, colSmall, node, 2, q, nn, f);
    forall r, p | InRow(f.starts, r, p)
      ensures val[p] == if Hits(c, 0, 3, nn, r) then Penalized(old(val[p]), Some(ValueOf(c, values, 0, nn, r)), r, f.columns[p]) else old(val[p])
    {
      UnknownOf(r, nn);
    }
  }

  /** One pressure condition on val: the p row of its node. */
  method PenalizeStoredPressure(val: array<real>, rowStarts: array<int>, rowStartsSmall: array<int>, colSmall: array<int>,
                                c: Condition, nn: int, ghost values: seq<seq<real>>, ghost f: System.PatternFrame)
    requires Holds(f, rowStarts, rowStartsSmall, colSmall, val) && nn == |f.rows| && 0 <= c.node < nn
    modifies val
    ensures forall r, p {:trigger InRow(f.starts, r, p)} :: InRow(f.starts, r, p) ==>
      val[p] == if Hits(c, 3, 4, nn, r) then Penalized(old(val[p]), Some(ValueOf(c, values, 3, nn, r)), r, f.columns[p]) else old(val[p])
  {
    var node := c.node;
    var q := FindDiagonal(rowStartsSmall, colSmall, node, f);
    PenalizeStoredRow(val, rowStarts, rowStartsSmall, colSmall, node, 3, q, nn, f);
    forall r, p | InRow(f.starts, r, p)
      ensures val[p] == if Hits(c, 3, 4, nn, r) then Penalized(old(val[p]), Some(ValueOf(c, values, 3, nn, r)), r, f.columns[p]) else old(val[p])
    {
      UnknownOf(r, nn);
    }
  }

  /** The compressed velocity pass: every velocity condition in the order of velNodes. */
  method PenalizeStoredVelocities(val: array<real>, rowStarts: array<int>, rowStartsSmall: array<int>, colSmall: array<int>,
                                  conds: seq<Condition>, nn: int, ghost values: seq<seq<real>>, ghost f: System.PatternFrame)
    requires Holds(f, rowStarts, rowStartsSmall, colSmall, val) && nn == |f.rows|
    requires forall i :: 0 <= i < |conds| ==> 0 <= conds[i].node < nn
    modifies val
    ensures forall r, p {:trigger InRow(f.starts, r, p)} :: InRow(f.starts, r, p) ==>
      val[p] == Penalized(old(val[p]), Prescribed(conds, values, 0, 3, nn, r), r, f.columns[p])
  {
    for i := 0 to |conds|
      invariant forall r, p {:trigger InRow(f.starts, r, p)} :: InRow(f.starts, r, p) ==>
        val[p] == Penalized(old(val[p]), Prescribed(conds[..i], values, 0, 3, nn, r), r, f.columns[p])
    {
      PenalizeStoredVelocity(val, rowStarts, rowStartsSmall, colSmall, conds[i], nn, values, f);
      forall r, p | InRow(f.starts, r, p)
        ensures Prescribed(conds[..i + 1], values, 0, 3, nn, r) ==
          if Hits(conds[i], 0, 3, nn, r) then Some(ValueOf(conds[i], values, 0, nn, r)) else Prescribed(conds[..i], values, 0, 3, nn, r)
      {
        PrescribedStep(conds, values, 0, 3, nn, i, r);
      }
    }
    assert conds[..|conds|] == conds;
  }

  /** The compressed pressure pass: every pressure condition in the order of pressureNodes. */
  method PenalizeStoredPressures(val: array<real>, rowStarts: array<int>, rowStartsSmall: array<int>, colSmall: array<int>,
                                 conds: seq<Condition>, nn: int, ghost values: seq<seq<real>>, ghost f: System.PatternFrame)
    requires Holds(f, rowStarts, rowStartsSmall, colSmall, val) && nn == |f.rows|
    requires forall i :: 0 <= i < |conds| ==> 0 <= conds[i].node < nn
    modifies val
    ensures forall r, p {:trigger InRow(f.starts, r, p)} :: InRow(f.starts, r, p) ==>
      val[p] == Penalized(old(val[p]), Prescribed(conds, values, 3, 4, nn, r), r, f.columns[p])
  {
    for i := 0 to |conds|
      invariant forall r, p {:trigger InRow(f.starts, r, p)} :: InRow(f.starts, r, p) ==>
        val[p] == Penalized(old(val[p]), Prescribed(conds[..i], values, 3, 4, nn, r), r, f.columns[p])
    {
      PenalizeStoredPressure(val, rowStarts, rowStartsSmall, colSmall, conds[i], nn, values, f);
      forall r, p | InRow(f.starts, r, p)
        ensures Prescribed(conds[..i + 1], values, 3, 4, nn, r) ==
          if Hits(conds[i], 3, 4, nn, r) then Some(ValueOf(conds[i], values, 3, nn, r)) else Prescribed(conds[..i], values, 3, 4, nn, r)
      {
        PrescribedStep(conds, values, 3, 4, nn, i, r);
      }
    }
    assert conds[..|conds|] == conds;
  }

  // ---------------------------------------------------------------------
  // applyBC.

  /**
   * applyBC on the global system: the dense velocity and pressure passes,
   * then the compressed velocity and pressure passes. Every constrained row
   * of K and of val keeps only bigNumber, on its diagonal; F of a
   * constrained row is the prescribed value times bigNumber; all other rows
   * are unchanged, and val is still the compressed form of K.
   */
  method ApplyBC(sys: System.GlobalSystem, bc: Conditions)
    requires sys.Valid() && WellFormed(bc, sys.nn)
    modifies sys.K, sys.F, sys.val
    ensures sys.Valid()
    ensures forall r, c :: 0 <= r < 4 * sys.nn && 0 <= c < 4 * sys.nn ==>
      sys.K[r, c] == Penalized(old(sys.K[r, c]), Imposed(bc, sys.nn, r), r, c)
    ensures forall r :: 0 <= r < 4 * sys.nn ==> sys.F[r] == Loaded(old(sys.F[r]), Imposed(bc, sys.nn, r))
    ensures forall r, p {:trigger InRow(sys.starts, r, p)} :: InRow(sys.starts, r, p) && 0 <= p < |sys.columns| ==>
      sys.val[p] == Penalized(old(sys.val[p]), Imposed(bc, sys.nn, r), r, sys.columns[p])
    ensures forall x :: Gauss.Solves(Gauss.Entries(sys.K), sys.F[..], x, 4 * sys.nn) ==>
      forall r :: 0 <= r < 4 * sys.nn && Imposed(bc, sys.nn, r).Some? ==> x[r] == Imposed(bc, sys.nn, r).value
  {
    assert System.Framed(sys.frame);
    ghost var f: System.PatternFrame := sys.frame;
    var nn := sys.nn;
    PenalizeVelocities(sys.K, sys.F, bc.velocity, bc.values, nn);
    PenalizePressures(sys.K, sys.F, bc.pressure, bc.values, nn);
    PenalizeStoredVelocities(sys.val, sys.rowStarts, sys.rowStartsSmall, sys.colSmall, bc.velocity, nn, bc.values, f);
    PenalizeStoredPressures(sys.val, sys.rowStarts, sys.rowStartsSmall, sys.colSmall, bc.pressure, nn, bc.values, f);
    forall r, c | 0 <= r < 4 * nn && 0 <= c < 4 * nn
      ensures sys.K[r, c] == Penalized(old(sys.K[r, c]), Imposed(bc, nn, r), r, c)
    {
      PassesCompose(bc, nn, old(sys.K[r, c]), 0.0, r, c);
    }
    forall r | 0 <= r < 4 * nn
      ensures sys.F[r] == Loaded(old(sys.F[r]), Imposed(bc, nn, r))
    {
      PassesCompose(bc, nn, 0.0, old(sys.F[r]), r, r);
    }
    forall r, p | InRow(sys.starts, r, p)
      ensures sys.val[p] == Penalized(old(sys.val[p]), Imposed(bc, nn, r), r, sys.columns[p])
    {
      PassesCompose(bc, nn, old(sys.val[p]), 0.0, r, sys.columns[p]);
    }
    SolutionsImposed(sys.K, sys.F, bc, nn);
  }

  /**
   * After the penalty, every solution of K x = F takes the prescribed value
   * at every constrained unknown.
   */
  lemma SolutionsImposed(K: array2<real>, F: array<real>, bc: Conditions, nn: int)
    requires K.Length0 == 4 * nn && K.Length1 == 4 * nn && F.Length == 4 * nn
    requires forall r, c :: 0 <= r < 4 * nn && 0 <= c < 4 * nn && Imposed(bc, nn, r).Some? ==>
      K[r, c] == if c == r then BigNumber else 0.0
    requires forall r :: 0 <= r < 4 * nn && Imposed(bc, nn, r).Some? ==> F[r] == Imposed(bc, nn, r).value * BigNumber
    ensures forall x :: Gauss.Solves(Gauss.Entries(K), F[..], x, 4 * nn) ==>
      forall r :: 0 <= r < 4 * nn && Imposed(bc, nn, r).Some? ==> x[r] == Imposed(bc, nn, r).value
  {
    forall x, r | Gauss.Solves(Gauss.Entries(K), F[..], x, 4 * nn) && 0 <= r < 4 * nn && Imposed(bc, nn, r).Some?
      ensures x[r] == Imposed(bc, nn, r).value
    {
      PenaltyExact(Gauss.Entries(K), F[..], x, 4 * nn, r, Imposed(bc, nn, r).value);
    }
  }
}
