/**
 * The compressed-sparse-row pattern of the global system. The reduced
 * pattern (rowStartsSmall, colSmall) has one sorted row per node; the full
 * pattern (rowStarts, col) replicates it for the four unknowns u, v, w, p
 * of every node, both across row blocks and across column blocks.
 */
module Csr {
  import opened Mesh
  import Sums

  predicate StrictlyIncreasing(s: seq<int>)
  {
    forall i, j :: 0 <= i < j < |s| ==> s[i] < s[j]
  }

  /** Every entry of s lies in [lo, hi). */
  ghost predicate Within(s: seq<int>, lo: int, hi: int)
  {
    forall t :: 0 <= t < |s| ==> lo <= s[t] < hi
  }

  /**
   * The pattern is described in terms of the reduced rows of the nodes,
   * rows[v] for v < NN; for a mesh these are ReducedRow(m, v).
   */
  ghost predicate RowsOf(m: Mesh, rows: seq<seq<int>>)
  {
    |rows| == m.nn && forall v :: 0 <= v < m.nn ==> rows[v] == ReducedRow(m, v)
  }

  /** What the pattern relies on about the reduced rows: distinct node numbers in [0, NN). */
  ghost predicate RowsWellFormed(rows: seq<seq<int>>)
  {
    forall v :: 0 <= v < |rows| ==> Distinct(rows[v]) && Within(rows[v], 0, |rows|)
  }

  /** seg is row sorted ascending: a strictly increasing permutation of it. */
  ghost predicate SortedRowOf(row: seq<int>, seg: seq<int>)
  {
    StrictlyIncreasing(seg) && multiset(seg) == multiset(row)
  }

  /** Where the reduced row of node v starts: the lengths of the reduced rows of nodes 0..v-1 added up. */
  function ReducedStart(rows: seq<seq<int>>, v: nat): nat
    requires v <= |rows|
  {
    if v == 0 then 0 else ReducedStart(rows, v - 1) + |rows[v - 1]|
  }

  /**
   * Where full row r starts: four times the reduced start in the first row
   * block (a reduced row becomes four column blocks), and rowStarts[NN] past
   * row r - NN in the later row blocks.
   */
  function FullStart(rows: seq<seq<int>>, r: nat): int
    decreases r
  {
    if r <= |rows| then 4 * ReducedStart(rows, r)
    else if |rows| == 0 then 0
    else FullStart(rows, |rows|) + FullStart(rows, r - |rows|)
  }

  /** rss is rowStartsSmall: the reduced row starts of all NN nodes and the end of the last row. */
  ghost predicate ReducedStarts(rows: seq<seq<int>>, rss: seq<int>)
  {
    |rss| == |rows| + 1 && forall v :: 0 <= v <= |rows| ==> rss[v] == ReducedStart(rows, v)
  }

  /** rs is rowStarts: the starts of all 4 * NN full rows and the end of the last one. */
  ghost predicate FullStarts(rows: seq<seq<int>>, rs: seq<int>)
  {
    |rs| == 4 * |rows| + 1 && forall r :: 0 <= r <= 4 * |rows| ==> rs[r] == FullStart(rows, r)
  }

  /** Reduced row v of cs is rows[v] sorted. */
  ghost predicate ReducedRowAt(rows: seq<seq<int>>, rss: seq<int>, cs: seq<int>, v: int)
    requires 0 <= v < |rows| && |rss| == |rows| + 1
  {
    0 <= rss[v] <= rss[v + 1] <= |cs| && SortedRowOf(rows[v], cs[rss[v]..rss[v + 1]])
  }

  /** rss and cs are the reduced CSR pattern (rowStartsSmall, colSmall). */
  ghost predicate ReducedPattern(rows: seq<seq<int>>, rss: seq<int>, cs: seq<int>)
  {
    && ReducedStarts(rows, rss)
    && |cs| == rss[|rows|]
    && (forall v :: 0 <= v < |rows| ==> ReducedRowAt(rows, rss, cs, v))
  }

  /** seg with d added to every entry. */
  function Shifted(seg: seq<int>, d: int): (r: seq<int>)
    ensures |r| == |seg|
    ensures forall t :: 0 <= t < |seg| ==> r[t] == seg[t] + d
  {
    seq(|seg|, t requires 0 <= t < |seg| => seg[t] + d)
  }

  /** A reduced row repeated for the column blocks of u, v, w and p: shifted by 0, NN, 2NN, 3NN. */
  function Expanded(seg: seq<int>, nn: int): seq<int>
  {
    seg + Shifted(seg, nn) + Shifted(seg, 2 * nn) + Shifted(seg, 3 * nn)
  }

  /**
   * The node of full row (or column) r: rows and columns come in four blocks
   * of NN, for u, v, w and p, and every block lists the nodes in order.
   */
  function NodeOf(r: int, nn: int): int
  {
    if r < nn then r else if r < 2 * nn then r - nn else if r < 3 * nn then r - 2 * nn else r - 3 * nn
  }

  /** The unknown (0 = u, 1 = v, 2 = w, 3 = p) of full row or column r. */
  function BlockOf(r: int, nn: int): int
  {
    if r < nn then 0 else if r < 2 * nn then 1 else if r < 3 * nn then 2 else 3
  }

  /** The unknown of block b (0 = u, 1 = v, 2 = w, 3 = p) at node v: v + b * NN. */
  function Unknown(v: int, b: int, nn: int): int
  {
    if b == 0 then v else if b == 1 then v + nn else if b == 2 then v + 2 * nn else v + 3 * nn
  }

  /** Unknown and (NodeOf, BlockOf) are inverse to each other. */
  lemma UnknownParts(v: int, b: int, nn: int)
    requires 0 <= v < nn && 0 <= b < 4
    ensures Unknown(v, b, nn) == v + nn * b
    ensures 0 <= Unknown(v, b, nn) < 4 * nn
    ensures NodeOf(Unknown(v, b, nn), nn) == v && BlockOf(Unknown(v, b, nn), nn) == b
  {
  }

  /** Position q of col repeats position q - period. */
  ghost predicate Repeats(col: seq<int>, period: int, q: int)
    requires 0 <= period <= q < |col|
  {
    col[q] == col[q - period]
  }

  /** Full row i of the first row block is the expanded reduced row i. */
  ghost predicate FirstBlockRow(nn: int, rss: seq<int>, cs: seq<int>, rs: seq<int>, col: seq<int>, i: int)
    requires 0 <= i < |rss| - 1 && i < |rs| - 1
  {
    && 0 <= rs[i] <= rs[i + 1] <= |col|
    && 0 <= rss[i] <= rss[i + 1] <= |cs|
    && col[rs[i]..rs[i + 1]] == Expanded(cs[rss[i]..rss[i + 1]], nn)
  }

  /**
   * The full pattern as the builder lays it out: the starts of the first NN
   * rows are four times the reduced starts, every later row block repeats the
   * first one offset by rowStarts[NN], the first NN rows of col are the
   * expanded reduced rows, and the rest of col repeats them with period
   * rowStarts[NN].
   */
  ghost predicate Pattern(rows: seq<seq<int>>, rss: seq<int>, cs: seq<int>, rs: seq<int>, col: seq<int>)
  {
    && ReducedPattern(rows, rss, cs)
    && FullLayout(rows, rs, col)
    && (forall i :: 0 <= i < |rows| ==> FirstBlockRow(|rows|, rss, cs, rs, col, i))
  }

  /** The row starts of the full pattern, and col repeating its first row block. */
  ghost predicate FullLayout(rows: seq<seq<int>>, rs: seq<int>, col: seq<int>)
  {
    && FullStarts(rows, rs)
    && 0 <= rs[|rows|]
    && |col| == 4 * rs[|rows|]
    && (forall q :: rs[|rows|] <= q < |col| ==> Repeats(col, rs[|rows|], q))
  }

  /** Length of the reduced row of node i as the pattern stores it. */
  function RowLength(rss: seq<int>, i: int): int
    requires 0 <= i < |rss| - 1
  {
    rss[i + 1] - rss[i]
  }

  /** A sorted row has the length and the members of the row it sorts. */
  lemma SortedRowFacts(row: seq<int>, seg: seq<int>, nn: int)
    requires SortedRowOf(row, seg) && Within(row, 0, nn)
    ensures |seg| == |row|
    ensures forall x :: x in seg <==> x in row
    ensures Within(seg, 0, nn)
  {
    assert |seg| == |multiset(seg)| == |multiset(row)| == |row|;
    forall x
      ensures x in seg <==> x in row
    {
      assert x in seg <==> x in multiset(seg);
      assert x in row <==> x in multiset(row);
    }
    forall t | 0 <= t < |seg|
      ensures 0 <= seg[t] < nn
    {
      assert seg[t] in row;
    }
  }

  /** The reduced row starts grow with the node number. */
  lemma {:induction false} ReducedStartMonotone(rows: seq<seq<int>>, i: nat, j: nat)
    requires i <= j <= |rows|
    ensures ReducedStart(rows, i) <= ReducedStart(rows, j)
    decreases j - i
  {
    if i < j {
      ReducedStartMonotone(rows, i, j - 1);
    }
  }

  /** The offset of the row block of full row r: 0, R, 2R or 3R with R = rowStarts[NN]. */
  function BlockOffset(r: int, nn: int, R: int): int
  {
    if r < nn then 0 else if r < 2 * nn then R else if r < 3 * nn then 2 * R else 3 * R
  }

  /** Closed form of the full row starts: the block offset plus four times the reduced start. */
  lemma {:induction false} FullStartClosed(rows: seq<seq<int>>, r: nat)
    requires r < 4 * |rows|
    ensures 0 <= NodeOf(r, |rows|) < |rows|
    ensures FullStart(rows, r) == BlockOffset(r, |rows|, FullStart(rows, |rows|)) + 4 * ReducedStart(rows, NodeOf(r, |rows|))
    ensures FullStart(rows, r + 1) == BlockOffset(r, |rows|, FullStart(rows, |rows|)) + 4 * ReducedStart(rows, NodeOf(r, |rows|) + 1)
    decreases r
  {
    if r >= |rows| {
      FullStartClosed(rows, r - |rows|);
    }
  }

  /**
   * Full row r lies in the row block of its node's full row i = NodeOf(r):
   * its start and end are those of row i plus the block offset.
   */
  lemma RowStarts(rows: seq<seq<int>>, rs: seq<int>, r: int)
    requires FullStarts(rows, rs)
    requires 0 <= r < 4 * |rows|
    ensures 0 <= NodeOf(r, |rows|) < |rows|
    ensures rs[r] == BlockOffset(r, |rows|, rs[|rows|]) + rs[NodeOf(r, |rows|)]
    ensures rs[r + 1] == BlockOffset(r, |rows|, rs[|rows|]) + rs[NodeOf(r, |rows|) + 1]
    ensures 0 <= rs[NodeOf(r, |rows|)] <= rs[NodeOf(r, |rows|) + 1] <= rs[|rows|]
    ensures 0 <= rs[r] <= rs[r + 1] <= 4 * rs[|rows|]
  {
    var nn := |rows|;
    FullStartClosed(rows, r);
    var i := NodeOf(r, nn);
    ReducedStartMonotone(rows, 0, i);
    ReducedStartMonotone(rows, i, i + 1);
    ReducedStartMonotone(rows, i + 1, nn);
    assert rs[i] == FullStart(rows, i) && rs[i + 1] == FullStart(rows, i + 1) && rs[nn] == FullStart(rows, nn);
    assert rs[r] == FullStart(rows, r) && rs[r + 1] == FullStart(rows, r + 1);
  }

  /** Full row r holds the same columns as full row NodeOf(r): col repeats with period rowStarts[NN]. */
  lemma RowRepeat(rows: seq<seq<int>>, rs: seq<int>, col: seq<int>, r: int)
    requires FullLayout(rows, rs, col)
    requires 0 <= r < 4 * |rows|
    ensures 0 <= NodeOf(r, |rows|) < |rows|
    ensures rs[r] == BlockOffset(r, |rows|, rs[|rows|]) + rs[NodeOf(r, |rows|)]
    ensures rs[r + 1] == BlockOffset(r, |rows|, rs[|rows|]) + rs[NodeOf(r, |rows|) + 1]
    ensures 0 <= rs[NodeOf(r, |rows|)] <= rs[NodeOf(r, |rows|) + 1] <= rs[|rows|]
    ensures 0 <= rs[r] <= rs[r + 1] <= |col|
    ensures col[rs[r]..rs[r + 1]] == col[rs[NodeOf(r, |rows|)]..rs[NodeOf(r, |rows|) + 1]]
  {
    RowStarts(rows, rs, r);
    var nn := |rows|;
    var i := NodeOf(r, nn);
    var R := rs[nn];
    var off := BlockOffset(r, nn, R);
    forall q | rs[i] <= q < rs[i + 1]
      ensures col[q + off] == col[q]
    {
      if r < nn {
      } else if r < 2 * nn {
        assert Repeats(col, R, q + R);
      } else if r < 3 * nn {
        assert Repeats(col, R, q + 2 * R);
        assert Repeats(col, R, q + R);
      } else {
        assert Repeats(col, R, q + 3 * R);
        assert Repeats(col, R, q + 2 * R);
        assert Repeats(col, R, q + R);
      }
    }
    assert col[rs[r]..rs[r + 1]] == col[rs[i]..rs[i + 1]];
  }

  /**
   * Full row r (of 4 * NN) is the expanded reduced row of node r mod NN:
   * 4 times as long, with the reduced columns shifted by 0, NN, 2NN, 3NN.
   */
  lemma FullRowLayout(rows: seq<seq<int>>, rss: seq<int>, cs: seq<int>, rs: seq<int>, col: seq<int>, r: int)
    requires Pattern(rows, rss, cs, rs, col)
    requires 0 <= r < 4 * |rows|
    ensures 0 <= NodeOf(r, |rows|) < |rows|
    ensures 0 <= rs[r] <= rs[r + 1] <= |col|
    ensures 0 <= rss[NodeOf(r, |rows|)] <= rss[NodeOf(r, |rows|) + 1] <= |cs|
    ensures rs[r + 1] - rs[r] == 4 * RowLength(rss, NodeOf(r, |rows|))
    ensures col[rs[r]..rs[r + 1]] == Expanded(cs[rss[NodeOf(r, |rows|)]..rss[NodeOf(r, |rows|) + 1]], |rows|)
  {
    RowRepeat(rows, rs, col, r);
    var i := NodeOf(r, |rows|);
    assert FirstBlockRow(|rows|, rss, cs, rs, col, i);
    assert rs[i] == FullStart(rows, i) == 4 * rss[i] && rs[i + 1] == FullStart(rows, i + 1) == 4 * rss[i + 1];
  }

  /** Concatenating increasing rows over adjacent ranges gives an increasing row. */
  lemma ConcatIncreasing(a: seq<int>, b: seq<int>, lo: int, mid: int, hi: int)
    requires lo <= mid <= hi
    requires StrictlyIncreasing(a) && Within(a, lo, mid)
    requires StrictlyIncreasing(b) && Within(b, mid, hi)
    ensures StrictlyIncreasing(a + b) && Within(a + b, lo, hi)
  {
    var ab := a + b;
    forall i, j | 0 <= i < j < |ab|
      ensures ab[i] < ab[j]
    {
      if j < |a| {
        assert ab[i] == a[i] && ab[j] == a[j];
      } else if i < |a| {
        assert ab[i] == a[i] && ab[j] == b[j - |a|];
      } else {
        assert ab[i] == b[i - |a|] && ab[j] == b[j - |a|];
      }
    }
    forall i | 0 <= i < |ab|
      ensures lo <= ab[i] < hi
    {
      if i < |a| {
        assert ab[i] == a[i];
      } else {
        assert ab[i] == b[i - |a|];
      }
    }
  }

  lemma ShiftedFacts(seg: seq<int>, nn: int, d: int)
    requires StrictlyIncreasing(seg) && Within(seg, 0, nn)
    ensures StrictlyIncreasing(Shifted(seg, d)) && Within(Shifted(seg, d), d, d + nn)
  {
  }

  lemma ShiftedMembers(seg: seq<int>, d: int, c: int)
    ensures c in Shifted(seg, d) <==> c - d in seg
  {
    var sh := Shifted(seg, d);
    if c in sh {
      var t :| 0 <= t < |sh| && sh[t] == c;
      assert seg[t] == c - d;
    }
    if c - d in seg {
      var t :| 0 <= t < |seg| && seg[t] == c - d;
      assert sh[t] == c;
    }
  }

  /** Expanding a strictly increasing row of nodes gives a strictly increasing row of unknowns. */
  lemma ExpandedSorted(seg: seq<int>, nn: int)
    requires 0 <= nn && StrictlyIncreasing(seg) && Within(seg, 0, nn)
    ensures StrictlyIncreasing(Expanded(seg, nn)) && Within(Expanded(seg, nn), 0, 4 * nn)
  {
    ShiftedFacts(seg, nn, nn);
    ShiftedFacts(seg, nn, 2 * nn);
    ShiftedFacts(seg, nn, 3 * nn);
    ConcatIncreasing(seg, Shifted(seg, nn), 0, nn, 2 * nn);
    ConcatIncreasing(seg + Shifted(seg, nn), Shifted(seg, 2 * nn), 0, 2 * nn, 3 * nn);
    ConcatIncreasing(seg + Shifted(seg, nn) + Shifted(seg, 2 * nn), Shifted(seg, 3 * nn), 0, 3 * nn, 4 * nn);
  }

  /** c is in the expanded row when c lies over a reduced entry in one of the four column blocks. */
  lemma ExpandedMembers(seg: seq<int>, nn: int, c: int)
    ensures c in Expanded(seg, nn) <==> c in seg || c - nn in seg || c - 2 * nn in seg || c - 3 * nn in seg
  {
    ShiftedMembers(seg, nn, c);
    ShiftedMembers(seg, 2 * nn, c);
    ShiftedMembers(seg, 3 * nn, c);
    var a, b := seg + Shifted(seg, nn), Shifted(seg, 2 * nn);
    assert c in Expanded(seg, nn) <==> c in a + b || c in Shifted(seg, 3 * nn);
    assert c in a + b <==> c in a || c in b;
  }

  /** An unknown is in the expanded row exactly when it is one of the 4 * nn unknowns and its node is in the reduced row. */
  lemma ExpandedNodes(seg: seq<int>, nn: int, c: int)
    requires 0 < nn && Within(seg, 0, nn)
    ensures c in Expanded(seg, nn) <==> 0 <= c < 4 * nn && NodeOf(c, nn) in seg
  {
    ExpandedMembers(seg, nn, c);
  }

  /** Entry t of column block b of an expanded row. */
  lemma ExpandedAt(seg: seq<int>, nn: int, b: int, t: int)
    requires 0 <= b < 4 && 0 <= t < |seg|
    ensures 0 <= b * |seg| + t < |Expanded(seg, nn)|
    ensures Expanded(seg, nn)[b * |seg| + t] == seg[t] + b * nn
  {
    var len := |seg|;
    var e := Expanded(seg, nn);
    assert |e| == 4 * len;
    if b == 0 {
      assert e[t] == seg[t];
    } else if b == 1 {
      assert e[len + t] == Shifted(seg, nn)[t];
    } else if b == 2 {
      assert e[2 * len + t] == Shifted(seg, 2 * nn)[t];
    } else {
      assert e[3 * len + t] == Shifted(seg, 3 * nn)[t];
    }
  }

  /** The column of entry t of column block b in full row r is the reduced column shifted by b * NN. */
  lemma FullColumnAt(rows: seq<seq<int>>, rss: seq<int>, cs: seq<int>, rs: seq<int>, col: seq<int>, r: int, b: int, t: int)
    requires Pattern(rows, rss, cs, rs, col)
    requires 0 <= r < 4 * |rows| && 0 <= b < 4 && (RowRepeat(rows, rs, col, r); 0 <= t < RowLength(rss, NodeOf(r, |rows|)))
    ensures 0 <= rs[r] + b * RowLength(rss, NodeOf(r, |rows|)) + t < rs[r + 1]
    ensures col[rs[r] + b * RowLength(rss, NodeOf(r, |rows|)) + t] == cs[rss[NodeOf(r, |rows|)] + t] + b * |rows|
  {
    FullRowLayout(rows, rss, cs, rs, col, r);
    var i := NodeOf(r, |rows|);
    var seg := cs[rss[i]..rss[i + 1]];
    ExpandedAt(seg, |rows|, b, t);
    assert col[rs[r] + b * |seg| + t] == col[rs[r]..rs[r + 1]][b * |seg| + t];
  }

  /** Every full row is strictly increasing and addresses unknowns in [0, 4 * NN). */
  lemma FullRowSorted(rows: seq<seq<int>>, rss: seq<int>, cs: seq<int>, rs: seq<int>, col: seq<int>, r: int)
    requires RowsWellFormed(rows) && Pattern(rows, rss, cs, rs, col)
    requires 0 <= r < 4 * |rows|
    ensures 0 <= rs[r] <= rs[r + 1] <= |col|
    ensures StrictlyIncreasing(col[rs[r]..rs[r + 1]])
    ensures Within(col[rs[r]..rs[r + 1]], 0, 4 * |rows|)
  {
    FullRowLayout(rows, rss, cs, rs, col, r);
    var i := NodeOf(r, |rows|);
    assert ReducedRowAt(rows, rss, cs, i);
    SortedRowFacts(rows[i], cs[rss[i]..rss[i + 1]], |rows|);
    ExpandedSorted(cs[rss[i]..rss[i + 1]], |rows|);
  }

  /** Two positions of one full row with the same column are the same position. */
  lemma SameColumnSamePosition(rows: seq<seq<int>>, rss: seq<int>, cs: seq<int>, rs: seq<int>, col: seq<int>, r: int, p: int, q: int)
    requires RowsWellFormed(rows) && Pattern(rows, rss, cs, rs, col)
    requires 0 <= r < 4 * |rows| && (RowRepeat(rows, rs, col, r); rs[r] <= p < rs[r + 1] && rs[r] <= q < rs[r + 1])
    requires (FullRowLayout(rows, rss, cs, rs, col, r); col[p] == col[q])
    ensures p == q
  {
    FullRowSorted(rows, rss, cs, rs, col, r);
    var row := col[rs[r]..rs[r + 1]];
    assert row[p - rs[r]] == col[p] && row[q - rs[r]] == col[q];
  }

  /** The full row starts never decrease. */
  lemma {:induction false} FullStartsMonotone(rows: seq<seq<int>>, rss: seq<int>, cs: seq<int>, rs: seq<int>, col: seq<int>, r: int, s: int)
    requires Pattern(rows, rss, cs, rs, col) && 0 <= r <= s <= 4 * |rows|
    ensures rs[r] <= rs[s]
    decreases s - r
  {
    if r < s {
      FullStartsMonotone(rows, rss, cs, rs, col, r + 1, s);
      RowRepeat(rows, rs, col, r);
      ReducedStartMonotone(rows, NodeOf(r, |rows|), NodeOf(r, |rows|) + 1);
    }
  }

  /** A position belongs to at most one full row. */
  lemma RowOfPosition(rows: seq<seq<int>>, rss: seq<int>, cs: seq<int>, rs: seq<int>, col: seq<int>, r: int, s: int, p: int)
    requires Pattern(rows, rss, cs, rs, col)
    requires 0 <= r < 4 * |rows| && 0 <= s < 4 * |rows|
    requires rs[r] <= p < rs[r + 1] && rs[s] <= p < rs[s + 1]
    ensures r == s
  {
    if r < s {
      FullStartsMonotone(rows, rss, cs, rs, col, r + 1, s);
    } else if s < r {
      FullStartsMonotone(rows, rss, cs, rs, col, s + 1, r);
    }
  }

  /** The reduced rows of a mesh are well formed. */
  lemma MeshRowsWellFormed(m: Mesh, rows: seq<seq<int>>)
    requires Valid(m) && RowsOf(m, rows)
    ensures RowsWellFormed(rows)
  {
    forall v | 0 <= v < |rows|
      ensures Distinct(rows[v]) && Within(rows[v], 0, |rows|)
    {
      ReducedRowShape(m, v);
      forall t | 0 <= t < |rows[v]|
        ensures 0 <= rows[v][t] < |rows|
      {
        assert rows[v][t] in ReducedRow(m, v);
      }
    }
  }

  /** Full row r has column c exactly when c is an unknown whose node is in the reduced row of r's node. */
  lemma FullRowMembers(rows: seq<seq<int>>, rss: seq<int>, cs: seq<int>, rs: seq<int>, col: seq<int>, r: int, c: int)
    requires RowsWellFormed(rows) && Pattern(rows, rss, cs, rs, col)
    requires 0 <= r < 4 * |rows|
    ensures
      (FullRowLayout(rows, rss, cs, rs, col, r);
       (c in col[rs[r]..rs[r + 1]] <==> 0 <= c < 4 * |rows| && NodeOf(c, |rows|) in rows[NodeOf(r, |rows|)]))
  {
    FullRowLayout(rows, rss, cs, rs, col, r);
    var i := NodeOf(r, |rows|);
    var seg := cs[rss[i]..rss[i + 1]];
    assert ReducedRowAt(rows, rss, cs, i);
    SortedRowFacts(rows[i], seg, |rows|);
    ExpandedNodes(seg, |rows|, c);
  }

  /**
   * The full pattern matches the brute-force adjacency of the mesh: full row r
   * has column c exactly when c is an unknown of the system and the nodes of
   * r and c share an element (or r's node belongs to no element and c is one
   * of that node's own unknowns).
   */
  lemma PatternIsAdjacency(m: Mesh, rows: seq<seq<int>>, rss: seq<int>, cs: seq<int>, rs: seq<int>, col: seq<int>, r: int, c: int)
    requires Valid(m) && RowsOf(m, rows) && Pattern(rows, rss, cs, rs, col)
    requires 0 <= r < 4 * m.nn
    ensures
      (FullRowLayout(rows, rss, cs, rs, col, r);
       (c in col[rs[r]..rs[r + 1]]
        <==>
        (0 <= c < 4 * m.nn
         && (Adjacent(m, NodeOf(r, m.nn), NodeOf(c, m.nn)) || (Isolated(m, NodeOf(r, m.nn)) && NodeOf(c, m.nn) == NodeOf(r, m.nn))))))
  {
    MeshRowsWellFormed(m, rows);
    FullRowMembers(rows, rss, cs, rs, col, r, c);
    ReducedRowMembers(m, NodeOf(r, m.nn), NodeOf(c, m.nn));
  }
}
