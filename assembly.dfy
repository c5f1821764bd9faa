/**
 * The scatter of one element into the global system, twice: into the dense
 * matrix K and vector F through the global number of every local unknown,
 * and into the values val of the compressed-sparse-row pattern through the
 * per-element map of node pairs to offsets in the reduced rows (KeKMapSmall).
 *
 * What one element adds to an entry (r, c) is stated as a sum over all
 * local pairs (I, J) whose global unknowns are (r, c): the dense scatter
 * adds these terms row by row, the sparse scatter block by block, and the
 * two sums agree because finite sums can be reordered.
 */
module Assembly {
  import opened Csr
  import Sums
  import Element

  /** Every node of the element is one of the nn nodes. */
  predicate NodesIn(nodes: seq<int>, nn: int)
  {
    forall k :: 0 <= k < |nodes| ==> 0 <= nodes[k] < nn
  }

  /** Any two nodes of the element have each other in their reduced rows. */
  ghost predicate InRows(nodes: seq<int>, rows: seq<seq<int>>)
  {
    forall i, j :: 0 <= i < |nodes| && 0 <= j < |nodes| && 0 <= nodes[i] < |rows| ==> nodes[j] in rows[nodes[i]]
  }

  /** ke holds the entries of the array Ke. */
  ghost predicate Holds(Ke: array2<real>, ke: seq<seq<real>>)
    reads Ke
  {
    && |ke| == Ke.Length0
    && (forall a :: 0 <= a < |ke| ==> |ke[a]| == Ke.Length1)
    && (forall a, b :: 0 <= a < Ke.Length0 && 0 <= b < Ke.Length1 ==> ke[a][b] == Ke[a, b])
  }

  /**
   * The global unknown of local unknown I of an element with the given
   * nodes: LtoG[e][I mod nen] + NN * (I div nen), written with NodeOf and
   * BlockOf.
   */
  function Global(nodes: seq<int>, n: nat, nn: int, I: int): int
    requires |nodes| == n && 0 <= I < 4 * n
  {
    Unknown(nodes[NodeOf(I, n)], BlockOf(I, n), nn)
  }

  /** The source's index arithmetic computes Global. */
  lemma GlobalIndex(nodes: seq<int>, n: nat, nn: int, I: int)
    requires 0 < n && |nodes| == n && NodesIn(nodes, nn) && 0 <= I < 4 * n
    ensures I % n == NodeOf(I, n) && I / n == BlockOf(I, n)
    ensures nodes[I % n] + nn * (I / n) == Global(nodes, n, nn, I)
    ensures 0 <= Global(nodes, n, nn, I) < 4 * nn
  {
    var b := BlockOf(I, n);
    Element.BlockRange(n, b, b * n);
    Sums.DivRange(I, n, b);
    UnknownParts(nodes[NodeOf(I, n)], b, nn);
  }

  /** Local unknown i of block b is a local unknown. */
  lemma LocalIndex(n: nat, b: int, i: int)
    requires 0 <= b < 4 && 0 <= i < n
    ensures 0 <= b * n + i < 4 * n
  {
    Sums.MulLe(b + 1, 4, n);
  }

  /** Local unknown i of block b is b * nen + i, and its global unknown is LtoG[e][i] + NN * b. */
  lemma LocalGlobal(nodes: seq<int>, n: nat, nn: int, b: int, i: int)
    requires 0 < n && |nodes| == n && NodesIn(nodes, nn) && 0 <= b < 4 && 0 <= i < n
    ensures 0 <= b * n + i < 4 * n
    ensures Global(nodes, n, nn, b * n + i) == nodes[i] + nn * b
    ensures Global(nodes, n, nn, b * n + i) == Unknown(nodes[i], b, nn)
  {
    Element.BlockRange(n, b, b * n);
    UnknownParts(nodes[i], b, nn);
  }

  /**
   * The terms the element contributes to global entry (r, c): Ke[I][J]
   * for every local pair (I, J) that the scatter sends to (r, c), zero for
   * all other pairs.
   */
  function Hits(nodes: seq<int>, n: nat, nn: int, ke: seq<seq<real>>, r: int, c: int): (int, int) -> real
    requires |nodes| == n
  {
    (I, J) =>
      if 0 <= I < 4 * n && 0 <= J < 4 * n && I < |ke| && J < |ke[I]|
         && Global(nodes, n, nn, I) == r && Global(nodes, n, nn, J) == c
      then ke[I][J] else 0.0
  }

  /** What the element adds to K[r][c]: its terms summed row by row over the element matrix. */
  function DenseTotal(nodes: seq<int>, n: nat, nn: int, ke: seq<seq<real>>, r: int, c: int): real
    requires |nodes| == n
  {
    Sums.Sum(4 * n, Sums.RowSums(4 * n, Hits(nodes, n, nn, ke, r, c)))
  }

  /** What the element adds to val at an entry (r, c): its terms summed block by block. */
  function SparseTotal(nodes: seq<int>, n: nat, nn: int, ke: seq<seq<real>>, r: int, c: int): real
    requires |nodes| == n
  {
    Sums.Sum(4, Sums.RowSums(4, Sums.BlockSums(Hits(nodes, n, nn, ke, r, c), n)))
  }

  /** The terms the element contributes to F[r]. */
  function LoadHits(nodes: seq<int>, n: nat, nn: int, fe: seq<real>, r: int): int -> real
    requires |nodes| == n
  {
    I => if 0 <= I < 4 * n && I < |fe| && Global(nodes, n, nn, I) == r then fe[I] else 0.0
  }

  /** What the element adds to F[r]. */
  function LoadTotal(nodes: seq<int>, n: nat, nn: int, fe: seq<real>, r: int): real
    requires |nodes| == n
  {
    Sums.Sum(4 * n, LoadHits(nodes, n, nn, fe, r))
  }

  /** Both orders of summation give the same contribution. */
  lemma TotalsAgree(nodes: seq<int>, n: nat, nn: int, ke: seq<seq<real>>, r: int, c: int)
    requires |nodes| == n
    ensures DenseTotal(nodes, n, nn, ke, r, c) == SparseTotal(nodes, n, nn, ke, r, c)
  {
    Sums.BlockReorder(4, 4, n, Hits(nodes, n, nn, ke, r, c));
  }

  /** An element contributes nothing to an entry (r, c) that no pair of its local unknowns is sent to. */
  lemma {:induction false} DenseTotalUnpaired(nodes: seq<int>, n: nat, nn: int, ke: seq<seq<real>>, r: int, c: int)
    requires |nodes| == n
    requires forall I, J :: 0 <= I < 4 * n && 0 <= J < 4 * n ==>
      Global(nodes, n, nn, I) != r || Global(nodes, n, nn, J) != c
    ensures DenseTotal(nodes, n, nn, ke, r, c) == 0.0
  {
    var h := Hits(nodes, n, nn, ke, r, c);
    forall I | 0 <= I < 4 * n
      ensures Sums.RowSums(4 * n, h)(I) == 0.0
    {
      Sums.SumZero(4 * n, Sums.Row(h, I));
    }
    Sums.SumZero(4 * n, Sums.RowSums(4 * n, h));
  }

  /**
   * An element contributes nothing to K[r][c] when the node of c is not in
   * the reduced row of the node of r: any two of its nodes are in each
   * other's rows.
   */
  lemma DenseTotalUnconnected(nodes: seq<int>, n: nat, nn: nat, ke: seq<seq<real>>, rows: seq<seq<int>>, r: int, c: int)
    requires 0 < n && |nodes| == n && NodesIn(nodes, nn) && |rows| == nn && InRows(nodes, rows)
    requires 0 <= r < 4 * nn && 0 <= c < 4 * nn && NodeOf(c, nn) !in rows[NodeOf(r, nn)]
    ensures DenseTotal(nodes, n, nn, ke, r, c) == 0.0
  {
    forall I, J | 0 <= I < 4 * n && 0 <= J < 4 * n
      ensures Global(nodes, n, nn, I) != r || Global(nodes, n, nn, J) != c
    {
      var a, b := NodeOf(I, n), NodeOf(J, n);
      UnknownParts(nodes[a], BlockOf(I, n), nn);
      UnknownParts(nodes[b], BlockOf(J, n), nn);
      assert nodes[b] in rows[nodes[a]];
    }
    DenseTotalUnpaired(nodes, n, nn, ke, r, c);
  }

  /** The load of an element reaches only the unknowns of its nodes. */
  lemma {:induction false} LoadTotalOutside(nodes: seq<int>, n: nat, nn: int, fe: seq<real>, r: int)
    requires |nodes| == n
    requires forall I :: 0 <= I < 4 * n ==> Global(nodes, n, nn, I) != r
    ensures LoadTotal(nodes, n, nn, fe, r) == 0.0
  {
    Sums.SumZero(4 * n, LoadHits(nodes, n, nn, fe, r));
  }

  /** A zero load vector adds nothing anywhere. */
  lemma LoadTotalZero(nodes: seq<int>, n: nat, nn: int, fe: seq<real>, r: int)
    requires |nodes| == n && forall I :: 0 <= I < |fe| ==> fe[I] == 0.0
    ensures LoadTotal(nodes, n, nn, fe, r) == 0.0
  {
    Sums.SumZero(4 * n, LoadHits(nodes, n, nn, fe, r));
  }

  // ---------------------------------------------------------------------
  // The offset map KeKMapSmall.

  /**
   * The scan of a reduced row colSmall[lo..hi) for target, counting in q
   * and stopping at the first match; q ends at hi - lo when there is none.
   */
  method FindOffset(colSmall: array<int>, lo: int, hi: int, target: int) returns (found: bool, q: int)
    requires 0 <= lo <= hi <= colSmall.Length
    ensures found <==> target in colSmall[lo..hi]
    ensures found ==> 0 <= q < hi - lo && colSmall[lo + q] == target && target !in colSmall[lo..lo + q]
    ensures !found ==> q == hi - lo
  {
    q := 0;
    found := false;
    for p := lo to hi
      invariant q == p - lo && !found
      invariant target !in colSmall[lo..p]
    {
      if colSmall[p] == target {
        found := true;
        break;
      }
      assert colSmall[lo..p + 1] == colSmall[lo..p] + [colSmall[p]];
      q := q + 1;
    }
    if found {
      assert colSmall[lo + q] == colSmall[lo..hi][q];
    }
  }

  /** Offset t into the reduced row of node v lands inside that row, on node x. */
  ghost predicate OffsetOf(rss: seq<int>, cs: seq<int>, v: int, t: int, x: int)
  {
    0 <= v < |rss| - 1 && 0 <= t < rss[v + 1] - rss[v] && 0 <= rss[v] && rss[v + 1] <= |cs| && cs[rss[v] + t] == x
  }

  /**
   * KeKMapSmall for one element: for every pair (i, j) of its nodes, the
   * offset of node j in the reduced row of node i. Node j is always found,
   * because the two nodes share this element.
   */
  method BuildOffsetMap(nodes: seq<int>, n: nat, rowStartsSmall: array<int>, colSmall: array<int>, ghost rows: seq<seq<int>>)
    returns (keMap: array2<int>)
    requires |nodes| == n && NodesIn(nodes, |rows|) && InRows(nodes, rows)
    requires RowsWellFormed(rows) && ReducedPattern(rows, rowStartsSmall[..], colSmall[..])
    ensures fresh(keMap) && keMap.Length0 == n && keMap.Length1 == n
    ensures forall i, j :: 0 <= i < n && 0 <= j < n ==> OffsetOf(rowStartsSmall[..], colSmall[..], nodes[i], keMap[i, j], nodes[j])
  {
    keMap := new int[n, n];
    for i := 0 to n
      invariant forall a, b :: 0 <= a < i && 0 <= b < n ==> OffsetOf(rowStartsSmall[..], colSmall[..], nodes[a], keMap[a, b], nodes[b])
    {
      OffsetRow(nodes, n, rowStartsSmall, colSmall, rows, keMap, i);
    }
  }

  /** Row i of KeKMapSmall: the offsets of all nodes of the element in the reduced row of node i. */
  method OffsetRow(nodes: seq<int>, n: nat, rowStartsSmall: array<int>, colSmall: array<int>, ghost rows: seq<seq<int>>,
                   keMap: array2<int>, i: int)
    requires |nodes| == n && NodesIn(nodes, |rows|) && InRows(nodes, rows) && 0 <= i < n
    requires RowsWellFormed(rows) && ReducedPattern(rows, rowStartsSmall[..], colSmall[..])
    requires keMap.Length0 == n && keMap.Length1 == n
    modifies keMap
    ensures forall b :: 0 <= b < n ==> OffsetOf(rowStartsSmall[..], colSmall[..], nodes[i], keMap[i, b], nodes[b])
    ensures forall a, b :: 0 <= a < n && a != i && 0 <= b < n ==> keMap[a, b] == old(keMap[a, b])
  {
    var v := nodes[i];
    ghost var rss, cs := rowStartsSmall[..], colSmall[..];
    assert ReducedRowAt(rows, rss, cs, v);
    SortedRowFacts(rows[v], cs[rss[v]..rss[v + 1]], |rows|);
    assert colSmall[rss[v]..rss[v + 1]] == cs[rss[v]..rss[v + 1]];
    for j := 0 to n
      invariant forall b :: 0 <= b < j ==> OffsetOf(rss, cs, v, keMap[i, b], nodes[b])
      invariant forall a, b :: 0 <= a < n && a != i && 0 <= b < n ==> keMap[a, b] == old(keMap[a, b])
    {
      assert nodes[j] in rows[v];
      OffsetEntry(colSmall, rowStartsSmall[v], rowStartsSmall[v + 1], keMap, rss, cs, v, i, j, nodes[j]);
    }
  }

  /** One entry of KeKMapSmall: the offset of node x in the reduced row of node v, which holds it. */
  method OffsetEntry(colSmall: array<int>, lo: int, hi: int, keMap: array2<int>, ghost rss: seq<int>, ghost cs: seq<int>,
                     v: int, i: int, j: int, x: int)
    requires 0 <= v < |rss| - 1 && lo == rss[v] && hi == rss[v + 1] && 0 <= lo <= hi <= colSmall.Length
    requires cs == colSmall[..] && x in colSmall[lo..hi]
    requires 0 <= i < keMap.Length0 && 0 <= j < keMap.Length1
    modifies keMap
    ensures OffsetOf(rss, cs, v, keMap[i, j], x)
    ensures forall a, b :: 0 <= a < keMap.Length0 && 0 <= b < keMap.Length1 && (a != i || b != j) ==>
      keMap[a, b] == old(keMap[a, b])
  {
    var found, q := FindOffset(colSmall, lo, hi, x);
    if found {
      keMap[i, j] := q;
    }
  }

  // ---------------------------------------------------------------------
  // The dense scatter into K and F.

  /** The inner loop of the dense scatter: row I of Ke added into row iG of K. */
  method DenseRow(K: array2<real>, nodes: seq<int>, n: nat, nn: nat, Ke: array2<real>, ghost ke: seq<seq<real>>, I: int, iG: int)
    requires 0 < n && |nodes| == n && NodesIn(nodes, nn)
    requires K.Length0 == 4 * nn && K.Length1 == 4 * nn && Ke.Length0 == 4 * n && Ke.Length1 == 4 * n && K != Ke
    requires Holds(Ke, ke) && 0 <= I < 4 * n && iG == Global(nodes, n, nn, I)
    modifies K
    ensures forall r, c :: 0 <= r < 4 * nn && 0 <= c < 4 * nn ==>
      K[r, c] == old(K[r, c]) + Sums.Sum(4 * n, Sums.Row(Hits(nodes, n, nn, ke, r, c), I))
  {
    GlobalIndex(nodes, n, nn, I);
    for j := 0 to 4 * n
      invariant forall r, c :: 0 <= r < 4 * nn && 0 <= c < 4 * nn ==>
        K[r, c] == old(K[r, c]) + Sums.Sum(j, Sums.Row(Hits(nodes, n, nn, ke, r, c), I))
    {
      GlobalIndex(nodes, n, nn, j);
      var jG := nodes[j % n] + nn * (j / n);
      K[iG, jG] := K[iG, jG] + Ke[I, j];
    }
  }

  /**
   * The dense scatter: for every local unknown I, Fe[I] into F and row I
   * of Ke into K, at the global unknowns LtoG[e][I mod nen] + NN * (I div nen).
   */
  method DenseScatter(K: array2<real>, F: array<real>, nodes: seq<int>, n: nat, nn: nat,
                      Ke: array2<real>, Fe: array<real>, ghost ke: seq<seq<real>>)
    requires 0 < n && |nodes| == n && NodesIn(nodes, nn)
    requires K.Length0 == 4 * nn && K.Length1 == 4 * nn && F.Length == 4 * nn
    requires Ke.Length0 == 4 * n && Ke.Length1 == 4 * n && Fe.Length == 4 * n && K != Ke && F != Fe
    requires Holds(Ke, ke)
    modifies K, F
    ensures forall r, c :: 0 <= r < 4 * nn && 0 <= c < 4 * nn ==> K[r, c] == old(K[r, c]) + DenseTotal(nodes, n, nn, ke, r, c)
    ensures forall r :: 0 <= r < 4 * nn ==> F[r] == old(F[r]) + LoadTotal(nodes, n, nn, old(Fe[..]), r)
  {
    ghost var fe := Fe[..];
    for i := 0 to 4 * n
      invariant forall r, c :: 0 <= r < 4 * nn && 0 <= c < 4 * nn ==>
        K[r, c] == old(K[r, c]) + Sums.Sum(i, Sums.RowSums(4 * n, Hits(nodes, n, nn, ke, r, c)))
      invariant forall r :: 0 <= r < 4 * nn ==> F[r] == old(F[r]) + Sums.Sum(i, LoadHits(nodes, n, nn, fe, r))
    {
      DenseStep(K, F, nodes, n, nn, Ke, Fe, ke, i);
    }
  }

  /** One pass of the dense scatter: Fe[I] into F and row I of Ke into K, at global unknown iG. */
  method DenseStep(K: array2<real>, F: array<real>, nodes: seq<int>, n: nat, nn: nat,
                   Ke: array2<real>, Fe: array<real>, ghost ke: seq<seq<real>>, I: int)
    requires 0 < n && |nodes| == n && NodesIn(nodes, nn)
    requires K.Length0 == 4 * nn && K.Length1 == 4 * nn && F.Length == 4 * nn
    requires Ke.Length0 == 4 * n && Ke.Length1 == 4 * n && Fe.Length == 4 * n && K != Ke && F != Fe
    requires Holds(Ke, ke) && 0 <= I < 4 * n
    modifies K, F
    ensures forall r, c :: 0 <= r < 4 * nn && 0 <= c < 4 * nn ==>
      K[r, c] == old(K[r, c]) + Sums.RowSums(4 * n, Hits(nodes, n, nn, ke, r, c))(I)
    ensures forall r :: 0 <= r < 4 * nn ==> F[r] == old(F[r]) + LoadHits(nodes, n, nn, Fe[..], r)(I)
  {
    GlobalIndex(nodes, n, nn, I);
    var iG := nodes[I % n] + nn * (I / n);
    F[iG] := F[iG] + Fe[I];
    DenseRow(K, nodes, n, nn, Ke, ke, I, iG);
  }

  // ---------------------------------------------------------------------
  // The sparse scatter into val.

  /** Position p belongs to full row r. */
  ghost predicate InRow(rs: seq<int>, r: int, p: int)
  {
    0 <= r < |rs| - 1 && rs[r] <= p < rs[r + 1]
  }

  /** Every position of every full row lies inside col. */
  ghost predicate RowBounds(rs: seq<int>, N: int, len: int)
  {
    |rs| == N + 1 && forall r, p {:trigger InRow(rs, r, p)} :: InRow(rs, r, p) ==> 0 <= p < len
  }

  lemma PatternRowBounds(rows: seq<seq<int>>, rss: seq<int>, cs: seq<int>, rs: seq<int>, col: seq<int>)
    requires Pattern(rows, rss, cs, rs, col)
    ensures RowBounds(rs, 4 * |rows|, |col|)
  {
    forall r, p | InRow(rs, r, p)
      ensures 0 <= p < |col|
    {
      RowRepeat(rows, rs, col, r);
    }
  }

  /** A position of row R is the only position of any row with that row and its column. */
  lemma PositionUnique(rows: seq<seq<int>>, rss: seq<int>, cs: seq<int>, rs: seq<int>, col: seq<int>, R: int, pos: int)
    requires RowsWellFormed(rows) && Pattern(rows, rss, cs, rs, col)
    requires 0 <= R < 4 * |rows| && rs[R] <= pos < rs[R + 1]
    ensures RowBounds(rs, 4 * |rows|, |col|)
    ensures 0 <= pos < |col|
    ensures forall r, p :: InRow(rs, r, p) ==> (p == pos <==> r == R && col[p] == col[pos])
  {
    PatternRowBounds(rows, rss, cs, rs, col);
    assert InRow(rs, R, pos);
    forall r, p | InRow(rs, r, p)
      ensures p == pos <==> r == R && col[p] == col[pos]
    {
      if p == pos {
        RowOfPosition(rows, rss, cs, rs, col, r, R, p);
      }
      if r == R && col[p] == col[pos] {
        SameColumnSamePosition(rows, rss, cs, rs, col, R, p, pos);
      }
    }
  }

  /** What the sparse scatter has added to a position in row r: a partial sum of the terms for (r, col[p]). */
  ghost predicate Added(vs: seq<real>, vs0: seq<real>, rs: seq<int>, col: seq<int>, amount: (int, int) -> real)
    requires |vs| == |col| && |vs0| == |col|
  {
    forall r, p :: InRow(rs, r, p) && 0 <= p < |col| ==> vs[p] == vs0[p] + amount(r, col[p])
  }

  /** The terms of pairs (i, 0), ..., (i, j - 1) of block (sr0, sc0) that go to entry (r, c). */
  function RowPart(nodes: seq<int>, n: nat, nn: int, ke: seq<seq<real>>, sr0: int, sc0: int, i: int, j: nat): (int, int) -> real
    requires |nodes| == n
  {
    (r, c) => Sums.Sum(j, Sums.Row(Sums.Block(Hits(nodes, n, nn, ke, r, c), n, sr0, sc0), i))
  }

  /** The pattern the sparse scatter writes through, with its rows well formed and inside col. */
  ghost predicate SparseFrame(rows: seq<seq<int>>, rss: seq<int>, cs: seq<int>, rs: seq<int>, col: seq<int>)
  {
    RowsWellFormed(rows) && Pattern(rows, rss, cs, rs, col) && RowBounds(rs, 4 * |rows|, |col|)
  }

  /** An element of n nodes among nn, with its 4n x 4n matrix. */
  ghost predicate LocalFrame(nodes: seq<int>, n: nat, nn: int, ke: seq<seq<real>>)
  {
    0 < n && |nodes| == n && NodesIn(nodes, nn) && |ke| == 4 * n && forall a :: 0 <= a < 4 * n ==> |ke[a]| == 4 * n
  }

  /** The position of local pair (i, j) of block (sr0, sc0) in val, from the row start of the global row and the offset map. */
  function ScatterPosition(rs: seq<int>, rss: seq<int>, v: int, nn: int, sr0: int, sc0: int, t: int): int
    requires 0 <= v < nn && 0 <= sr0 < 4 && |rs| == 4 * nn + 1 && |rss| == nn + 1
  {
    rs[v + nn * sr0] + (rss[v + 1] - rss[v]) * sc0 + t
  }

  /** keMap holds, for every pair of element nodes (a, b), the offset of node b in the reduced row of node a. */
  ghost predicate MapsOffsets(keMap: array2<int>, rss: seq<int>, cs: seq<int>, nodes: seq<int>, n: nat)
    reads keMap
  {
    && |nodes| == n && keMap.Length0 == n && keMap.Length1 == n
    && forall a, b :: 0 <= a < n && 0 <= b < n ==> OffsetOf(rss, cs, nodes[a], keMap[a, b], nodes[b])
  }

  /**
   * Position pos is where entry (R, C) lives: it lies in row R, holds
   * column C, and no other position of any row holds that entry.
   */
  ghost predicate Target(rs: seq<int>, col: seq<int>, R: int, C: int, pos: int)
  {
    && 0 <= pos < |col| && InRow(rs, R, pos) && col[pos] == C
    && forall r, p :: InRow(rs, r, p) && 0 <= p < |col| ==> (p == pos <==> r == R && col[p] == C)
  }

  /**
   * Every position the sparse scatter computes for row i of block
   * (sr0, sc0), from the row starts and the offset map, is the Target of
   * the entry of the pair's global unknowns.
   */
  ghost predicate RowTargeted(rs: seq<int>, rss: seq<int>, col: seq<int>, keMap: array2<int>,
                              nodes: seq<int>, n: nat, nn: int, sr0: int, sc0: int, i: int)
    reads keMap
  {
    forall j {:trigger TargetAt(rs, rss, col, keMap, nodes, n, nn, sr0, sc0, i, j)} ::
      0 <= j < n ==> TargetAt(rs, rss, col, keMap, nodes, n, nn, sr0, sc0, i, j)
  }

  /** The position computed for pair (i, j) of block (sr0, sc0) is the Target of the pair's global unknowns. */
  ghost predicate TargetAt(rs: seq<int>, rss: seq<int>, col: seq<int>, keMap: array2<int>,
                           nodes: seq<int>, n: nat, nn: int, sr0: int, sc0: int, i: int, j: int)
    reads keMap
  {
    && |rs| == 4 * nn + 1 && |rss| == nn + 1 && |nodes| == n && NodesIn(nodes, nn)
    && keMap.Length0 == n && keMap.Length1 == n && 0 <= sr0 < 4 && 0 <= i < n && 0 <= j < n
    && Target(rs, col, Unknown(nodes[i], sr0, nn), Unknown(nodes[j], sc0, nn),
              ScatterPosition(rs, rss, nodes[i], nn, sr0, sc0, keMap[i, j]))
  }

  /** Ke[sr0 * nen + i][sc0 * nen + j], the term the sparse scatter takes for pair (i, j) of block (sr0, sc0). */
  function KeTerm(ke: seq<seq<real>>, n: nat, sr0: int, sc0: int, i: int, j: int): real
  {
    var I, J := sr0 * n + i, sc0 * n + j;
    if 0 <= I < |ke| && 0 <= J < |ke[I]| then ke[I][J] else 0.0
  }

  /**
   * The innermost loop of the sparse scatter: row i of block (sr0, sc0) of
   * Ke added into val, term j at the position the row start of the global
   * row, the block offset and KeKMapSmall[i][j] give it.
   */
  method ScatterRow(val: array<real>, rowStarts: array<int>, rowStartsSmall: array<int>, keMap: array2<int>,
                    nodes: seq<int>, n: nat, nn: nat, Ke: array2<real>, ghost ke: seq<seq<real>>,
                    ghost col: seq<int>, sr0: int, sc0: int, i: int)
    requires rowStarts.Length == 4 * nn + 1 && rowStartsSmall.Length == nn + 1 && val.Length == |col|
    requires LocalFrame(nodes, n, nn, ke) && Holds(Ke, ke) && keMap.Length0 == n && keMap.Length1 == n
    requires 0 <= sr0 < 4 && 0 <= sc0 < 4 && 0 <= i < n
    requires RowTargeted(rowStarts[..], rowStartsSmall[..], col, keMap, nodes, n, nn, sr0, sc0, i)
    modifies val
    ensures Added(val[..], old(val[..]), rowStarts[..], col, RowPart(nodes, n, nn, ke, sr0, sc0, i, n))
  {
    ghost var rs, rss := rowStarts[..], rowStartsSmall[..];
    LocalIndex(n, sr0, i);
    UnknownParts(nodes[i], sr0, nn);
    AddedNothing(val[..], rs, col, RowPart(nodes, n, nn, ke, sr0, sc0, i, 0));
    var start := rowStarts[nodes[i] + nn * sr0];
    var shift := (rowStartsSmall[nodes[i] + 1] - rowStartsSmall[nodes[i]]) * sc0;
    assert start + shift == ScatterPosition(rs, rss, nodes[i], nn, sr0, sc0, 0);
    for j := 0 to n
      invariant Added(val[..], old(val[..]), rs, col, RowPart(nodes, n, nn, ke, sr0, sc0, i, j))
    {
      var pos := start + shift + keMap[i, j];
      assert TargetAt(rs, rss, col, keMap, nodes, n, nn, sr0, sc0, i, j);
      ScatterTerm(val, Ke, keMap, pos, old(val[..]), rs, rss, col, nodes, n, nn, ke, sr0, sc0, i, j);
    }
  }

  /**
   * One term of the sparse scatter: Ke[sr0 * nen + i][sc0 * nen + j]
   * added into val at pos, the Target of the pair's global unknowns.
   */
  method ScatterTerm(val: array<real>, Ke: array2<real>, keMap: array2<int>, pos: int, ghost vs0: seq<real>,
                     ghost rs: seq<int>, ghost rss: seq<int>, ghost col: seq<int>,
                     ghost nodes: seq<int>, n: nat, ghost nn: int, ghost ke: seq<seq<real>>, sr0: int, sc0: int, i: int, j: nat)
    requires LocalFrame(nodes, n, nn, ke) && Holds(Ke, ke) && 0 <= sc0 < 4
    requires TargetAt(rs, rss, col, keMap, nodes, n, nn, sr0, sc0, i, j)
    requires pos == ScatterPosition(rs, rss, nodes[i], nn, sr0, sc0, keMap[i, j])
    requires val.Length == |col| && |vs0| == |col|
    requires Added(val[..], vs0, rs, col, RowPart(nodes, n, nn, ke, sr0, sc0, i, j))
    modifies val
    ensures Added(val[..], vs0, rs, col, RowPart(nodes, n, nn, ke, sr0, sc0, i, j + 1))
  {
    LocalIndex(n, sr0, i);
    LocalIndex(n, sc0, j);
    var x := Ke[sr0 * n + i, sc0 * n + j];
    assert x == KeTerm(ke, n, sr0, sc0, i, j);
    val[pos] := val[pos] + x;
    ScatterStep(rs, col, nodes, n, nn, ke, sr0, sc0, i, j, pos, x, old(val[..]), val[..], vs0);
  }

  /** Adding the term of pair (i, j) at its position extends the partial sums of row i to j + 1 terms. */
  lemma ScatterStep(rs: seq<int>, col: seq<int>, nodes: seq<int>, n: nat, nn: int, ke: seq<seq<real>>,
                    sr0: int, sc0: int, i: int, j: nat, pos: int, x: real, vs: seq<real>, vs': seq<real>, vs0: seq<real>)
    requires LocalFrame(nodes, n, nn, ke) && 0 <= sr0 < 4 && 0 <= sc0 < 4 && 0 <= i < n && j < n
    requires Target(rs, col, Unknown(nodes[i], sr0, nn), Unknown(nodes[j], sc0, nn), pos)
    requires x == KeTerm(ke, n, sr0, sc0, i, j)
    requires |vs| == |col| && |vs0| == |col| && vs' == vs[pos := vs[pos] + x]
    requires Added(vs, vs0, rs, col, RowPart(nodes, n, nn, ke, sr0, sc0, i, j))
    ensures Added(vs', vs0, rs, col, RowPart(nodes, n, nn, ke, sr0, sc0, i, j + 1))
  {
    LocalGlobal(nodes, n, nn, sr0, i);
    LocalGlobal(nodes, n, nn, sc0, j);
    forall r, p | InRow(rs, r, p) && 0 <= p < |col|
      ensures vs'[p] == vs0[p] + RowPart(nodes, n, nn, ke, sr0, sc0, i, j + 1)(r, col[p])
    {
      assert vs[p] == vs0[p] + RowPart(nodes, n, nn, ke, sr0, sc0, i, j)(r, col[p]);
      var h := Hits(nodes, n, nn, ke, r, col[p]);
      assert Sums.Row(Sums.Block(h, n, sr0, sc0), i)(j) == if p == pos then x else 0.0;
    }
  }

  /**
   * Every position the sparse scatter computes for row i of block
   * (sr0, sc0) is where the entry of the pair's global unknowns lives.
   */
  lemma RowTargets(rows: seq<seq<int>>, rss: seq<int>, cs: seq<int>, rs: seq<int>, col: seq<int>,
                   nodes: seq<int>, n: nat, keMap: array2<int>, sr0: int, sc0: int, i: int)
    requires SparseFrame(rows, rss, cs, rs, col) && 0 < n && NodesIn(nodes, |rows|)
    requires MapsOffsets(keMap, rss, cs, nodes, n)
    requires 0 <= sr0 < 4 && 0 <= sc0 < 4 && 0 <= i < n
    ensures RowTargeted(rs, rss, col, keMap, nodes, n, |rows|, sr0, sc0, i)
  {
    forall j | 0 <= j < n
      ensures TargetAt(rs, rss, col, keMap, nodes, n, |rows|, sr0, sc0, i, j)
    {
      var pos := ScatterPosition(rs, rss, nodes[i], |rows|, sr0, sc0, keMap[i, j]);
      assert OffsetOf(rss, cs, nodes[i], keMap[i, j], nodes[j]);
      ScatterTarget(rows, rss, cs, rs, col, nodes, n, sr0, sc0, i, j, keMap[i, j], pos);
      PositionUnique(rows, rss, cs, rs, col, Unknown(nodes[i], sr0, |rows|), pos);
    }
  }

  /**
   * The position the sparse scatter computes for local pair (i, j) in row
   * block sr0 and column block sc0 lies in the row of the global unknown
   * of i and holds the global unknown of j as its column.
   */
  lemma ScatterTarget(rows: seq<seq<int>>, rss: seq<int>, cs: seq<int>, rs: seq<int>, col: seq<int>,
                      nodes: seq<int>, n: nat, sr0: int, sc0: int, i: int, j: int, t: int, pos: int)
    requires SparseFrame(rows, rss, cs, rs, col) && |nodes| == n && NodesIn(nodes, |rows|)
    requires 0 <= sr0 < 4 && 0 <= sc0 < 4 && 0 <= i < n && 0 <= j < n
    requires OffsetOf(rss, cs, nodes[i], t, nodes[j])
    requires pos == ScatterPosition(rs, rss, nodes[i], |rows|, sr0, sc0, t)
    ensures 0 <= Unknown(nodes[i], sr0, |rows|) < 4 * |rows|
    ensures InRow(rs, Unknown(nodes[i], sr0, |rows|), pos)
    ensures 0 <= pos < |col| && col[pos] == Unknown(nodes[j], sc0, |rows|)
  {
    var nn := |rows|;
    var R := Unknown(nodes[i], sr0, nn);
    UnknownParts(nodes[i], sr0, nn);
    UnknownParts(nodes[j], sc0, nn);
    RowRepeat(rows, rs, col, R);
    FullColumnAt(rows, rss, cs, rs, col, R, sc0, t);
  }

  /** The terms of rows 0, ..., i - 1 of block (sr0, sc0) that go to entry (r, c). */
  function BlockPart(nodes: seq<int>, n: nat, nn: int, ke: seq<seq<real>>, sr0: int, sc0: int, i: nat): (int, int) -> real
    requires |nodes| == n
  {
    (r, c) => Sums.Sum(i, Sums.RowSums(n, Sums.Block(Hits(nodes, n, nn, ke, r, c), n, sr0, sc0)))
  }

  /** The terms of blocks (sr0, 0), ..., (sr0, k - 1) that go to entry (r, c). */
  function StripPart(nodes: seq<int>, n: nat, nn: int, ke: seq<seq<real>>, sr0: int, k: nat): (int, int) -> real
    requires |nodes| == n
  {
    (r, c) => Sums.Sum(k, Sums.Row(Sums.BlockSums(Hits(nodes, n, nn, ke, r, c), n), sr0))
  }

  /** The terms of block rows 0, ..., k - 1 that go to entry (r, c). */
  function AllPart(nodes: seq<int>, n: nat, nn: int, ke: seq<seq<real>>, k: nat): (int, int) -> real
    requires |nodes| == n
  {
    (r, c) => Sums.Sum(k, Sums.RowSums(4, Sums.BlockSums(Hits(nodes, n, nn, ke, r, c), n)))
  }

  /** Nothing added yet: the empty partial sum. */
  lemma AddedNothing(vs: seq<real>, rs: seq<int>, col: seq<int>, amount: (int, int) -> real)
    requires |vs| == |col|
    requires forall r, p :: InRow(rs, r, p) && 0 <= p < |col| ==> amount(r, col[p]) == 0.0
    ensures Added(vs, vs, rs, col, amount)
  {
  }

  /** The loop over the rows i of block (sr0, sc0). */
  method ScatterBlock(val: array<real>, rowStarts: array<int>, rowStartsSmall: array<int>, keMap: array2<int>,
                      nodes: seq<int>, n: nat, nn: nat, Ke: array2<real>, ghost ke: seq<seq<real>>,
                      ghost rows: seq<seq<int>>, ghost cs: seq<int>, ghost col: seq<int>, sr0: int, sc0: int)
    requires SparseFrame(rows, rowStartsSmall[..], cs, rowStarts[..], col) && nn == |rows| && val.Length == |col|
    requires LocalFrame(nodes, n, nn, ke) && Holds(Ke, ke)
    requires MapsOffsets(keMap, rowStartsSmall[..], cs, nodes, n)
    requires 0 <= sr0 < 4 && 0 <= sc0 < 4
    modifies val
    ensures Added(val[..], old(val[..]), rowStarts[..], col, BlockPart(nodes, n, nn, ke, sr0, sc0, n))
  {
    ghost var rs := rowStarts[..];
    AddedNothing(val[..], rs, col, BlockPart(nodes, n, nn, ke, sr0, sc0, 0));
    for i := 0 to n
      invariant Added(val[..], old(val[..]), rs, col, BlockPart(nodes, n, nn, ke, sr0, sc0, i))
    {
      ghost var before := val[..];
      RowTargets(rows, rowStartsSmall[..], cs, rs, col, nodes, n, keMap, sr0, sc0, i);
      ScatterRow(val, rowStarts, rowStartsSmall, keMap, nodes, n, nn, Ke, ke, col, sr0, sc0, i);
      BlockStep(val[..], before, old(val[..]), rs, col, nodes, n, nn, ke, sr0, sc0, i);
    }
  }

  /** Row i of the block, added on top of rows 0, ..., i - 1, gives rows 0, ..., i. */
  lemma BlockStep(vs2: seq<real>, vs1: seq<real>, vs0: seq<real>, rs: seq<int>, col: seq<int>,
                  nodes: seq<int>, n: nat, nn: int, ke: seq<seq<real>>, sr0: int, sc0: int, i: nat)
    requires |nodes| == n && |vs2| == |col| && |vs1| == |col| && |vs0| == |col|
    requires Added(vs1, vs0, rs, col, BlockPart(nodes, n, nn, ke, sr0, sc0, i))
    requires Added(vs2, vs1, rs, col, RowPart(nodes, n, nn, ke, sr0, sc0, i, n))
    ensures Added(vs2, vs0, rs, col, BlockPart(nodes, n, nn, ke, sr0, sc0, i + 1))
  {
    forall r, p | InRow(rs, r, p) && 0 <= p < |col|
      ensures vs2[p] == vs0[p] + BlockPart(nodes, n, nn, ke, sr0, sc0, i + 1)(r, col[p])
    {
      assert vs1[p] == vs0[p] + BlockPart(nodes, n, nn, ke, sr0, sc0, i)(r, col[p]);
      assert vs2[p] == vs1[p] + RowPart(nodes, n, nn, ke, sr0, sc0, i, n)(r, col[p]);
    }
  }

  /** The loop over the column blocks shiftCol = 1, ..., 4 of row block sr0. */
  method ScatterBlockRow(val: array<real>, rowStarts: array<int>, rowStartsSmall: array<int>, keMap: array2<int>,
                         nodes: seq<int>, n: nat, nn: nat, Ke: array2<real>, ghost ke: seq<seq<real>>,
                         ghost rows: seq<seq<int>>, ghost cs: seq<int>, ghost col: seq<int>, sr0: int)
    requires SparseFrame(rows, rowStartsSmall[..], cs, rowStarts[..], col) && nn == |rows| && val.Length == |col|
    requires LocalFrame(nodes, n, nn, ke) && Holds(Ke, ke)
    requires MapsOffsets(keMap, rowStartsSmall[..], cs, nodes, n)
    requires 0 <= sr0 < 4
    modifies val
    ensures Added(val[..], old(val[..]), rowStarts[..], col, StripPart(nodes, n, nn, ke, sr0, 4))
  {
    ghost var rs := rowStarts[..];
    AddedNothing(val[..], rs, col, StripPart(nodes, n, nn, ke, sr0, 0));
    for shiftCol := 1 to 5
      invariant Added(val[..], old(val[..]), rs, col, StripPart(nodes, n, nn, ke, sr0, shiftCol - 1))
    {
      ghost var before := val[..];
      ScatterBlock(val, rowStarts, rowStartsSmall, keMap, nodes, n, nn, Ke, ke, rows, cs, col, sr0, shiftCol - 1);
      StripStep(val[..], before, old(val[..]), rs, col, nodes, n, nn, ke, sr0, shiftCol - 1);
    }
  }

  /** Block (sr0, k), added on top of blocks (sr0, 0), ..., (sr0, k - 1), gives blocks up to k. */
  lemma StripStep(vs2: seq<real>, vs1: seq<real>, vs0: seq<real>, rs: seq<int>, col: seq<int>,
                  nodes: seq<int>, n: nat, nn: int, ke: seq<seq<real>>, sr0: int, k: nat)
    requires |nodes| == n && |vs2| == |col| && |vs1| == |col| && |vs0| == |col|
    requires Added(vs1, vs0, rs, col, StripPart(nodes, n, nn, ke, sr0, k))
    requires Added(vs2, vs1, rs, col, BlockPart(nodes, n, nn, ke, sr0, k, n))
    ensures Added(vs2, vs0, rs, col, StripPart(nodes, n, nn, ke, sr0, k + 1))
  {
    forall r, p | InRow(rs, r, p) && 0 <= p < |col|
      ensures vs2[p] == vs0[p] + StripPart(nodes, n, nn, ke, sr0, k + 1)(r, col[p])
    {
      assert vs1[p] == vs0[p] + StripPart(nodes, n, nn, ke, sr0, k)(r, col[p]);
      assert vs2[p] == vs1[p] + BlockPart(nodes, n, nn, ke, sr0, k, n)(r, col[p]);
    }
  }

  /**
   * The sparse scatter of one element: the loops over shiftRow and
   * shiftCol, rows i and columns j of every block, each term added at the
   * position the row starts and the offset map give it. Every position p
   * of row r gains exactly the element's contribution to (r, col[p]).
   */
  method ScatterValues(val: array<real>, rowStarts: array<int>, rowStartsSmall: array<int>, keMap: array2<int>,
                       nodes: seq<int>, n: nat, nn: nat, Ke: array2<real>, ghost ke: seq<seq<real>>,
                       ghost rows: seq<seq<int>>, ghost cs: seq<int>, ghost col: seq<int>)
    requires SparseFrame(rows, rowStartsSmall[..], cs, rowStarts[..], col) && nn == |rows| && val.Length == |col|
    requires LocalFrame(nodes, n, nn, ke) && Holds(Ke, ke)
    requires MapsOffsets(keMap, rowStartsSmall[..], cs, nodes, n)
    modifies val
    ensures Added(val[..], old(val[..]), rowStarts[..], col, (r, c) => SparseTotal(nodes, n, nn, ke, r, c))
  {
    ghost var rs := rowStarts[..];
    AddedNothing(val[..], rs, col, AllPart(nodes, n, nn, ke, 0));
    for shiftRow := 1 to 5
      invariant Added(val[..], old(val[..]), rs, col, AllPart(nodes, n, nn, ke, shiftRow - 1))
    {
      ghost var before := val[..];
      ScatterBlockRow(val, rowStarts, rowStartsSmall, keMap, nodes, n, nn, Ke, ke, rows, cs, col, shiftRow - 1);
      AllStep(val[..], before, old(val[..]), rs, col, nodes, n, nn, ke, shiftRow - 1);
    }
    AllDone(val[..], old(val[..]), rs, col, nodes, n, nn, ke);
  }

  /** Block row k, added on top of block rows 0, ..., k - 1, gives block rows up to k. */
  lemma AllStep(vs2: seq<real>, vs1: seq<real>, vs0: seq<real>, rs: seq<int>, col: seq<int>,
                nodes: seq<int>, n: nat, nn: int, ke: seq<seq<real>>, k: nat)
    requires |nodes| == n && |vs2| == |col| && |vs1| == |col| && |vs0| == |col|
    requires Added(vs1, vs0, rs, col, AllPart(nodes, n, nn, ke, k))
    requires Added(vs2, vs1, rs, col, StripPart(nodes, n, nn, ke, k, 4))
    ensures Added(vs2, vs0, rs, col, AllPart(nodes, n, nn, ke, k + 1))
  {
    forall r, p | InRow(rs, r, p) && 0 <= p < |col|
      ensures vs2[p] == vs0[p] + AllPart(nodes, n, nn, ke, k + 1)(r, col[p])
    {
      assert vs1[p] == vs0[p] + AllPart(nodes, n, nn, ke, k)(r, col[p]);
      assert vs2[p] == vs1[p] + StripPart(nodes, n, nn, ke, k, 4)(r, col[p]);
    }
  }

  /** All four block rows make the element's whole contribution. */
  lemma AllDone(vs: seq<real>, vs0: seq<real>, rs: seq<int>, col: seq<int>,
                nodes: seq<int>, n: nat, nn: int, ke: seq<seq<real>>)
    requires |nodes| == n && |vs| == |col| && |vs0| == |col|
    requires Added(vs, vs0, rs, col, AllPart(nodes, n, nn, ke, 4))
    ensures Added(vs, vs0, rs, col, (r, c) => SparseTotal(nodes, n, nn, ke, r, c))
  {
    forall r, p | InRow(rs, r, p) && 0 <= p < |col|
      ensures vs[p] == vs0[p] + SparseTotal(nodes, n, nn, ke, r, col[p])
    {
      assert vs[p] == vs0[p] + AllPart(nodes, n, nn, ke, 4)(r, col[p]);
    }
  }
}
