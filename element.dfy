/**
 * The element matrix and load vector of one element, folded from the
 * sub-blocks that the quadrature loop accumulates. The 4 * nen unknowns of
 * an element come in the blocks u, v, w, p of nen entries each; Ke_rc is
 * the coupling of block r with block c, and only the upper blocks (r <= c)
 * are computed: the fold writes block (c, r) as the transpose of block (r, c).
 */
module Element {
  import opened Csr
  import Sums

  /** The ten computed sub-blocks Ke_11 .. Ke_44 of one element. */
  datatype SubBlocks = SubBlocks(
    k11: seq<seq<real>>, k12: seq<seq<real>>, k13: seq<seq<real>>, k14: seq<seq<real>>,
    k22: seq<seq<real>>, k23: seq<seq<real>>, k24: seq<seq<real>>,
    k33: seq<seq<real>>, k34: seq<seq<real>>,
    k44: seq<seq<real>>)

  /** b is an n x n matrix. */
  predicate Square(b: seq<seq<real>>, n: nat)
  {
    |b| == n && forall m :: 0 <= m < n ==> |b[m]| == n
  }

  /** The ten sub-blocks in the order Ke_11, Ke_12, Ke_13, Ke_14, Ke_22, Ke_23, Ke_24, Ke_33, Ke_34, Ke_44. */
  function Blocks(bl: SubBlocks): seq<seq<seq<real>>>
  {
    [bl.k11, bl.k12, bl.k13, bl.k14, bl.k22, bl.k23, bl.k24, bl.k33, bl.k34, bl.k44]
  }

  /** Every sub-block is nen x nen (NENv == NENp == nen). */
  predicate Shaped(bl: SubBlocks, n: nat)
  {
    forall b :: b in Blocks(bl) ==> Square(b, n)
  }

  /** The computed sub-block Ke_(rb+1)(cb+1) for rb <= cb. */
  function Upper(bl: SubBlocks, rb: int, cb: int): (r: seq<seq<real>>)
    requires 0 <= rb <= cb < 4
    ensures r in Blocks(bl)
  {
    if rb == 0 then (if cb == 0 then bl.k11 else if cb == 1 then bl.k12 else if cb == 2 then bl.k13 else bl.k14)
    else if rb == 1 then (if cb == 1 then bl.k22 else if cb == 2 then bl.k23 else bl.k24)
    else if rb == 2 then (if cb == 2 then bl.k33 else bl.k34)
    else bl.k44
  }

  /** Entry (m, q) of block (rb, cb) of Ke: a computed block, or the transpose of one below the diagonal. */
  function BlockEntry(bl: SubBlocks, n: nat, rb: int, cb: int, m: int, q: int): real
    requires Shaped(bl, n) && 0 <= rb < 4 && 0 <= cb < 4 && 0 <= m < n && 0 <= q < n
  {
    if rb <= cb then Upper(bl, rb, cb)[m][q] else Upper(bl, cb, rb)[q][m]
  }

  /** Entry (a, b) of the element matrix: block (BlockOf a, BlockOf b), local position (NodeOf a, NodeOf b). */
  function KeEntry(bl: SubBlocks, n: nat, a: int, b: int): real
    requires Shaped(bl, n) && 0 <= a < 4 * n && 0 <= b < 4 * n
  {
    BlockEntry(bl, n, BlockOf(a, n), BlockOf(b, n), NodeOf(a, n), NodeOf(b, n))
  }

  /** Block (rb, cb) of Ke holds its entries of the folded element matrix. */
  ghost predicate BlockDone(Ke: array2<real>, bl: SubBlocks, n: nat, rb: int, cb: int)
    requires Shaped(bl, n) && Ke.Length0 == 4 * n && Ke.Length1 == 4 * n
    reads Ke
  {
    forall a, b :: 0 <= a < 4 * n && 0 <= b < 4 * n && BlockOf(a, n) == rb && BlockOf(b, n) == cb ==>
      Ke[a, b] == KeEntry(bl, n, a, b)
  }

  /** The sub-block the fold copies into block (rb, cb): the computed one, or for rb > cb the one it transposes. */
  function SourceBlock(bl: SubBlocks, rb: int, cb: int): seq<seq<real>>
    requires 0 <= rb < 4 && 0 <= cb < 4
  {
    if rb <= cb then Upper(bl, rb, cb) else Upper(bl, cb, rb)
  }

  /**
   * One double loop of the fold, the one for block (rb, cb): rows
   * i0 .. i0 + n - 1 of Ke receive blk, transposed below the diagonal, in
   * columns c0 .. c0 + n - 1, with the running row counter i and column
   * counter j; i is returned advanced by n. The block then holds its part
   * of the folded matrix and every other block is as it was.
   */
  method PlaceBlock(Ke: array2<real>, blk: seq<seq<real>>, n: nat, i0: int, c0: int, transposed: bool,
                    ghost bl: SubBlocks, ghost rb: int, ghost cb: int) returns (i: int)
    requires 0 < n && Shaped(bl, n) && Ke.Length0 == 4 * n && Ke.Length1 == 4 * n
    requires 0 <= rb < 4 && 0 <= cb < 4 && i0 == rb * n && c0 == cb * n
    requires blk == SourceBlock(bl, rb, cb) && transposed == (rb > cb)
    modifies Ke
    ensures i == i0 + n
    ensures BlockDone(Ke, bl, n, rb, cb)
    ensures forall r, c :: 0 <= r < 4 && 0 <= c < 4 && (r != rb || c != cb) && old(BlockDone(Ke, bl, n, r, c)) ==>
      BlockDone(Ke, bl, n, r, c)
  {
    BlockRange(n, rb, i0);
    BlockRange(n, cb, c0);
    i := i0;
    for m := 0 to n
      invariant i == i0 + m
      invariant forall a, b :: i0 <= a < i && c0 <= b < c0 + n ==>
        Ke[a, b] == (if transposed then blk[b - c0][a - i0] else blk[a - i0][b - c0])
      invariant forall a, b :: 0 <= a < 4 * n && 0 <= b < 4 * n && !(i0 <= a < i && c0 <= b < c0 + n) ==>
        Ke[a, b] == old(Ke[a, b])
    {
      PlaceRow(Ke, blk, n, i, m, c0, transposed);
      i := i + 1;
    }
    RectDone(Ke, bl, n, rb, cb, i0, c0);
    forall r, c | 0 <= r < 4 && 0 <= c < 4 && (r != rb || c != cb) && old(BlockDone(Ke, bl, n, r, c))
      ensures BlockDone(Ke, bl, n, r, c)
    {
      forall a, b | 0 <= a < 4 * n && 0 <= b < 4 * n && BlockOf(a, n) == r && BlockOf(b, n) == c
        ensures Ke[a, b] == KeEntry(bl, n, a, b)
      {
        assert old(Ke[a, b]) == KeEntry(bl, n, a, b);
      }
    }
  }

  /**
   * The inner loop of a fold loop: row i of Ke receives row m of blk, or
   * column m of it when transposed, in columns c0 .. c0 + n - 1.
   */
  method PlaceRow(Ke: array2<real>, blk: seq<seq<real>>, n: nat, i: int, m: int, c0: int, transposed: bool)
    requires Square(blk, n) && 0 <= m < n
    requires 0 <= i < Ke.Length0 && 0 <= c0 && c0 + n <= Ke.Length1
    modifies Ke
    ensures forall b :: c0 <= b < c0 + n ==> Ke[i, b] == (if transposed then blk[b - c0][m] else blk[m][b - c0])
    ensures forall a, b :: 0 <= a < Ke.Length0 && 0 <= b < Ke.Length1 && !(a == i && c0 <= b < c0 + n) ==>
      Ke[a, b] == old(Ke[a, b])
  {
    var j := 0;
    for q := 0 to n
      invariant j == q
      invariant forall b :: c0 <= b < c0 + j ==> Ke[i, b] == (if transposed then blk[b - c0][m] else blk[m][b - c0])
      invariant forall a, b :: 0 <= a < Ke.Length0 && 0 <= b < Ke.Length1 && !(a == i && c0 <= b < c0 + j) ==>
        Ke[a, b] == old(Ke[a, b])
    {
      Ke[i, j + c0] := if transposed then blk[q][m] else blk[m][q];
      j := j + 1;
    }
  }

  /** Rows i0 .. i0 + n - 1, columns c0 .. c0 + n - 1 holding the copied sub-block are block (rb, cb) of the folded matrix. */
  lemma RectDone(Ke: array2<real>, bl: SubBlocks, n: nat, rb: int, cb: int, i0: int, c0: int)
    requires 0 < n && Shaped(bl, n) && Ke.Length0 == 4 * n && Ke.Length1 == 4 * n
    requires 0 <= rb < 4 && 0 <= cb < 4 && i0 == rb * n && c0 == cb * n
    requires forall a, b :: i0 <= a < i0 + n && c0 <= b < c0 + n ==>
      Ke[a, b] == (if rb > cb then SourceBlock(bl, rb, cb)[b - c0][a - i0] else SourceBlock(bl, rb, cb)[a - i0][b - c0])
    ensures BlockDone(Ke, bl, n, rb, cb)
  {
    BlockRange(n, rb, i0);
    BlockRange(n, cb, c0);
  }

  /** The indices of block rb are those from rb * n on, n of them, and their local position is the offset from rb * n. */
  lemma BlockRange(n: nat, rb: int, i0: int)
    requires 0 < n && 0 <= rb < 4 && i0 == rb * n
    ensures 0 <= i0 && i0 + n <= 4 * n
    ensures forall a :: 0 <= a < 4 * n ==> (BlockOf(a, n) == rb <==> i0 <= a < i0 + n)
    ensures forall a :: i0 <= a < i0 + n ==> NodeOf(a, n) == a - i0
  {
    if rb == 0 {
    } else if rb == 1 {
      assert i0 == n;
    } else if rb == 2 {
      assert i0 == 2 * n;
    } else {
      assert i0 == 3 * n;
    }
  }

  /**
   * The four double loops of row block rb: blocks (rb, 0) .. (rb, 3) from
   * row rb * n on, the row counter stepped back by n after each of the
   * first three loops. Rows of the other row blocks keep their entries.
   */
  method PlaceRowBlock(Ke: array2<real>, bl: SubBlocks, n: nat, i0: int, rb: int) returns (i: int)
    requires 0 < n && Shaped(bl, n) && Ke.Length0 == 4 * n && Ke.Length1 == 4 * n
    requires 0 <= rb < 4 && i0 == rb * n
    modifies Ke
    ensures i == i0 + n
    ensures forall cb :: 0 <= cb < 4 ==> BlockDone(Ke, bl, n, rb, cb)
    ensures forall r, cb :: 0 <= r < 4 && r != rb && 0 <= cb < 4 && old(BlockDone(Ke, bl, n, r, cb)) ==> BlockDone(Ke, bl, n, r, cb)
  {
    i := PlaceBlock(Ke, SourceBlock(bl, rb, 0), n, i0, 0, rb > 0, bl, rb, 0);
    i := i - n;
    i := PlaceBlock(Ke, SourceBlock(bl, rb, 1), n, i, n, rb > 1, bl, rb, 1);
    i := i - n;
    i := PlaceBlock(Ke, SourceBlock(bl, rb, 2), n, i, 2 * n, rb > 2, bl, rb, 2);
    i := i - n;
    i := PlaceBlock(Ke, SourceBlock(bl, rb, 3), n, i, 3 * n, false, bl, rb, 3);
  }

  /**
   * The fold of the ten sub-blocks into Ke: the sixteen double loops of the
   * source, four per row block, in order. Whatever Ke held before,
   * afterwards every entry is the folded element matrix.
   */
  method FoldStiffness(Ke: array2<real>, bl: SubBlocks, n: nat)
    requires 0 < n && Shaped(bl, n) && Ke.Length0 == 4 * n && Ke.Length1 == 4 * n
    modifies Ke
    ensures forall a, b :: 0 <= a < 4 * n && 0 <= b < 4 * n ==> Ke[a, b] == KeEntry(bl, n, a, b)
  {
    var i := 0;
    i := PlaceRowBlock(Ke, bl, n, i, 0);
    i := PlaceRowBlock(Ke, bl, n, i, 1);
    i := PlaceRowBlock(Ke, bl, n, i, 2);
    i := PlaceRowBlock(Ke, bl, n, i, 3);
    forall a, b | 0 <= a < 4 * n && 0 <= b < 4 * n
      ensures Ke[a, b] == KeEntry(bl, n, a, b)
    {
      assert BlockDone(Ke, bl, n, BlockOf(a, n), BlockOf(b, n));
    }
  }

  /** The folded element matrix as rows of values. */
  function KeMatrix(bl: SubBlocks, n: nat): (M: seq<seq<real>>)
    requires Shaped(bl, n)
    ensures |M| == 4 * n && forall a :: 0 <= a < 4 * n ==> |M[a]| == 4 * n
    ensures forall a, b :: 0 <= a < 4 * n && 0 <= b < 4 * n ==> M[a][b] == KeEntry(bl, n, a, b)
  {
    seq(4 * n, a => seq(4 * n, b => if 0 <= a < 4 * n && 0 <= b < 4 * n then KeEntry(bl, n, a, b) else 0.0))
  }

  /** b equals its transpose. */
  predicate Symmetric(b: seq<seq<real>>, n: nat)
    requires Square(b, n)
  {
    forall m, q :: 0 <= m < n && 0 <= q < n ==> b[m][q] == b[q][m]
  }

  /** Every block off the diagonal of the folded matrix is the transpose of its mirror block. */
  lemma OffDiagonalTransposed(bl: SubBlocks, n: nat, a: int, b: int)
    requires Shaped(bl, n) && 0 <= a < 4 * n && 0 <= b < 4 * n && BlockOf(a, n) != BlockOf(b, n)
    ensures KeEntry(bl, n, a, b) == KeEntry(bl, n, b, a)
  {
  }

  /** The folded matrix is symmetric exactly when the four diagonal sub-blocks Ke_11, Ke_22, Ke_33, Ke_44 are. */
  lemma FoldSymmetric(bl: SubBlocks, n: nat)
    requires 0 < n && Shaped(bl, n)
    ensures (forall a, b :: 0 <= a < 4 * n && 0 <= b < 4 * n ==> KeEntry(bl, n, a, b) == KeEntry(bl, n, b, a))
        <==> Symmetric(bl.k11, n) && Symmetric(bl.k22, n) && Symmetric(bl.k33, n) && Symmetric(bl.k44, n)
  {
    if forall a, b :: 0 <= a < 4 * n && 0 <= b < 4 * n ==> KeEntry(bl, n, a, b) == KeEntry(bl, n, b, a) {
      DiagonalSymmetric(bl, n, 0, bl.k11);
      DiagonalSymmetric(bl, n, 1, bl.k22);
      DiagonalSymmetric(bl, n, 2, bl.k33);
      DiagonalSymmetric(bl, n, 3, bl.k44);
    }
    if Symmetric(bl.k11, n) && Symmetric(bl.k22, n) && Symmetric(bl.k33, n) && Symmetric(bl.k44, n) {
      forall a, b | 0 <= a < 4 * n && 0 <= b < 4 * n
        ensures KeEntry(bl, n, a, b) == KeEntry(bl, n, b, a)
      {
        if BlockOf(a, n) == BlockOf(b, n) {
          var blk := Upper(bl, BlockOf(a, n), BlockOf(a, n));
          assert blk[NodeOf(a, n)][NodeOf(b, n)] == blk[NodeOf(b, n)][NodeOf(a, n)];
        }
      }
    }
  }

  /** A symmetric folded matrix has a symmetric diagonal block rb. */
  lemma DiagonalSymmetric(bl: SubBlocks, n: nat, rb: int, blk: seq<seq<real>>)
    requires 0 < n && Shaped(bl, n) && 0 <= rb < 4 && blk == Upper(bl, rb, rb)
    requires forall a, b :: 0 <= a < 4 * n && 0 <= b < 4 * n ==> KeEntry(bl, n, a, b) == KeEntry(bl, n, b, a)
    ensures Square(blk, n) && Symmetric(blk, n)
  {
    var i0 := rb * n;
    BlockRange(n, rb, i0);
    assert i0 + n <= 4 * n by {
      Sums.MulLe(rb + 1, 4, n);
    }
    forall m, q | 0 <= m < n && 0 <= q < n
      ensures blk[m][q] == blk[q][m]
    {
      assert KeEntry(bl, n, i0 + m, i0 + q) == KeEntry(bl, n, i0 + q, i0 + m);
    }
  }

  /** The zeroing of Ke and Fe at the start of every element. */
  method ZeroElement(Ke: array2<real>, Fe: array<real>)
    requires Ke.Length0 == Fe.Length
    modifies Ke, Fe
    ensures forall a :: 0 <= a < Fe.Length ==> Fe[a] == 0.0
    ensures forall a, b :: 0 <= a < Ke.Length0 && 0 <= b < Ke.Length1 ==> Ke[a, b] == 0.0
  {
    for i := 0 to Fe.Length
      invariant forall a :: 0 <= a < i ==> Fe[a] == 0.0
      invariant forall a, b :: 0 <= a < i && 0 <= b < Ke.Length1 ==> Ke[a, b] == 0.0
    {
      Fe[i] := 0.0;
      for j := 0 to Ke.Length1
        modifies Ke
        invariant forall a, b :: 0 <= a < i && 0 <= b < Ke.Length1 ==> Ke[a, b] == 0.0
        invariant forall b :: 0 <= b < j ==> Ke[i, b] == 0.0
      {
        Ke[i, j] := 0.0;
      }
    }
  }

  /** The zeroing of the four load sub-vectors Fe_1 .. Fe_4 at the start of every element. */
  method ZeroLoads(fe1: array<real>, fe2: array<real>, fe3: array<real>, fe4: array<real>, n: nat)
    requires fe1.Length == n && fe2.Length == n && fe3.Length == n && fe4.Length == n
    modifies fe1, fe2, fe3, fe4
    ensures forall k :: 0 <= k < n ==> fe1[k] == 0.0 && fe2[k] == 0.0 && fe3[k] == 0.0 && fe4[k] == 0.0
  {
    for i := 0 to n
      modifies fe1, fe2, fe3, fe4
      invariant forall k :: 0 <= k < i ==> fe1[k] == 0.0 && fe2[k] == 0.0 && fe3[k] == 0.0 && fe4[k] == 0.0
    {
      fe1[i] := 0.0;
      fe2[i] := 0.0;
      fe3[i] := 0.0;
      fe4[i] := 0.0;
    }
  }

  /** One loop of the load fold: Fe[i0 + k] = part[k] for k < n, with the running counter i returned advanced by n. */
  method PlaceLoad(Fe: array<real>, part: array<real>, n: nat, i0: int) returns (i: int)
    requires part.Length == n && Fe != part && 0 <= i0 && i0 + n <= Fe.Length
    modifies Fe
    ensures i == i0 + n
    ensures Fe[..i] == old(Fe[..i0]) + part[..]
  {
    i := i0;
    for j := 0 to n
      invariant i == i0 + j
      invariant Fe[..i] == old(Fe[..i0]) + part[..j]
    {
      Fe[i] := part[j];
      i := i + 1;
    }
  }

  /** The load fold: Fe is Fe_1, Fe_2, Fe_3, Fe_4 one after the other. */
  method FoldLoad(Fe: array<real>, fe1: array<real>, fe2: array<real>, fe3: array<real>, fe4: array<real>, n: nat)
    requires fe1.Length == n && fe2.Length == n && fe3.Length == n && fe4.Length == n && Fe.Length == 4 * n
    requires Fe != fe1 && Fe != fe2 && Fe != fe3 && Fe != fe4
    modifies Fe
    ensures Fe[..] == fe1[..] + fe2[..] + fe3[..] + fe4[..]
  {
    var i := 0;
    i := PlaceLoad(Fe, fe1, n, i);
    assert Fe[..i] == fe1[..];
    i := PlaceLoad(Fe, fe2, n, i);
    assert Fe[..i] == fe1[..] + fe2[..];
    i := PlaceLoad(Fe, fe3, n, i);
    assert Fe[..i] == fe1[..] + fe2[..] + fe3[..];
    i := PlaceLoad(Fe, fe4, n, i);
    assert Fe[..] == Fe[..i];
  }

  /**
   * The load vector of an element: the quadrature loop never adds to
   * Fe_1 .. Fe_4, so after the zeroing and the fold every Fe is zero.
   */
  method ElementLoad(Fe: array<real>, fe1: array<real>, fe2: array<real>, fe3: array<real>, fe4: array<real>, n: nat)
    requires fe1.Length == n && fe2.Length == n && fe3.Length == n && fe4.Length == n && Fe.Length == 4 * n
    requires Fe != fe1 && Fe != fe2 && Fe != fe3 && Fe != fe4
    modifies Fe, fe1, fe2, fe3, fe4
    ensures forall k :: 0 <= k < 4 * n ==> Fe[k] == 0.0
  {
    ZeroLoads(fe1, fe2, fe3, fe4, n);
    FoldLoad(Fe, fe1, fe2, fe3, fe4, n);
    assert forall k :: 0 <= k < 4 * n ==> Fe[k] == (fe1[..] + fe2[..] + fe3[..] + fe4[..])[k];
  }

  /**
   * The per-element part of the element loop outside the quadrature: Ke and
   * Fe zeroed, the load parts zeroed and folded, and the stiffness blocks
   * folded. Ke ends as the folded matrix and Fe as zero.
   */
  method ElementMatrices(bl: SubBlocks, n: nat) returns (Ke: array2<real>, Fe: array<real>)
    requires 0 < n && Shaped(bl, n)
    ensures fresh(Ke) && fresh(Fe) && Ke.Length0 == 4 * n && Ke.Length1 == 4 * n && Fe.Length == 4 * n
    ensures forall a, b :: 0 <= a < 4 * n && 0 <= b < 4 * n ==> Ke[a, b] == KeMatrix(bl, n)[a][b]
    ensures forall a :: 0 <= a < 4 * n ==> Fe[a] == 0.0
  {
    Fe := new real[4 * n];
    Ke := new real[4 * n, 4 * n];
    var fe1, fe2, fe3, fe4 := new real[n], new real[n], new real[n], new real[n];
    ZeroElement(Ke, Fe);
    ElementLoad(Fe, fe1, fe2, fe3, fe4, n);
    FoldStiffness(Ke, bl, n);
  }
}
