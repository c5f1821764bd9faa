/** Finite sums of reals and the index arithmetic shared by the assembly proofs. */
module Sums {

  /** f(0) + f(1) + ... + f(n - 1), accumulated left to right. */
  function Sum(n: nat, f: int -> real): real
  {
    if n == 0 then 0.0 else Sum(n - 1, f) + f(n - 1)
  }

  /** Sums of functions that agree on the summation range are equal. */
  lemma {:induction false} SumExt(n: nat, f: int -> real, g: int -> real)
    requires forall k :: 0 <= k < n ==> f(k) == g(k)
    ensures Sum(n, f) == Sum(n, g)
  {
    if n > 0 {
      SumExt(n - 1, f, g);
    }
  }

  /** A sum of zeros is zero. */
  lemma {:induction false} SumZero(n: nat, f: int -> real)
    requires forall k :: 0 <= k < n ==> f(k) == 0.0
    ensures Sum(n, f) == 0.0
  {
    if n > 0 {
      SumZero(n - 1, f);
    }
  }

  /** A sum whose only possibly non-zero term is f(k) equals f(k). */
  lemma {:induction false} SumSingle(n: nat, f: int -> real, k: nat)
    requires k < n
    requires forall t :: 0 <= t < n && t != k ==> f(t) == 0.0
    ensures Sum(n, f) == f(k)
  {
    if n - 1 == k {
      SumZero(n - 1, f);
    } else {
      SumSingle(n - 1, f, k);
    }
  }

  /** The function d + y |-> h(d + y): h seen from offset d. */
  function Shift(h: int -> real, d: int): int -> real
  {
    y => h(d + y)
  }

  /** Row x of a two-argument function. */
  function Row(g: (int, int) -> real, x: int): int -> real
  {
    y => g(x, y)
  }

  /** Column y of a two-argument function. */
  function Col(g: (int, int) -> real, y: int): int -> real
  {
    x => g(x, y)
  }

  /** x |-> g(x, 0) + ... + g(x, b - 1). */
  function RowSums(b: nat, g: (int, int) -> real): int -> real
  {
    x => Sum(b, Row(g, x))
  }

  /** y |-> g(0, y) + ... + g(a - 1, y). */
  function ColSums(a: nat, g: (int, int) -> real): int -> real
  {
    y => Sum(a, Col(g, y))
  }

  /** x |-> the sum of h over the x-th block [x * b, x * b + b). */
  function Chunks(b: nat, h: int -> real): int -> real
  {
    x => Sum(b, Shift(h, x * b))
  }

  /** Block (sr, sc) of g when indices are cut into blocks of length n. */
  function Block(g: (int, int) -> real, n: nat, sr: int, sc: int): (int, int) -> real
  {
    (i, j) => g(sr * n + i, sc * n + j)
  }

  /** (sr, sc) |-> the sum of g over its n x n block (sr, sc), row by row. */
  function BlockSums(g: (int, int) -> real, n: nat): (int, int) -> real
  {
    (sr, sc) => Sum(n, RowSums(n, Block(g, n, sr, sc)))
  }

  /** The sum over [0, m + b) is the sum over [0, m) plus the sum over [m, m + b). */
  lemma {:induction false} SumAppend(m: nat, b: nat, h: int -> real)
    ensures Sum(m + b, h) == Sum(m, h) + Sum(b, Shift(h, m))
  {
    if b > 0 {
      SumAppend(m, b - 1, h);
    }
  }

  /** Summation is additive. */
  lemma {:induction false} SumAdd(n: nat, h: int -> real, f: int -> real, g: int -> real)
    requires forall k :: 0 <= k < n ==> h(k) == f(k) + g(k)
    ensures Sum(n, h) == Sum(n, f) + Sum(n, g)
  {
    if n > 0 {
      SumAdd(n - 1, h, f, g);
    }
  }

  /** A range of a * b indices splits into a consecutive blocks of length b. */
  lemma {:induction false} SumBlocks(a: nat, b: nat, h: int -> real)
    ensures Sum(a * b, h) == Sum(a, Chunks(b, h))
  {
    if a > 0 {
      SumBlocks(a - 1, b, h);
      assert a * b == (a - 1) * b + b;
      SumAppend((a - 1) * b, b, h);
    }
  }

  /** Two finite sums commute. */
  lemma {:induction false} SumSwap(a: nat, b: nat, g: (int, int) -> real)
    ensures Sum(a, RowSums(b, g)) == Sum(b, ColSums(a, g))
  {
    if a > 0 {
      SumSwap(a - 1, b, g);
      forall k | 0 <= k < b
        ensures ColSums(a, g)(k) == ColSums(a - 1, g)(k) + Row(g, a - 1)(k)
      {
        assert Col(g, k)(a - 1) == Row(g, a - 1)(k);
      }
      SumAdd(b, ColSums(a, g), ColSums(a - 1, g), Row(g, a - 1));
      assert Sum(a, RowSums(b, g)) == Sum(a - 1, RowSums(b, g)) + Sum(b, Row(g, a - 1));
      assert Sum(a, RowSums(b, g)) == Sum(b, ColSums(a - 1, g)) + Sum(b, Row(g, a - 1));
    } else {
      SumZero(b, ColSums(a, g));
    }
  }

  /** Sum over i < n, sc < b of the sum over j < n of g(sr * n + i, sc * n + j), for a fixed sr. */
  function Strip(g: (int, int) -> real, n: nat, sr: int): (int, int) -> real
  {
    (i, sc) => Sum(n, Shift(Row(g, sr * n + i), sc * n))
  }

  /**
   * Summing g over an (a*n) x (b*n) index square row by row equals summing it
   * block by block: over row blocks sr < a, column blocks sc < b, and then
   * row by row over the n x n entries of block (sr, sc).
   */
  lemma BlockReorder(a: nat, b: nat, n: nat, g: (int, int) -> real)
    ensures Sum(a * n, RowSums(b * n, g)) == Sum(a, RowSums(b, BlockSums(g, n)))
  {
    SumBlocks(a, n, RowSums(b * n, g));
    forall sr | 0 <= sr < a
      ensures Chunks(n, RowSums(b * n, g))(sr) == RowSums(b, BlockSums(g, n))(sr)
    {
      // Split every row of the strip into its b column blocks.
      forall i | 0 <= i < n
        ensures Shift(RowSums(b * n, g), sr * n)(i) == RowSums(b, Strip(g, n, sr))(i)
      {
        SumBlocks(b, n, Row(g, sr * n + i));
        SumExt(b, Chunks(n, Row(g, sr * n + i)), Row(Strip(g, n, sr), i));
      }
      SumExt(n, Shift(RowSums(b * n, g), sr * n), RowSums(b, Strip(g, n, sr)));
      SumSwap(n, b, Strip(g, n, sr));
      forall sc | 0 <= sc < b
        ensures ColSums(n, Strip(g, n, sr))(sc) == Row(BlockSums(g, n), sr)(sc)
      {
        forall i | 0 <= i < n
          ensures Col(Strip(g, n, sr), sc)(i) == RowSums(n, Block(g, n, sr, sc))(i)
        {
          SumExt(n, Shift(Row(g, sr * n + i), sc * n), Row(Block(g, n, sr, sc), i));
        }
        SumExt(n, Col(Strip(g, n, sr), sc), RowSums(n, Block(g, n, sr, sc)));
      }
      SumExt(b, ColSums(n, Strip(g, n, sr)), Row(BlockSums(g, n), sr));
    }
    SumExt(a, Chunks(n, RowSums(b * n, g)), RowSums(b, BlockSums(g, n)));
  }

  /** x * n <= y * n for x <= y and n >= 0. */
  lemma MulLe(x: int, y: int, n: int)
    requires x <= y && 0 <= n
    ensures x * n <= y * n
  {
    var d := y - x;
    assert y * n == x * n + d * n;
    assert d * n >= 0;
  }

  /** An index in block b of blocks of length n has quotient b and remainder r - b * n. */
  lemma DivRange(r: int, n: int, b: int)
    requires n > 0 && b * n <= r < b * n + n
    ensures r / n == b && r % n == r - b * n
  {
    var q, s := r / n, r % n;
    assert r == q * n + s && 0 <= s < n;
    if q > b {
      MulLe(b + 1, q, n);
      assert false;
    }
    if q < b {
      MulLe(q + 1, b, n);
      assert false;
    }
  }
}
