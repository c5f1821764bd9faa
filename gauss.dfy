// Dense Gaussian elimination with scaled partial pivoting, as used by the
// Stokes solver on the assembled global system K u = F.
//
// Rows are never swapped physically: an index array `indx` records the row
// order, and every step works on K[indx[i]][...]. The arithmetic is exact
// (Dafny reals); the ghost view Entries(K) turns the array into a sequence of
// rows so the algebra can be stated on values.

module Gauss {

  // ---------------------------------------------------------------------
  // Values and the linear algebra they obey.

  function Abs(x: real): (r: real)
    ensures 0.0 <= r && (r == x || r == -x)
  {
    if x < 0.0 then -x else x
  }

  /** The scaled pivot ratio |a| / s of an entry a in a row of scale s. */
  function Ratio(a: real, s: real): (r: real)
    requires s > 0.0
    ensures 0.0 <= r && (r == 0.0 <==> a == 0.0)
  {
    Abs(a) / s
  }

  /** The elimination multiplier: adding it times the pivot p cancels a. */
  function Multiplier(a: real, p: real): (m: real)
    requires p != 0.0
    ensures a + m * p == 0.0
  {
    -a / p
  }

  /** row[lo] * x[lo] + ... + row[hi - 1] * x[hi - 1], summed upwards. */
  function DotRange(row: seq<real>, x: seq<real>, lo: int, hi: int): real
    requires 0 <= lo <= hi <= |row| && hi <= |x|
    decreases hi - lo
  {
    if lo == hi then 0.0 else DotRange(row, x, lo, hi - 1) + row[hi - 1] * x[hi - 1]
  }

  ghost predicate Sized(M: seq<seq<real>>, N: int)
  {
    |M| == N && forall r :: 0 <= r < N ==> |M[r]| == N
  }

  ghost predicate Square(M: seq<seq<real>>, b: seq<real>, N: int)
  {
    Sized(M, N) && |b| == N
  }

  /** x solves the N x N system M x = b. */
  ghost predicate Solves(M: seq<seq<real>>, b: seq<real>, x: seq<real>, N: int)
  {
    Square(M, b, N) && |x| == N && forall r :: 0 <= r < N ==> DotRange(M[r], x, 0, N) == b[r]
  }

  /** Two systems with the same solutions. */
  ghost predicate Equivalent(M: seq<seq<real>>, b: seq<real>, M0: seq<seq<real>>, b0: seq<real>, N: int)
  {
    Square(M, b, N) && Square(M0, b0, N) && forall x :: Solves(M, b, x, N) <==> Solves(M0, b0, x, N)
  }

  /** s is a permutation of 0 .. N - 1. */
  ghost predicate Permutation(s: seq<int>, N: int)
  {
    |s| == N && (forall i :: 0 <= i < N ==> 0 <= s[i] < N) &&
    (forall i, j :: 0 <= i < j < N ==> s[i] != s[j]) &&
    (forall r :: 0 <= r < N ==> r in s)
  }

  /** Columns 0 .. k - 1 eliminated: in the row order s, every row below
      position j has a zero in column j. */
  ghost predicate Upper(M: seq<seq<real>>, s: seq<int>, k: int, N: int)
  {
    Sized(M, N) && Permutation(s, N) && 0 <= k <= N &&
    forall j, i :: 0 <= j < k && j < i < N ==> M[s[i]][j] == 0.0
  }

  /** The first k pivots, M[s[j]][j], are non-zero. */
  ghost predicate Pivots(M: seq<seq<real>>, s: seq<int>, k: int, N: int)
  {
    Sized(M, N) && Permutation(s, N) && 0 <= k <= N &&
    forall j {:trigger M[s[j]][j]} :: 0 <= j < k ==> M[s[j]][j] != 0.0
  }

  /** The right-hand side read in the row order s. */
  ghost function Permuted(y: seq<real>, s: seq<int>): (x: seq<real>)
    requires forall i :: 0 <= i < |s| ==> 0 <= s[i] < |y|
    ensures |x| == |s| && forall c :: 0 <= c < |s| ==> x[c] == y[s[c]]
  {
    seq(|s|, c requires 0 <= c < |s| => y[s[c]])
  }

  /** The rows of a two-dimensional array as a sequence of sequences. */
  ghost function Entries(K: array2<real>): (M: seq<seq<real>>)
    reads K
    ensures |M| == K.Length0 && forall i :: 0 <= i < K.Length0 ==> |M[i]| == K.Length1
    ensures forall i, j :: 0 <= i < K.Length0 && 0 <= j < K.Length1 ==> M[i][j] == K[i, j]
  {
    seq(K.Length0, i requires 0 <= i < K.Length0 reads K => seq(K.Length1, j requires 0 <= j < K.Length1 reads K => K[i, j]))
  }

  /** Row r of K has a non-zero entry among its first N columns. */
  ghost predicate NonZeroRow(K: array2<real>, r: int, N: int)
    reads K
  {
    0 <= r < K.Length0 && N <= K.Length1 && exists c :: 0 <= c < N && K[r, c] != 0.0
  }

  /** s is the largest |K[r, c]| of row r. */
  ghost predicate RowMax(K: array2<real>, r: int, N: int, s: real)
    reads K
  {
    K.Length0 == N && K.Length1 == N && 0 <= r < N &&
    (forall c :: 0 <= c < N ==> Abs(K[r, c]) <= s) && (exists c :: 0 <= c < N && s == Abs(K[r, c]))
  }

  // ---------------------------------------------------------------------
  // Lemmas about DotRange.

  /** Peeling the lowest term off a sum. */
  lemma {:induction false} DotRangeLow(row: seq<real>, x: seq<real>, lo: int, hi: int)
    requires 0 <= lo < hi <= |row| && hi <= |x|
    ensures DotRange(row, x, lo, hi) == row[lo] * x[lo] + DotRange(row, x, lo + 1, hi)
    decreases hi - lo
  {
    if lo + 1 < hi {
      DotRangeLow(row, x, lo, hi - 1);
    }
  }

  /** A sum only reads x on its own range. */
  lemma {:induction false} DotRangeAgree(row: seq<real>, x: seq<real>, y: seq<real>, lo: int, hi: int)
    requires 0 <= lo <= hi <= |row| && hi <= |x| && hi <= |y|
    requires forall c :: lo <= c < hi ==> x[c] == y[c]
    ensures DotRange(row, x, lo, hi) == DotRange(row, y, lo, hi)
    decreases hi - lo
  {
    if lo < hi {
      DotRangeAgree(row, x, y, lo, hi - 1);
    }
  }

  /** Leading zero coefficients add nothing. */
  lemma {:induction false} DotRangeZeros(row: seq<real>, x: seq<real>, lo: int, m: int, hi: int)
    requires 0 <= lo <= m <= hi <= |row| && hi <= |x|
    requires forall c :: lo <= c < m ==> row[c] == 0.0
    ensures DotRange(row, x, lo, hi) == DotRange(row, x, m, hi)
    decreases m - lo
  {
    if lo < m {
      DotRangeLow(row, x, lo, hi);
      DotRangeZeros(row, x, lo + 1, m, hi);
    }
  }

  /** The sum is linear in the row: (a + m b) . x == a . x + m (b . x). */
  lemma {:induction false} DotRangeLinear(a: seq<real>, b: seq<real>, c: seq<real>, m: real, x: seq<real>, lo: int, hi: int)
    requires 0 <= lo <= hi <= |a| && hi <= |b| && hi <= |c| && hi <= |x|
    requires forall j :: lo <= j < hi ==> c[j] == a[j] + m * b[j]
    ensures DotRange(c, x, lo, hi) == DotRange(a, x, lo, hi) + m * DotRange(b, x, lo, hi)
    decreases hi - lo
  {
    if lo < hi {
      DotRangeLinear(a, b, c, m, x, lo, hi - 1);
      assert c[hi - 1] * x[hi - 1] == a[hi - 1] * x[hi - 1] + m * (b[hi - 1] * x[hi - 1]);
    }
  }

  // ---------------------------------------------------------------------
  // Row operations keep the solutions.

  /** M1, b1 is M, b with row ri increased, from column k on, by m times row rp. */
  ghost predicate Combined(M1: seq<seq<real>>, b1: seq<real>, M: seq<seq<real>>, b: seq<real>, ri: int, rp: int, m: real, k: int, N: int)
  {
    Square(M1, b1, N) && Square(M, b, N) && 0 <= ri < N && 0 <= rp < N && 0 <= k <= N &&
    (forall r, c {:trigger M1[r][c]} :: 0 <= r < N && 0 <= c < N ==> M1[r][c] == if r == ri && k <= c then M[r][c] + m * M[rp][c] else M[r][c]) &&
    (forall r :: 0 <= r < N ==> b1[r] == if r == ri then b[r] + m * b[rp] else b[r])
  }

  /**
   * Adding a multiple of row rp to another row ri, from column k on, gives a
   * system with exactly the same solutions when row rp is zero before column
   * k (the update then equals the full row operation, which can be undone).
   */
  lemma RowCombination(M1: seq<seq<real>>, b1: seq<real>, M: seq<seq<real>>, b: seq<real>, ri: int, rp: int, m: real, k: int, N: int)
    requires Combined(M1, b1, M, b, ri, rp, m, k, N) && ri != rp
    requires forall c :: 0 <= c < k ==> M[rp][c] == 0.0
    ensures Equivalent(M1, b1, M, b, N)
  {
    forall x | |x| == N
      ensures Solves(M1, b1, x, N) <==> Solves(M, b, x, N)
    {
      DotRangeLinear(M[ri], M[rp], M1[ri], m, x, 0, N);
      assert forall c :: 0 <= c < N ==> M1[rp][c] == M[rp][c];
      assert M1[rp] == M[rp];
      if Solves(M, b, x, N) {
        forall r | 0 <= r < N
          ensures DotRange(M1[r], x, 0, N) == b1[r]
        {
          if r != ri {
            assert forall c :: 0 <= c < N ==> M1[r][c] == M[r][c];
            assert M1[r] == M[r];
          }
        }
      }
      if Solves(M1, b1, x, N) {
        forall r | 0 <= r < N
          ensures DotRange(M[r], x, 0, N) == b[r]
        {
          if r != ri {
            assert forall c :: 0 <= c < N ==> M1[r][c] == M[r][c];
            assert M1[r] == M[r];
          }
        }
      }
    }
  }

  lemma EquivalentTrans(M2: seq<seq<real>>, b2: seq<real>, M1: seq<seq<real>>, b1: seq<real>, M0: seq<seq<real>>, b0: seq<real>, N: int)
    requires Equivalent(M2, b2, M1, b1, N) && Equivalent(M1, b1, M0, b0, N)
    ensures Equivalent(M2, b2, M0, b0, N)
  {
  }

  // ---------------------------------------------------------------------
  // Forward elimination, one pivot at a time.

  /** Positions k + 1 .. i - 1 of the row order combined with the pivot row s[k]. */
  ghost predicate Below(M1: seq<seq<real>>, b1: seq<real>, M: seq<seq<real>>, b: seq<real>, s: seq<int>, k: int, i: int, N: int)
  {
    Square(M1, b1, N) && Square(M, b, N) && Permutation(s, N) && 0 <= k < N && M[s[k]][k] != 0.0 &&
    (forall j, c {:trigger M1[s[j]][c]} :: 0 <= j < N && 0 <= c < N ==>
      M1[s[j]][c] == if k < j < i && k <= c then M[s[j]][c] + Multiplier(M[s[j]][k], M[s[k]][k]) * M[s[k]][c] else M[s[j]][c]) &&
    (forall j {:trigger b1[s[j]]} :: 0 <= j < N ==>
      b1[s[j]] == if k < j < i then b[s[j]] + Multiplier(M[s[j]][k], M[s[k]][k]) * b[s[k]] else b[s[j]])
  }

  lemma BelowStart(M: seq<seq<real>>, b: seq<real>, s: seq<int>, k: int, N: int)
    requires Square(M, b, N) && Permutation(s, N) && 0 <= k < N && M[s[k]][k] != 0.0
    ensures Below(M, b, M, b, s, k, k + 1, N) && Equivalent(M, b, M, b, N)
  {
  }

  /** One more lower row eliminated keeps the solutions and extends Below. */
  lemma BelowStep(M2: seq<seq<real>>, b2: seq<real>, M1: seq<seq<real>>, b1: seq<real>, M: seq<seq<real>>, b: seq<real>,
                  s: seq<int>, k: int, i: int, N: int)
    requires Below(M1, b1, M, b, s, k, i, N) && Equivalent(M1, b1, M, b, N) && k < i < N
    requires forall c :: 0 <= c < k ==> M[s[k]][c] == 0.0
    requires Combined(M2, b2, M1, b1, s[i], s[k], Multiplier(M1[s[i]][k], M1[s[k]][k]), k, N)
    ensures Below(M2, b2, M, b, s, k, i + 1, N) && Equivalent(M2, b2, M, b, N)
  {
    assert M1[s[k]][k] == M[s[k]][k] && M1[s[i]][k] == M[s[i]][k];
    forall c | 0 <= c < k
      ensures M1[s[k]][c] == 0.0
    {
      assert M1[s[k]][c] == M[s[k]][c];
    }
    RowCombination(M2, b2, M1, b1, s[i], s[k], Multiplier(M1[s[i]][k], M1[s[k]][k]), k, N);
    forall j, c | 0 <= j < N && 0 <= c < N
      ensures M2[s[j]][c] == if k < j < i + 1 && k <= c then M[s[j]][c] + Multiplier(M[s[j]][k], M[s[k]][k]) * M[s[k]][c] else M[s[j]][c]
    {
      assert M1[s[k]][c] == M[s[k]][c];
    }
  }

  /** A finished elimination step extends the eliminated columns and pivots by one. */
  lemma ForwardStep(M1: seq<seq<real>>, b1: seq<real>, M: seq<seq<real>>, b: seq<real>, s: seq<int>, k: int, N: int)
    requires Below(M1, b1, M, b, s, k, N, N) && Upper(M, s, k, N) && Pivots(M, s, k, N)
    ensures Upper(M1, s, k + 1, N) && Pivots(M1, s, k + 1, N)
  {
    forall j, i | 0 <= j < k + 1 && j < i < N
      ensures M1[s[i]][j] == 0.0
    {
      if j == k {
        assert M1[s[i]][k] == M[s[i]][k] + Multiplier(M[s[i]][k], M[s[k]][k]) * M[s[k]][k];
      } else {
        assert M1[s[i]][j] == M[s[i]][j];
      }
    }
    forall j | 0 <= j < k + 1
      ensures M1[s[j]][j] != 0.0
    {
      assert M1[s[j]][j] == M[s[j]][j];
    }
  }

  /** Swapping positions k and m, both at or after k, keeps a permutation and what is eliminated. */
  lemma SwapKeeps(M: seq<seq<real>>, s: seq<int>, t: seq<int>, k: int, m: int, N: int)
    requires Upper(M, s, k, N) && Pivots(M, s, k, N) && k <= m < N && k < N
    requires t == s[k := s[m]][m := s[k]]
    ensures Permutation(t, N) && Upper(M, t, k, N) && Pivots(M, t, k, N)
  {
    forall r | 0 <= r < N
      ensures r in t
    {
      assert r in s;
      var i :| 0 <= i < N && s[i] == r;
      if i == k {
        assert t[m] == r;
      } else if i == m {
        assert t[k] == r;
      } else {
        assert t[i] == r;
      }
    }
  }

  // ---------------------------------------------------------------------
  // Back substitution on the eliminated system.

  /** Positions k + 1 .. N - 1 solved, the rest of F still as it was (y). */
  ghost predicate BackDone(U: seq<seq<real>>, y: seq<real>, F: seq<real>, s: seq<int>, k: int, N: int)
  {
    Square(U, y, N) && |F| == N && Permutation(s, N) && -1 <= k < N &&
    (forall m {:trigger DotRange(U[s[m]], Permuted(F, s), m, N)} :: k < m < N ==> DotRange(U[s[m]], Permuted(F, s), m, N) == y[s[m]]) &&
    (forall m {:trigger F[s[m]]} :: 0 <= m <= k ==> F[s[m]] == y[s[m]])
  }

  /** Solving position k from the positions after it extends BackDone by one. */
  lemma BackStep(U: seq<seq<real>>, y: seq<real>, F: seq<real>, s: seq<int>, k: int, sum: real, N: int)
    requires BackDone(U, y, F, s, k, N) && 0 <= k && U[s[k]][k] != 0.0
    requires sum == DotRange(U[s[k]], Permuted(F, s), k + 1, N)
    ensures BackDone(U, y, F[s[k] := (F[s[k]] - sum) / U[s[k]][k]], s, k - 1, N)
  {
    var v := (F[s[k]] - sum) / U[s[k]][k];
    var F1 := F[s[k] := v];
    var x, x1 := Permuted(F, s), Permuted(F1, s);
    forall c | 0 <= c < N && c != k
      ensures x1[c] == x[c]
    {
      assert s[c] != s[k];
    }
    forall m | 0 <= m < k
      ensures F1[s[m]] == y[s[m]]
    {
      assert s[m] != s[k];
    }
    forall m | k < m < N
      ensures DotRange(U[s[m]], x1, m, N) == y[s[m]]
    {
      DotRangeAgree(U[s[m]], x, x1, m, N);
    }
    DotRangeLow(U[s[k]], x1, k, N);
    DotRangeAgree(U[s[k]], x, x1, k + 1, N);
    assert x1[k] == v;
    SolveFor(U[s[k]][k], F[s[k]], sum, v);
    assert F[s[k]] == y[s[k]];
    assert DotRange(U[s[k]], x1, k, N) == y[s[k]];
    assert forall m :: k - 1 < m < N ==> DotRange(U[s[m]], x1, m, N) == y[s[m]];
  }

  /** v = (f - sum) / p solves p v + sum = f. */
  lemma SolveFor(p: real, f: real, sum: real, v: real)
    requires p != 0.0 && v == (f - sum) / p
    ensures p * v + sum == f
  {
  }

  /** With every position solved, the permuted F solves the triangular system. */
  lemma BackSolved(U: seq<seq<real>>, y: seq<real>, F: seq<real>, s: seq<int>, N: int)
    requires BackDone(U, y, F, s, -1, N) && Upper(U, s, N, N)
    ensures Solves(U, y, Permuted(F, s), N)
  {
    var x := Permuted(F, s);
    forall r | 0 <= r < N
      ensures DotRange(U[r], x, 0, N) == y[r]
    {
      assert r in s;
      var m :| 0 <= m < N && s[m] == r;
      DotRangeZeros(U[r], x, 0, m, N);
    }
  }

  /**
   * Two solutions of a triangular system with non-zero pivots agree from
   * position k on: position k is fixed by row s[k] once the later ones are.
   */
  lemma {:induction false} TriangularAgree(U: seq<seq<real>>, y: seq<real>, s: seq<int>, x: seq<real>, z: seq<real>, k: int, N: int)
    requires Upper(U, s, N, N) && Pivots(U, s, N, N) && Solves(U, y, x, N) && Solves(U, y, z, N) && 0 <= k <= N
    ensures forall c :: k <= c < N ==> x[c] == z[c]
    decreases N - k
  {
    if k < N {
      TriangularAgree(U, y, s, x, z, k + 1, N);
      var row := U[s[k]];
      assert row[k] != 0.0;
      assert forall c :: 0 <= c < k ==> row[c] == 0.0;
      assert DotRange(row, x, 0, N) == DotRange(row, z, 0, N);
      PivotRowAgree(row, x, z, k, N);
    }
  }

  /** One pivot row with zeros before column k fixes x[k] once x is fixed after k. */
  lemma PivotRowAgree(row: seq<real>, x: seq<real>, z: seq<real>, k: int, N: int)
    requires 0 <= k < N == |row| == |x| == |z| && row[k] != 0.0
    requires forall c :: 0 <= c < k ==> row[c] == 0.0
    requires forall c :: k < c < N ==> x[c] == z[c]
    requires DotRange(row, x, 0, N) == DotRange(row, z, 0, N)
    ensures x[k] == z[k]
  {
    DotRangeZeros(row, x, 0, k, N);
    DotRangeZeros(row, z, 0, k, N);
    DotRangeLow(row, x, k, N);
    DotRangeLow(row, z, k, N);
    DotRangeAgree(row, x, z, k + 1, N);
    Cancel(row[k], x[k], z[k], DotRange(row, x, k + 1, N), DotRange(row, x, 0, N));
  }

  /** A row value t = p a + d = p b + d with p non-zero fixes a == b. */
  lemma Cancel(p: real, a: real, b: real, d: real, t: real)
    requires p != 0.0 && t == p * a + d && t == p * b + d
    ensures a == b
  {
    assert p * (a - b) == 0.0;
  }

  /** A triangular system with non-zero pivots has at most one solution. */
  lemma TriangularUnique(U: seq<seq<real>>, y: seq<real>, s: seq<int>, x: seq<real>, z: seq<real>, N: int)
    requires Upper(U, s, N, N) && Pivots(U, s, N, N) && Solves(U, y, x, N) && Solves(U, y, z, N)
    ensures x == z
  {
    TriangularAgree(U, y, s, x, z, 0, N);
  }

  // ---------------------------------------------------------------------
  // The procedure.

  /** The row order starts as the identity. */
  method InitIndex(indx: array<int>, N: int)
    requires indx.Length == N
    modifies indx
    ensures forall i :: 0 <= i < N ==> indx[i] == i
    ensures Permutation(indx[..], N)
  {
    for i := 0 to N
      invariant forall j :: 0 <= j < i ==> indx[j] == j
    {
      indx[i] := i;
    }
    forall r | 0 <= r < N
      ensures r in indx[..]
    {
      assert indx[..][r] == r;
    }
  }

  /** The scale factor of one row: the largest |K[row, c]|, scanning from column 0. */
  method RowScale(K: array2<real>, row: int, N: int) returns (s: real)
    requires K.Length0 == N && K.Length1 == N && 0 <= row < N
    ensures RowMax(K, row, N, s)
  {
    s := Abs(K[row, 0]);
    ghost var at := 0;
    for col := 1 to N
      invariant 0 <= at < col && s == Abs(K[row, at])
      invariant forall c :: 0 <= c < col ==> Abs(K[row, c]) <= s
    {
      if Abs(K[row, col]) > s {
        s := Abs(K[row, col]);
        at := col;
      }
    }
  }

  /** A scale factor is positive exactly when its row has a non-zero entry. */
  lemma ScalePositive(K: array2<real>, r: int, N: int, s: real)
    requires RowMax(K, r, N, s)
    ensures s > 0.0 <==> NonZeroRow(K, r, N)
  {
    var at :| 0 <= at < N && s == Abs(K[r, at]);
    if NonZeroRow(K, r, N) {
      var c :| 0 <= c < N && K[r, c] != 0.0;
      assert Abs(K[r, c]) <= s;
    }
  }

  method ScaleFactors(K: array2<real>, scale: array<real>, N: int)
    requires K.Length0 == N && K.Length1 == N && scale.Length == N
    modifies scale
    ensures forall r :: 0 <= r < N ==> RowMax(K, r, N, scale[r])
  {
    for row := 0 to N
      invariant forall r :: 0 <= r < row ==> RowMax(K, r, N, scale[r])
    {
      scale[row] := RowScale(K, row, N);
    }
  }

  /**
   * The pivot search of step k: the largest scaled ratio over the positions
   * k .. N - 1 of the row order, the first such position on a tie.
   */
  method PivotSearch(K: array2<real>, indx: array<int>, scale: array<real>, k: int, N: int) returns (maxRatio: real, maxIndx: int)
    requires K.Length0 == N && K.Length1 == N && indx.Length == N && scale.Length == N && 0 <= k < N
    requires forall i :: 0 <= i < N ==> 0 <= indx[i] < N
    requires forall r :: 0 <= r < N ==> scale[r] > 0.0
    ensures k <= maxIndx < N && maxRatio == Ratio(K[indx[maxIndx], k], scale[indx[maxIndx]])
    ensures forall i :: k <= i < N ==> Ratio(K[indx[i], k], scale[indx[i]]) <= maxRatio
    ensures forall i :: k <= i < maxIndx ==> Ratio(K[indx[i], k], scale[indx[i]]) < maxRatio
  {
    maxRatio := Ratio(K[indx[k], k], scale[indx[k]]);
    maxIndx := k;
    for i := k + 1 to N
      invariant k <= maxIndx < i && maxRatio == Ratio(K[indx[maxIndx], k], scale[indx[maxIndx]])
      invariant forall j :: k <= j < i ==> Ratio(K[indx[j], k], scale[indx[j]]) <= maxRatio
      invariant forall j :: k <= j < maxIndx ==> Ratio(K[indx[j], k], scale[indx[j]]) < maxRatio
    {
      if Ratio(K[indx[i], k], scale[indx[i]]) > maxRatio {
        maxRatio := Ratio(K[indx[i], k], scale[indx[i]]);
        maxIndx := i;
      }
    }
  }

  /** Row ri, from column k on, plus ratio times the pivot row rp; F likewise. */
  method EliminateRow(K: array2<real>, F: array<real>, ri: int, rp: int, k: int, N: int)
    requires K.Length0 == N && K.Length1 == N && F.Length == N
    requires 0 <= ri < N && 0 <= rp < N && ri != rp && 0 <= k < N && K[rp, k] != 0.0
    modifies K, F
    ensures Combined(Entries(K), F[..], old(Entries(K)), old(F[..]), ri, rp, Multiplier(old(K[ri, k]), old(K[rp, k])), k, N)
  {
    var ratio := -K[ri, k] / K[rp, k];
    AddMultiple(K, F, ri, rp, ratio, k, N);
  }

  /** The column loop of one elimination: columns k .. N - 1 of row ri, then F[ri] at col == N. */
  method AddMultiple(K: array2<real>, F: array<real>, ri: int, rp: int, ratio: real, k: int, N: int)
    requires K.Length0 == N && K.Length1 == N && F.Length == N
    requires 0 <= ri < N && 0 <= rp < N && ri != rp && 0 <= k < N
    modifies K, F
    ensures forall r, c :: 0 <= r < N && 0 <= c < N ==>
      K[r, c] == if r == ri && k <= c then old(K[r, c]) + ratio * old(K[rp, c]) else old(K[r, c])
    ensures forall r :: 0 <= r < N ==> F[r] == if r == ri then old(F[r]) + ratio * old(F[rp]) else old(F[r])
  {
    for col := k to N + 1
      invariant forall r, c :: 0 <= r < N && 0 <= c < N ==>
        K[r, c] == if r == ri && k <= c < col then old(K[r, c]) + ratio * old(K[rp, c]) else old(K[r, c])
      invariant forall r :: 0 <= r < N ==> F[r] == if r == ri && col > N then old(F[r]) + ratio * old(F[rp]) else old(F[r])
    {
      if col == N {
        F[ri] := F[ri] + ratio * F[rp];
      } else {
        K[ri, col] := K[ri, col] + ratio * K[rp, col];
      }
    }
  }

  /** Step k of the elimination: every row after position k loses its column-k entry. */
  method EliminateBelow(K: array2<real>, F: array<real>, indx: array<int>, k: int, N: int)
    requires K.Length0 == N && K.Length1 == N && F.Length == N && indx.Length == N
    requires Permutation(indx[..], N) && 0 <= k < N && K[indx[k], k] != 0.0
    requires forall c :: 0 <= c < k ==> K[indx[k], c] == 0.0
    modifies K, F
    ensures Below(Entries(K), F[..], old(Entries(K)), old(F[..]), indx[..], k, N, N)
    ensures Equivalent(Entries(K), F[..], old(Entries(K)), old(F[..]), N)
  {
    ghost var M0, b0, s := Entries(K), F[..], indx[..];
    BelowStart(M0, b0, s, k, N);
    for i := k + 1 to N
      invariant Below(Entries(K), F[..], M0, b0, s, k, i, N)
      invariant Equivalent(Entries(K), F[..], M0, b0, N)
    {
      ghost var M1, b1 := Entries(K), F[..];
      EliminateRow(K, F, indx[i], indx[k], k, N);
      BelowStep(Entries(K), F[..], M1, b1, M0, b0, s, k, i, N);
    }
  }

  /**
   * Forward elimination. Either every column gets a pivot (stage == N), or
   * at step stage no remaining row has a non-zero entry in column stage and
   * err is set; in both cases the system keeps its solutions.
   */
  method Forward(K: array2<real>, F: array<real>, indx: array<int>, scale: array<real>, N: int) returns (err: bool, ghost stage: int)
    requires K.Length0 == N && K.Length1 == N && F.Length == N && indx.Length == N && scale.Length == N && F != scale
    requires Permutation(indx[..], N)
    requires forall r :: 0 <= r < N ==> scale[r] > 0.0
    modifies K, F, indx
    ensures Equivalent(Entries(K), F[..], old(Entries(K)), old(F[..]), N)
    ensures Upper(Entries(K), indx[..], stage, N) && Pivots(Entries(K), indx[..], stage, N)
    ensures err <==> stage < N
    ensures stage < N ==> forall i :: stage <= i < N ==> K[indx[i], stage] == 0.0
  {
    ghost var A0, b0 := Entries(K), F[..];
    err, stage := false, N;
    assert Equivalent(A0, b0, A0, b0, N);
    for k := 0 to N
      invariant Permutation(indx[..], N)
      invariant Equivalent(Entries(K), F[..], A0, b0, N)
      invariant Upper(Entries(K), indx[..], k, N) && Pivots(Entries(K), indx[..], k, N)
    {
      var maxRatio, maxIndx := PivotSearch(K, indx, scale, k, N);
      if maxRatio == 0.0 {
        err, stage := true, k;
        return;
      }
      ghost var s := indx[..];
      var tmpIndx := indx[k];
      indx[k] := indx[maxIndx];
      indx[maxIndx] := tmpIndx;
      SwapKeeps(Entries(K), s, indx[..], k, maxIndx, N);
      ghost var M, b := Entries(K), F[..];
      EliminateBelow(K, F, indx, k, N);
      ForwardStep(Entries(K), F[..], M, b, indx[..], k, N);
      EquivalentTrans(Entries(K), F[..], M, b, A0, b0, N);
    }
  }

  /** The sum of K[indx[k], col] * F[indx[col]] over the columns after k. */
  method TailSum(K: array2<real>, F: array<real>, indx: array<int>, k: int, N: int) returns (sum: real)
    requires K.Length0 == N && K.Length1 == N && F.Length == N && indx.Length == N && 0 <= k < N
    requires forall i :: 0 <= i < N ==> 0 <= indx[i] < N
    ensures sum == DotRange(Entries(K)[indx[k]], Permuted(F[..], indx[..]), k + 1, N)
  {
    ghost var row, x := Entries(K)[indx[k]], Permuted(F[..], indx[..]);
    sum := 0.0;
    for col := k + 1 to N
      invariant sum == DotRange(row, x, k + 1, col)
    {
      sum := sum + K[indx[k], col] * F[indx[col]];
    }
  }

  /** Back substitution: F, read in the row order, becomes the solution of the triangular system. */
  method BackSubstitute(K: array2<real>, F: array<real>, indx: array<int>, N: int)
    requires K.Length0 == N && K.Length1 == N && F.Length == N && indx.Length == N
    requires Upper(Entries(K), indx[..], N, N) && Pivots(Entries(K), indx[..], N, N)
    modifies F
    ensures Solves(Entries(K), old(F[..]), Permuted(F[..], indx[..]), N)
  {
    ghost var U, y, s := Entries(K), F[..], indx[..];
    var k := N - 1;
    while k >= 0
      invariant -1 <= k < N
      invariant BackDone(U, y, F[..], s, k, N)
    {
      var sum := TailSum(K, F, indx, k, N);
      BackStep(U, y, F[..], s, k, sum, N);
      ghost var next := F[..][s[k] := (F[s[k]] - sum) / U[s[k]][k]];
      F[indx[k]] := (F[indx[k]] - sum) / K[indx[k], k];
      assert F[..] == next;
      k := k - 1;
    }
    BackSolved(U, y, F[..], s, N);
  }

  /** u[k] := F[indx[k]] for every k: the solution in the original unknown order. */
  method CopyOut(F: array<real>, indx: array<int>, u: array<real>, N: int)
    requires F.Length == N && indx.Length == N && u.Length == N && F != u
    requires forall i :: 0 <= i < N ==> 0 <= indx[i] < N
    modifies u
    ensures u[..] == Permuted(F[..], indx[..])
  {
    for k := 0 to N
      invariant forall j :: 0 <= j < k ==> u[j] == F[indx[j]]
    {
      u[k] := F[indx[k]];
    }
  }

  /**
   * Solves K u = F. On success u solves the original system and is its
   * only solution, because the triangle it reaches has non-zero pivots; on err (no
   * pivot at step stage) u is untouched and the partly eliminated K, F keep
   * the original solutions while no remaining row of the order has a
   * non-zero entry in column stage.
   */
  method GaussElimination(N: nat, K: array2<real>, F: array<real>, u: array<real>) returns (err: bool, ghost order: seq<int>, ghost stage: int)
    requires K.Length0 == N && K.Length1 == N && F.Length == N && u.Length == N && F != u
    requires forall r :: 0 <= r < N ==> NonZeroRow(K, r, N)
    modifies K, F, u
    ensures Permutation(order, N)
    ensures !err ==> Solves(old(Entries(K)), old(F[..]), u[..], N)
    ensures !err ==> forall x :: Solves(old(Entries(K)), old(F[..]), x, N) ==> x == u[..]
    ensures err ==> u[..] == old(u[..]) && 0 <= stage < N
    ensures err ==> Equivalent(Entries(K), F[..], old(Entries(K)), old(F[..]), N) && Upper(Entries(K), order, stage, N)
    ensures err ==> forall i :: stage <= i < N ==> K[order[i], stage] == 0.0
  {
    var indx := new int[N];
    var scale := new real[N];
    InitIndex(indx, N);
    ScaleFactors(K, scale, N);
    forall r | 0 <= r < N
      ensures scale[r] > 0.0
    {
      ScalePositive(K, r, N, scale[r]);
    }
    ghost var A0, b0 := Entries(K), F[..];
    err, stage := Forward(K, F, indx, scale, N);
    order := indx[..];
    if err {
      return;
    }
    ghost var U, y := Entries(K), F[..];
    BackSubstitute(K, F, indx, N);
    CopyOut(F, indx, u, N);
    forall x | Solves(A0, b0, x, N)
      ensures x == u[..]
    {
      TriangularUnique(U, y, indx[..], x, u[..], N);
    }
  }
}
