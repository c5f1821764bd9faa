/**
 * The global system of the solver: the dense matrix K and right-hand side
 * F, and the same matrix stored in compressed-sparse-row form (rowStarts,
 * col, val) over the pattern built from the mesh. The pattern arrays are
 * fixed once built; calcGlobalSys and assemble add element contributions
 * into K, F and val, and keep val the compressed form of K.
 */
module System {
  import opened Mesh
  import Topology = Mesh
  import opened Csr
  import CsrBuild
  import CsrExpand
  import Sums
  import Element
  import opened Assembly

  /** Any two nodes of any element are in each other's reduced rows, and every node is in its own row. */
  ghost predicate ElementsInRows(m: Mesh, rows: seq<seq<int>>)
  {
    && (forall e :: 0 <= e < |m.ltoG| ==> NodesIn(m.ltoG[e], m.nn) && InRows(m.ltoG[e], rows))
    && (forall v :: 0 <= v < |rows| ==> v in rows[v])
  }

  lemma MeshElementsInRows(m: Mesh, rows: seq<seq<int>>)
    requires Topology.Valid(m) && RowsOf(m, rows)
    ensures ElementsInRows(m, rows)
  {
    forall e | 0 <= e < |m.ltoG|
      ensures NodesIn(m.ltoG[e], m.nn) && InRows(m.ltoG[e], rows)
    {
      forall i, j | 0 <= i < |m.ltoG[e]| && 0 <= j < |m.ltoG[e]| && 0 <= m.ltoG[e][i] < |rows|
        ensures m.ltoG[e][j] in rows[m.ltoG[e][i]]
      {
        ElementNodesInRow(m, e, i, j);
      }
    }
    forall v | 0 <= v < |rows|
      ensures v in rows[v]
    {
      ReducedRowShape(m, v);
    }
  }

  /** What element e adds to K[r][c] when its matrix is folded from bl. */
  ghost function ElementTotal(m: Mesh, blocks: seq<Element.SubBlocks>, e: int, r: int, c: int): real
  {
    if 0 <= e < |m.ltoG| && e < |blocks| && |m.ltoG[e]| == m.nen && Element.Shaped(blocks[e], m.nen)
    then DenseTotal(m.ltoG[e], m.nen, m.nn, Element.KeMatrix(blocks[e], m.nen), r, c)
    else 0.0
  }

  /** K[r][c] after the first k elements are assembled: the sum of their contributions. */
  ghost function Assembled(m: Mesh, blocks: seq<Element.SubBlocks>, k: nat, r: int, c: int): real
  {
    if k == 0 then 0.0 else Assembled(m, blocks, k - 1, r, c) + ElementTotal(m, blocks, k - 1, r, c)
  }

  /** Assembling one more element adds its contribution. */
  lemma AssembledStep(m: Mesh, blocks: seq<Element.SubBlocks>, e: nat, r: int, c: int)
    ensures Assembled(m, blocks, e + 1, r, c) == Assembled(m, blocks, e, r, c) + ElementTotal(m, blocks, e, r, c)
  {
  }

  /**
   * Assembling element e changes K[r][c] only where r and c are both
   * unknowns of e's nodes: when the node of r or the node of c is not a
   * node of e, the entry keeps its value.
   */
  lemma AssembledOutside(m: Mesh, blocks: seq<Element.SubBlocks>, e: nat, r: int, c: int)
    requires Topology.Valid(m) && e < |m.ltoG| && 0 <= r < 4 * m.nn && 0 <= c < 4 * m.nn
    requires NodeOf(r, m.nn) !in m.ltoG[e] || NodeOf(c, m.nn) !in m.ltoG[e]
    ensures Assembled(m, blocks, e + 1, r, c) == Assembled(m, blocks, e, r, c)
  {
    AssembledStep(m, blocks, e, r, c);
    var nodes, n, nn := m.ltoG[e], m.nen, m.nn;
    forall I, J | 0 <= I < 4 * n && 0 <= J < 4 * n
      ensures Global(nodes, n, nn, I) != r || Global(nodes, n, nn, J) != c
    {
      UnknownParts(nodes[NodeOf(I, n)], BlockOf(I, n), nn);
      UnknownParts(nodes[NodeOf(J, n)], BlockOf(J, n), nn);
    }
    if e < |blocks| && Element.Shaped(blocks[e], n) {
      DenseTotalUnpaired(nodes, n, nn, Element.KeMatrix(blocks[e], n), r, c);
    }
  }

  /**
   * The fixed part of the global system: the mesh, the reduced rows of its
   * nodes, and the contents of rowStartsSmall, colSmall, rowStarts and col.
   */
  datatype Frame = Frame(mesh: Mesh, rows: seq<seq<int>>, startsSmall: seq<int>, columnsSmall: seq<int>,
                         starts: seq<int>, columns: seq<int>)

  /** A valid mesh, element nodes in each other's reduced rows, and the pattern built from those rows. */
  ghost predicate Framed(f: Frame)
  {
    && Topology.Valid(f.mesh) && |f.rows| == f.mesh.nn
    && ElementsInRows(f.mesh, f.rows)
    && SparseFrame(f.rows, f.startsSmall, f.columnsSmall, f.starts, f.columns)
  }

  /** Frames that hold: the pattern builder produces one for every mesh within its bounds. */
  type PatternFrame = f: Frame | Framed(f) witness Frame(Mesh(0, 1, []), [], [0], [], [0], [])

  /** The pattern builder's output on a mesh within its bounds is a frame that holds. */
  lemma BuiltFrame(m: Mesh, f: Frame)
    requires Topology.Valid(m) && f.mesh == m && f.rows == CsrBuild.ReducedRows(m)
    requires Pattern(f.rows, f.startsSmall, f.columnsSmall, f.starts, f.columns)
    ensures Framed(f)
  {
    MeshRowsWellFormed(m, f.rows);
    MeshElementsInRows(m, f.rows);
    PatternRowBounds(f.rows, f.startsSmall, f.columnsSmall, f.starts, f.columns);
  }

  /** The pattern builder on mesh m, with the frame its arrays hold. */
  method BuildPattern(m: Mesh)
    returns (rs: array<int>, rss: array<int>, cs: array<int>, c: array<int>, v: array<real>, ghost f: Frame)
    requires Topology.Valid(m) && WithinBounds(m)
    ensures forall g {:trigger Framed(g)} :: g == f ==> Framed(g)
    ensures f.mesh == m && f.rows == CsrBuild.ReducedRows(m)
    ensures rs[..] == f.starts && rss[..] == f.startsSmall && cs[..] == f.columnsSmall && c[..] == f.columns
    ensures v.Length == |f.columns| && forall p :: 0 <= p < v.Length ==> v[p] == 0.0
  {
    rs, rss, cs, c, v := CsrExpand.CompressedSparseRowStorage(m);
    f := Frame(m, CsrBuild.ReducedRows(m), rss[..], cs[..], rs[..], c[..]);
    BuiltFrame(m, f);
  }

  class GlobalSystem {
    const mesh: Mesh
    const nn: nat
    const nen: nat
    const rowStarts: array<int>
    const rowStartsSmall: array<int>
    const colSmall: array<int>
    const col: array<int>
    const val: array<real>
    const K: array2<real>
    const F: array<real>
    /** The pattern, which never changes once built. */
    ghost const frame: Frame
    /** The reduced rows of the nodes: the mesh's ReducedRow for every node. */
    ghost const rows: seq<seq<int>> := frame.rows
    /** The contents of rowStarts, rowStartsSmall, colSmall and col. */
    ghost const starts: seq<int> := frame.starts
    ghost const startsSmall: seq<int> := frame.startsSmall
    ghost const columnsSmall: seq<int> := frame.columnsSmall
    ghost const columns: seq<int> := frame.columns

    /** The mesh is the frame's, and K, F and val have their sizes. */
    ghost predicate Structure()
    {
      && mesh == frame.mesh && nn == mesh.nn && nen == mesh.nen
      && val.Length == |columns| && K.Length0 == 4 * nn && K.Length1 == 4 * nn && F.Length == 4 * nn
      && val != F
      && Sealed()
    }

    /**
     * The frame holds. It is stated through a quantifier triggered on
     * Framed, so that the facts of the pattern enter a proof only where it
     * mentions Framed(frame) and do not burden every proof about K and val.
     */
    ghost predicate Sealed()
    {
      forall f {:trigger Framed(f)} :: f == frame ==> Framed(f)
    }

    /** The pattern arrays hold the pattern. */
    ghost predicate Layout()
      reads rowStarts, rowStartsSmall, colSmall, col
    {
      && rowStarts[..] == starts && rowStartsSmall[..] == startsSmall && colSmall[..] == columnsSmall && col[..] == columns
      && Structure()
    }

    /** val holds K at every stored position: val[p] == K[r][col[p]] for every position p of row r. */
    ghost predicate Consistent()
      reads val, K
    {
      forall r, p {:trigger InRow(starts, r, p)} ::
        (InRow(starts, r, p) && 0 <= p < |columns| && p < val.Length && 0 <= r < K.Length0 && 0 <= columns[p] < K.Length1)
        ==> val[p] == K[r, columns[p]]
    }

    /** K is zero outside the pattern: K[r][c] == 0 when the node of c is not in the reduced row of the node of r. */
    ghost predicate Supported()
      reads K
    {
      forall r, c {:trigger Unconnected(r, c)} ::
        (0 <= r < K.Length0 && 0 <= c < K.Length1 && Unconnected(r, c)) ==> K[r, c] == 0.0
    }

    /** The node of unknown c is not in the reduced row of the node of unknown r. */
    ghost predicate Unconnected(r: int, c: int)
    {
      0 <= NodeOf(r, nn) < |rows| && NodeOf(c, nn) !in rows[NodeOf(r, nn)]
    }

    ghost predicate Valid()
      reads rowStarts, rowStartsSmall, colSmall, col, val, K, F
    {
      Layout() && Consistent() && Supported()
    }

    /**
     * The pattern builder on mesh m (compressedSparseRowStorage), with K
     * and F allocated as zero.
     */
    constructor (m: Mesh)
      requires Topology.Valid(m) && WithinBounds(m)
      ensures Valid() && mesh == m && RowsOf(m, rows)
      ensures forall p :: 0 <= p < val.Length ==> val[p] == 0.0
      ensures forall r, c :: 0 <= r < 4 * nn && 0 <= c < 4 * nn ==> K[r, c] == 0.0
      ensures forall r :: 0 <= r < 4 * nn ==> F[r] == 0.0
    {
      mesh, nn, nen := m, m.nn, m.nen;
      var rs, rss, cs, c, v, f := BuildPattern(m);
      rowStarts, rowStartsSmall, colSmall, col, val := rs, rss, cs, c, v;
      frame := f;
      K := new real[4 * m.nn, 4 * m.nn]((i, j) => 0.0);
      F := new real[4 * m.nn](i => 0.0);
    }
  
    /** The two scatters of assemble for an element with the given nodes, without their invariants. */
    method Scatter(nodes: seq<int>, Ke: array2<real>, Fe: array<real>, ghost ke: seq<seq<real>>)
      requires Layout() && |nodes| == nen && NodesIn(nodes, nn) && InRows(nodes, rows)
      requires Ke.Length0 == 4 * nen && Ke.Length1 == 4 * nen && Fe.Length == 4 * nen && Holds(Ke, ke)
      requires Ke != K && Fe != F && Fe != val
      modifies K, F, val
      ensures forall r, c :: 0 <= r < 4 * nn && 0 <= c < 4 * nn ==>
        K[r, c] == old(K[r, c]) + DenseTotal(nodes, nen, nn, ke, r, c)
      ensures forall r :: 0 <= r < 4 * nn ==> F[r] == old(F[r]) + LoadTotal(nodes, nen, nn, Fe[..], r)
      ensures Added(val[..], old(val[..]), starts, columns, (r, c) => SparseTotal(nodes, nen, nn, ke, r, c))
    {
      assert Framed(frame);
      DenseScatter(K, F, nodes, nen, nn, Ke, Fe, ke);
      var keMap := BuildOffsetMap(nodes, nen, rowStartsSmall, colSmall, rows);
      ScatterValues(val, rowStarts, rowStartsSmall, keMap, nodes, nen, nn, Ke, ke, rows, colSmall[..], col[..]);
    }

    /**
     * assemble: element e's matrix Ke and load Fe added into K and F
     * through the global unknowns of its nodes, and into val through the
     * offset map KeKMapSmall. val stays the compressed form of K and K keeps
     * its zeros outside the pattern.
     */
    method Assemble(e: int, Ke: array2<real>, Fe: array<real>, ghost ke: seq<seq<real>>)
      requires Valid() && Topology.Valid(mesh) && 0 <= e < |mesh.ltoG|
      requires Ke.Length0 == 4 * nen && Ke.Length1 == 4 * nen && Fe.Length == 4 * nen && Holds(Ke, ke)
      requires Ke != K && Fe != F && Fe != val
      modifies K, F, val
      ensures Valid()
      ensures forall r, c :: 0 <= r < 4 * nn && 0 <= c < 4 * nn ==>
        K[r, c] == old(K[r, c]) + DenseTotal(mesh.ltoG[e], nen, nn, ke, r, c)
      ensures forall r :: 0 <= r < 4 * nn ==> F[r] == old(F[r]) + LoadTotal(mesh.ltoG[e], nen, nn, old(Fe[..]), r)
    {
      assert Framed(frame);
      var nodes := mesh.ltoG[e];
      Scatter(nodes, Ke, Fe, ke);
      forall r, p | InRow(starts, r, p) && 0 <= p < |columns| && p < val.Length && 0 <= r < K.Length0 && 0 <= columns[p] < K.Length1
        ensures val[p] == K[r, columns[p]]
      {
        assert old(val[p]) == old(K[r, columns[p]]);
        TotalsAgree(nodes, nen, nn, ke, r, columns[p]);
      }
      forall r, c | 0 <= r < K.Length0 && 0 <= c < K.Length1 && Unconnected(r, c)
        ensures K[r, c] == 0.0
      {
        DenseTotalUnconnected(nodes, nen, nn, ke, rows, r, c);
      }
    }

    /** The zeroing of F and K at the start of calcGlobalSys; val is still the zero array of the pattern builder. */
    method Clear()
      requires Layout() && forall p :: 0 <= p < val.Length ==> val[p] == 0.0
      modifies K, F
      ensures Valid()
      ensures forall r, c :: 0 <= r < 4 * nn && 0 <= c < 4 * nn ==> K[r, c] == 0.0
      ensures forall r :: 0 <= r < 4 * nn ==> F[r] == 0.0
    {
      for i := 0 to 4 * nn
        invariant forall r :: 0 <= r < i ==> F[r] == 0.0
        invariant forall r, c :: 0 <= r < i && 0 <= c < 4 * nn ==> K[r, c] == 0.0
      {
        F[i] := 0.0;
        for j := 0 to 4 * nn
          modifies K
          invariant forall r, c :: 0 <= r < i && 0 <= c < 4 * nn ==> K[r, c] == 0.0
          invariant forall c :: 0 <= c < j ==> K[i, c] == 0.0
        {
          K[i, j] := 0.0;
        }
      }
    }

    /**
     * One pass of the element loop of calcGlobalSys: the element arrays Ke,
     * Fe and Fe_1 .. Fe_4 zeroed, the load and the sub-blocks blocks[e]
     * folded into them, and element e assembled. K gains element e's
     * contribution; F gains the zero load.
     */
    method ElementStep(e: int, blocks: seq<Element.SubBlocks>)
      requires Valid() && 0 <= e < |mesh.ltoG| && e < |blocks| && Element.Shaped(blocks[e], nen)
      modifies K, F, val
      ensures Valid()
      ensures forall r, c :: 0 <= r < 4 * nn && 0 <= c < 4 * nn ==> K[r, c] == old(K[r, c]) + ElementTotal(mesh, blocks, e, r, c)
      ensures forall r :: 0 <= r < 4 * nn ==> F[r] == old(F[r])
    {
      assert Framed(frame);
      ghost var ke := Element.KeMatrix(blocks[e], nen);
      var Ke, Fe := Element.ElementMatrices(blocks[e], nen);
      assert Holds(Ke, ke);
      ghost var fe := Fe[..];
      Assemble(e, Ke, Fe, ke);
      forall r | 0 <= r < 4 * nn
        ensures F[r] == old(F[r])
      {
        LoadTotalZero(mesh.ltoG[e], nen, nn, fe, r);
      }
    }

    /** K holds the sum of the contributions of the first e elements and F is zero. */
    ghost predicate AssembledUpTo(blocks: seq<Element.SubBlocks>, e: nat)
      reads K, F
    {
      && (forall r, c :: 0 <= r < K.Length0 && 0 <= c < K.Length1 ==> K[r, c] == Assembled(mesh, blocks, e, r, c))
      && (forall r :: 0 <= r < F.Length ==> F[r] == 0.0)
    }

    /**
     * calcGlobalSys: K and F zeroed, then every element folded and
     * assembled in turn. blocks[e] are the ten sub-blocks that the
     * quadrature produces for element e. Afterwards K is the sum of the
     * element contributions, val is its compressed form, and F is zero.
     */
    method CalcGlobalSystem(blocks: seq<Element.SubBlocks>)
      requires Valid() && |blocks| == |mesh.ltoG|
      requires forall e :: 0 <= e < |blocks| ==> Element.Shaped(blocks[e], nen)
      requires forall p :: 0 <= p < val.Length ==> val[p] == 0.0
      modifies K, F, val
      ensures Valid()
      ensures forall r, c :: 0 <= r < 4 * nn && 0 <= c < 4 * nn ==> K[r, c] == Assembled(mesh, blocks, |mesh.ltoG|, r, c)
      ensures forall r :: 0 <= r < 4 * nn ==> F[r] == 0.0
    {
      Clear();
      for e := 0 to |mesh.ltoG|
        invariant Valid() && AssembledUpTo(blocks, e)
      {
        AssembleNext(e, blocks);
      }
    }

    /** One more element assembled: K goes from the sum over elements 0..e-1 to the sum over 0..e. */
    method AssembleNext(e: int, blocks: seq<Element.SubBlocks>)
      requires Valid() && 0 <= e < |mesh.ltoG| && e < |blocks| && Element.Shaped(blocks[e], nen)
      requires AssembledUpTo(blocks, e)
      modifies K, F, val
      ensures Valid() && AssembledUpTo(blocks, e + 1)
    {
      ElementStep(e, blocks);
      forall r, c | 0 <= r < 4 * nn && 0 <= c < 4 * nn
        ensures K[r, c] == Assembled(mesh, blocks, e + 1, r, c)
      {
        AssembledStep(mesh, blocks, e, r, c);
      }
    }
  }
}
