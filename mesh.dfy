/**
 * Mesh topology: the element-to-node map LtoG and what the sparsity-pattern
 * builder derives from it before any numbers exist. Velocity and pressure
 * use the same nodes per element (NENv == NENp == nen).
 */
module Mesh {

  /** nn nodes; element e has the nodes ltoG[e][0..nen). */
  datatype Mesh = Mesh(nn: nat, nen: nat, ltoG: seq<seq<int>>)

  /** Columns of the node-to-element table GtoL: at most 8 elements meet at a node. */
  const MaxIncidence: nat := 8

  /** Length of the scratch row checkCol: a reduced row has at most 1000 columns. */
  const MaxRowLength: nat := 1000

  /** Every element has nen nodes, each a node index in [0, nn). */
  predicate Valid(m: Mesh)
  {
    && 0 < m.nen
    && (forall e :: 0 <= e < |m.ltoG| ==> |m.ltoG[e]| == m.nen)
    && (forall e, j :: 0 <= e < |m.ltoG| && 0 <= j < m.nen ==> 0 <= m.ltoG[e][j] < m.nn)
  }

  predicate Distinct(s: seq<int>)
  {
    forall i, j :: 0 <= i < j < |s| ==> s[i] != s[j]
  }

  /** One copy of e for every slot among the first k of row that holds node v. */
  function Slots(row: seq<int>, v: int, e: int, k: nat): (r: seq<int>)
    requires k <= |row|
    ensures forall t :: 0 <= t < |r| ==> r[t] == e
    ensures |r| <= k
  {
    if k == 0 then [] else Slots(row, v, e, k - 1) + (if row[k - 1] == v then [e] else [])
  }

  /**
   * The incidence list of node v after elements 0..ne-1 were scanned: the
   * element numbers in ascending order, one entry per slot holding v.
   */
  function Incident(L: seq<seq<int>>, v: int, ne: nat): (r: seq<int>)
    requires ne <= |L|
    ensures forall t :: 0 <= t < |r| ==> 0 <= r[t] < ne
  {
    if ne == 0 then [] else Incident(L, v, ne - 1) + Slots(L[ne - 1], v, ne - 1, |L[ne - 1]|)
  }

  /** The nodes of the elements es, element after element. */
  function Cat(L: seq<seq<int>>, es: seq<int>): seq<int>
    requires forall t :: 0 <= t < |es| ==> 0 <= es[t] < |L|
  {
    if es == [] then [] else Cat(L, es[..|es| - 1]) + L[es[|es| - 1]]
  }

  /** s with every value kept only at its first occurrence. */
  function Dedup(s: seq<int>): seq<int>
  {
    if s == [] then []
    else
      var d := Dedup(s[..|s| - 1]);
      if s[|s| - 1] in d then d else d + [s[|s| - 1]]
  }

  /** The incidence list of node v over the whole mesh. */
  function Incidence(m: Mesh, v: int): seq<int>
  {
    Incident(m.ltoG, v, |m.ltoG|)
  }

  /**
   * The reduced row of node v before sorting: the distinct nodes of its
   * incident elements in order of first appearance, or just v itself when
   * no element touches v.
   */
  function ReducedRow(m: Mesh, v: int): seq<int>
  {
    var inc := Incidence(m, v);
    if inc == [] then [v] else Dedup(Cat(m.ltoG, inc))
  }

  /** Some element has both v and x among its nodes. */
  ghost predicate Adjacent(m: Mesh, v: int, x: int)
  {
    exists e :: 0 <= e < |m.ltoG| && v in m.ltoG[e] && x in m.ltoG[e]
  }

  /** No element has v among its nodes. */
  ghost predicate Isolated(m: Mesh, v: int)
  {
    forall e :: 0 <= e < |m.ltoG| ==> v !in m.ltoG[e]
  }

  /** The fixed-size buffers of the pattern builder suffice for this mesh. */
  predicate WithinBounds(m: Mesh)
  {
    forall v :: 0 <= v < m.nn ==>
      |Incidence(m, v)| <= MaxIncidence && |ReducedRow(m, v)| <= MaxRowLength
  }

  lemma {:induction false} SlotsMembers(row: seq<int>, v: int, e: int, k: nat, x: int)
    requires k <= |row|
    ensures x in Slots(row, v, e, k) <==> x == e && v in row[..k]
  {
    if k > 0 {
      SlotsMembers(row, v, e, k - 1, x);
      assert row[..k] == row[..k - 1] + [row[k - 1]];
    }
  }

  /** e appears in the incidence list of v exactly when e is one of the scanned elements and has node v. */
  lemma {:induction false} IncidentMembers(L: seq<seq<int>>, v: int, ne: nat, e: int)
    requires ne <= |L|
    ensures e in Incident(L, v, ne) <==> 0 <= e < ne && v in L[e]
  {
    if ne > 0 {
      IncidentMembers(L, v, ne - 1, e);
      SlotsMembers(L[ne - 1], v, ne - 1, |L[ne - 1]|, e);
      assert L[ne - 1][..|L[ne - 1]|] == L[ne - 1];
    }
  }

  /** x is a node of the concatenation exactly when it is a node of one of the elements. */
  lemma {:induction false} CatMembers(L: seq<seq<int>>, es: seq<int>, x: int)
    requires forall t :: 0 <= t < |es| ==> 0 <= es[t] < |L|
    ensures x in Cat(L, es) <==> exists t :: 0 <= t < |es| && x in L[es[t]]
  {
    if es != [] {
      var pre := es[..|es| - 1];
      CatMembers(L, pre, x);
      if x in Cat(L, es) && x !in Cat(L, pre) {
        assert x in L[es[|es| - 1]];
      }
      if exists t :: 0 <= t < |es| && x in L[es[t]] {
        var t :| 0 <= t < |es| && x in L[es[t]];
        if t < |es| - 1 {
          assert pre[t] == es[t];
        }
      }
    }
  }

  /** Dedup keeps exactly the values of s, each once. */
  lemma {:induction false} DedupMembers(s: seq<int>)
    ensures forall x :: x in Dedup(s) <==> x in s
    ensures Distinct(Dedup(s))
    ensures |Dedup(s)| <= |s|
  {
    if s != [] {
      var pre := s[..|s| - 1];
      DedupMembers(pre);
      assert s == pre + [s[|s| - 1]];
    }
  }

  /** For a node with incident elements, the de-duplicated node list holds exactly its neighbours. */
  lemma ConnectedRowMembers(m: Mesh, v: int, x: int)
    requires Incidence(m, v) != []
    ensures x in Dedup(Cat(m.ltoG, Incidence(m, v))) <==> Adjacent(m, v, x)
    ensures !Isolated(m, v)
  {
    var inc := Incidence(m, v);
    DedupMembers(Cat(m.ltoG, inc));
    CatMembers(m.ltoG, inc, x);
    if x in Cat(m.ltoG, inc) {
      var t :| 0 <= t < |inc| && x in m.ltoG[inc[t]];
      IncidentMembers(m.ltoG, v, |m.ltoG|, inc[t]);
      assert Adjacent(m, v, x);
    }
    if Adjacent(m, v, x) {
      var e :| 0 <= e < |m.ltoG| && v in m.ltoG[e] && x in m.ltoG[e];
      IncidentMembers(m.ltoG, v, |m.ltoG|, e);
      var t :| 0 <= t < |inc| && inc[t] == e;
      assert x in Cat(m.ltoG, inc);
    }
    IncidentMembers(m.ltoG, v, |m.ltoG|, inc[0]);
  }

  /**
   * The reduced row of v holds exactly the nodes that share an element with v,
   * or v alone when v belongs to no element.
   */
  lemma ReducedRowMembers(m: Mesh, v: int, x: int)
    ensures x in ReducedRow(m, v) <==> Adjacent(m, v, x) || (Isolated(m, v) && x == v)
  {
    if Incidence(m, v) == [] {
      forall e | 0 <= e < |m.ltoG|
        ensures v !in m.ltoG[e]
      {
        IncidentMembers(m.ltoG, v, |m.ltoG|, e);
      }
      assert Isolated(m, v);
      assert !Adjacent(m, v, x);
    } else {
      ConnectedRowMembers(m, v, x);
    }
  }

  /**
   * The reduced row of a node of the mesh has no repeated column, contains
   * the node itself, and only holds nodes of the mesh.
   */
  lemma ReducedRowShape(m: Mesh, v: int)
    requires Valid(m) && 0 <= v < m.nn
    ensures Distinct(ReducedRow(m, v))
    ensures v in ReducedRow(m, v)
    ensures forall x :: x in ReducedRow(m, v) ==> 0 <= x < m.nn
  {
    var inc := Incidence(m, v);
    if inc != [] {
      DedupMembers(Cat(m.ltoG, inc));
    }
    ReducedRowMembers(m, v, v);
    if !Isolated(m, v) {
      var e :| 0 <= e < |m.ltoG| && v in m.ltoG[e];
      assert Adjacent(m, v, v);
    }
    forall x | x in ReducedRow(m, v)
      ensures 0 <= x < m.nn
    {
      ReducedRowMembers(m, v, x);
      if Adjacent(m, v, x) {
        var e :| 0 <= e < |m.ltoG| && v in m.ltoG[e] && x in m.ltoG[e];
        var j :| 0 <= j < |m.ltoG[e]| && m.ltoG[e][j] == x;
      }
    }
  }

  /** Any two nodes of one element have each other in their reduced rows. */
  lemma ElementNodesInRow(m: Mesh, e: int, i: int, j: int)
    requires Valid(m) && 0 <= e < |m.ltoG| && 0 <= i < m.nen && 0 <= j < m.nen
    ensures m.ltoG[e][j] in ReducedRow(m, m.ltoG[e][i])
  {
    ReducedRowMembers(m, m.ltoG[e][i], m.ltoG[e][j]);
    assert Adjacent(m, m.ltoG[e][i], m.ltoG[e][j]);
  }

  /** Scanning one more slot of a row appends e when that slot holds v. */
  lemma SlotsStep(row: seq<int>, v: int, e: int, k: nat)
    requires k < |row|
    ensures Slots(row, v, e, k + 1) == Slots(row, v, e, k) + (if row[k] == v then [e] else [])
  {
  }

  lemma {:induction false} SlotsGrows(row: seq<int>, v: int, e: int, j: nat, k: nat)
    requires j <= k <= |row|
    ensures Slots(row, v, e, j) <= Slots(row, v, e, k)
    decreases k - j
  {
    if j < k {
      SlotsGrows(row, v, e, j, k - 1);
    }
  }

  lemma {:induction false} IncidentGrows(L: seq<seq<int>>, v: int, ne: nat, ne': nat)
    requires ne <= ne' <= |L|
    ensures Incident(L, v, ne) <= Incident(L, v, ne')
    decreases ne' - ne
  {
    if ne < ne' {
      IncidentGrows(L, v, ne, ne' - 1);
    }
  }

  /** Concatenating the nodes of one more element of the list. */
  lemma CatStep(L: seq<seq<int>>, es: seq<int>, j: nat)
    requires forall t :: 0 <= t < |es| ==> 0 <= es[t] < |L|
    requires j < |es|
    ensures Cat(L, es[..j + 1]) == Cat(L, es[..j]) + L[es[j]]
  {
    assert es[..j + 1][..j] == es[..j];
  }

  lemma {:induction false} CatGrows(L: seq<seq<int>>, es: seq<int>, j: nat, k: nat)
    requires forall t :: 0 <= t < |es| ==> 0 <= es[t] < |L|
    requires j <= k <= |es|
    ensures Cat(L, es[..j]) <= Cat(L, es[..k])
    decreases k - j
  {
    if j < k {
      CatGrows(L, es, j, k - 1);
      CatStep(L, es, k - 1);
    }
  }

  /** Appending a value keeps Dedup if the value was seen and appends it otherwise. */
  lemma DedupStep(s: seq<int>, a: int)
    ensures Dedup(s + [a]) == if a in Dedup(s) then Dedup(s) else Dedup(s) + [a]
  {
    assert (s + [a])[..|s|] == s;
  }

  /** Dedup of a prefix is a prefix of Dedup. */
  lemma {:induction false} DedupGrows(s: seq<int>, t: seq<int>)
    requires s <= t
    ensures Dedup(s) <= Dedup(t)
    decreases |t|
  {
    if |s| < |t| {
      var t' := t[..|t| - 1];
      assert s <= t';
      DedupGrows(s, t');
      assert t == t' + [t[|t| - 1]];
      DedupStep(t', t[|t| - 1]);
    } else {
      assert s == t;
    }
  }
}
