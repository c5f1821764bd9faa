/**
 * The sparsity-pattern builder: the node-to-element table GtoL, the reduced
 * pattern (rowStartsSmall, colSmall) and the full pattern (rowStarts, col)
 * with its zeroed value array, built with the loops and fixed-size scratch
 * buffers of the original routine.
 */
module CsrBuild {
  import opened Mesh
  import opened Csr

  /** The incidence list of v while element e is being scanned, after its first j slots. */
  function IncidentSoFar(L: seq<seq<int>>, v: int, e: nat, j: nat): seq<int>
    requires e < |L| && j <= |L[e]|
  {
    Incident(L, v, e) + Slots(L[e], v, e, j)
  }

  /** GtoL: row v lists the elements incident to node v, then -1 in the unused columns. */
  ghost predicate IncidenceTable(m: Mesh, gtoL: array2<int>)
    reads gtoL
  {
    && gtoL.Length0 == m.nn
    && gtoL.Length1 == MaxIncidence
    && forall v, c :: 0 <= v < m.nn && 0 <= c < MaxIncidence ==>
         gtoL[v, c] == if c < |Incidence(m, v)| then Incidence(m, v)[c] else -1
  }

  /** Fills GtoL, NN x 8, by scanning the element nodes in order with one counter per node. */
  method BuildIncidence(m: Mesh) returns (gtoL: array2<int>)
    requires Valid(m) && WithinBounds(m)
    ensures fresh(gtoL) && IncidenceTable(m, gtoL)
  {
    var L := m.ltoG;
    var counter;
    gtoL, counter := BlankTable(m.nn);
    for e := 0 to |L|
      invariant forall v :: 0 <= v < m.nn ==> counter[v] == |Incident(L, v, e)|
      invariant forall v, c :: 0 <= v < m.nn && 0 <= c < MaxIncidence ==>
        gtoL[v, c] == if c < |Incident(L, v, e)| then Incident(L, v, e)[c] else -1
    {
      for j := 0 to m.nen
        invariant forall v :: 0 <= v < m.nn ==> counter[v] == |IncidentSoFar(L, v, e, j)|
        invariant forall v, c :: 0 <= v < m.nn && 0 <= c < MaxIncidence ==>
          gtoL[v, c] == if c < |IncidentSoFar(L, v, e, j)| then IncidentSoFar(L, v, e, j)[c] else -1
      {
        ScanSlot(m, gtoL, counter, e, j);
      }
    }
  }

  /** Records element e in the next free column of the GtoL row of its slot-j node. */
  method ScanSlot(m: Mesh, gtoL: array2<int>, counter: array<int>, e: nat, j: nat)
    requires Valid(m) && WithinBounds(m) && e < |m.ltoG| && j < m.nen
    requires gtoL.Length0 == m.nn && gtoL.Length1 == MaxIncidence && counter.Length == m.nn
    requires forall v :: 0 <= v < m.nn ==> counter[v] == |IncidentSoFar(m.ltoG, v, e, j)|
    requires forall v, c :: 0 <= v < m.nn && 0 <= c < MaxIncidence ==>
      gtoL[v, c] == if c < |IncidentSoFar(m.ltoG, v, e, j)| then IncidentSoFar(m.ltoG, v, e, j)[c] else -1
    modifies gtoL, counter
    ensures forall v :: 0 <= v < m.nn ==> counter[v] == |IncidentSoFar(m.ltoG, v, e, j + 1)|
    ensures forall v, c :: 0 <= v < m.nn && 0 <= c < MaxIncidence ==>
      gtoL[v, c] == if c < |IncidentSoFar(m.ltoG, v, e, j + 1)| then IncidentSoFar(m.ltoG, v, e, j + 1)[c] else -1
  {
    var node := m.ltoG[e][j];
    ScanStep(m, e, j);
    gtoL[node, counter[node]] := e;
    counter[node] := counter[node] + 1;
  }

  /** A fresh GtoL filled with -1 and a fresh GtoLCounter filled with 0. */
  method BlankTable(nn: nat) returns (gtoL: array2<int>, counter: array<int>)
    ensures fresh(gtoL) && fresh(counter)
    ensures gtoL.Length0 == nn && gtoL.Length1 == MaxIncidence && counter.Length == nn
    ensures forall v, c :: 0 <= v < nn && 0 <= c < MaxIncidence ==> gtoL[v, c] == -1
    ensures forall v :: 0 <= v < nn ==> counter[v] == 0
  {
    gtoL := new int[nn, MaxIncidence];
    counter := new int[nn];
    for i := 0 to nn
      invariant forall v, c :: 0 <= v < i && 0 <= c < MaxIncidence ==> gtoL[v, c] == -1
      invariant forall v :: 0 <= v < i ==> counter[v] == 0
    {
      for j := 0 to MaxIncidence
        modifies gtoL
        invariant forall v, c :: 0 <= v < i && 0 <= c < MaxIncidence ==> gtoL[v, c] == -1
        invariant forall c :: 0 <= c < j ==> gtoL[i, c] == -1
      {
        gtoL[i, j] := -1;
      }
      counter[i] := 0;
    }
  }

  /**
   * Scanning slot j of element e appends e to the incidence list of that
   * slot's node only, and that list stays within the 8 columns of GtoL.
   */
  lemma ScanStep(m: Mesh, e: nat, j: nat)
    requires Valid(m) && WithinBounds(m) && e < |m.ltoG| && j < m.nen
    ensures forall v ::
      IncidentSoFar(m.ltoG, v, e, j + 1) == IncidentSoFar(m.ltoG, v, e, j) + (if m.ltoG[e][j] == v then [e] else [])
    ensures |IncidentSoFar(m.ltoG, m.ltoG[e][j], e, j + 1)| <= MaxIncidence
  {
    var L := m.ltoG;
    var node := L[e][j];
    forall v
      ensures IncidentSoFar(L, v, e, j + 1) == IncidentSoFar(L, v, e, j) + (if node == v then [e] else [])
    {
      SlotsStep(L[e], v, e, j);
    }
    IncidentGrows(L, node, e + 1, |L|);
    SlotsGrows(L[e], node, e, j + 1, |L[e]|);
    assert IncidentSoFar(L, node, e, j + 1) <= Incidence(m, node);
  }

  /** The incidence list of v read back from its GtoL row. */
  lemma IncidenceFromTable(m: Mesh, gtoL: array2<int>, v: int, j: int)
    requires Valid(m) && WithinBounds(m) && IncidenceTable(m, gtoL)
    requires 0 <= v < m.nn && 0 <= j < MaxIncidence
    ensures gtoL[v, j] != -1 <==> j < |Incidence(m, v)|
    ensures j < |Incidence(m, v)| ==> gtoL[v, j] == Incidence(m, v)[j] && 0 <= gtoL[v, j] < |m.ltoG|
  {
  }

  /** The overlap check: check is 0 exactly when node is among buf[lo..lo + n]. */
  method Seen(buf: array<int>, lo: int, n: int, node: int) returns (check: int)
    requires 0 <= lo && 0 <= n && lo + n <= buf.Length
    ensures check == 0 || check == 1
    ensures check == 0 <==> node in buf[lo..lo + n]
  {
    check := 1;
    for y := 0 to n
      invariant check == 0 || check == 1
      invariant check == 0 <==> node in buf[lo..lo + y]
    {
      if buf[lo + y] == node {
        check := 0;
      }
      assert buf[lo..lo + y + 1] == buf[lo..lo + y] + [buf[lo + y]];
    }
  }

  /**
   * The inner loop of the first and second passes: appends to buf[base..base + nnz]
   * the nodes of one element that are not there yet, each found absent by
   * the overlap check.
   */
  method CollectElement(row: seq<int>, buf: array<int>, base: int, nnz0: int, ghost seen: seq<int>)
    returns (nnz: int)
    requires 0 <= base && 0 <= nnz0 && base + nnz0 <= buf.Length
    requires buf[base..base + nnz0] == Dedup(seen)
    requires base + |Dedup(seen + row)| <= buf.Length
    modifies buf
    ensures nnz0 <= nnz && base + nnz <= buf.Length
    ensures buf[base..base + nnz] == Dedup(seen + row)
    ensures forall p :: 0 <= p < buf.Length && !(base <= p < base + nnz) ==> buf[p] == old(buf[p])
  {
    nnz := nnz0;
    assert seen + row[..0] == seen;
    for x := 0 to |row|
      invariant nnz0 <= nnz && base + nnz <= buf.Length
      invariant buf[base..base + nnz] == Dedup(seen + row[..x])
      invariant forall p :: 0 <= p < buf.Length && !(base <= p < base + nnz) ==> buf[p] == old(buf[p])
    {
      PrefixStep(seen, row, x);
      nnz := CollectNode(buf, base, nnz, row[x], seen + row[..x]);
    }
    assert row[..|row|] == row;
  }

  /** One node of an element: the overlap check, then the node appended when it is new. */
  method CollectNode(buf: array<int>, base: int, nnz0: int, node: int, ghost prefix: seq<int>) returns (nnz: int)
    requires 0 <= base && 0 <= nnz0 && base + nnz0 <= buf.Length
    requires buf[base..base + nnz0] == Dedup(prefix)
    requires base + |Dedup(prefix + [node])| <= buf.Length
    modifies buf
    ensures nnz0 <= nnz && base + nnz <= buf.Length
    ensures buf[base..base + nnz] == Dedup(prefix + [node])
    ensures forall p :: 0 <= p < buf.Length && !(base <= p < base + nnz) ==> buf[p] == old(buf[p])
  {
    var check := Seen(buf, base, nnz0, node);
    DedupStep(prefix, node);
    nnz := nnz0;
    if check != 0 {
      Append(buf, base, nnz, node);
      nnz := nnz + 1;
    }
  }

  /** Writes node just after buf[base..base + n]. */
  method Append(buf: array<int>, base: int, n: int, node: int)
    requires 0 <= base && 0 <= n && base + n < buf.Length
    modifies buf
    ensures buf[base..base + n + 1] == old(buf[base..base + n]) + [node]
    ensures forall p :: 0 <= p < buf.Length && p != base + n ==> buf[p] == old(buf[p])
  {
    buf[base + n] := node;
  }

  /** seen + row[..x + 1] extends seen + row[..x] by row[x] and its de-duplication fits in that of seen + row. */
  lemma PrefixStep(seen: seq<int>, row: seq<int>, x: nat)
    requires x < |row|
    ensures seen + row[..x + 1] == seen + row[..x] + [row[x]]
    ensures |Dedup(seen + row[..x + 1])| <= |Dedup(seen + row)|
  {
    assert row[..x + 1] == row[..x] + [row[x]];
    assert seen + row[..x + 1] <= seen + row;
    DedupGrows(seen + row[..x + 1], seen + row);
  }

  /** Element j of inc extends the concatenation, which stays a prefix of the whole. */
  lemma CollectStep(L: seq<seq<int>>, inc: seq<int>, j: nat)
    requires forall t :: 0 <= t < |inc| ==> 0 <= inc[t] < |L|
    requires j < |inc|
    ensures Cat(L, inc[..j + 1]) == Cat(L, inc[..j]) + L[inc[j]]
    ensures |Dedup(Cat(L, inc[..j + 1]))| <= |Dedup(Cat(L, inc))|
  {
    CatStep(L, inc, j);
    CatGrows(L, inc, j + 1, |inc|);
    assert inc[..|inc|] == inc;
    DedupGrows(Cat(L, inc[..j + 1]), Cat(L, inc));
  }

  /**
   * Appends to buf[base..] the nodes of the elements listed in GtoL row v
   * that are not there yet. With inc the incidence list held in that row,
   * the result is the de-duplicated concatenation of their nodes in order of
   * first appearance.
   */
  method CollectRow(L: seq<seq<int>>, gtoL: array2<int>, v: int, ghost inc: seq<int>,
                    buf: array<int>, base: int) returns (nnz: int)
    requires 0 <= v < gtoL.Length0 && gtoL.Length1 == MaxIncidence && |inc| <= MaxIncidence
    requires forall c :: 0 <= c < MaxIncidence ==> gtoL[v, c] == if c < |inc| then inc[c] else -1
    requires forall t :: 0 <= t < |inc| ==> 0 <= inc[t] < |L|
    requires 0 <= base && base + |Dedup(Cat(L, inc))| <= buf.Length
    modifies buf
    ensures 0 <= nnz && base + nnz <= buf.Length
    ensures buf[base..base + nnz] == Dedup(Cat(L, inc))
    ensures forall p :: 0 <= p < buf.Length && !(base <= p < base + nnz) ==> buf[p] == old(buf[p])
  {
    nnz := 0;
    for j := 0 to MaxIncidence
      invariant 0 <= nnz && base + nnz <= buf.Length
      invariant buf[base..base + nnz] == Dedup(Cat(L, inc[..Done(inc, j)]))
      invariant forall p :: 0 <= p < buf.Length && !(base <= p < base + nnz) ==> buf[p] == old(buf[p])
    {
      nnz := CollectSlot(L, gtoL, v, inc, buf, base, nnz, j);
    }
    assert inc[..|inc|] == inc;
  }

  /** How many entries of the incidence list inc the first j slots of its GtoL row hold. */
  function Done(inc: seq<int>, j: int): (d: nat)
    requires 0 <= j
    ensures d <= |inc| && d <= j
  {
    if j < |inc| then j else |inc|
  }

  /** Slot j of GtoL row v: the element it names, if any, collected into the row. */
  method CollectSlot(L: seq<seq<int>>, gtoL: array2<int>, v: int, ghost inc: seq<int>,
                     buf: array<int>, base: int, nnz0: int, j: int) returns (nnz: int)
    requires 0 <= v < gtoL.Length0 && gtoL.Length1 == MaxIncidence && |inc| <= MaxIncidence && 0 <= j < MaxIncidence
    requires forall c :: 0 <= c < MaxIncidence ==> gtoL[v, c] == if c < |inc| then inc[c] else -1
    requires forall t :: 0 <= t < |inc| ==> 0 <= inc[t] < |L|
    requires 0 <= base && base + |Dedup(Cat(L, inc))| <= buf.Length
    requires 0 <= nnz0 && base + nnz0 <= buf.Length
    requires buf[base..base + nnz0] == Dedup(Cat(L, inc[..Done(inc, j)]))
    modifies buf
    ensures nnz0 <= nnz && base + nnz <= buf.Length
    ensures buf[base..base + nnz] == Dedup(Cat(L, inc[..Done(inc, j + 1)]))
    ensures forall p :: 0 <= p < buf.Length && !(base <= p < base + nnz) ==> buf[p] == old(buf[p])
  {
    nnz := nnz0;
    var valGtoL := gtoL[v, j];
    if valGtoL != -1 {
      assert j < |inc| && valGtoL == inc[j];
      CollectStep(L, inc, j);
      nnz := CollectElement(L[valGtoL], buf, base, nnz, Cat(L, inc[..j]));
    }
  }

  /** Every position q >= t of s holds a value no smaller than any earlier position. */
  ghost predicate SettledFrom(s: seq<int>, t: int)
  {
    forall p, q :: 0 <= p < q < |s| && t <= q ==> s[p] <= s[q]
  }

  /** s[k] is no smaller than any earlier entry. */
  ghost predicate PrefixMax(s: seq<int>, k: int)
    requires 0 <= k < |s|
  {
    forall p :: 0 <= p < k ==> s[p] <= s[k]
  }

  predicate Sorted(s: seq<int>)
  {
    forall i, j :: 0 <= i < j < |s| ==> s[i] <= s[j]
  }

  /** s with the adjacent entries i - 1 and i exchanged. */
  function SwapAt(s: seq<int>, i: int): (r: seq<int>)
    requires 0 < i < |s|
    ensures multiset(r) == multiset(s)
  {
    s[i - 1 := s[i]][i := s[i - 1]]
  }

  /** Exchanges a[i - 1] and a[i] inside the segment a[lo..hi). */
  method SwapAdjacent(a: array<int>, lo: int, hi: int, i: int)
    requires 0 <= lo < i < hi <= a.Length
    modifies a
    ensures a[lo..hi] == SwapAt(old(a[lo..hi]), i - lo)
    ensures forall p :: 0 <= p < a.Length && !(lo <= p < hi) ==> a[p] == old(a[p])
  {
    a[i - 1], a[i] := a[i], a[i - 1];
  }

  /** A swap below the settled tail keeps it settled and carries the prefix maximum along. */
  lemma SwapStep(s: seq<int>, m: int, t: int)
    requires 0 < m < t <= |s| && SettledFrom(s, t) && PrefixMax(s, m - 1) && s[m] < s[m - 1]
    ensures SettledFrom(SwapAt(s, m), t) && PrefixMax(SwapAt(s, m), m)
    ensures m + 1 >= t ==> PrefixMax(SwapAt(s, m), t - 1)
  {
  }

  /** Without a swap the prefix maximum moves on by one. */
  lemma KeepStep(s: seq<int>, m: int, t: int)
    requires 0 < m < |s| && 0 < t <= |s| && PrefixMax(s, m - 1) && s[m - 1] <= s[m]
    requires m >= t ==> PrefixMax(s, t - 1)
    ensures PrefixMax(s, m)
    ensures m + 1 >= t ==> PrefixMax(s, t - 1)
  {
  }

  /** Once s[t - 1] is the maximum of s[..t], the settled tail starts at t - 1. */
  lemma SettleStep(s: seq<int>, t: int)
    requires 0 < t <= |s| && SettledFrom(s, t) && PrefixMax(s, t - 1)
    ensures SettledFrom(s, t - 1)
  {
  }

  /**
   * The bubble sort of the second pass on the segment a[lo..lo + n): n - 1
   * full passes over adjacent pairs, swapping every pair out of order.
   */
  method SortSegment(a: array<int>, lo: int, n: int)
    requires 0 <= lo && 0 <= n && lo + n <= a.Length
    modifies a
    ensures Sorted(a[lo..lo + n])
    ensures multiset(a[lo..lo + n]) == multiset(old(a[lo..lo + n]))
    ensures forall p :: 0 <= p < a.Length && !(lo <= p < lo + n) ==> a[p] == old(a[p])
  {
    var k := 1;
    while k < n
      invariant 1 <= k && (n == 0 || k <= n)
      invariant SettledFrom(a[lo..lo + n], n - (k - 1))
      invariant multiset(a[lo..lo + n]) == multiset(old(a[lo..lo + n]))
      invariant forall p :: 0 <= p < a.Length && !(lo <= p < lo + n) ==> a[p] == old(a[p])
    {
      BubblePass(a, lo, n, n - (k - 1));
      k := k + 1;
    }
  }

  /**
   * One pass of the bubble sort, m = 1 .. n - 1: moves the largest value of
   * the first t entries of the segment to its position t - 1, so the
   * settled tail grows by one.
   */
  method BubblePass(a: array<int>, lo: int, n: int, t: int)
    requires 0 <= lo && 2 <= t <= n && lo + n <= a.Length
    requires SettledFrom(a[lo..lo + n], t)
    modifies a
    ensures SettledFrom(a[lo..lo + n], t - 1)
    ensures multiset(a[lo..lo + n]) == multiset(old(a[lo..lo + n]))
    ensures forall p :: 0 <= p < a.Length && !(lo <= p < lo + n) ==> a[p] == old(a[p])
  {
    var m := 1;
    while m < n
      invariant 1 <= m <= n
      invariant SettledFrom(a[lo..lo + n], t)
      invariant PrefixMax(a[lo..lo + n], m - 1)
      invariant m >= t ==> PrefixMax(a[lo..lo + n], t - 1)
      invariant multiset(a[lo..lo + n]) == multiset(old(a[lo..lo + n]))
      invariant forall p :: 0 <= p < a.Length && !(lo <= p < lo + n) ==> a[p] == old(a[p])
    {
      BubbleStep(a, lo, n, t, m);
      m := m + 1;
    }
    SettleStep(a[lo..lo + n], t);
  }

  /** Step m of a pass: exchanges a[lo + m - 1] and a[lo + m] when they are out of order. */
  method BubbleStep(a: array<int>, lo: int, n: int, t: int, m: int)
    requires 0 <= lo && 2 <= t <= n && lo + n <= a.Length && 1 <= m < n
    requires SettledFrom(a[lo..lo + n], t) && PrefixMax(a[lo..lo + n], m - 1)
    requires m >= t ==> PrefixMax(a[lo..lo + n], t - 1)
    modifies a
    ensures SettledFrom(a[lo..lo + n], t) && PrefixMax(a[lo..lo + n], m)
    ensures m + 1 >= t ==> PrefixMax(a[lo..lo + n], t - 1)
    ensures multiset(a[lo..lo + n]) == multiset(old(a[lo..lo + n]))
    ensures forall p :: 0 <= p < a.Length && !(lo <= p < lo + n) ==> a[p] == old(a[p])
  {
    ghost var s := a[lo..lo + n];
    if a[lo + m] < a[lo + m - 1] {
      SwapStep(s, m, t);
      SwapAdjacent(a, lo, lo + n, lo + m);
      assert a[lo..lo + n] == SwapAt(s, m);
    } else {
      KeepStep(s, m, t);
      assert a[lo..lo + n] == s;
    }
  }

  /** A distinct sequence holds every value at most once. */
  lemma {:induction false} DistinctOnce(s: seq<int>, x: int)
    requires Distinct(s)
    ensures multiset(s)[x] <= 1
  {
    if s != [] {
      var pre := s[..|s| - 1];
      assert s == pre + [s[|s| - 1]];
      assert Distinct(pre);
      DistinctOnce(pre, x);
    }
  }

  /** Sorting a distinct row ascending gives a strictly increasing row. */
  lemma SortedDistinct(row: seq<int>, seg: seq<int>)
    requires Distinct(row) && Sorted(seg) && multiset(seg) == multiset(row)
    ensures SortedRowOf(row, seg)
  {
    forall i, j | 0 <= i < j < |seg|
      ensures seg[i] < seg[j]
    {
      if seg[i] == seg[j] {
        assert seg == seg[..j] + seg[j..];
        assert seg[i] in multiset(seg[..j]) && seg[j] in multiset(seg[j..]);
        assert multiset(seg)[seg[i]] == multiset(seg[..j])[seg[i]] + multiset(seg[j..])[seg[i]];
        DistinctOnce(row, seg[i]);
        assert false;
      }
    }
  }

  /**
   * What the passes over the nodes rely on for node v: GtoL row v holds the
   * incidence list inc, and row is the reduced row of v, built from inc.
   */
  ghost predicate RowEntry(L: seq<seq<int>>, gtoL: array2<int>, v: int, inc: seq<int>, row: seq<int>)
    requires 0 <= v < gtoL.Length0 && gtoL.Length1 == MaxIncidence
    reads gtoL
  {
    && |inc| <= MaxIncidence
    && (forall c :: 0 <= c < MaxIncidence ==> gtoL[v, c] == if c < |inc| then inc[c] else -1)
    && (forall t :: 0 <= t < |inc| ==> 0 <= inc[t] < |L|)
    && row == (if inc == [] then [v] else Dedup(Cat(L, inc)))
    && |row| <= MaxRowLength
    && Distinct(row)
  }

  /** RowEntry for every node. */
  ghost predicate RowTable(L: seq<seq<int>>, gtoL: array2<int>, incs: seq<seq<int>>, rows: seq<seq<int>>)
    reads gtoL
  {
    && gtoL.Length0 == |rows| == |incs|
    && gtoL.Length1 == MaxIncidence
    && forall v {:trigger RowEntry(L, gtoL, v, incs[v], rows[v])} ::
         0 <= v < |rows| ==> RowEntry(L, gtoL, v, incs[v], rows[v])
  }

  /** The incidence lists of all nodes. */
  function Incidences(m: Mesh): (r: seq<seq<int>>)
    ensures |r| == m.nn && forall v :: 0 <= v < m.nn ==> r[v] == Incidence(m, v)
  {
    seq(m.nn, v => Incidence(m, v))
  }

  /** The reduced rows of all nodes. */
  function ReducedRows(m: Mesh): (r: seq<seq<int>>)
    ensures RowsOf(m, r)
  {
    seq(m.nn, v => ReducedRow(m, v))
  }

  /** A filled GtoL describes the reduced rows of the mesh. */
  lemma TableRows(m: Mesh, gtoL: array2<int>)
    requires Valid(m) && WithinBounds(m) && IncidenceTable(m, gtoL)
    ensures RowTable(m.ltoG, gtoL, Incidences(m), ReducedRows(m))
  {
    var incs, rows := Incidences(m), ReducedRows(m);
    forall v | 0 <= v < m.nn
      ensures RowEntry(m.ltoG, gtoL, v, incs[v], rows[v])
    {
      ReducedRowShape(m, v);
      assert rows[v] == ReducedRow(m, v);
    }
  }

  /**
   * The first pass: the number of distinct columns of every reduced row,
   * 1 for a node no element touches, accumulated into rowStarts[0..NN].
   */
  method CountReduced(L: seq<seq<int>>, gtoL: array2<int>, ghost incs: seq<seq<int>>, ghost rows: seq<seq<int>>)
    returns (rowStarts: array<int>)
    requires RowTable(L, gtoL, incs, rows)
    ensures fresh(rowStarts) && rowStarts.Length == 4 * |rows| + 1
    ensures forall v :: 0 <= v <= |rows| ==> rowStarts[v] == ReducedStart(rows, v)
  {
    var nn := gtoL.Length0;
    rowStarts := new int[4 * nn + 1];
    var checkCol := new int[MaxRowLength];
    rowStarts[0] := 0;
    for i := 0 to nn
      invariant forall v :: 0 <= v <= i ==> rowStarts[v] == ReducedStart(rows, v)
    {
      CountStart(L, gtoL, incs, rows, rowStarts, checkCol, i);
    }
  }

  /** Pass i of the first pass: the start of row i + 1 is the start of row i plus the length of row i. */
  method CountStart(L: seq<seq<int>>, gtoL: array2<int>, ghost incs: seq<seq<int>>, ghost rows: seq<seq<int>>,
                    rowStarts: array<int>, checkCol: array<int>, i: int)
    requires RowTable(L, gtoL, incs, rows) && 0 <= i < |rows|
    requires rowStarts.Length == 4 * |rows| + 1 && checkCol.Length == MaxRowLength && rowStarts != checkCol
    requires rowStarts[i] == ReducedStart(rows, i)
    modifies rowStarts, checkCol
    ensures rowStarts[i + 1] == ReducedStart(rows, i + 1)
    ensures forall p :: 0 <= p < rowStarts.Length && p != i + 1 ==> rowStarts[p] == old(rowStarts[p])
  {
    assert RowEntry(L, gtoL, i, incs[i], rows[i]);
    var nnz := CountRow(L, gtoL, i, incs[i], rows[i], checkCol);
    rowStarts[i + 1] := nnz + rowStarts[i];
  }

  /** NNZ of the first pass for node v: the length of its reduced row, collected in checkCol. */
  method CountRow(L: seq<seq<int>>, gtoL: array2<int>, v: int, ghost inc: seq<int>, ghost row: seq<int>,
                  checkCol: array<int>) returns (nnz: int)
    requires 0 <= v < gtoL.Length0 && gtoL.Length1 == MaxIncidence && RowEntry(L, gtoL, v, inc, row)
    requires checkCol.Length == MaxRowLength
    modifies checkCol
    ensures nnz == |row|
  {
    if gtoL[v, 0] == -1 {
      nnz := 1;
    } else {
      for k := 0 to MaxRowLength
        modifies checkCol
      {
        checkCol[k] := -1;
      }
      nnz := CollectRow(L, gtoL, v, inc, checkCol, 0);
    }
  }

  /**
   * rowStartsSmall takes a copy of rowStarts[0..NN]; rowStarts[1..NN] is
   * scaled by 4 (four column blocks) and each later row block is the first
   * one shifted by rowStarts[NN].
   */
  method ExpandStarts(nn: int, rowStarts: array<int>, ghost rows: seq<seq<int>>) returns (rowStartsSmall: array<int>)
    requires nn == |rows| && rowStarts.Length == 4 * nn + 1
    requires forall v :: 0 <= v <= nn ==> rowStarts[v] == ReducedStart(rows, v)
    modifies rowStarts
    ensures fresh(rowStartsSmall)
    ensures ReducedStarts(rows, rowStartsSmall[..])
    ensures FullStarts(rows, rowStarts[..])
  {
    rowStartsSmall := CopyStarts(nn, rowStarts, rows);
    ScaleStarts(nn, rowStarts, rows);
    ReplicateStarts(nn, rowStarts, rows);
  }

  /** rowStartsSmall[i] = rowStarts[i] for i = 0 .. NN. */
  method CopyStarts(nn: int, rowStarts: array<int>, ghost rows: seq<seq<int>>) returns (rowStartsSmall: array<int>)
    requires nn == |rows| && rowStarts.Length == 4 * nn + 1
    requires forall v :: 0 <= v <= nn ==> rowStarts[v] == ReducedStart(rows, v)
    ensures fresh(rowStartsSmall)
    ensures ReducedStarts(rows, rowStartsSmall[..])
  {
    rowStartsSmall := new int[nn + 1];
    for i := 0 to nn + 1
      invariant forall v :: 0 <= v < i ==> rowStartsSmall[v] == rowStarts[v]
    {
      rowStartsSmall[i] := rowStarts[i];
    }
  }

  /** rowStarts[i] = 4 * rowStarts[i] for i = 1 .. NN. */
  method ScaleStarts(nn: int, rowStarts: array<int>, ghost rows: seq<seq<int>>)
    requires nn == |rows| && rowStarts.Length == 4 * nn + 1
    requires forall v :: 0 <= v <= nn ==> rowStarts[v] == ReducedStart(rows, v)
    modifies rowStarts
    ensures forall v :: 0 <= v <= nn ==> rowStarts[v] == FullStart(rows, v)
  {
    ghost var before := rowStarts[..];
    for i := 1 to nn + 1
      invariant forall v :: 1 <= v < i ==> rowStarts[v] == 4 * before[v]
      invariant forall v :: 0 <= v <= nn && !(1 <= v < i) ==> rowStarts[v] == before[v]
    {
      rowStarts[i] := rowStarts[i] * 4;
    }
  }

  /** rowStarts[NN + i] = rowStarts[NN] + rowStarts[i] for i = 1 .. 3NN. */
  method ReplicateStarts(nn: int, rowStarts: array<int>, ghost rows: seq<seq<int>>)
    requires nn == |rows| && rowStarts.Length == 4 * nn + 1
    requires forall v :: 0 <= v <= nn ==> rowStarts[v] == FullStart(rows, v)
    modifies rowStarts
    ensures FullStarts(rows, rowStarts[..])
  {
    for i := 1 to 3 * nn + 1
      invariant forall r :: 0 <= r < nn + i ==> rowStarts[r] == FullStart(rows, r)
    {
      FullStartLater(rows, nn + i);
      rowStarts[nn + i] := rowStarts[nn] + rowStarts[i];
    }
  }

  /** A start past the first row block is rowStarts[NN] plus the start NN rows earlier. */
  lemma FullStartLater(rows: seq<seq<int>>, r: nat)
    requires |rows| < r
    ensures FullStart(rows, r) == FullStart(rows, |rows|) + FullStart(rows, r - |rows|)
  {
  }

  /**
   * The second pass: every reduced row written into colSmall at its start,
   * the node itself for a node no element touches, otherwise collected as in
   * the first pass and then bubble-sorted.
   */
  method FillReducedColumns(L: seq<seq<int>>, gtoL: array2<int>, ghost incs: seq<seq<int>>, ghost rows: seq<seq<int>>,
                            rowStartsSmall: array<int>, colSmall: array<int>)
    requires RowTable(L, gtoL, incs, rows)
    requires ReducedStarts(rows, rowStartsSmall[..]) && colSmall.Length == rowStartsSmall[|rows|]
    requires colSmall != rowStartsSmall
    modifies colSmall
    ensures ReducedPattern(rows, rowStartsSmall[..], colSmall[..])
  {
    ghost var rss := rowStartsSmall[..];
    for i := 0 to gtoL.Length0
      invariant forall v :: 0 <= v < i ==> ReducedRowAt(rows, rss, colSmall[..], v)
    {
      ReducedStartMonotone(rows, i + 1, |rows|);
      assert RowEntry(L, gtoL, i, incs[i], rows[i]);
      var base := rowStartsSmall[i];
      assert base == rss[i] && base + |rows[i]| == rss[i + 1];
      ghost var before := colSmall[..];
      FillRow(L, gtoL, i, incs[i], rows[i], colSmall, base);
      KeepRows(rows, rss, before, colSmall[..], i);
    }
  }

  /** cs holds row, sorted, from position lo on. */
  ghost predicate RowHeld(cs: seq<int>, lo: int, row: seq<int>)
  {
    0 <= lo && lo + |row| <= |cs| && SortedRowOf(row, cs[lo..lo + |row|])
  }

  /** The second pass for node v: its sorted reduced row written at colSmall[base..]. */
  method FillRow(L: seq<seq<int>>, gtoL: array2<int>, v: int, ghost inc: seq<int>, ghost row: seq<int>,
                 colSmall: array<int>, base: int)
    requires 0 <= v < gtoL.Length0 && gtoL.Length1 == MaxIncidence && RowEntry(L, gtoL, v, inc, row)
    requires 0 <= base && base + |row| <= colSmall.Length
    modifies colSmall
    ensures RowHeld(colSmall[..], base, row)
    ensures colSmall[..base] == old(colSmall[..base])
  {
    EntryRow(L, gtoL, v, inc, row);
    if gtoL[v, 0] == -1 {
      colSmall[base] := v;
      SingleHeld(colSmall[..], base, row);
    } else {
      var nnz := CollectSorted(L, gtoL, v, inc, colSmall, base);
      SortedHeld(colSmall[..], base, nnz, row);
    }
  }

  /** A lone node written at lo is its own one-entry row. */
  lemma SingleHeld(cs: seq<int>, lo: int, row: seq<int>)
    requires 0 <= lo < |cs| && row == [cs[lo]]
    ensures RowHeld(cs, lo, row)
  {
    assert cs[lo..lo + |row|] == row;
  }

  /** A sorted segment holding the entries of a distinct row is that row in increasing order. */
  lemma SortedHeld(cs: seq<int>, lo: int, nnz: int, row: seq<int>)
    requires 0 <= lo && lo + nnz <= |cs| && nnz == |row| && Distinct(row)
    requires Sorted(cs[lo..lo + nnz]) && multiset(cs[lo..lo + nnz]) == multiset(row)
    ensures RowHeld(cs, lo, row)
  {
    SortedDistinct(row, cs[lo..lo + nnz]);
  }

  /** The collection of the second pass followed by the bubble sort of the collected segment. */
  method CollectSorted(L: seq<seq<int>>, gtoL: array2<int>, v: int, ghost inc: seq<int>,
                       colSmall: array<int>, base: int) returns (nnz: int)
    requires 0 <= v < gtoL.Length0 && gtoL.Length1 == MaxIncidence && |inc| <= MaxIncidence
    requires forall c :: 0 <= c < MaxIncidence ==> gtoL[v, c] == if c < |inc| then inc[c] else -1
    requires forall t :: 0 <= t < |inc| ==> 0 <= inc[t] < |L|
    requires 0 <= base && base + |Dedup(Cat(L, inc))| <= colSmall.Length
    modifies colSmall
    ensures nnz == |Dedup(Cat(L, inc))|
    ensures Sorted(colSmall[base..base + nnz])
    ensures multiset(colSmall[base..base + nnz]) == multiset(Dedup(Cat(L, inc)))
    ensures colSmall[..base] == old(colSmall[..base])
  {
    nnz := CollectRow(L, gtoL, v, inc, colSmall, base);
    ghost var collected := colSmall[..];
    assert collected[..base] == old(colSmall[..base]);
    SortSegment(colSmall, base, nnz);
    assert colSmall[..base] == collected[..base];
  }

  /** Rows below position rss[i] keep their contents when only positions from rss[i] on change. */
  lemma KeepRows(rows: seq<seq<int>>, rss: seq<int>, cs: seq<int>, cs': seq<int>, i: int)
    requires ReducedStarts(rows, rss) && 0 <= i < |rows| && |cs| == |cs'|
    requires forall v :: 0 <= v < i ==> ReducedRowAt(rows, rss, cs, v)
    requires rss[i] <= |cs| && cs'[..rss[i]] == cs[..rss[i]]
    requires RowHeld(cs', rss[i], rows[i])
    ensures forall v :: 0 <= v <= i ==> ReducedRowAt(rows, rss, cs', v)
  {
    assert forall k :: 0 <= k < rss[i] ==> cs'[k] == cs'[..rss[i]][k] == cs[..rss[i]][k] == cs[k];
    forall v | 0 <= v < i
      ensures ReducedRowAt(rows, rss, cs', v)
    {
      assert ReducedRowAt(rows, rss, cs, v);
      ReducedStartMonotone(rows, v + 1, i);
      assert rss[v + 1] <= rss[i];
      assert cs'[rss[v]..rss[v + 1]] == cs[rss[v]..rss[v + 1]];
    }
    assert rss[i + 1] == rss[i] + |rows[i]|;
  }

  /** GtoL row v starts with -1 exactly for a node no element touches, whose reduced row is the node alone. */
  lemma EntryRow(L: seq<seq<int>>, gtoL: array2<int>, v: int, inc: seq<int>, row: seq<int>)
    requires 0 <= v < gtoL.Length0 && gtoL.Length1 == MaxIncidence && RowEntry(L, gtoL, v, inc, row)
    ensures gtoL[v, 0] == -1 <==> inc == []
    ensures inc == [] ==> row == [v]
    ensures inc != [] ==> row == Dedup(Cat(L, inc))
  {
  }
}
