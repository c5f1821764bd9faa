# Stokes3D: sparse pattern, assembly, boundary conditions and the dense solver

`oldFiles/Stokes3D.cpp` solves the steady 3D Stokes equations with a
mixed finite element method. It has four unknowns per mesh node: the
velocities u, v, w and the pressure p. The global system has
`Ndof = 4 * NN` rows. Row `node + d * NN` belongs to field `d` of `node`.

The program keeps the global matrix twice:
- dense, as `K[Ndof][Ndof]`;
- in compressed sparse row (CSR) form, as `rowStarts`, `col` and `val`.

The CSR pattern is built from the node-to-node adjacency of the mesh.
`rowStartsSmall` and `colSmall` hold that adjacency for one field. The full
pattern repeats it in 4 x 4 blocks.

This project models the part of the program that builds, fills, constrains
and solves that system:

- `compressedSparseRowStorage` builds the pattern. It does this in several steps:
  - the node-to-element table `GtoL`;
  - a first pass that counts the distinct neighbours of every node;
  - three loops that derive `rowStartsSmall` and the full `rowStarts`;
  - a second pass that collects and bubble-sorts each reduced row into `colSmall`;
  - the expansion of `colSmall` into `col`;
  - zeroing `val`.
- `calcGlobalSys` zeroes `K` and `F`. For every element it clears `Ke` and `Fe`, folds the ten
  sub-blocks `Ke_11 … Ke_44` and the four loads `Fe_1 … Fe_4` into `Ke` and `Fe`, and calls `assemble`.
  The sub-blocks are inputs of the model (the quadrature that computes them
  is not modelled).
- `assemble` adds `Ke`/`Fe` into the dense `K`/`F`. It then adds `Ke` into `val` at the
  CSR positions it finds through `KeKMapSmall`.
- `applyBC` applies the penalty method to `K`, `F` and `val`, for velocity and
  pressure conditions.
- `gaussElimination` is Gaussian elimination with scaled partial pivoting.
  It works through the index array `indx`.

Entities:
- The mesh (`Mesh.Mesh`) is a value.
- The CSR arrays and the dense system are arrays inside the class
  `System.GlobalSystem`. Its methods update them in place.
- The solver works on the caller's `K`, `F` and `u` arrays.

Numbers are exact `real`s, where the source uses `double` and `float`.

One discrepancy between the code and its evident intent concerns sizing:
- Line 311 allocates `rowStartsSmall` with `NN` entries.
- The copy loop at lines 351-353 writes entry `NN` too.
- The model gives `rowStartsSmall` `NN + 1` entries. That is what every later reader of
  `rowStartsSmall[i + 1]` needs.

## Model

| member | source | states |
|---|---|---|
| Mesh.SlotsMembers | oldFiles/Stokes3D.cpp:294-296 | element e is recorded for node v exactly when v is among the scanned nodes of e |
| Mesh.IncidentMembers | oldFiles/Stokes3D.cpp:293-298 | GtoL's list for node v holds exactly the elements that contain v |
| Mesh.CatMembers | oldFiles/Stokes3D.cpp:327-343 | the nodes visited for a row are exactly the nodes of the incident elements |
| Mesh.DedupMembers | oldFiles/Stokes3D.cpp:330-340 | the overlap check keeps every visited node exactly once and adds nothing else |
| Mesh.ConnectedRowMembers | oldFiles/Stokes3D.cpp:321-343 | for a node with incident elements, the collected row is exactly its set of neighbours |
| Mesh.ReducedRowMembers | oldFiles/Stokes3D.cpp:316-348 | a reduced row holds exactly the neighbours of the node, or only the node itself when no element contains it |
| Mesh.ReducedRowShape | oldFiles/Stokes3D.cpp:316-348 | a reduced row is duplicate free, contains its own node and only holds node numbers below NN |
| Mesh.ElementNodesInRow | oldFiles/Stokes3D.cpp:1297-1308 | any two nodes of one element are in each other's reduced row, so the KeKMapSmall search always succeeds |
| Csr.UnknownParts | oldFiles/Stokes3D.cpp:1262 | unknown `node + NN * d` lies in [0, 4 NN) and decomposes back into its node and its field |
| Csr.SortedRowFacts | oldFiles/Stokes3D.cpp:395-403 | a sorted reduced row has the row's length and members and stays within [0, NN) |
| Csr.FullStartClosed | oldFiles/Stokes3D.cpp:355-361 | the full row starts are the reduced starts times four, offset by whole blocks |
| Csr.RowStarts | oldFiles/Stokes3D.cpp:355-361 | every full row start is a block offset plus four times its node's reduced start, and the starts are ordered |
| Csr.RowRepeat | oldFiles/Stokes3D.cpp:419-421 | the columns of a full row in a later block equal those of the same node's row in the first block |
| Csr.FullRowLayout | oldFiles/Stokes3D.cpp:409-421 | a full row is four times as long as its node's reduced row and holds the reduced row shifted by 0, NN, 2NN and 3NN |
| Csr.ExpandedSorted | oldFiles/Stokes3D.cpp:409-417 | expanding a strictly increasing reduced row gives a strictly increasing row within [0, 4 NN) |
| Csr.ExpandedMembers | oldFiles/Stokes3D.cpp:409-417 | column c is in the expanded row exactly when c, c - NN, c - 2NN or c - 3NN is in the reduced row |
| Csr.FullColumnAt | oldFiles/Stokes3D.cpp:411-415 | the t-th column of block b in a full row is the t-th reduced column plus b·NN |
| Csr.FullRowSorted | oldFiles/Stokes3D.cpp:395-421 | every full row of col is strictly increasing and within [0, 4 NN) |
| Csr.SameColumnSamePosition | oldFiles/Stokes3D.cpp:409-421 | within one row a column occurs at only one position |
| Csr.RowOfPosition | oldFiles/Stokes3D.cpp:355-361 | a position of col belongs to one row only |
| Csr.FullRowMembers | oldFiles/Stokes3D.cpp:409-421 | column c is stored in full row r exactly when c < 4 NN and c's node is in the reduced row of r's node |
| Csr.PatternIsAdjacency | oldFiles/Stokes3D.cpp:316-421 | (r, c) is stored exactly when the nodes of r and c share an element, or r's node is in no element and c is r's own node in some field |
| CsrBuild.BuildIncidence | oldFiles/Stokes3D.cpp:278-298 | the table GtoL lists, for every node, its incident elements in element order, padded with -1 |
| CsrBuild.BlankTable | oldFiles/Stokes3D.cpp:286-291 | GtoL starts as all -1 with every counter at 0 |
| CsrBuild.ScanSlot | oldFiles/Stokes3D.cpp:293-296 | recording one more element slot keeps GtoL and the counters equal to the incidence lists scanned so far |
| CsrBuild.ScanStep | oldFiles/Stokes3D.cpp:295-296 | scanning one more element node appends the element to that node's list and keeps the list within 8 entries |
| CsrBuild.IncidenceFromTable | oldFiles/Stokes3D.cpp:327-329 | a GtoL slot is not -1 exactly when it is one of the node's incident elements, and then it holds that element |
| CsrBuild.Seen | oldFiles/Stokes3D.cpp:331-336 | the check flag is 0 exactly when the node is already in the row's scratch buffer |
| CsrBuild.CollectNode | oldFiles/Stokes3D.cpp:330-340 | one more element node leaves the buffer holding the duplicate-free row extended by that node, and entries before the buffer untouched |
| CsrBuild.CollectElement | oldFiles/Stokes3D.cpp:330-341 | adding one element's nodes leaves the buffer holding the duplicate-free row so far, and nothing else in the buffer changes |
| CsrBuild.CollectSlot | oldFiles/Stokes3D.cpp:327-342 | one more GtoL column, an element or -1, leaves the buffer holding the duplicate-free row of the incident elements read so far |
| CsrBuild.Append | oldFiles/Stokes3D.cpp:337-340 | a new node goes at the end of the row and nothing else changes |
| CsrBuild.CollectRow | oldFiles/Stokes3D.cpp:327-343 | the buffer ends up holding the duplicate-free concatenation of the incident elements' nodes |
| CsrBuild.SwapAdjacent | oldFiles/Stokes3D.cpp:397-401 | the two neighbouring entries are exchanged, the row keeps its multiset, and nothing outside the row changes |
| CsrBuild.BubbleStep | oldFiles/Stokes3D.cpp:397-401 | one compare-and-swap keeps the settled tail, carries the running maximum one place on, permutes the segment and changes nothing outside it |
| CsrBuild.BubblePass | oldFiles/Stokes3D.cpp:396-402 | one pass over the row moves the next largest entry into place and permutes the row |
| CsrBuild.SortSegment | oldFiles/Stokes3D.cpp:395-403 | the row segment ends sorted, is a permutation of what it held, and nothing outside it changes |
| CsrBuild.SortedDistinct | oldFiles/Stokes3D.cpp:395-403 | sorting a duplicate-free row gives a strictly increasing row with the same members |
| CsrBuild.TableRows | oldFiles/Stokes3D.cpp:319-343 | reading the rows through GtoL gives the mesh's reduced rows |
| CsrBuild.EntryRow | oldFiles/Stokes3D.cpp:319-320 | GtoL[v][0] == -1 exactly when v is in no element, and the row is then [v]; otherwise it is the collected row |
| CsrBuild.CountRow | oldFiles/Stokes3D.cpp:317-345 | NNZ for a node is the length of its reduced row |
| CsrBuild.CountStart | oldFiles/Stokes3D.cpp:316-346 | rowStarts[i + 1] becomes the start of reduced row i + 1, and no other entry changes |
| CsrBuild.CountReduced | oldFiles/Stokes3D.cpp:314-348 | rowStarts[0..NN] are the running totals of the reduced row lengths |
| CsrBuild.CopyStarts | oldFiles/Stokes3D.cpp:351-353 | rowStartsSmall holds the reduced row starts |
| CsrBuild.ScaleStarts | oldFiles/Stokes3D.cpp:355-357 | rowStarts[0..NN] become the starts of the first-field rows, four columns per neighbour |
| CsrBuild.ReplicateStarts | oldFiles/Stokes3D.cpp:359-361 | the starts of the rows of fields 1-3 repeat those of field 0 after whole blocks |
| CsrBuild.ExpandStarts | oldFiles/Stokes3D.cpp:351-361 | the three loops give the reduced and the full row starts |
| CsrBuild.FillRow | oldFiles/Stokes3D.cpp:373-404 | a node's segment of colSmall holds its reduced row sorted, and earlier segments are untouched |
| CsrBuild.CollectSorted | oldFiles/Stokes3D.cpp:377-403 | the collected segment is sorted and is a permutation of the duplicate-free neighbour list |
| CsrBuild.FillReducedColumns | oldFiles/Stokes3D.cpp:370-406 | colSmall holds every reduced row, sorted, at its start |
| CsrExpand.CopyShifted | oldFiles/Stokes3D.cpp:412-415 | one block of a full row is the reduced row shifted by the block offset, and the earlier part of col is untouched |
| CsrExpand.ExpandBlock | oldFiles/Stokes3D.cpp:411-415 | one pass of the k loop appends the reduced row shifted by k to the part of the row already written, and col before the row is untouched |
| CsrExpand.ExpandRow | oldFiles/Stokes3D.cpp:411-416 | a node's first-field row is its reduced row expanded into the four column blocks |
| CsrExpand.BuildFirstBlock | oldFiles/Stokes3D.cpp:409-417 | every first-field row of col is its node's expanded reduced row |
| CsrExpand.RepeatBlocks | oldFiles/Stokes3D.cpp:419-421 | the rows of fields 1-3 repeat the first-field rows |
| CsrExpand.ReducedStorage | oldFiles/Stokes3D.cpp:272-406 | rowStartsSmall and colSmall form the reduced pattern of the mesh, and rowStarts holds the full row starts |
| CsrExpand.FullColumns | oldFiles/Stokes3D.cpp:408-422 | col is the full pattern: each first-field row is its node's expanded reduced row, and the later row blocks repeat the first |
| CsrExpand.ZeroValues | oldFiles/Stokes3D.cpp:444-450 | val has one zero per stored column |
| CsrExpand.CompressedSparseRowStorage | oldFiles/Stokes3D.cpp:272-457 | the four arrays form the CSR pattern of the mesh's reduced rows, and val is all zero |
| Element.PlaceRow | oldFiles/Stokes3D.cpp:1086-1089 | one row of a sub-block, or of its transpose, lands in Ke at the right columns, and nothing else changes |
| Element.PlaceBlock | oldFiles/Stokes3D.cpp:1084-1091 | block (rb, cb) of Ke is filled from its sub-block, and already placed blocks are kept |
| Element.BlockRange | oldFiles/Stokes3D.cpp:1093 | the local rows of block rb are exactly those from rb·n up to (rb+1)·n |
| Element.PlaceRowBlock | oldFiles/Stokes3D.cpp:1082-1121 | the four blocks of one block row are filled, and the other block rows are kept |
| Element.FoldStiffness | oldFiles/Stokes3D.cpp:1082-1239 | every entry of Ke is the entry of its block: the upper sub-blocks as given, and the lower ones as their transposes |
| Element.OffDiagonalTransposed | oldFiles/Stokes3D.cpp:1123-1229 | Ke entries outside the diagonal blocks are symmetric |
| Element.FoldSymmetric | oldFiles/Stokes3D.cpp:1082-1239 | Ke is symmetric exactly when the four diagonal sub-blocks Ke_11, Ke_22, Ke_33 and Ke_44 are |
| Element.ZeroElement | oldFiles/Stokes3D.cpp:933-938 | Ke and Fe are cleared |
| Element.ZeroLoads | oldFiles/Stokes3D.cpp:940-944 | Fe_1 … Fe_4 are cleared |
| Element.PlaceLoad | oldFiles/Stokes3D.cpp:1062-1065 | one partial load is copied into its slice of Fe, and the earlier entries are kept |
| Element.FoldLoad | oldFiles/Stokes3D.cpp:1061-1077 | Fe is the concatenation of Fe_1, Fe_2, Fe_3 and Fe_4 |
| Element.ElementLoad | oldFiles/Stokes3D.cpp:940-1077 | the element load vector is all zero, because the partial loads are cleared and never added to |
| Element.ElementMatrices | oldFiles/Stokes3D.cpp:865-1239 | each element's Ke is the folded block matrix and its Fe is zero |
| Assembly.GlobalIndex | oldFiles/Stokes3D.cpp:1262 | local index I goes to global row `LtoG[e][I % n] + NN * (I / n)`, an unknown in [0, 4 NN) |
| Assembly.LocalGlobal | oldFiles/Stokes3D.cpp:1266 | local index b·n + i is field b of element node i |
| Assembly.TotalsAgree | oldFiles/Stokes3D.cpp:1260-1322 | the dense sweep and the block-by-block sparse sweep add the same total to every (r, c) |
| Assembly.DenseTotalUnconnected | oldFiles/Stokes3D.cpp:1260-1269 | an element adds nothing to (r, c) unless the nodes of r and c lie in each other's rows |
| Assembly.LoadTotalZero | oldFiles/Stokes3D.cpp:1263 | a zero element load adds nothing to F |
| Assembly.DenseTotalUnpaired | oldFiles/Stokes3D.cpp:1260-1269 | an element adds nothing to (r, c) when no pair of its unknowns maps to r and c |
| Assembly.LoadTotalOutside | oldFiles/Stokes3D.cpp:1260-1263 | an element adds nothing to F[r] when none of its unknowns maps to r |
| Assembly.FindOffset | oldFiles/Stokes3D.cpp:1299-1306 | q is the offset of the first occurrence of the target in the reduced row, or the row length when it is absent |
| Assembly.OffsetRow | oldFiles/Stokes3D.cpp:1298-1307 | row i of KeKMapSmall holds the offset of every element node in node i's reduced row |
| Assembly.OffsetEntry | oldFiles/Stokes3D.cpp:1299-1307 | KeKMapSmall[i][j] becomes the offset of node j in node i's reduced row, and no other entry changes |
| Assembly.BuildOffsetMap | oldFiles/Stokes3D.cpp:1292-1308 | KeKMapSmall[i][j] is the offset of node j in node i's reduced row |
| Assembly.DenseRow | oldFiles/Stokes3D.cpp:1265-1268 | one local row of Ke is added to K at the global positions of its entries |
| Assembly.DenseStep | oldFiles/Stokes3D.cpp:1260-1268 | one local row adds its load to F and its row of Ke to K, each at exactly the global positions it hits |
| Assembly.DenseScatter | oldFiles/Stokes3D.cpp:1260-1269 | K and F grow by exactly the element's contributions at their global positions |
| Assembly.PositionUnique | oldFiles/Stokes3D.cpp:1316-1317 | the position computed for (R, C) is the only stored position of row R with column C |
| Assembly.ScatterRow | oldFiles/Stokes3D.cpp:1315-1319 | one local row of one block is added into val at the CSR positions of its columns |
| Assembly.ScatterTerm | oldFiles/Stokes3D.cpp:1316-1318 | one Ke entry is added at its CSR position, extending the part of the local row already scattered by one column |
| Assembly.ScatterBlock | oldFiles/Stokes3D.cpp:1314-1320 | one block (shiftRow, shiftCol) of Ke is added into val |
| Assembly.ScatterBlockRow | oldFiles/Stokes3D.cpp:1313-1321 | the four blocks of one block row of Ke are added into val |
| Assembly.ScatterValues | oldFiles/Stokes3D.cpp:1312-1322 | every stored entry of val grows by the element's total for its (row, column), and nothing else changes |
| System.MeshElementsInRows | oldFiles/Stokes3D.cpp:1297-1308 | every element's nodes are in each other's reduced rows |
| System.BuiltFrame | oldFiles/Stokes3D.cpp:93-97 | the pattern built from a mesh is the pattern used by the assembly |
| System.BuildPattern | oldFiles/Stokes3D.cpp:93 | the pattern builder on a valid mesh yields arrays that hold a frame of that mesh's reduced rows, with val all zero |
| System.GlobalSystem.constructor | oldFiles/Stokes3D.cpp:852-863 | after the pattern is built, K, F and val are zero and the system is consistent |
| System.GlobalSystem.Scatter | oldFiles/Stokes3D.cpp:1260-1322 | K, F and val grow by the element's dense, load and sparse totals |
| System.GlobalSystem.Assemble | oldFiles/Stokes3D.cpp:1251-1323 | K and F grow by the element's contributions; val still equals K at every stored position, and K stays zero outside the pattern |
| System.GlobalSystem.Clear | oldFiles/Stokes3D.cpp:858-863 | K and F become zero and the system stays consistent |
| System.GlobalSystem.ElementStep | oldFiles/Stokes3D.cpp:931-1241 | one element adds its folded stiffness to K and leaves F unchanged |
| System.GlobalSystem.AssembleNext | oldFiles/Stokes3D.cpp:931-1243 | after element e, K holds the assembled sum of elements 0 … e and F is zero |
| System.GlobalSystem.CalcGlobalSystem | oldFiles/Stokes3D.cpp:836-1245 | K is the sum of all element matrices at their global positions, F is zero, and val mirrors K on the pattern |
| Boundary.PrescribedLast | oldFiles/Stokes3D.cpp:1419-1462 | a row is constrained exactly when some condition names its node and field, and then the last such condition fixes its value |
| Boundary.PrescribedOutside | oldFiles/Stokes3D.cpp:1419-1445 | velocity conditions never touch pressure rows, and pressure conditions never touch velocity rows |
| Boundary.PassesCompose | oldFiles/Stokes3D.cpp:1419-1462 | the velocity pass followed by the pressure pass equals one penalty with the combined prescription |
| Boundary.PenaltyIdempotent | oldFiles/Stokes3D.cpp:1428-1432 | applying the same penalty twice changes nothing more |
| System.AssembledOutside | oldFiles/Stokes3D.cpp:1260-1269 | assembling element e leaves K[r][c] unchanged whenever the node of r or the node of c is not a node of e |
| Boundary.PenaltyEquation | oldFiles/Stokes3D.cpp:1428-1432 | a penalised row reads bigNumber·u[r] = bigNumber·g, so it holds exactly when u[r] is the prescribed g |
| Boundary.PenalizeRow | oldFiles/Stokes3D.cpp:1428-1432 | one dense row becomes zero except bigNumber on its diagonal, F[row] becomes value·bigNumber, and every other row is unchanged |
| Boundary.PenalizeVelocity | oldFiles/Stokes3D.cpp:1420-1444 | the node's u, v and w rows are penalised with BCstrings[which - 1][0..2], and nothing else changes |
| Boundary.PenalizePressure | oldFiles/Stokes3D.cpp:1449-1461 | the node's p row is penalised with BCstrings[which - 1][0], and nothing else changes |
| Boundary.PenalizeVelocities | oldFiles/Stokes3D.cpp:1419-1445 | after the loop every row hit by a velocity condition is penalised by its last condition, and the others are unchanged |
| Boundary.PenalizePressures | oldFiles/Stokes3D.cpp:1448-1462 | after the loop every row hit by a pressure condition is penalised by its last condition, and the others are unchanged |
| Boundary.DiagonalSlot | oldFiles/Stokes3D.cpp:1490-1502 | position `rowStarts[node + d·NN] + d·len + q` lies in that row and is the only one holding the diagonal column `node + d·NN` |
| Boundary.SlotColumn | oldFiles/Stokes3D.cpp:1496 | the position written in field d's row holds column `node + d·NN` |
| Boundary.FindDiagonal | oldFiles/Stokes3D.cpp:1477-1483 | q is the offset of the node itself in its reduced row |
| Boundary.ResetRange | oldFiles/Stokes3D.cpp:1487-1490 | the row's values become zero except bigNumber at the given position, and nothing else changes |
| Boundary.RowReset | oldFiles/Stokes3D.cpp:1487-1490 | resetting a row's range leaves bigNumber exactly at its diagonal column and all other rows unchanged |
| Boundary.PenalizeStoredRow | oldFiles/Stokes3D.cpp:1493-1496 | the stored row of field d is zero except bigNumber on its diagonal, and the other rows are unchanged |
| Boundary.PenalizeStoredVelocity | oldFiles/Stokes3D.cpp:1471-1503 | the stored u, v and w rows of the node are penalised, and the other rows are unchanged |
| Boundary.PenalizeStoredPressure | oldFiles/Stokes3D.cpp:1508-1527 | the node's stored p row is penalised, and the other rows are unchanged |
| Boundary.PenalizeStoredVelocities | oldFiles/Stokes3D.cpp:1470-1504 | val is penalised on every row hit by a velocity condition |
| Boundary.PenalizeStoredPressures | oldFiles/Stokes3D.cpp:1507-1528 | val is penalised on every row hit by a pressure condition |
| Boundary.PenaltyExact | oldFiles/Stokes3D.cpp:1428-1432 | in any solution of a system whose row r is bigNumber on the diagonal, zero elsewhere, with right side g·bigNumber, unknown r equals g |
| Boundary.SolutionsImposed | oldFiles/Stokes3D.cpp:1411-1528 | every solution of the penalised K x = F takes the prescribed value at each constrained unknown |
| Boundary.ApplyBC | oldFiles/Stokes3D.cpp:1411-1528 | K, F and val are penalised on exactly the constrained rows, unconstrained rows are unchanged, val still mirrors K, and every solution of the new K x = F takes the prescribed value at each constrained unknown |
| Gauss.Abs | oldFiles/Stokes3D.cpp:1693 | the absolute value is non-negative and equals x or -x |
| Gauss.Ratio | oldFiles/Stokes3D.cpp:1704 | the scaled ratio is non-negative and zero exactly when the entry is zero |
| Gauss.Multiplier | oldFiles/Stokes3D.cpp:1726 | the multiplier cancels the entry below the pivot |
| Gauss.DotRangeLinear | oldFiles/Stokes3D.cpp:1727-1732 | the row dot product is linear in the row |
| Gauss.RowCombination | oldFiles/Stokes3D.cpp:1725-1733 | adding a multiple of the pivot row to another row keeps the set of solutions, in both directions |
| Gauss.EquivalentTrans | oldFiles/Stokes3D.cpp:1703-1734 | having the same solutions is transitive over elimination steps |
| Gauss.BelowStep | oldFiles/Stokes3D.cpp:1725-1733 | each elimination keeps the system equivalent and clears one more entry in column k |
| Gauss.ForwardStep | oldFiles/Stokes3D.cpp:1703-1734 | after stage k the rows indx[k+1..] are zero in column k and the pivot of row indx[k] is nonzero |
| Gauss.SwapKeeps | oldFiles/Stokes3D.cpp:1719-1721 | swapping indx[k] and indx[maxIndx] keeps indx a permutation and keeps the finished triangle |
| Gauss.BackStep | oldFiles/Stokes3D.cpp:1738-1744 | each back-substitution step solves one more equation of the triangle |
| Gauss.BackSolved | oldFiles/Stokes3D.cpp:1738-1744 | after back substitution the values read through indx solve the triangular system |
| Gauss.ScalePositive | oldFiles/Stokes3D.cpp:1692-1699 | a row's scale factor is positive exactly when the row has a nonzero entry |
| Gauss.InitIndex | oldFiles/Stokes3D.cpp:1686-1688 | indx starts as the identity, a permutation |
| Gauss.RowScale | oldFiles/Stokes3D.cpp:1693-1698 | the scale factor is the largest absolute entry of the row |
| Gauss.ScaleFactors | oldFiles/Stokes3D.cpp:1692-1699 | every row's scale factor is its largest absolute entry |
| Gauss.PivotSearch | oldFiles/Stokes3D.cpp:1704-1712 | maxIndx has the largest scaled ratio in column k, and it is the first such row |
| Gauss.AddMultiple | oldFiles/Stokes3D.cpp:1727-1732 | row ri of K from column k on, and F[ri], gain ratio times the pivot row, and nothing else changes |
| Gauss.EliminateRow | oldFiles/Stokes3D.cpp:1726-1732 | row ri becomes itself plus the multiplier times the pivot row, with the multiplier that cancels K[ri][k] |
| Gauss.EliminateBelow | oldFiles/Stokes3D.cpp:1725-1733 | column k is cleared below the pivot, and the system keeps its solutions |
| Gauss.Forward | oldFiles/Stokes3D.cpp:1703-1734 | forward elimination keeps the solutions, leaves an upper triangle with nonzero pivots, and stops early exactly when a column has no nonzero candidate pivot |
| Gauss.TailSum | oldFiles/Stokes3D.cpp:1739-1742 | sum is the dot product of the pivot row's tail with the solved unknowns |
| Gauss.BackSubstitute | oldFiles/Stokes3D.cpp:1738-1744 | the values F[indx[c]] solve the triangular system |
| Gauss.CopyOut | oldFiles/Stokes3D.cpp:1746-1748 | u[k] is F[indx[k]] |
| Gauss.TriangularUnique | oldFiles/Stokes3D.cpp:1738-1744 | a triangular system with non-zero pivots has at most one solution |
| Gauss.GaussElimination | oldFiles/Stokes3D.cpp:1674-1750 | indx is a permutation; without err, u solves the original K·u = F and is its only solution; with err, u is untouched and an equivalent system has a zero column below the finished triangle |

## Left out

- readInput, the mesh and boundary-condition file formats, and the coordinates (`coord`) are not modelled. The mesh, `velNodes`, `pressureNodes` and `BCstrings` are inputs.
- gaussQuad, calcShape, calcJacobian and the quadrature and stabilisation loop of calcGlobalSys (lines 965-1056) are not modelled: they are floating-point numerics. The ten sub-blocks `Ke_11 … Ke_44` are inputs of CalcGlobalSystem.
- solve's output, the CUSP solver branch, postProcess, the Tecplot writer and every `delete` are not modelled. They are I/O, an external library, or deallocation.
- Floating point is not modelled: values are exact reals. Rounding, overflow to infinity and NaN are out of scope.
- The model uses one element size `nen` for both NENv and NENp, and NCN == NN, so Ndof = 4·NN. This matches the 8-node hexahedral meshes the code is written for.
- CsrBuild.BuildIncidence: requires at most 8 elements per node, because GtoL has 8 columns (line 279). The source would write past the row.
- CsrBuild.CountRow: requires a reduced row of at most 1000 nodes, because checkCol has 1000 entries (line 312). The source would write past the buffer.
- CsrBuild.CopyStarts: allocates NN + 1 entries where line 311 allocates NN. The source writes entry NN at line 352.
- Element.ElementMatrices: allocates Ke and Fe for each element. The source allocates them once before the element loop (lines 865-927) and clears them at the start of each element; the observable contents are the same.
- Boundary.ValueOf: a condition number outside BCstrings gives 0. ApplyBC requires every condition to be well formed, so this default is never used there.
- Boundary.ApplyBC: reads no coordinates. The source loads x, y and z for every constrained node but never uses them.
- Boundary.BigNumber: a real 1000.0. The source stores bigNumber as an int and converts it when multiplying.
- Boundary.PenaltyIdempotent: holds directly from the definitions. It is stated because the source applies a condition again when a node is listed twice.
- Gauss.GaussElimination: requires every row of K to have a nonzero entry. For a zero row the source divides 0 by a scale of 0 and compares the NaN it gets.
- Gauss.GaussElimination: returns err instead of writing a reference parameter. The source leaves err unset on success, and its caller never reads it.
- Gauss.GaussElimination: on err it proves that an equivalent system has no pivot in column `stage`. It does not state that the original K is singular. Success does imply a unique solution, so a singular K never returns without err.
- Gauss.GaussElimination: gives indx as a ghost result. In the source, indx and scale are local arrays that are never freed.
