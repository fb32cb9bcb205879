# Verified model of the molecular-dynamics build pipeline

This Dafny project models the parts of the repository whose correctness rests on an argument rather than on a single
formula, and proves that argument for every input. Floating-point numbers are exact reals, integers are unbounded (the
host language has unbounded integers too), dictionaries that are iterated are kept with their insertion order, and
objects that the program updates in place are classes. `dafny verify dfyconfig.toml` checks everything.

| file | what it models |
|---|---|
| `Sublattice.dfy` | the unit-cell origins of a supercell; index of a sublattice = determinant |
| `SupercellSearch.dfy` | the search for a near-rectangular supercell, its ranking, its fallback |
| `SupercellBound.dfy` | when a result respects the bound on the number of cells, and when not |
| `SearchRadius.dfy` | exactly when the search radius covers every vector within the margin |
| `SearchResult.dfy` | the fields of a search result and the filters of the search, in plain terms |
| `SearchOptimality.dfy`, `SearchExample.dfy` | how good the returned supercell is; an input whose fallback reason is wrong |
| `SlabLayers.dfy` | how well the number of layers matches the target thickness |
| `SupercellSizes.dfy` | the scan over target sizes, its cache, the closest available size |
| `CrystalPlacement.dfy` | placing the basis atoms: transformed build and replicate build |
| `Lattice.dfy` | where each atom of a built lattice stands, said without the loops |
| `Hydroxyl.dfy` | nearest-image search, adding hydroxyl groups, relabelling in place, charge |
| `HydroxylFacts.dfy` | what a hydroxylated slab is, said without the passes |
| `CrystalSlab.dfy` | both builds from end to end: placing, then hydroxylating |
| `SearchedBuild.dfy` | from the search for a supercell to the finished slab |
| `Composition.dfy` | weight percentages to molecule counts: rounding, scan, hill climbing |
| `MolGraph.dfy` | angles and dihedrals of a bond graph |
| `OrphanCleanup.dfy` | reconciling metric rows and reference-counted artifacts |
| `BuildThrottle.dfy` | the cross-process counting semaphore, as interleaved steps |
| `ThrottleBound.dfy` | the bound on simultaneous builds: exactly when the semaphore keeps it |
| `PackRetry.dfy` | packing with retries against arbitrary answers of packer and validator |
| `InorganicCache.dfy` | the persistent typing cache and the topology it mutates |
| `DataFiles.dfy`, `XyzFiles.dfy` | data files and XYZ files: writers, readers, round trips |
| `FileRecords.dfy` | a written data file line by line: every number in it reads back |
| `ExperimentIds.dfy`, `MoleculeIds.dfy` | identifiers: generators, parsers, round trips |
| `Common.dfy`, `Numeric.dfy`, `Strings.dfy`, `Sorting.dfy` | shared vocabulary: rounding, splitting, numerals, stable sorting |

Imperative code is modelled imperatively: a method with the source's loop is proved against a specification function
(`GetDihedrals` against `Dihedrals`, `Cleanup` against `Kept`, `ArtifactsAfter` and `ReportOf`, `ReadAtoms` against
`ReadLines`), and the theorems are then stated about that function.

## What the proofs say about the code

* **Supercells.** The bounding-box scan never raises its mismatch error: the half-open parallelogram is a fundamental
  domain, any two systems of representatives have the same size, and Euclidean row operations reduce the count to a
  product. The transformed build therefore places exactly `det * nz * |basis|` atoms, all inside the box and at different
  positions, and for exactly orthogonal rows every periodic distance is a distance of the crystal.
* **Search.** The result is the unique acceptable matrix of least rank when that one beats the diagonal supercell, and the
  diagonal supercell otherwise. The search radius holds every vector within the length margin if and only if the shortest
  vectors of finitely many rows and columns beyond it are long enough (`RadiusCompleteIff`); it does on every hexagonal
  cell (`EqualEdgesComplete`) and not on very elongated ones (`RadiusMisses`). Where it does, the result is optimal among
  all integer matrices, not only the scanned ones (`SearchOptimal`).
* **Fallback reason.** `no_better_orthogonal_candidate` is not always true: the rank adds up two squared deviations, while
  the comparison with the diagonal takes the larger one. `ReasonCanBeWrong` gives a cell with the default bound and
  tolerance; `ReturnedWithinRootTwo` shows that a better matrix gains at most a factor sqrt(2), `ReasonHolds` when there is
  none. The other two reasons are exact.
* **Cell bound.** `max_cells_xy` is not a property of the result: on every lattice some target makes the search return
  more cells (`DiagonalUnbounded`). It is exceeded exactly when the diagonal count exceeds it and the diagonal is returned
  (`BoundBrokenIff`), so a caller who compares the diagonal count with the bound beforehand is safe (`BoundKept`).
* **Built slabs.** What the search finds is what is built, atom by atom: layer, cell and basis atom give the index and the
  place of every lattice atom (`IsMatrixLattice`, `IsGridLattice`), and its periodic distances are crystal distances up to
  the tolerance (`ReturnedDistances`). A searched supercell is always one that can be built (`BuildSearchedSlab`). The
  number of layers is nearest to the target among all that reach 0.8 of it (`FoundLayers`).
* **Hydroxylation.** A hydroxylated slab has the lesser of the wanted groups and of the oxygens with no atom 1 or more above
  them, each 0.96 above its oxygen; labels and charges change as `IsHydroxylation` says. Charge is conserved exactly when
  one of three tabulated conditions holds (`HydroxylationConservesIff`); with oxygen missing from the charge table the
  finishing pass is skipped and every added hydrogen leaves its charge behind (`OxygenMissing`, `HydrogenMissing`). A
  neutral unit cell with a balanced table gives a neutral slab (`NeutralSlab`).
* **Composition.** `calculate` fails with a missing key as soon as one category of the target has no molecule, although
  the two allocation passes handle such categories: its last sum looks every counted category up. `ReturnsIff` gives the
  exact condition and `MissingCategoryFails` an input. It also replaces the first allocation without comparing errors, so
  nothing is claimed against the first allocation once the threshold is exceeded; the result is compared with every
  allocation of the scan.
* **Cleanup.** References to an artifact with primary key 0 are not given back, because the code tests the key for truth.
  `RefCountsKeptIff` gives the exact condition, `ArtifactZeroLeaks` an input.
* **Throttle.** At most `n` callers with limit at most `n` hold a slot. Counting everyone who builds, the bound `n` holds
  in every interleaving if and only if no caller fails open, neither by a file-system error nor by a time-out
  (`ThrottlesIff`); otherwise the builders exceed it by at most the callers without a slot, and that many is reached
  (`BuildersExceedByUnthrottled`, `BoundBroken`). A time-out shows only that each slot was taken when it was probed.
* **Packing.** The comment above the retry policy describes an escalation over densities 0.3, 0.2 and 0.1. The start is
  capped at 0.2, so only 0.1 can follow and at most six attempts are made (`ScheduleShape`, `AttemptsBounded`).
* **Typing cache.** A cached answer equals a recomputed one if and only if the call misses, or the additive is admitted
  by the service and its profile does not store an empty policy name (`CacheTransparentIff`): a blocked additive is still
  served from an existing entry (`BlockedIsStillServed`), and an empty name reads back as the default.
* **Identifiers.** The end-of-string anchor of the molecule-id patterns also accepts one final line break, so parsing and
  printing are inverse up to that line break (`LineBreakIsLost`). An additive with underscores is not recovered from an
  experiment id, but the material is.
* **Data files.** A force-field name that itself matches the atom-count pattern, or that contains a box mark, ends up in
  the title line and changes what the readers return; the theorems give the result in those cases too.

## Model

| member | source | states |
|---|---|---|
| `Sublattice.ParallelogramIsTransversal` | src/builder/supercell_search.py:383-390 | every integer point is congruent modulo the rows to exactly one point of the half-open parallelogram |
| `Sublattice.TransversalsEquinumerous` | src/builder/supercell_search.py:393-394 | any two complete, duplicate-free systems of representatives of one sublattice have the same size |
| `Sublattice.TransversalOfSizeDet` | src/builder/supercell_search.py:374-377 | for positive determinant, some system of representatives has exactly det members |
| `Sublattice.ParallelogramCount` | src/builder/supercell_search.py:393-394 | the parallelogram holds exactly det integer points |
| `Sublattice.InCellWithinBox` | src/builder/supercell_search.py:379-383 | every origin lies strictly inside the scanned bounding box |
| `Sublattice.EnumerateUnitCells` | src/builder/supercell_search.py:367-395 | exactly det origins in scan order, exactly the points of the parallelogram, a system of representatives; the only error is a non-positive determinant |
| `Lattice.CellInside` | src/builder/supercell_search.py:383-390 | the origins are the integer points whose supercell coordinates lie in [0, 1) |
| `SupercellSearch.BestNzThickness` | src/builder/supercell_search.py:25-37 | the chosen layers reach the minimum fraction of the target and exceed it by less than one layer unless there is only one |
| `SlabLayers.BestNzIsBest` | src/builder/supercell_search.py:33-37 | among all numbers of layers that reach the minimum fraction of the target, the chosen one is nearest to it |
| `SlabLayers.FoundLayers` | src/builder/supercell_search.py:216-298 | the layers of the result: at least min_nz, at least 0.8 of the target, and nearest to it among all such numbers |
| `SupercellSearch.AreaIdentity` | src/builder/supercell_search.py:187-195 | (lx ly)^2 equals det^2 cell areas squared plus the squared dot product |
| `SupercellSearch.AcceptedArea` | src/builder/supercell_search.py:301-311 | an accepted pair encloses det cell areas up to the tolerance; the clamped denominator is covered |
| `SupercellSearch.DiagonalArea` | src/builder/supercell_search.py:198-233 | the diagonal supercell encloses exactly det cell areas, those of the crystal unless a cell edge is clamped |
| `SearchResult.DiagonalIsNearest` | src/builder/supercell_search.py:210-224 | each edge of the diagonal supercell is the multiple of its cell edge nearest to the target |
| `SearchResult.RightAngledIff` | src/builder/supercell_search.py:254-254 | an angle counts as right when it is 90 up to one part in a thousand million; the absolute tolerance never matters |
| `SearchResult.AcceptsIff` | src/builder/supercell_search.py:303-311 | the filters on a pair in terms of its components |
| `SupercellBound.BoundBrokenIff` | src/builder/supercell_search.py:198-224 | a result exceeds the cell bound if and only if the diagonal count does and the diagonal is returned |
| `SupercellBound.BoundKept` | src/builder/supercell_search.py:210-224 | a diagonal count within the bound guarantees a result within it |
| `SupercellBound.DiagonalUnbounded` | src/builder/supercell_search.py:341-364 | on every lattice, for every bound and any tolerance below one, some target makes the search return more cells than the bound |
| `SearchRadius.RadiusCompleteIff` | src/builder/supercell_search.py:272-282 | the radius holds every vector within the margin if and only if, on each of finitely many rows and columns beyond it, the shortest vector is longer than target plus margin |
| `SearchRadius.RadiusComplete` | src/builder/supercell_search.py:272-282 | no row or column beyond the radius comes that close: then every vector within the margin lies inside the radius |
| `SearchRadius.EqualEdgesComplete` | src/builder/supercell_search.py:272-282 | with equal edges and an angle between 30 and 150 degrees the radius holds every vector within the margin |
| `SearchRadius.RadiusMisses` | src/builder/supercell_search.py:272-282 | on an elongated cell a vector within the margin lies outside the radius |
| `SupercellSearch.CandidateVectors` | src/builder/supercell_search.py:272-282 | the candidates are exactly the vectors within the margin, in scan order, without duplicates |
| `SupercellSearch.BestPair` | src/builder/supercell_search.py:301-336 | the nested loop keeps the accepted pair of least rank that is met first, or finds that none is accepted |
| `SupercellSearch.LeastIsBest` | src/builder/supercell_search.py:314-341 | the kept pair precedes every other acceptable matrix |
| `SupercellSearch.BestIsUnique` | src/builder/supercell_search.py:314-341 | at most one matrix is best |
| `SearchOptimality.BestIsLeast` | src/builder/supercell_search.py:314-341 | least squared deviations; on a tie fewest cells, then most nearly square, then least sum of coefficients |
| `SearchOptimality.BestErrorWithinRootTwo` | src/builder/supercell_search.py:311-319 | choosing by rank at most doubles the squared edge error of any acceptable matrix |
| `SearchOptimality.BestExists` | src/builder/supercell_search.py:334-336 | as soon as a matrix is acceptable, one is best |
| `SearchOptimality.ReturnedWithinRootTwo` | src/builder/supercell_search.py:338-364 | the returned error, less the slack of the comparison, is at most sqrt(2) times that of every acceptable matrix, whatever the fallback reason |
| `SearchOptimality.ReasonHolds` | src/builder/supercell_search.py:349-364 | a condition on the best matrix under which no acceptable matrix beats the diagonal |
| `SearchOptimality.BeaterWithinMargin` | src/builder/supercell_search.py:273-281 | a matrix that beats the diagonal has both edges within half the margin |
| `SearchOptimality.BeaterMissedIff` | src/builder/supercell_search.py:272-282 | an accepted matrix that beats the diagonal is missed by the scan exactly when a row lies beyond the radius |
| `SearchOptimality.SearchOptimal` | src/builder/supercell_search.py:236-364 | with a complete radius the result precedes every other accepted integer matrix, or none beats the diagonal by more than a factor sqrt(2) and the slack; none at all for the first two reasons |
| `SearchExample.ReasonCanBeWrong` | src/builder/supercell_search.py:311-352 | a cell with default bound and tolerance on which the search reports no better orthogonal candidate although there is one |
| `SupercellSearch.FindOptimalSupercell` | src/builder/supercell_search.py:236-364 | the three errors, the right-angled shortcut, the unique best matrix when it beats the diagonal, otherwise the diagonal with exactly the matching reason; never a larger edge error than the diagonal |
| `SearchResult.FoundFields` | src/builder/supercell_search.py:198-352 | the errors and the diagonal flag of whatever is returned, in terms of its edges and rows |
| `SupercellSizes.SizesTheorem` | src/builder/supercell_search.py:84-116 | a scan fails exactly when some search fails; otherwise it lists by ascending average, each size once, exactly the in-window results as first found |
| `SupercellSizes.EntryIs` | src/builder/supercell_search.py:84-112 | which scan points and results are listed, and the fields of an entry |
| `SupercellSizes.KeyIs` | src/builder/supercell_search.py:98-98 | sizes count as one when their edges round to the same millionths |
| `SupercellSizes.CollectFacts` | src/builder/supercell_search.py:84-112 | what the loop has collected at each scan point: every size met so far, once, as first met |
| `SupercellSizes.SizeFinder.EnumerateAvailableSizes` | src/builder/supercell_search.py:40-116 | with and without the cache the same list; the cache keeps holding only what scans yield |
| `SupercellSizes.SizeFinder.FindBestMatch` | src/builder/supercell_search.py:119-161 | the first of the sizes whose worse edge deviates least, none exactly when the scan is empty |
| `SupercellSizes.ClosestMeans` | src/builder/supercell_search.py:142-161 | the scanned range around a request, and that no size deviates less |
| `CrystalPlacement.LayersLength` | src/builder/crystal_builder.py:1054-1078 | the loops place nz times cells times basis atoms |
| `CrystalPlacement.LayersOrigins` | src/builder/crystal_builder.py:1126-1155 | every atom comes from a layer, a cell and a basis atom, and no two from the same ones |
| `Lattice.LayersAt` | src/builder/crystal_builder.py:1126-1155 | atom number (layer times cells plus cell) times sites plus site comes from that layer, cell and basis atom |
| `Lattice.MatrixLattice` | src/builder/crystal_builder.py:1112-1150 | every atom of the transformed build: its box coordinates times the rows are its crystal coordinates up to whole rows, its height is that of its layer |
| `Lattice.GridLattice` | src/builder/crystal_builder.py:1054-1078 | every atom of the replicate build: multiples of the cell edges, sheared in native mode |
| `CrystalPlacement.Reconstruct` | src/builder/crystal_builder.py:1120-1137 | the inverse coefficients times the rows give back the crystal coordinates |
| `CrystalPlacement.MatrixPlacementInjective` | src/builder/crystal_builder.py:1133-1150 | two atoms at the same position are the same basis atom of the same cell and layer |
| `CrystalPlacement.MatrixBuildTheorem` | src/builder/crystal_builder.py:1118-1155 | det nz basis atoms, all in the half-open box, pairwise at different positions |
| `CrystalPlacement.ReplicateBuildTheorem` | src/builder/crystal_builder.py:1054-1078 | pairwise different positions in both cell modes, all in the box when orthogonalized |
| `CrystalPlacement.MatrixMapIsometry` | src/builder/crystal_builder.py:1133-1150 | mapping the rows to the box edges changes squared distances only by the dot product of the rows |
| `CrystalPlacement.ImagesKeepDistance` | src/builder/crystal_builder.py:1133-1150 | for orthogonal rows every distance to a periodic image is the distance to a crystal translate |
| `CrystalPlacement.AcceptedMapDistance` | src/builder/supercell_search.py:306-311 | for every accepted pair the build changes squared distances by a factor within 1 - tol and 1 + tol |
| `CrystalPlacement.ImagesWithinTolerance` | src/builder/crystal_builder.py:1133-1150 | for every accepted pair each periodic distance is a crystal distance up to the tolerance |
| `CrystalPlacement.DiagonalBuildsAgree` | src/builder/crystal_builder.py:1054-1078 | for a diagonal matrix both builds place the same multiset of atoms in orthogonalized mode |
| `CrystalPlacement.TypeTableNumbersOnto` | src/builder/crystal_builder.py:1141-1142 | the type table is a bijection from the elements that occur onto 1..N |
| `CrystalPlacement.TypesInOrder` | src/builder/crystal_builder.py:1141-1142 | types are numbered in the order of first appearance |
| `CrystalPlacement.AppendAtom` | src/builder/crystal_builder.py:1141-1155 | one new atom with the next id and the type of its element, table extended only for a new element |
| `CrystalPlacement.BuildWithMatrix` | src/builder/crystal_builder.py:1108-1155 | atoms numbered 1..n over the enumerated origins, wrapped into the box, with the type table; fails exactly on a non-positive determinant |
| `CrystalPlacement.BuildWithReplicates` | src/builder/crystal_builder.py:1027-1078 | atoms numbered 1..n over the grid, y outermost inside a layer, placed by the chosen cell mode |
| `Hydroxyl.MinImageLeast` | src/builder/crystal_builder.py:803-807 | rounding picks the periodic image of least squared distance along one axis |
| `Hydroxyl.PeriodicD2IsLeast` | src/builder/crystal_builder.py:803-808 | the wrapped distance is the least over all x, y images and is attained by one |
| `Hydroxyl.FindNearestAtom` | src/builder/crystal_builder.py:791-812 | the first candidate of least wrapped distance strictly inside the cutoff, or none exactly when no candidate is inside |
| `Hydroxyl.NearestOverImages` | src/builder/crystal_builder.py:791-812 | the atom found is nearest among all candidates and all their images |
| `Hydroxyl.ChosenFacts` | src/builder/crystal_builder.py:829-852 | the choice is duplicate-free and picks surface oxygens |
| `Hydroxyl.ChosenIds` | src/builder/crystal_builder.py:853-856 | the recorded ids name exactly the chosen oxygens |
| `Hydroxyl.PlaceHydrogens` | src/builder/crystal_builder.py:854-868 | one hydrogen above each chosen oxygen, at the bond length, with consecutive ids |
| `Hydroxyl.AddHydroxylGroups` | src/builder/crystal_builder.py:814-870 | the hydrogens appended, the ids recorded, and a hydrogen type exactly when there is a surface oxygen; fails exactly on a negative number with candidates |
| `Hydroxyl.StructuralCation` | src/builder/crystal_builder.py:906-908 | the first element of largest positive charge other than hydrogen, none exactly when there is none |
| `Hydroxyl.SurfaceCations` | src/builder/crystal_builder.py:910-918 | the ids of the cations nearest to the chosen oxygens |
| `Hydroxyl.RelabelInPlace` | src/builder/crystal_builder.py:942-955 | every atom rewritten according to the plan, in place |
| `Hydroxyl.FinalizeHydroxylTypes` | src/builder/crystal_builder.py:872-963 | skipped when nothing was chosen or oxygen has no charge; otherwise all atoms relabelled by the plan, and failing exactly when the slab is charged by 0.01 or more |
| `Hydroxyl.HydroxylationCharge` | src/builder/crystal_builder.py:896-955 | the change of total charge in every case |
| `Hydroxyl.HydroxylationConservesIff` | src/builder/crystal_builder.py:896-955 | charge is conserved if and only if nothing is chosen, or oxygen is tabulated and (hydrogen is, or the cell has none), or oxygen is not tabulated and hydrogen has no charge |
| `Hydroxyl.OxygenMissing` | src/builder/crystal_builder.py:896-904 | one oxygen and a charge table without oxygen: hydroxylation adds the charge of the hydrogen |
| `Hydroxyl.HydrogenMissing` | src/builder/crystal_builder.py:901-955 | a unit cell with hydrogen and a charge table without: hydroxylation adds the default charge |
| `Hydroxyl.FinalTypesNumbering` | src/builder/crystal_builder.py:920-940 | the final type table numbers 1..N one to one if and only if the cell brought no label Hoh, or its number was the last |
| `Hydroxyl.FinalTypesAre` | src/builder/crystal_builder.py:920-940 | the final table entry by entry: hydrogen renamed, new labels numbered in turn, all others kept |
| `Hydroxyl.HohClash` | src/builder/crystal_builder.py:920-940 | a table with a label Hoh that is no numbering afterwards |
| `Hydroxyl.FinalTypesConsistent` | src/builder/crystal_builder.py:942-955 | every relabelled atom carries the number of its label and keeps id and position |
| `Hydroxyl.Hydroxylate` | src/builder/crystal_builder.py:1080-1086 | both passes on a built slab: ids stay 1..n, charge conserved, hydrogens added as chosen, all atoms as the plan says; types fit the labels and number 1..N unless the cell brought a label Hoh |
| `HydroxylFacts.ZMaxIsHighest` | src/builder/crystal_builder.py:829-830 | the top is at least as high as every atom and is attained |
| `HydroxylFacts.SurfaceIsTop` | src/builder/crystal_builder.py:829-830 | the candidates are exactly the oxygens with no atom 1 or more above them |
| `HydroxylFacts.WantedIs` | src/builder/crystal_builder.py:832-834 | the groups asked for are the whole part of density times area in square nanometres, or none |
| `HydroxylFacts.CationsAre` | src/builder/crystal_builder.py:910-918 | an atom is relabelled as surface cation exactly when it is the nearest structural cation of a chosen oxygen |
| `HydroxylFacts.HydroxylationIs` | src/builder/crystal_builder.py:829-955 | what the passes leave: as many groups as asked for and possible, 0.96 above different candidates, with exactly the labels and charges of the source |
| `HydroxylFacts.TotalIs` | src/builder/crystal_builder.py:896-955 | the total charge after the passes in every case |
| `CrystalSlab.BuiltSlab` | src/builder/crystal_builder.py:1054-1086 | what either build places satisfies what the hydroxylation passes start from, with its count of hydrogens and its charge |
| `CrystalSlab.FinishSlab` | src/builder/crystal_builder.py:1080-1086 | the shared end of both builds: a bare slab unchanged, otherwise a hydroxylation; each of the three failures if and only if its condition holds |
| `CrystalSlab.NeutralSlab` | src/builder/crystal_builder.py:957-961 | a finished slab of a neutral unit cell with a balanced charge table has charge 0 |
| `CrystalSlab.BuildMatrixSlab` | src/builder/crystal_builder.py:1108-1163 | transformed build to finished slab: the lattice of the given matrix atom by atom, surfaced as asked, total charge, ids 1..n, one-to-one type table; each failure if and only if its condition holds |
| `CrystalSlab.BuildReplicateSlab` | src/builder/crystal_builder.py:1027-1086 | the same for the replicate build and its grid |
| `SearchedBuild.FoundSupercell` | src/builder/supercell_search.py:198-364 | whatever the search returns has positive determinant, edges and layers; with a fallback reason it is diagonal |
| `SearchedBuild.BuildSearchedSlab` | src/builder/crystal_builder.py:726-767 | search and build: the lattice is that of the supercell found, atom by atom; fails exactly with the search or as the surface passes fail, never for want of a supercell |
| `SearchedBuild.ReturnedDistances` | src/builder/crystal_builder.py:1112-1150 | in the returned slab every periodic distance between lattice atoms is a crystal distance up to the tolerance of the search |
| `Composition.NormalizedTotal` | src/builder/composition_calculator.py:95-100 | percentages add up to 100 within 0.01 |
| `Composition.NormalizedAt` | src/builder/composition_calculator.py:95-100 | percentages are scaled to a total of exactly 100, unless within 0.01 of it |
| `Composition.SharesAddUp` | src/builder/composition_calculator.py:249-267 | the actual percentages of an allocation with mass add up to 100 |
| `Composition.ErrorMeaning` | src/builder/composition_calculator.py:269-283 | the error is at least the gap of the target total to 100, and zero exactly when every category has its target share |
| `Composition.ErrorIsTwiceShortfall` | src/builder/composition_calculator.py:269-283 | for targets that add up to 100 the error is twice the sum of the shortfalls |
| `Composition.TwoCategories` | src/builder/composition_calculator.py:249-283 | totals and error of two categories in closed form |
| `Composition.OneMolecule` | src/builder/composition_calculator.py:84-92 | one molecule more adds its weight to the mass and its atoms to the total |
| `Composition.InitialAllocation` | src/builder/composition_calculator.py:102-147 | fails exactly when the average is zero; otherwise rounded shares, at least one molecule of each |
| `Composition.InitialIsNearest` | src/builder/composition_calculator.py:129-147 | at least one molecule, and no other positive number is nearer to the mass asked for |
| `Composition.NothingAvailableIff` | src/builder/composition_calculator.py:116-127 | for shares, the average is zero exactly when no category with a share has a molecule |
| `Composition.AllocationBound` | src/builder/composition_calculator.py:114-147 | the atom total misses target times W/100 by at most the sum of atom counts, half of it when nothing is raised to one |
| `Composition.ClimbPass` | src/builder/composition_calculator.py:216-245 | exactly the pass over all categories, one molecule down and then up, each kept when it improves; it strictly improves inside the window, or proves local optimality |
| `Composition.TrialMeans` | src/builder/composition_calculator.py:221-245 | a trial: one molecule down, but never none, or up, kept exactly when the atoms stay in the window and the error falls |
| `Composition.LocalOptimumMeans` | src/builder/composition_calculator.py:216-245 | a local optimum: one molecule more or less inside the window does not lower the error |
| `Composition.FineTune` | src/builder/composition_calculator.py:188-247 | exactly fifty passes, settled ones changing nothing: the input or a strictly better allocation in the window, by a climb that ends before the fiftieth improvement only in a local optimum |
| `Composition.FineTuneUncapped` | src/builder/composition_calculator.py:212-247 | without the cap the climb ends, always in a local optimum |
| `Composition.BetterShrinks` | src/builder/composition_calculator.py:241-245 | each improvement shrinks the finite set of better allocations |
| `Composition.OptimizeAllocation` | src/builder/composition_calculator.py:149-186 | the first scanned allocation of least error, tuned; its error is at most that of every scanned one; empty only when the window is |
| `Composition.ScannedTargets` | src/builder/composition_calculator.py:162-168 | the targets of the scan: from the lower end in twentieths of the window, or in single steps |
| `Composition.WindowNotEmpty` | src/builder/composition_calculator.py:162-170 | a non-negative tolerance scans at least one target |
| `Composition.Calculate` | src/builder/composition_calculator.py:44-93 | fails exactly as stated by Failing; otherwise the first allocation when within the threshold, or one at most as bad as every scanned allocation, tuned to a local optimum unless the cap was reached; for shares the atom total is near the window |
| `Composition.TuningNearWindow` | src/builder/composition_calculator.py:162-186 | the tuned allocation is within one molecule of every category, and one in ten thousand, of the atom window |
| `Composition.CountAtoms` | src/builder/composition_calculator.py:84-84 | the sum over counted categories fails on the first one without a molecule |
| `Composition.ReturnsIff` | src/builder/composition_calculator.py:63-93 | a result is returned if and only if some category has a share and every category has a molecule |
| `Composition.MissingCategoryFails` | src/builder/composition_calculator.py:84-84 | a two-category input with an allocation on which the calculation fails |
| `MolGraph.NbrsAreBonded` | src/builder/mol_types.py:61-64 | neighbour lists hold exactly the bonded atoms |
| `MolGraph.NbrsDistinct` | src/builder/mol_types.py:61-64 | on a simple graph a neighbour list has no duplicate and not the atom itself |
| `MolGraph.BuildAdjacency` | src/builder/mol_types.py:60-64 | the dictionary and its insertion order |
| `MolGraph.GetAngles` | src/builder/mol_types.py:58-72 | the nested loops list the specified angles |
| `MolGraph.AnglesExactlyOnce` | src/builder/mol_types.py:66-72 | each pair of different neighbours of each atom is exactly one angle, in one direction |
| `MolGraph.AnglesCount` | src/builder/mol_types.py:66-72 | deg (deg-1) / 2 angles at each atom |
| `MolGraph.GetDihedrals` | src/builder/mol_types.py:74-91 | the nested loops list the specified dihedrals |
| `MolGraph.DihedralsExactlyOnce` | src/builder/mol_types.py:81-91 | each simple path over three bonds is listed exactly once up to reversal, and nothing else |
| `MolGraph.CornersAreTriangles` | src/builder/mol_types.py:88-89 | the common neighbours over all bonds count every triangle three times |
| `MolGraph.DihedralsCount` | src/builder/mol_types.py:81-91 | the number of dihedrals is the sum of (deg u - 1)(deg v - 1) over bonds minus three per triangle |
| `OrphanCleanup.FiltersExclusive` | scripts/cleanup_orphan_experiment_refs.py:247-324 | a row meets exactly one of the four filters, whatever names and keys are valid |
| `OrphanCleanup.FiltersAreFates` | scripts/cleanup_orphan_experiment_refs.py:247-324 | the filters with the tests in their loops find exactly the four groups of rows |
| `OrphanCleanup.FilteredRows` | scripts/cleanup_orphan_experiment_refs.py:266-324 | what the queries and loops select are the rows of the groups, in table order |
| `OrphanCleanup.Database.Select` | scripts/cleanup_orphan_experiment_refs.py:248-324 | the rows a filter lets through, in table order |
| `OrphanCleanup.Database.Recover` | scripts/cleanup_orphan_experiment_refs.py:247-265 | missing experiment ids are filled in when applied, and counted either way |
| `OrphanCleanup.CountReferences` | scripts/cleanup_orphan_experiment_refs.py:326-332 | references per artifact and legacy files of the deleted rows |
| `OrphanCleanup.Database.Release` | scripts/cleanup_orphan_experiment_refs.py:335-343 | reference counts reduced, artifacts at zero dropped with their files deferred |
| `OrphanCleanup.Database.Cleanup` | scripts/cleanup_orphan_experiment_refs.py:212-358 | the new tables and the report of an applied run; a dry run changes nothing |
| `OrphanCleanup.FatesPartition` | scripts/cleanup_orphan_experiment_refs.py:221-226 | the healthy rows and the reported groups add up to the table; what is kept is what is not deleted |
| `OrphanCleanup.CleanupIdempotent` | scripts/cleanup_orphan_experiment_refs.py:212-358 | a second applied run changes nothing and reports the same unresolved rows only |
| `OrphanCleanup.DryRunFaithful` | scripts/cleanup_orphan_experiment_refs.py:212-358 | a dry run reports the same counts and rows as the applied run |
| `OrphanCleanup.RefCountsKeptIff` | scripts/cleanup_orphan_experiment_refs.py:327-347 | exact reference counts stay exact if and only if no deleted row refers to an existing artifact 0 |
| `OrphanCleanup.ArtifactZeroLeaks` | scripts/cleanup_orphan_experiment_refs.py:329-330 | an input on which the reference to artifact 0 is not given back |
| `OrphanCleanup.RemovedIff` | scripts/cleanup_orphan_experiment_refs.py:336-343 | an artifact goes exactly when a deleted row referred to it and no surviving row does |
| `OrphanCleanup.DroppedWhen` | scripts/cleanup_orphan_experiment_refs.py:338-343 | an artifact is dropped when as many deleted rows refer to it as it counts, zero standing for one; otherwise it keeps the rest |
| `OrphanCleanup.DroppedFilesAreOfRemoved` | scripts/cleanup_orphan_experiment_refs.py:339-343 | deferred storage paths are those of removed artifacts, never of surviving ones |
| `OrphanCleanup.DeferredIff` | scripts/cleanup_orphan_experiment_refs.py:326-346 | a file is deferred exactly when a deleted row without an artifact names it, or an applied run drops its artifact |
| `BuildThrottle.SweepIsPermutation` | src/builder/build_throttle.py:74-82 | a sweep probes every slot exactly once |
| `BuildThrottle.SweepOrder` | src/builder/build_throttle.py:74-79 | probing starts at the process id and goes up slot by slot, from the last one on to slot 0 |
| `BuildThrottle.InvAlways` | src/builder/build_throttle.py:79-121 | in every interleaving holders and lock table agree |
| `BuildThrottle.HoldersBounded` | src/builder/build_throttle.py:55-64 | in every interleaving at most n callers with limit at most n hold a slot |
| `BuildThrottle.OneSlotOneHolder` | src/builder/build_throttle.py:84-88 | no caller holds two slots |
| `BuildThrottle.BusyWasTaken` | src/builder/build_throttle.py:89-91 | a slot counted as busy was held by another caller at an earlier step |
| `BuildThrottle.TimeOutSawAllTaken` | src/builder/build_throttle.py:102-109 | a time-out is preceded by finding every slot taken, one after the other |
| `BuildThrottle.Sweep` | src/builder/build_throttle.py:80-100 | an undisturbed sweep takes the first free slot in probe order, and none exactly when all are taken |
| `BuildThrottle.FailOpenIsUnbounded` | src/builder/build_throttle.py:92-97 | after file-system errors any number of callers build at once |
| `ThrottleBound.BuildersExceedByUnthrottled` | src/builder/build_throttle.py:79-121 | in every interleaving the builders exceed the limit by at most the callers without a slot |
| `ThrottleBound.BuildersBounded` | src/builder/build_throttle.py:55-64 | when nobody fails open, at most n callers build at the same time |
| `ThrottleBound.BoundBroken` | src/builder/build_throttle.py:92-109 | on top of n holders any number of callers can fail open, by file errors alone or by time-outs alone |
| `ThrottleBound.ThrottlesIff` | src/builder/build_throttle.py:55-64 | at most n builders in every interleaving if and only if callers fail open in neither way |
| `PackRetry.ScheduleShape` | src/builder/structure_builder.py:709-715 | one or two strictly decreasing densities, two exactly for a request above 0.1 without a fixed box |
| `PackRetry.ScheduleIs` | src/builder/structure_builder.py:709-715 | the schedule for every request, with its numbers |
| `PackRetry.StepIsCoprime` | src/builder/structure_builder.py:681-681 | 104729 has no common factor with the seed range |
| `PackRetry.SeedsDistinct` | src/builder/structure_builder.py:664-681 | seeds are positive and repeat only after two thousand million attempts |
| `PackRetry.SeedsMoveOn` | src/builder/structure_builder.py:664-681 | the first seed comes from the base, and each further attempt moves on by 104729 around the range |
| `PackRetry.StructureBuilder.TryDensity` | src/builder/structure_builder.py:720-771 | up to three seeds at one density, given up early only by a time-out |
| `PackRetry.PassedMeans` | src/builder/structure_builder.py:734-768 | an attempt passes exactly when it was packed, converged, and was found valid |
| `PackRetry.StructureBuilder.PackValidateRetry` | src/builder/structure_builder.py:683-781 | returns the first attempt that passes; otherwise every scheduled density was abandoned, and the error has the number of attempts and the last reason |
| `PackRetry.AttemptsBounded` | src/builder/structure_builder.py:717-722 | at most six attempts, all with different seeds |
| `InorganicCache.TypeAtoms` | src/forcefield/inorganic_typing_cache.py:180-184 | the atoms typed in place |
| `InorganicCache.ApplyCached` | src/forcefield/inorganic_typing_cache.py:149-194 | used exactly when version, profile and atoms match; a rejected payload leaves the topology untouched |
| `InorganicCache.UsableIff` | src/forcefield/inorganic_typing_cache.py:149-180 | when an entry is used |
| `InorganicCache.AssignWithCache` | src/forcefield/inorganic_executor.py:63-159 | answer, mutated topology and store of one call |
| `InorganicCache.AlwaysHonest` | src/forcefield/inorganic_typing_cache.py:78-97 | whatever is dropped, corrupted or evicted, readable entries hold what the service computes |
| `InorganicCache.HitIsHonest` | src/forcefield/inorganic_executor.py:103-128 | a usable entry is the serialisation of the service's own assignment |
| `InorganicCache.CacheTransparentIff` | src/forcefield/inorganic_executor.py:88-159 | after any history the cached call equals recomputation, if and only if it misses or the additive is admitted and its policies are named |
| `InorganicCache.AnswerIs` | src/forcefield/inorganic_executor.py:88-159 | what any call answers after any history, atom by atom and field by field |
| `InorganicCache.BlockedIsStillServed` | src/forcefield/inorganic_executor.py:103-128 | a blocked additive is served after one admitted call, where recomputing is refused |
| `InorganicCache.SecondCallHits` | src/forcefield/inorganic_executor.py:145-157 | a stored assignment is found again |
| `MoleculeIds.PrintThenParseIff` | src/common/molecule_id.py:71-143 | printing then parsing returns the same id if and only if it is in the grammar |
| `MoleculeIds.BaseIdParsesIff` | src/common/molecule_id.py:125-137 | a category, a dash and a name parse to themselves exactly for the four categories and a non-empty name of letters and digits |
| `MoleculeIds.ParseThenPrint` | src/common/molecule_id.py:84-143 | what parses is in the grammar and prints back as the text, exactly unless it ends in a line break |
| `MoleculeIds.LineBreakIsLost` | src/common/molecule_id.py:125-137 | an id with a final line break parses and does not print back |
| `MoleculeIds.DocumentedIds` | src/common/molecule_id.py:98-103 | the documented ids parse to their parts |
| `MoleculeIds.UnknownCategory` | src/common/molecule_id.py:131-132 | a pair of capitals that is no category is named in the error |
| `MoleculeIds.BuiltIdParsesIff` | src/common/molecule_id.py:208-240 | a built aged id parses to its components if and only if the code has four digits |
| `ExperimentIds.ParseExpId` | src/common/pathing.py:356-436 | the dictionary filled from the parts of the id |
| `ExperimentIds.BinderIdParsesIff` | src/common/pathing.py:301-317 | all fields recovered if and only if abbreviation, size and additive have no underscore and the size is no boundary mode |
| `ExperimentIds.MaterialSurvivesIff` | src/common/pathing.py:241-267 | binder, size and aging recovered if and only if they are representable, whatever the additive contains |
| `ExperimentIds.MaterialIdText` | src/common/pathing.py:241-267 | the material id of a generated id is the text binder_size_aging |
| `ExperimentIds.DocumentedId` | src/common/pathing.py:215-285 | the abbreviations, and the documented example |
| `ExperimentIds.DefaultMaterial` | src/common/pathing.py:252-267 | the material of ids with too few parts, and of a boundary mode without molecule |
| `ExperimentIds.DocumentedAmorphousId` | src/common/pathing.py:349-353 | the documented amorphous id and its material |
| `ExperimentIds.AmorphousIdParsesIff` | src/common/pathing.py:349-353 | an amorphous id is recognised with all its fields if and only if the molecule id has no underscore |
| `DataFiles.WriteLammpsData` | src/builder/topology_generator.py:195-252 | the file is the specified lines joined by line breaks |
| `FileRecords.FileReadBack` | src/builder/topology_generator.py:195-252 | every line of a written file reads back: counts, box, masses, and id, molecule, type, charge and place of each atom, and each bond |
| `DataFiles.ReadAtoms` | src/builder/packing_validator.py:109-153 | the line loop with its two flags reads the specified rows |
| `DataFiles.SectionEnds` | src/builder/packing_validator.py:119-134 | the section opens at its heading and ends at a blank line after an atom, and at the next section |
| `DataFiles.AtomsReadBack` | src/builder/packing_validator.py:122-153 | reading a written file restores ids, molecule ids and coordinates to six decimals, in order |
| `DataFiles.MatchIsUnique` | src/builder/topology_generator.py:258-258 | the count pattern matches in only one way at a place |
| `DataFiles.CountOfFirstMatch` | src/builder/topology_generator.py:255-261 | the count is that of the first place where the pattern matches, and 0 when it matches nowhere |
| `DataFiles.AtomCountReadBack` | src/builder/topology_generator.py:255-261 | the count read back is the number of atoms, or the number that the title itself matches, whatever else counts as digit or space |
| `DataFiles.GetBoxVolume` | src/builder/topology_generator.py:263-280 | the six bounds updated line by line, failing on a marked line that does not start with two numbers |
| `DataFiles.NoMarksNoVolume` | src/builder/topology_generator.py:263-280 | a file that names no bound has the volume 0 |
| `DataFiles.BoxReadBack` | src/builder/topology_generator.py:267-280 | the box is restored to six decimals, and fails exactly when the title holds a mark |
| `DataFiles.VolumeReadBack` | src/builder/topology_generator.py:263-280 | the volume of a written file is the product of its edges to six decimals |
| `XyzFiles.InOrderFacts` | src/builder/topology_helpers.py:216-216 | atoms are written in a stable permutation by index |
| `XyzFiles.ConvertMolToXyz` | src/builder/topology_helpers.py:185-225 | an error exactly without atoms, otherwise the specified lines |
| `XyzFiles.ParseXyzCoordinates` | src/builder/topology_helpers.py:74-115 | missing, short or countless files give nothing; otherwise the coordinates of the announced lines that parse |
| `XyzFiles.CoordinatesReadBack` | src/builder/topology_helpers.py:214-220 | parsing a written file gives the index-sorted coordinates to six decimals |
| `XyzFiles.FileSays` | src/builder/topology_helpers.py:216-220 | count, comment, and element and coordinates of each atom in index order |
| `Strings.FixedRoundTrip` | src/builder/topology_generator.py:241-245 | a printed number reads back as the number rounded to the printed decimals |
| `Strings.RoundedError` | src/builder/topology_generator.py:241-245 | printing moves a number by at most half a unit of the last decimal |
| `Numeric.RoundTies` | src/builder/supercell_search.py:34-34 | halfway between two integers rounding takes the even one |
| `Strings.SpacesAre` | src/builder/packing_validator.py:139-139 | the white space that separates words |
| `Sorting.SortedFacts` | src/builder/supercell_search.py:114-114 | sorting is a stable permutation with ascending keys |

## Left out

- Rounding of floating-point arithmetic, the snapping of coordinates close to 1 in the transformed build, and the exactness of hypot, sin and cos: reals are exact, and the angle enters through a cosine and a sine with unit sum of squares.
- SupercellSizes: a scan step of zero or less makes the scan of the source endless and is excluded; callers that modify a returned cached list are not modelled.
- Layer heights, the box height raised to the topmost atom, and the remaining fields of the slab record.
- Hydroxyl.AddHydroxylGroups: the random choice is an arbitrary duplicate-free selection of the requested size.
- Hydroxyl.Hydroxylate, CrystalSlab.FinishSlab: start from a slab as a build leaves it; for a unit cell with a label Hoh of its own the final type table is covered by `FinalTypesNumbering` only.
- Composition.Calculate: no comparison with the first allocation once the threshold is exceeded, because the code makes none; the tolerance is not negative (a negative one can leave nothing to scan, and then an empty result is reported).
- Composition.InitialAllocation: molecules have positive weight, and percentages do not add up to zero (the source divides by both).
- SearchRadius.RadiusComplete, SearchRadius.EqualEdgesComplete: sufficient conditions; `RadiusCompleteIff` is the exact one.
- SearchedBuild.BuildSearchedSlab: the choice between searching and plain repetition, and with a cell edge that the search clamps the box is not claimed to hold the atoms.
- OrphanCleanup: sessions, commits and deletions of files, the other tables of the script, and metric rows without an experiment name.
- OrphanCleanup.DroppedFilesAreOfRemoved: storage paths are assumed not to be shared between artifacts; legacy file paths of deleted rows may be shared with surviving rows.
- BuildThrottle: a platform without file locks behaves like a disabled throttle; time is abstract (a caller may time out at the end of any fruitless sweep), and the exclusive lock of the kernel is taken as given.
- PackRetry: packer and validator are arbitrary functions of attempt, density and seed, the topology generation between them is part of the validator, and the hash behind the base seed is an arbitrary number.
- InorganicCache: the parameter service is a function of structure and profile that answers with the requested profile; hashes do not collide; a profile whose content changes under an unchanged version, and races on the shared temporary file, are not modelled.
- InorganicCache.AssignWithCache: the mol_id, atom count and time stamp stored with an entry are not modelled, because nothing reads them; malformed entries are entries that cannot be read.
- ExperimentIds, MoleculeIds: the hash suffix is an arbitrary text without underscore.
- Strings: reading numbers is a parameter that agrees with plain numerals and may accept more; infinities and not-a-number have no value. White space is ASCII white space (except in `AtomCountReadBack`).
- DataFiles.AtomsReadBack: force-field name and version hold no line break; the translation of carriage returns when a file is opened in text mode is not modelled.
- XyzFiles.CoordinatesReadBack: the molecule id holds no line break and element symbols are single words; other ids shift the lines that are read.
- DataFiles: reading XYZ files into a topology, the distance check over a spatial tree and the energy estimate.
- Unit-cell coordinate tables: the basis is arbitrary; neutrality and distinctness of a given material are finite arithmetic.
- Units, additive tables, error classes, eligibility rules, settings, web services, machine-learning wiring, plotting and scripts: easy members or plumbing.
