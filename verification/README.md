# Verified models of MapServer's clustering, kriging, filter compiler and raster loops

This project models, in Dafny 4.11, the parts of MapServer whose correctness is hardest to
see from the code, and proves what they are for. Floating point numbers are exact reals.

* **Point clustering** (`Cluster*.dfy`, src/mapcluster.c). Tentative clusters live in a
  quadtree of heap objects. Each one counts its neighbours and carries their mean position;
  both are kept up to date as shapes enter, as clusters are taken out and as shapes are
  rejected by the filter. The record type of the counters ties them to a ghost set of shapes, and
  `ClusterSearch.InSync` says that this set is the flat scan of the tree
  (`ClusterSearch.TreeIsExact` spells it out). `ClusterRebuild.RebuildFull` runs the whole FULL
  algorithm; its history (`ClusterHistory.dfy`) tells round by round, without the counters in
  memory, which shape was chosen from which tree and where every shape ends.
* **Kriging** (`LinearAlgebra.dfy`, `CountingSort.dfy`, `Kriging*.dfy`, src/kriging_nngp.h,
  src/kriging.c, src/interpolation.c). From the vertices of a layer to the predicted raster:
  accumulation, collapsing of coincident samples, the packed grid, the exact nearest-neighbour
  query, pivoted elimination and the predictor. `KrigingRaster.ShowsTotals` is the end-to-end
  result.
* **CQL2 filters** (`Cql*.dfy`, src/cql2.cpp, src/cql2text.cpp, reduce actions of
  src/cql2textparser.cpp). The parser's actions and the rebalancing work in place on a store
  of nodes; the printer produces tokens of a MapServer expression. `CqlCompile.CompiledMeaning`
  says that however these tokens are read (with any precedence and associativity), their value
  is the value of the filter that was written, under every interpretation of columns,
  comparisons and arithmetic. `CqlReadBack.dfy` says what the lexer makes of texts given
  character by character.
* **Raster and form loops** (`RasterTranslation.dfy`, `GaussianBlur.dfy`, `FormDecoding.dfy`).

The project verifies with `dafny verify dfyconfig.toml`. `RealMath.dfy` holds the few facts
about real multiplication that the solver needs to be told.

A predicate of the form `forall k :: Peek(k) ==> P` (also `Glance`, `Glimpse`, `Open`) is `P`
kept folded; mentioning the trigger opens it. Several methods take ghost parameters that name
the value a heap structure stands for.

## Findings

* **The FULL loop can end with shapes left over** (src/mapcluster.c:1194-1202,
  src/mapcluster.c:1263-1269). A shape is kept out only if its *search area* misses the
  extent, so points outside the extent enter the tree, and their ranks may never beat the
  starting rank computed from the extent. Some shapes can be stuck that way if and only if
  the region of a shape reaches farther than the starting rank
  (`ClusterStuck.StuckExactly`): `dx² + dy² > w² + h² + 1` for rectangular regions,
  `max(dx, dy)² > w² + h² + 1` for elliptic ones. Otherwise, or if all points lie in the
  extent, every run ends with an empty tree (`ClusterRebuild.RebuildFull`); and if so,
  `ClusterRebuild.StuckRun` gives shapes of which every one is left.
* **Collapsing takes the maximum of running totals**, which is the final total exactly if no
  pixel's total ever falls for good (`KrigingSamples.CollapsedTotals`); with a negative weight it
  is not (`KrigingSamples.NegativeWeight`). The comment at src/kriging.c:117-121 assumes it always is.
* **A quoted CQL2 identifier that ends in an apostrophe is not read back** (src/cql2text.cpp:117): the apostrophe
  takes the closing quotation mark for an escaped one (`CqlLexer.QuotedNameIsRead`, an
  equivalence).
* **A form parameter whose name contains `=` is not recovered** (src/cgiutil.c:278-281), because escapes are decoded
  before the name is cut off (`FormDecoding.RoundTrip`, an equivalence).

## Model

| member | source | states |
|---|---|---|
| `ClusterGeometry.ComparatorIsRegionTest` | src/mapcluster.c:211-240 | Both region tests are symmetric, reflexive and confined to the search area of the shape, when all shapes share positive distances. |
| `ClusterGeometry.EllipseCentred` | src/mapcluster.c:211-224 | The ellipse test depends only on the offset between the two points and the common half axes. |
| `ClusterGeometry.OverlapIsCommonPoint` | src/mapsearch.c:44-54 | Two rectangles overlap if and only if they have a point in common. |
| `ClusterGeometry.ContainedIsSubset` | src/mapsearch.c:80-85 | A rectangle is contained in another if and only if all its points are. |
| `ClusterGeometry.GroupsAgree` | src/mapcluster.c:211-228 | Groups keep two shapes apart if and only if both have a text and these differ in more than the case of ASCII letters. |
| `ClusterGeometry.RectangleMeans` | src/mapcluster.c:227-241 | The rectangle test holds if and only if the groups agree and both offsets are within the distances. |
| `ClusterGeometry.EllipseMeans` | src/mapcluster.c:211-225 | The ellipse test holds if and only if the groups agree and u² dy² + v² dx² <= dx² dy² for the offsets u and v. |
| `ClusterGeometry.GroupCaseIrrelevant` | src/mapcluster.c:211-241 | Changing the case of letters in a group text changes neither test. |
| `ClusterGeometry.SplitOverlaps` | src/mapcluster.c:243-272 | The halves keep the shorter side, are equally long and overlap in a tenth of the longer side. |
| `ClusterGeometry.SplitCovers` | src/mapcluster.c:243-272 | The two overlapping halves stay in the rectangle and leave no point uncovered. |
| `ClusterGeometry.QuadsCoverParent` | src/mapcluster.c:703-771 | The four quads stay inside the parent cell and cover it. |
| `ClusterSearch.TreeIsExact` | src/mapcluster.c:973-1016 | The invariant of the tree: every shape counts exactly the other tree shapes in its region, and its average is their exact mean with itself. |
| `ClusterTree.Absorb` | src/mapcluster.c:410-440 | Counting a neighbour in extends the set the counters are exact for by that shape. |
| `ClusterTree.Release` | src/mapcluster.c:515-536 | Counting a neighbour out removes exactly that shape from the set the counters are exact for. |
| `ClusterSearch.PrunedCellHasNoNeighbour` | src/mapcluster.c:403-404 | A cell whose rectangle misses the search area holds no shape the region test accepts. |
| `ClusterSearch.Matches` | src/mapcluster.c:409-426 | The comparator call decides the region relation. |
| `ClusterSearch.Meet` | src/mapcluster.c:408-442 | After a new shape met a stored one, both counters agree with a scan that includes the other exactly if they are in each other's region. |
| `ClusterSearch.FindRelatedShapes` | src/mapcluster.c:394-454 | Pruned traversal equals a flat scan: afterwards every shape below the cell counts the newcomer exactly if related, and the newcomer counts all related shapes below the cell. |
| `ClusterSearch.Part` | src/mapcluster.c:514-537 | After a departed shape was counted out of one neighbour, that neighbour agrees with a scan without it. |
| `ClusterSearch.FindRelatedShapesRemove` | src/mapcluster.c:502-544 | Pruned traversal equals a flat scan: every shape below the cell agrees with a scan without the departed shape. |
| `ClusterSearch.FindRelatedShapes2` | src/mapcluster.c:458-499 | With rank 0, returns a stored shape whose region holds the newcomer exactly if there is one. |
| `ClusterInsert.Split` | src/mapcluster.c:724-757 | An undivided cell gets four empty children over its quads; what it holds is unchanged. |
| `ClusterInsert.FindChild` | src/mapcluster.c:713-719 | Finds the first existing child whose rectangle contains the box, or -1. |
| `ClusterInsert.FindQuad` | src/mapcluster.c:726-742 | Finds the first of the four quads that contains the box, or -1. |
| `ClusterInsert.TreeNodeAddShape` | src/mapcluster.c:703-771 | The shapes below the cell become the old ones and the new one, which goes below the first child that holds its box, splitting the cell if need be, or to the front of the own list if no child does or the depth is used up; the tree stays well formed (every child's rectangle contains the points below it, cells and shapes are not shared). |
| `ClusterBest.EvaluateFilter` | src/mapcluster.c:672-675 | The filter of a shape is evaluated at most once, with its present number of features; with a filter, the shape is evaluated afterwards. |
| `ClusterBest.FindBestCluster` | src/mapcluster.c:666-700 | Returns a shape that has to go or beats the rank it starts from; returns none exactly if there is no such shape; if no shape has to go, the one returned has the least rank and, with a filter, all were evaluated. The one returned was evaluated, and every filter that changed is what the filter says of the shape and its present count. |
| `ClusterCollect.CollectClusterShapes` | src/mapcluster.c:775-846 | Takes out of the tree exactly the shapes of the chosen region (only the chosen one if it was rejected), puts each on exactly one list, keeps the tree well formed, and reports whether the cell is left without shapes and children. |
| `ClusterCollect.CollectChild` | src/mapcluster.c:831-840 | A child is dropped exactly if it is left without shapes and children; the other children are as they were. |
| `ClusterRun.RemoveAll` | src/mapcluster.c:1334-1363 | After every member has been counted out, the remaining shapes agree with a scan of the remaining tree. |
| `ClusterRun.FinishCluster` | src/mapcluster.c:1282-1366 | One finished cluster: counters of the remaining shapes are repaired, the members are attached or finalized, and the centre's own counters match its members. |
| `ClusterPlaces.SettleConsistent` | src/mapcluster.c:1282-1366 | Taking a cluster out keeps members in the region of their one centre, centres apart, and every shape on exactly one list. |
| `ClusterRank.MeanInside` | src/mapcluster.c:1263-1269 | The mean of points in a box is in the box, so ranks of points in the extent are bounded. |
| `ClusterRank.InsideBeatsStart` | src/mapcluster.c:1263-1269 | The starting rank is big enough for points in the extent: every shape with neighbours beats it. |
| `ClusterRank.StartRankIsFarthest` | src/mapcluster.c:1263-1269 | The starting rank is one more than the largest squared distance of two points of the extent, attained at opposite corners. |
| `ClusterStuck.WithinReach` | src/mapcluster.c:211-240 | No shape of a region is farther away than dx² + dy² (rectangle) or max(dx, dy)² (ellipse), as squares. |
| `ClusterStuck.TallyIsNear` | src/mapcluster.c:408-442 | Counts and sums of a shape's neighbours, from the list of source points alone. |
| `ClusterStuck.StuckNeedsReach` | src/mapcluster.c:682-690 | If no shape of a collection can be chosen, the region reaches farther than the starting rank. |
| `ClusterStuck.ReachIsStuck` | src/mapcluster.c:682-690 | If the region reaches farther than the starting rank, k hubs and k k leaves in groups of their own can never be chosen, for k large enough. |
| `ClusterStuck.StuckExactly` | src/mapcluster.c:1263-1269 | Some shapes can never be chosen if and only if the region reaches farther than the starting rank, for both kinds of region. |
| `ClusterHistory.MemoryIsExact` | src/mapcluster.c:682-687 | The count and the rank kept in memory are those computed from the tree: squared distance from the mean of the shapes in the region, plus the reciprocal of their number. |
| `ClusterHistory.ScanIsRound` | src/mapcluster.c:666-700 | What a scan of the tree chooses: some shape that is alone, was refused, or beats the starting rank, if there is one; the one of least rank unless some shape is alone or refused; filters evaluated once, at the present counts. |
| `ClusterHistory.HistoryNext` | src/mapcluster.c:1255-1382 | A round appended to a history: what it takes from the tree, and where it leaves every shape. |
| `ClusterHistory.EvaluatedOnce` | src/mapcluster.c:672-675 | A filter that has been evaluated is what the rule said, in one earlier round, of the shape and the number of shapes in its region of that round's tree. |
| `ClusterHistory.OutcomeIsChoice` | src/mapcluster.c:1262-1382 | Centres and rejected shapes are the shapes chosen; the filter at that moment tells them apart. |
| `ClusterHistory.FilterDecides` | src/mapcluster.c:672-681 | With a filter, every centre was accepted and every rejected shape refused, at the count at which it was evaluated. |
| `ClusterHistory.NothingChosen` | src/mapcluster.c:1262-1279 | Without a filter, a history of shapes of which none can be chosen is one round that chooses nothing. |
| `ClusterFull.Choose` | src/mapcluster.c:1262-1279 | Nothing is chosen exactly if no shape has to go and none beats the starting rank; if no shape has to go, none has a smaller rank than the one chosen; the filter is evaluated once, at the present counts, for the one chosen and, if no shape has to go, for all. |
| `ClusterFull.Iterate` | src/mapcluster.c:1282-1382 | An iteration carries out its round: exactly the region of the chosen shape, or the refused shape alone, leaves the tree and gets its place; every counter left in the tree stays exact and no filter changes. |
| `ClusterFull.Advance` | src/mapcluster.c:1256-1382 | One iteration of the loop is one round, best first, and keeps the invariant: exact counters, consistent lists, good centres. |
| `ClusterFull.RunFull` | src/mapcluster.c:1255-1382 | The loop terminates, with exact counters at every iteration, stops only when nothing can be chosen, and has a complete history: each iteration chose best first from what the one before it left. |
| `ClusterRebuild.Enter` | src/mapcluster.c:1213-1222 | Entering a shape keeps the counters of the whole tree in step with a flat scan. |
| `ClusterRebuild.Populate` | src/mapcluster.c:1164-1253 | The tree holds one tentative cluster for each shape whose search area meets the extent, with exact counters. |
| `ClusterRebuild.RebuildFull` | src/mapcluster.c:1164-1382 | The whole FULL algorithm: centres are pairwise out of each other's regions, every other finished shape belongs to exactly one centre whose region contains it, lists partition the shapes, centres' counts and averages match their members. There is a history of rounds, each choosing best first from the tree the one before it left, that gives every shape its place; with a filter every centre was accepted and every rejected shape refused at the count at which it was evaluated. The tree ends empty if the region reaches no farther than the starting rank or all points lie in the extent, what is left otherwise is a stuck collection, and a stuck collection is left as a whole. |
| `ClusterRebuild.NothingLeft` | src/mapcluster.c:1263-1279 | When nothing can be chosen, what is left is a stuck collection; within the extent, or within the starting rank, nothing is left. |
| `ClusterRebuild.UnchosenIsStuck` | src/mapcluster.c:666-700 | Shapes of which none can be chosen are stuck as a collection of points. |
| `ClusterRebuild.StuckNeverChosen` | src/mapcluster.c:666-700 | Shapes that are stuck as a collection of points are never chosen. |
| `ClusterRebuild.StuckRun` | src/mapcluster.c:1164-1382 | For any distances and extent with a region reaching farther than the starting rank: a run that leaves every one of its shapes in the tree. |
| `ClusterRebuild.SimplePhase` | src/mapcluster.c:1224-1243 | First phase of the SIMPLE algorithm: the tree ends as a maximal set of shapes out of each other's regions; every set-aside shape lies in the region of one of them. |
| `LinearAlgebra.ExchangeKeeps` | src/kriging_nngp.h:92-101 | Exchanging two rows keeps the solutions of the system and how nearly a vector solves it. |
| `LinearAlgebra.ClearedKeeps` | src/kriging_nngp.h:102-111 | Clearing the column below a pivot keeps the solutions of the system. |
| `LinearAlgebra.TriangularUnique` | src/kriging_nngp.h:113-120 | A triangular system with non-zero diagonal has at most one solution. |
| `LinearAlgebra.NoPivotLeft` | src/kriging_nngp.h:90-91 | Without a usable pivot there is a vector with an entry 1 that the matrix nearly annihilates. |
| `LinearAlgebra.SingularNotUnique` | src/kriging_nngp.h:72-75 | A singular system never has exactly one solution. |
| `KrigingSolve.FindPivot` | src/kriging_nngp.h:79-89 | The pivot row has the largest magnitude in its column from the diagonal down. |
| `KrigingSolve.SwapRows` | src/kriging_nngp.h:92-101 | Rows and right-hand sides are exchanged; the stored system is the exchanged one. |
| `KrigingSolve.ClearColumn` | src/kriging_nngp.h:102-111 | The stored system is the one with the column cleared below the pivot. |
| `KrigingSolve.Eliminate` | src/kriging_nngp.h:92-111 | A step of elimination clears one more column, keeps the solutions of the original system and the pivots so far. |
| `KrigingSolve.OnlySolution` | src/kriging_nngp.h:113-120 | A solution of the triangular system is the only solution of the original, which is then not singular. |
| `KrigingSolve.BackSubstitute` | src/kriging_nngp.h:113-120 | The vector left in b solves the triangular system. |
| `KrigingSolve.Solve` | src/kriging_nngp.h:76-122 | On 0 the vector in b solves the original system and is its only solution, and no pivot was below 1e-300; on -1 the original matrix maps a vector with an entry 1 to less than 1e-300 in every component; a singular matrix always gives -1. |
| `KrigingKnn.OfferNearest` | src/kriging_nngp.h:134-151 | Offering a sample to the list of nearest gives the list of nearest of one more sample. |
| `KrigingKnn.NothingNearer` | src/kriging_nngp.h:124-128 | No sample left out is nearer than any sample kept. |
| `KrigingKnn.NearestOfAll` | src/kriging_nngp.h:297-305 | The nearest of the samples seen are the nearest of all, if every other sample is at least as far as the last kept. |
| `RealMath.DistanceIsEuclidean` | src/kriging_nngp.h:293-294 | The distance that ranks samples, and that covariances depend on, is the square of the Euclidean one, in plain coordinates. |
| `KrigingKnn.Accumulator.Place` | src/kriging_nngp.h:143-150 | The shifting insertion puts the entry after all entries that are no farther. |
| `KrigingKnn.Accumulator.Insert` | src/kriging_nngp.h:134-151 | The arrays hold the old list with the candidate offered to it, evicting the worst when full. |
| `CountingSort.Tally` | src/kriging_nngp.h:214-227 | Each slot after a cell's own holds its number of samples. |
| `CountingSort.Accumulate` | src/kriging_nngp.h:228-229 | The running sum turns counts into offsets. |
| `CountingSort.Scatter` | src/kriging_nngp.h:230-244 | Each cell's slice is filled with its indices in order. |
| `CountingSort.Pack` | src/kriging_nngp.h:211-246 | start and items are a compressed-row partition: slice c holds exactly the indices of cell c in ascending order, and start ends at n. |
| `CountingSort.BucketContents` | src/kriging_nngp.h:211-246 | What a slice holds: exactly the indices with that cell, ascending. |
| `CountingSort.PackedOnce` | src/kriging_nngp.h:155-160 | items holds every index 0 .. n-1 exactly once. |
| `KrigingGrid.RingGap` | src/kriging_nngp.h:297-300 | Points whose cells are more than r apart are at least r cells apart, also when the query is outside and its cell clamped. |
| `KrigingGrid.Bounds` | src/kriging_nngp.h:172-184 | The loop finds the least and greatest coordinate. |
| `KrigingGrid.CellCount` | src/kriging_nngp.h:191-199 | With cell the root of w h / n there are at most n + (w + h) / cell + 1 cells. |
| `KrigingGrid.Build` | src/kriging_nngp.h:162-247 | Fails exactly without samples; else every sample lies on the grid, the index is packed and the number of cells bounded. |
| `KrigingQuery.CellSlice` | src/kriging_nngp.h:287-293 | The packed slice of a cell lists exactly the samples in it. |
| `KrigingQuery.ScanRing` | src/kriging_nngp.h:278-296 | Scanning ring r after the smaller rings examines every sample up to ring r exactly once. |
| `KrigingQuery.FarOutside` | src/kriging_nngp.h:297-300 | A sample beyond ring r is at least r cells from the query, wherever the query is. |
| `KrigingQuery.StopIsExact` | src/kriging_nngp.h:301-306 | Stopping at the ring bound leaves no nearer sample unexamined. |
| `KrigingQuery.Query` | src/kriging_nngp.h:258-308 | The exact nearest-neighbour query for every query point: min(m, n) distinct samples in ascending distance, none omitted is strictly nearer, whether it stops early or scans all rings. |
| `KrigingTheory.SelfAdjoint` | src/kriging_nngp.h:325-339 | A symmetric covariance matrix moves across the scalar product. |
| `KrigingTheory.OrdinaryErrorForm` | src/kriging_nngp.h:340-365 | For a solution of the bordered system the weights sum to one and the variance formula equals the error form. |
| `KrigingTheory.OrdinaryChange` | src/kriging_nngp.h:340-365 | Other weights with sum one change the error variance by the quadratic form of the difference. |
| `KrigingPredict.CovSymmetric` | src/kriging_nngp.h:325-335 | The matrix that is filled is symmetric. |
| `KrigingPredict.FillSystem` | src/kriging_nngp.h:325-351 | The scratch arrays hold the (bordered) local system, nugget on the diagonal. |
| `KrigingPredict.Predict` | src/kriging_nngp.h:314-368 | Mean and clamped variance come from the one solution of the local system; failure means no neighbours or a nearly singular system, and a singular one always fails. |
| `KrigingPredict.VarianceIsErrorVariance` | src/kriging_nngp.h:352-364 | Ordinary weights sum to one, and before clamping the variance is sigma2 - 2 w.k0 + w'Kw, for either kind. |
| `KrigingPredict.ShiftedPrediction` | src/kriging_nngp.h:340-366 | Adding c to every sample adds c to the ordinary mean and leaves the variance alone. |
| `KrigingOptimal.BestWeights` | src/kriging_nngp.h:340-366 | If the covariance matrix is positive semidefinite, no other weights (summing to one, for ordinary kriging) have a smaller error variance. |
| `KrigingOptimal.BestPrediction` | src/kriging_nngp.h:314-368 | The same for the matrix that is filled: a covariance that is positive semidefinite on the neighbours, and a nugget that is not negative. |
| `KrigingOptimal.ErrorNonNegative` | src/kriging_nngp.h:360-364 | If the covariance is positive semidefinite on the neighbours and the target, the error variance of any weights is not negative. |
| `KrigingOptimal.ClampIsIdle` | src/kriging_nngp.h:360-364 | Then the variance is not negative before the clamp, which only removes round-off. |
| `KrigingPredict.ExactAtSample` | src/kriging_nngp.h:314-368 | Without a nugget a prediction at a neighbour gives its value and variance 0. |
| `KrigingSamples.TotalSplit` | src/interpolation.c:229-230 | The accumulated total splits at any point of the sequence of vertices. |
| `KrigingSamples.SampleBuffer.Reserve` | src/interpolation.c:235-240 | Doubling always makes room for the next triple and keeps what the buffer holds. |
| `KrigingSamples.SampleBuffer.Add` | src/interpolation.c:228-244 | values holds the total of every pixel, and the buffer one triple with the running total for every vertex inside. |
| `KrigingSamples.Unpack` | src/kriging.c:122-127 | The entries are read back from the triples. |
| `KrigingSamples.Group` | src/kriging.c:135-141 | The inner loop finds the end and the greatest value of a group of coincident samples. |
| `KrigingSamples.Collapse` | src/kriging.c:132-147 | One sample for each pixel, at its greatest entry, for any sorted order. |
| `KrigingSamples.PeakIsTotal` | src/kriging.c:117-121 | The greatest entry of a pixel is its final total exactly if the total never falls for good. |
| `KrigingSamples.CollapsedTotals` | src/kriging.c:117-147 | Accumulation then collapsing gives one sample per pixel hit at its final total, if and only if no pixel's total ever falls for good. |
| `KrigingSamples.NonNegativeWeights` | src/kriging.c:117-147 | For non-negative weights that is always so. |
| `KrigingSamples.NegativeWeight` | src/kriging.c:117-121 | Two vertices with weights 2 and -1 for which it is not. |
| `KrigingRaster.Sill` | src/kriging.c:150-163 | The sill is the one asked for, else the sample variance, else one; always positive. |
| `KrigingRaster.PredictPixel` | src/kriging.c:195-203 | A pixel is predicted from m nearest samples of its centre, or left without data if their system is nearly singular. |
| `KrigingRaster.PredictAll` | src/kriging.c:193-205 | Every pixel of the raster is predicted that way. |
| `KrigingRaster.SampleIsNeighbour` | src/kriging.c:196-199 | A sample at the target is among its nearest samples. |
| `KrigingRaster.ExactAtSamples` | src/kriging.c:193-205 | Without a nugget a pixel with a sample shows its value with variance 0, or no data. |
| `KrigingRaster.Krige` | src/kriging.c:100-215 | From the buffer to the raster: one sample per pixel hit, every pixel predicted from as many nearest samples as asked for (or all), with the nugget and the kind of kriging asked for and, if no sill is asked for, with the sample variance of the collapsed values, or 1 if there is one sample or that variance is 0. |
| `KrigingRaster.ShowsTotals` | src/kriging.c:100-215 | End to end: with non-negative weights and no nugget every pixel hit by a vertex shows the total weight of its vertices with variance 0, or no data. |
| `CqlTree.FlattenMeaning` | src/cql2.cpp:158-187 | Flattening keeps the truth value under every interpretation, although it may reorder operands. |
| `CqlTree.FlattenShaped` | src/cql2.cpp:158-187 | A flattened node has at least two operands. |
| `CqlTree.PairUpMeaning` | src/cql2.cpp:129-141 | A round of pairing keeps the truth value of the chain. |
| `CqlTree.BalancedMeaning` | src/cql2.cpp:112-152 | Rebalancing keeps the value of every expression under every interpretation. |
| `CqlTree.BalancedBinary` | src/cql2.cpp:112-152 | Afterwards every AND and OR has exactly two operands, as the printer asserts. |
| `CqlTree.BalancedFixed` | src/cql2.cpp:112-152 | What is binary already is left alone. |
| `CqlTree.LevelsIsLogarithm` | src/cql2.cpp:128-142 | The number of levels is the binary logarithm of the number of operands, rounded up. |
| `CqlTree.BalancedHeight` | src/cql2.cpp:112-152 | A chain of k operands costs only that many levels. |
| `CqlTree.LeavesBound` | src/cql2.cpp:112-152 | A tree of height h in which no node has more than two operands has at most 2^h leaves. |
| `CqlTree.LowestChain` | src/cql2.cpp:112-152 | Of all such trees with as many leaves, none is lower than a rebalanced chain. |
| `CqlStore.Store.Round` | src/cql2.cpp:129-141 | The loop over the vector makes exactly the nodes of one round of pairing. |
| `CqlStore.Store.Join` | src/cql2.cpp:128-143 | The rounds end with two operands, which stand for the paired trees. |
| `CqlStore.Store.RebalanceChain` | src/cql2.cpp:118-144 | A node with too many operands stands for its balanced tree afterwards; no other old node is disturbed that needs no change. |
| `CqlStore.Store.RebalanceAndOr` | src/cql2.cpp:112-152 | The queue loop terminates and leaves the node standing for its balanced tree. |
| `CqlStore.OneTree` | src/cql2.h:82-101 | A node stands for one tree only. |
| `CqlActions.PushSubExpression` | src/cql2.cpp:93-96 | The operand is appended in place; no other node changes. |
| `CqlActions.ReverseSubExpressions` | src/cql2.cpp:102-106 | Swapping from both ends reverses the operands in place. |
| `CqlActions.CreateAndOr` | src/cql2.cpp:158-187 | Operands of chains are moved, not copied, into a node that stands for the flattened tree; emptied nodes are released and no other node changes. |
| `CqlParse.TreeMeaning` | src/cql2textparser.cpp:1598-2067 | The tree the actions make has the value of the filter as written: constants are their numbers and texts, true 1 and false 0, IN is a disjunction in list order, BETWEEN a conjunction. |
| `CqlParse.TreeShaped` | src/cql2textparser.cpp:1598-2067 | Its nodes have the numbers of operands the printer asserts, AND and OR at least two. |
| `CqlParse.BuildList` | src/cql2textparser.cpp:2043-2067 | The right-recursive list is built last element first. |
| `CqlParse.MakeIn` | src/cql2textparser.cpp:1823-1855 | Pushing the tested expression and reversing restores the source order of the list. |
| `CqlParse.Build` | src/cql2textparser.cpp:1598-2199 | The actions build, in nodes of its own, the tree of the filter. |
| `CqlPrint.UnitIsGroup` | src/mapparser.y:44-56 | A bracketed operand can only be read as a group. |
| `CqlPrint.ChainIsInfix` | src/mapparser.y:44-56 | A chain of operands can only be read by splitting it at one of its signs. |
| `CqlPrint.InfixMeans` | src/cql2.cpp:383-398 | However "(a op b)" is read, it is the operation on the two operands. |
| `CqlPrint.NotMeans` | src/cql2.cpp:407-413 | However "(NOT a)" is read, it negates the operand. |
| `CqlPrint.InMeans` | src/cql2.cpp:434-452 | However the printed IN is read, it says that the value is equal to some element. |
| `CqlPrint.BetweenMeans` | src/cql2.cpp:498-521 | However the printed BETWEEN is read, it is the conjunction of the two bounds. |
| `CqlPrint.FilterMeans` | src/cql2.cpp:274-640 | The printed tokens can be read, and every reading has the value of the tree. |
| `CqlPrint.FirstProblem` | src/cql2.cpp:278-279 | Printing fails exactly if an item is not queryable or there is a test for null, and reports the first problem from left to right. |
| `CqlCompile.Rebalance` | src/cql2text.cpp:36-36 | The root of a parsed expression stands for its balanced tree afterwards. |
| `CqlCompile.Parse` | src/cql2text.cpp:26-44 | Parsing ends with the balanced tree of the filter in memory. |
| `CqlCompile.PrintNode` | src/cql2.cpp:274-640 | Printing from the nodes gives what printing the tree gives. |
| `CqlCompile.Compile` | src/cql2text.cpp:26-44 | From a filter to its tokens or first problem; however the tokens are read, they have the value of the filter for all columns and operators; the printer's assertions on numbers of operands hold. |
| `CqlCompile.CompiledMeaning` | src/cql2.cpp:112-640 | However the compiled filter is read, it has the value of the filter that was written; it fails exactly if there is a problem. |
| `CqlCompile.PrintedConstants` | src/cql2.cpp:280-346 | A number is printed as that number, a text as that text, true as 1 and false as 0. |
| `CqlCompile.TruthConstant` | src/cql2.cpp:344-346 | The filter that is a truth value b is true in every reading exactly if b. |
| `CqlLexer.QuotedTextIsRead` | src/cql2text.cpp:104-138 | A text with apostrophes doubled and backslashes escaped is read back, unless another apostrophe follows. |
| `CqlLexer.QuotedNameIsRead` | src/cql2text.cpp:104-138 | A name with quotation marks and backslashes escaped is read back if and only if it does not end in an apostrophe. |
| `CqlLexer.Progress` | src/cql2text.cpp:73-289 | Every token takes at least one character, and the cursor never passes the terminator. |
| `CqlLexer.LexedOnce` | src/cql2text.cpp:73-289 | For every text and cursor there is one token and one place to go on from. |
| `CqlLexer.LiteralReadBack` | src/cql2text.cpp:73-138 | A printed text literal is lexed as that literal and nothing more. |
| `CqlReadBack.IdentifierReadBack` | src/cql2text.cpp:88-281 | After any blanks, tabs and line ends: a letter, then letters, digits, underscores and bytes beyond ASCII as far as they go, is that identifier and nothing more, unless it is true, false, or in any case of letters a keyword or geometry word. |
| `CqlReadBack.TruthReadBack` | src/cql2text.cpp:198-203 | true and false, in lower case, are truth values. |
| `CqlReadBack.KeywordReadBack` | src/cql2text.cpp:204-239 | Each of the 18 keywords, in any case of letters, is read as that keyword. |
| `CqlReadBack.GeometryReadBack` | src/cql2text.cpp:240-277 | Each of the seven geometry words, in any case of letters, takes matching parentheses along, fails with its message if they do not match, and is an identifier without them. |
| `CqlReadBack.IntegerReadBack` | src/cql2text.cpp:143-179 | Digits followed by none of digit, point and exponent are that integer. |
| `CqlReadBack.DecimalReadBack` | src/cql2text.cpp:143-179 | Digits, a point and digits are that decimal number. |
| `CqlReadBack.SpecialReadBack` | src/cql2text.cpp:88-289 | Every other character of ASCII stands for itself, and after the last one there is the end. |
| `CqlReadBack.TextReadBack` | src/cql2text.cpp:104-138 | An escaped text between apostrophes, after any white space, is that literal. |
| `CqlReadBack.NameReadBack` | src/cql2text.cpp:104-138 | An escaped name between quotation marks, after any white space, is that identifier, unless it ends in an apostrophe. |
| `CqlReadBack.UnclosedReadBack` | src/cql2text.cpp:127-131 | A quote that does not occur again is reported, and the cursor stays. |
| `CqlLexer.Lexer.ScanQuoted` | src/cql2text.cpp:110-131 | The loop computes the quoted text, or that it is not closed. |
| `CqlLexer.Lexer.ScanNumber` | src/cql2text.cpp:143-179 | Digits, decimals and exponent, each as far as it goes; a double exactly if one of ". e E" occurs. |
| `CqlLexer.Lexer.ScanParentheses` | src/cql2text.cpp:249-266 | Takes text up to the parenthesis that closes the first one; fails exactly if there is none. |
| `CqlLexer.Lexer.ScanWord` | src/cql2text.cpp:184-281 | A truth value, else a keyword, else a balanced geometry or a failure if parentheses follow a geometry word, else an identifier. |
| `CqlLexer.Lexer.ScanGeometry` | src/cql2text.cpp:240-275 | A geometry word followed by a parenthesis gives WKT text up to the matching one, or a failure; else an identifier. |
| `CqlLexer.Lexer.Next` | src/cql2text.cpp:73-289 | What a call returns and where it leaves the cursor, for every text. |
| `RasterTranslation.MoveRow` | src/mapcompositingfilter.c:54-64 | A row is shifted into another, or within itself, without reading an overwritten pixel. |
| `RasterTranslation.MoveDown` | src/mapcompositingfilter.c:60-64 | All rows are moved down, from the bottom. |
| `RasterTranslation.MoveUp` | src/mapcompositingfilter.c:76-80 | All rows are moved up, from the top. |
| `RasterTranslation.Translate` | src/mapcompositingfilter.c:42-122 | In all four sign cases, also when the image is shifted out altogether, it becomes the pure shift of the original with zero fill. |
| `RasterTranslation.ShiftBack` | src/mapcompositingfilter.c:42-122 | Shifting back restores exactly the pixels that stayed inside. |
| `GaussianBlur.BlurRows` | src/kerneldensity.c:49-61 | The first pass leaves the row convolution in the temporary raster, zero near the ends of rows. |
| `GaussianBlur.BlurColumns` | src/kerneldensity.c:63-74 | The second pass writes the column convolution of it into the inner rows. |
| `GaussianBlur.BlurIsConvolution` | src/kerneldensity.c:51-75 | Inside, the result is the two-dimensional convolution with the product kernel; side borders of inner rows are 0; top and bottom rows keep their values. |
| `GaussianBlur.Blur` | src/kerneldensity.c:51-75 | The raster in place becomes the blurred one. |
| `FormDecoding.MakeWord` | src/cgiutil.c:366-381 | Cuts off the text before the first stop and moves the rest to the front of the buffer. |
| `FormDecoding.PlusToSpace` | src/cgiutil.c:447-453 | Every plus becomes a space. |
| `FormDecoding.UnescapeUrl` | src/cgiutil.c:421-445 | Escapes are decoded in place, malformed ones left as they are, an escaped NUL ends the text; no access goes past the terminator. |
| `FormDecoding.NextParam` | src/cgiutil.c:278-283 | One parameter is cut off and decoded; the buffer keeps the rest. |
| `FormDecoding.LoadParams` | src/cgiutil.c:267-285 | The loop returns the decoded parameters of the query. |
| `FormDecoding.CharDecoded` | src/cgiutil.c:412-445 | A plus sign, a character as it is, or an escape with digits in either case is decoded to its character, whatever follows. |
| `FormDecoding.MalformedKept` | src/cgiutil.c:421-445 | A percent sign without two hexadecimal digits after it stands for itself. |
| `FormDecoding.TextDecoded` | src/cgiutil.c:412-453 | Decoding inverts every form encoding of a text (escapes with digits in either case, where they are needed or not), whatever follows it. |
| `FormDecoding.RoundTrip` | src/cgiutil.c:267-285 | Decoding any form encoding of a list of parameters gives the list back if and only if no name contains "=". |
| `FormDecoding.EscapedParams` | src/cgiutil.c:412-453 | Every list of parameters has such encodings, with digits in either case. |

## Left out

Clustering:
- ClusterInsert.TreeNodeAddShape: says of one cell at a time in which child the shape lands.
- Which of several shapes that have to go is taken, and which of several of equal rank, depends on the order of the tree and is left open.
- varx and vary: never read by the ranking.
- Attribute aggregation, numbering of nodes, debug output, counters of list lengths and memory pools (InitShapeAttributes, UpdateShapeAttributes, finalizedNodes).
- The depth of the tree and the extent come in as parameters; so do the values of the group and filter expressions.
- Linked lists are sequences in the same order; the three counters numsiblings, avgx and avgy are one record.
- The second phase of the SIMPLE algorithm and collectClusterShapes2.
- ClusterStuck.StuckExactly: assumes an extent with minx <= maxx and miny <= maxy; which shapes of a mixed collection are left is stated only as being stuck among themselves.

Kriging:
- Rounding, exp and sqrt: the covariance is any function of the squared lag with value sigma2 at 0, the square root a parameter with its defining property.
- Bytes: krClamp and the square root of the variance for the second raster; a pixel is a mean and a variance, or no data.
- The row-major matrix is a two-dimensional array, scratch arrays are allocated per call, qsort is any sort by pixel.
- Allocation failure in kr_grid_build, shape retrieval, classes and styles that give a vertex its weight, and the GDAL dataset.

CQL2:
- The LALR tables and error recovery of the parser: a filter is given as its grammatical structure.
- m_depth and HasReachedMaxDepth: cql2_create_and_or_or never sets the depth, so the check does not bound the height of parsed trees.
- Unary minus, LIKE, CASEI, spatial operators, BBOX, WKT reprojection, custom functions, CQL2 JSON.
- Printing of single tokens: string escaping, number formats, the quoting of items by type and the lookup of item names from aliases; a token is the item or the value.
- Keyword tokens of the lexer carry the keyword, number tokens their text; atoi and atof are not modelled. Bytes above 127 that start a token give Negative, which the parser takes for the end of input.

Raster and forms:
- RasterTranslation.Translate: offsets beyond the height, or to the right beyond the width, are excluded: after erasing everything the function goes on, and its last loops would write outside the buffer (src/mapcompositingfilter.c:45-50, src/mapcompositingfilter.c:64-69).
- The values of the kernel: the blur is proved for any kernel of odd length.
- Growth of the parameter arrays, environment variables, POST bodies and cookies.
