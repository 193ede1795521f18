# Verified models of GDAL algorithms

A Dafny project about the algorithms in GDAL's `alg` directory: models of the code
that does the most intricate work there, in the form the code has (loops over
arrays and objects that change their fields stay that), and proofs of what that
code is for. Real numbers are exact; whatever the code asks of its surroundings
(memory, block reads, the answer of a progress callback, a square root, a spatial
index) is a parameter, and the contracts hold for every answer.

`dafny verify dfyconfig.toml` checks the whole project.

## What is modelled

| files | system |
|---|---|
| RasterGraph, PolygonEnumerator, Polygonize | the two-pass polygon enumerator: a union-find forest over scan lines |
| LinearAlgebra, LinearSystem | LU factorisation in place with row pivoting, and both substitutions |
| CrsSolver, LeastSquares, CrsFit, TermBasis, GcpRefine, GcpElevation | polynomial fits to ground control points: Gauss-Jordan solver, exact and least squares fits, outlier removal |
| GridProtocol, GridTheorems, GridReports, Modular | worker threads and main thread of gridding, as a state machine over all interleavings |
| GridMetrics, GridQuadrant | the gridding estimators: search tree against brute force, and the round robin over quadrants |
| WindowCache, Kernels, Interpolate | block cache, border handling and kernels of interpolation at a point |
| Palette, ColourCache | nearest colour search, plain and by eights, and the three-slot hash table in front of it |
| Triangulation | barycentric coordinates, full and walking facet search |
| Geoloc, HoleFill, Tiling | inverse bilinear interpolation, and the tiled hole filling of the back map |
| Checksum | image checksum by line and by chunk |
| IntegralImage | summed-area table |
| Basics, RealFacts | notions and facts that several of these share |

Where a promise does not hold, the code is modelled as it is, an exact condition
for the promise is proved, and a lemma shows an input that breaks it:

- `solve` never looks at the last pivot, so it also returns true for singular matrices
  whose first n - 1 columns are independent (LinearSystem.Solve, LinearSystem.TrueOnASingularMatrix).
- The search tree is used as soon as one radius is positive; with the other one zero the two
  branches of an estimator differ (GridMetrics.BranchesAgreeIffBothPositive).
- Outlier removal does not move the elevation of a point with it (GcpElevation.AlwaysWholeIff,
  GcpElevation.RefineCorners).
- A small raster downgrades to nearest-neighbour reading after edge locations have been brought
  in for that method only (Interpolate.NearestPixelIsInside).
- The colour search by eights never chooses the only entry of a table if that stands for missing
  data, but a copy of it (Palette.FindNearestColourWide).
- The cut-off for the quadratic term of the inverse bilinear formula loses exactness
  (Geoloc.InverseThenForward).
- A rectangle that starts behind the last row or column is summed from the first one
  (IntegralImage.WhenTheTableIsRight), and a negative sum is returned as 0
  (IntegralImage.TrueIffNoNegativePixel, IntegralImage.NegativePixelIsLost).

## Model

| member | source | states |
|---|---|---|
| PolygonEnumerator.Enumerator.MergePolygon | alg/gdalrasterpolygonenumerator.cpp:75-101 | Unites exactly the classes of the two ids: the map stays an acyclic forest, although parents may be larger or smaller than children, both chain walks end, and both ids end up mapped straight to the common representative. |
| PolygonEnumerator.MergedUnitesTwoClasses | alg/gdalrasterpolygonenumerator.cpp:75-101 | After a merge two ids share a representative exactly if they did before or both belonged to one of the two merged classes; every other class is as it was. |
| PolygonEnumerator.CompressKeepsForest | alg/gdalrasterpolygonenumerator.cpp:84-91 | Mapping an id straight to its representative keeps the forest, its classes and its depths. |
| PolygonEnumerator.MergeStarts | alg/gdalrasterpolygonenumerator.cpp:93-99 | The source chain walk starts from a forest that is complete except for the source root. |
| PolygonEnumerator.RelinkKeepsMergeUnderway | alg/gdalrasterpolygonenumerator.cpp:94-99 | Every relinking step of the source chain keeps that almost complete forest. |
| PolygonEnumerator.LinkingTheRootEndsTheMerge | alg/gdalrasterpolygonenumerator.cpp:100-100 | Linking the source root to the destination root completes the forest of the merged classes. |
| PolygonEnumerator.Enumerator.NewPolygon | alg/gdalrasterpolygonenumerator.cpp:111-164 | Appends a singleton class with its value, or returns -1, which happens only when the ids or the memory run out; then the polygons there are as they were. |
| PolygonEnumerator.Enumerator.CompleteMerges | alg/gdalrasterpolygonenumerator.cpp:175-206 | Afterwards the map is the map of representatives, hence idempotent, and the count returned is the number of representatives. |
| PolygonEnumerator.Enumerator.CompressChain | alg/gdalrasterpolygonenumerator.cpp:182-197 | Finds the representative of one id and maps its whole chain to it, leaving all classes alone. |
| PolygonEnumerator.Enumerator.ProcessLine | alg/gdalrasterpolygonenumerator.cpp:215-317 | A line keeps the labelling invariant: ids stand for touching pixels of equal value, merges happen only between polygons that touch, and all touching scanned pixels have had their ids merged; the ids are those of a pure function of the two lines. |
| PolygonEnumerator.Enumerator.ProcessPixel | alg/gdalrasterpolygonenumerator.cpp:253-314 | Each of the five cases of the inner loop keeps the labelling invariant for one more pixel. |
| PolygonEnumerator.Enumerator.ContinueRun | alg/gdalrasterpolygonenumerator.cpp:259-286 | The case of an equal left neighbour: the pixel joins its run and all equal neighbours above are merged. |
| PolygonEnumerator.Enumerator.TakeFromCorner | alg/gdalrasterpolygonenumerator.cpp:291-303 | The left corner case of 8-connectedness: the id comes from that corner, and the right corner is merged with it if it is equal; afterwards all equal scanned neighbours agree. |
| PolygonEnumerator.Enumerator.StartPolygon | alg/gdalrasterpolygonenumerator.cpp:309-314 | A pixel that touches nothing seen so far starts a polygon, or the line fails. |
| PolygonEnumerator.AboveNeighboursAlreadyAgree | alg/gdalrasterpolygonenumerator.cpp:287-290 | Taking the id straight from above needs no merging: any equal corner above has been merged with it before. |
| PolygonEnumerator.OnlyRightCornerFits | alg/gdalrasterpolygonenumerator.cpp:304-308 | In the last inheriting case the right corner is the only scanned neighbour of equal value. |
| PolygonEnumerator.MergeKeepsLabelling | alg/gdalrasterpolygonenumerator.cpp:264-284 | Merging the ids of two touching pixels keeps the labelling sound and never loses a merge. |
| PolygonEnumerator.NewPolygonKeepsLabelling | alg/gdalrasterpolygonenumerator.cpp:309-314 | So does a new id for a pixel whose scanned neighbours all differ. |
| PolygonEnumerator.PixelKeepsLabelling | alg/gdalrasterpolygonenumerator.cpp:253-314 | Giving a pixel an id whose polygon it touches keeps the labelling, provided all its scanned neighbours agree with it. |
| PolygonEnumerator.LabellingIsConnectivity | alg/gdalrasterpolygonenumerator.cpp:215-317 | When all data pixels are scanned, two of them have the same representative exactly if a path of equal-valued 4- or 8-neighbours joins them. |
| Polygonize.ProcessAllLines | alg/polygonize.cpp:174-215 | All lines in turn keep the labelling; failure means too many ids or no memory. |
| Polygonize.RepresentativesCountComponents | alg/gdalrasterpolygonenumerator.cpp:199-205 | There are as many representatives as connected components of data pixels. |
| Polygonize.FinalLabelHasValue | alg/gdalrasterpolygonenumerator.cpp:158-161 | The representative of a data pixel carries the value of that pixel. |
| Polygonize.FinalLabelsAreComponents | alg/polygonize.cpp:222-316 | The ids of a second pass, mapped through the completed map, are -1 without data and otherwise equal exactly for connected pixels. |
| Polygonize.EnumeratePolygons | alg/polygonize.cpp:169-316 | Both passes together: labels are exactly the connected components, label values are the pixel values, the count is the number of components, and it succeeds whenever there are fewer than 2^31 - 1 pixels and memory for them. |
| LinearSystem.Solve | alg/gdallinearsystem.cpp:37-141 | With eps 0 it returns true exactly if the first n - 1 columns are linearly independent, so always for a nonsingular matrix; then the matrix is nonsingular exactly if the last diagonal entry is not zero, and if it is, every column of X solves the original system. A negative eps fails. |
| LinearSystem.Factorise | alg/gdallinearsystem.cpp:53-102 | On success the packed factors satisfy P * A == L * U with all pivots but the last different from zero; with eps 0 it fails only if the first n - 1 columns are dependent, so never for a nonsingular matrix. |
| LinearSystem.FactorStep | alg/gdallinearsystem.cpp:65-101 | One step: pivot, row swap and elimination extend the packed factors by one row and column. |
| LinearSystem.FindPivot | alg/gdallinearsystem.cpp:66-75 | A row of largest absolute value in the column, at or below the diagonal. |
| LinearSystem.SwapRows | alg/gdallinearsystem.cpp:83-90 | Swaps two rows of the matrix and the two entries of the permutation. |
| LinearSystem.Eliminate | alg/gdallinearsystem.cpp:91-101 | Leaves multipliers in the column and the reduced block behind it, and nothing else changed. |
| LinearSystem.SwapKeepsFactored | alg/gdallinearsystem.cpp:82-90 | Swapping unfactored rows keeps the factorisation of the permuted matrix. |
| LinearSystem.StepFactors | alg/gdallinearsystem.cpp:91-101 | What an elimination step takes from the rest is the new column of L times the new row of U. |
| LinearSystem.SubstitutionSolves | alg/gdallinearsystem.cpp:105-133 | Solving the two triangular systems solves the factored one. |
| LinearSystem.ForwardSubstitute | alg/gdallinearsystem.cpp:117-124 | Fills a column of X with the solution of the unit lower system for the permuted right-hand side. |
| LinearSystem.BackSubtract | alg/gdallinearsystem.cpp:127-130 | Takes the product of the row of U with the unknowns found so far away from the entry. |
| LinearSystem.BackSubstitute | alg/gdallinearsystem.cpp:125-132 | Turns that column into the solution of the upper system when no diagonal entry is zero. |
| LinearSystem.SolveColumn | alg/gdallinearsystem.cpp:105-133 | One right-hand side: the column solves the original, unpermuted system. |
| LinearSystem.PivotsExcludeKernel | alg/gdallinearsystem.cpp:76-81 | With all pivots different from zero the matrix has no kernel vector but zero. |
| LinearSystem.MissingPivotGivesKernel | alg/gdallinearsystem.cpp:76-81 | A column without a pivot yields a kernel vector: false is never returned for a nonsingular matrix. |
| LinearSystem.LastPivotZeroIsSingular | alg/gdallinearsystem.cpp:53-53 | The last pivot is never looked at; if it is zero, the matrix is singular although true is returned. |
| LinearSystem.TrueOnASingularMatrix | alg/gdallinearsystem.cpp:53-140 | A concrete 2 x 2 matrix that is singular although its first column is independent, so that true is returned for it. |
| LinearSystem.PermutedSolves | alg/gdallinearsystem.cpp:119-119 | Solving the row-permuted system is solving the original one. |
| CrsSolver.SolveMat | alg/gdal_crs.cpp:943-1010 | MSUCCESS exactly if the matrix is nonsingular, and then E and N are the only solutions of the two original systems; otherwise MUNSOLVABLE, with E and N as they were. |
| CrsSolver.Diagonalise | alg/gdal_crs.cpp:946-998 | Gauss-Jordan elimination keeps the solution sets of both systems, leaves a diagonal matrix on success, and gives up exactly on singular matrices. |
| CrsSolver.ReduceColumn | alg/gdal_crs.cpp:971-997 | One column: swap and elimination keep all solution sets and clear the column. |
| CrsSolver.FindPivot | alg/gdal_crs.cpp:950-962 | A row of largest absolute value in the column. |
| CrsSolver.SwapKeepsSolutions | alg/gdal_crs.cpp:973-982 | A row swap on both sides keeps the solution set. |
| CrsSolver.ClearingKeepsSolutions | alg/gdal_crs.cpp:984-997 | So does subtracting multiples of the pivot row from all the others. |
| CrsSolver.MissingPivotIsSingular | alg/gdal_crs.cpp:968-969 | A column without pivot gives a kernel vector different from zero. |
| CrsSolver.DiagonalIsNonsingular | alg/gdal_crs.cpp:1000-1007 | A diagonal system without zeros has one solution, which the final division reads off. |
| CrsSolver.ReadOff | alg/gdal_crs.cpp:1000-1007 | The quotients solve the reduced system. |
| CrsFit.ExactDet | alg/gdal_crs.cpp:789-822 | MINTERR exactly with too few active points; MSUCCESS exactly if the design matrix is nonsingular, and then both coefficient vectors satisfy every active point; on failure they are as they were. |
| CrsFit.CalcLs | alg/gdal_crs.cpp:832-883 | MSUCCESS exactly if there are more active points than terms and the design matrix has full column rank; then no other coefficient vector has as small a sum of squared residuals, for eastings and for northings; on failure both vectors are as they were. |
| CrsFit.SumNormalEquations | alg/gdal_crs.cpp:838-869 | The loops sum up the upper half of the normal equations of the active points. |
| CrsFit.Mirror | alg/gdal_crs.cpp:874-880 | The lower half becomes the mirror image of the upper half. |
| CrsFit.CalcCoef | alg/gdal_crs.cpp:720-780 | Each status has its exact condition: too few points, no memory, rank deficiency, or success; only then the coefficients change, to a best fit for eastings and northings that is exact when the number of points is that of the terms. |
| LeastSquares.ResidualsOrthogonal | alg/gdal_crs.cpp:832-883 | Residuals of a solution of the normal equations are orthogonal to every column of the design matrix. |
| LeastSquares.NormalEquationsMinimise | alg/gdal_crs.cpp:832-883 | Such a solution minimises the sum of squared residuals, strictly when the normal matrix is nonsingular. |
| LeastSquares.NormalMatrixRank | alg/gdal_crs.cpp:832-883 | The normal matrix is nonsingular exactly if the design matrix has only the zero vector in its kernel. |
| GcpRefine.PolynomialIsTermSum | alg/gdal_crs.cpp:608-668 | The closed formulas of orders 1 to 3 are the sums of the fitted terms. |
| TermBasis.ProductIsOneTerm | alg/gdal_crs.cpp:888-925 | For every order from 1 to 3 and all exponents that add up to at most the order, the product of these powers of easting and northing is exactly one term. |
| TermBasis.TermIsInOrder | alg/gdal_crs.cpp:888-925 | Every term of an order is such a product. |
| TermBasis.GridDetermines | alg/gdal_crs.cpp:720-780 | Points on a triangular grid of an order, wherever it lies and whatever the means: the fit of that order succeeds. |
| TermBasis.VanishesEverywhere | alg/gdal_crs.cpp:608-668 | A polynomial of an order that is zero on such a grid is zero. |
| GcpRefine.ExactFitReproduces | alg/gdal_crs.cpp:608-668 | With as many points as terms the polynomial reproduces every active control point exactly. |
| GcpRefine.ComputeGeorefEquations | alg/gdal_crs.cpp:674-714 | The exact status: MPARMERR for an order outside 1 to 3, else what the forward fit gives, or the backward fit once that has succeeded. A direction that succeeds gets its best fit, also the forward one when the backward one fails; the other coefficients are as they were. |
| GcpRefine.RoundTripAtControlPoints | alg/gdal_crs.cpp:674-714 | With as many points as terms, the forward and the backward transformation undo each other at every control point. |
| GcpRefine.MissIsDistance | alg/gdal_crs.cpp:1049-1063 | The residual is the distance between the transformed and the given position, zero exactly if both coordinates are met. |
| GcpRefine.WorstOutlier | alg/gdal_crs.cpp:1039-1081 | The first point with the largest residual, tiny residuals read as zero; -1 exactly if no residual reaches the tolerance. |
| GcpRefine.GcpTransform.RemoveOutliers | alg/gdal_crs.cpp:1097-1208 | The whole run is determined step by step for every list, an empty one too: all points are fitted around their means, then each turn drops exactly the worst outlier under the stored coefficients and fits the rest again, until the minimum is reached or no survivor reaches the tolerance. The records left are an order-preserving subsequence with id, info, pixel, line, X and Y together; their number is at least the minimum or the original one; they are untouched if there were no more than the minimum, and whole if the elevations do not differ. |
| GcpRefine.GcpTransform.Iterate | alg/gdal_crs.cpp:1158-1185 | The refinement loop carries a legal run on to its end. |
| GcpRefine.GcpTransform.TakeTurn | alg/gdal_crs.cpp:1160-1184 | One turn: the worst point leaves records and arrays, the rest is fitted again from the coefficients that are there. |
| GcpRefine.GcpTransform.ComputeMeans | alg/gdal_crs.cpp:1130-1146 | The four centres are the averages of the four coordinates. |
| GcpRefine.RunSizes | alg/gdal_crs.cpp:1158-1185 | Every turn removes one point, the loop stops at the minimum, and does nothing if there are no more points than that. |
| GcpRefine.GcpTransform.DropPoint | alg/gdal_crs.cpp:1170-1180 | Closes the gap in the records and in the four coordinate arrays, in step. |
| GcpRefine.ControlPoints.Remove | alg/gdal_crs.cpp:1170-1180 | The remaining points are the old ones without one, in order. |
| GcpRefine.GcpTransform.WriteBack | alg/gdal_crs.cpp:1187-1194 | Coordinates go back to the records they belong to. |
| GcpElevation.AlwaysWholeIff | alg/gdal_crs.cpp:1169-1194 | Elevations are not moved with their points. Every refinement of records with given elevations leaves whole records, whatever their coordinates, exactly if the elevations do not differ, or there are no more points than the minimum, or the tolerance and the minimum are not positive, so that no point stays. |
| GcpElevation.LeavesWhole | alg/gdal_crs.cpp:1158-1194 | The three cases in which every run leaves whole records. |
| GcpElevation.MixedRun | alg/gdal_crs.cpp:1158-1194 | In all other cases, for every order, minimum, tolerance and answer of the allocator: coordinates and a complete run of the routine that leave a record with the elevation of another one. |
| GcpElevation.FitFails | alg/gdal_crs.cpp:674-714 | Points in one place: every fit fails and leaves the zero coefficients of a new transformer. |
| GcpElevation.OnePlaceIsSingular | alg/gdal_crs.cpp:720-780 | Points in one place do not determine a polynomial of any order. |
| GcpElevation.RefineCorners | alg/gdal_crs.cpp:1097-1208 | Four concrete points with one outlier, through the routine: it reports success, drops the first point, and leaves the other three with the elevations 100, 200 and 300 instead of 200, 300 and 400. |
| GridProtocol.WorkerStepInv | alg/gdalgrid.cpp:2712-2818 | Every action of a worker, from allocation over row computation, counting and signalling to the stop test, keeps the protocol invariant. |
| GridProtocol.MainStepInv | alg/gdalgrid.cpp:3650-3711 | Every action of the main thread, submitting, waiting, reporting and joining, keeps it. |
| GridProtocol.SpuriousWakeInv | alg/gdalgrid.cpp:3677-3679 | A wake without a signal keeps it. |
| GridProtocol.RunInv | alg/gdalgrid.cpp:2712-2818 | It holds in every state of every interleaving. |
| GridProtocol.RowsStayFine | alg/gdalgrid.cpp:2745-2818 | Row r is written by worker r mod nThreads only, once, in order. |
| GridProtocol.CounterStaysFine | alg/gdalgrid.cpp:2712-2721 | While nobody has asked to stop, the counter is the number of rows reported done. |
| GridProtocol.PromiseKept | alg/gdalgrid.cpp:2712-2721 | Whenever the main thread is going to sleep, the last count or the stop request still has its signal ahead. |
| GridTheorems.ReturnTellsTheTruth | alg/gdalgrid.cpp:3650-3711 | In every run that returns: CE_None exactly if in no step of the run the progress callback, an allocation or the gridding method said no, and then every row has been written exactly once; all jobs are over. |
| GridTheorems.TroubleIsANo | alg/gdalgrid.cpp:2745-2818 | At every moment of every run, the record of trouble says exactly whether somebody has said no so far. |
| GridReports.CallbackIsAsked | alg/gdalgrid.cpp:3675-3693 | After every wake the progress callback is asked before the loop condition is looked at again. |
| GridReports.ReportsNeverFall | alg/gdalgrid.cpp:3679-3685 | What the callback is told is the counter as read under the mutex; it never falls, and until a stop it never exceeds the number of rows. |
| GridReports.StopIsHeeded | alg/gdalgrid.cpp:2763-2817 | Once the stop flag is set each worker writes at most one more row: of two open rows of a worker the later one stays unwritten for ever. |
| GridTheorems.NoRowWrittenTwice | alg/gdalgrid.cpp:2745-2818 | No row is written twice at any time, however the run ends. |
| GridTheorems.SleeperWillBeWoken | alg/gdalgrid.cpp:3677-3693 | Whenever the main thread sleeps with no wake pending, some worker that is neither idle nor finished still has a signal to send. |
| GridTheorems.NeverStuck | alg/gdalgrid.cpp:3650-3711 | In every reachable state before the return some thread can go on without a spurious wake. |
| GridTheorems.StepsWithinBudget | alg/gdalgrid.cpp:3650-3711 | Every step of a thread uses up work that is there; a spurious wake costs at most nine steps. |
| GridTheorems.EveryRunEnds | alg/gdalgrid.cpp:3650-3711 | The length of a run is bounded by the work there is and the number of spurious wakes. |
| GridMetrics.EllipseInDisc | alg/gdalgrid.cpp:641-700 | A point that meets the ellipse test is no farther from the centre than the longer semi-axis. |
| GridMetrics.InsideIsTheEllipse | alg/gdalgrid.cpp:800-804 | With both radii positive, and any rotation, the test accepts exactly the points whose fractions of the radii along the two axes have squares that add up to at most one. |
| GridMetrics.InsideOnTheAxes | alg/gdalgrid.cpp:800-804 | On either axis it accepts exactly up to the radius. |
| GridMetrics.RotationUndone | alg/gdalgrid.cpp:788-798 | The rotated offsets are the coordinates along the axes of the ellipse. |
| GridMetrics.InsideIsInSquare | alg/gdalgrid.cpp:662-700 | With both radii positive, and any rotation, the search square holds the whole ellipse. |
| GridMetrics.WalkIgnoresOrder | alg/gdalgrid.cpp:662-700 | Count, sum, minimum and maximum do not depend on the order of the points. |
| GridMetrics.QuadTreeEqualsBruteForce | alg/gdalgrid.cpp:662-724 | With both radii positive the walk over the search result gathers what the walk over all points gathers. |
| GridMetrics.BranchesAgreeIffBothPositive | alg/gdalgrid.cpp:3086-3090 | With more points than the threshold, whatever that is, the tree is used as soon as one radius is positive; the two branches agree on all such point sets exactly if both are. |
| GridMetrics.FarPointSeparates | alg/gdalgrid.cpp:3086-3090 | With one radius zero: a point that the ellipse test accepts and the search square does not hold. |
| GridMetrics.Gather | alg/gdalgrid.cpp:630-737 | The common loops of the estimators. |
| GridMetrics.WalkMeaning | alg/gdalgrid.cpp:1071-1167 | What they gather: how many points are in the ellipse, their sum, their smallest and largest value. |
| GridMetrics.EstimateNode | alg/gdalgrid.cpp:1557-1657 | Moving average, minimum, maximum, range and count of exactly the points in the ellipse, or no data; with the tree and without it. |
| GridQuadrant.InsertFiles | alg/gdalgrid.cpp:806-809 | Insertion keeps the list sorted by distance and adds exactly one point. |
| GridQuadrant.FilePoints | alg/gdalgrid.cpp:784-812 | Each quadrant list holds exactly the points of the ellipse on its side, nearest first. |
| GridQuadrant.TakeInTurn | alg/gdalgrid.cpp:829-856 | The endless round-robin loop ends; it takes a nearest-first prefix of each list, no list that can still give lags another by more than one, and the number taken is the minimum of the limit, if set, and the sum of the capped list sizes. |
| GridQuadrant.TakeKeepsTurns | alg/gdalgrid.cpp:846-855 | Taking a point keeps the turns fair and the finished flags true. |
| GridQuadrant.SkipKeepsTurns | alg/gdalgrid.cpp:835-844 | So does passing a quadrant that is used up or at its cap. |
| GridQuadrant.TakenAreNearest | alg/gdalgrid.cpp:829-856 | What is taken and what is left of a list stems from points on that side of the ellipse, and no point left is nearer to the node than one taken. |
| GridQuadrant.SidesAreSigns | alg/gdalgrid.cpp:806-807 | Two points are filed together exactly if their coordinates along both axes have the same sign, zero counting as positive. |
| GridQuadrant.SideAlongAxes | alg/gdalgrid.cpp:806-807 | Which of the four lists a point goes to, for every rotation. |
| GridQuadrant.FiledByDistance | alg/gdalgrid.cpp:808-809 | Points are filed by their squared distance from the node, for every rotation, with their own value. |
| GridQuadrant.MovingAveragePerQuadrant | alg/gdalgrid.cpp:746-876 | The mean of the points taken, or no data when a quadrant or the total falls short. |
| WindowCache.KeyInjective | alg/gdal_interpolateatpoint.cpp:82-83 | The cache key tells blocks apart. |
| WindowCache.BlockCache.Fetch | alg/gdal_interpolateatpoint.cpp:104-121 | A block from the cache or from the band; the cache goes on holding true copies only. |
| WindowCache.Pieces | alg/gdal_interpolateatpoint.cpp:56-93 | The pieces of a window lie where they belong in block and output, stay inside their blocks, and follow one another without gap. |
| WindowCache.CopyBlock | alg/gdal_interpolateatpoint.cpp:123-142 | One block's share of the window; the size guard never trips for a window inside the raster. |
| WindowCache.ExtractWindow | alg/gdal_interpolateatpoint.cpp:39-162 | The window is exactly that part of the raster, whatever the cache held or drops; it fails only if a read of a touched block fails. |
| WindowCache.CorrectionBringsInside | alg/gdal_interpolateatpoint.cpp:205-228 | For every start the corrected window lies in the raster, and clamping the shifted index gives the clamped raster index. |
| WindowCache.PushLine | alg/gdal_interpolateatpoint.cpp:233-247 | The loop for a negative shift: every cell takes the value of the one before it, the first stays. |
| WindowCache.PullLine | alg/gdal_interpolateatpoint.cpp:248-261 | The loop for a positive shift: every cell takes the value of the one behind it, the last stays. |
| WindowCache.DragInBorder | alg/gdal_interpolateatpoint.cpp:230-271 | In place, one step at a time: every cell ends with the value at its clamped shifted index. |
| WindowCache.ReadKernelWindow | alg/gdal_interpolateatpoint.cpp:343-389 | Correction, block assembly and dragging along both axes give the raster read at row and column clamped to the image, for every position and window size that fits the raster; it fails only if a block that the moved window touches is refused. |
| WindowCache.ExtractPixel | alg/gdal_interpolateatpoint.cpp:395-403 | The same block arithmetic for one pixel, also on the right and bottom edge. |
| WindowCache.PixelOffset | alg/gdal_interpolateatpoint.cpp:125-142 | What a block holds at the offset of a pixel on or inside the edge. |
| Kernels.CubicMoments | alg/gdalresamplingkernels.h:23-43 | The four weights of the cubic kernel add up to one, have their centre at the location, and no spread around it. |
| Kernels.CubicIsHermite | alg/gdalresamplingkernels.h:23-43 | Between two pixels the cubic kernel gives the polynomial of degree 3 that meets both and has at each the slope of the line through its neighbours. |
| Kernels.SplineMoments | alg/gdalresamplingkernels.h:45-60 | The first four moments of the B-spline weights, up to the factor its rounded constant leaves; they determine the weights. |
| Kernels.SpreadAroundLocation | alg/gdalresamplingkernels.h:23-60 | The squared distances from the location, weighted, come to nothing for the cubic kernel and to a third for the spline. |
| Kernels.QuadraticAcross | alg/gdal_interpolateatpoint.cpp:302-341 | Along one axis a quadratic comes back, moved by the spread times its curvature. |
| Interpolate.Apply4x4Kernel | alg/gdal_interpolateatpoint.cpp:302-341 | The weighted mean of the pixels with data, none if the weights cancel. |
| Interpolate.ApplyBilinearKernel | alg/gdal_interpolateatpoint.cpp:273-300 | Linear interpolation along X and then along Y, none if any pixel is without data. |
| Interpolate.BilinearStaysInRange | alg/gdal_interpolateatpoint.cpp:273-300 | The result lies between the smallest and the largest of the four pixels. |
| Interpolate.FilteredIsAcross | alg/gdal_interpolateatpoint.cpp:302-341 | Where no pixel is missing the double loop works along X on four rows and then along Y. |
| Interpolate.FilteredSurface | alg/gdal_interpolateatpoint.cpp:302-341 | Cubic convolution gives back every quadratic surface exactly; the spline lifts it by a third of its curvatures. |
| Interpolate.InterpolateAtPoint | alg/gdal_interpolateatpoint.cpp:164-409 | Through blocks and cache the result is the value that the raster alone determines; besides it fails only when a block of the window that the location needs is refused. |
| Interpolate.PlanesAreReproduced | alg/gdal_interpolateatpoint.cpp:343-389 | On a raster that samples a plane, bilinear, cubic and cubic spline return the plane's value at every location whose kernel lies in the raster. |
| Interpolate.SurfacesAreReproduced | alg/gdal_interpolateatpoint.cpp:343-389 | On a raster that samples a quadratic surface, cubic returns the surface's value at every location whose kernel lies in the raster, and cubic spline that value lifted by a third of the curvatures. |
| Interpolate.CubicReturnsPixels | alg/gdal_interpolateatpoint.cpp:343-389 | At the centre of every pixel of every raster, cubic returns that pixel, or nothing if it is without data. |
| Interpolate.NearestPixelIsInside | alg/gdal_interpolateatpoint.cpp:172-203 | Reading the nearest pixel stays in the raster exactly if that method was asked for or the location is not on the right or bottom edge. |
| Interpolate.EdgeReadsNextRow | alg/gdal_interpolateatpoint.cpp:199-203 | A concrete raster where the method downgraded to nearest returns the pixel of the next row on the right edge. |
| Palette.FindNearestColour | alg/gdaldither.cpp:739-758 | The first entry with the smallest sum of absolute differences among those that do not stand for missing data, or 0 if there is none. |
| Palette.DistanceTellsApart | alg/gdaldither.cpp:747-750 | The distance is zero exactly for equal colours, and symmetric. |
| Palette.DistanceCountsSteps | alg/gdaldither.cpp:747-750 | A step of any one channel towards the other colour brings it nearer by one, a step away takes it farther by one. |
| Palette.FindNearestColourWide | alg/gdaldither.cpp:658-737 | The search by eights over the padded table gives the same index exactly if the table is not a single entry that stands for missing data; for that one it gives 1. |
| Palette.CopiesNeverWin | alg/gdaldither.cpp:280-291 | The padding repeats an entry that may be chosen itself, so a copy is never chosen. |
| Palette.OnlyEntryWithoutData | alg/gdaldither.cpp:280-291 | With a single entry that stands for missing data the first copy is chosen. |
| ColourCache.PosNext | alg/gdaldither.cpp:537-541 | A step of 257 leads to the next bucket of the probe path. |
| ColourCache.PosInjective | alg/gdaldither.cpp:537-541 | Every bucket is on the path once, since 257 is coprime to 98317. |
| ColourCache.NotStored | alg/gdaldither.cpp:489-535 | A search that reaches a bucket with room without success proves that the colour is not stored anywhere. |
| ColourCache.StoringKeepsValid | alg/gdaldither.cpp:496-535 | Storing it there keeps the table: each colour once, with its nearest entry, and reachable over full buckets only. |
| ColourCache.SomeRoom | alg/gdaldither.cpp:353-360 | With fewer colours than buckets some bucket has room. |
| ColourCache.ColourTable.VisitBucket | alg/gdaldither.cpp:491-535 | The three slots in order: found, stored in the first free one, or all taken by other colours. |
| ColourCache.ColourTable.SkipBuckets | alg/gdaldither.cpp:537-548 | The inner loop ends at a bucket that holds the colour or has room. |
| ColourCache.ColourTable.Lookup | alg/gdaldither.cpp:484-550 | The probing ends and returns the nearest entry of the colour, which is stored afterwards; no other colour is stored or lost. |
| ColourCache.MapPixels | alg/gdaldither.cpp:353-360 | Any image of at most 65536 pixels, through a fresh table: every pixel gets its nearest entry. |
| Triangulation.Mesh.ComputeCoefficients | alg/delaunay.c:291-344 | Fills in the coefficients of every facet once; succeeds exactly if they are there already or there is memory. |
| Triangulation.CoordsAreAreas | alg/delaunay.c:309-341 | A coordinate times the signed area of the facet is the signed area with the point in place of the vertex. |
| Triangulation.CoordsReproduce | alg/delaunay.c:350-388 | The coordinates add up to one and reproduce the point from the vertices. |
| Triangulation.CoordsOfVertices | alg/delaunay.c:350-388 | Each vertex has coordinate 1 for itself and 0 for the others. |
| Triangulation.CoordIsAffine | alg/delaunay.c:350-356 | Every coordinate is an affine function of the point. |
| Triangulation.AllZeroMeansDegenerate | alg/delaunay.c:434-439 | The test on the stored coefficients finds exactly the degenerate facets. |
| Triangulation.NeverBeyond | alg/delaunay.c:441-450 | If all vertices lie on the inner side of every boundary edge, so does every point of every facet. |
| Triangulation.Mesh.FindFacetBruteForce | alg/delaunay.c:416-483 | The first facet whose weights are in [-EPS, 1 + EPS], or a facet with the point beyond its boundary edge, or none. |
| Triangulation.Mesh.FindFacetDirected | alg/delaunay.c:510-626 | The walk never leaves the facets, ends, and gives an equally good answer. |
| Triangulation.PointsInFacetsAreFound | alg/delaunay.c:416-626 | With such a boundary, either search answers TRUE for every point that lies exactly in a facet that is not degenerate. |
| Triangulation.FoundFacetReproduces | alg/delaunay.c:416-626 | The weights in a facet found add up to one and reproduce the point. |
| Geoloc.CrossIsQuadratic | alg/gdalgeoloc.cpp:970-975 | The parameter s is wanted where the quadratic with the coefficients A, B and C vanishes. |
| Geoloc.FormulaGivesRoots | alg/gdalgeoloc.cpp:986-992 | Both solutions by the formula are roots. |
| Geoloc.StraightLineLeaves | alg/gdalgeoloc.cpp:978-983 | The straight-line solution leaves denom * s * (s - 1), which is zero exactly if denom, A or C is. |
| Geoloc.InverseThenForward | alg/gdalgeoloc.cpp:960-1010 | The inverse followed by the forward formula of PixelLineToXY (lines 442-456) returns the target, for either root and either t, exactly if the quadratic term was not cut off, or denom, A or C is zero; where no t can be computed, exactly if the target is the line mix itself. |
| Geoloc.InverseBilinearInterpolation | alg/gdalgeoloc.cpp:960-1010 | The routine moves (i, j) by that s and t, for every cell and target; the line comes out infinite or not a number exactly if A equals C in the straight case or the discriminant is negative in the other. If some place in the cell maps to the target and nothing was cut off, the line that comes out lies in the cell, and where a column can be computed the place that comes out maps to the target. |
| Geoloc.TargetIsFound | alg/gdalgeoloc.cpp:978-993 | Of the two roots, the one that is chosen lies in the cell if the target does. |
| Geoloc.RootsComeFromFormula | alg/gdalgeoloc.cpp:986-988 | Every root of the quadratic is one of the two of the formula, and then the discriminant is not negative. |
| Geoloc.NearParallelogramMisses | alg/gdalgeoloc.cpp:978-983 | A concrete cell and target for which the cut-off loses the exact result. |
| HoleFill.ScanCell | alg/gdalgeoloc.cpp:1533-1564 | One cell: a hole changes nothing, a valid cell settles exactly the holes since the last valid one. |
| HoleFill.FillGap | alg/gdalgeoloc.cpp:1547-1559 | The inner loop writes the straight line between the two valid cells and nothing else. |
| HoleFill.ScanTile | alg/gdalgeoloc.cpp:1527-1567 | A tile goes on from what was carried over, line by line. |
| HoleFill.ScanStrip | alg/gdalgeoloc.cpp:131-154 | A row of tiles starts with nothing carried into it. |
| HoleFill.FillHoles | alg/gdalgeoloc.cpp:1511-1569 | For every tile size the pass gives each cell what its own line determines: valid cells stay, a hole between two valid cells that differ by at most 2 in X and in Y becomes their linear interpolation, any other hole stays. |
| HoleFill.FilledStaysBetween | alg/gdalgeoloc.cpp:1550-1558 | A filled value lies between those of the two neighbours. |
| HoleFill.LineIsStraight | alg/gdalgeoloc.cpp:1550-1558 | The filled values run from one neighbour to the other in equal steps. |
| Checksum.Rem | alg/gdalchecksum.cpp:319-320 | The truncating remainder. |
| Checksum.ModuliAreConsecutivePrimes | alg/gdalchecksum.cpp:54-56 | The moduli are the eleven primes from 7 to 43, in order and without a gap. |
| Checksum.IntFromDouble | alg/gdalchecksum.cpp:67-88 | Rounds to the nearest integer in range, gives the nearest of -2147483647 and 2147483647 beyond it, and INT_MIN exactly for values that are not finite. |
| Checksum.ChecksumImage | alg/gdalchecksum.cpp:99-371 | The four branches, integers or floating-point numbers, by chunk or by line: the same checksum of the same values, or -1 exactly without memory or after a refused read. |
| Checksum.ChecksumByLine | alg/gdalchecksum.cpp:338-368 | The sum of all values, each modulo the prime whose turn it is, modulo 65536; -1 exactly without memory or when a line cannot be read. |
| Checksum.ChecksumByChunk | alg/gdalchecksum.cpp:272-330 | For every chunk width and height the same sum; -1 exactly without memory or when a chunk cannot be read. |
| Checksum.AddValues | alg/gdalchecksum.cpp:317-323 | The inner loop of a chunk line: the turn of the primes wraps around, the unreduced sum grows by the terms, and it stays in the 32-bit range at every step for lines of at most 51,129,002 values. |
| Checksum.AddChunkRow | alg/gdalchecksum.cpp:282-330 | One row of chunks adds the sum of its lines, however they are cut. |
| Checksum.AddChunkLine | alg/gdalchecksum.cpp:307-325 | The turn of the primes found anew for a line of a chunk is the one of counting line by line. |
| Checksum.PartialSumsFit | alg/gdalchecksum.cpp:317-324 | No partial sum leaves the 32-bit range while the line of a chunk has at most 51,129,002 values. |
| Checksum.ReduceOnTheWay | alg/gdalchecksum.cpp:324-324 | Masking after every line, or after every value, does not change the result. |
| IntegralImage.Table.Initialize | alg/gdal_octave.cpp:32-69 | Every cell becomes the sum of the image above and left of it, itself included. |
| IntegralImage.CornerStep | alg/gdal_octave.cpp:51-68 | A cell from its three neighbours. |
| IntegralImage.RectangleFromCorners | alg/gdal_octave.cpp:82-119 | A rectangle sum from four corner sums. |
| IntegralImage.Table.GetRectangleSum | alg/gdal_octave.cpp:82-119 | For every start and every size, also negative ones: the sum over the rectangle between the ends that are used, counted negative when one pair of ends is reversed, but nothing below zero. |
| IntegralImage.TableIsClippedSum | alg/gdal_octave.cpp:82-119 | For a start up to height and width that is the sum over the part of the rectangle in the image. |
| IntegralImage.WhenTheTableIsRight | alg/gdal_octave.cpp:92-94 | It is so for all images exactly if the rectangle does not start behind the last row or column, or no cells are used anyway. |
| IntegralImage.TrueIffNoNegativePixel | alg/gdal_octave.cpp:116-118 | For a given image: the result is the sum itself for every rectangle that does not start behind the image, as gdal_simplesurf.h:215-225 promises, exactly if no pixel is negative. |
| IntegralImage.NegativePixelIsLost | alg/gdal_octave.cpp:82-119 | A concrete image, through the routine: the true sum is -1 and the result 0. |

## Left out

- Floating-point rounding, NaN and infinities in all numeric routines: exact reals are used; tolerances and cut-offs are kept as constants.
- Tolerance equality in the polygon enumerator (the float and double instances): it is not transitive, so the component theorem is for the integer instance.
- Reading, masking, polygon assembly and feature writing around the enumerator's two passes.
- PolygonEnumerator.Enumerator.NewPolygon: any request for memory may fail, and the model then has the old arrays. The code reallocates both arrays before it looks at the results, and when one of the two fails it frees the other, whose old block the member still names (lines 141-151); the state of the object after a failure is not modelled.
- LinearSystem.Solve: what X holds after a division by a zero last pivot is an arbitrary number, as floating point would give an infinity or NaN there; the Armadillo variant is not modelled.
- GcpRefine.GcpTransform.RemoveOutliers: the exception path, which returns MINTERR, is left out.
- The thread pool, the mutex and the condition variable themselves: taking a free mutex succeeds, a wait may wake spuriously, and the pool runs every job that was submitted; a refused submission is not modelled. Rows are counted without a 32-bit limit.
- The search tree of gridding: its search is taken to return exactly the points in the square, in any order.
- Inverse distance, nearest neighbour, linear and average-distance gridding, and the per-quadrant forms of minimum, maximum, range and count, which share the loop proved for the moving average.
- WindowCache.BlockCache.Insert: which entries the cache drops is arbitrary instead of least recently used.
- WindowCache.ExtractWindow: windows inside the raster only; its callers pass no other ones, but for a single pixel on the right or bottom edge, which is WindowCache.ExtractPixel. The output buffer is two-dimensional, and complex pixels with two numbers each are left out.
- WindowCache.ExtractPixel: a window of one pixel only; larger windows are stated for positions inside the raster, which the border correction guarantees.
- Interpolate.InterpolateAtPoint: no-data is any predicate on values instead of the code's approximate equality.
- Dithering: error diffusion, masks and the fixed colour cube; the hash table is proved for any sequence of colours, so for the ones that diffusion produces too.
- Palette.FindNearestColourWide: the eight distances are taken as a sequence instead of vector registers.
- Building the triangulation (Qhull), and that its boundary is convex: this is a premise of Triangulation.PointsInFacetsAreFound.
- Geoloc.InverseBilinearInterpolation: what the column becomes when the line is infinite or not a number is left out.
- The rest of PixelLineToXY (choice of the cell, borders, shifts by 360 degrees) and of the back map generation.
- HoleFill.FillHoles: single precision of the entries is not modelled.
- The choice of the chunk size in the checksum from cache size and block size: every positive size is covered. The answer 0 when there is no band at all is left out.
- IntegralImage.Table.GetRectangleSum: sums of start and size are not limited to 32 bits.
- RPC and thin plate spline transformers, contours, warping, rasterisation, proximity, sieving, SURF matching and the rest of the directory.
