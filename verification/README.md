# Verified models of the G1 navigation stack

Dafny models of the algorithms and state machines on which a walking robot's localisation, planning
and command path rest, with proofs of what they promise. Code that works by changing things in place
is modelled in place: classes over arrays, sequences and maps, with loops and their invariants. Each
such method is proved against a specification, and the main results are lemmas about all inputs, all
runs or all reachable states.

| files | models |
|---|---|
| `Nearest`, `KnnResultSet`, `Points`, `KdTree`, `KdSearch` | the k-d tree used for scan matching: in-place three-way partitioning, recursive box splitting, the sorted result buffer and the pruned nearest-neighbour search, against brute force |
| `Grid`, `BestFirst`, `AStar` | the grid graph and lazy-deletion A* with a Euclidean estimate: cheapest path, None exactly when unreachable, termination |
| `Sight`, `Shortcut`, `NearestFree`, `Inflation`, `Planner` | Bresenham line of sight, greedy string-pulling, breadth-first search for a free cell, the robot-radius cost layer, and the planning call that combines them |
| `Cluster` | union-find with path halving over occupied cells |
| `ObstacleSelection` | sector-covering choice of obstacle points |
| `Heights`, `GroundSegmentation`, `ObstacleSegmentation` | the two vectorised ground filters, against point-by-point definitions |
| `Submap`, `ImuWindow` | keyframe selection with a bounded heap, and the inertial sample window of a scan |
| `Navigation` | the navigation and security state machine over runs of goals, poses, paths and solves |
| `Bridge` | velocity smoother, e-stop and watchdog over runs of twists, e-stop messages and ticks |
| `Reals`, `Wrappers` | squares, signs of products and the option type, shared by the others |
| `JointFilters`, `JointSmoother` | the joint target filters and the blend, filter, clamp and release stack |

`dafny verify dfyconfig.toml` checks the whole project.

## Modelling choices

- Floating point numbers are reals. The square root of two is a positive real whose square is 2, a
  Euclidean length is any non-negative function whose square is dx^2 + dy^2, and the exponential is
  any map that is increasing on non-positive arguments with values in (0, 1].
- The largest representable distance is the parameter `bound` of the result set. Points at or beyond
  it are not returned, as in the code, which compares strictly.
- The heap of A* is a sequence from which some least entry is taken; ties are broken arbitrarily. The
  k-d tree's permutation array, the result buffers, the ground grids and the union-find forest are
  heap objects.
- Sorting orders enter the two selection algorithms as any order with the documented property, so the
  results hold for unstable sorts too. Library calls for angles, hulls, distance transforms and the
  optimiser enter as arbitrary values, with their own specification where one is needed.
- Clocks are inputs: an event carries its time, and a smoother step reads the same time as its tick.

## Where the code and its documentation part

- The goal hold is documented as latched until a new goal arrives. A solve that finds the pose stale
  moves the node to STOPPED, from where it may drive again with no new goal
  (`Navigation.StalePoseBreaksHold`, from start-up `Navigation.ReachedGoalIsLeft`). The exact
  conditions are `Navigation.HoldIsExact` for the state and `Navigation.ZeroUntilNewGoalIsExact` for what
  is published.
- The critically damped filter is documented as free of overshoot. It is, exactly for
  (wn dt)^2 + 2 wn dt <= 2 (`JointFilters.NoOvershootIsExact`), and the same bound decides whether it
  stays inside the range of a moving target (`JointFilters.ContainmentIsExact`). Under the
  same condition, and no other, its error never grows either (`JointFilters.CalmIsExact`), and the whole
  smoothing stack, clamp included, keeps to the range of its targets (`JointSmoothers.StackContainmentIsExact`).
- The per-cell obstacle filter packs two cell indices into one key. It is a per-cell filter exactly
  when no two occupied cells share a key, or the height is negative (`ObstacleSegmentation.KeyedIsPerCellExactly`).
- The velocity smoother is documented to move by at most the acceleration times the tick interval. It
  counts an interval of zero or less as a millisecond, so the bound holds exactly when time has passed or
  no axis would move anyway (`Bridge.BareIntervalIsExact`; a run that breaks it is
  `Bridge.ZeroIntervalStillMoves`).
- The obstacle selection returns a row although none was asked for when its target is zero and a point
  is close (`ObstacleSelection.RowCountIsExact`, `ObstacleSelection.ZeroTargetGivesARow`).
- Grid indices are documented to convert to the centre of their cell. They convert to its lowest corner
  (`Planners.CornerIsLowest`); the corner still leads back to the cell (`Planners.RoundTrip`).

## Model

| member | source | states |
|---|---|---|
| `KnnResults.KnnResultSet.AddPoint` | ros2_ws/src/direct_lidar_inertial_odometry/include/nano_gicp/nanoflann.h:207-240 | shifting and storing in the two buffers gives exactly the sorted insertion cut to the capacity, so a point that no longer qualifies falls off the end at once |
| `KnnResults.KnnResultSet.MakeRoom` | ros2_ws/src/direct_lidar_inertial_odometry/include/nano_gicp/nanoflann.h:209-230 | the shift keeps every entry, frees the one slot that keeps the order, and stops behind equal distances |
| `KnnResults.KnnResultSet.WorstDist` | ros2_ws/src/direct_lidar_inertial_odometry/include/nano_gicp/nanoflann.h:242 | the last slot of the buffer is the distance a point must beat: the k-th best, or the largest distance while the set is not full |
| `Nearest.OfferAnswers` | ros2_ws/src/direct_lidar_inertial_odometry/include/nano_gicp/nanoflann.h:207-240 | offering an unseen point to an answer for the points seen gives an answer for one more point, and the distance to beat never rises |
| `Nearest.PassOver` | ros2_ws/src/direct_lidar_inertial_odometry/include/nano_gicp/nanoflann.h:1654-1663 | points no nearer than the distance to beat may be skipped without losing the answer |
| `Nearest.ExactAnswersAgree` | ros2_ws/src/direct_lidar_inertial_odometry/include/nano_gicp/nanoflann.h:1463-1470 | any two exact answers over the same points have the same list of distances, ties or not |
| `Nearest.BruteForceAnswers` | ros2_ws/src/direct_lidar_inertial_odometry/include/nano_gicp/nanoflann.h:1463-1470 | sorting all distances and keeping the first k is an exact answer: the reference the search is compared with |
| `KdTrees.KdTree.ComputeMinMax` | ros2_ws/src/direct_lidar_inertial_odometry/include/nano_gicp/nanoflann.h:1004-1016 | the exact minimum and maximum of one dimension over a range of the permuted index |
| `KdTrees.KdTree.Extent` | ros2_ws/src/direct_lidar_inertial_odometry/include/nano_gicp/nanoflann.h:1557-1576 | the bounding box is exact: each side is the attained minimum and maximum of its dimension |
| `KdTrees.KdTree.Sweep` | ros2_ws/src/direct_lidar_inertial_odometry/include/nano_gicp/nanoflann.h:1148-1168 | one partition sweep: the range is permuted and the points that pass come first |
| `KdTrees.KdTree.PlaneSplit` | ros2_ws/src/direct_lidar_inertial_odometry/include/nano_gicp/nanoflann.h:1135-1185 | the documented three-way result: below, equal and above the cut value, with the range permuted and nothing else touched |
| `KdTrees.KdTree.ChooseFeature` | ros2_ws/src/direct_lidar_inertial_odometry/include/nano_gicp/nanoflann.h:1089-1112 | the cut dimension has the largest real spread among the dimensions whose box side is nearly the widest |
| `KdTrees.KdTree.MiddleSplit` | ros2_ws/src/direct_lidar_inertial_odometry/include/nano_gicp/nanoflann.h:1084-1133 | both halves are non-empty, the cut value separates them in the chosen dimension and is the middle of the box side brought within the extent of the points, and the halves are as even as ties allow |
| `KdTrees.KdTree.CutValue` | ros2_ws/src/direct_lidar_inertial_odometry/include/nano_gicp/nanoflann.h:1113-1122 | the middle of the box side when the points reach it, otherwise the extent nearest to it |
| `KdTrees.KdTree.JoinBoxes` | ros2_ws/src/direct_lidar_inertial_odometry/include/nano_gicp/nanoflann.h:1074-1078 | the union of two exact boxes is the exact box of the joined range |
| `KdTrees.KdTree.DivideTree` | ros2_ws/src/direct_lidar_inertial_odometry/include/nano_gicp/nanoflann.h:1025-1082 | the recursion terminates and yields a correct tree over exactly its range: leaves partition it and hold at most the leaf size, divlow and divhigh are the attained left maximum and right minimum, the box returned is exact, and the index array is permuted within the range |
| `KdTrees.KdTree.BuildIndex` | ros2_ws/src/direct_lidar_inertial_odometry/include/nano_gicp/nanoflann.h:1405-1417 | after building, the index array is a permutation of all points and the root tree and root box are correct for it; an empty data set has no tree |
| `KdSearch.EvalMetric` | ros2_ws/src/direct_lidar_inertial_odometry/include/nano_gicp/nanoflann.h:509-521 | the loop computes the squared Euclidean distance, which the next two rows pin down |
| `Points.DistSqIsSum` | ros2_ws/src/direct_lidar_inertial_odometry/include/nano_gicp/nanoflann.h:509-521 | in any dimension that distance is the sum of the squared coordinate differences, each counted once |
| `Points.DistSqInSpace` | ros2_ws/src/direct_lidar_inertial_odometry/include/nano_gicp/nanoflann.h:509-521 | in space it is the three plain products added |
| `KdSearch.ComputeInitialDistances` | ros2_ws/src/direct_lidar_inertial_odometry/include/nano_gicp/nanoflann.h:1187-1210 | each entry is the squared gap to the root box and the result is their sum |
| `KdSearch.BoxGapBounds` | ros2_ws/src/direct_lidar_inertial_odometry/include/nano_gicp/nanoflann.h:1187-1210 | those gaps are lower bounds in their dimension for every point of the tree |
| `KdSearch.FarSideBounds` | ros2_ws/src/direct_lidar_inertial_odometry/include/nano_gicp/nanoflann.h:1618-1640 | on the far side of the cut, the distance to divlow or divhigh is a lower bound in the cut dimension for every point |
| `KdSearch.PrunedLoses` | ros2_ws/src/direct_lidar_inertial_odometry/include/nano_gicp/nanoflann.h:1651-1654 | when the sum of the bounds, stretched by the tolerance, exceeds the distance to beat, no point of the branch can enter the answer |
| `KdSearch.ScanLeaf` | ros2_ws/src/direct_lidar_inertial_odometry/include/nano_gicp/nanoflann.h:1593-1616 | a leaf is scanned completely although the distance to beat is read once, before the loop |
| `KdSearch.SearchLevel` | ros2_ws/src/direct_lidar_inertial_odometry/include/nano_gicp/nanoflann.h:1587-1666 | visiting a subtree turns the answer for the points seen into the answer that also covers the subtree, and leaves the array of bounds as it found it |
| `KdSearch.VisitFar` | ros2_ws/src/direct_lidar_inertial_odometry/include/nano_gicp/nanoflann.h:1651-1664 | the running sum stays the sum of the bounds while one of them is replaced and restored |
| `KdSearch.FindNeighbors` | ros2_ws/src/direct_lidar_inertial_odometry/include/nano_gicp/nanoflann.h:1436-1460 | for every tolerance eps >= 0 the result is an answer up to the factor 1 + eps; with eps = 0 its distances equal those of brute force; the value returned says whether the set is full |
| `KdSearch.KnnSearch` | ros2_ws/src/direct_lidar_inertial_odometry/include/nano_gicp/nanoflann.h:1462-1481 | distinct indices with their true distances, sorted, equal to the k smallest of a brute-force scan, for every point set, query and k >= 1 |
| `KdSearch.BruteForceCount` | ros2_ws/src/direct_lidar_inertial_odometry/include/nano_gicp/nanoflann.h:1467-1470 | the count is min(k, number of points) when all distances are below the largest representable one |
| `Grids.CellCostAtLeastOne` | ros2_ws/src/a_star_mpc_planner/a_star_mpc_planner/a_star_planner.py:340-355 | the cell multiplier is never below 1 |
| `Grids.SurchargeLaw` | ros2_ws/src/a_star_mpc_planner/a_star_mpc_planner/a_star_planner.py:340-355 | the surcharge of an open cell is to the weight as the squared map value is to the squared threshold; a stepped-over cell has the fixed surcharge |
| `Grids.NoSurchargeIsExact` | ros2_ws/src/a_star_mpc_planner/a_star_mpc_planner/a_star_planner.py:340-355 | an open cell has no surcharge if and only if the weight or its map value is 0 |
| `Grids.SurchargeGrows` | ros2_ws/src/a_star_mpc_planner/a_star_mpc_planner/a_star_planner.py:340-355 | with a positive weight the price grows strictly with a non-negative map value, fourfold surcharge for twice the value, and stays below one full weight |
| `Grids.SurchargeNearsWeight` | ros2_ws/src/a_star_mpc_planner/a_star_mpc_planner/a_star_planner.py:340-355 | near the threshold the surcharge is within the squared share of the weight |
| `Grids.FreeIsExact` | ros2_ws/src/a_star_mpc_planner/a_star_mpc_planner/a_star_planner.py:313-338 | which cells are free, from the map value and the height layer alone |
| `Grids.StepIsExact` | ros2_ws/src/a_star_mpc_planner/a_star_mpc_planner/a_star_planner.py:284-297 | the moves: to the eight cells around, free, and diagonally only past two free corners |
| `Grids.StepCostSquared` | ros2_ws/src/a_star_mpc_planner/a_star_mpc_planner/a_star_planner.py:299-301 | the price of a move is its straight-line length in metres times the multiplier of the cell entered |
| `Grids.EstimateSquared` | ros2_ws/src/a_star_mpc_planner/a_star_mpc_planner/a_star_planner.py:357-364 | the estimate is the straight-line distance to the goal in metres |
| `Grids.HIsConsistent` | ros2_ws/src/a_star_mpc_planner/a_star_mpc_planner/a_star_planner.py:357-364 | the straight-line estimate drops by at most the price of a move, diagonal or not, for every cost layer |
| `BestFirst.TrailIsPath` | ros2_ws/src/a_star_mpc_planner/a_star_mpc_planner/a_star_planner.py:414-423 | the parent chain of a node is a path from the start whose price is the recorded g |
| `BestFirst.LeastIsOptimal` | ros2_ws/src/a_star_mpc_planner/a_star_mpc_planner/a_star_planner.py:273-282 | the least entry of the heap, when not yet closed, carries the least cost of any path to its cell |
| `BestFirst.Settle` | ros2_ws/src/a_star_mpc_planner/a_star_mpc_planner/a_star_planner.py:273-305 | one round of the search keeps the invariant: genuine open entries, optimal closed cells, and an open or closed neighbour at the right price for every edge out of the closed set |
| `BestFirst.ExhaustedMeansUnreachable` | ros2_ws/src/a_star_mpc_planner/a_star_mpc_planner/a_star_planner.py:273-307 | an empty heap proves that no path leads to an unclosed cell |
| `BestFirst.StayingIsCheapest` | ros2_ws/src/a_star_mpc_planner/a_star_mpc_planner/a_star_planner.py:144-147 | with a consistent estimate no round trip beats staying |
| `AStar.Neighbors` | ros2_ws/src/a_star_mpc_planner/a_star_mpc_planner/a_star_planner.py:284-305 | the entries pushed are genuine, priced by the entered cell, and cover every admissible edge that is not closed, with both corner cells free on a diagonal |
| `AStar.ExtractPath` | ros2_ws/src/a_star_mpc_planner/a_star_mpc_planner/a_star_planner.py:414-423 | the list built backwards and reversed is the parent chain from start to goal |
| `AStar.Search` | ros2_ws/src/a_star_mpc_planner/a_star_mpc_planner/a_star_planner.py:253-307 | the search terminates; it returns a cheapest path of the grid graph, and None exactly when the goal is unreachable |
| `AStar.CheapestByTheMap` | ros2_ws/src/a_star_mpc_planner/a_star_mpc_planner/a_star_planner.py:253-307 | what is found is a path of moves from start to goal, and no other has a smaller sum of lengths in metres times multipliers, both taken from the raw values of the map |
| `Sight.LineEnds` | ros2_ws/src/a_star_mpc_planner/a_star_mpc_planner/a_star_planner.py:391-412 | the rounded line starts and ends at its end points |
| `Sight.LineIsClose` | ros2_ws/src/a_star_mpc_planner/a_star_mpc_planner/a_star_planner.py:391-412 | every cell of the line is within half a cell of the ideal line |
| `Sight.LineIsRounded` | ros2_ws/src/a_star_mpc_planner/a_star_mpc_planner/a_star_planner.py:391-412 | the t-th cell is exactly the point of the segment at t of max(|dx|, |dy|) equal steps with both coordinates rounded to the nearest integer, halves toward the start |
| `Sight.TraceProgress` | ros2_ws/src/a_star_mpc_planner/a_star_mpc_planner/a_star_planner.py:395-412 | the invariant of the error term after any number of turns |
| `Sight.TraceIsLine` | ros2_ws/src/a_star_mpc_planner/a_star_mpc_planner/a_star_planner.py:395-412 | the error-term loop visits exactly the cells of the rounded line and overshoots neither axis |
| `Sight.TraceEnds` | ros2_ws/src/a_star_mpc_planner/a_star_mpc_planner/a_star_planner.py:395-412 | the target is met after exactly max(|dx|, |dy|) turns and not before |
| `Sight.LineOfSight` | ros2_ws/src/a_star_mpc_planner/a_star_mpc_planner/a_star_planner.py:391-412 | the loop terminates and answers whether every cell of the line is free |
| `Shortcuts.ShortcutPath` | ros2_ws/src/a_star_mpc_planner/a_star_mpc_planner/a_star_planner.py:366-389 | string-pulling keeps both end points and an increasing selection of the path, each segment reaching as far as sight allows |
| `Shortcuts.SegmentsAreSafe` | ros2_ws/src/a_star_mpc_planner/a_star_mpc_planner/a_star_planner.py:366-389 | each output segment is an original step or a checked line of sight |
| `Shortcuts.GreedyIsUnique` | ros2_ws/src/a_star_mpc_planner/a_star_mpc_planner/a_star_planner.py:366-389 | only one selection has that property |
| `FreeCells.UnvisitedIsFarther` | ros2_ws/src/a_star_mpc_planner/a_star_mpc_planner/a_star_planner.py:425-443 | the layer order of the queue: a cell not yet visited is farther than the head, because hops in the square grid are Chebyshev distance |
| `FreeCells.NextLayer` | ros2_ws/src/a_star_mpc_planner/a_star_mpc_planner/a_star_planner.py:433-442 | dequeuing a blocked head and enqueuing its unvisited neighbours keeps the layer order |
| `FreeCells.NearestFree` | ros2_ws/src/a_star_mpc_planner/a_star_mpc_planner/a_star_planner.py:425-443 | from a cell of the grid, the first free cell in breadth-first order; it has least Chebyshev distance, and there is none exactly when no cell is free |
| `FreeCells.StraightFirst` | ros2_ws/src/a_star_mpc_planner/a_star_mpc_planner/a_star_planner.py:425-443 | around a blocked cell the four straight neighbours are preferred to the four diagonal ones, in the fixed order |
| `FreeCells.EnqueueNeighbours` | ros2_ws/src/a_star_mpc_planner/a_star_mpc_planner/a_star_planner.py:437-442 | the unvisited neighbours in the grid are appended in the fixed order of moves |
| `Inflation.NearestHitIsMinimum` | ros2_ws/src/a_star_mpc_planner/a_star_mpc_planner/gaussian_grid_map.py:262-275 | the distance layer is the least distance to an occupied cell |
| `Inflation.RasterIsExact` | ros2_ws/src/a_star_mpc_planner/a_star_mpc_planner/gaussian_grid_map.py:182-275 | a cell is occupied if and only if it is in the grid and its box holds an obstacle point within half the width of the robot on both axes, the upper side excluded |
| `Inflation.MapIsExact` | ros2_ws/src/a_star_mpc_planner/a_star_mpc_planner/gaussian_grid_map.py:262-293 | the value of every cell of an updated map: the cost by the distance to a nearest cell that a point hits, and 0 when no cell is hit |
| `Inflation.CostIsExact` | ros2_ws/src/a_star_mpc_planner/a_star_mpc_planner/gaussian_grid_map.py:277-293 | the cost by distance: 1 up to the robot radius, the decaying exponential in thirds of the band, 0 beyond the inflation radius |
| `Inflation.CostFalls` | ros2_ws/src/a_star_mpc_planner/a_star_mpc_planner/gaussian_grid_map.py:277-293 | moving away from the obstacles never costs more |
| `Inflation.BelowThresholdIsClear` | ros2_ws/src/a_star_mpc_planner/a_star_mpc_planner/gaussian_grid_map.py:277-291 | for a threshold above the soft maximum, a cost is below it if and only if the cell is farther than the robot radius from every occupied cell |
| `Inflation.FreeIsClear` | ros2_ws/src/a_star_mpc_planner/a_star_mpc_planner/gaussian_grid_map.py:137-292 | with stepping over disabled, a cell of the updated map is free if and only if it is in the grid and clear of every occupied cell |
| `Inflation.FreeIsFarFromPoints` | ros2_ws/src/a_star_mpc_planner/a_star_mpc_planner/gaussian_grid_map.py:137-293 | the same in terms of the points: free if and only if in the grid and, centre to centre, farther than the robot radius from every cell that an obstacle point around the robot hits |
| `Planners.LocatedInBox` | ros2_ws/src/a_star_mpc_planner/a_star_mpc_planner/gaussian_grid_map.py:298-307 | a point is located in a cell if and only if the cell is in the grid and its box holds the point; the boxes of index 0 reach one step below the origin |
| `Planners.RoundTrip` | ros2_ws/src/a_star_mpc_planner/a_star_mpc_planner/gaussian_grid_map.py:298-314 | the coordinates handed out for a cell of the grid lead back to that cell |
| `Planners.CornerIsLowest` | ros2_ws/src/a_star_mpc_planner/a_star_mpc_planner/gaussian_grid_map.py:309-314 | they are the lowest corner of the cell, not its centre |
| `Planners.HitIsLocated` | ros2_ws/src/a_star_mpc_planner/a_star_mpc_planner/gaussian_grid_map.py:262-307 | the updated map locates a point around the robot in the very cell it would hit |
| `Planners.RayLimitIsFarthest` | ros2_ws/src/a_star_mpc_planner/a_star_mpc_planner/a_star_planner.py:223-239 | the segment toward an outside goal is followed exactly as far as it stays on the grid |
| `Planners.BoundaryIsOnRay` | ros2_ws/src/a_star_mpc_planner/a_star_mpc_planner/a_star_planner.py:207-247 | from a cell of the grid the boundary cell is the truncated point at 0.97 of the followed segment, and the final clamp changes nothing |
| `Planners.AimIsExact` | ros2_ws/src/a_star_mpc_planner/a_star_mpc_planner/a_star_planner.py:169-247 | a goal in the grid is aimed at in its own cell; one outside in the cell that holds the point at 0.97 of the part of the segment that stays on the grid |
| `Planners.LocalGoal` | ros2_ws/src/a_star_mpc_planner/a_star_mpc_planner/a_star_planner.py:169-205 | the first free cell in breadth-first order around the aimed cell: a free cell nearest to it; none exactly when the grid has no free cell |
| `Planners.LocalGoalInSquare` | ros2_ws/src/a_star_mpc_planner/a_star_mpc_planner/a_star_planner.py:169-205 | no square around the aimed cell holds a free cell without holding the local goal |
| `Planners.ShortenedIsFree` | ros2_ws/src/a_star_mpc_planner/a_star_mpc_planner/a_star_planner.py:366-389 | after shortening, every cell on the lines between waypoints is free except possibly the start cell |
| `Planners.Plan` | ros2_ws/src/a_star_mpc_planner/a_star_mpc_planner/a_star_planner.py:103-163 | a returned path is a cheapest path to the local goal, greedily shortened and in world coordinates; None if and only if the robot is off the grid, no cell is free, or the local goal is unreachable |
| `Planners.PlanKeepsClear` | ros2_ws/src/a_star_mpc_planner/a_star_mpc_planner/a_star_planner.py:103-163 | every cell between consecutive waypoints, except possibly the start cell, is farther than the robot radius from the cell of every obstacle point around the robot |
| `Clusters.Forest.Find` | ros2_ws/src/a_star_mpc_planner/a_star_mpc_planner/mpc_node.py:754-758 | path halving terminates and changes no representative |
| `Clusters.Forest.Union` | ros2_ws/src/a_star_mpc_planner/a_star_mpc_planner/mpc_node.py:760-763 | exactly the two classes are merged, all others are untouched |
| `Clusters.HalvePath` | ros2_ws/src/a_star_mpc_planner/a_star_mpc_planner/mpc_node.py:755-757 | pointing a node at its grandparent keeps a forest with the same representatives |
| `Clusters.RepIsConnected` | ros2_ws/src/a_star_mpc_planner/a_star_mpc_planner/mpc_node.py:751-772 | once every pair of neighbours is united, equal representatives mean joined by a chain of adjacent occupied cells, and conversely |
| `Clusters.ConnectedIsTrail` | ros2_ws/src/a_star_mpc_planner/a_star_mpc_planner/mpc_node.py:742-749 | chains of occupied cells are the same as trails of touching points, with the boxes of the points given by the cell size |
| `Clusters.BuildForest` | ros2_ws/src/a_star_mpc_planner/a_star_mpc_planner/mpc_node.py:751-772 | the double loop over neighbours settles every pair of occupied cells |
| `Clusters.ClusterPoints` | ros2_ws/src/a_star_mpc_planner/a_star_mpc_planner/mpc_node.py:729-781 | two points share a label if and only if a trail of points joins them, each lying in the same or an adjacent box as the next; the labels are exactly 0 .. n - 1 |
| `Clusters.LabelPoints` | ros2_ws/src/a_star_mpc_planner/a_star_mpc_planner/mpc_node.py:774-781 | labels number the representatives without gaps in order of first appearance |
| `ObstacleSelection.Lead` | ros2_ws/src/a_star_mpc_planner/a_star_mpc_planner/mpcc_tracker.py:197-208 | the first pass takes the nearest point of every occupied sector, once each, and at most n of them |
| `ObstacleSelection.Fill` | ros2_ws/src/a_star_mpc_planner/a_star_mpc_planner/mpcc_tracker.py:209-216 | the second pass fills up to min(close, n) distinct points and leaves out none nearer than a filler |
| `ObstacleSelection.SelectObsPoints` | ros2_ws/src/a_star_mpc_planner/a_star_mpc_planner/mpcc_tracker.py:165-223 | for n >= 1 exactly n rows: leaders of all occupied sectors, nearest fillers, then sentinels; for n = 0 the nearest close point, if there is one |
| `ObstacleSelection.CloseIsExact` | ros2_ws/src/a_star_mpc_planner/a_star_mpc_planner/mpcc_tracker.py:179-189 | the close points are exactly the finite ones within the radius, each as often as given |
| `ObstacleSelection.SectorIsExact` | ros2_ws/src/a_star_mpc_planner/a_star_mpc_planner/mpcc_tracker.py:193-195 | the sector is the angle fraction, the nearer end when out of range |
| `ObstacleSelection.RowsAnswer` | ros2_ws/src/a_star_mpc_planner/a_star_mpc_planner/mpcc_tracker.py:165-223 | every row point is a given one, finite and within the radius, and every such point has a row point in its sector that is not farther |
| `ObstacleSelection.RowCountIsExact` | ros2_ws/src/a_star_mpc_planner/a_star_mpc_planner/mpcc_tracker.py:178-223 | the number of rows is n if and only if n >= 1 or no point is close |
| `ObstacleSelection.ZeroTargetGivesARow` | ros2_ws/src/a_star_mpc_planner/a_star_mpc_planner/mpcc_tracker.py:197-208 | with n = 0 and one close point, that point is returned |
| `Heights.LowIsLowest` | ros2_ws/src/g1_local_map/g1_local_map/ground_segmentation.py:124-125 | the accumulated minimum is a lower bound and is attained |
| `GroundSegmentation.Shift` | ros2_ws/src/g1_local_map/g1_local_map/ground_segmentation.py:138-143 | the slice assignment is the grid moved by one offset, infinite where nothing moves in, for every width and depth |
| `GroundSegmentation.MinPool` | ros2_ws/src/g1_local_map/g1_local_map/ground_segmentation.py:133-144 | the eight shifted minima give at each cell the least entry over the nine offsets |
| `GroundSegmentation.PoolIsGround` | ros2_ws/src/g1_local_map/g1_local_map/ground_segmentation.py:124-146 | pooled minima of populated cells equal the lowest height over the points of the populated 3x3 neighbourhood |
| `GroundSegmentation.MovedGround` | ros2_ws/src/g1_local_map/g1_local_map/ground_segmentation.py:117-119 | that ground does not depend on where the grid is counted from |
| `GroundSegmentation.CellMinima` | ros2_ws/src/g1_local_map/g1_local_map/ground_segmentation.py:123-129 | unbuffered minimum, count and mask give the lowest point of each populated cell and infinity elsewhere |
| `GroundSegmentation.SegmentGround` | ros2_ws/src/g1_local_map/g1_local_map/ground_segmentation.py:69-157 | above the sparse cutoff the points kept, in order, are those whose rise over the point-by-point ground is in the band, fail-open cells measured from the foot; below it only points too high are dropped; without a cutoff an empty cloud fails |
| `GroundSegmentation.ObstaclesAreKept` | ros2_ws/src/g1_local_map/g1_local_map/ground_segmentation.py:69-157 | the points kept are, in order, exactly those that stand above the band over some point telling their ground and not above the limit over any, where a point tells the ground of another when their boxes touch and its own box is populated; where none does, the same over the foot |
| `GroundSegmentation.LowAreKept` | ros2_ws/src/g1_local_map/g1_local_map/ground_segmentation.py:101-110 | below the sparse cutoff, exactly the points not too far above the foot |
| `ObstacleSegmentation.UniqueKeys` | ros2_ws/src/a_star_mpc_planner/a_star_mpc_planner/gaussian_grid_map.py:130-132 | distinct keys in order with the start of each stretch of equal keys |
| `ObstacleSegmentation.GroupMinimum` | ros2_ws/src/a_star_mpc_planner/a_star_mpc_planner/gaussian_grid_map.py:128-134 | the minimum of a stretch of the sorted heights is the lowest height among all points with that key |
| `ObstacleSegmentation.SegmentObstacles` | ros2_ws/src/a_star_mpc_planner/a_star_mpc_planner/gaussian_grid_map.py:112-135 | in order, exactly the points more than height above the lowest point with their packed key |
| `ObstacleSegmentation.KeptByKey` | ros2_ws/src/a_star_mpc_planner/a_star_mpc_planner/gaussian_grid_map.py:112-135 | the points kept are, in order, exactly those more than height above some point whose box is packed into the same key |
| `ObstacleSegmentation.KeyedIsPerCellExactly` | ros2_ws/src/a_star_mpc_planner/a_star_mpc_planner/gaussian_grid_map.py:125-135 | grouping by key gives the per-cell verdict for all heights of the points if and only if no two occupied cells share a key or the height is negative |
| `ObstacleSegmentation.NarrowCloudIsPerCell` | ros2_ws/src/a_star_mpc_planner/a_star_mpc_planner/gaussian_grid_map.py:112-135 | for a cloud narrower than 1,000,003 cells in y the filter keeps exactly the points that rise above their own cell |
| `ObstacleSegmentation.KeptByBox` | ros2_ws/src/a_star_mpc_planner/a_star_mpc_planner/gaussian_grid_map.py:112-135 | for such a cloud: exactly those more than height above some point of their own box |
| `ObstacleSegmentation.WideCollides` | ros2_ws/src/a_star_mpc_planner/a_star_mpc_planner/gaussian_grid_map.py:127-128 | at that width two cells do share a key |
| `Submaps.SubmapBuilder.KthDistance` | ros2_ws/src/direct_lidar_inertial_odometry/src/dlio/odom.cc:1649-1662 | the top of the bounded heap separates the positions with fewer than min(k, n) strictly nearer ones from all others |
| `Submaps.ReplaceHolds` | ros2_ws/src/direct_lidar_inertial_odometry/src/dlio/odom.cc:1652-1656 | pushing and popping keeps the heap counting like the distances seen, up to its capacity |
| `Submaps.SubmapBuilder.PushSubmapIndices` | ros2_ws/src/direct_lidar_inertial_odometry/src/dlio/odom.cc:1644-1670 | appends, in order, exactly the frames among the k nearest, all ties at the last distance included |
| `Submaps.SetDetermines` | ros2_ws/src/direct_lidar_inertial_odometry/src/dlio/odom.cc:1717-1726 | sorted lists without duplicates are equal if and only if they hold the same frames |
| `Submaps.SubmapBuilder.BuildSubmap` | ros2_ws/src/direct_lidar_inertial_odometry/src/dlio/odom.cc:1672-1760 | the submap list is the strictly increasing union of the three selections, and the change flag is raised exactly when that set differs from the previous one |
| `Submaps.SubmapByDistance` | ros2_ws/src/direct_lidar_inertial_odometry/src/dlio/odom.cc:1672-1715 | a frame belongs to the submap if and only if fewer than k frames are strictly nearer, among all frames or within one of the hulls it is on; a negative k is no limit |
| `ImuWindows.ImuMeasFromTimeRange` | ros2_ws/src/direct_lidar_inertial_odometry/src/dlio/odom.cc:1041-1075 | the range is found if and only if some sample predates the start; it begins at the newest such sample and ends at the oldest sample not before the end |
| `ImuWindows.IntegrateImuInternal` | ros2_ws/src/direct_lidar_inertial_odometry/src/dlio/odom.cc:1168-1245 | one frame per timestamp, in order, each between the two adjacent samples around it |
| `ImuWindows.IntegrateImu` | ros2_ws/src/direct_lidar_inertial_odometry/src/dlio/odom.cc:1077-1151 | one frame per timestamp, or none when there is no timestamp, the start is after the first of them, or no sample predates the start |
| `ImuWindows.BracketsIsUnique` | ros2_ws/src/direct_lidar_inertial_odometry/src/dlio/odom.cc:1208-1210 | only one pair of adjacent samples brackets a timestamp |
| `Navigation.HysteresisIsExact` | ros2_ws/src/a_star_mpc_planner/a_star_mpc_planner/mpc_node.py:872-921 | security mode is on if and only if some engage run occurred and no clear run has occurred since; the counters are the trailing runs |
| `Navigation.SecurityIsHysteresis` | ros2_ws/src/a_star_mpc_planner/a_star_mpc_planner/mpc_node.py:1258-1284 | over every run of goals, poses, paths and solves the mode follows the readings taken, and the SECURITY state implies that they ask for it |
| `Navigation.StateFollowsHistory` | ros2_ws/src/a_star_mpc_planner/a_star_mpc_planner/mpc_node.py:499-523 | over every run the goal, pose and path the node works with are the ones its messages say |
| `Navigation.ReachedIsHeld` | ros2_ws/src/a_star_mpc_planner/a_star_mpc_planner/mpc_node.py:1142-1171 | over every run the node is in GOAL_REACHED if and only if some solve found the robot arrived and neither a new goal nor a solve without a pose in time has come since |
| `Navigation.PublishedByHistory` | ros2_ws/src/a_star_mpc_planner/a_star_mpc_planner/mpc_node.py:1111-1284 | what every event of every run publishes, from the history before it: zero without a pose in time or while held, the heading error or zero at the goal, zero without a path in time, otherwise exactly the command of the solver |
| `Navigation.StateByHistory` | ros2_ws/src/a_star_mpc_planner/a_star_mpc_planner/mpc_node.py:1111-1284 | the navigation state after every event of every run, case by case from the history before it |
| `Navigation.SecurityIsEntered` | ros2_ws/src/a_star_mpc_planner/a_star_mpc_planner/mpc_node.py:1258-1284 | after a solve that reaches the check the node is in SECURITY if and only if the hysteresis over all readings taken is on |
| `Navigation.ArrivalIsGenuine` | ros2_ws/src/a_star_mpc_planner/a_star_mpc_planner/mpc_node.py:1142-1171 | over every run a node in GOAL_REACHED did arrive: some solve had a pose in time inside the goal radius and, if asked for, on heading, the goal is the same since, and every solve since published zero |
| `Navigation.HoldLasts` | ros2_ws/src/a_star_mpc_planner/a_star_mpc_planner/mpc_node.py:1144-1147 | while nothing ends the hold every solve publishes zero and the state stays GOAL_REACHED |
| `Navigation.HoldIsExact` | ros2_ws/src/a_star_mpc_planner/a_star_mpc_planner/mpc_node.py:1114-1147 | the hold lasts through a run if and only if no event is an accepted new goal or a solve with a stale pose |
| `Navigation.ZeroUntilNewGoalIsExact` | ros2_ws/src/a_star_mpc_planner/a_star_mpc_planner/mpc_node.py:1114-1185 | over a run without an accepted goal, after arrival every solve publishes zero if and only if no solve that would act follows a stale one without an arrival in between |
| `Navigation.StalePoseBreaksHold` | ros2_ws/src/a_star_mpc_planner/a_star_mpc_planner/mpc_node.py:1117-1126 | the documented latch until a new goal does not hold: after one stale pose the robot can be driven again with no goal message |
| `Navigation.ReachedGoalIsLeft` | ros2_ws/src/a_star_mpc_planner/a_star_mpc_planner/mpc_node.py:1117-1185 | such a run from start-up, with one goal message in all |
| `Navigation.MpcNode.SecurityEscape` | ros2_ws/src/a_star_mpc_planner/a_star_mpc_planner/mpc_node.py:872-921 | the counters and the mode move by the specified step |
| `Navigation.MpcNode.OnSolve` | ros2_ws/src/a_star_mpc_planner/a_star_mpc_planner/mpc_node.py:1111-1284 | a solve moves the node exactly as the transition system says and publishes what it says |
| `Navigation.MpcNode.OnGoal` | ros2_ws/src/a_star_mpc_planner/a_star_mpc_planner/mpc_node.py:499-523 | a goal message is ignored exactly when it is a duplicate |
| `Bridge.ApproachIsLimited` | ros2_ws/src/g1_sim_bridge/g1_sim_bridge/unitree_loco.py:91-100 | a step changes the value by at most rate * dt and stays between the old value and the target |
| `Bridge.VelocitySmoother.Step` | ros2_ws/src/g1_sim_bridge/g1_sim_bridge/unitree_loco.py:102-111 | all three axes approach the ramped command |
| `Bridge.VelocityBridge.OnTwist` | ros2_ws/src/g1_sim_bridge/g1_sim_bridge/cmd_vel_to_unitree_loco_node.py:163-170 | the command is stored, stamped and the time-out flag cleared, as the transition system says; what is stored is pinned down by the next row |
| `Bridge.CommandFollowsHistory` | ros2_ws/src/g1_sim_bridge/g1_sim_bridge/cmd_vel_to_unitree_loco_node.py:163-206 | over every run the stored command is the latest twist since the latest stop, per axis itself within the cap and otherwise the cap of the same sign, and zero if there is none; the ramp counts from that stop |
| `Bridge.TicksTrack` | ros2_ws/src/g1_sim_bridge/g1_sim_bridge/unitree_loco.py:91-111 | over every run a smoothing tick moves each axis from the velocity last sent toward the ramped command asked for: by alpha times the gap when that fits the limit, otherwise by the whole limit |
| `Bridge.CommandIsReached` | ros2_ws/src/g1_sim_bridge/g1_sim_bridge/unitree_loco.py:91-111 | for every tolerance there is a number of ticks after which a repeated command is reached within it, capped, whatever the run before, given positive alpha and acceleration and ticks past the ramp with time between them |
| `Bridge.RampIsExact` | ros2_ws/src/g1_sim_bridge/g1_sim_bridge/unitree_loco.py:105-106 | the ramp is the elapsed share of its length, and 1 after it or without one |
| `Bridge.VelocityBridge.OnEstop` | ros2_ws/src/g1_sim_bridge/g1_sim_bridge/cmd_vel_to_unitree_loco_node.py:172-182 | only a change of the latch acts; engaging clears the command, resets the smoother and stops |
| `Bridge.VelocityBridge.OnTick` | ros2_ws/src/g1_sim_bridge/g1_sim_bridge/cmd_vel_to_unitree_loco_node.py:184-206 | the tick follows the transition system |
| `Bridge.AlwaysConsistent` | ros2_ws/src/g1_sim_bridge/g1_sim_bridge/cmd_vel_to_unitree_loco_node.py:163-206 | after every run the smoother stands at the velocity last sent, at zero while latched, within the caps, and flags and stamps agree with the history |
| `Bridge.RunIsSafe` | ros2_ws/src/g1_sim_bridge/g1_sim_bridge/cmd_vel_to_unitree_loco_node.py:163-206 | in every interleaving what is sent is within the caps; a tick always sends, zero when latched or stale and otherwise at most the acceleration limit times the tick interval from the velocity last sent, per axis; besides ticks only engaging the e-stop sends, and it sends zero |
| `Bridge.BareIntervalIsExact` | ros2_ws/src/g1_sim_bridge/g1_sim_bridge/cmd_vel_to_unitree_loco_node.py:184-206 | over every run the change of a smoothing tick is bounded by the bare interval if and only if time has passed or every axis has no low-pass step to take toward the ramped command asked for, or no acceleration |
| `Bridge.ZeroIntervalStillMoves` | ros2_ws/src/g1_sim_bridge/g1_sim_bridge/unitree_loco.py:103-104 | a run that breaks the bare bound: one configuration, one tick with no time passed |
| `JointFilters.NoOvershootIsExact` | amo/joint_filters.py:77-85 | from rest toward a constant target the error keeps its sign, over any number of steps, if and only if w = wn * dt satisfies w^2 + 2w <= 2 |
| `JointFilters.CalmIsExact` | amo/joint_filters.py:77-85 | under exactly the same condition every step also leaves the error no larger |
| `JointFilters.SomeNegative` | amo/joint_filters.py:77-85 | past the bound the two-term recurrence of the errors makes one of them negative: non-negative even errors stay above a scale by which the odd ones fall every round |
| `JointFilters.ContainmentIsExact` | amo/joint_filters.py:77-85 | from rest the filter stays in every interval that holds its start and all targets, however the targets move, under exactly the same condition |
| `JointFilters.DipOvershoots` | amo/joint_filters.py:77-85 | past the bound a one-step dip of the target throws the filter over the top |
| `JointFilters.ConeStep` | amo/joint_filters.py:77-85 | one step stays in the invariant cone |
| `JointFilters.AlphaIsAWeight` | amo/joint_filters.py:36-40 | the exponential weight is in [0, 1], and tau <= 0 passes the target through |
| `JointFilters.WeightIsExact` | amo/joint_filters.py:36-51 | the step of the exponential filter is to the gap as the period is to the period plus tau |
| `JointFilters.PositionsObey` | amo/joint_filters.py:77-85 | three successive positions obey the discrete second-order law with stiffness w^2 and damping 2w, whatever the targets |
| `JointFilters.EwmaFilter.Step` | amo/joint_filters.py:45-51 | every joint moves to the weighted mean; without a reset the first target comes back unchanged |
| `JointFilters.CriticallyDampedFilter.Step` | amo/joint_filters.py:77-85 | velocity first, then position, for every joint; without a reset the filter rests on the target |
| `JointSmoothers.SmoothstepIsAnEasing` | amo/activation_utils.py:14-21 | the easing runs from 0 to 1, stays in between and is symmetric |
| `JointSmoothers.EasingRise` | amo/activation_utils.py:14-21 | how the easing rises between two points: it never falls, and starts flat |
| `JointSmoothers.TickByLayers` | amo/joint_filters.py:198-231 | one tick layer by layer: the eased share of the blend, the step of the filter by kind, the clamped step toward its output by the gap or the clamp if that is less, and the released share fading both |
| `JointSmoothers.StepStaysInside` | amo/joint_filters.py:198-231 | blend, filter, release and clamp keep every interval that holds the state and the raw target |
| `JointSmoothers.RunIsSmooth` | amo/joint_filters.py:157-231 | over every run: the first command is the measured posture, until release no command moves a joint by more than the clamp, commands stay in every interval holding the posture and the raw targets, and after release the raw target passes through |
| `JointSmoothers.StackContainmentIsExact` | amo/joint_filters.py:198-231 | whatever the blend, clamp and release settings, the commands stay in every interval holding the posture and the raw targets if and only if the filter is tuned; a dip small enough passes the clamp |
| `JointSmoothers.StackIsFilter` | amo/joint_filters.py:198-231 | without blend, clamp and release the commands of every run are the positions of the critically damped filter |
| `JointSmoothers.JointSmoother.Reset` | amo/joint_filters.py:157-163 | every layer starts at the measured posture |
| `JointSmoothers.JointSmoother.Step` | amo/joint_filters.py:198-231 | every joint advances as specified and the command vector is what is remembered |

## Left out

- ImuWindows.IntegrateImuInternal: does not model the pose values, only which samples each frame is
  integrated from.
- ImuWindows.IntegrateImu: does not model the backward integration to the first sample, only which
  timestamps are answered and from which samples.
- Submaps.SubmapBuilder.BuildSubmap: the hulls are arbitrary lists of valid frames; assembling the clouds
  and normals of the selected frames is not modelled.
- ObstacleSegmentation.SegmentObstacles: does not model 64-bit wrap-around of the packed key, nor clouds
  without a height column, which are returned unchanged.
- Early exits of the k-d tree search: adding a point always asks to continue, so they cannot happen.
- The radius result set, the dynamic index adaptors, the other metrics, saving and loading, and the memory
  pool of the k-d tree; asking before the index is built, which throws.
- The diagonal corner rule on the shortened path: the search enforces it, line of sight does not check
  corners.
- Out-of-grid coordinates less than one cell below the origin, which truncation maps to index 0, are
  modelled as the code treats them and not as an error.
- A planner call before the first map update, which returns None at once.
- Rounding, overflow and not-a-number values of floating point arithmetic; non-finite points enter only
  the obstacle selection, which drops them.
- The direction of the security escape, the soft hold, adaptive velocity limits, obstacle prediction, the
  optimiser, path smoothing and the fitted reference.
- Gain ramps and the parsing of filter names in the joint smoother.
- The normalisation of the gravity direction and the diagnostics record of the ground filter.
- Threads, locks and waiting in the odometry: a wait is a precondition.
- Middleware callbacks, drivers, simulation scripts, mapping and logging.
