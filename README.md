# Grid path search, modelled in Dafny

This project models the core of a small Java path-finding framework. The search space is a
bounded width-by-height grid of cells. A controller sets up a grid for one of three search
algorithms. It places a start cell, a finish cell and obstacle lines, which are rasterised with
Bresenham's line algorithm. Then it runs breadth-first search, recursive depth-first search or
A*. A search moves between the eight compass neighbours of a cell. With corner cutting
forbidden, which is how every strategy calls it, a diagonal move needs both flanking
orthogonal cells to be free. When the finish is reached, the path builder walks the parent
links back from the finish. It returns the cells from just after the start to the finish, and
it stamps every intermediate cell with a waypoint status that points along the path.

Modules, one per part of the program:

- `Directions` (`direction.dfy`): the eight directions, with offsets, abbreviations, move
  costs 10 and 15, rotation, negation and the lookups by offset and by abbreviation.
- `NodeStatuses` (`node_status.dfy`): the thirteen cell statuses, their symbols and the
  directed waypoints.
- `Nodes` (`node.dfy`): one `Node` class for the three cell kinds. Its `kind` selects the
  depth-first `visited` flag, the A* fields and the A* override of `SetStatus`. `BuildNode` is
  the node factory.
- `Heuristics` (`manhattan.dfy`): the Manhattan heuristic.
- `CornerCutting` (`corner_cutting.dfy`): the diagonal trim applied to a neighbour map.
- `Bresenham` (`bresenham.dfy`): the rasterising loop of `addObstacle`.
- `Grid` (`search_area.dfy`): the `SearchArea` class and its cells.
- `Paths` (`path_builder.dfy`): `buildSolutionPath`.
- `SearchTrees` (`search_tree.dfy`): what the three strategies share. This covers the move
  graph, walks, discovery trees, and turning a tree of parent links into the builder's answer.
- `BreadthFirst` (`bfs.dfy`), `DepthFirst` (`dfs.dfy`) and `AStarSearch` (`astar.dfy`): the
  three strategies.
- `Controllers` (`controller.dfy`): the `Controller` class.

Modelling decisions:

- An obstacle cell blocks movement. The walkable moves of the grid are stated once, as a move
  graph, in `Grid.SearchArea.IsMoveGraph`. This graph is built from the obstacles as they were
  before the search started. Each strategy is proved against it:
  - a path it returns is a walk of moves from the start that ends at the finish;
  - when it finds no path, the set of cells it reached contains the start, is closed under
    moves and (when the finish is still marked FINISH) does not contain the finish. So no walk
    from the start reaches the finish.
- Breadth-first search additionally proves that the path it returns is a shortest walk: no
  walk of moves from the start reaches the finish in fewer moves (`SearchTrees.NoWalkShorter`).
  The queue stays sorted by depth in the discovery tree, and the finish is dequeued at its
  depth.
- A* additionally proves the following:
  - the open and closed sets stay disjoint;
  - a closed cell keeps its cost and its parent;
  - an open cell's cost never rises;
  - the cost of every opened cell is the move cost of the parent chain leading to it;
  - the returned path costs exactly the cost recorded for the finish.
- The costs g and h that the source keeps in `double` are all integers: 10, 15, Manhattan
  distances, their sums and `Double.MAX_VALUE`, the exact integer `Nodes.MaxValue`. The model
  keeps them as `int`. The total f = g + h is a double sum. `Nodes.RoundSum` rounds it as
  binary64 addition does at the top of the range: a sum less than half a unit in the last
  place above `MaxValue` rounds back to `MaxValue`, and a larger one becomes positive infinity.
  `Nodes.Node.CompareTo` compares these rounded totals.
- A `NullPointerException` or an `IndexOutOfBoundsException` that the source can raise is a
  `Throws` result of the `Outcome` type. A Java `null` result is `None`.
- Where the source iterates over a `HashMap` key set, the model picks the next direction
  arbitrarily with `:|`. This covers every iteration order.
- The open list of A* is a set, and the model closes some open cell. The source's priority
  queue is not re-ordered when it lowers a key in place, so its `peek` need not give the
  cheapest cell. Everything proved about A* holds whichever open cell is chosen.

Behaviour of the code that the model keeps, although the comments suggest otherwise:

- The path never contains the start, although the doc-comment of `buildSolutionPath`
  (trunk/src/controller/algorithm/Algorithm.java:76-78) says that it comes first. When start and
  finish coincide, the path is empty.
- The overlap test in `addObstacle` (src/controller/Controller.java:382-387) compares freshly
  built `Point` objects by reference, so it never rejects a line. An obstacle line may
  overwrite the start or the finish. For this reason the search results are stated relative
  to whether the start and the finish were still marked when the search began.
- `setStart` checks the new cell against the finish only when a start already exists. In that
  case it dereferences a finish that may be null (src/controller/Controller.java:517-520).
  `setFinish` is symmetric (src/controller/Controller.java:588-591). Both raise
  `NullPointer` in the model.
- `executeSearch` stores the corner-cutting flag, but no strategy reads it. All three request
  strict walkable neighbours.
- The A* start cell is its own parent after `setStatus(START)`. The model keeps this.
- An A* strategy built without a heuristic returns `null`, so `executeSearch` answers false.
- `addObstacle(x, y)` on the controller dereferences the area without a null check. It raises
  `NullPointer` before `setUp`.

## Model

| member | source | states |
|---|---|---|
| Directions.FindByOffset | src/model/Direction.java:256-264 | the first-match search over the enumeration returns a listed direction with exactly that offset, and returns none only when no listed direction has it |
| Directions.FromOffset | src/model/Direction.java:256-264 | the direction found has the requested offset; there is none exactly when a component lies outside [-1, 1] or both are 0 |
| Directions.FromOffsetIsSearch | src/model/Direction.java:256-264 | the closed form of the lookup agrees with the first-match search over `values()` on every offset |
| Directions.FromOffsetRoundTrip | src/model/Direction.java:256-264 | looking up a direction's own offset gives back that direction |
| Directions.OppositeDirectionCCW | src/model/Direction.java:167-169 | the opposite direction always exists and has the negated offset |
| Directions.OppositeIsInvolution | src/model/Direction.java:167-169 | the opposite differs from the direction, and taking the opposite twice gives the direction back |
| Directions.TrimStart | src/model/Direction.java:235-244 | the result is a suffix of the input that does not start with a trimmable character |
| Directions.TrimEnd | src/model/Direction.java:235-244 | the result is a prefix of the input that does not end with a trimmable character |
| Directions.TrimPadding | src/model/Direction.java:235-244 | trimming removes exactly the padding around a word that neither starts nor ends with a trimmable character |
| Directions.FindByAbbreviation | src/model/Direction.java:235-244 | the search returns a listed direction whose abbreviation equals the text ignoring case, and none only when no listed direction matches |
| Directions.FromAbbreviation | src/model/Direction.java:235-244 | a missing text gives no direction; a direction found has an abbreviation equal, ignoring case, to the trimmed text |
| Directions.FromAbbreviationRoundTrip | src/model/Direction.java:235-244 | any case variant of a direction's abbreviation, padded with trimmable characters, is looked up as that direction |
| Directions.LongSNamesSouth | src/model/Direction.java:235-244 | the long s (U+017F) names SOUTH, since equalsIgnoreCase folds it to S |
| Directions.AbbreviationsDistinctIgnoringCase | src/model/Direction.java:22-57 | no two directions have abbreviations that are equal ignoring case, so the lookup is unambiguous |
| Directions.DeltasInUnitRange | tags/v_1.0/src/model/Direction.java:141-153 | each delta lies in {-1, 0, 1} and no direction has offset (0, 0) |
| Directions.OffsetsDistinct | src/model/Direction.java:22-57 | two directions with the same offset are the same direction |
| Directions.CostMatchesShape | src/model/Direction.java:22-57 | the move cost is 15 for a diagonal direction and 10 for an orthogonal one |
| Directions.AllDirectionsCount | tags/v_1.0/src/model/Direction.java:21-56 | there are exactly eight directions |
| Directions.ValuesEnumerateAll | src/model/Direction.java:22-57 | `values()` lists all eight directions, each once |
| Directions.AdjacentPointRoundTrip | src/model/Direction.java:146-148 | the adjacent point differs from the point, and its offset from the point is the direction's offset |
| Directions.RotationsAreInverse | src/model/Direction.java:176-225 | a counter-clockwise eighth-turn undoes a clockwise one, and the other way round |
| Directions.RotateCWAdd | src/model/Direction.java:176-197 | m clockwise turns then n clockwise turns equal m + n clockwise turns |
| Directions.RotateCWFullTurn | src/model/Direction.java:176-197 | any whole number of full turns (multiples of eight eighth-turns) is the identity |
| Directions.DiagonalFlanks | src/model/Direction.java:176-225 | both neighbours of a diagonal direction are orthogonal, and their offsets add up to its offset |
| NodeStatuses.FindByName | trunk/src/model/nodes/NodeStatus.java:130-132 | the name search returns a listed status with that name, and none only when no listed status has it |
| NodeStatuses.ValueOf | trunk/src/model/nodes/NodeStatus.java:130-132 | a status found has exactly the given name; none is found only when no status has that name |
| NodeStatuses.InStatusValues | trunk/src/model/nodes/NodeStatus.java:23-83 | every status is among the enumerated values |
| NodeStatuses.StatusValuesEnumerateAll | trunk/src/model/nodes/NodeStatus.java:23-83 | there are exactly thirteen statuses, each listed once |
| NodeStatuses.NamesDistinct | trunk/src/model/nodes/NodeStatus.java:23-83 | two statuses with the same name are equal |
| NodeStatuses.DirectedWaypointByName | trunk/src/model/nodes/NodeStatus.java:130-132 | the directed waypoint for d is named "WAYPOINT_" followed by d's abbreviation, and looking that name up succeeds with it |
| NodeStatuses.SymbolsAreSingleCharacters | trunk/src/model/nodes/NodeStatus.java:119-121 | every symbol is one character long |
| NodeStatuses.SymbolsDistinct | trunk/src/model/nodes/NodeStatus.java:23-83 | two statuses with the same symbol are equal |
| NodeStatuses.IsWaypointByName | src/model/nodes/Node.java:136-138 | a status is a waypoint exactly when its name starts with "WAYPOINT" |
| NodeStatuses.DirectedWaypointIsDirected | trunk/src/model/nodes/NodeStatus.java:130-132 | a directed waypoint is a waypoint, and is none of START, FINISH, OBSTACLE, EMPTY or the plain WAYPOINT |
| NodeStatuses.DirectedWaypointInjective | trunk/src/model/nodes/NodeStatus.java:130-132 | different directions have different directed waypoints |
| Nodes.Node.BFSNode | tags/v_1.0/src/model/nodes/BFSNode.java:22-24 | a new breadth-first cell is at (x, y), EMPTY and without a parent |
| Nodes.Node.DFSNode | trunk/src/model/nodes/DFSNode.java:24-26 | a new depth-first cell is at (x, y), EMPTY, without a parent and not visited |
| Nodes.Node.AStarNode | tags/v_1.0/src/model/nodes/AStarNode.java:45-48 | a new A* cell is at (x, y) and EMPTY, with no parent, g at the maximum, h = 0, and neither open nor closed |
| Nodes.Node.Initialize | tags/v_1.0/src/model/nodes/AStarNode.java:53-59 | resets parent, g, h and both flags to the initial search state, and keeps the status |
| Nodes.Node.SetStatus | tags/v_1.0/src/model/nodes/AStarNode.java:61-79 | the new state of every field is the one `AfterSetStatus` gives for the old state and the new status |
| Nodes.SetStatusInstallsStatus | src/model/nodes/Node.java:96-98 | after setStatus(s) the status is s for every kind of cell, and the visited flag is kept |
| Nodes.SetStatusChangesOnlyStatus | tags/v_1.0/src/model/nodes/AStarNode.java:62-66 | outside A*, and for a waypoint status in A*, only the status changes: parent, g, h and the flags are kept |
| Nodes.SetStatusResetsAStar | tags/v_1.0/src/model/nodes/AStarNode.java:67-78 | a non-waypoint status clears both flags on an A* cell. START then links the cell to itself at g = h = 0; OBSTACLE leaves no parent, g at the maximum and h at the maximum; FINISH and EMPTY leave no parent, g at the maximum and h = 0 |
| Nodes.SetStatusIdempotent | tags/v_1.0/src/model/nodes/AStarNode.java:61-79 | setting the same status twice leaves the same state as setting it once |
| Nodes.StatusQueriesExclusive | src/model/nodes/Node.java:106-149 | exactly one of isStart, isFinish, isObstacle, isWaypoint and isEmpty holds |
| Nodes.Node.IsWaypointCell | src/model/nodes/Node.java:136-138 | a cell is a waypoint exactly when its status name starts with "WAYPOINT" |
| Nodes.Node.SetParent | src/model/nodes/Node.java:168-170 | the parent becomes p, and only the parent field may change |
| Nodes.Node.Symbol | src/model/nodes/Node.java:204-206 | the cell's symbol is its status's symbol and is one character long |
| Nodes.Node.IsNotVisited | trunk/src/model/nodes/DFSNode.java:45-47 | isNotVisited is the negation of isVisited |
| Nodes.Node.SetVisited | trunk/src/model/nodes/DFSNode.java:59-61 | the visited flag becomes v, and only that field may change |
| Nodes.Node.SetCostFromStart | tags/v_1.0/src/model/nodes/AStarNode.java:97-99 | g becomes the given cost, and only g may change |
| Nodes.Node.SetHeuristicCostToFinish | tags/v_1.0/src/model/nodes/AStarNode.java:118-120 | h becomes the given cost, and only h may change |
| Nodes.Node.SetOpen | tags/v_1.0/src/model/nodes/AStarNode.java:148-151 | the cell is open and not closed afterwards |
| Nodes.Node.SetClosed | tags/v_1.0/src/model/nodes/AStarNode.java:166-169 | the cell is closed and not open afterwards |
| Nodes.RoundSum | tags/v_1.0/src/model/nodes/AStarNode.java:130-132 | the double sum of two costs: exact within plus or minus MaxValue; rounded back to MaxValue when less than half a unit in the last place above it; an infinity exactly from that half unit on; never a finite value beyond MaxValue |
| Nodes.BelowTotal | tags/v_1.0/src/model/nodes/AStarNode.java:194-203 | of two totals one is below the other or they are equal, and never both below each other, so compareTo has exactly one answer |
| Nodes.BelowTransitive | tags/v_1.0/src/model/nodes/AStarNode.java:194-203 | the order of doubles on totals is transitive |
| Nodes.RoundReflectsOrder | tags/v_1.0/src/model/nodes/AStarNode.java:130-132 | a sum that rounds below another was below it exactly |
| Nodes.RoundMonotone | tags/v_1.0/src/model/nodes/AStarNode.java:130-132 | rounding never reverses the order of two sums |
| Nodes.SaturatedSums | tags/v_1.0/src/model/nodes/AStarNode.java:130-132 | MaxValue + 5 rounds to MaxValue, like MaxValue itself, and MaxValue + MaxValue overflows to positive infinity |
| Nodes.Node.CompareTo | tags/v_1.0/src/model/nodes/AStarNode.java:194-203 | -1, 0 or 1 exactly when this cell's f, the double sum g + h, is below, equal to or above the other's in the order of doubles; a -1 or 1 also orders the exact sums the same way |
| Nodes.CompareToAntisymmetric | tags/v_1.0/src/model/nodes/AStarNode.java:194-203 | comparing the other way round negates the result |
| Nodes.CompareToTransitive | tags/v_1.0/src/model/nodes/AStarNode.java:194-203 | the order is transitive, and strictly so when either step is strict |
| Nodes.EqualsIsEquivalenceLike | trunk/src/model/nodes/DFSNode.java:63-70 | cell equality is reflexive and symmetric, and equal depth-first cells agree on their visited flag |
| Nodes.BuildNode | tags/v_1.0/src/model/nodes/NodeFactory.java:25-43 | the factory builds a new cell of the requested kind at exactly (x, y), EMPTY and without a parent; an A* cell is in the initial search state |
| Heuristics.Manhattan | trunk/src/controller/heuristic/strategies/Manhattan.java:26-28 | the distance is never negative and is zero exactly when the points coincide |
| Heuristics.ManhattanSymmetric | trunk/src/controller/heuristic/strategies/Manhattan.java:26-28 | the distance is symmetric in its two points |
| Heuristics.ManhattanTriangle | trunk/src/controller/heuristic/strategies/Manhattan.java:26-28 | the distance satisfies the triangle inequality |
| CornerCutting.TrimDiagonal | src/controller/Controller.java:726-744 | d survives the trim exactly when it is present and allowed by its flanks under the flag; every other entry is kept unchanged |
| CornerCutting.TrimKeepsDecisions | src/controller/Controller.java:726-744 | trimming one diagonal does not change whether another diagonal is allowed, so the four trims are independent of their order |
| CornerCutting.TrimsComputeWalkable | src/controller/Controller.java:715-724 | the four trims in the source's order compute exactly the walkable map |
| CornerCutting.WalkableKeepsOrthogonal | src/controller/Controller.java:715-744 | an orthogonal neighbour is always walkable, with the same cell |
| CornerCutting.StrictKeepsDiagonalIffBothFlanks | src/controller/Controller.java:726-744 | without corner cutting, a diagonal survives exactly when it and both flanking orthogonals are present |
| CornerCutting.LenientKeepsDiagonalIffOneFlank | src/controller/Controller.java:726-744 | with corner cutting, a diagonal survives exactly when it and at least one flanking orthogonal are present |
| CornerCutting.WalkableIsSubMap | src/controller/Controller.java:715-744 | the walkable neighbours are a sub-map of the neighbours, and the strict ones a subset of the lenient ones |
| Bresenham.RasterizeLine | src/controller/Controller.java:352-378 | the loop terminates and its points are exactly the Bresenham line from (x0, y0) to (x1, y1), as IsLine characterises it without the loop |
| Bresenham.Step | src/controller/Controller.java:361-378 | one pass of the do-while emits the next point of the line; it either completes the line or keeps the loop state tracing it and strictly advances |
| Bresenham.Pass | src/controller/Controller.java:365-377 | the pass's e2 tests take the x and y steps that keep the next point on the line; when the x step reaches the end, the line is complete with the point added at line 371 |
| Bresenham.Turn | src/controller/Controller.java:365-377 | away from the end, e2 > -dy is a step along x and e2 < dx a step along y exactly as the next line point needs, never past an endpoint |
| Bresenham.Finish | src/controller/Controller.java:362-364 | the pass that starts at the end emits the last point and completes the line |
| Bresenham.ErrStep | src/controller/Controller.java:366-376 | a step along x lowers the error term by dy and a step along y raises it by dx |
| Bresenham.Arrived | src/controller/Controller.java:363 | the loop's coordinate reaches the target on an axis exactly when all that axis's steps are taken |
| Bresenham.PrefixPoints | src/controller/Controller.java:361-378 | every point emitted so far is the line point at its index |
| Bresenham.LineEnds | src/controller/Controller.java:352-378 | a Bresenham line starts at (x0, y0) and ends at (x1, y1) |
| Bresenham.LineInBox | src/controller/Controller.java:352-378 | every point of the line lies in the bounding box of its endpoints |
| Bresenham.LineConnected | src/controller/Controller.java:352-378 | consecutive points of the line are 8-adjacent |
| Bresenham.LineUnique | src/controller/Controller.java:352-378 | there is exactly one Bresenham line between two endpoints |
| Bresenham.NearestUnique | src/controller/Controller.java:365-377 | the nearest minor-axis offset at a step is unique |
| Bresenham.NearestEnds | src/controller/Controller.java:352-378 | the ideal line has offset 0 at the first step and the full minor distance at the last |
| Bresenham.NearestBounds | src/controller/Controller.java:352-378 | between the endpoints the nearest offset stays between 0 and the minor distance |
| Bresenham.NearestStep | src/controller/Controller.java:365-377 | one major-axis step moves the nearest minor offset by 0 or 1 |
| Grid.SearchArea.constructor | src/controller/Controller.java:298-314 | a width-by-height grid whose column x, row y holds a new EMPTY, parentless cell at (x, y), with no start, no finish and no obstacles |
| Grid.SearchArea.CellPosition | src/controller/Controller.java:298-314 | every cell sits in bounds, in the column and row of its own coordinate |
| Grid.SearchArea.CellsDistinct | src/controller/Controller.java:298-314 | distinct cells have distinct coordinates and distinct point objects |
| Grid.SearchArea.GetNode | src/controller/Controller.java:412-418 | there is a cell exactly when (x, y) is in bounds, and it is the cell at (x, y) |
| Grid.SearchArea.CellAt | src/controller/Controller.java:430-432 | an in-bounds coordinate names a cell of the grid at exactly that coordinate |
| Grid.SearchArea.GetNeighbors | src/controller/Controller.java:657-676 | the loop over the eight directions builds exactly the neighbour map |
| Grid.SearchArea.NeighborsExactly | src/controller/Controller.java:657-676 | d maps to the adjacent cell exactly when the cell is in bounds and that adjacent cell is in bounds and not an obstacle |
| Grid.SearchArea.NeighborsBounded | src/controller/Controller.java:657-676 | there are at most eight neighbours, all cells of the grid |
| Grid.SearchArea.GetWalkableNeighbors | src/controller/Controller.java:715-724 | the result is the neighbour map trimmed at the four diagonals under the flag |
| Grid.SearchArea.WalkableStep | src/controller/Controller.java:715-744 | a walkable neighbour is a cell of the grid, not an obstacle, at the adjacent point in its direction |
| Grid.SearchArea.MoveGraph | src/controller/Controller.java:715-724 | the strict walkable neighbours of every cell, for a given set of obstacles, form a move graph |
| Grid.SearchArea.MoveGraphUnique | src/controller/Controller.java:715-724 | the move graph for a set of obstacles is unique |
| Grid.SearchArea.StrictMoveTarget | src/controller/Controller.java:715-744 | the target of a strict move is a cell of the grid and not blocked |
| Grid.SearchArea.FlankSteps | src/controller/Controller.java:726-744 | a strict diagonal move has both flanking orthogonal moves, to two different cells, and from either flank one more orthogonal move reaches the diagonal's target |
| Grid.SearchArea.SetStart | src/controller/Controller.java:512-553 | out of bounds raises IndexOutOfBounds. Replacing a start while the finish is null raises NullPointer. Replacing a start with the finish cell is refused. Every refusal changes nothing. Success happens exactly when there was no start or the cell is not the finish; then the old start becomes EMPTY, the new cell becomes START, and nothing else changes |
| Grid.SearchArea.SetFinish | src/controller/Controller.java:583-624 | the mirror image of SetStart for the finish |
| Grid.SearchArea.AddObstacle | src/controller/Controller.java:341-400 | succeeds exactly when both endpoints are in bounds, with no change otherwise; on success the cells of the Bresenham line between the endpoints become OBSTACLE and join the obstacle set, and every other cell is unchanged |
| Grid.SearchArea.MarkObstacles | src/controller/Controller.java:392-398 | exactly the cells at the given points become OBSTACLE and are added to the obstacle set |
| Grid.SearchArea.MarkObstacle | src/controller/Controller.java:395-397 | one cell becomes OBSTACLE and joins the obstacle set |
| Grid.SearchArea.LineCellsMembership | src/controller/Controller.java:392-398 | a cell is among a line's cells exactly when its coordinate is on the line |
| Paths.ChainLinks | trunk/src/controller/algorithm/Algorithm.java:90-103 | the parent chain from a cell is empty exactly when the cell is START; it never holds a START cell, each element's parent is the next one, and it reaches the start exactly when its last cell has a parent |
| Paths.ChainRanks | trunk/src/controller/algorithm/Algorithm.java:90-103 | ranks strictly fall along the chain, so the walk terminates |
| Paths.ChainDistinct | trunk/src/controller/algorithm/Algorithm.java:90-103 | no cell occurs twice in the chain |
| Paths.StampsAlongChain | trunk/src/controller/algorithm/Algorithm.java:94-100 | every parent on the chain gets the directed waypoint from itself to its child, unless it is the start |
| Paths.StampsUntouched | trunk/src/controller/algorithm/Algorithm.java:98-100 | a cell that is no parent on the chain keeps its status |
| Paths.StampsKind | trunk/src/controller/algorithm/Algorithm.java:94-100 | every status after stamping is the old one or a directed waypoint |
| Paths.PathShape | trunk/src/controller/algorithm/Algorithm.java:89-105 | the reversed chain ends with the finish and holds no START cell; each element's parent is its predecessor, and the first element's parent is a START cell |
| Paths.PointParentAt | trunk/src/controller/algorithm/Algorithm.java:94-100 | one turn of the loop stamps the parent with the direction from parent to child, or leaves it as it is |
| Paths.WalkBack | trunk/src/controller/algorithm/Algorithm.java:87-105 | the loop returns the reversed chain and stamps it. It raises NullPointer exactly when the chain does not reach a START cell |
| Paths.BuildSolutionPath | trunk/src/controller/algorithm/Algorithm.java:80-106 | null exactly when the finish has no parent. NullPointer exactly when it has one but the chain does not reach the start. Otherwise the path is the reversed chain. In every case the cells are stamped as in StampsAlongChain and nothing else changes |
| Paths.MarksLeftAgree | trunk/src/controller/algorithm/Algorithm.java:94-100 | what the builder leaves on the cells depends only on the statuses they had before it ran |
| Paths.WalkMarks | trunk/src/controller/algorithm/Algorithm.java:87-105 | after the walk back every cell keeps its status or becomes a directed waypoint; no path changes nothing; a returned path carries, on each cell but the last, the stamp pointing at the next cell |
| SearchTrees.SnapshotLinks | src/controller/algorithm/strategies/BFSAlgorithm.java:60-62 | the parents stored in the cells are the parents the search recorded |
| SearchTrees.ClosedSetContainsWalks | src/controller/algorithm/strategies/BFSAlgorithm.java:67 | every walk of moves from a set closed under moves stays in that set |
| SearchTrees.DiscoverOne | src/controller/algorithm/strategies/BFSAlgorithm.java:60-64 | linking an undiscovered move target of a discovered cell to it keeps the discovery tree |
| SearchTrees.RankAll | trunk/src/controller/algorithm/Algorithm.java:90-103 | extends the search's ranks to every cell and keeps them where they are known |
| SearchTrees.TreeRanked | trunk/src/controller/algorithm/Algorithm.java:90-103 | a discovery tree's ranks make the parent links well founded, so the path builder terminates |
| SearchTrees.TreeLinks | src/controller/algorithm/strategies/BFSAlgorithm.java:60-62 | every discovered cell but the start has a discovered parent |
| SearchTrees.StartIsUnique | src/controller/Controller.java:512-529 | in a valid grid the start is the only START cell |
| SearchTrees.RootedReach | trunk/src/controller/algorithm/Algorithm.java:90-103 | the chain from a tree cell reaches a START cell exactly when the root is still START |
| SearchTrees.AlongTree | trunk/src/controller/algorithm/Algorithm.java:89-105 | the reversed chain from a discovered finish is a walk of moves from the root that ends at the finish and follows the tree's links |
| SearchTrees.TreeAnswer | trunk/src/controller/algorithm/Algorithm.java:80-106 | for a discovered finish other than the start, it has a parent, and the path is a walk of moves from the start exactly when the start is still marked |
| SearchTrees.TreeOutcome | trunk/src/controller/algorithm/Algorithm.java:80-106 | the builder's result on a discovered finish reads as: null only for the start itself, NullPointer only when the start lost its mark, otherwise a walk to the finish |
| SearchTrees.NoWalkToFinish | src/controller/algorithm/strategies/BFSAlgorithm.java:67 | when the search answers that there is no path, no walk of moves from the start ends at a marked finish |
| SearchTrees.Traced | trunk/src/controller/algorithm/Algorithm.java:80-106 | the builder's result on a search tree is null exactly when the finish was not reached or is an unlinked start; a raise means the start lost its mark; a path is a walk from the start to the finish along the tree |
| SearchTrees.TracePath | trunk/src/controller/algorithm/Algorithm.java:80-106 | after a search: null exactly when the finish was not reached or is an unlinked start; NullPointer only when the start lost its mark; otherwise a walk of moves from the start to the finish down the recorded parent links (empty when start and finish coincide). Only statuses change, as MarksLeft says |
| SearchTrees.Trace | trunk/src/controller/algorithm/Algorithm.java:80-106 | the builder's run on a snapshot whose tree facts are known gives the answer Traced describes, the path following the parent links |
| SearchTrees.FewerStill | src/controller/algorithm/strategies/BFSAlgorithm.java:47-66 | a lower bound on the length of the walks to a cell stays a bound for any smaller number |
| BreadthFirst.IndexOne | src/controller/algorithm/strategies/BFSAlgorithm.java:60-64 | queueing an undiscovered cell keeps the queue listing the discovered cells once each |
| BreadthFirst.IndexedCount | src/controller/algorithm/strategies/BFSAlgorithm.java:39-44 | the queue is exactly as long as the discovered set, so no cell is queued twice |
| BreadthFirst.QueueBounded | src/controller/algorithm/strategies/BFSAlgorithm.java:39-64 | the queue never holds more cells than the grid |
| BreadthFirst.DiscoverStep | src/controller/algorithm/strategies/BFSAlgorithm.java:60-64 | discovering a neighbour of the cell being expanded, linking it and queueing it keeps the search sound and puts the new cell one level deeper than its parent, at the back of a queue whose depths never fall |
| BreadthFirst.LayerOne | src/controller/algorithm/strategies/BFSAlgorithm.java:60-64 | queueing a cell discovered from queue[k] at depth(queue[k]) + 1 keeps the queue sorted by depth, spanning at most two levels from the cell being expanded |
| BreadthFirst.LayerExpanded | src/controller/algorithm/strategies/BFSAlgorithm.java:53-65 | once every move of queue[k] is discovered, each of its moves lies at most one level below it |
| BreadthFirst.WalkDepths | src/controller/algorithm/strategies/BFSAlgorithm.java:47-66 | while queue[h] is next to expand, every walk from the start shorter than its depth stays among discovered cells, cell i being at most i + 1 deep |
| BreadthFirst.ShortestWalk | src/controller/algorithm/strategies/BFSAlgorithm.java:47-66 | no walk from the start reaches queue[h] in fewer moves than its depth |
| BreadthFirst.LinksDepth | src/controller/algorithm/strategies/BFSAlgorithm.java:60-62 | a path down the parent links from the start ends as deep as it is long |
| BreadthFirst.NoShorterPath | src/controller/algorithm/strategies/BFSAlgorithm.java:67 | the path along the links to the finish, which the builder returns, is as short as any walk of moves from the start to the finish |
| BreadthFirst.Discover | src/controller/algorithm/strategies/BFSAlgorithm.java:60-64 | an undiscovered neighbour gets the current cell as parent, is discovered at the back of the queue one level deeper, and the search stays sound |
| BreadthFirst.ExpandedOne | src/controller/algorithm/strategies/BFSAlgorithm.java:53-65 | once all of a cell's moves are discovered, the cell counts as expanded |
| BreadthFirst.Exhausted | src/controller/algorithm/strategies/BFSAlgorithm.java:67 | an emptied queue leaves a discovered set that is closed under moves and holds no marked finish |
| BreadthFirst.Offer | src/controller/algorithm/strategies/BFSAlgorithm.java:59-64 | an undiscovered neighbour is linked to the current cell, discovered and queued one level deeper; a discovered one changes nothing |
| BreadthFirst.OfferNext | src/controller/algorithm/strategies/BFSAlgorithm.java:57-65 | one turn of the neighbour loop handles one more direction and keeps the search sound and layered by depth |
| BreadthFirst.Enqueue | src/controller/algorithm/strategies/BFSAlgorithm.java:56-65 | after the neighbour loop every move of the current cell is discovered, at most one level below it, and the search stays sound |
| BreadthFirst.Expand | src/controller/algorithm/strategies/BFSAlgorithm.java:53-65 | expanding the dequeued cell over its strict walkable neighbours expands it and keeps the queue layered by depth |
| BreadthFirst.Advance | src/controller/algorithm/strategies/BFSAlgorithm.java:47-66 | one turn of the main loop on a cell that is not the finish keeps the loop invariant, depths included, and makes progress |
| BreadthFirst.Drain | src/controller/algorithm/strategies/BFSAlgorithm.java:47-66 | the loop stops at the FINISH cell at the head of the queue, which is the discovered finish, or empties the queue without dequeuing a FINISH cell; the queue stays sorted by depth |
| BreadthFirst.Explore | src/controller/algorithm/strategies/BFSAlgorithm.java:39-66 | the links form a discovery tree over the discovered cells, with depths one more than the parent's. Finding means a discovered, marked finish that no walk of moves reaches in fewer moves than its depth. Otherwise the discovered set is closed under moves and excludes a marked finish. The number of turns is at most the number of cells |
| BreadthFirst.Search | src/controller/algorithm/strategies/BFSAlgorithm.java:39-67 | the answer over the move graph of the obstacles before the search: a path is a walk from the start to the finish, and no walk of moves reaches the finish in fewer moves; null means no walk reaches a marked finish, or start and finish coincide; NullPointer only when the start lost its mark. The parent links and statuses left are those of the search tree and the builder |
| BreadthFirst.Conclude | src/controller/algorithm/strategies/BFSAlgorithm.java:67 | after the loop the builder's result is the search's answer, its path as short in moves as any walk to the finish, and the parent links stay the search tree's |
| BreadthFirst.Execute | src/controller/algorithm/strategies/BFSAlgorithm.java:34-68 | null without a grid, NullPointer without a start, and otherwise the answer of Search, shortest in moves, with the cells' statuses and parent links as Search leaves them |
| DepthFirst.StrictIsFlanked | trunk/src/controller/algorithm/strategies/DFSAlgorithm.java:55-78 | in strict mode both flanks of every walkable diagonal are present, so the prune's lookups never find null |
| DepthFirst.PruneOneKeeps | trunk/src/controller/algorithm/strategies/DFSAlgorithm.java:59-78 | one prune touches only its own diagonal, and does not change whether another diagonal crosses the visited cells |
| DepthFirst.PrunesComputeUncrossed | trunk/src/controller/algorithm/strategies/DFSAlgorithm.java:59-78 | the four prunes in the source's order remove exactly the diagonals whose flanks are both visited |
| DepthFirst.PruneDiagonal | trunk/src/controller/algorithm/strategies/DFSAlgorithm.java:59-63 | one prune, reading the visited flags of the flanks, computes the pure prune |
| DepthFirst.PruneCrossings | trunk/src/controller/algorithm/strategies/DFSAlgorithm.java:59-78 | the four prunes compute the uncrossed neighbour map |
| DepthFirst.UncrossedExactly | trunk/src/controller/algorithm/strategies/DFSAlgorithm.java:59-78 | orthogonal moves always survive; a diagonal is pruned exactly when both its flanks are visited; survivors keep their cell |
| DepthFirst.UnvisitedMoves | trunk/src/controller/algorithm/strategies/DFSAlgorithm.java:55-78 | the neighbours left to try are the uncrossed strict walkable neighbours, all of them moves of the cell |
| DepthFirst.MarkVisited | trunk/src/controller/algorithm/strategies/DFSAlgorithm.java:49 | entering a cell marks it visited |
| DepthFirst.Link | trunk/src/controller/algorithm/strategies/DFSAlgorithm.java:87 | the neighbour's parent becomes the current cell |
| DepthFirst.Branch | trunk/src/controller/algorithm/strategies/DFSAlgorithm.java:86-89 | an unvisited neighbour is linked to the current cell and explored recursively |
| DepthFirst.Descend | trunk/src/controller/algorithm/strategies/DFSAlgorithm.java:82-90 | one turn of the neighbour loop handles one direction and keeps the invariant; the recursion's measure falls |
| DepthFirst.ExpandingStep | trunk/src/controller/algorithm/strategies/DFSAlgorithm.java:82-90 | a recursive visit of one neighbour keeps the expansion invariant |
| DepthFirst.ExpandingSkip | trunk/src/controller/algorithm/strategies/DFSAlgorithm.java:86 | skipping a visited neighbour keeps the expansion invariant |
| DepthFirst.SettledCloses | trunk/src/controller/algorithm/strategies/DFSAlgorithm.java:48-93 | when every visited cell is settled, the visited cells other than the finish have all their moves visited |
| DepthFirst.Expand | trunk/src/controller/algorithm/strategies/DFSAlgorithm.java:51-92 | a cell other than the finish explores all its unpruned, unvisited neighbours recursively, linking each newly visited cell to the cell that entered it, which leaves the cell settled; the visited flags and parent links record the visited set and the tree |
| DepthFirst.Visit | trunk/src/controller/algorithm/strategies/DFSAlgorithm.java:48-93 | a visit marks the cell visited and extends the discovery tree, linking each newly visited cell to the cell that entered it; the finish is marked and nothing else; the visited flags and parent links record the visited set and the tree; the recursion terminates |
| DepthFirst.Conclude | trunk/src/controller/algorithm/strategies/DFSAlgorithm.java:41 | NullPointer without a finish; otherwise the builder's result is the search's answer, null exactly when the finish is the start or was not reached, the visited flags are exactly the reached cells, and the parent links are the tree's |
| DepthFirst.Search | trunk/src/controller/algorithm/strategies/DFSAlgorithm.java:37-41 | NullPointer without a finish; otherwise the answer over the move graph: a path is a walk from the start to the finish, null exactly when the finish was not reached or is the start, the reached cells then being closed under moves and free of a marked finish; the visited flags are exactly on the reached cells, and the parent links form the discovery tree |
| DepthFirst.Execute | trunk/src/controller/algorithm/strategies/DFSAlgorithm.java:32-42 | null without a grid, NullPointer without a start, and otherwise the answer of Search, with the visited flags, parent links and statuses it leaves |
| AStarSearch.Closing | tags/v_1.0/src/controller/algorithm/strategies/AStarAlgorithm.java:78-81 | moving an open cell to the closed list keeps the tree and starts its expansion, and loses nothing |
| AStarSearch.Opening | tags/v_1.0/src/controller/algorithm/strategies/AStarAlgorithm.java:99-104 | opening a never-seen neighbour at g(current) + move cost, linked to the current cell, keeps the invariant |
| AStarSearch.Improving | tags/v_1.0/src/controller/algorithm/strategies/AStarAlgorithm.java:107-112 | re-linking an open neighbour at a strictly lower cost keeps the invariant, and its cost falls |
| AStarSearch.RelaxedKeeps | tags/v_1.0/src/controller/algorithm/strategies/AStarAlgorithm.java:88-113 | each of the three cases of a relaxation keeps the invariant and closes nothing |
| AStarSearch.ExpandedAll | tags/v_1.0/src/controller/algorithm/strategies/AStarAlgorithm.java:88-113 | once every walkable neighbour of the current cell has been seen, all closed cells have their moves opened |
| AStarSearch.Exhausted | tags/v_1.0/src/controller/algorithm/strategies/AStarAlgorithm.java:75 | an empty open list leaves the start closed and the closed set closed under moves |
| AStarSearch.OpenedAreWalkable | tags/v_1.0/src/controller/algorithm/strategies/AStarAlgorithm.java:83-84 | no cell but the start that was ever opened is an obstacle |
| AStarSearch.PathCostAlongLinks | tags/v_1.0/src/controller/algorithm/strategies/AStarAlgorithm.java:91 | along the parent links, the recorded cost of a cell is its ancestor's cost plus the move costs in between |
| AStarSearch.Answer | tags/v_1.0/src/controller/algorithm/strategies/AStarAlgorithm.java:115 | the builder's result after the loop is the A* answer: a path is a walk to the finish that costs exactly the finish's recorded g |
| AStarSearch.WalkableMoves | tags/v_1.0/src/controller/algorithm/strategies/AStarAlgorithm.java:83-84 | the strict walkable neighbours of the current cell are exactly its moves |
| AStarSearch.AStarAlgorithm.constructor | tags/v_1.0/src/controller/algorithm/strategies/AStarAlgorithm.java:48-51 | the strategy keeps its heuristic and starts with empty lists |
| AStarSearch.AStarAlgorithm.AddToOpenList | tags/v_1.0/src/controller/algorithm/strategies/AStarAlgorithm.java:139-142 | the cell is flagged open and not closed, and joins the open list |
| AStarSearch.AStarAlgorithm.MoveToClosedList | tags/v_1.0/src/controller/algorithm/strategies/AStarAlgorithm.java:150-154 | the cell is flagged closed and not open, and moves from the open list to the closed list |
| AStarSearch.AStarAlgorithm.SetHeuristicCostToFinish | tags/v_1.0/src/controller/algorithm/strategies/AStarAlgorithm.java:124-131 | h becomes the heuristic from the cell to the finish, except on an obstacle, whose h is kept |
| AStarSearch.AStarAlgorithm.OpenStart | tags/v_1.0/src/controller/algorithm/strategies/AStarAlgorithm.java:70-71 | the start joins the open list, flagged open, with g = 0 |
| AStarSearch.AStarAlgorithm.Begin | tags/v_1.0/src/controller/algorithm/strategies/AStarAlgorithm.java:68-72 | after the initial conditions only the start is open, at cost 0, with its heuristic estimate, and nothing is closed |
| AStarSearch.AStarAlgorithm.Close | tags/v_1.0/src/controller/algorithm/strategies/AStarAlgorithm.java:78-81 | the chosen open cell moves to the closed list |
| AStarSearch.AStarAlgorithm.Enlist | tags/v_1.0/src/controller/algorithm/strategies/AStarAlgorithm.java:100 | opening a neighbour adds it to the open list and its flag, and leaves the closed list alone |
| AStarSearch.AStarAlgorithm.Adopt | tags/v_1.0/src/controller/algorithm/strategies/AStarAlgorithm.java:101-102 | the neighbour's parent becomes the current cell and its g the tentative cost |
| AStarSearch.AStarAlgorithm.Estimate | tags/v_1.0/src/controller/algorithm/strategies/AStarAlgorithm.java:103 | every non-obstacle opened cell keeps holding the heuristic's estimate to the finish |
| AStarSearch.AStarAlgorithm.OpenNeighbor | tags/v_1.0/src/controller/algorithm/strategies/AStarAlgorithm.java:99-104 | a never-seen neighbour is opened at the tentative cost, linked to the current cell |
| AStarSearch.AStarAlgorithm.Improve | tags/v_1.0/src/controller/algorithm/strategies/AStarAlgorithm.java:107-112 | an open neighbour takes the current cell as parent and the tentative cost |
| AStarSearch.AStarAlgorithm.RelaxNeighbor | tags/v_1.0/src/controller/algorithm/strategies/AStarAlgorithm.java:90-112 | a closed neighbour is ignored, a new one is opened, and an open one is improved only when the tentative cost is strictly lower |
| AStarSearch.AStarAlgorithm.Relax | tags/v_1.0/src/controller/algorithm/strategies/AStarAlgorithm.java:88-113 | one turn of the neighbour loop relaxes one more neighbour and keeps the invariant, closing nothing |
| AStarSearch.AStarAlgorithm.Expand | tags/v_1.0/src/controller/algorithm/strategies/AStarAlgorithm.java:88-113 | the neighbour loop relaxes every walkable neighbour of the current cell |
| AStarSearch.AStarAlgorithm.Step | tags/v_1.0/src/controller/algorithm/strategies/AStarAlgorithm.java:75-113 | one turn of the main loop closes one more open cell, never reopens a closed one and keeps the invariant |
| AStarSearch.AStarAlgorithm.Run | tags/v_1.0/src/controller/algorithm/strategies/AStarAlgorithm.java:75-114 | the loop terminates with the finish closed or nothing open, and keeps the invariant |
| AStarSearch.AStarAlgorithm.Explore | tags/v_1.0/src/controller/algorithm/strategies/AStarAlgorithm.java:68-114 | the cells mirror the lists, the lists form a consistent search, and no opened cell but the start is an obstacle |
| AStarSearch.AStarAlgorithm.Conclude | tags/v_1.0/src/controller/algorithm/strategies/AStarAlgorithm.java:115 | the builder's result after the loop is the A* answer; the flags, costs and parent links of the cells and both lists stay as the loop left them |
| AStarSearch.AStarAlgorithm.Abort | tags/v_1.0/src/controller/algorithm/strategies/AStarAlgorithm.java:64-72 | with a missing start or finish the lists are cleared and the start, if there is one, is opened at g = 0 before the run raises NullPointer |
| AStarSearch.AStarAlgorithm.Search | tags/v_1.0/src/controller/algorithm/strategies/AStarAlgorithm.java:64-115 | the run's answer over the move graph: a path is a walk from the start to the finish that costs the recorded g of the finish; null means the finish was never opened, or it is an unlinked start; NullPointer only when the start lost its mark. The lists end with the finish closed or nothing open, and the cells' flags, costs and links mirror them |
| AStarSearch.AStarAlgorithm.Execute | tags/v_1.0/src/controller/algorithm/strategies/AStarAlgorithm.java:59-116 | null without a grid or a heuristic. NullPointer when the start or the finish is missing, with the lists and the start as Abort leaves them. Otherwise the answer of Search, with the lists and cell fields it leaves |
| Controllers.Found | src/controller/Controller.java:176-177 | the answer is whether the algorithm returned a path, and an exception passes through |
| Controllers.Controller.constructor | src/controller/Controller.java:69-80 | a controller starts with no algorithm and no grid, and corners may not be cut |
| Controllers.Controller.SetUp | src/controller/Controller.java:69-80 | succeeds exactly when width and height are at least 1 and an algorithm is given, with no change otherwise. On success the algorithm is kept and a fresh width-by-height grid of its cell kind is built: all cells EMPTY, no start, no finish |
| Controllers.Controller.SetStart | src/controller/Controller.java:98-103 | false without a grid; otherwise the grid's SetStart results |
| Controllers.Controller.SetFinish | src/controller/Controller.java:117-122 | false without a grid; otherwise the grid's SetFinish results |
| Controllers.Controller.AddObstacle | src/controller/Controller.java:145-150 | false without a grid; otherwise the grid's AddObstacle results, the cells of the Bresenham line becoming OBSTACLE |
| Controllers.Controller.AddObstacleAt | src/controller/Controller.java:159-161 | NullPointer without a grid. Otherwise true exactly when (x, y) is in bounds, and then only that cell becomes OBSTACLE |
| Controllers.RunBreadthFirst | src/controller/Controller.java:176-177 | the breadth-first answer as the controller reports it, over the move graph of the obstacles before the run: its path is a shortest walk in moves, and a marked finish reported unreachable from a marked start is reached by no walk |
| Controllers.RunDepthFirst | src/controller/Controller.java:176-177 | the depth-first answer as the controller reports it, over the move graph: a path is a walk to the finish, and a marked finish reported unreachable from a marked start is reached by no walk |
| Controllers.RunAStar | src/controller/Controller.java:176-177 | null without a heuristic; otherwise the A* answer as the controller reports it: a path is a walk to the finish, and a finish reported unreachable is reached by no walk |
| Controllers.Run | src/controller/Controller.java:176 | runs the configured strategy on the grid: an unconfigured A* strategy finds nothing, otherwise the strategy's answer as Reported says, shortest in moves for breadth-first search |
| Controllers.Controller.ExecuteSearch | src/controller/Controller.java:168-181 | false, with no change, without an algorithm, a start or a finish. Otherwise the flag is stored and the answer is whether the algorithm returned a path. A path is a walk from the start to the finish, shortest in moves under breadth-first search, and false from a marked start to a different marked finish means that no walk connects them |

## Left out

- Rendering and console output (`print`, `toString`, the box-drawing constants and the
  `System.out`/`System.err` calls): these are formatting and I/O.
- The `Controller.getInstance` singleton: the strategies take the grid as a parameter
  instead of reading it from a global instance.
- `StopWatch` (wall clock), the `SearchMain` demo entry point and `Direction.randomDirection`
  (random numbers).
- The `Diagonal`, `Infinity` and `Zero` heuristics: they use floating point. The `Heuristic`
  interface is a function parameter of the A* strategy, and Manhattan is one such function.
- `AlgorithmType`'s display names are a plain function without a contract.
- `BFSNode` has no behaviour of its own: it is the `BFS` kind of `Nodes.Node`.
- Class casts: one `Node` class with a `kind` stands for the three Java node classes, so the
  casts in the strategies cannot fail.
- Java hashing: `hashCode` is not modelled, and the sets and maps of the search are keyed by
  cell identity. `equals` (`Nodes.Node.Equals`) compares the class, the coordinates, the status
  and the parent. Depth-first cells also compare the visited flag, and A* cells compare g, h
  and the open and closed flags. `hashCode` combines the coordinates and the status. Statuses
  do not change while a search uses its sets; only the path builder changes them, after the
  search. A `HashMap` tests `==` before `equals`, so a cell is always found as itself. Distinct
  cells of a grid have distinct coordinates (`Grid.SearchArea.CellsDistinct`), so no other cell
  is equal to it. Keys by identity therefore give the same lookups.
- The order of `HashMap` iteration: the model chooses each next direction arbitrarily and
  does not claim which path is produced.
- The priority-queue heap of A*: modelled as a set from which some open cell is closed. The
  model does not claim that the cell closed is of minimal f, nor that the path is shortest.
- Repeated searches on one grid: `Controllers.Controller.ExecuteSearch` and the strategies
  require a fresh grid (no parent links, visited or open/closed flags left by an earlier
  run). A second run on a stale grid is not modelled.
- The `setStart(Node)` and `setFinish(Node)` overloads are not separate members: the
  coordinate versions of the grid model both, since they only look the cell up first.
- The older `tags/v_1.0` direction table, its `getAdjacentPoint` overload taking a `Point`
  and its delta and cost getters agree with the current ones. One model stands for both
  versions, so the overload has no member of its own.
- Floating-point costs: every g and h is an integer, and `Double.MAX_VALUE` is used exactly, so
  `int` loses nothing there. The heuristic's values are assumed to be integers.
- Nodes.Node.CompareTo: the rounding of f is modelled only at the top of the range. Sums
  between 2^53 and `MaxValue` in size are kept exact rather than rounded to a double. Every
  total the program forms is a small integer, or `MaxValue` plus a small heuristic.
- Java `int` overflow in the Bresenham loop: `e2 = 2 * err` and `err + dx`
  (src/controller/Controller.java:365-375) would wrap for endpoint differences near 2^30. The
  model computes them unbounded. The endpoints must already be in bounds of a grid, which the
  program builds cell by cell, so such differences do not arise.
- The `StackOverflowError` of the recursive depth-first search: the recursion can be as deep
  as the number of cells, width times height. The model has no call-stack limit, so it gives
  the answer the recursion would give with unlimited stack.
- Directions.ToUpper: the case folding is exact only as far as matching the abbreviation
  letters N, E, S and W. Other characters are left unchanged, which cannot change whether a
  text matches an abbreviation.
