/**
 * The controller: it holds the chosen search algorithm and the search area, sets them up,
 * forwards the configuration calls (start, finish, obstacles) to the area and runs the
 * search. A run answers whether the algorithm produced a path.
 */
module Controllers {
  import opened Wrappers
  import opened Directions
  import opened NodeStatuses
  import opened Nodes
  import opened Grid
  import opened Paths
  import opened Bresenham
  import opened SearchTrees
  import opened BreadthFirst
  import opened DepthFirst
  import opened AStarSearch

  /** A configured search algorithm; only the A* strategy carries state of its own. */
  datatype Algorithm = BFSStrategy | DFSStrategy | AStarStrategy(strategy: AStarAlgorithm)
  {
    function Type(): AlgorithmType {
      match this
      case BFSStrategy => BFS
      case DFSStrategy => DFS
      case AStarStrategy(_) => AStar
    }

    /** An A* strategy needs a heuristic to search at all. */
    predicate Configured() {
      AStarStrategy? ==> strategy.heuristic.Some?
    }

    /** The objects a run of the algorithm updates besides the grid. */
    function Own(): set<object> {
      if AStarStrategy? then {strategy} else {}
    }
  }

  /** What a run answers, from the path the algorithm returned: whether there is one. */
  function Found(path: Outcome<Option<seq<Node>>>): (r: Outcome<bool>)
    ensures r.Throws? <==> path.Throws?
    ensures path.Throws? ==> r.error == path.error
    ensures path.Returns? ==> r == Returns(path.value.Some?)
  {
    match path
    case Throws(e) => Throws(e)
    case Returns(p) => Returns(p.Some?)
  }

  /** In a shaped grid every cell is of the grid's kind. */
  lemma CellsOfKind(area: SearchArea)
    requires area.Shape()
    ensures forall c :: c in area.Cells ==> c.kind == area.kind
  {
    forall c | c in area.Cells
      ensures c.kind == area.kind
    {
      var x, y :| 0 <= x < area.width && 0 <= y < area.height && c == area.columns[x][y];
    }
  }

  /**
   * The search fields of one cell as SearchArea.SearchFresh wants them: no parent link (except
   * the self-link of an A* START cell), not visited when depth-first, neither open nor closed
   * when A*.
   */
  predicate FreshState(c: Node, st: CellState) {
    (st.parent == null || (c.kind == AStar && st.status == Start && st.parent == c)) &&
    (c.kind == DFS ==> !st.visited) &&
    (c.kind == AStar ==> !st.open && !st.closed)
  }

  /** Giving a cell a status that is not a waypoint keeps its search fields fresh. */
  lemma StatusKeepsFresh(c: Node, before: CellState, s: NodeStatus)
    requires FreshState(c, before) && !IsWaypoint(s)
    requires c.kind != AStar ==> before.parent == null
    ensures FreshState(c, c.AfterSetStatus(before, s))
  {
  }

  class Controller {
    var algorithm: Option<Algorithm>
    var searchArea: SearchArea?
    var cuttingCornersAllowed: bool

    /** No algorithm and no search area yet; corners may not be cut. */
    constructor ()
      ensures algorithm == None && searchArea == null && !cuttingCornersAllowed
      ensures Valid()
    {
      algorithm := None;
      searchArea := null;
      cuttingCornersAllowed := false;
    }

    /**
     * The algorithm and the area are set up together, the area is valid and it is built for
     * the algorithm's cell kind.
     */
    ghost predicate Valid()
      reads this, searchArea, if searchArea != null then searchArea.Cells else {}
    {
      (algorithm == None <==> searchArea == null) &&
      (searchArea != null ==> searchArea.Valid() && searchArea.kind == algorithm.value.Type())
    }

    /** No search has run on the area yet. */
    ghost predicate Fresh()
      reads this, searchArea, if searchArea != null then searchArea.Cells else {}
    {
      searchArea != null ==> searchArea.SearchFresh()
    }

    /** The objects the configuration calls may update: the area and its cells. */
    ghost function Grid(): set<object>
      reads this
    {
      if searchArea != null then {searchArea} + searchArea.Cells else {}
    }

    /**
     * Refuses a width or height below 1 and a missing algorithm, changing nothing. Otherwise
     * keeps the algorithm and builds a fresh width-by-height area of its cell kind.
     */
    method SetUp(width: int, height: int, a: Option<Algorithm>) returns (ok: bool)
      requires Valid()
      modifies this
      ensures Valid()
      ensures ok <==> 1 <= width && 1 <= height && a.Some?
      ensures !ok ==> algorithm == old(algorithm) && searchArea == old(searchArea)
      ensures ok ==>
        algorithm == a && searchArea != null && fresh(searchArea) && fresh(searchArea.Cells) &&
        searchArea.width == width && searchArea.height == height && searchArea.kind == a.value.Type() &&
        searchArea.start == null && searchArea.finish == null && searchArea.obstacleNodes == {} &&
        Fresh() && forall c :: c in searchArea.Cells ==> c.status == Empty
      ensures cuttingCornersAllowed == old(cuttingCornersAllowed)
    {
      if width < 1 || height < 1 || a == None {
        return false;
      }
      algorithm := a;
      searchArea := new SearchArea(width, height, a.value.Type());
      return true;
    }

    /**
     * Refuses when there is no area; otherwise the area's SetStart: out of range throws, the
     * finish cell cannot become the start, and a successful call makes the cell at (x, y) the
     * start. The search fields stay fresh.
     */
    method SetStart(x: int, y: int) returns (r: Outcome<bool>)
      requires Valid()
      modifies Grid()
      ensures Valid() && (old(Fresh()) ==> Fresh())
      ensures searchArea == null ==> r == Returns(false)
      ensures searchArea != null ==>
        searchArea.finish == old(searchArea.finish) &&
        (!searchArea.CoordInSearchArea(x, y) ==> r == Throws(IndexOutOfBounds)) &&
        (r == Returns(true) <==>
           searchArea.CoordInSearchArea(x, y) &&
           (old(searchArea.start) == null ||
            (old(searchArea.finish) != null && searchArea.columns[x][y] != old(searchArea.finish)))) &&
        (r == Returns(true) ==> searchArea.start == searchArea.columns[x][y] && searchArea.start.status == Start) &&
        (r != Returns(true) ==>
           searchArea.start == old(searchArea.start) &&
           forall c :: c in searchArea.Cells ==> c.State() == old(c.State()))
    {
      if searchArea == null {
        return Returns(false);
      }
      CellsOfKind(searchArea);
      ghost var wasFresh := Fresh();
      r := searchArea.SetStart(x, y);
      if wasFresh {
        forall c | c in searchArea.Cells
          ensures FreshState(c, c.State())
        {
          assert FreshState(c, old(c.State()));
          if r == Returns(true) {
            var cleared := if c == old(searchArea.start) then c.AfterSetStatus(old(c.State()), Empty) else old(c.State());
            StatusKeepsFresh(c, old(c.State()), Empty);
            StatusKeepsFresh(c, cleared, Start);
          }
        }
      }
    }

    /**
     * Refuses when there is no area; otherwise the area's SetFinish, the mirror image of
     * SetStart.
     */
    method SetFinish(x: int, y: int) returns (r: Outcome<bool>)
      requires Valid()
      modifies Grid()
      ensures Valid() && (old(Fresh()) ==> Fresh())
      ensures searchArea == null ==> r == Returns(false)
      ensures searchArea != null ==>
        searchArea.start == old(searchArea.start) &&
        (!searchArea.CoordInSearchArea(x, y) ==> r == Throws(IndexOutOfBounds)) &&
        (r == Returns(true) <==>
           searchArea.CoordInSearchArea(x, y) &&
           (old(searchArea.finish) == null ||
            (old(searchArea.start) != null && searchArea.columns[x][y] != old(searchArea.start)))) &&
        (r == Returns(true) ==> searchArea.finish == searchArea.columns[x][y] && searchArea.finish.status == Finish) &&
        (r != Returns(true) ==>
           searchArea.finish == old(searchArea.finish) &&
           forall c :: c in searchArea.Cells ==> c.State() == old(c.State()))
    {
      if searchArea == null {
        return Returns(false);
      }
      CellsOfKind(searchArea);
      ghost var wasFresh := Fresh();
      r := searchArea.SetFinish(x, y);
      if wasFresh {
        forall c | c in searchArea.Cells
          ensures FreshState(c, c.State())
        {
          assert FreshState(c, old(c.State()));
          if r == Returns(true) {
            var cleared := if c == old(searchArea.finish) then c.AfterSetStatus(old(c.State()), Empty) else old(c.State());
            StatusKeepsFresh(c, old(c.State()), Empty);
            StatusKeepsFresh(c, cleared, Finish);
          }
        }
      }
    }

    /**
     * Refuses when there is no area; otherwise the area's AddObstacle: false, with no change,
     * when an endpoint is out of range, and otherwise exactly the cells of the rasterised line
     * become obstacles.
     */
    method AddObstacle(x0: int, y0: int, x1: int, y1: int) returns (r: bool, ghost line: seq<Coord>)
      requires Valid()
      modifies Grid()
      ensures Valid() && (old(Fresh()) ==> Fresh())
      ensures searchArea == null ==> !r
      ensures searchArea != null ==>
        searchArea.start == old(searchArea.start) && searchArea.finish == old(searchArea.finish) &&
        (r <==> searchArea.CoordInSearchArea(x0, y0) && searchArea.CoordInSearchArea(x1, y1)) &&
        (!r ==> searchArea.obstacleNodes == old(searchArea.obstacleNodes) &&
                forall c :: c in searchArea.Cells ==> c.State() == old(c.State())) &&
        (r ==> IsLine(line, x0, y0, x1, y1) &&
               forall c :: c in searchArea.Cells ==>
                 c.State() == if c.Coordinate() in line then c.AfterSetStatus(old(c.State()), Obstacle) else old(c.State()))
    {
      if searchArea == null {
        return false, [];
      }
      CellsOfKind(searchArea);
      ghost var wasFresh := Fresh();
      r, line := searchArea.AddObstacle(x0, y0, x1, y1);
      if wasFresh {
        forall c | c in searchArea.Cells
          ensures FreshState(c, c.State())
        {
          assert FreshState(c, old(c.State()));
          StatusKeepsFresh(c, old(c.State()), Obstacle);
        }
      }
    }

    /**
     * A single-cell obstacle: the line from (x, y) to (x, y). Unlike the line version it does
     * not check for a missing area, and then throws a NullPointerException.
     */
    method AddObstacleAt(x: int, y: int) returns (r: Outcome<bool>)
      requires Valid()
      modifies Grid()
      ensures Valid() && (old(Fresh()) ==> Fresh())
      ensures searchArea == null ==> r == Throws(NullPointer)
      ensures searchArea != null ==>
        (r == Returns(true) <==> searchArea.CoordInSearchArea(x, y)) &&
        (r == Returns(false) <==> !searchArea.CoordInSearchArea(x, y)) &&
        searchArea.start == old(searchArea.start) && searchArea.finish == old(searchArea.finish) &&
        forall c :: c in searchArea.Cells ==>
          c.State() == if r == Returns(true) && c.Coordinate() == Coord(x, y)
                       then c.AfterSetStatus(old(c.State()), Obstacle) else old(c.State())
    {
      if searchArea == null {
        return Throws(NullPointer);
      }
      var added;
      ghost var line;
      added, line := AddObstacle(x, y, x, y);
      if added {
        LineInBox(line, x, y, x, y);
        LineEnds(line, x, y, x, y);
        assert forall i :: 0 <= i < |line| ==> line[i] == Coord(x, y) by {
          forall i | 0 <= i < |line|
            ensures line[i] == Coord(x, y)
          {
            assert InBox(line[i], x, y, x, y);
          }
        }
        forall c | c in searchArea.Cells
          ensures c.Coordinate() in line <==> c.Coordinate() == Coord(x, y)
        {
          assert line[0] == Coord(x, y);
        }
      }
      return Returns(added);
    }

    /**
     * Reports false, changing nothing, without an algorithm and an area or without a start and
     * a finish. Otherwise stores the corner-cutting flag, runs the algorithm on the area and
     * reports whether it produced a path (an exception of the run propagates); for a
     * configured algorithm the answer means what Reported says about the move graph of the
     * obstacles before the run. (An A* strategy without a heuristic reports false without
     * searching.)
     */
    method ExecuteSearch(cutting: bool) returns (r: Outcome<bool>, path: Outcome<Option<seq<Node>>>, ghost g: Graph)
      requires Valid() && Fresh()
      modifies this, if searchArea != null then searchArea.Cells else {}
      modifies if algorithm.Some? then algorithm.value.Own() else {}
      ensures algorithm == old(algorithm) && searchArea == old(searchArea) && Valid()
      ensures searchArea != null ==> MarksLeft(searchArea.Cells, old(StatusesOf(searchArea.Cells)), path)
      ensures old(algorithm == None || searchArea.start == null || searchArea.finish == null) ==>
        r == Returns(false) && cuttingCornersAllowed == old(cuttingCornersAllowed) &&
        (searchArea != null ==> forall c :: c in searchArea.Cells ==> c.State() == old(c.State()))
      ensures old(algorithm != None && searchArea.start != null && searchArea.finish != null) ==>
        cuttingCornersAllowed == cutting && r == Found(path) &&
        (!algorithm.value.Configured() ==> r == Returns(false))
      ensures old(algorithm != None && searchArea.start != null && searchArea.finish != null) &&
              algorithm.value.Configured() ==>
        searchArea.IsMoveGraph(old(searchArea.CellsWith(Obstacle)), g) &&
        Reported(g, searchArea.start, searchArea.finish,
                 old(searchArea.start.status) == Start, old(searchArea.finish.status) == Finish, path) &&
        (r == Returns(false) && searchArea.start != searchArea.finish &&
         old(searchArea.start.status) == Start && old(searchArea.finish.status) == Finish ==>
           forall p :: IsWalk(g, searchArea.start, p) ==> p[|p| - 1] != searchArea.finish)
      ensures old(algorithm == Some(BFSStrategy) && searchArea.start != null && searchArea.finish != null) &&
              path.Returns? && path.value.Some? ==>
        NoWalkShorter(g, searchArea.start, searchArea.finish, |path.value.value|)
    {
      path, g := Returns(None), map[];
      if algorithm == None || searchArea == null {
        return Returns(false), path, g;
      }
      var area := searchArea;
      if area.start == null || area.finish == null {
        return Returns(false), path, g;
      }
      cuttingCornersAllowed := cutting;
      path, g := Run(area, algorithm.value);
      r := Found(path);
    }
  }

  /** A run of the configured strategy on its own kind of grid. */
  method Run(area: SearchArea, algorithm: Algorithm) returns (path: Outcome<Option<seq<Node>>>, ghost g: Graph)
    requires area.Valid() && area.kind == algorithm.Type() && area.SearchFresh()
    requires area.start != null && area.finish != null
    modifies area.Cells, algorithm.Own()
    ensures area.Valid() && MarksLeft(area.Cells, old(StatusesOf(area.Cells)), path)
    ensures !algorithm.Configured() ==> path == Returns(None)
    ensures algorithm.Configured() ==>
      area.IsMoveGraph(old(area.CellsWith(Obstacle)), g) &&
      Reported(g, area.start, area.finish, old(area.start.status) == Start, old(area.finish.status) == Finish, path) &&
      (path == Returns(None) && area.start != area.finish &&
       old(area.start.status) == Start && old(area.finish.status) == Finish ==>
         forall p :: IsWalk(g, area.start, p) ==> p[|p| - 1] != area.finish)
    ensures algorithm == BFSStrategy && path.Returns? && path.value.Some? ==>
      NoWalkShorter(g, area.start, area.finish, |path.value.value|)
  {
    CellsOfKind(area);
    match algorithm {
      case BFSStrategy =>
        path, g := RunBreadthFirst(area);
      case DFSStrategy =>
        path, g := RunDepthFirst(area);
      case AStarStrategy(a) =>
        path, g := RunAStar(area, a);
    }
  }

  /**
   * What a run's path tells about the move graph g: a path exists (the empty one when the
   * start is the finish, otherwise a walk of moves from the start ending at the finish); an
   * exception means the start was not marked START. (The runs also promise that when a marked
   * finish other than a marked start is reported unreachable, no walk of moves from the start
   * ends there.)
   */
  ghost predicate Reported(g: Graph, start: Node, finish: Node, startMarked: bool, finishMarked: bool,
                           path: Outcome<Option<seq<Node>>>) {
    (path.Returns? && path.value.Some? ==>
       (start == finish && path.value.value == []) ||
       (IsWalk(g, start, path.value.value) && path.value.value[|path.value.value| - 1] == finish)) &&
    (path.Throws? ==> path.error == NullPointer && !startMarked)
  }

  /** The breadth-first run, as the controller sees it. */
  method RunBreadthFirst(area: SearchArea) returns (path: Outcome<Option<seq<Node>>>, ghost g: Graph)
    requires area.Valid() && area.start != null && area.finish != null
    requires forall c :: c in area.Cells ==> c.parent == null
    modifies area.Cells
    ensures area.Valid() && MarksLeft(area.Cells, old(StatusesOf(area.Cells)), path)
    ensures area.IsMoveGraph(old(area.CellsWith(Obstacle)), g)
    ensures Reported(g, area.start, area.finish, old(area.start.status) == Start, old(area.finish.status) == Finish, path)
    ensures path == Returns(None) && area.start != area.finish && old(area.start.status) == Start &&
            old(area.finish.status) == Finish ==>
      forall p :: IsWalk(g, area.start, p) ==> p[|p| - 1] != area.finish
    ensures path.Returns? && path.value.Some? ==> NoWalkShorter(g, area.start, area.finish, |path.value.value|)
  {
    ghost var startMarked, finishMarked := area.start.status == Start, area.finish.status == Finish;
    ghost var reached, parents;
    path, g, reached, parents := BreadthFirst.Execute(area);
    if path == Returns(None) && area.start != area.finish && startMarked && finishMarked {
      forall p | IsWalk(g, area.start, p)
        ensures p[|p| - 1] != area.finish
      {
        NoWalkToFinish(g, area.start, area.finish, reached, p);
      }
    }
  }

  /** The depth-first run, as the controller sees it. */
  method RunDepthFirst(area: SearchArea) returns (path: Outcome<Option<seq<Node>>>, ghost g: Graph)
    requires area.Valid() && area.kind == DFS && area.start != null && area.finish != null
    requires forall c :: c in area.Cells ==> c.parent == null && !c.visited
    modifies area.Cells
    ensures area.Valid() && MarksLeft(area.Cells, old(StatusesOf(area.Cells)), path)
    ensures area.IsMoveGraph(old(area.CellsWith(Obstacle)), g)
    ensures Reported(g, area.start, area.finish, old(area.start.status) == Start, old(area.finish.status) == Finish, path)
    ensures path == Returns(None) && area.start != area.finish && old(area.start.status) == Start &&
            old(area.finish.status) == Finish ==>
      forall p :: IsWalk(g, area.start, p) ==> p[|p| - 1] != area.finish
  {
    ghost var startMarked, finishMarked := area.start.status == Start, area.finish.status == Finish;
    ghost var reached, parents;
    path, g, reached, parents := DepthFirst.Execute(area);
    if path == Returns(None) && area.start != area.finish && startMarked && finishMarked {
      forall p | IsWalk(g, area.start, p)
        ensures p[|p| - 1] != area.finish
      {
        NoWalkToFinish(g, area.start, area.finish, reached, p);
      }
    }
  }

  /** The A* run, as the controller sees it; without a heuristic it finds nothing. */
  method RunAStar(area: SearchArea, a: AStarAlgorithm) returns (path: Outcome<Option<seq<Node>>>, ghost g: Graph)
    requires area.Valid() && area.kind == AStar && area.SearchFresh() && area.start != null && area.finish != null
    modifies a, area.Cells
    ensures area.Valid() && MarksLeft(area.Cells, old(StatusesOf(area.Cells)), path)
    ensures a.heuristic == None ==> path == Returns(None)
    ensures a.heuristic != None ==>
      area.IsMoveGraph(old(area.CellsWith(Obstacle)), g) &&
      Reported(g, area.start, area.finish, old(area.start.status) == Start, old(area.finish.status) == Finish, path)
    ensures a.heuristic != None && path == Returns(None) && area.start != area.finish ==>
      forall p :: IsWalk(g, area.start, p) ==> p[|p| - 1] != area.finish
  {
    ghost var s;
    path, g, s := a.Execute(area);
    if path == Returns(None) && area.start != area.finish && a.heuristic.Some? {
      forall p | IsWalk(g, area.start, p)
        ensures p[|p| - 1] != area.finish
      {
        ClosedSetContainsWalks(g, s.closed, area.start, p, |p| - 1);
      }
    }
  }
}
