/**
 * The search area: a width-by-height grid of cells, the start and finish cells, the
 * obstacle cells, and the neighbour queries the searches use.
 */
module Grid {
  import opened Wrappers
  import opened Directions
  import opened NodeStatuses
  import opened Nodes
  import opened CornerCutting
  import opened Bresenham

  class SearchArea {
    const width: int
    const height: int
    const kind: AlgorithmType
    /** columns[x][y] is the cell at (x, y). */
    const columns: seq<seq<Node>>
    /** Every cell of the grid. */
    ghost const Cells: set<Node>
    var start: Node?
    var finish: Node?
    var obstacleNodes: set<Node>

    /**
     * The fixed layout: columns[x][y] is a cell of the grid with coordinate (x, y), built for
     * `kind`.
     */
    ghost predicate Layout() {
      1 <= width && 1 <= height && |columns| == width &&
      (forall x :: 0 <= x < width ==> |columns[x]| == height) &&
      (forall x, y :: 0 <= x < width && 0 <= y < height ==>
         columns[x][y] in Cells && columns[x][y].X() == x && columns[x][y].Y() == y && columns[x][y].kind == kind)
    }

    /** The layout, and the grid has no cells besides those of the columns. */
    ghost predicate Shape() {
      Layout() && Cells == set x, y | 0 <= x < width && 0 <= y < height :: columns[x][y]
    }

    /**
     * The class invariant: the start, finish and obstacle cells are cells of the grid, and
     * the only cell that can carry START (FINISH) is the start (finish) cell.
     */
    ghost predicate Valid()
      reads this, Cells`status
    {
      Shape() &&
      (start != null ==> start in Cells) && (finish != null ==> finish in Cells) &&
      obstacleNodes <= Cells &&
      (forall c :: c in Cells && c.status == Start ==> c == start) &&
      (forall c :: c in Cells && c.status == Finish ==> c == finish)
    }

    /**
     * The search fields as the constructor and the configuration setters leave them: no
     * parent links (except the self-link of an A* START cell), nothing visited, open or closed.
     */
    ghost predicate SearchFresh()
      reads this, Cells
    {
      forall c :: c in Cells ==>
        (c.parent == null || (c.kind == AStar && c.status == Start && c.parent == c)) &&
        (c.kind == DFS ==> !c.visited) &&
        (c.kind == AStar ==> !c.open && !c.closed)
    }

    predicate CoordInSearchArea(x: int, y: int) {
      0 <= x < width && 0 <= y < height
    }

    /** The cell at an in-range coordinate. */
    function CellAt(p: Coord): (r: Node)
      requires Layout() && CoordInSearchArea(p.x, p.y)
      ensures r in Cells && r.Coordinate() == p
    {
      columns[p.x][p.y]
    }

    /** The cell at (x, y), or null when (x, y) is outside the area. */
    function GetNode(x: int, y: int): (r: Node?)
      requires Layout()
      ensures r != null <==> CoordInSearchArea(x, y)
      ensures r != null ==> r in Cells && r.X() == x && r.Y() == y
    {
      if CoordInSearchArea(x, y) then columns[x][y] else null
    }

    /** Builds the grid, one column at a time, each cell made by the factory for `kind`. */
    constructor (width: int, height: int, kind: AlgorithmType)
      requires 1 <= width && 1 <= height
      ensures this.width == width && this.height == height && this.kind == kind
      ensures Valid() && SearchFresh() && fresh(Cells)
      ensures start == null && finish == null && obstacleNodes == {}
      ensures forall c :: c in Cells ==> c.status == Empty && c.parent == null && !c.visited
      ensures kind == AStar ==> forall c :: c in Cells ==> c.Initialized()
    {
      var cols: seq<seq<Node>> := [];
      var x := 0;
      while x < width
        invariant 0 <= x <= width && |cols| == x
        invariant forall i :: 0 <= i < x ==> |cols[i]| == height
        invariant forall i, j :: 0 <= i < x && 0 <= j < height ==>
          fresh(cols[i][j]) && cols[i][j].X() == i && cols[i][j].Y() == j && cols[i][j].kind == kind &&
          cols[i][j].status == Empty && cols[i][j].parent == null && !cols[i][j].visited &&
          (kind == AStar ==> cols[i][j].Initialized())
      {
        var col: seq<Node> := [];
        var y := 0;
        while y < height
          modifies {}
          invariant 0 <= y <= height && |col| == y
          invariant forall j :: 0 <= j < y ==>
            fresh(col[j]) && col[j].X() == x && col[j].Y() == j && col[j].kind == kind &&
            col[j].status == Empty && col[j].parent == null && !col[j].visited &&
            (kind == AStar ==> col[j].Initialized())
        {
          var aNode := BuildNode(x, y, kind);
          col := col + [aNode];
          y := y + 1;
        }
        cols := cols + [col];
        x := x + 1;
      }
      this.width := width;
      this.height := height;
      this.kind := kind;
      columns := cols;
      Cells := set i, j | 0 <= i < width && 0 <= j < height :: cols[i][j];
      start := null;
      finish := null;
      obstacleNodes := {};
    }

    /** A cell of the grid sits at its own coordinate. */
    lemma CellPosition(c: Node)
      requires Shape() && c in Cells
      ensures CoordInSearchArea(c.X(), c.Y()) && columns[c.X()][c.Y()] == c
    {
    }

    /** Distinct cells have distinct coordinates, and so distinct point objects. */
    lemma CellsDistinct(c: Node, e: Node)
      requires Shape() && c in Cells && e in Cells && c != e
      ensures c.Coordinate() != e.Coordinate() && c.point != e.point
    {
      CellPosition(c);
      CellPosition(e);
    }

    // -------------------------------------------------------------------------------------
    // Neighbours.

    /** The cells that carry status s. */
    ghost function CellsWith(s: NodeStatus): set<Node>
      reads Cells`status
    {
      set c | c in Cells && c.status == s
    }

    /** The cell in direction d of n exists and is not one of the blocked cells. */
    ghost predicate Admits(blocked: set<Node>, n: Node, d: Direction)
      requires Layout()
    {
      var p := AdjacentPoint(d, n.X(), n.Y());
      CoordInSearchArea(p.x, p.y) && CellAt(p) !in blocked
    }

    /** The neighbour map of n restricted to the directions in ds, given the blocked cells. */
    ghost function NeighborsAmong(blocked: set<Node>, n: Node, ds: set<Direction>): map<Direction, Node>
      requires Layout()
    {
      map d | d in ds && Admits(blocked, n, d) :: CellAt(AdjacentPoint(d, n.X(), n.Y()))
    }

    /**
     * The neighbours of n when `blocked` are the obstacles: for each direction whose adjacent
     * cell is in the area and not blocked, that cell; nothing at all when n itself lies
     * outside the area.
     */
    ghost function NeighborsGiven(blocked: set<Node>, n: Node): map<Direction, Node>
      requires Layout()
    {
      if CoordInSearchArea(n.X(), n.Y()) then NeighborsAmong(blocked, n, AllDirections) else map[]
    }

    /** The neighbours of n among the cells that do not carry OBSTACLE now. */
    ghost function Neighbors(n: Node): map<Direction, Node>
      requires Layout()
      reads Cells`status
    {
      NeighborsGiven(CellsWith(Obstacle), n)
    }

    /**
     * The moves every search considers from n: its neighbours under the strict corner rule,
     * which is what all three strategies ask for. The searches never change a status, so they
     * evaluate this for the blocked cells as they were when the search began.
     */
    ghost function StrictMoves(blocked: set<Node>, n: Node): map<Direction, Node>
      requires Layout()
    {
      Walkable(NeighborsGiven(blocked, n), false)
    }

    method GetNeighbors(aNode: Node) returns (neighbors: map<Direction, Node>)
      requires Layout()
      ensures neighbors == Neighbors(aNode)
    {
      var x := aNode.X();
      var y := aNode.Y();
      neighbors := map[];
      if CoordInSearchArea(x, y) {
        ghost var seen: set<Direction> := {};
        for i := 0 to |Values|
          invariant seen == set j | 0 <= j < i :: Values[j]
          invariant neighbors == NeighborsAmong(CellsWith(Obstacle), aNode, seen)
        {
          var dir := Values[i];
          var adjacent := AdjacentPoint(dir, x, y);
          var neighbor := GetNode(adjacent.x, adjacent.y);
          if CoordInSearchArea(adjacent.x, adjacent.y) && !neighbor.IsObstacle() {
            neighbors := neighbors[dir := neighbor];
          }
          seen := seen + {dir};
          assert neighbors == NeighborsAmong(CellsWith(Obstacle), aNode, seen);
        }
        ValuesEnumerateAll();
        assert seen == AllDirections;
      }
    }

    /** The neighbours of aNode after the corner-cutting rule. */
    method GetWalkableNeighbors(aNode: Node, cuttingCornersAllowed: bool) returns (walkable: map<Direction, Node>)
      requires Layout()
      ensures walkable == Walkable(Neighbors(aNode), cuttingCornersAllowed)
    {
      walkable := GetNeighbors(aNode);
      TrimsComputeWalkable(walkable, cuttingCornersAllowed);
      walkable := TrimDiagonal(walkable, NorthEast, cuttingCornersAllowed);
      walkable := TrimDiagonal(walkable, SouthEast, cuttingCornersAllowed);
      walkable := TrimDiagonal(walkable, SouthWest, cuttingCornersAllowed);
      walkable := TrimDiagonal(walkable, NorthWest, cuttingCornersAllowed);
    }

    /**
     * d is a neighbour direction of n exactly when n is in the area and the adjacent cell in
     * direction d is in the area and not an obstacle; the entry is that cell.
     */
    lemma NeighborsExactly(n: Node, d: Direction)
      requires Layout()
      ensures var p := AdjacentPoint(d, n.X(), n.Y());
        d in Neighbors(n) <==>
          CoordInSearchArea(n.X(), n.Y()) && CoordInSearchArea(p.x, p.y) && !CellAt(p).IsObstacle()
      ensures d in Neighbors(n) ==> Neighbors(n)[d] == CellAt(AdjacentPoint(d, n.X(), n.Y()))
    {
      ValuesEnumerateAll();
    }

    /** There are at most eight neighbours, all of them cells of the grid. */
    lemma NeighborsBounded(n: Node)
      requires Layout()
      ensures |Neighbors(n)| <= 8
      ensures forall d :: d in Neighbors(n) ==> Neighbors(n)[d] in Cells
    {
      ValuesEnumerateAll();
      assert Neighbors(n).Keys <= AllDirections;
      AllDirectionsCount();
      SubsetCardinality(Neighbors(n).Keys, AllDirections);
    }

    /** A walkable neighbour in direction d is a non-obstacle cell one step away along d. */
    lemma WalkableStep(n: Node, d: Direction, cut: bool)
      requires Layout() && d in Walkable(Neighbors(n), cut)
      ensures var m := Walkable(Neighbors(n), cut)[d];
        m in Cells && !m.IsObstacle() && m.Coordinate() == AdjacentPoint(d, n.X(), n.Y())
      ensures d in Neighbors(n)
    {
      NeighborsExactly(n, d);
    }

    /**
     * g is the graph the searches explore: for every cell, the cells its strict moves reach
     * when `blocked` are the obstacles. (The link to StrictMoves is only drawn where a search
     * asks for one cell's moves.)
     */
    ghost predicate IsMoveGraph(blocked: set<Node>, g: map<Node, set<Node>>)
      requires Layout()
    {
      g.Keys == Cells && (forall c :: c in g ==> g[c] <= Cells) &&
      forall c {:trigger StrictMoves(blocked, c)} :: c in g ==> g[c] == StrictMoves(blocked, c).Values
    }

    /** The move graph exists, whatever the blocked cells. */
    lemma MoveGraph(blocked: set<Node>) returns (g: map<Node, set<Node>>)
      requires Layout()
      ensures IsMoveGraph(blocked, g)
    {
      forall c, n | c in Cells && n in StrictMoves(blocked, c).Values
        ensures n in Cells
      {
        StrictMoveTarget(blocked, c, n);
      }
      g := map c | c in Cells :: StrictMoves(blocked, c).Values;
    }

    /** Any two move graphs for the same blocked cells are the same. */
    lemma MoveGraphUnique(blocked: set<Node>, g: map<Node, set<Node>>, h: map<Node, set<Node>>)
      requires Layout() && IsMoveGraph(blocked, g) && IsMoveGraph(blocked, h)
      ensures g == h
    {
      forall c | c in g
        ensures g[c] == h[c]
      {
        assert g[c] == StrictMoves(blocked, c).Values;
      }
    }

    /** A strict move leads to a cell of the grid that is not blocked. */
    lemma StrictMoveTarget(blocked: set<Node>, p: Node, n: Node)
      requires Layout() && n in StrictMoves(blocked, p).Values
      ensures n in Cells && n !in blocked
    {
      var d :| d in StrictMoves(blocked, p) && StrictMoves(blocked, p)[d] == n;
      assert d in NeighborsGiven(blocked, p);
    }

    /**
     * M maps every cell to its strict moves by direction, when `blocked` are the obstacles:
     * the move graph with the directions kept, which the depth-first prune consults.
     */
    ghost predicate IsMoveMap(blocked: set<Node>, M: map<Node, map<Direction, Node>>)
      requires Layout()
    {
      M.Keys == Cells &&
      forall c {:trigger StrictMoves(blocked, c)} :: c in M ==> M[c] == StrictMoves(blocked, c)
    }

    /** The move map exists, and it agrees with every move graph for the same blocked cells. */
    lemma MoveMap(blocked: set<Node>, g: map<Node, set<Node>>) returns (M: map<Node, map<Direction, Node>>)
      requires Layout() && IsMoveGraph(blocked, g)
      ensures IsMoveMap(blocked, M)
      ensures forall c :: c in M ==> M[c].Values == g[c]
    {
      M := map c | c in Cells :: StrictMoves(blocked, c);
      forall c | c in M
        ensures M[c].Values == g[c]
      {
        assert g[c] == StrictMoves(blocked, c).Values;
      }
    }

    /**
     * A strict diagonal move from c has both flanking orthogonal moves, to two different
     * cells, and from each flank the diagonal's target is one orthogonal move away (along the
     * other flank's direction).
     */
    lemma FlankSteps(blocked: set<Node>, M: map<Node, map<Direction, Node>>, c: Node, d: Direction)
      requires Layout() && IsMoveMap(blocked, M) && c in M && d in M[c] && IsDiagonal(d)
      ensures AdjacentDirectionCW(d) in M[c] && AdjacentDirectionCCW(d) in M[c]
      ensures M[c][AdjacentDirectionCW(d)] != M[c][AdjacentDirectionCCW(d)]
      ensures var f := M[c][AdjacentDirectionCW(d)];
        f in M && AdjacentDirectionCCW(d) in M[f] && M[f][AdjacentDirectionCCW(d)] == M[c][d]
      ensures var f := M[c][AdjacentDirectionCCW(d)];
        f in M && AdjacentDirectionCW(d) in M[f] && M[f][AdjacentDirectionCW(d)] == M[c][d]
    {
      var cw, ccw := AdjacentDirectionCW(d), AdjacentDirectionCCW(d);
      DiagonalFlanks(d);
      FlankStep(blocked, M, c, d, cw, ccw);
      FlankStep(blocked, M, c, d, ccw, cw);
      if M[c][cw] == M[c][ccw] {
        OffsetsDistinct(cw, ccw);
      }
    }

    /** One flank s of the strict diagonal move d from c: from there, o leads to d's target. */
    lemma FlankStep(blocked: set<Node>, M: map<Node, map<Direction, Node>>, c: Node, d: Direction,
                    s: Direction, o: Direction)
      requires Layout() && IsMoveMap(blocked, M) && c in M && d in M[c] && IsDiagonal(d)
      requires !IsDiagonal(s) && !IsDiagonal(o) && (s == AdjacentDirectionCW(d) || s == AdjacentDirectionCCW(d))
      requires DeltaX(s) + DeltaX(o) == DeltaX(d) && DeltaY(s) + DeltaY(o) == DeltaY(d)
      ensures s in M[c] && M[c][s].Coordinate() == AdjacentPoint(s, c.X(), c.Y())
      ensures var f := M[c][s]; f in M && o in M[f] && M[f][o] == M[c][d]
    {
      var ng := NeighborsGiven(blocked, c);
      assert M[c] == StrictMoves(blocked, c) == Walkable(ng, false);
      StrictKeepsDiagonalIffBothFlanks(ng, d);
      WalkableKeepsOrthogonal(ng, false, s);
      var f := ng[s];
      assert f == CellAt(AdjacentPoint(s, c.X(), c.Y()));
      var nf := NeighborsGiven(blocked, f);
      assert M[f] == StrictMoves(blocked, f) == Walkable(nf, false);
      assert AdjacentPoint(o, f.X(), f.Y()) == AdjacentPoint(d, c.X(), c.Y());
      assert Admits(blocked, f, o);
      assert o in nf;
      WalkableKeepsOrthogonal(nf, false, o);
    }

    // -------------------------------------------------------------------------------------
    // Start and finish.

    /**
     * Makes the cell at (x, y) the start. The finish is consulted only when a start already
     * exists: replacing the start by the finish cell is refused, and with no finish set, the
     * comparison dereferences null.
     */
    method SetStart(x: int, y: int) returns (r: Outcome<bool>)
      requires Valid()
      modifies this, Cells
      ensures Valid()
      ensures finish == old(finish) && obstacleNodes == old(obstacleNodes)
      ensures !CoordInSearchArea(x, y) ==> r == Throws(IndexOutOfBounds)
      ensures CoordInSearchArea(x, y) && old(start) != null && old(finish) == null ==> r == Throws(NullPointer)
      ensures CoordInSearchArea(x, y) && old(start) != null && old(finish) != null && columns[x][y] == old(finish) ==>
        r == Returns(false)
      ensures r != Returns(true) ==> start == old(start) && forall c :: c in Cells ==> c.State() == old(c.State())
      ensures r == Returns(true) <==>
        CoordInSearchArea(x, y) && (old(start) == null || (old(finish) != null && columns[x][y] != old(finish)))
      ensures r == Returns(true) ==> start == columns[x][y]
      ensures r == Returns(true) ==>
        forall c :: c in Cells ==>
          (c.State() ==
           var cleared := if c == old(start) then c.AfterSetStatus(old(c.State()), Empty) else old(c.State());
           if c == start then c.AfterSetStatus(cleared, Start) else cleared)
    {
      if !CoordInSearchArea(x, y) {
        return Throws(IndexOutOfBounds);
      }
      var newStart := columns[x][y];
      if start != null {
        if finish == null {
          return Throws(NullPointer);
        }
        if newStart.point == finish.point {
          return Returns(false);
        }
        if newStart != finish {
          CellsDistinct(newStart, finish);
        }
        start.SetStatus(Empty);
      }
      start := newStart;
      start.SetStatus(Start);
      return Returns(true);
    }

    /** Makes the cell at (x, y) the finish; the mirror image of SetStart. */
    method SetFinish(x: int, y: int) returns (r: Outcome<bool>)
      requires Valid()
      modifies this, Cells
      ensures Valid()
      ensures start == old(start) && obstacleNodes == old(obstacleNodes)
      ensures !CoordInSearchArea(x, y) ==> r == Throws(IndexOutOfBounds)
      ensures CoordInSearchArea(x, y) && old(finish) != null && old(start) == null ==> r == Throws(NullPointer)
      ensures CoordInSearchArea(x, y) && old(finish) != null && old(start) != null && columns[x][y] == old(start) ==>
        r == Returns(false)
      ensures r != Returns(true) ==> finish == old(finish) && forall c :: c in Cells ==> c.State() == old(c.State())
      ensures r == Returns(true) <==>
        CoordInSearchArea(x, y) && (old(finish) == null || (old(start) != null && columns[x][y] != old(start)))
      ensures r == Returns(true) ==> finish == columns[x][y]
      ensures r == Returns(true) ==>
        forall c :: c in Cells ==>
          (c.State() ==
           var cleared := if c == old(finish) then c.AfterSetStatus(old(c.State()), Empty) else old(c.State());
           if c == finish then c.AfterSetStatus(cleared, Finish) else cleared)
    {
      if !CoordInSearchArea(x, y) {
        return Throws(IndexOutOfBounds);
      }
      var newFinish := columns[x][y];
      if finish != null {
        if start == null {
          return Throws(NullPointer);
        }
        if newFinish.point == start.point {
          return Returns(false);
        }
        if newFinish != start {
          CellsDistinct(newFinish, start);
        }
        finish.SetStatus(Empty);
      }
      finish := newFinish;
      finish.SetStatus(Finish);
      return Returns(true);
    }

    predicate HasStart() reads this { start != null }
    predicate HasFinish() reads this { finish != null }

    // -------------------------------------------------------------------------------------
    // Obstacles.

    /** The cells a line of in-range points covers. */
    ghost function LineCells(line: seq<Coord>): set<Node>
      requires Shape() && forall i :: 0 <= i < |line| ==> CoordInSearchArea(line[i].x, line[i].y)
    {
      set i | 0 <= i < |line| :: CellAt(line[i])
    }

    /**
     * Marks the Bresenham line from (x0, y0) to (x1, y1) as obstacles, or returns false when
     * an endpoint is outside the area. The check meant to refuse a line over the start or the
     * finish compares freshly built point objects by reference and so never refuses.
     */
    method AddObstacle(x0: int, y0: int, x1: int, y1: int) returns (r: bool, ghost line: seq<Coord>)
      requires Valid()
      modifies this, Cells
      ensures Valid()
      ensures start == old(start) && finish == old(finish)
      ensures r <==> CoordInSearchArea(x0, y0) && CoordInSearchArea(x1, y1)
      ensures !r ==> obstacleNodes == old(obstacleNodes) && forall c :: c in Cells ==> c.State() == old(c.State())
      ensures r ==> IsLine(line, x0, y0, x1, y1)
      ensures r ==> forall i :: 0 <= i < |line| ==> CoordInSearchArea(line[i].x, line[i].y)
      ensures r ==> obstacleNodes == old(obstacleNodes) + LineCells(line)
      ensures r ==> forall c :: c in Cells ==>
        (c.State() == if c.Coordinate() in line then c.AfterSetStatus(old(c.State()), Obstacle) else old(c.State()))
    {
      if !CoordInSearchArea(x0, y0) || !CoordInSearchArea(x1, y1) {
        return false, [];
      }
      var obPoints := RasterizeLine(x0, y0, x1, y1);
      line := obPoints;
      LineInBox(obPoints, x0, y0, x1, y1);
      forall i | 0 <= i < |obPoints|
        ensures CoordInSearchArea(obPoints[i].x, obPoints[i].y)
      {
        assert InBox(obPoints[i], x0, y0, x1, y1);
      }
      for i := 0 to |obPoints|
        modifies {}
      {
        var p := new Point(obPoints[i].x, obPoints[i].y);
        // p is a new object, so it is never the start's or the finish's point: the
        // rejection the source writes here cannot happen.
        if start != null && p == start.point {
          assert false;
        }
        if finish != null && p == finish.point {
          assert false;
        }
      }
      MarkObstacles(obPoints);
      return true, line;
    }

    /** Gives every cell on the (in-range) line the OBSTACLE status and records it. */
    method MarkObstacles(obPoints: seq<Coord>)
      requires Valid() && forall i :: 0 <= i < |obPoints| ==> CoordInSearchArea(obPoints[i].x, obPoints[i].y)
      modifies this, Cells
      ensures Valid()
      ensures start == old(start) && finish == old(finish)
      ensures obstacleNodes == old(obstacleNodes) + LineCells(obPoints)
      ensures forall c :: c in Cells ==>
        (c.State() == if c.Coordinate() in obPoints then c.AfterSetStatus(old(c.State()), Obstacle) else old(c.State()))
    {
      ghost var marked: set<Node> := {};
      for i := 0 to |obPoints|
        invariant Valid()
        invariant start == old(start) && finish == old(finish)
        invariant marked == LineCells(obPoints[..i])
        invariant obstacleNodes == old(obstacleNodes) + marked
        invariant forall c :: c in Cells ==>
          (c.State() == if c in marked then c.AfterSetStatus(old(c.State()), Obstacle) else old(c.State()))
      {
        var obNode := GetNode(obPoints[i].x, obPoints[i].y);
        MarkObstacle(obNode);
        SetStatusIdempotent(obNode, old(obNode.State()), Obstacle);
        marked := marked + {obNode};
        LineCellsSnoc(obPoints, i);
      }
      assert obPoints[..|obPoints|] == obPoints;
      forall c | c in Cells
        ensures c in marked <==> c.Coordinate() in obPoints
      {
        LineCellsMembership(obPoints, c);
      }
    }

    /** Gives one cell the OBSTACLE status and records it. */
    method MarkObstacle(obNode: Node)
      requires Valid() && obNode in Cells
      modifies this, obNode
      ensures Valid()
      ensures start == old(start) && finish == old(finish)
      ensures obstacleNodes == old(obstacleNodes) + {obNode}
      ensures obNode.State() == obNode.AfterSetStatus(old(obNode.State()), Obstacle)
    {
      obNode.SetStatus(Obstacle);
      obstacleNodes := obstacleNodes + {obNode};
    }

    lemma LineCellsSnoc(line: seq<Coord>, i: int)
      requires Shape() && 0 <= i < |line| && forall k :: 0 <= k < |line| ==> CoordInSearchArea(line[k].x, line[k].y)
      ensures LineCells(line[..i + 1]) == LineCells(line[..i]) + {CellAt(line[i])}
    {
      assert line[..i + 1] == line[..i] + [line[i]];
    }

    lemma LineCellsMembership(line: seq<Coord>, c: Node)
      requires Shape() && c in Cells && forall k :: 0 <= k < |line| ==> CoordInSearchArea(line[k].x, line[k].y)
      ensures c in LineCells(line) <==> c.Coordinate() in line
    {
      if c.Coordinate() in line {
        var k :| 0 <= k < |line| && line[k] == c.Coordinate();
        CellPosition(c);
        assert CellAt(line[k]) == c;
      }
    }
  }

  lemma SubsetCardinality<T>(a: set<T>, b: set<T>)
    requires a <= b
    ensures |a| <= |b|
  {
    if a != {} {
      var e :| e in a;
      SubsetCardinality(a - {e}, b - {e});
    }
  }
}
