/**
 * The A* strategy. The start is opened with cost g = 0 and its heuristic estimate h. Then,
 * until the finish is closed or nothing is open, some open cell is closed and each of its
 * strict walkable neighbours is relaxed: a closed neighbour is ignored, a neighbour never
 * opened is opened with the current cell as parent, g = g(current) + the cost of the move and
 * its h, and an open neighbour is re-linked to the current cell when that lowers its g.
 *
 * The open list is a priority queue whose keys the search changes in place without
 * re-ordering it, so the cell it yields need not be the cheapest one: the model closes some
 * open cell, and what it proves holds whichever cell that is. The ghost value `Lists` mirrors
 * the open and closed lists, the costs of the opened cells and their parent links.
 */
module AStarSearch {
  import opened Wrappers
  import opened Directions
  import opened NodeStatuses
  import opened Nodes
  import opened Grid
  import opened Paths
  import opened SearchTrees

  /** A heuristic estimates the cost from its first point to its second. */
  type Heuristic = (Coord, Coord) -> int

  /** The cost of the move from p to the adjacent cell c: the cost of the direction from p to c. */
  function StepCost(p: Node, c: Node): int {
    match FromOffset(c.X() - p.X(), c.Y() - p.Y())
    case None => 0
    case Some(d) => CostToNeighbor(d)
  }

  /** The sum of the move costs along p, setting out from `from`. */
  function PathCost(from: Node, p: seq<Node>): int
    decreases |p|
  {
    if p == [] then 0 else StepCost(from, p[0]) + PathCost(p[0], p[1..])
  }

  /**
   * The search's bookkeeping: the open and the closed cells, the cost g of every cell opened
   * so far and the parent of every opened cell but the start.
   */
  datatype Lists = Lists(open: set<Node>, closed: set<Node>, cost: map<Node, nat>, parents: map<Node, Node>)
  {
    /** The cells opened so far; they stay open until they are closed. */
    function Seen(): set<Node> { open + closed }
  }

  /**
   * Every link leads from a closed cell, and the child's cost is its parent's plus the cost
   * of the move between them.
   */
  ghost predicate CostsLinked(s: Lists) {
    forall c :: c in s.parents ==>
      s.parents[c] in s.closed && c in s.cost && s.parents[c] in s.cost &&
      s.cost[c] == s.cost[s.parents[c]] + StepCost(s.parents[c], c)
  }

  /**
   * The shape of the lists at any time: no cell is both open and closed; the links form a
   * discovery tree over the opened cells, ranked by cost, with the start at cost 0; the
   * start is closed unless it is still the only cell ever opened; and costs follow the links.
   */
  ghost predicate Tree(g: Graph, root: Node, s: Lists) {
    s.open !! s.closed &&
    DiscoveryTree(g, root, s.parents, s.Seen(), s.cost) &&
    s.cost[root] == 0 &&
    (root in s.closed || (s.open == {root} && s.closed == {})) &&
    CostsLinked(s)
  }

  /** Between two turns of the main loop: every closed cell has had all of its moves opened. */
  ghost predicate Searching(g: Graph, root: Node, s: Lists) {
    Tree(g, root, s) && forall c :: c in s.closed ==> g[c] <= s.Seen()
  }

  /**
   * While `current` is being expanded: every other closed cell has had its moves opened, and
   * so have the neighbours of `current` in the directions already handled.
   */
  ghost predicate Relaxing(g: Graph, root: Node, s: Lists, current: Node, walkable: map<Direction, Node>,
                           dirs: set<Direction>) {
    Tree(g, root, s) && current in s.closed && dirs <= walkable.Keys &&
    (forall c :: c in s.closed && c != current ==> g[c] <= s.Seen()) &&
    forall d :: d in walkable && d !in dirs ==> walkable[d] in s.Seen()
  }

  /**
   * From s0 to s nothing is lost and nothing gets dearer: closed cells stay closed with their
   * cost and their link, opened cells stay opened, and an open cell's cost never rises.
   */
  ghost predicate Monotone(s0: Lists, s: Lists) {
    s0.cost.Keys == s0.Seen() && s.cost.Keys == s.Seen() &&
    s0.closed <= s.closed && s0.Seen() <= s.Seen() &&
    (forall c :: c in s0.closed ==>
       s.cost[c] == s0.cost[c] && (c in s0.parents ==> c in s.parents && s.parents[c] == s0.parents[c])) &&
    forall c :: c in s0.open ==> s.cost[c] <= s0.cost[c]
  }

  /**
   * The relaxation of neighbour n of `current` at the tentative cost temp: a closed n is
   * ignored; an n never opened is opened at cost temp as a child of `current`; an open n is
   * re-linked to `current` at cost temp when temp is lower than its cost, and left alone
   * otherwise.
   */
  ghost predicate Relaxed(s0: Lists, s: Lists, current: Node, n: Node, temp: nat) {
    if n in s0.closed then s == s0
    else if n !in s0.open then
      s == s0.(open := s0.open + {n}, cost := s0.cost[n := temp], parents := s0.parents[n := current])
    else if n in s0.cost && temp < s0.cost[n] then
      s == s0.(cost := s0.cost[n := temp], parents := s0.parents[n := current])
    else s == s0
  }

  /** The open flags of the cells are set exactly on `open`. */
  ghost predicate OpenAre(cells: set<Node>, open: set<Node>)
    reads cells`open
  {
    forall c {:trigger c.open} :: c in cells ==> c.open == (c in open)
  }

  /** The closed flags of the cells are set exactly on `closed`. */
  ghost predicate ClosedAre(cells: set<Node>, closed: set<Node>)
    reads cells`closed
  {
    forall c {:trigger c.closed} :: c in cells ==> c.closed == (c in closed)
  }

  /** Every cell with a cost in `cost` holds it as its cost from the start. */
  ghost predicate CostsAre(cells: set<Node>, cost: map<Node, nat>)
    reads cells`costFromStart
  {
    forall c {:trigger c.costFromStart} :: c in cells && c in cost ==> c.costFromStart == cost[c]
  }

  /**
   * The flags and fields of the cells mirror the lists: open and closed flags, the cost of
   * every opened cell, and the parent links of every cell but the start.
   */
  ghost predicate Records(cells: set<Node>, root: Node, s: Lists)
    reads cells`open, cells`closed, cells`costFromStart, cells`parent
  {
    OpenAre(cells, s.open) && ClosedAre(cells, s.closed) && CostsAre(cells, s.cost) &&
    ParentsAre(cells - {root}, s.parents)
  }

  /** Every opened cell that is not an obstacle holds the heuristic's estimate to the goal. */
  ghost predicate Estimates(cells: set<Node>, S: map<Node, NodeStatus>, cost: map<Node, nat>, h: Heuristic, goal: Coord)
    reads cells`heuristicCostToFinish
  {
    forall c {:trigger c.heuristicCostToFinish} :: c in cells && c in S && c in cost && S[c] != Obstacle ==>
      c.heuristicCostToFinish == h(c.Coordinate(), goal)
  }

  /** Every cell is an A* cell. */
  ghost predicate AllAStar(cells: set<Node>) {
    forall c :: c in cells ==> c.kind == AStar
  }

  /**
   * What stays fixed during the search: an A* area, the statuses S its cells carry, the
   * obstacles among them and their move graph.
   */
  ghost predicate Setting(area: SearchArea, S: map<Node, NodeStatus>, blocked: set<Node>, g: Graph) {
    area.Layout() && AllAStar(area.Cells) && area.Cells <= S.Keys &&
    blocked == (set c | c in area.Cells && S[c] == Obstacle) && area.IsMoveGraph(blocked, g)
  }

  /**
   * The walkable neighbours of `current`, as the expansion uses them: they are exactly its
   * moves, cells of the area, each reached at the cost of its direction.
   */
  ghost predicate Offers(g: Graph, cells: set<Node>, current: Node, walkable: map<Direction, Node>) {
    current in g && walkable.Values == g[current] &&
    forall d :: d in walkable ==>
      walkable[d] in g[current] && walkable[d] in cells && StepCost(current, walkable[d]) == CostToNeighbor(d)
  }

  /**
   * What the search answers, for the finish and the lists it ends with; `startMarked` says
   * whether the start carried START and `startLinked` whether it had its parent link when
   * the search began. No path means the finish was never opened, or is the start without a
   * link; and then the finish is the start, or nothing is open and the closed cells, the
   * start among them, are closed under moves. An exception means the start was not marked.
   * A path is empty when the finish is the start, and otherwise a walk of moves from the
   * start to the finish whose move costs add up to the finish's cost.
   */
  ghost predicate Answered(g: Graph, start: Node, finish: Node, startMarked: bool, startLinked: bool,
                           s: Lists, r: Outcome<Option<seq<Node>>>) {
    (r == Returns(None) <==> (finish == start && !startLinked) || finish !in s.Seen()) &&
    (r == Returns(None) ==>
       finish == start || (s.open == {} && start in s.closed && ClosedUnderMoves(g, s.closed))) &&
    (r.Throws? ==> r.error == NullPointer && !startMarked) &&
    (r.Returns? && r.value.Some? ==>
       if finish == start then r.value.value == []
       else IsWalk(g, start, r.value.value) && r.value.value[|r.value.value| - 1] == finish &&
            finish in s.cost && PathCost(start, r.value.value) == s.cost[finish])
  }

  // ---------------------------------------------------------------------------------------
  // The lists, step by step.

  /** Closing an open cell keeps the tree and starts its expansion. */
  lemma Closing(g: Graph, root: Node, s0: Lists, current: Node, walkable: map<Direction, Node>)
    requires Searching(g, root, s0) && current in s0.open
    ensures var s := s0.(open := s0.open - {current}, closed := s0.closed + {current});
      Relaxing(g, root, s, current, walkable, walkable.Keys) && Monotone(s0, s)
  {
    var s := s0.(open := s0.open - {current}, closed := s0.closed + {current});
    assert s.Seen() == s0.Seen();
  }

  /** Opening a neighbour never opened before keeps the tree. */
  lemma Opening(g: Graph, root: Node, s0: Lists, current: Node, walkable: map<Direction, Node>,
                dirs0: set<Direction>, dir: Direction, temp: nat)
    requires Relaxing(g, root, s0, current, walkable, dirs0) && dir in dirs0
    requires var n := walkable[dir];
      n in g[current] && n in g && n !in s0.Seen() &&
      temp == s0.cost[current] + StepCost(current, n) && StepCost(current, n) > 0
    ensures var n := walkable[dir];
      var s := s0.(open := s0.open + {n}, cost := s0.cost[n := temp], parents := s0.parents[n := current]);
      Relaxing(g, root, s, current, walkable, dirs0 - {dir}) && Monotone(s0, s)
  {
    var n := walkable[dir];
    var s := s0.(open := s0.open + {n}, cost := s0.cost[n := temp], parents := s0.parents[n := current]);
    assert s.Seen() == s0.Seen() + {n};
    DiscoverOne(g, root, s0.parents, s0.Seen(), s0.cost, current, n, temp);
  }

  /** Re-linking an open neighbour at a lower cost keeps the tree. */
  lemma Improving(g: Graph, root: Node, s0: Lists, current: Node, walkable: map<Direction, Node>,
                  dirs0: set<Direction>, dir: Direction, temp: nat)
    requires Relaxing(g, root, s0, current, walkable, dirs0) && dir in dirs0
    requires var n := walkable[dir];
      n in g[current] && n in s0.open &&
      temp == s0.cost[current] + StepCost(current, n) && StepCost(current, n) > 0 && temp < s0.cost[n]
    ensures var n := walkable[dir];
      var s := s0.(cost := s0.cost[n := temp], parents := s0.parents[n := current]);
      Relaxing(g, root, s, current, walkable, dirs0 - {dir}) && Monotone(s0, s)
  {
    var n := walkable[dir];
    var s := s0.(cost := s0.cost[n := temp], parents := s0.parents[n := current]);
    assert n != root && n !in s0.closed;
    assert s.Seen() == s0.Seen();
    forall c | c in s.parents
      ensures s.parents[c] in s.Seen() && s.cost[s.parents[c]] < s.cost[c] && c in g[s.parents[c]]
    {
      if c != n {
        assert s0.parents[c] in s0.closed;
      }
    }
  }

  /** Whatever the relaxation does, the tree is kept and nothing gets dearer. */
  lemma RelaxedKeeps(g: Graph, cells: set<Node>, root: Node, s0: Lists, s: Lists, current: Node, walkable: map<Direction, Node>,
                     dirs0: set<Direction>, dir: Direction, temp: nat)
    requires Relaxing(g, root, s0, current, walkable, dirs0) && dir in dirs0
    requires Offers(g, cells, current, walkable) && g.Keys == cells
    requires temp == s0.cost[current] + CostToNeighbor(dir)
    requires Relaxed(s0, s, current, walkable[dir], temp)
    ensures Relaxing(g, root, s, current, walkable, dirs0 - {dir}) && Monotone(s0, s) && s.closed == s0.closed
  {
    var n := walkable[dir];
    assert n in g[current] && n in g && StepCost(current, n) == CostToNeighbor(dir);
    if n in s0.closed {
    } else if n !in s0.open {
      Opening(g, root, s0, current, walkable, dirs0, dir, temp);
    } else if temp < s0.cost[n] {
      Improving(g, root, s0, current, walkable, dirs0, dir, temp);
    }
  }

  lemma MonotoneTrans(s0: Lists, s1: Lists, s2: Lists)
    requires Monotone(s0, s1) && Monotone(s1, s2)
    ensures Monotone(s0, s2)
  {
    forall c | c in s0.open
      ensures s2.cost[c] <= s0.cost[c]
    {
      assert c in s1.Seen();
    }
  }

  /** Once every neighbour of `current` is handled, all closed cells have their moves opened. */
  lemma ExpandedAll(g: Graph, root: Node, s: Lists, current: Node, walkable: map<Direction, Node>)
    requires Relaxing(g, root, s, current, walkable, {}) && current in g && walkable.Values == g[current]
    ensures Searching(g, root, s)
  {
    forall n | n in g[current]
      ensures n in s.Seen()
    {
      var d :| d in walkable && walkable[d] == n;
    }
  }

  /** With nothing open, the closed cells hold the start and are closed under moves. */
  lemma Exhausted(g: Graph, root: Node, s: Lists)
    requires Searching(g, root, s) && s.open == {}
    ensures root in s.closed && ClosedUnderMoves(g, s.closed)
  {
  }

  /** No cell but the start is opened unless it is a move of a closed cell, so no obstacle is. */
  lemma OpenedAreWalkable(area: SearchArea, blocked: set<Node>, g: Graph, root: Node, s: Lists)
    requires area.Layout() && area.IsMoveGraph(blocked, g) && Tree(g, root, s)
    ensures forall c :: c in s.Seen() && c != root ==> c !in blocked
  {
    forall c | c in s.Seen() && c != root
      ensures c !in blocked
    {
      var p := s.parents[c];
      assert c in g[p] && g[p] == area.StrictMoves(blocked, p).Values;
      area.StrictMoveTarget(blocked, p, c);
    }
  }

  /**
   * Down the tree's links from `from`, the move costs add up to the difference between the
   * last cell's cost and `from`'s.
   */
  lemma {:induction false} PathCostAlongLinks(s: Lists, from: Node, p: seq<Node>)
    requires CostsLinked(s) && FollowsLinks(s.parents, from, p) && p != [] && from in s.cost
    ensures p[|p| - 1] in s.cost && s.cost[from] + PathCost(from, p) == s.cost[p[|p| - 1]]
    decreases |p|
  {
    assert LinkedAt(s.parents, from, p, 0);
    if |p| > 1 {
      var rest := p[1..];
      forall i | 0 <= i < |rest|
        ensures LinkedAt(s.parents, p[0], rest, i)
      {
        assert rest[i] == p[i + 1] && LinkedAt(s.parents, from, p, i + 1);
      }
      PathCostAlongLinks(s, p[0], rest);
      assert p[|p| - 1] == rest[|rest| - 1];
    }
  }

  /**
   * What the path builder returns along the final lists means what `Answered` says: the path
   * builder's own promise, with the cost of the path read off the links and, when the finish
   * was never opened, the exhausted open list.
   */
  lemma Answer(g: Graph, start: Node, finish: Node, startMarked: bool, startLinked: bool, s: Lists,
               r: Outcome<Option<seq<Node>>>)
    requires Searching(g, start, s) && (finish in s.closed || s.open == {})
    requires r == Returns(None) <==> (finish == start && !startLinked) || finish !in s.Seen()
    requires r.Throws? ==> r.error == NullPointer && !startMarked
    requires r.Returns? && r.value.Some? ==>
      if finish == start then r.value.value == []
      else IsWalk(g, start, r.value.value) && r.value.value[|r.value.value| - 1] == finish &&
           FollowsLinks(s.parents, start, r.value.value)
    ensures Answered(g, start, finish, startMarked, startLinked, s, r)
  {
    if s.open == {} {
      Exhausted(g, start, s);
    }
    if r.Returns? && r.value.Some? && finish != start {
      PathCostAlongLinks(s, start, r.value.value);
    }
  }

  // ---------------------------------------------------------------------------------------
  // The strategy.

  /** The strict walkable neighbours of `current`, which the search asks the area for. */
  method WalkableMoves(area: SearchArea, ghost S: map<Node, NodeStatus>, ghost blocked: set<Node>, ghost g: Graph,
                       currentNode: Node)
    returns (walkable: map<Direction, Node>)
    requires Setting(area, S, blocked, g) && Carries(area.Cells, S) && currentNode in area.Cells
    ensures Offers(g, area.Cells, currentNode, walkable)
  {
    assert blocked == area.CellsWith(Obstacle);
    walkable := area.GetWalkableNeighbors(currentNode, false);
    assert walkable == area.StrictMoves(blocked, currentNode);
    forall d | d in walkable
      ensures walkable[d] in g[currentNode] && walkable[d] in area.Cells &&
              StepCost(currentNode, walkable[d]) == CostToNeighbor(d)
    {
      area.WalkableStep(currentNode, d, false);
      FromOffsetRoundTrip(d);
    }
  }

  /** The fixed facts of the search, for the area as it is when the search begins. */
  lemma Prepare(area: SearchArea) returns (S: map<Node, NodeStatus>, blocked: set<Node>, g: Graph)
    requires area.Valid() && area.kind == AStar && area.SearchFresh() && area.start != null
    ensures Setting(area, S, blocked, g) && Carries(area.Cells, S)
    ensures blocked == area.CellsWith(Obstacle) && area.IsMoveGraph(blocked, g)
    ensures Records(area.Cells, area.start, Lists({}, {}, map[], map[])) && RootLinked(area.start)
  {
    forall c | c in area.Cells
      ensures c.kind == AStar
    {
      area.CellPosition(c);
    }
    S := map c | c in area.Cells :: c.status;
    blocked := area.CellsWith(Obstacle);
    g := area.MoveGraph(blocked);
  }

  class AStarAlgorithm {
    /** The heuristic h; the program allows it to be missing. */
    const heuristic: Option<Heuristic>
    /** The open list, as a set: the order in which the queue yields its cells is not modelled. */
    var openList: set<Node>
    /** The closed list. */
    var closedList: set<Node>

    constructor (h: Option<Heuristic>)
      ensures heuristic == h && openList == {} && closedList == {}
    {
      heuristic := h;
      openList := {};
      closedList := {};
    }

    /** Opens aNode and adds it to the open list. */
    method AddToOpenList(aNode: Node)
      requires aNode.kind == AStar
      modifies this`openList, aNode`open, aNode`closed
      ensures openList == old(openList) + {aNode} && aNode.open && !aNode.closed
    {
      aNode.SetOpen();
      openList := openList + {aNode};
    }

    /** Closes aNode and moves it from the open list to the closed list. */
    method MoveToClosedList(aNode: Node)
      requires aNode.kind == AStar
      modifies this`openList, this`closedList, aNode`open, aNode`closed
      ensures closedList == old(closedList) + {aNode} && openList == old(openList) - {aNode}
      ensures !aNode.open && aNode.closed
    {
      aNode.SetClosed();
      closedList := closedList + {aNode};
      openList := openList - {aNode};
    }

    /** Gives aNode the heuristic's estimate from it to the finish, unless it is an obstacle. */
    method SetHeuristicCostToFinish(area: SearchArea, h: Heuristic, aNode: Node)
      requires area.finish != null && aNode.kind == AStar
      modifies aNode`heuristicCostToFinish
      ensures aNode.heuristicCostToFinish ==
        if aNode.IsObstacle() then old(aNode.heuristicCostToFinish) else h(aNode.Coordinate(), area.finish.Coordinate())
    {
      if !aNode.IsObstacle() {
        var here := aNode.Coordinate();
        var finish := area.finish.Coordinate();
        var cost := h(here, finish);
        aNode.SetHeuristicCostToFinish(cost);
      }
    }

    /** The first two initial steps: the start is opened and its cost set to 0. */
    method OpenStart(area: SearchArea)
      requires area.start != null && area.start.kind == AStar
      modifies this`openList, area.start`open, area.start`closed, area.start`costFromStart
      ensures openList == old(openList) + {area.start}
      ensures area.start.State() == old(area.start.State()).(open := true, closed := false, costFromStart := 0)
    {
      var startNode := area.start;
      AddToOpenList(startNode);
      startNode.SetCostFromStart(0);
    }

    /**
     * The A* strategy, on a fresh search state of an A* search area: no area or no heuristic
     * gives no path; a missing start throws when it is opened, a missing finish when the
     * start's estimate is computed or the loop first tests it. Otherwise the lists end in
     * the shape `Tree` describes, mirrored by the cells' fields, with the finish closed or
     * nothing open; no obstacle but possibly the start was ever opened; and the answer means
     * what `Answered` says, over the move graph of the obstacles before the search.
     */
    method Execute(area: SearchArea?) returns (r: Outcome<Option<seq<Node>>>, ghost g: Graph, ghost s: Lists)
      requires area != null ==> area.Valid() && area.kind == AStar && area.SearchFresh()
      modifies this, if area != null then area.Cells else {}
      ensures area == null || heuristic == None ==> r == Returns(None)
      ensures area != null ==> area.Valid() && MarksLeft(area.Cells, old(StatusesOf(area.Cells)), r)
      ensures area != null && heuristic != None && (area.start == null || area.finish == null) ==>
        r == Throws(NullPointer) && closedList == {} && openList == (if area.start != null then {area.start} else {}) &&
        (area.start != null ==>
          area.start.State() == old(area.start.State()).(open := true, closed := false, costFromStart := 0))
      ensures area != null && heuristic != None && area.start != null && area.finish != null ==>
        area.IsMoveGraph(old(area.CellsWith(Obstacle)), g) && Searching(g, area.start, s) &&
        Records(area.Cells, area.start, s) && openList == s.open && closedList == s.closed &&
        (area.finish in s.closed || s.open == {}) &&
        (forall c :: c in s.Seen() && c != area.start ==> old(c.status) != Obstacle) &&
        Answered(g, area.start, area.finish, old(area.start.status) == Start, old(area.start.parent) != null, s, r)
    {
      g, s := map[], Lists({}, {}, map[], map[]);
      if area == null || heuristic == None {
        return Returns(None), g, s;
      }
      if area.start == null || area.finish == null {
        r := Abort(area);
        return;
      }
      r, g, s := Search(area, heuristic.value);
    }

    /**
     * The search without a start or a finish: the lists are cleared and the start, if there
     * is one, is opened with cost 0 before the missing cell is dereferenced.
     */
    method Abort(area: SearchArea) returns (r: Outcome<Option<seq<Node>>>)
      requires area.Valid() && area.kind == AStar && (area.start == null || area.finish == null)
      modifies this`openList, this`closedList
      modifies if area.start != null then {area.start} else {}
      ensures r == Throws(NullPointer) && area.Valid() && closedList == {}
      ensures openList == if area.start != null then {area.start} else {}
      ensures area.start != null ==>
        area.start.State() == old(area.start.State()).(open := true, closed := false, costFromStart := 0)
    {
      openList := {};
      closedList := {};
      if area.start == null {
        return Throws(NullPointer);
      }
      area.CellPosition(area.start);
      OpenStart(area);
      return Throws(NullPointer);
    }

    /** The search proper, from a start to a finish. */
    method Search(area: SearchArea, h: Heuristic) returns (r: Outcome<Option<seq<Node>>>, ghost g: Graph, ghost s: Lists)
      requires area.Valid() && area.kind == AStar && area.SearchFresh() && area.start != null && area.finish != null
      modifies this`openList, this`closedList, area.Cells
      ensures area.Valid() && area.IsMoveGraph(old(area.CellsWith(Obstacle)), g) && Searching(g, area.start, s)
      ensures Records(area.Cells, area.start, s) && openList == s.open && closedList == s.closed
      ensures area.finish in s.closed || s.open == {}
      ensures forall c :: c in s.Seen() && c != area.start ==> old(c.status) != Obstacle
      ensures Answered(g, area.start, area.finish, old(area.start.status) == Start, old(area.start.parent) != null, s, r)
      ensures MarksLeft(area.Cells, old(StatusesOf(area.Cells)), r)
    {
      ghost var S, blocked;
      S, blocked, g := Prepare(area);
      ghost var p0 := area.start.parent;
      openList := {};
      closedList := {};
      s := Explore(area, S, blocked, g, h);
      r := Conclude(area, S, blocked, g, h, p0, s);
      MarksLeftAgree(area.Cells, S, old(StatusesOf(area.Cells)), r);
    }

    /**
     * After the main loop: the path builder walks the links back from the finish, leaving the
     * flags, costs and links of the cells as they are.
     */
    method Conclude(area: SearchArea, ghost S: map<Node, NodeStatus>, ghost blocked: set<Node>, ghost g: Graph,
                    ghost h: Heuristic, ghost p0: Node?, ghost s: Lists)
      returns (r: Outcome<Option<seq<Node>>>)
      requires area.Valid() && Setting(area, S, blocked, g) && Mirrors(area, S, h, s, p0)
      requires Searching(g, area.start, s) && RootLinked(area.start) && (area.finish in s.closed || s.open == {})
      modifies area.Cells
      ensures area.Valid() && Records(area.Cells, area.start, s) && openList == s.open && closedList == s.closed
      ensures Answered(g, area.start, area.finish, S[area.start] == Start, p0 != null, s, r)
      ensures MarksLeft(area.Cells, S, r)
    {
      label Explored:
      r := TracePath(area, S, g, s.Seen(), s.cost, s.parents);
      forall c | c in area.Cells
        ensures c.open == old@Explored(c.open) && c.closed == old@Explored(c.closed)
        ensures c.costFromStart == old@Explored(c.costFromStart) && c.parent == old@Explored(c.parent)
      {
        assert c.State() == old@Explored(c.State()).(status := c.status);
      }
      Answer(g, area.start, area.finish, S[area.start] == Start, p0 != null, s, r);
    }

    /**
     * The lists and the cells' fields mirror s: the flags, costs and links of the cells, the
     * estimates of the opened cells, the two lists; the cells keep the statuses S and the
     * start keeps the link p0.
     */
    ghost predicate Mirrors(area: SearchArea, S: map<Node, NodeStatus>, h: Heuristic, s: Lists, p0: Node?)
      reads this, area, area.Cells`status, area.Cells`open, area.Cells`closed, area.Cells`costFromStart,
            area.Cells`parent, area.Cells`heuristicCostToFinish
    {
      area.start in area.Cells && area.finish in area.Cells && Carries(area.Cells, S) &&
      Records(area.Cells, area.start, s) && area.start.parent == p0 &&
      openList == s.open && closedList == s.closed && Estimates(area.Cells, S, s.cost, h, area.finish.Coordinate())
    }

    /** The initialisation and the main loop. */
    method Explore(area: SearchArea, ghost S: map<Node, NodeStatus>, ghost blocked: set<Node>, ghost g: Graph,
                   h: Heuristic)
      returns (ghost s: Lists)
      requires Setting(area, S, blocked, g) && Carries(area.Cells, S) && area.start in area.Cells && area.finish in area.Cells
      requires Records(area.Cells, area.start, Lists({}, {}, map[], map[])) && RootLinked(area.start)
      requires openList == {} && closedList == {}
      modifies this`openList, this`closedList, area.Cells`open, area.Cells`closed, area.Cells`parent,
               area.Cells`costFromStart, area.Cells`heuristicCostToFinish
      ensures Mirrors(area, S, h, s, old(area.start.parent)) && Searching(g, area.start, s) && RootLinked(area.start)
      ensures area.finish in s.closed || s.open == {}
      ensures forall c :: c in s.Seen() && c != area.start ==> S[c] != Obstacle
    {
      s := Begin(area, S, blocked, g, h);
      s := Run(area, S, blocked, g, h, area.start.parent, s);
      OpenedAreWalkable(area, blocked, g, area.start, s);
    }

    /** The main loop: until the finish is closed or nothing is open, a turn of the search. */
    method Run(area: SearchArea, ghost S: map<Node, NodeStatus>, ghost blocked: set<Node>, ghost g: Graph,
               h: Heuristic, ghost p0: Node?, ghost s0: Lists)
      returns (ghost s: Lists)
      requires Setting(area, S, blocked, g) && Mirrors(area, S, h, s0, p0) && Searching(g, area.start, s0)
      modifies this`openList, this`closedList, area.Cells`open, area.Cells`closed, area.Cells`parent,
               area.Cells`costFromStart, area.Cells`heuristicCostToFinish
      ensures Mirrors(area, S, h, s, p0) && Searching(g, area.start, s)
      ensures area.finish in s.closed || s.open == {}
    {
      s := s0;
      var finishNode := area.finish;
      SubsetCardinality(s.closed, area.Cells);
      while !(finishNode.IsClosed() || openList == {})
        invariant Mirrors(area, S, h, s, p0) && Searching(g, area.start, s) && |s.closed| <= |area.Cells|
        decreases |area.Cells| - |s.closed|
      {
        ghost var current: Node;
        s, current := Step(area, S, blocked, g, h, p0, s);
        SubsetCardinality(s.closed, area.Cells);
      }
    }

    /** Opens the start with cost 0 and its estimate to the finish. */
    method Begin(area: SearchArea, ghost S: map<Node, NodeStatus>, ghost blocked: set<Node>, ghost g: Graph,
                 h: Heuristic)
      returns (ghost s: Lists)
      requires Setting(area, S, blocked, g) && Carries(area.Cells, S) && area.start in area.Cells && area.finish in area.Cells
      requires Records(area.Cells, area.start, Lists({}, {}, map[], map[]))
      requires openList == {} && closedList == {}
      modifies this`openList, area.start`open, area.start`closed, area.start`costFromStart,
               area.start`heuristicCostToFinish
      ensures s == Lists({area.start}, {}, map[area.start := 0], map[])
      ensures Searching(g, area.start, s) && Mirrors(area, S, h, s, area.start.parent)
    {
      OpenStart(area);
      SetHeuristicCostToFinish(area, h, area.start);
      s := Lists({area.start}, {}, map[area.start := 0], map[]);
    }

    /**
     * One turn of the main loop: some open cell is closed and its strict walkable neighbours
     * are relaxed in turn.
     */
    method Step(area: SearchArea, ghost S: map<Node, NodeStatus>, ghost blocked: set<Node>, ghost g: Graph,
                h: Heuristic, ghost p0: Node?, ghost s0: Lists)
      returns (ghost s: Lists, ghost current: Node)
      requires Setting(area, S, blocked, g) && Mirrors(area, S, h, s0, p0)
      requires Searching(g, area.start, s0) && s0.open != {}
      modifies this`openList, this`closedList, area.Cells`open, area.Cells`closed, area.Cells`parent,
               area.Cells`costFromStart, area.Cells`heuristicCostToFinish
      ensures Mirrors(area, S, h, s, p0) && Searching(g, area.start, s)
      ensures current in s0.open && s.closed == s0.closed + {current} && |s.closed| == |s0.closed| + 1
      ensures s.closed <= area.Cells && Monotone(s0, s)
    {
      var currentNode :| currentNode in openList;
      s := Close(area, S, h, currentNode, p0, s0);
      var walkable := WalkableMoves(area, S, blocked, g, currentNode);
      Closing(g, area.start, s0, currentNode, walkable);
      s := Expand(area, S, g, h, currentNode, walkable, p0, s0, s);
      ExpandedAll(g, area.start, s, currentNode, walkable);
      current := currentNode;
    }

    /** Moves the current cell from the open list to the closed list. */
    method Close(area: SearchArea, ghost S: map<Node, NodeStatus>, h: Heuristic, currentNode: Node, ghost p0: Node?,
                 ghost s0: Lists)
      returns (ghost s: Lists)
      requires area.Layout() && (forall c :: c in area.Cells ==> c.kind == AStar)
      requires Mirrors(area, S, h, s0, p0) && currentNode in s0.open && currentNode in area.Cells
      modifies this`openList, this`closedList, currentNode`open, currentNode`closed
      ensures s == s0.(open := s0.open - {currentNode}, closed := s0.closed + {currentNode})
      ensures Mirrors(area, S, h, s, p0)
    {
      MoveToClosedList(currentNode);
      s := s0.(open := s0.open - {currentNode}, closed := s0.closed + {currentNode});
    }

    /** The loop over the strict walkable neighbours of the current cell. */
    method Expand(area: SearchArea, ghost S: map<Node, NodeStatus>, ghost g: Graph,
                  h: Heuristic, currentNode: Node, walkable: map<Direction, Node>, ghost p0: Node?, ghost s0: Lists,
                  ghost s1: Lists)
      returns (ghost s: Lists)
      requires AllAStar(area.Cells) && g.Keys == area.Cells && Offers(g, area.Cells, currentNode, walkable)
      requires Mirrors(area, S, h, s1, p0)
      requires Relaxing(g, area.start, s1, currentNode, walkable, walkable.Keys) && Monotone(s0, s1)
      modifies this`openList, area.Cells`open, area.Cells`closed, area.Cells`parent, area.Cells`costFromStart,
               area.Cells`heuristicCostToFinish
      ensures Mirrors(area, S, h, s, p0)
      ensures Relaxing(g, area.start, s, currentNode, walkable, {}) && Monotone(s0, s) && s.closed == s1.closed
    {
      s := s1;
      var dirs := walkable.Keys;
      while dirs != {}
        invariant Mirrors(area, S, h, s, p0)
        invariant Relaxing(g, area.start, s, currentNode, walkable, dirs) && Monotone(s0, s) && s.closed == s1.closed
        decreases |dirs|
      {
        ghost var s2 := s;
        dirs, s := Relax(area, S, g, h, currentNode, walkable, dirs, p0, s);
        MonotoneTrans(s0, s2, s);
      }
    }

    /** One turn of the loop over the neighbours of the current cell. */
    method Relax(area: SearchArea, ghost S: map<Node, NodeStatus>, ghost g: Graph,
                 h: Heuristic, currentNode: Node, walkable: map<Direction, Node>, dirs0: set<Direction>, ghost p0: Node?,
                 ghost s0: Lists)
      returns (dirs: set<Direction>, ghost s: Lists)
      requires AllAStar(area.Cells) && g.Keys == area.Cells && Offers(g, area.Cells, currentNode, walkable)
      requires Mirrors(area, S, h, s0, p0) && dirs0 != {} && Relaxing(g, area.start, s0, currentNode, walkable, dirs0)
      modifies this`openList, area.Cells`open, area.Cells`closed, area.Cells`parent, area.Cells`costFromStart,
               area.Cells`heuristicCostToFinish
      ensures Mirrors(area, S, h, s, p0) && Relaxing(g, area.start, s, currentNode, walkable, dirs)
      ensures |dirs| < |dirs0| && Monotone(s0, s) && s.closed == s0.closed
    {
      var dir :| dir in dirs0;
      dirs := dirs0 - {dir};
      assert dirs0 == dirs + {dir};
      var neighbor := walkable[dir];
      assert currentNode in s0.cost && currentNode.costFromStart == s0.cost[currentNode];
      var tempCostFromStart := currentNode.costFromStart + CostToNeighbor(dir);
      s := RelaxNeighbor(area, S, h, currentNode, neighbor, tempCostFromStart, p0, s0);
      RelaxedKeeps(g, area.Cells, area.start, s0, s, currentNode, walkable, dirs0, dir, tempCostFromStart);
    }

    /**
     * The relaxation of one neighbour at the tentative cost temp: skipped when closed, opened
     * when never opened, re-linked when open at a higher cost.
     */
    method RelaxNeighbor(area: SearchArea, ghost S: map<Node, NodeStatus>, h: Heuristic, currentNode: Node,
                         neighbor: Node, temp: nat, ghost p0: Node?, ghost s0: Lists)
      returns (ghost s: Lists)
      requires neighbor in area.Cells && neighbor.kind == AStar && area.start in s0.closed
      requires s0.cost.Keys == s0.Seen() && Mirrors(area, S, h, s0, p0)
      modifies this`openList, neighbor`open, neighbor`closed, neighbor`parent, neighbor`costFromStart,
               neighbor`heuristicCostToFinish
      ensures Relaxed(s0, s, currentNode, neighbor, temp) && Mirrors(area, S, h, s, p0)
    {
      s := s0;
      if neighbor.IsClosed() {
        return;
      }
      if !neighbor.IsOpen() {
        s := OpenNeighbor(area, S, h, currentNode, neighbor, temp, p0, s0);
      }
      if neighbor.IsOpen() {
        if temp < neighbor.costFromStart {
          s := Improve(area, S, h, currentNode, neighbor, temp, p0, s0);
        }
      }
    }

    /** Opens a neighbour never opened before, as a child of the current cell at cost temp. */
    method OpenNeighbor(area: SearchArea, ghost S: map<Node, NodeStatus>, h: Heuristic, currentNode: Node,
                        neighbor: Node, temp: nat, ghost p0: Node?, ghost s0: Lists)
      returns (ghost s: Lists)
      requires neighbor in area.Cells && neighbor != area.start && neighbor.kind == AStar
      requires neighbor !in s0.open && neighbor !in s0.closed && Mirrors(area, S, h, s0, p0)
      modifies this`openList, neighbor`open, neighbor`closed, neighbor`parent, neighbor`costFromStart,
               neighbor`heuristicCostToFinish
      ensures s == s0.(open := s0.open + {neighbor}, cost := s0.cost[neighbor := temp],
                       parents := s0.parents[neighbor := currentNode])
      ensures Mirrors(area, S, h, s, p0) && neighbor.open && neighbor.costFromStart == temp
    {
      Enlist(area, neighbor, s0.open, s0.closed);
      Adopt(area, currentNode, neighbor, temp, s0.cost, s0.parents);
      Estimate(area, S, h, neighbor, s0.cost, temp);
      s := s0.(open := s0.open + {neighbor}, cost := s0.cost[neighbor := temp],
               parents := s0.parents[neighbor := currentNode]);
    }

    /** Re-links an open neighbour to the current cell at the lower cost temp. */
    method Improve(area: SearchArea, ghost S: map<Node, NodeStatus>, h: Heuristic, currentNode: Node,
                   neighbor: Node, temp: nat, ghost p0: Node?, ghost s0: Lists)
      returns (ghost s: Lists)
      requires neighbor in area.Cells && neighbor != area.start && neighbor.kind == AStar
      requires neighbor in s0.open && neighbor in s0.cost && Mirrors(area, S, h, s0, p0)
      modifies neighbor`parent, neighbor`costFromStart
      ensures s == s0.(cost := s0.cost[neighbor := temp], parents := s0.parents[neighbor := currentNode])
      ensures Mirrors(area, S, h, s, p0)
    {
      Adopt(area, currentNode, neighbor, temp, s0.cost, s0.parents);
      s := s0.(cost := s0.cost[neighbor := temp], parents := s0.parents[neighbor := currentNode]);
    }

    /** Adds a cell that is not closed to the open list. */
    method Enlist(area: SearchArea, neighbor: Node, ghost open0: set<Node>, ghost closed0: set<Node>)
      requires neighbor in area.Cells && neighbor.kind == AStar && neighbor !in closed0
      requires OpenAre(area.Cells, open0) && ClosedAre(area.Cells, closed0) && openList == open0
      modifies this`openList, neighbor`open, neighbor`closed
      ensures OpenAre(area.Cells, open0 + {neighbor}) && ClosedAre(area.Cells, closed0) && openList == open0 + {neighbor}
    {
      AddToOpenList(neighbor);
    }

    /** Links a cell other than the start to the current cell at cost temp. */
    method Adopt(area: SearchArea, currentNode: Node, neighbor: Node, temp: nat, ghost cost0: map<Node, nat>,
                 ghost parents0: map<Node, Node>)
      requires area.start != null && neighbor in area.Cells && neighbor != area.start && neighbor.kind == AStar
      requires CostsAre(area.Cells, cost0) && ParentsAre(area.Cells - {area.start}, parents0)
      modifies neighbor`parent, neighbor`costFromStart
      ensures CostsAre(area.Cells, cost0[neighbor := temp])
      ensures ParentsAre(area.Cells - {area.start}, parents0[neighbor := currentNode])
    {
      neighbor.SetParent(currentNode);
      neighbor.SetCostFromStart(temp);
    }

    /** Gives a newly priced cell its estimate, keeping the estimates of the others. */
    method Estimate(area: SearchArea, ghost S: map<Node, NodeStatus>, h: Heuristic, neighbor: Node,
                    ghost cost0: map<Node, nat>, ghost temp: nat)
      requires area.finish != null && neighbor in area.Cells && neighbor.kind == AStar && Carries(area.Cells, S)
      requires Estimates(area.Cells, S, cost0, h, area.finish.Coordinate())
      modifies neighbor`heuristicCostToFinish
      ensures Estimates(area.Cells, S, cost0[neighbor := temp], h, area.finish.Coordinate())
    {
      SetHeuristicCostToFinish(area, h, neighbor);
    }
  }
}
