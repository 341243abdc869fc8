/**
 * Grid cells. One class stands for the three concrete node kinds: every cell has a
 * fixed point, a status and a parent link; a depth-first cell also has a visited flag and
 * an A* cell has its cost from the start (g), its heuristic cost to the finish (h) and its
 * open/closed flags. The `kind` of a cell says which of these extra fields are in use and
 * selects the A* behaviour of `SetStatus`.
 */
module Nodes {
  import opened Directions
  import opened NodeStatuses

  /** The search algorithms; a cell is built for one of them. */
  datatype AlgorithmType = AStar | BFS | DFS

  /** The human-readable name of an algorithm. */
  function DisplayName(t: AlgorithmType): string {
    match t
    case AStar => "A*"
    case BFS => "Breadth-First Search"
    case DFS => "Depth-First Search"
  }

  /**
   * The largest finite double, exactly. A* uses it as the "unreached" cost and as the heuristic
   * of an obstacle; every other cost in the program is a small integer.
   */
  const MaxValue: int :=
    179769313486231570814527423731704356798070567525844996598917476803157260780028538760589558632766878171540458953514382464234321326889464182768467546703537516986049910576551282076245490090389328944075868508455133942304583236903222948165808559332123348274797826204144723168738177180919299881250404026184124858368

  /** Half a unit in the last place of MaxValue, 2^970: a sum this far past MaxValue is rounded up. */
  const HalfUlp: int := 9979201547673599058281863565184192830337256302177287707512736212186059459344820328924789827463178505446712234220962476219862189941967968303695858991424157101600028364755428382587688607221814935913266783722719619966654052275604351944444276342240220787535604534378780208211792476151720049639424

  /** A double value as the f = g + h sums take them: finite or an infinity. */
  datatype Total = Finite(value: int) | PosInfinity | NegInfinity

  /**
   * The double sum of two costs, from their exact sum: exact up to MaxValue in size, rounded
   * back to MaxValue (or -MaxValue) when less than half a unit in the last place beyond it, and
   * an infinity from there on, since binary64 rounds a tie at MaxValue up to the next power of 2.
   */
  function RoundSum(s: int): (f: Total)
    ensures f.Finite? ==> -MaxValue <= f.value <= MaxValue
    ensures -MaxValue <= s <= MaxValue ==> f == Finite(s)
    ensures f == PosInfinity <==> s >= MaxValue + HalfUlp
    ensures f == NegInfinity <==> s <= -(MaxValue + HalfUlp)
  {
    if s >= MaxValue + HalfUlp then PosInfinity
    else if s > MaxValue then Finite(MaxValue)
    else if s <= -(MaxValue + HalfUlp) then NegInfinity
    else if s < -MaxValue then Finite(-MaxValue)
    else Finite(s)
  }

  /** The order of doubles on totals: -infinity below every finite value, +infinity above. */
  predicate Below(a: Total, b: Total) {
    match (a, b)
    case (NegInfinity, _) => b != NegInfinity
    case (Finite(x), Finite(y)) => x < y
    case (Finite(_), PosInfinity) => true
    case _ => false
  }

  /** Of two totals exactly one is below the other, or they are equal. */
  lemma BelowTotal(a: Total, b: Total)
    ensures Below(a, b) || Below(b, a) || a == b
    ensures !(Below(a, b) && Below(b, a))
  {
  }

  /** Below is transitive. */
  lemma BelowTransitive(a: Total, b: Total, c: Total)
    requires Below(a, b) && Below(b, c)
    ensures Below(a, c)
  {
  }

  /** Rounding keeps the order of the sums: a sum that rounds lower was lower. */
  lemma RoundReflectsOrder(s: int, t: int)
    requires Below(RoundSum(s), RoundSum(t))
    ensures s < t
  {
  }

  /** Rounding never reverses the order of the sums. */
  lemma RoundMonotone(s: int, t: int)
    requires s <= t
    ensures !Below(RoundSum(t), RoundSum(s))
  {
  }

  /**
   * An unreached cell (g = MaxValue) with a small heuristic ties with one with none, since
   * MaxValue + 5 rounds back to MaxValue; two unreached obstacle-like cells overflow to infinity.
   */
  lemma SaturatedSums()
    ensures RoundSum(MaxValue + 5) == RoundSum(MaxValue + 0) == Finite(MaxValue)
    ensures RoundSum(MaxValue + MaxValue) == PosInfinity
  {
  }

  /** A point object; the program compares points by reference, so this is a class. */
  class Point {
    const x: int
    const y: int

    constructor (x: int, y: int)
      ensures this.x == x && this.y == y
    {
      this.x := x;
      this.y := y;
    }
  }

  class Node {
    const point: Point
    const kind: AlgorithmType
    var status: NodeStatus
    var parent: Node?
    /** Depth-first cells only. */
    var visited: bool
    /** A* cells only: g, h and the list membership flags. */
    var costFromStart: int
    var heuristicCostToFinish: int
    var open: bool
    var closed: bool

    /** The A* initial search state. */
    predicate Initialized()
      reads this
    {
      parent == null && costFromStart == MaxValue && heuristicCostToFinish == 0 && !open && !closed
    }

    /** A new breadth-first cell: EMPTY, without a parent, at (x, y). */
    constructor BFSNode(x: int, y: int)
      ensures fresh(point) && point.x == x && point.y == y && kind == BFS
      ensures status == Empty && parent == null && !visited
    {
      point := new Point(x, y);
      kind := BFS;
      status := Empty;
      parent := null;
      visited := false;
    }

    /** A new depth-first cell: EMPTY, without a parent and not visited. */
    constructor DFSNode(x: int, y: int)
      ensures fresh(point) && point.x == x && point.y == y && kind == DFS
      ensures status == Empty && parent == null && !visited
    {
      point := new Point(x, y);
      kind := DFS;
      status := Empty;
      parent := null;
      visited := false;
    }

    /** A new A* cell: EMPTY and in the initial search state. */
    constructor AStarNode(x: int, y: int)
      ensures fresh(point) && point.x == x && point.y == y && kind == AStar
      ensures status == Empty && !visited && Initialized()
    {
      point := new Point(x, y);
      kind := AStar;
      status := Empty;
      parent := null;
      visited := false;
      new;
      Initialize();
    }

    function X(): int { point.x }
    function Y(): int { point.y }
    function Coordinate(): Coord { Coord(point.x, point.y) }

    /** A snapshot of every mutable field. */
    function State(): CellState
      reads this
    {
      CellState(status, parent, visited, costFromStart, heuristicCostToFinish, open, closed)
    }

    /**
     * The state `SetStatus(s)` leaves behind, from the state `before`. Every cell takes the new
     * status. An A* cell given a status that is not a waypoint also resets its search fields,
     * then links a START cell to itself with g = 0 and gives an OBSTACLE cell the maximal
     * heuristic cost.
     */
    function AfterSetStatus(before: CellState, s: NodeStatus): CellState {
      if kind != AStar || IsWaypoint(s) then before.(status := s)
      else
        CellState(s, if s == Start then this else null, before.visited,
                  if s == Start then 0 else MaxValue,
                  if s == Obstacle then MaxValue else 0,
                  false, false)
    }

    /** Resets the A* search fields. */
    method Initialize()
      modifies this
      ensures Initialized()
      ensures status == old(status) && visited == old(visited)
    {
      parent := null;
      costFromStart := MaxValue;
      heuristicCostToFinish := 0;
      open := false;
      closed := false;
    }

    method SetStatus(s: NodeStatus)
      modifies this
      ensures State() == AfterSetStatus(old(State()), s)
    {
      status := s;
      if kind != AStar || IsWaypoint(s) {
        return;
      }
      Initialize();
      if s == Start {
        parent := this;
        costFromStart := 0;
      }
      if s == Obstacle {
        heuristicCostToFinish := MaxValue;
      }
    }

    predicate IsStart() reads this { status == Start }
    predicate IsFinish() reads this { status == Finish }
    predicate IsObstacle() reads this { status == Obstacle }
    predicate IsEmpty() reads this { status == Empty }

    /** A cell is a waypoint when the name of its status starts with "WAYPOINT". */
    predicate IsWaypointCell()
      reads this
      ensures IsWaypointCell() <==> "WAYPOINT" <= Name(status)
    {
      IsWaypointByName(status);
      IsWaypoint(status)
    }

    method SetParent(p: Node?)
      modifies this`parent
      ensures parent == p
    {
      parent := p;
    }

    predicate HasParent() reads this { parent != null }

    function Symbol(): (r: string)
      reads this
      ensures |r| == 1
      ensures Symbol() == NodeStatuses.Symbol(status)
    {
      SymbolsAreSingleCharacters(status);
      NodeStatuses.Symbol(status)
    }

    predicate IsVisited() reads this { visited }

    predicate IsNotVisited()
      reads this
      ensures IsNotVisited() <==> !IsVisited()
    {
      !visited
    }

    method SetVisited(v: bool)
      requires kind == DFS
      modifies this`visited
      ensures visited == v
    {
      visited := v;
    }

    method SetCostFromStart(g: int)
      requires kind == AStar
      modifies this`costFromStart
      ensures costFromStart == g
    {
      costFromStart := g;
    }

    method SetHeuristicCostToFinish(h: int)
      requires kind == AStar
      modifies this`heuristicCostToFinish
      ensures heuristicCostToFinish == h
    {
      heuristicCostToFinish := h;
    }

    /** f = g + h, added as doubles: the exact sum rounded as a double sum rounds it. */
    function EstimatedTotalCost(): (f: Total)
      reads this
      ensures f == RoundSum(costFromStart + heuristicCostToFinish)
    {
      RoundSum(costFromStart + heuristicCostToFinish)
    }

    method SetOpen()
      requires kind == AStar
      modifies this`open, this`closed
      ensures open && !closed
    {
      open := true;
      closed := false;
    }

    method SetClosed()
      requires kind == AStar
      modifies this`open, this`closed
      ensures !open && closed
    {
      closed := true;
      open := false;
    }

    predicate IsOpen() reads this { open }
    predicate IsClosed() reads this { closed }

    /**
     * -1, 0 or 1 as this cell's f is below, equal to or above the other's. A -1 or 1 also
     * orders the exact sums g + h the same way; a 0 can hide exact sums that differ, once
     * both round to the same double.
     */
    function CompareTo(other: Node): (r: int)
      reads this, other
      ensures r == -1 <==> Below(EstimatedTotalCost(), other.EstimatedTotalCost())
      ensures r == 0 <==> EstimatedTotalCost() == other.EstimatedTotalCost()
      ensures r == 1 <==> Below(other.EstimatedTotalCost(), EstimatedTotalCost())
      ensures r == -1 ==>
        costFromStart + heuristicCostToFinish < other.costFromStart + other.heuristicCostToFinish
      ensures r == 1 ==>
        other.costFromStart + other.heuristicCostToFinish < costFromStart + heuristicCostToFinish
    {
      var f, f' := EstimatedTotalCost(), other.EstimatedTotalCost();
      if Below(f, f') then
        RoundReflectsOrder(costFromStart + heuristicCostToFinish, other.costFromStart + other.heuristicCostToFinish);
        -1
      else if Below(f', f) then
        RoundReflectsOrder(other.costFromStart + other.heuristicCostToFinish, costFromStart + heuristicCostToFinish);
        1
      else
        BelowTotal(f, f');
        0
    }

    /**
     * Value equality of two cells of the same kind: the same object, or equal coordinates,
     * status and parent, plus the visited flag for depth-first cells and the search fields
     * for A* cells.
     */
    predicate Equals(other: Node?)
      reads this, other
    {
      other != null && kind == other.kind &&
      (this == other ||
       (X() == other.X() && Y() == other.Y() && status == other.status && parent == other.parent &&
        (kind == DFS ==> visited == other.visited) &&
        (kind == AStar ==>
           costFromStart == other.costFromStart &&
           heuristicCostToFinish == other.heuristicCostToFinish &&
           open == other.open && closed == other.closed)))
    }
  }

  /** The mutable fields of a cell. */
  datatype CellState = CellState(
    status: NodeStatus, parent: Node?, visited: bool,
    costFromStart: int, heuristicCostToFinish: int, open: bool, closed: bool)

  /** Builds the cell kind that the given algorithm uses. */
  method BuildNode(x: int, y: int, t: AlgorithmType) returns (n: Node)
    ensures fresh(n) && fresh(n.point)
    ensures n.kind == t && n.X() == x && n.Y() == y
    ensures n.status == Empty && n.parent == null && !n.visited
    ensures t == AStar ==> n.Initialized()
  {
    if t == AStar {
      n := new Node.AStarNode(x, y);
    } else if t == DFS {
      n := new Node.DFSNode(x, y);
    } else {
      n := new Node.BFSNode(x, y);
    }
  }

  // ---------------------------------------------------------------------------------------
  // Properties of cells.

  function Count(b: bool): nat { if b then 1 else 0 }

  /** Exactly one of the start, finish, obstacle, waypoint and empty queries holds. */
  lemma StatusQueriesExclusive(n: Node)
    ensures Count(n.IsStart()) + Count(n.IsFinish()) + Count(n.IsObstacle()) +
            Count(n.IsWaypointCell()) + Count(n.IsEmpty()) == 1
  {
  }

  /** SetStatus always installs the new status and never touches the visited flag. */
  lemma SetStatusInstallsStatus(n: Node, before: CellState, s: NodeStatus)
    ensures n.AfterSetStatus(before, s).status == s
    ensures n.AfterSetStatus(before, s).visited == before.visited
  {
  }

  /** Outside A*, and for waypoint statuses in A*, only the status changes. */
  lemma SetStatusChangesOnlyStatus(n: Node, before: CellState, s: NodeStatus)
    requires n.kind != AStar || IsWaypoint(s)
    ensures n.AfterSetStatus(before, s) == before.(status := s)
  {
  }

  /** An A* cell given START, FINISH, OBSTACLE or EMPTY ends up with its search fields reset. */
  lemma SetStatusResetsAStar(n: Node, before: CellState, s: NodeStatus)
    requires n.kind == AStar && s in {Start, Finish, Obstacle, Empty}
    ensures var r := n.AfterSetStatus(before, s);
      !r.open && !r.closed &&
      (s == Start ==> r.parent == n && r.costFromStart == 0 && r.heuristicCostToFinish == 0) &&
      (s == Obstacle ==> r.parent == null && r.costFromStart == MaxValue && r.heuristicCostToFinish == MaxValue) &&
      (s in {Finish, Empty} ==> r.parent == null && r.costFromStart == MaxValue && r.heuristicCostToFinish == 0)
  {
  }

  /** Setting the same status twice is the same as setting it once. */
  lemma SetStatusIdempotent(n: Node, before: CellState, s: NodeStatus)
    ensures n.AfterSetStatus(n.AfterSetStatus(before, s), s) == n.AfterSetStatus(before, s)
  {
  }

  /** CompareTo is antisymmetric and transitive, so it orders cells by f. */
  lemma CompareToAntisymmetric(a: Node, b: Node)
    ensures a.CompareTo(b) == -b.CompareTo(a)
  {
  }

  lemma CompareToTransitive(a: Node, b: Node, c: Node)
    requires a.CompareTo(b) <= 0 && b.CompareTo(c) <= 0
    ensures a.CompareTo(c) <= 0
    ensures a.CompareTo(b) < 0 || b.CompareTo(c) < 0 ==> a.CompareTo(c) < 0
  {
  }

  /** Equality is reflexive and symmetric; depth-first cells must agree on their visited flag. */
  lemma EqualsIsEquivalenceLike(a: Node, b: Node)
    ensures a.Equals(a)
    ensures a.Equals(b) ==> b.Equals(a)
    ensures a.Equals(b) && a.kind == DFS ==> a.visited == b.visited
  {
  }
}
