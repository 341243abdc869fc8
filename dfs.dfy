/**
 * The depth-first strategy. It marks a cell visited, stops at a FINISH cell, and otherwise
 * takes the cell's strict walkable neighbours, drops every diagonal whose two flanking cells
 * are both visited already (so the search never crosses the region it has covered), and
 * recurses into each remaining neighbour that is still unvisited when its turn comes, making
 * the current cell its parent.
 *
 * The proof follows the recursion: every cell a call visits ends up "settled" (each of its
 * moves leads to a visited cell, or is a diagonal between two visited cells) unless it is the
 * FINISH cell, and a diagonal between two visited cells can always be taken in two orthogonal
 * steps through one of them. So when the finish is never reached the visited cells are closed
 * under moves, and no walk of moves leads from the start to the finish.
 */
module DepthFirst {
  import opened Wrappers
  import opened Directions
  import opened NodeStatuses
  import opened Nodes
  import opened CornerCutting
  import opened Grid
  import opened Paths
  import opened SearchTrees

  /** The strict moves of every cell, by direction. */
  type MoveMap = map<Node, map<Direction, Node>>

  /** The visited flags of the cells say exactly which cells are in V. */
  ghost predicate VisitedAre(cells: set<Node>, V: set<Node>)
    reads cells`visited
  {
    forall c {:trigger c.visited} :: c in cells ==> c.visited == (c in V)
  }

  /** The move map and the move graph list the same moves, and every move stays in the graph. */
  ghost predicate Agree(g: Graph, M: MoveMap) {
    g.Keys == M.Keys && forall c :: c in M ==> M[c].Values == g[c] && g[c] <= g.Keys
  }

  /** Every diagonal of m comes with both of its flanking orthogonal directions. */
  ghost predicate Flanked(m: map<Direction, Node>) {
    forall d :: d in m && IsDiagonal(d) ==> AdjacentDirectionCCW(d) in m && AdjacentDirectionCW(d) in m
  }

  /** The strict corner rule keeps a diagonal only together with both of its flanks. */
  lemma StrictIsFlanked(m: map<Direction, Node>)
    ensures Flanked(Walkable(m, false))
  {
    forall d | d in Walkable(m, false) && IsDiagonal(d)
      ensures AdjacentDirectionCCW(d) in Walkable(m, false) && AdjacentDirectionCW(d) in Walkable(m, false)
    {
      StrictKeepsDiagonalIffBothFlanks(m, d);
    }
  }

  // ---------------------------------------------------------------------------------------
  // The diagonal prune.

  /** d is a diagonal of m whose two flanking neighbours are both in V. */
  ghost predicate Crossing(m: map<Direction, Node>, d: Direction, V: set<Node>) {
    IsDiagonal(d) && AdjacentDirectionCCW(d) in m && AdjacentDirectionCW(d) in m &&
    m[AdjacentDirectionCCW(d)] in V && m[AdjacentDirectionCW(d)] in V
  }

  /** The neighbour map without the diagonals that would cross the visited cells V. */
  ghost function Uncrossed(m: map<Direction, Node>, V: set<Node>): map<Direction, Node> {
    map d | d in m && !Crossing(m, d, V) :: m[d]
  }

  /** One step of the prune: d is dropped when it is present and crosses V. */
  ghost function PruneOne(m: map<Direction, Node>, d: Direction, V: set<Node>): map<Direction, Node> {
    if d in m && Crossing(m, d, V) then m - {d} else m
  }

  /** A step for diagonal d keeps every other entry, and with it every flank and every crossing. */
  lemma PruneOneKeeps(m: map<Direction, Node>, d: Direction, V: set<Node>)
    requires IsDiagonal(d)
    ensures forall e :: e != d ==> (e in PruneOne(m, d, V) <==> e in m)
    ensures forall e :: e != d && e in m ==> PruneOne(m, d, V)[e] == m[e]
    ensures forall e :: IsDiagonal(e) ==> (Crossing(PruneOne(m, d, V), e, V) <==> Crossing(m, e, V))
  {
    forall e | IsDiagonal(e)
      ensures Crossing(PruneOne(m, d, V), e, V) <==> Crossing(m, e, V)
    {
      DiagonalFlanks(e);
    }
  }

  /** The four steps, for the four diagonals, compute Uncrossed. */
  lemma PrunesComputeUncrossed(m: map<Direction, Node>, V: set<Node>)
    ensures PruneOne(PruneOne(PruneOne(PruneOne(m, NorthEast, V), SouthEast, V), SouthWest, V), NorthWest, V)
            == Uncrossed(m, V)
  {
    var m1 := PruneOne(m, NorthEast, V);
    var m2 := PruneOne(m1, SouthEast, V);
    var m3 := PruneOne(m2, SouthWest, V);
    var m4 := PruneOne(m3, NorthWest, V);
    PruneOneKeeps(m, NorthEast, V);
    PruneOneKeeps(m1, SouthEast, V);
    PruneOneKeeps(m2, SouthWest, V);
    PruneOneKeeps(m3, NorthWest, V);
    forall e
      ensures e in m4 <==> e in Uncrossed(m, V)
    {
      if !IsDiagonal(e) {
        assert !Crossing(m, e, V);
      }
    }
  }

  /**
   * Drops diagonal d when both of its flanking neighbours are visited. A diagonal of the map
   * always comes with its flanks, so the flank lookups find a cell.
   */
  method PruneDiagonal(walkable: map<Direction, Node>, d: Direction, ghost V: set<Node>)
    returns (pruned: map<Direction, Node>)
    requires IsDiagonal(d) && (d in walkable ==> AdjacentDirectionCCW(d) in walkable && AdjacentDirectionCW(d) in walkable)
    requires forall e :: e in walkable ==> walkable[e].visited == (walkable[e] in V)
    ensures pruned == PruneOne(walkable, d, V)
  {
    pruned := walkable;
    if d in walkable {
      if walkable[AdjacentDirectionCCW(d)].IsVisited() && walkable[AdjacentDirectionCW(d)].IsVisited() {
        pruned := walkable - {d};
      }
    }
  }

  /**
   * The prune of the northeast, southeast, southwest and northwest diagonals, in that order:
   * the map loses exactly the diagonals both of whose flanks are visited.
   */
  method PruneCrossings(walkable: map<Direction, Node>, ghost V: set<Node>) returns (pruned: map<Direction, Node>)
    requires Flanked(walkable)
    requires forall e :: e in walkable ==> walkable[e].visited == (walkable[e] in V)
    ensures pruned == Uncrossed(walkable, V)
  {
    PruneOneKeeps(walkable, NorthEast, V);
    pruned := PruneDiagonal(walkable, NorthEast, V);
    PruneOneKeeps(pruned, SouthEast, V);
    pruned := PruneDiagonal(pruned, SouthEast, V);
    PruneOneKeeps(pruned, SouthWest, V);
    pruned := PruneDiagonal(pruned, SouthWest, V);
    PruneOneKeeps(pruned, NorthWest, V);
    pruned := PruneDiagonal(pruned, NorthWest, V);
    PrunesComputeUncrossed(walkable, V);
  }

  /** The prune keeps the orthogonal moves and drops a diagonal exactly when both flanks are in V. */
  lemma UncrossedExactly(m: map<Direction, Node>, V: set<Node>, d: Direction)
    requires Flanked(m) && d in m
    ensures !IsDiagonal(d) ==> d in Uncrossed(m, V)
    ensures IsDiagonal(d) ==>
      (d !in Uncrossed(m, V) <==> m[AdjacentDirectionCCW(d)] in V && m[AdjacentDirectionCW(d)] in V)
    ensures d in Uncrossed(m, V) ==> Uncrossed(m, V)[d] == m[d]
  {
  }

  // ---------------------------------------------------------------------------------------
  // What a finished call leaves behind.

  /**
   * The call for c is finished with respect to the visited cells V: c is the FINISH cell
   * (which is not expanded), or every move out of c leads into V or is a diagonal that was
   * pruned because both of its flanks are in V.
   */
  ghost predicate Settled(M: MoveMap, avoid: set<Node>, c: Node, V: set<Node>) {
    c in avoid ||
    (c in M && forall d :: d in M[c] ==> M[c][d] in V || Crossing(M[c], d, V))
  }

  /** More visited cells leave a settled cell settled. */
  lemma SettledGrows(M: MoveMap, avoid: set<Node>, c: Node, V: set<Node>, W: set<Node>)
    requires Settled(M, avoid, c, V) && V <= W
    ensures Settled(M, avoid, c, W)
  {
  }

  /**
   * The result of the call for aNode, which began with the visited cells V0: the parent
   * links form a discovery tree over the visited cells V, aNode and the earlier cells are
   * among them, and every cell the call visited is settled.
   */
  ghost predicate Visited(g: Graph, M: MoveMap, root: Node, avoid: set<Node>, V0: set<Node>, aNode: Node,
                          V: set<Node>, rank: map<Node, nat>, parents: map<Node, Node>)
  {
    DiscoveryTree(g, root, parents, V, rank) && V0 + {aNode} <= V &&
    forall c :: c in V && c !in V0 ==> Settled(M, avoid, c, V)
  }

  /**
   * The loop of the call for aNode, over the pruned neighbour map: the directions still to
   * come are `dirs`, every neighbour already taken is visited, and every cell visited since
   * the call began, other than aNode, is settled.
   */
  ghost predicate Expanding(g: Graph, M: MoveMap, root: Node, avoid: set<Node>, V0: set<Node>, aNode: Node,
                            pruned: map<Direction, Node>, dirs: set<Direction>,
                            V: set<Node>, rank: map<Node, nat>, parents: map<Node, Node>)
  {
    DiscoveryTree(g, root, parents, V, rank) && V0 + {aNode} <= V && |V0| < |V| &&
    dirs <= pruned.Keys && (forall d :: d in pruned && d !in dirs ==> pruned[d] in V) &&
    forall c :: c in V && c !in V0 && c != aNode ==> Settled(M, avoid, c, V)
  }

  /** Before the loop nothing is taken yet and only aNode is new. */
  lemma ExpandingStarts(g: Graph, M: MoveMap, root: Node, avoid: set<Node>, V0: set<Node>, aNode: Node,
                        pruned: map<Direction, Node>, rank0: map<Node, nat>, parents0: map<Node, Node>)
    requires aNode !in V0 && DiscoveryTree(g, root, parents0, V0 + {aNode}, rank0)
    ensures Expanding(g, M, root, avoid, V0, aNode, pruned, pruned.Keys, V0 + {aNode}, rank0, parents0)
  {
  }

  /** The loop's result settles aNode. */
  lemma ExpandedSettles(M: MoveMap, avoid: set<Node>, aNode: Node, V1: set<Node>, V: set<Node>,
                        pruned: map<Direction, Node>)
    requires aNode in M && pruned == Uncrossed(M[aNode], V1) && V1 <= V
    requires forall d :: d in pruned ==> pruned[d] in V
    ensures Settled(M, avoid, aNode, V)
  {
    forall d | d in M[aNode]
      ensures M[aNode][d] in V || Crossing(M[aNode], d, V)
    {
      if d !in pruned {
        assert Crossing(M[aNode], d, V1);
      }
    }
  }

  /**
   * The closure argument: when the settled cells are all the visited cells, every move out
   * of a visited cell other than the FINISH cell leads to a visited cell. A pruned diagonal
   * from c is reached from one of its two flanks by an orthogonal move, and at most one of
   * the two flanks is the FINISH cell.
   */
  lemma SettledCloses(area: SearchArea, blocked: set<Node>, M: MoveMap, g: Graph, avoid: set<Node>, V: set<Node>)
    requires area.Layout() && area.IsMoveMap(blocked, M) && Agree(g, M) && V <= M.Keys
    requires forall a, b :: a in avoid && b in avoid ==> a == b
    requires forall c :: c in V ==> Settled(M, avoid, c, V)
    ensures forall c :: c in V && c !in avoid ==> g[c] <= V
  {
    forall c, n | c in V && c !in avoid && n in g[c]
      ensures n in V
    {
      var d :| d in M[c] && M[c][d] == n;
      if Crossing(M[c], d, V) {
        area.FlankSteps(blocked, M, c, d);
        var cw, ccw := AdjacentDirectionCW(d), AdjacentDirectionCCW(d);
        DiagonalFlanks(d);
        var f := if M[c][cw] !in avoid then M[c][cw] else M[c][ccw];
        var o := if M[c][cw] !in avoid then ccw else cw;
        assert f in V && f !in avoid && o in M[f] && M[f][o] == n && !IsDiagonal(o);
      }
    }
  }

  // ---------------------------------------------------------------------------------------
  // The recursion.

  /**
   * What stays fixed during the search: a depth-first area, the statuses S its cells carry,
   * the obstacles among them, their move graph and move map, and the FINISH cell (if any)
   * among `avoid`.
   */
  ghost predicate Setting(area: SearchArea, S: map<Node, NodeStatus>, blocked: set<Node>, g: Graph, M: MoveMap,
                          avoid: set<Node>)
  {
    area.Layout() && (forall c :: c in area.Cells ==> c.kind == DFS) && area.Cells <= S.Keys &&
    blocked == (set c | c in area.Cells && S[c] == Obstacle) && Agree(g, M) && g.Keys <= area.Cells &&
    (forall c {:trigger area.StrictMoves(blocked, c)} :: c in M ==> M[c] == area.StrictMoves(blocked, c)) &&
    forall c :: c in area.Cells && S[c] == Finish ==> c in avoid
  }

  /** The visited flags record V and the parent fields record the tree `parents`. */
  ghost predicate Records(cells: set<Node>, V: set<Node>, parents: map<Node, Node>)
    reads cells`visited, cells`parent
  {
    VisitedAre(cells, V) && ParentsAre(cells, parents)
  }

  /**
   * The recursive search from aNode: marks it visited; unless it is the FINISH cell, prunes
   * its strict walkable neighbours and descends into each one still unvisited, linking it to
   * aNode. What it promises is `Visited`; the visited flags and the parent links of the cells
   * keep recording the visited set and the tree.
   */
  method Visit(area: SearchArea, ghost S: map<Node, NodeStatus>, ghost blocked: set<Node>, ghost g: Graph, ghost M: MoveMap, ghost avoid: set<Node>,
               aNode: Node, ghost V0: set<Node>, ghost rank0: map<Node, nat>, ghost parents0: map<Node, Node>)
    returns (ghost V: set<Node>, ghost rank: map<Node, nat>, ghost parents: map<Node, Node>)
    requires Setting(area, S, blocked, g, M, avoid) && Carries(area.Cells, S) && area.start != null
    requires aNode !in V0 && DiscoveryTree(g, area.start, parents0, V0 + {aNode}, rank0)
    requires Records(area.Cells, V0, parents0)
    modifies area.Cells`visited, area.Cells`parent
    ensures Visited(g, M, area.start, avoid, V0, aNode, V, rank, parents) && Records(area.Cells, V, parents)
    ensures aNode.status == Finish ==> V == V0 + {aNode} && rank == rank0 && parents == parents0
    decreases |area.Cells| - |V0|, 1
  {
    MarkVisited(area, aNode, V0, parents0);
    V, rank, parents := V0 + {aNode}, rank0, parents0;
    if aNode.IsFinish() {
      return;
    }
    V, rank, parents := Expand(area, S, blocked, g, M, avoid, aNode, V0, rank0, parents0);
  }

  /** The part of the call for aNode after the FINISH test: the prune and the loop. */
  method Expand(area: SearchArea, ghost S: map<Node, NodeStatus>, ghost blocked: set<Node>, ghost g: Graph,
                ghost M: MoveMap, ghost avoid: set<Node>, aNode: Node, ghost V0: set<Node>, ghost rank0: map<Node, nat>,
                ghost parents0: map<Node, Node>)
    returns (ghost V: set<Node>, ghost rank: map<Node, nat>, ghost parents: map<Node, Node>)
    requires Setting(area, S, blocked, g, M, avoid) && Carries(area.Cells, S) && area.start != null
    requires aNode !in V0 && DiscoveryTree(g, area.start, parents0, V0 + {aNode}, rank0)
    requires Records(area.Cells, V0 + {aNode}, parents0)
    modifies area.Cells`visited, area.Cells`parent
    ensures Visited(g, M, area.start, avoid, V0, aNode, V, rank, parents) && Records(area.Cells, V, parents)
    decreases |area.Cells| - |V0|, 0
  {
    SubsetCardinality(V0, area.Cells);
    V, rank, parents := V0 + {aNode}, rank0, parents0;
    var pruned := UnvisitedMoves(area, S, blocked, g, M, avoid, aNode, V);
    var dirs := pruned.Keys;
    ExpandingStarts(g, M, area.start, avoid, V0, aNode, pruned, rank0, parents0);
    while dirs != {}
      invariant Setting(area, S, blocked, g, M, avoid) && Carries(area.Cells, S) && area.start != null
      invariant Expanding(g, M, area.start, avoid, V0, aNode, pruned, dirs, V, rank, parents)
      invariant Records(area.Cells, V, parents)
      decreases |dirs|
    {
      dirs, V, rank, parents := Descend(area, S, blocked, g, M, avoid, aNode, pruned, dirs, V0, V, rank, parents);
    }
    ExpandedSettles(M, avoid, aNode, V0 + {aNode}, V, pruned);
  }

  /** Marks aNode visited. */
  method MarkVisited(area: SearchArea, aNode: Node, ghost V0: set<Node>, ghost parents: map<Node, Node>)
    requires aNode.kind == DFS && aNode in area.Cells && Records(area.Cells, V0, parents)
    modifies aNode`visited
    ensures Records(area.Cells, V0 + {aNode}, parents)
  {
    aNode.SetVisited(true);
  }

  /**
   * The strict walkable neighbours of aNode, less the diagonals whose flanks are both
   * visited: every entry is a move of aNode.
   */
  method UnvisitedMoves(area: SearchArea, ghost S: map<Node, NodeStatus>, ghost blocked: set<Node>, ghost g: Graph, ghost M: MoveMap,
                        ghost avoid: set<Node>, aNode: Node, ghost V: set<Node>)
    returns (pruned: map<Direction, Node>)
    requires Setting(area, S, blocked, g, M, avoid) && Carries(area.Cells, S) && area.start != null && aNode in M && VisitedAre(area.Cells, V)
    ensures pruned == Uncrossed(M[aNode], V)
    ensures forall d :: d in pruned ==> pruned[d] in g[aNode] && pruned[d] in area.Cells
  {
    assert blocked == area.CellsWith(Obstacle);
    var walkable := area.GetWalkableNeighbors(aNode, false);
    assert walkable == area.StrictMoves(blocked, aNode) == M[aNode];
    StrictIsFlanked(area.NeighborsGiven(blocked, aNode));
    forall d | d in walkable
      ensures walkable[d] in g[aNode] && walkable[d] in area.Cells
    {
      assert walkable[d] in M[aNode].Values;
    }
    pruned := PruneCrossings(walkable, V);
  }

  /** One turn of the loop over the pruned neighbours of aNode. */
  method Descend(area: SearchArea, ghost S: map<Node, NodeStatus>, ghost blocked: set<Node>, ghost g: Graph, ghost M: MoveMap, ghost avoid: set<Node>,
                 aNode: Node, pruned: map<Direction, Node>, dirs0: set<Direction>, ghost V0: set<Node>,
                 ghost V1: set<Node>, ghost rank1: map<Node, nat>, ghost parents1: map<Node, Node>)
    returns (dirs: set<Direction>, ghost V: set<Node>, ghost rank: map<Node, nat>, ghost parents: map<Node, Node>)
    requires Setting(area, S, blocked, g, M, avoid) && Carries(area.Cells, S) && area.start != null
    requires aNode in g && forall d :: d in pruned ==> pruned[d] in g[aNode] && pruned[d] in area.Cells
    requires dirs0 != {} && Expanding(g, M, area.start, avoid, V0, aNode, pruned, dirs0, V1, rank1, parents1)
    requires Records(area.Cells, V1, parents1)
    modifies area.Cells`visited, area.Cells`parent
    ensures Expanding(g, M, area.start, avoid, V0, aNode, pruned, dirs, V, rank, parents) && |dirs| < |dirs0|
    ensures Records(area.Cells, V, parents)
    decreases |area.Cells| - |V1|, 3
  {
    var dir :| dir in dirs0;
    dirs := dirs0 - {dir};
    assert dirs0 == dirs + {dir};
    var neighbor := pruned[dir];
    if !neighbor.IsVisited() {
      V, rank, parents := Branch(area, S, blocked, g, M, avoid, aNode, neighbor, V1, rank1, parents1);
      ExpandingStep(g, M, area.start, avoid, V0, aNode, pruned, dirs0, dir, V1, rank1, parents1, V, rank, parents);
    } else {
      V, rank, parents := V1, rank1, parents1;
      ExpandingSkip(g, M, area.start, avoid, V0, aNode, pruned, dirs0, dir, V1, rank1, parents1);
    }
  }

  /** Links an unvisited neighbour to aNode and searches from it. */
  method Branch(area: SearchArea, ghost S: map<Node, NodeStatus>, ghost blocked: set<Node>, ghost g: Graph, ghost M: MoveMap, ghost avoid: set<Node>,
                aNode: Node, neighbor: Node, ghost V1: set<Node>, ghost rank1: map<Node, nat>,
                ghost parents1: map<Node, Node>)
    returns (ghost V: set<Node>, ghost rank: map<Node, nat>, ghost parents: map<Node, Node>)
    requires Setting(area, S, blocked, g, M, avoid) && Carries(area.Cells, S) && area.start != null
    requires aNode in V1 && aNode in g && neighbor in g[aNode] && neighbor in area.Cells && neighbor !in V1
    requires DiscoveryTree(g, area.start, parents1, V1, rank1) && Records(area.Cells, V1, parents1)
    modifies area.Cells`visited, area.Cells`parent
    ensures Visited(g, M, area.start, avoid, V1, neighbor, V, rank, parents) && Records(area.Cells, V, parents)
    decreases |area.Cells| - |V1|, 2
  {
    Link(area, aNode, neighbor, V1, parents1);
    DiscoverOne(g, area.start, parents1, V1, rank1, aNode, neighbor, rank1[aNode] + 1);
    V, rank, parents := Visit(area, S, blocked, g, M, avoid, neighbor, V1, rank1[neighbor := rank1[aNode] + 1],
                              parents1[neighbor := aNode]);
  }

  /** Makes aNode the parent of neighbor. */
  method Link(area: SearchArea, aNode: Node, neighbor: Node, ghost V: set<Node>, ghost parents: map<Node, Node>)
    requires neighbor in area.Cells && Records(area.Cells, V, parents)
    modifies neighbor`parent
    ensures Records(area.Cells, V, parents[neighbor := aNode])
  {
    neighbor.SetParent(aNode);
  }

  /** A turn of the loop that found the neighbour visited already keeps `Expanding`. */
  lemma ExpandingSkip(g: Graph, M: MoveMap, root: Node, avoid: set<Node>, V0: set<Node>, aNode: Node,
                      pruned: map<Direction, Node>, dirs0: set<Direction>, dir: Direction,
                      V1: set<Node>, rank1: map<Node, nat>, parents1: map<Node, Node>)
    requires Expanding(g, M, root, avoid, V0, aNode, pruned, dirs0, V1, rank1, parents1) && dir in dirs0
    requires pruned[dir] in V1
    ensures Expanding(g, M, root, avoid, V0, aNode, pruned, dirs0 - {dir}, V1, rank1, parents1)
  {
  }

  /** A turn of the loop that descended keeps `Expanding`. */
  lemma ExpandingStep(g: Graph, M: MoveMap, root: Node, avoid: set<Node>, V0: set<Node>, aNode: Node,
                      pruned: map<Direction, Node>, dirs0: set<Direction>, dir: Direction,
                      V1: set<Node>, rank1: map<Node, nat>, parents1: map<Node, Node>,
                      V: set<Node>, rank: map<Node, nat>, parents: map<Node, Node>)
    requires Expanding(g, M, root, avoid, V0, aNode, pruned, dirs0, V1, rank1, parents1) && dir in dirs0
    requires Visited(g, M, root, avoid, V1, pruned[dir], V, rank, parents)
    ensures Expanding(g, M, root, avoid, V0, aNode, pruned, dirs0 - {dir}, V, rank, parents)
  {
    SubsetCardinality(V1, V);
    forall c | c in V && c !in V0 && c != aNode
      ensures Settled(M, avoid, c, V)
    {
      if c in V1 {
        SettledGrows(M, avoid, c, V1, V);
      }
    }
  }

  // ---------------------------------------------------------------------------------------
  // The strategy.

  /**
   * The depth-first strategy, on a fresh search state of a depth-first search area: no area
   * gives no path; a missing start throws when it is marked visited; a missing finish throws
   * in the path builder after the search. Otherwise the answer is what the move graph of the
   * obstacles before the search allows, the path builder answers "no path" exactly when the
   * finish is the start or was never visited, and the visited flags record the visited cells.
   */
  method Execute(area: SearchArea?)
    returns (r: Outcome<Option<seq<Node>>>, ghost g: Graph, ghost reached: set<Node>, ghost parents: map<Node, Node>)
    requires area != null ==>
      area.Valid() && area.kind == DFS && forall c :: c in area.Cells ==> c.parent == null && !c.visited
    modifies if area != null then area.Cells else {}
    ensures area == null ==> r == Returns(None)
    ensures area != null ==> area.Valid() && MarksLeft(area.Cells, old(StatusesOf(area.Cells)), r)
    ensures area != null && area.start != null ==>
      (exists rank :: DiscoveryTree(g, area.start, parents, reached, rank)) && ParentsAre(area.Cells, parents)
    ensures area != null && area.start == null ==> r == Throws(NullPointer)
    ensures area != null && area.start != null && area.finish == null ==> r == Throws(NullPointer)
    ensures area != null && area.start != null && area.finish != null ==>
      area.IsMoveGraph(old(area.CellsWith(Obstacle)), g) &&
      Answers(g, area.start, area.finish, old(area.start.status) == Start, old(area.finish.status) == Finish,
              reached, r) &&
      (r == Returns(None) <==> area.finish == area.start || area.finish !in reached) &&
      forall c :: c in area.Cells ==> c.visited == (c in reached)
  {
    if area == null {
      return Returns(None), map[], {}, map[];
    }
    if area.start == null {
      return Throws(NullPointer), map[], {}, map[];
    }
    r, g, reached, parents := Search(area);
  }

  /** The search proper, from a start cell. */
  method Search(area: SearchArea)
    returns (r: Outcome<Option<seq<Node>>>, ghost g: Graph, ghost reached: set<Node>, ghost parents: map<Node, Node>)
    requires area.Valid() && area.kind == DFS && area.start != null
    requires forall c :: c in area.Cells ==> c.parent == null && !c.visited
    modifies area.Cells
    ensures area.Valid() && (exists rank :: DiscoveryTree(g, area.start, parents, reached, rank)) && ParentsAre(area.Cells, parents)
    ensures MarksLeft(area.Cells, old(StatusesOf(area.Cells)), r)
    ensures area.finish == null ==> r == Throws(NullPointer)
    ensures area.finish != null ==>
      area.IsMoveGraph(old(area.CellsWith(Obstacle)), g) &&
      Answers(g, area.start, area.finish, old(area.start.status) == Start, old(area.finish.status) == Finish,
              reached, r) &&
      (r == Returns(None) <==> area.finish == area.start || area.finish !in reached) &&
      forall c :: c in area.Cells ==> c.visited == (c in reached)
  {
    ghost var S, blocked, M, avoid;
    S, blocked, g, M, avoid := Prepare(area);
    ghost var rank: map<Node, nat>;
    reached, rank, parents := Visit(area, S, blocked, g, M, avoid, area.start, {}, map[area.start := 0], map[]);
    r := Conclude(area, S, blocked, g, M, avoid, reached, rank, parents);
    MarksLeftAgree(area.Cells, S, old(StatusesOf(area.Cells)), r);
  }

  /** The fixed facts of the search, for the statuses and obstacles the area has when it begins. */
  lemma Prepare(area: SearchArea)
    returns (S: map<Node, NodeStatus>, blocked: set<Node>, g: Graph, M: MoveMap, avoid: set<Node>)
    requires area.Valid() && area.kind == DFS
    requires forall c :: c in area.Cells ==> c.parent == null && !c.visited
    ensures Setting(area, S, blocked, g, M, avoid) && Carries(area.Cells, S) && Records(area.Cells, {}, map[])
    ensures blocked == area.CellsWith(Obstacle) && area.IsMoveGraph(blocked, g) && area.IsMoveMap(blocked, M)
    ensures avoid == if area.finish != null && area.finish.status == Finish then {area.finish} else {}
  {
    forall c | c in area.Cells
      ensures c.kind == DFS
    {
      area.CellPosition(c);
    }
    S := map c | c in area.Cells :: c.status;
    blocked := area.CellsWith(Obstacle);
    g := area.MoveGraph(blocked);
    M := area.MoveMap(blocked, g);
    avoid := if area.finish != null && area.finish.status == Finish then {area.finish} else {};
  }

  /**
   * After the recursion from the start: a missing finish throws in the path builder;
   * otherwise the path builder walks the tree, and when the finish was never visited the
   * visited cells are closed under moves.
   */
  method Conclude(area: SearchArea, ghost S: map<Node, NodeStatus>, ghost blocked: set<Node>, ghost g: Graph,
                  ghost M: MoveMap, ghost avoid: set<Node>, ghost reached: set<Node>, ghost rank: map<Node, nat>,
                  ghost parents: map<Node, Node>)
    returns (r: Outcome<Option<seq<Node>>>)
    requires area.Valid() && area.start != null && Setting(area, S, blocked, g, M, avoid) && area.IsMoveMap(blocked, M)
    requires avoid == if area.finish != null && area.finish.status == Finish then {area.finish} else {}
    requires Visited(g, M, area.start, avoid, {}, area.start, reached, rank, parents)
    requires Records(area.Cells, reached, parents) && Carries(area.Cells, S)
    modifies area.Cells
    ensures area.Valid() && ParentsAre(area.Cells, parents) && MarksLeft(area.Cells, S, r)
    ensures area.finish == null ==> r == Throws(NullPointer)
    ensures area.finish != null ==>
      Answers(g, area.start, area.finish, old(area.start.status) == Start, old(area.finish.status) == Finish,
              reached, r) &&
      (r == Returns(None) <==> area.finish == area.start || area.finish !in reached) &&
      forall c :: c in area.Cells ==> c.visited == (c in reached)
  {
    if area.finish == null {
      return Throws(NullPointer);
    }
    SettledCloses(area, blocked, M, g, avoid, reached);
    r := TracePath(area, S, g, reached, rank, parents);
  }
}
