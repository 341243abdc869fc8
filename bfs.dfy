/**
 * Breadth-first search over the strict-mode walkable neighbours. The horizon is a FIFO queue
 * and a discovered set makes every cell enter it at most once; a cell's parent is set when it
 * is discovered, to the cell being expanded, and never again.
 */
module BreadthFirst {
  import opened Wrappers
  import opened NodeStatuses
  import opened Directions
  import opened Nodes
  import opened Grid
  import opened Paths
  import opened SearchTrees

  /**
   * The horizon's bookkeeping: `queue` lists the discovered cells, each once, in discovery
   * order, and `rank` gives each discovered cell its position in `queue`.
   */
  ghost predicate Indexed(queue: seq<Node>, discovered: set<Node>, rank: map<Node, nat>) {
    rank.Keys == discovered &&
    (forall i :: 0 <= i < |queue| ==> queue[i] in rank && rank[queue[i]] == i) &&
    (forall c :: c in rank ==> rank[c] < |queue| && queue[rank[c]] == c)
  }

  /** Appending a cell not yet discovered keeps the bookkeeping. */
  lemma IndexOne(queue: seq<Node>, discovered: set<Node>, rank: map<Node, nat>, n: Node)
    requires Indexed(queue, discovered, rank) && n !in discovered
    ensures Indexed(queue + [n], discovered + {n}, rank[n := |queue|])
  {
  }

  /** A queue that lists every discovered cell once is as long as the discovered set is large. */
  lemma {:induction false} IndexedCount(queue: seq<Node>, discovered: set<Node>, rank: map<Node, nat>)
    requires Indexed(queue, discovered, rank)
    ensures |queue| == |discovered|
  {
    if queue != [] {
      var q := queue[|queue| - 1];
      var shorter := queue[..|queue| - 1];
      forall c | c in rank - {q}
        ensures rank[c] < |shorter| && shorter[rank[c]] == c
      {
        assert rank[c] != |queue| - 1;
      }
      IndexedCount(shorter, discovered - {q}, rank - {q});
    }
  }

  /**
   * The search so far is sound: `queue` lists the discovered cells, the parent links form a
   * discovery tree ranked by queue position, and every move out of the first `expanded`
   * cells of the queue has been discovered.
   */
  ghost predicate Sound(g: Graph, root: Node, queue: seq<Node>, expanded: int, discovered: set<Node>,
                        rank: map<Node, nat>, parents: map<Node, Node>)
  {
    Indexed(queue, discovered, rank) && DiscoveryTree(g, root, parents, discovered, rank) &&
    forall i :: 0 <= i < expanded && i < |queue| ==> queue[i] in g && g[queue[i]] <= discovered
  }

  /**
   * The queue only grows at the back, and the discovered set grows strictly unless nothing
   * changed at all.
   */
  ghost predicate Extends(queue0: seq<Node>, discovered0: set<Node>, queue: seq<Node>, discovered: set<Node>) {
    |queue0| <= |queue| && (forall i :: 0 <= i < |queue0| ==> queue[i] == queue0[i]) &&
    ((discovered == discovered0 && queue == queue0) || (discovered0 < discovered && |queue0| < |queue|))
  }

  lemma ExtendsTrans(q0: seq<Node>, d0: set<Node>, q1: seq<Node>, d1: set<Node>, q2: seq<Node>, d2: set<Node>)
    requires Extends(q0, d0, q1, d1) && Extends(q1, d1, q2, d2)
    ensures Extends(q0, d0, q2, d2)
  {
  }

  /**
   * The hop counts of a breadth-first search: `depth` gives each discovered cell its number
   * of links from the root, the queue lists cells in non-decreasing depth, none more than one
   * deeper than the cell being expanded, and a move out of an expanded cell goes at most one
   * level deeper.
   */
  ghost predicate Layered(g: Graph, root: Node, queue: seq<Node>, expanded: int, discovered: set<Node>,
                          parents: map<Node, Node>, depth: map<Node, nat>)
  {
    depth.Keys == discovered && Depths(root, parents, depth) &&
    (forall i :: 0 <= i < |queue| ==> queue[i] in depth) &&
    (forall i, j :: 0 <= i <= j < |queue| ==> depth[queue[i]] <= depth[queue[j]]) &&
    (0 <= expanded < |queue| ==> forall i :: 0 <= i < |queue| ==> depth[queue[i]] <= depth[queue[expanded]] + 1) &&
    forall i, n :: 0 <= i < expanded && i < |queue| && queue[i] in g && n in g[queue[i]] && n in depth ==>
      depth[n] <= depth[queue[i]] + 1
  }

  /** The root is at depth 0 and every other linked cell one deeper than its parent. */
  ghost predicate Depths(root: Node, parents: map<Node, Node>, depth: map<Node, nat>) {
    root in depth && depth[root] == 0 &&
    forall c :: c in parents ==> c in depth && parents[c] in depth && depth[c] == depth[parents[c]] + 1
  }

  /** Discovering n from the cell being expanded puts it one level deeper, at the back. */
  lemma LayerOne(g: Graph, root: Node, queue: seq<Node>, k: nat, discovered: set<Node>,
                 rank: map<Node, nat>, parents: map<Node, Node>, depth: map<Node, nat>, p: Node, n: Node)
    requires Sound(g, root, queue, k, discovered, rank, parents) && Layered(g, root, queue, k, discovered, parents, depth)
    requires k < |queue| && p == queue[k] && n !in discovered
    ensures Layered(g, root, queue + [n], k, discovered + {n}, parents[n := p], depth[n := depth[p] + 1])
  {
    var q, d := queue + [n], depth[n := depth[p] + 1];
    forall i, j | 0 <= i <= j < |q|
      ensures d[q[i]] <= d[q[j]]
    {
      if j < |queue| {
        assert q[i] == queue[i] && q[j] == queue[j];
      } else if i < |queue| {
        assert q[i] == queue[i];
      }
    }
    forall i | 0 <= i < |q|
      ensures d[q[i]] <= d[q[k]] + 1
    {
      if i < |queue| {
        assert q[i] == queue[i];
      }
    }
    forall i, m | 0 <= i < k && i < |q| && q[i] in g && m in g[q[i]] && m in d
      ensures d[m] <= d[q[i]] + 1
    {
      assert q[i] == queue[i];
      assert m != n;
    }
  }

  /** Once every move of queue[k] is discovered, the depths hold with k + 1 cells expanded. */
  lemma LayerExpanded(g: Graph, root: Node, queue: seq<Node>, k: nat, discovered: set<Node>,
                      rank: map<Node, nat>, parents: map<Node, Node>, depth: map<Node, nat>)
    requires Sound(g, root, queue, k, discovered, rank, parents) && Layered(g, root, queue, k, discovered, parents, depth)
    requires k < |queue| && queue[k] in g && g[queue[k]] <= discovered
    ensures Layered(g, root, queue, k + 1, discovered, parents, depth)
  {
    forall n | n in g[queue[k]]
      ensures depth[n] <= depth[queue[k]] + 1
    {
      assert queue[rank[n]] == n;
    }
  }

  /**
   * With the first h cells expanded, a walk from the root shorter than the depth of queue[h]
   * only visits discovered cells, cell i of it at most i + 1 levels deep.
   */
  lemma {:induction false} WalkDepths(g: Graph, root: Node, queue: seq<Node>, h: nat, discovered: set<Node>,
                                      rank: map<Node, nat>, parents: map<Node, Node>, depth: map<Node, nat>,
                                      p: seq<Node>, i: nat)
    requires Sound(g, root, queue, h, discovered, rank, parents) && Layered(g, root, queue, h, discovered, parents, depth)
    requires h < |queue| && IsWalk(g, root, p) && i < |p| && i < depth[queue[h]]
    ensures p[i] in discovered && depth[p[i]] <= i + 1
  {
    var c := if i == 0 then root else p[i - 1];
    if i > 0 {
      WalkDepths(g, root, queue, h, discovered, rank, parents, depth, p, i - 1);
    }
    assert c in discovered && depth[c] <= i;
    var j := rank[c];
    assert queue[j] == c && j < h;
    assert p[i] in g[queue[j]];
  }

  /** No walk from the root reaches queue[h] in fewer hops than its depth. */
  lemma ShortestWalk(g: Graph, root: Node, queue: seq<Node>, h: nat, discovered: set<Node>,
                     rank: map<Node, nat>, parents: map<Node, Node>, depth: map<Node, nat>, p: seq<Node>)
    requires Sound(g, root, queue, h, discovered, rank, parents) && Layered(g, root, queue, h, discovered, parents, depth)
    requires h < |queue| && IsWalk(g, root, p) && p[|p| - 1] == queue[h]
    ensures depth[queue[h]] <= |p|
  {
    if |p| < depth[queue[h]] {
      WalkDepths(g, root, queue, h, discovered, rank, parents, depth, p, |p| - 1);
    }
  }

  /** A path down the links from the root ends as many hops deep as it is long. */
  lemma {:induction false} LinksDepth(root: Node, parents: map<Node, Node>, depth: map<Node, nat>, p: seq<Node>, i: nat)
    requires Depths(root, parents, depth) && FollowsLinks(parents, root, p) && i < |p|
    ensures p[i] in depth && depth[p[i]] == i + 1
  {
    assert LinkedAt(parents, root, p, i);
    if i > 0 {
      LinksDepth(root, parents, depth, p, i - 1);
    }
  }

  /** Discovering n from the discovered cell p keeps the search sound and extends it. */
  lemma DiscoverStep(g: Graph, root: Node, queue: seq<Node>, expanded: nat, discovered: set<Node>,
                     rank: map<Node, nat>, parents: map<Node, Node>, depth: map<Node, nat>, p: Node, n: Node)
    requires Sound(g, root, queue, expanded, discovered, rank, parents)
    requires Layered(g, root, queue, expanded, discovered, parents, depth) && expanded < |queue| && p == queue[expanded]
    requires p in discovered && n in g && n in g[p] && n !in discovered
    ensures Sound(g, root, queue + [n], expanded, discovered + {n}, rank[n := |queue|], parents[n := p])
    ensures Layered(g, root, queue + [n], expanded, discovered + {n}, parents[n := p], depth[n := depth[p] + 1])
    ensures Extends(queue, discovered, queue + [n], discovered + {n})
  {
    LayerOne(g, root, queue, expanded, discovered, rank, parents, depth, p, n);
    IndexOne(queue, discovered, rank, n);
    DiscoverOne(g, root, parents, discovered, rank, p, n, |queue|);
    var q := queue + [n];
    forall i | 0 <= i < expanded && i < |q|
      ensures q[i] in g && g[q[i]] <= discovered + {n}
    {
      if i < |queue| {
        assert q[i] == queue[i];
      }
    }
  }

  /** None of the first `head` cells of the queue is in `avoid`. */
  ghost predicate Avoids(queue: seq<Node>, head: int, avoid: set<Node>) {
    forall i :: 0 <= i < head && i < |queue| ==> queue[i] !in avoid
  }

  /** Expanding a cell outside `avoid` keeps the expanded cells outside it. */
  lemma AvoidsOne(queue0: seq<Node>, discovered0: set<Node>, queue: seq<Node>, discovered: set<Node>,
                  k: nat, avoid: set<Node>)
    requires Avoids(queue0, k, avoid) && k < |queue0| && queue0[k] !in avoid
    requires Extends(queue0, discovered0, queue, discovered)
    ensures Avoids(queue, k + 1, avoid)
  {
  }

  /** A sound search's queue is no longer than the grid has cells. */
  lemma QueueBounded(g: Graph, root: Node, queue: seq<Node>, k: int, discovered: set<Node>,
                     rank: map<Node, nat>, parents: map<Node, Node>)
    requires Sound(g, root, queue, k, discovered, rank, parents)
    ensures |queue| == |discovered| <= |g.Keys|
  {
    IndexedCount(queue, discovered, rank);
    SubsetCardinality(discovered, g.Keys);
  }

  /** Once every move of queue[k] is discovered, the first k + 1 cells are expanded. */
  lemma ExpandedOne(g: Graph, root: Node, queue: seq<Node>, k: nat, discovered: set<Node>,
                    rank: map<Node, nat>, parents: map<Node, Node>)
    requires Sound(g, root, queue, k, discovered, rank, parents) && k < |queue|
    requires queue[k] in g && g[queue[k]] <= discovered
    ensures Sound(g, root, queue, k + 1, discovered, rank, parents)
  {
  }

  /**
   * A sound search that has expanded its whole queue has discovered a set closed under
   * moves; it avoids every set the queue avoids.
   */
  lemma Exhausted(g: Graph, root: Node, queue: seq<Node>, discovered: set<Node>,
                  rank: map<Node, nat>, parents: map<Node, Node>, avoid: set<Node>)
    requires Sound(g, root, queue, |queue|, discovered, rank, parents) && Avoids(queue, |queue|, avoid)
    ensures ClosedUnderMoves(g, discovered) && discovered !! avoid
  {
    forall c | c in discovered
      ensures c !in avoid && g[c] <= discovered
    {
      assert queue[rank[c]] == c;
    }
  }

  /**
   * The search over the move graph g of the grid as it stands: the loop below, and what its
   * end means. `order` lists the discovered cells in discovery order and `steps` counts the
   * cells taken off the front of the horizon, so the loop runs at most once per cell.
   */
  method Explore(area: SearchArea, ghost blocked: set<Node>, ghost g: Graph)
    returns (found: bool, discovered: set<Node>, ghost rank: map<Node, nat>, ghost parents: map<Node, Node>,
             ghost order: seq<Node>, ghost steps: nat, ghost depth: map<Node, nat>)
    requires area.Layout() && area.start != null && area.start in area.Cells
    requires area.finish != null ==> area.finish in area.Cells
    requires blocked == area.CellsWith(Obstacle) && area.IsMoveGraph(blocked, g)
    requires forall c :: c in area.Cells && c.status == Finish ==> c == area.finish
    requires forall c :: c in area.Cells ==> c.parent == null
    modifies area.Cells`parent
    ensures DiscoveryTree(g, area.start, parents, discovered, rank) && ParentsAre(area.Cells, parents)
    ensures Indexed(order, discovered, rank)
    ensures found ==> area.finish != null && area.finish in discovered && area.finish.status == Finish
    ensures !found ==> ClosedUnderMoves(g, discovered)
    ensures !found && area.finish != null && area.finish.status == Finish ==> area.finish !in discovered
    ensures steps <= |order| <= |area.Cells|
    ensures Depths(area.start, parents, depth)
    ensures found ==> area.finish in depth
    ensures found ==> NoWalkShorter(g, area.start, area.finish, depth[area.finish])
  {
    ghost var avoid := if area.finish != null && area.finish.status == Finish then {area.finish} else {};
    found, order, steps, discovered, rank, parents, depth := Drain(area, blocked, g, avoid);
    if !found {
      Exhausted(g, area.start, order, discovered, rank, parents, avoid);
    } else {
      forall p | IsWalk(g, area.start, p) && p[|p| - 1] == area.finish
        ensures depth[area.finish] <= |p|
      {
        ShortestWalk(g, area.start, order, steps, discovered, rank, parents, depth, p);
      }
    }
    IndexedCount(order, discovered, rank);
    SubsetCardinality(discovered, area.Cells);
  }

  /**
   * The search loop. The deque's contents are queue[head..]: `queue` lists every discovered
   * cell in discovery order, and `head` counts the cells taken off the front. The loop stops
   * when it takes a FINISH cell off the front, or when the horizon runs empty; no cell of
   * `avoid` carries anything but FINISH, so none is expanded.
   */
  method Drain(area: SearchArea, ghost blocked: set<Node>, ghost g: Graph, ghost avoid: set<Node>)
    returns (found: bool, queue: seq<Node>, head: nat, discovered: set<Node>, ghost rank: map<Node, nat>,
             ghost parents: map<Node, Node>, ghost depth: map<Node, nat>)
    requires area.Layout() && area.start != null && area.start in area.Cells
    requires blocked == area.CellsWith(Obstacle) && area.IsMoveGraph(blocked, g)
    requires forall c :: c in area.Cells && c.status == Finish ==> c == area.finish
    requires forall c :: c in avoid ==> c.status == Finish
    requires forall c :: c in area.Cells ==> c.parent == null
    modifies area.Cells`parent
    ensures Sound(g, area.start, queue, head, discovered, rank, parents) && ParentsAre(area.Cells, parents)
    ensures Layered(g, area.start, queue, head, discovered, parents, depth)
    ensures head <= |queue|
    ensures found ==> area.finish != null && area.finish in discovered && area.finish.status == Finish
    ensures found ==> head < |queue| && queue[head] == area.finish
    ensures !found ==> head == |queue| && Avoids(queue, head, avoid)
  {
    found := false;
    queue := [area.start];
    head := 0;
    discovered := {area.start};
    rank := map[area.start := 0];
    parents := map[];
    depth := map[area.start := 0];
    while head < |queue|
      invariant Draining(g, area.start, queue, head, discovered, rank, parents, depth, avoid)
      invariant blocked == area.CellsWith(Obstacle) && ParentsAre(area.Cells, parents)
      invariant forall c :: c in avoid ==> c.status == Finish
      decreases |g.Keys| - |queue|, |queue| - head
    {
      var currentNode := queue[head];
      if currentNode.IsFinish() {
        found := true;
        return;
      }
      queue, head, discovered, rank, parents, depth :=
        Advance(area, blocked, g, avoid, queue, head, discovered, rank, parents, depth);
    }
  }

  /**
   * The loop's bookkeeping: the first `head` cells of the queue are expanded and none of
   * them is in `avoid`, and the queue is no longer than the grid has cells.
   */
  ghost predicate Draining(g: Graph, root: Node, queue: seq<Node>, head: int, discovered: set<Node>,
                           rank: map<Node, nat>, parents: map<Node, Node>, depth: map<Node, nat>, avoid: set<Node>)
  {
    0 <= head <= |queue| <= |g.Keys| && Sound(g, root, queue, head, discovered, rank, parents) &&
    Layered(g, root, queue, head, discovered, parents, depth) && Avoids(queue, head, avoid)
  }

  /**
   * One turn of the search loop, for a front cell that is not FINISH: the cell is taken off
   * the front and expanded.
   */
  method Advance(area: SearchArea, ghost blocked: set<Node>, ghost g: Graph, ghost avoid: set<Node>,
                 queue0: seq<Node>, head0: nat, discovered0: set<Node>, ghost rank0: map<Node, nat>,
                 ghost parents0: map<Node, Node>, ghost depth0: map<Node, nat>)
    returns (queue: seq<Node>, head: nat, discovered: set<Node>, ghost rank: map<Node, nat>, ghost parents: map<Node, Node>,
             ghost depth: map<Node, nat>)
    requires area.Layout() && area.start != null && blocked == area.CellsWith(Obstacle) && area.IsMoveGraph(blocked, g)
    requires head0 < |queue0| && queue0[head0].status != Finish && forall c :: c in avoid ==> c.status == Finish
    requires Draining(g, area.start, queue0, head0, discovered0, rank0, parents0, depth0, avoid) && ParentsAre(area.Cells, parents0)
    modifies area.Cells`parent
    ensures Draining(g, area.start, queue, head, discovered, rank, parents, depth, avoid) && ParentsAre(area.Cells, parents)
    ensures blocked == area.CellsWith(Obstacle) && forall c :: c in avoid ==> c.status == Finish
    ensures |queue0| < |queue| || (queue == queue0 && head == head0 + 1)
  {
    var currentNode := queue0[head0];
    head := head0 + 1;
    queue, discovered, rank, parents, depth :=
      Expand(area, blocked, g, currentNode, queue0, discovered0, rank0, parents0, depth0, head0);
    AvoidsOne(queue0, discovered0, queue, discovered, head0, avoid);
    QueueBounded(g, area.start, queue, head, discovered, rank, parents);
  }

  /**
   * One expansion: the strict moves of currentNode, as the walkable neighbour map lists them,
   * are enqueued.
   */
  method Expand(area: SearchArea, ghost blocked: set<Node>, ghost g: Graph, currentNode: Node, queue0: seq<Node>,
                discovered0: set<Node>, ghost rank0: map<Node, nat>, ghost parents0: map<Node, Node>,
                ghost depth0: map<Node, nat>, ghost k: nat)
    returns (queue: seq<Node>, discovered: set<Node>, ghost rank: map<Node, nat>, ghost parents: map<Node, Node>,
             ghost depth: map<Node, nat>)
    requires area.Layout() && area.start != null && blocked == area.CellsWith(Obstacle) && area.IsMoveGraph(blocked, g)
    requires k < |queue0| && currentNode == queue0[k]
    requires Sound(g, area.start, queue0, k, discovered0, rank0, parents0) && ParentsAre(area.Cells, parents0)
    requires Layered(g, area.start, queue0, k, discovered0, parents0, depth0)
    modifies area.Cells`parent
    ensures Sound(g, area.start, queue, k + 1, discovered, rank, parents) && ParentsAre(area.Cells, parents)
    ensures Layered(g, area.start, queue, k + 1, discovered, parents, depth)
    ensures Extends(queue0, discovered0, queue, discovered)
    ensures blocked == area.CellsWith(Obstacle)
  {
    var walkable := area.GetWalkableNeighbors(currentNode, false);
    assert walkable == area.StrictMoves(blocked, currentNode);
    queue, discovered, rank, parents, depth :=
      Enqueue(area, g, currentNode, walkable, queue0, discovered0, rank0, parents0, depth0, k);
  }

  /**
   * Every cell of `walkable` not yet discovered gets currentNode as its parent and joins the
   * back of the horizon, in whatever order the map yields its directions.
   */
  method Enqueue(area: SearchArea, ghost g: Graph, currentNode: Node, walkable: map<Direction, Node>, queue0: seq<Node>,
                 discovered0: set<Node>, ghost rank0: map<Node, nat>, ghost parents0: map<Node, Node>,
                 ghost depth0: map<Node, nat>, ghost k: nat)
    returns (queue: seq<Node>, discovered: set<Node>, ghost rank: map<Node, nat>, ghost parents: map<Node, Node>,
             ghost depth: map<Node, nat>)
    requires area.start != null && g.Keys == area.Cells && currentNode in g
    requires walkable.Values == g[currentNode] && g[currentNode] <= g.Keys
    requires k < |queue0| && currentNode == queue0[k]
    requires Sound(g, area.start, queue0, k, discovered0, rank0, parents0) && ParentsAre(area.Cells, parents0)
    requires Layered(g, area.start, queue0, k, discovered0, parents0, depth0)
    modifies area.Cells`parent
    ensures Sound(g, area.start, queue, k + 1, discovered, rank, parents) && ParentsAre(area.Cells, parents)
    ensures Layered(g, area.start, queue, k + 1, discovered, parents, depth)
    ensures Extends(queue0, discovered0, queue, discovered)
  {
    queue, discovered, rank, parents, depth := queue0, discovered0, rank0, parents0, depth0;
    assert currentNode in discovered;
    var dirs := walkable.Keys;
    while dirs != {}
      invariant Offering(g, area.start, currentNode, walkable, dirs, k, queue0, discovered0, queue, discovered, rank, parents, depth)
      invariant ParentsAre(area.Cells, parents)
      decreases |dirs|
    {
      dirs, queue, discovered, rank, parents, depth :=
        OfferNext(area, g, currentNode, walkable, dirs, k, queue0, discovered0, queue, discovered, rank, parents, depth);
    }
    AllOffered(g, currentNode, walkable, discovered);
    assert queue[k] == currentNode;
    ExpandedOne(g, area.start, queue, k, discovered, rank, parents);
    LayerExpanded(g, area.start, queue, k, discovered, rank, parents, depth);
  }

  /**
   * Part way through the walkable map: `dirs` are the directions still to go, every cell
   * under the others is discovered, and the search is sound and has only grown.
   */
  ghost predicate Offering(g: Graph, root: Node, currentNode: Node, walkable: map<Direction, Node>, dirs: set<Direction>,
                           k: int, queue0: seq<Node>, discovered0: set<Node>, queue: seq<Node>, discovered: set<Node>,
                           rank: map<Node, nat>, parents: map<Node, Node>, depth: map<Node, nat>)
  {
    dirs <= walkable.Keys && currentNode in discovered &&
    (forall d :: d in walkable && d !in dirs ==> walkable[d] in discovered) &&
    Sound(g, root, queue, k, discovered, rank, parents) && Extends(queue0, discovered0, queue, discovered) &&
    0 <= k < |queue| && queue[k] == currentNode && Layered(g, root, queue, k, discovered, parents, depth)
  }

  /** One turn of the loop over the walkable map: some direction still to go is handled. */
  method OfferNext(area: SearchArea, ghost g: Graph, currentNode: Node, walkable: map<Direction, Node>, dirs0: set<Direction>,
                   ghost k: nat, ghost queue0: seq<Node>, ghost discovered0: set<Node>, queue1: seq<Node>, discovered1: set<Node>,
                   ghost rank1: map<Node, nat>, ghost parents1: map<Node, Node>, ghost depth1: map<Node, nat>)
    returns (dirs: set<Direction>, queue: seq<Node>, discovered: set<Node>, ghost rank: map<Node, nat>, ghost parents: map<Node, Node>,
             ghost depth: map<Node, nat>)
    requires area.start != null && g.Keys == area.Cells && currentNode in g
    requires walkable.Values == g[currentNode] && g[currentNode] <= g.Keys && dirs0 != {}
    requires Offering(g, area.start, currentNode, walkable, dirs0, k, queue0, discovered0, queue1, discovered1, rank1, parents1, depth1)
    requires ParentsAre(area.Cells, parents1)
    modifies area.Cells`parent
    ensures Offering(g, area.start, currentNode, walkable, dirs, k, queue0, discovered0, queue, discovered, rank, parents, depth)
    ensures ParentsAre(area.Cells, parents) && |dirs| < |dirs0|
  {
    var dir :| dir in dirs0;
    var neighbor := walkable[dir];
    assert neighbor in g[currentNode] && neighbor in area.Cells;
    queue, discovered, rank, parents, depth := Offer(area, g, currentNode, neighbor, queue1, discovered1, rank1, parents1, depth1, k);
    ExtendsTrans(queue0, discovered0, queue1, discovered1, queue, discovered);
    dirs := dirs0 - {dir};
  }

  /** Once every cell the walkable map lists is discovered, every move of currentNode is. */
  lemma AllOffered(g: Graph, currentNode: Node, walkable: map<Direction, Node>, discovered: set<Node>)
    requires currentNode in g && walkable.Values == g[currentNode]
    requires forall d :: d in walkable ==> walkable[d] in discovered
    ensures g[currentNode] <= discovered
  {
    forall n | n in g[currentNode]
      ensures n in discovered
    {
      var d :| d in walkable && walkable[d] == n;
    }
  }

  /**
   * A neighbour not yet discovered gets currentNode as its parent and joins the back of the
   * horizon; a discovered one is left alone.
   */
  method Offer(area: SearchArea, ghost g: Graph, currentNode: Node, neighbor: Node, queue0: seq<Node>,
               discovered0: set<Node>, ghost rank0: map<Node, nat>, ghost parents0: map<Node, Node>,
               ghost depth0: map<Node, nat>, ghost k: nat)
    returns (queue: seq<Node>, discovered: set<Node>, ghost rank: map<Node, nat>, ghost parents: map<Node, Node>,
             ghost depth: map<Node, nat>)
    requires area.start != null && currentNode in discovered0 && currentNode in g && neighbor in g[currentNode]
    requires neighbor in g && neighbor in area.Cells
    requires Sound(g, area.start, queue0, k, discovered0, rank0, parents0) && ParentsAre(area.Cells, parents0)
    requires Layered(g, area.start, queue0, k, discovered0, parents0, depth0) && k < |queue0| && queue0[k] == currentNode
    modifies neighbor`parent
    ensures Sound(g, area.start, queue, k, discovered, rank, parents) && ParentsAre(area.Cells, parents)
    ensures Layered(g, area.start, queue, k, discovered, parents, depth)
    ensures Extends(queue0, discovered0, queue, discovered) && discovered0 <= discovered && neighbor in discovered
  {
    if neighbor !in discovered0 {
      queue, discovered, rank, parents, depth :=
        Discover(area, g, currentNode, neighbor, queue0, discovered0, rank0, parents0, depth0, k);
    } else {
      queue, discovered, rank, parents, depth := queue0, discovered0, rank0, parents0, depth0;
    }
  }

  /** A neighbour not yet discovered gets currentNode as its parent and joins the back of the horizon. */
  method Discover(area: SearchArea, ghost g: Graph, currentNode: Node, neighbor: Node, queue0: seq<Node>,
                  discovered0: set<Node>, ghost rank0: map<Node, nat>, ghost parents0: map<Node, Node>,
                  ghost depth0: map<Node, nat>, ghost k: nat)
    returns (queue: seq<Node>, discovered: set<Node>, ghost rank: map<Node, nat>, ghost parents: map<Node, Node>,
             ghost depth: map<Node, nat>)
    requires area.start != null && currentNode in discovered0 && currentNode in g && neighbor in g[currentNode]
    requires neighbor in g && neighbor in area.Cells && neighbor !in discovered0
    requires Sound(g, area.start, queue0, k, discovered0, rank0, parents0) && ParentsAre(area.Cells, parents0)
    requires Layered(g, area.start, queue0, k, discovered0, parents0, depth0) && k < |queue0| && queue0[k] == currentNode
    modifies neighbor`parent
    ensures Sound(g, area.start, queue, k, discovered, rank, parents) && ParentsAre(area.Cells, parents)
    ensures Layered(g, area.start, queue, k, discovered, parents, depth)
    ensures Extends(queue0, discovered0, queue, discovered) && discovered0 <= discovered && neighbor in discovered
  {
    DiscoverStep(g, area.start, queue0, k, discovered0, rank0, parents0, depth0, currentNode, neighbor);
    neighbor.SetParent(currentNode);
    depth := depth0[neighbor := depth0[currentNode] + 1];
    parents := parents0[neighbor := currentNode];
    rank := rank0[neighbor := |queue0|];
    discovered := discovered0 + {neighbor};
    queue := queue0 + [neighbor];
  }

  /**
   * The breadth-first search: no search area gives no path; a missing start is dereferenced
   * when the horizon is seeded. Otherwise the answer means what `Answers` says, over the move
   * graph of the grid as it stood.
   */
  method Execute(area: SearchArea?)
    returns (r: Outcome<Option<seq<Node>>>, ghost g: Graph, ghost reached: set<Node>, ghost parents: map<Node, Node>)
    requires area != null ==> area.Valid() && forall c :: c in area.Cells ==> c.parent == null
    modifies if area != null then area.Cells else {}
    ensures area == null ==> r == Returns(None)
    ensures area != null ==> area.Valid() && MarksLeft(area.Cells, old(StatusesOf(area.Cells)), r)
    ensures area != null && area.start != null ==>
      (exists rank :: DiscoveryTree(g, area.start, parents, reached, rank)) && ParentsAre(area.Cells, parents)
    ensures area != null && area.start == null ==> r == Throws(NullPointer)
    ensures area != null && area.start != null ==>
      area.IsMoveGraph(old(area.CellsWith(Obstacle)), g) &&
      Answers(g, area.start, area.finish, old(area.start.status) == Start,
              area.finish != null && old(area.finish.status) == Finish, reached, r)
    ensures area != null && area.start != null && r.Returns? && r.value.Some? ==>
      NoWalkShorter(g, area.start, area.finish, |r.value.value|)
  {
    if area == null {
      return Returns(None), map[], {}, map[];
    }
    if area.start == null {
      return Throws(NullPointer), map[], {}, map[];
    }
    r, g, reached, parents := Search(area);
  }

  /** The search proper, from a start cell. */
  method Search(area: SearchArea)
    returns (r: Outcome<Option<seq<Node>>>, ghost g: Graph, ghost reached: set<Node>, ghost parents: map<Node, Node>)
    requires area.Valid() && area.start != null && forall c :: c in area.Cells ==> c.parent == null
    modifies area.Cells
    ensures area.Valid() && area.IsMoveGraph(old(area.CellsWith(Obstacle)), g)
    ensures (exists rank :: DiscoveryTree(g, area.start, parents, reached, rank)) && ParentsAre(area.Cells, parents)
    ensures MarksLeft(area.Cells, old(StatusesOf(area.Cells)), r)
    ensures Answers(g, area.start, area.finish, old(area.start.status) == Start,
                    area.finish != null && old(area.finish.status) == Finish, reached, r)
    ensures r.Returns? && r.value.Some? ==>
      NoWalkShorter(g, area.start, area.finish, |r.value.value|)
  {
    ghost var blocked := area.CellsWith(Obstacle);
    g := area.MoveGraph(blocked);
    var found: bool;
    ghost var rank: map<Node, nat>, order: seq<Node>, steps: nat, depth: map<Node, nat>;
    found, reached, rank, parents, order, steps, depth := Explore(area, blocked, g);
    r := Conclude(area, g, found, reached, rank, parents, depth);
  }

  /**
   * The path the links give from the root to the finish, or the empty path, is as short as
   * any walk to the finish, when no walk to the finish is shorter than its depth.
   */
  lemma NoShorterPath(g: Graph, root: Node, parents: map<Node, Node>, depth: map<Node, nat>, finish: Node,
                      path: seq<Node>)
    requires Depths(root, parents, depth) && finish in depth && NoWalkShorter(g, root, finish, depth[finish])
    requires path == [] || (FollowsLinks(parents, root, path) && path[|path| - 1] == finish)
    ensures NoWalkShorter(g, root, finish, |path|)
  {
    if path != [] {
      LinksDepth(root, parents, depth, path, |path| - 1);
    }
    FewerStill(g, root, finish, |path|, depth[finish]);
  }

  /** After the loop: the path builder runs when the finish was taken off the horizon. */
  method Conclude(area: SearchArea, ghost g: Graph, found: bool, ghost reached: set<Node>, ghost rank: map<Node, nat>,
                  ghost parents: map<Node, Node>, ghost depth: map<Node, nat>)
    returns (r: Outcome<Option<seq<Node>>>)
    requires area.Valid() && area.start != null && reached <= area.Cells
    requires DiscoveryTree(g, area.start, parents, reached, rank) && ParentsAre(area.Cells, parents)
    requires found ==> area.finish != null && area.finish in reached && area.finish.status == Finish
    requires !found ==> ClosedUnderMoves(g, reached)
    requires !found && area.finish != null && area.finish.status == Finish ==> area.finish !in reached
    requires Depths(area.start, parents, depth) && (found ==> area.finish in depth)
    requires found ==> NoWalkShorter(g, area.start, area.finish, depth[area.finish])
    modifies area.Cells
    ensures area.Valid() && ParentsAre(area.Cells, parents) && MarksLeft(area.Cells, old(StatusesOf(area.Cells)), r)
    ensures Answers(g, area.start, area.finish, old(area.start.status) == Start,
                    area.finish != null && old(area.finish.status) == Finish, reached, r)
    ensures r.Returns? && r.value.Some? ==>
      NoWalkShorter(g, area.start, area.finish, |r.value.value|)
  {
    if !found {
      return Returns(None);
    }
    ghost var start, finish := area.start, area.finish;
    r := TracePath(area, StatusesOf(area.Cells), g, reached, rank, parents);
    assert start == area.start && finish == area.finish;
    if r.Returns? && r.value.Some? {
      NoShorterPath(g, start, parents, depth, finish, r.value.value);
    }
    forall c | c in area.Cells
      ensures c.parent == old(c.parent)
    {
      assert c.State() == old(c.State()).(status := c.status);
    }
  }
}
