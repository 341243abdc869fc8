/**
 * What the breadth-first and depth-first searches have in common, stated over the move graph
 * rather than the grid: the parent links a search lays down form a tree over the cells it has
 * discovered, every link going from a cell to one of its moves, and ranked so that the links
 * lead back to the root. The path builder, walking such links from the finish, lists a walk
 * of moves from the root to the finish.
 */
module SearchTrees {
  import opened Wrappers
  import opened NodeStatuses
  import opened Nodes
  import opened Grid
  import opened Paths

  /** For each cell, the cells one move away. */
  type Graph = map<Node, set<Node>>

  /**
   * The parent links a search has laid down, as a map from child to parent: exactly the
   * discovered cells other than the root have a parent, that parent is a discovered cell of
   * lower rank, and the child is one of its moves.
   */
  ghost predicate DiscoveryTree(g: Graph, root: Node, parents: map<Node, Node>,
                                discovered: set<Node>, rank: map<Node, nat>)
  {
    root in discovered && discovered <= g.Keys && rank.Keys == discovered && parents.Keys == discovered - {root} &&
    forall c :: c in parents ==>
      parents[c] in discovered && rank[parents[c]] < rank[c] && c in g[parents[c]]
  }

  /** The parent fields of the cells hold exactly the links of `parents`. */
  ghost predicate ParentsAre(cells: set<Node>, parents: map<Node, Node>)
    reads cells`parent
  {
    forall c {:trigger c.parent} :: c in cells ==> c.parent == (if c in parents then parents[c] else null)
  }

  /** The cells carry the statuses S. */
  ghost predicate Carries(cells: set<Node>, S: map<Node, NodeStatus>)
    reads cells`status
  {
    cells <= S.Keys && forall c {:trigger c.status} :: c in cells ==> c.status == S[c]
  }

  /**
   * The root of a tree has no parent, or, as the A* start cell does, links to itself while it
   * carries START.
   */
  ghost predicate RootLinked(root: Node)
    reads root`parent, root`status
  {
    root.parent == null || (root.parent == root && root.status == Start)
  }

  /** The links of `parents` and the root's own link, in a snapshot of the cells. */
  ghost predicate LinksAre(states: map<Node, CellState>, root: Node, parents: map<Node, Node>) {
    (forall c :: c in states && c != root ==> states[c].parent == (if c in parents then parents[c] else null)) &&
    (root in states ==> states[root].parent == null || (states[root].parent == root && states[root].status == Start))
  }

  lemma SnapshotLinks(cells: set<Node>, root: Node, parents: map<Node, Node>)
    requires ParentsAre(cells - {root}, parents) && RootLinked(root)
    ensures LinksAre(Snapshot(cells), root, parents)
  {
    var states := Snapshot(cells);
    forall c | c in states && c != root
      ensures states[c].parent == (if c in parents then parents[c] else null)
    {
      assert states[c] == c.State();
    }
  }

  /**
   * p runs down the tree from the root: each cell is a child of the cell before it, the
   * first a child of the root.
   */
  ghost predicate FollowsLinks(parents: map<Node, Node>, root: Node, p: seq<Node>) {
    forall i :: 0 <= i < |p| ==> LinkedAt(parents, root, p, i)
  }

  /** Cell i of p is a child of the cell before it, or of the root when it is the first. */
  ghost predicate LinkedAt(parents: map<Node, Node>, root: Node, p: seq<Node>, i: int)
    requires 0 <= i < |p|
  {
    p[i] in parents && parents[p[i]] == if i == 0 then root else p[i - 1]
  }

  /** Every move out of a cell of the set leads back into the set. */
  ghost predicate ClosedUnderMoves(g: Graph, cells: set<Node>) {
    cells <= g.Keys && forall c :: c in cells ==> g[c] <= cells
  }

  /**
   * A walk of moves from `from`: its first cell is a move from `from`, and each later cell is
   * a move from the one before.
   */
  ghost predicate IsWalk(g: Graph, from: Node, older p: seq<Node>) {
    |p| > 0 && p[0] in MovesOf(g, from) && (forall i :: 0 <= i < |p| ==> p[i] in g) &&
    forall i :: 1 <= i < |p| ==> p[i] in MovesOf(g, p[i - 1])
  }

  /** Every walk of moves from `from` that ends at `to` has at least n cells. */
  ghost predicate NoWalkShorter(g: Graph, from: Node, to: Node?, n: int) {
    forall p :: IsWalk(g, from, p) && p[|p| - 1] == to ==> n <= |p|
  }

  /** A lower bound on the walks to a cell holds for every smaller number too. */
  lemma FewerStill(g: Graph, from: Node, to: Node?, m: int, n: int)
    requires NoWalkShorter(g, from, to, n) && m <= n
    ensures NoWalkShorter(g, from, to, m)
  {
  }

  /** The moves out of c; none for a cell outside the graph. */
  ghost function MovesOf(g: Graph, c: Node): set<Node> {
    if c in g then g[c] else {}
  }

  /** A walk that starts inside a set closed under moves never leaves it. */
  lemma {:induction false} ClosedSetContainsWalks(g: Graph, cells: set<Node>, from: Node, p: seq<Node>, k: nat)
    requires ClosedUnderMoves(g, cells) && from in cells && IsWalk(g, from, p) && k < |p|
    ensures p[k] in cells
  {
    if k > 0 {
      ClosedSetContainsWalks(g, cells, from, p, k - 1);
    }
  }

  /**
   * Discovering n from p: n becomes a child of p, with a rank above every rank given so far.
   * The tree survives the step.
   */
  lemma DiscoverOne(g: Graph, root: Node, parents: map<Node, Node>, discovered: set<Node>,
                    rank: map<Node, nat>, p: Node, n: Node, r: nat)
    requires DiscoveryTree(g, root, parents, discovered, rank)
    requires p in discovered && n in g[p] && n in g && n !in discovered && rank[p] < r
    ensures DiscoveryTree(g, root, parents[n := p], discovered + {n}, rank[n := r])
  {
  }

  /**
   * The discovery ranks, extended by 0 to the cells never discovered (which have no parent,
   * so their rank is never consulted).
   */
  ghost function RankAll(cells: set<Node>, rank: map<Node, nat>): (all: map<Node, nat>)
    ensures all.Keys == cells
    ensures forall c :: c in cells && c in rank ==> all[c] == rank[c]
  {
    map c | c in cells :: if c in rank then rank[c] else 0
  }

  /** A discovery tree orders the parent links as the path builder requires. */
  lemma TreeRanked(g: Graph, states: map<Node, CellState>, root: Node, parents: map<Node, Node>,
                   discovered: set<Node>, rank: map<Node, nat>)
    requires DiscoveryTree(g, root, parents, discovered, rank) && LinksAre(states, root, parents)
    requires discovered <= states.Keys
    ensures ParentsRanked(states, RankAll(states.Keys, rank))
  {
    var all := RankAll(states.Keys, rank);
    forall c | c in states && states[c].parent != null && states[c].status != Start
      ensures states[c].parent in states && all[states[c].parent] < all[c]
    {
      assert c in parents;
    }
  }

  /**
   * In a tree whose links the snapshot holds, the root has no parent and every other
   * discovered cell has a discovered parent.
   */
  lemma TreeLinks(g: Graph, states: map<Node, CellState>, root: Node, parents: map<Node, Node>,
                  discovered: set<Node>, rank: map<Node, nat>)
    requires DiscoveryTree(g, root, parents, discovered, rank) && LinksAre(states, root, parents)
    requires discovered <= states.Keys
    ensures forall e :: e in discovered && e != root ==> states[e].parent != null && states[e].parent in discovered
  {
  }

  /** In a snapshot of a valid area, only the start cell carries START. */
  lemma StartIsUnique(area: SearchArea, states: map<Node, CellState>)
    requires area.Valid() && states == Snapshot(area.Cells)
    ensures forall e :: e in states && states[e].status == Start ==> e == area.start
  {
    forall e | e in states && states[e].status == Start
      ensures e == area.start
    {
      assert states[e] == e.State();
    }
  }

  /**
   * Following the parent links from any cell of a tree rooted at `root` ends at a START cell
   * exactly when the root carries START, provided no other cell does.
   */
  lemma {:induction false} RootedReach(states: map<Node, CellState>, rank: map<Node, nat>, tree: set<Node>, root: Node, c: Node)
    requires ParentsRanked(states, rank) && tree <= states.Keys && root in tree && c in tree
    requires states[root].parent == null || states[root].status == Start
    requires forall e :: e in states && states[e].status == Start ==> e == root
    requires forall e :: e in tree && e != root ==> states[e].parent != null && states[e].parent in tree
    ensures ReachesStart(states, rank, c) <==> states[root].status == Start
    decreases rank[c]
  {
    if c != root {
      assert states[c].status != Start;
      RootedReach(states, rank, tree, root, states[c].parent);
    }
  }

  /**
   * Along a discovery tree, the path the builder lists from a finish that reaches START is a
   * walk of moves from the root that ends at the finish, running down the tree's links.
   */
  lemma AlongTree(g: Graph, states: map<Node, CellState>, root: Node, parents: map<Node, Node>,
                  discovered: set<Node>, rank: map<Node, nat>, ranks: map<Node, nat>, finish: Node)
    requires DiscoveryTree(g, root, parents, discovered, rank) && LinksAre(states, root, parents)
    requires root in states && states[root].status == Start
    requires forall e :: e in states && states[e].status == Start ==> e == root
    requires finish in states && states[finish].status != Start
    requires ParentsRanked(states, ranks) && ReachesStart(states, ranks, finish)
    ensures var path := Reverse(Chain(states, ranks, finish));
      IsWalk(g, root, path) && path[|path| - 1] == finish && FollowsLinks(parents, root, path)
  {
    var path := Reverse(Chain(states, ranks, finish));
    PathShape(states, ranks, finish);
    assert Chain(states, ranks, finish) != [];
    assert path != [];
    forall i | 0 <= i < |path|
      ensures path[i] in parents && parents[path[i]] == if i == 0 then root else path[i - 1]
    {
      assert path[i] in states && states[path[i]].status != Start;
      assert states[path[i]].parent == if i == 0 then states[path[0]].parent else path[i - 1];
      assert path[i] != root && states[path[i]].parent != null;
    }
    forall i | 1 <= i < |path|
      ensures path[i] in MovesOf(g, path[i - 1])
    {
      assert parents[path[i]] == path[i - 1];
    }
  }

  /**
   * What the path builder finds along a discovery tree from a discovered finish: the links
   * are ranked, the finish lacks a parent only when it is the root, the walk reaches START
   * exactly when the root carries START, and then it lists a walk of moves from the root to
   * the finish.
   */
  lemma TreeAnswer(g: Graph, states: map<Node, CellState>, root: Node, parents: map<Node, Node>,
                   discovered: set<Node>, rank: map<Node, nat>, finish: Node)
    requires DiscoveryTree(g, root, parents, discovered, rank) && LinksAre(states, root, parents)
    requires discovered <= states.Keys && finish in discovered && states[finish].status != Start
    requires forall e :: e in states && states[e].status == Start ==> e == root
    ensures var ranks := RankAll(states.Keys, rank);
      ParentsRanked(states, ranks) &&
      (states[finish].parent == null <==> finish == root) &&
      (ReachesStart(states, ranks, finish) <==> states[root].status == Start) &&
      (ReachesStart(states, ranks, finish) ==>
         var path := Reverse(Chain(states, ranks, finish));
         IsWalk(g, root, path) && path[|path| - 1] == finish && FollowsLinks(parents, root, path))
  {
    var ranks := RankAll(states.Keys, rank);
    TreeRanked(g, states, root, parents, discovered, rank);
    TreeLinks(g, states, root, parents, discovered, rank);
    RootedReach(states, ranks, discovered, root, finish);
    if ReachesStart(states, ranks, finish) {
      AlongTree(g, states, root, parents, discovered, rank, ranks, finish);
    }
  }

  /**
   * The answer of the path builder along a discovery tree from a discovered finish: no path
   * only when the finish is the root, an exception only when the root does not carry START,
   * and otherwise a walk of moves from the root that ends at the finish.
   */
  lemma TreeOutcome(g: Graph, states: map<Node, CellState>, root: Node, parents: map<Node, Node>,
                    discovered: set<Node>, rank: map<Node, nat>, finish: Node, r: Outcome<Option<seq<Node>>>)
    requires DiscoveryTree(g, root, parents, discovered, rank) && LinksAre(states, root, parents)
    requires discovered <= states.Keys && finish in discovered && states[finish].status != Start
    requires forall e :: e in states && states[e].status == Start ==> e == root
    requires var ranks := RankAll(states.Keys, rank);
      (r == Returns(None) <==> states[finish].parent == null) &&
      (r.Throws? <==> states[finish].parent != null && !ReachesStart(states, ranks, finish)) &&
      (r.Throws? ==> r.error == NullPointer) &&
      (r.Returns? && r.value.Some? ==> r.value.value == Reverse(Chain(states, ranks, finish)))
    ensures r == Returns(None) ==> finish == root
    ensures r.Throws? ==> r.error == NullPointer && states[root].status != Start
    ensures r.Returns? && r.value.Some? ==>
      IsWalk(g, root, r.value.value) && r.value.value[|r.value.value| - 1] == finish &&
      FollowsLinks(parents, root, r.value.value)
  {
    TreeAnswer(g, states, root, parents, discovered, rank, finish);
  }

  /**
   * What a search's answer means, g being the move graph it searched and `reached` the cells
   * it discovered; `startMarked` and `finishMarked` say whether the start carried START and
   * the finish carried FINISH when the search began. No path means the start is the finish
   * cell, or the reached cells hold the start, are closed under moves and do not hold a
   * marked finish; an exception means the parent chain did not end on a START cell, which
   * happens only when the start was not marked; a path is a walk of moves from the start
   * that ends at the finish.
   */
  ghost predicate Answers(g: Graph, start: Node, finish: Node?, startMarked: bool, finishMarked: bool,
                          reached: set<Node>, r: Outcome<Option<seq<Node>>>)
  {
    (r == Returns(None) ==>
       start == finish ||
       (start in reached && ClosedUnderMoves(g, reached) && (finishMarked ==> finish !in reached))) &&
    (r.Throws? ==> r.error == NullPointer && !startMarked) &&
    (r.Returns? && r.value.Some? ==>
       IsWalk(g, start, r.value.value) && r.value.value[|r.value.value| - 1] == finish)
  }

  /** When the search finds no path, no walk of moves from the start reaches a marked finish. */
  lemma NoWalkToFinish(g: Graph, start: Node, finish: Node, reached: set<Node>, p: seq<Node>)
    requires Answers(g, start, finish, true, true, reached, Returns(None)) && start != finish
    requires IsWalk(g, start, p)
    ensures p[|p| - 1] != finish
  {
    ClosedSetContainsWalks(g, reached, start, p, |p| - 1);
  }

  /** The facts about a snapshot of the cells that the path builder and Traced need. */
  lemma Ready(area: SearchArea, g: Graph, reached: set<Node>, rank: map<Node, nat>,
              parents: map<Node, Node>, states: map<Node, CellState>)
    requires area.Valid() && area.start != null && area.finish != null && reached <= area.Cells
    requires DiscoveryTree(g, area.start, parents, reached, rank)
    requires ParentsAre(area.Cells - {area.start}, parents) && RootLinked(area.start)
    requires states == Snapshot(area.Cells)
    ensures LinksAre(states, area.start, parents) && reached <= states.Keys && area.finish in states
    ensures states[area.start] == area.start.State()
    ensures forall e :: e in states && states[e].status == Start ==> e == area.start
    ensures forall e :: e in reached && e != area.start ==> states[e].parent != null && states[e].parent in reached
    ensures ParentsRanked(states, RankAll(states.Keys, rank))
  {
    SnapshotLinks(area.Cells, area.start, parents);
    StartIsUnique(area, states);
    TreeRanked(g, states, area.start, parents, reached, rank);
    TreeLinks(g, states, area.start, parents, reached, rank);
  }

  /**
   * What the path builder's answer on a snapshot of the cells means along a discovery tree
   * laid down from the root.
   */
  lemma Traced(g: Graph, states: map<Node, CellState>, root: Node, finish: Node, parents: map<Node, Node>,
               reached: set<Node>, rank: map<Node, nat>, r: Outcome<Option<seq<Node>>>)
    requires DiscoveryTree(g, root, parents, reached, rank) && LinksAre(states, root, parents)
    requires reached <= states.Keys && finish in states
    requires forall e :: e in states && states[e].status == Start ==> e == root
    requires forall e :: e in reached && e != root ==> states[e].parent != null && states[e].parent in reached
    requires var ranks := RankAll(states.Keys, rank);
      ParentsRanked(states, ranks) &&
      (r == Returns(None) <==> states[finish].parent == null) &&
      (r.Throws? <==> states[finish].parent != null && !ReachesStart(states, ranks, finish)) &&
      (r.Throws? ==> r.error == NullPointer) &&
      (r.Returns? && r.value.Some? ==> r.value.value == Reverse(Chain(states, ranks, finish)))
    ensures r == Returns(None) <==> (finish == root && states[root].parent == null) || finish !in reached
    ensures r.Throws? ==> r.error == NullPointer && states[root].status != Start
    ensures r.Returns? && r.value.Some? ==>
      if finish == root then r.value.value == []
      else IsWalk(g, root, r.value.value) && r.value.value[|r.value.value| - 1] == finish &&
           FollowsLinks(parents, root, r.value.value)
  {
    var ranks := RankAll(states.Keys, rank);
    if finish == root {
      if states[root].parent != null {
        assert Chain(states, ranks, root) == [];
      }
    } else if finish !in reached {
      assert states[finish].parent == null;
    } else {
      assert states[finish].status != Start;
      TreeOutcome(g, states, root, parents, reached, rank, finish, r);
    }
  }

  /**
   * The path builder's walk, once a search has laid down a discovery tree: the finish gives
   * no path exactly when it was never discovered, or is the root and has no parent; a root
   * that is the finish and links to itself gives the empty path; an exception means the root
   * did not carry START; any other path is a walk of moves from the root to the finish down
   * the tree's links. Only statuses change.
   */
  method TracePath(area: SearchArea, ghost S: map<Node, NodeStatus>, ghost g: Graph, ghost reached: set<Node>,
                   ghost rank: map<Node, nat>, ghost parents: map<Node, Node>) returns (r: Outcome<Option<seq<Node>>>)
    requires area.Valid() && area.start != null && area.finish != null && reached <= area.Cells && Carries(area.Cells, S)
    requires DiscoveryTree(g, area.start, parents, reached, rank)
    requires ParentsAre(area.Cells - {area.start}, parents) && RootLinked(area.start)
    modifies area.Cells
    ensures area.Valid()
    ensures r == Returns(None) <==>
      (area.finish == area.start && old(area.start.parent) == null) || area.finish !in reached
    ensures r.Throws? ==> r.error == NullPointer && old(area.start.status) != Start
    ensures r.Returns? && r.value.Some? ==>
      if area.finish == area.start then r.value.value == []
      else IsWalk(g, area.start, r.value.value) && r.value.value[|r.value.value| - 1] == area.finish &&
           FollowsLinks(parents, area.start, r.value.value)
    ensures forall c :: c in area.Cells ==> c.State() == old(c.State()).(status := c.status)
    ensures MarksLeft(area.Cells, S, r)
  {
    ghost var states := Snapshot(area.Cells);
    Ready(area, g, reached, rank, parents, states);
    r := Trace(area, g, states, reached, rank, parents);
    MarksLeftAgree(area.Cells, Statuses(states), S, r);
    forall c | c in area.Cells
      ensures c.State() == old(c.State()).(status := c.status)
    {
      assert states[c] == old(c.State());
    }
  }

  /** TracePath on a snapshot of the cells whose discovery-tree facts are already known. */
  method Trace(area: SearchArea, ghost g: Graph, ghost states: map<Node, CellState>, ghost reached: set<Node>,
               ghost rank: map<Node, nat>, ghost parents: map<Node, Node>) returns (r: Outcome<Option<seq<Node>>>)
    requires area.Valid() && area.start != null && area.finish != null && states == Snapshot(area.Cells)
    requires DiscoveryTree(g, area.start, parents, reached, rank) && LinksAre(states, area.start, parents)
    requires reached <= states.Keys
    requires forall e :: e in states && states[e].status == Start ==> e == area.start
    requires forall e :: e in reached && e != area.start ==> states[e].parent != null && states[e].parent in reached
    requires ParentsRanked(states, RankAll(states.Keys, rank))
    modifies area.Cells
    ensures area.Valid()
    ensures r == Returns(None) <==>
      (area.finish == area.start && states[area.start].parent == null) || area.finish !in reached
    ensures r.Throws? ==> r.error == NullPointer && states[area.start].status != Start
    ensures r.Returns? && r.value.Some? ==>
      if area.finish == area.start then r.value.value == []
      else IsWalk(g, area.start, r.value.value) && r.value.value[|r.value.value| - 1] == area.finish &&
           FollowsLinks(parents, area.start, r.value.value)
    ensures forall c :: c in area.Cells ==> c.State() == states[c].(status := c.status)
    ensures MarksLeft(area.Cells, Statuses(states), r)
  {
    r := BuildSolutionPath(area, RankAll(states.Keys, rank));
    Traced(g, states, area.start, area.finish, parents, reached, rank, r);
  }
}
