/**
 * The solution path: the walk from the finish back along parent links to a START cell, which
 * lists the cells it passes (the START cell excluded) and marks each parent on the way with
 * the waypoint arrow pointing to its child.
 *
 * The walk is specified on a snapshot of the cells' states taken before it starts, so the
 * parent chain is a pure value.
 */
module Paths {
  import opened Wrappers
  import opened Directions
  import opened NodeStatuses
  import opened Nodes
  import opened Grid

  /** The states of the given cells, as one value. */
  ghost function Snapshot(cells: set<Node>): (m: map<Node, CellState>)
    reads cells
    ensures m.Keys == cells
  {
    map c | c in cells :: c.State()
  }

  /**
   * Every parent link out of a cell that is not START leads to a cell of the snapshot with a
   * lower rank, so every walk along parent links ends.
   */
  ghost predicate ParentsRanked(states: map<Node, CellState>, rank: map<Node, nat>) {
    states.Keys <= rank.Keys &&
    forall c {:trigger states[c]} :: c in states && states[c].parent != null && states[c].status != Start ==>
      states[c].parent in states && rank[states[c].parent] < rank[c]
  }

  /**
   * The cells the walk from c lists, from c on: c and its ancestors, stopping before the
   * first START cell, or after the first cell that has no parent.
   */
  ghost function Chain(states: map<Node, CellState>, rank: map<Node, nat>, c: Node): (ch: seq<Node>)
    requires ParentsRanked(states, rank) && c in states
    ensures forall i :: 0 <= i < |ch| ==> ch[i] in states
    decreases rank[c]
  {
    if states[c].status == Start then []
    else if states[c].parent == null then [c]
    else [c] + Chain(states, rank, states[c].parent)
  }

  /** The walk from c ends at a START cell (rather than at a cell without parent). */
  ghost predicate ReachesStart(states: map<Node, CellState>, rank: map<Node, nat>, c: Node)
    requires ParentsRanked(states, rank) && c in states
    decreases rank[c]
  {
    states[c].status == Start ||
    (states[c].parent != null && ReachesStart(states, rank, states[c].parent))
  }

  /**
   * A chain holds no START cell and each of its cells is the parent of the one before it;
   * it is empty exactly for a START cell, and its last cell has a parent exactly when the
   * walk reaches START, that parent being a START cell.
   */
  lemma {:induction false} ChainLinks(states: map<Node, CellState>, rank: map<Node, nat>, c: Node, ch: seq<Node>)
    requires ParentsRanked(states, rank) && c in states && ch == Chain(states, rank, c)
    ensures states[c].status == Start <==> ch == []
    ensures ch != [] ==> ch[0] == c
    ensures forall i :: 0 <= i < |ch| ==> states[ch[i]].status != Start
    ensures forall i, j :: 0 <= i && j == i + 1 && j < |ch| ==> states[ch[i]].parent == ch[j]
    ensures ch != [] ==>
      var last := states[ch[|ch| - 1]];
      (ReachesStart(states, rank, c) <==> last.parent != null) &&
      (last.parent != null ==> last.parent in states && states[last.parent].status == Start)
    decreases rank[c]
  {
    if states[c].status != Start && states[c].parent != null {
      var p := states[c].parent;
      var tail := Chain(states, rank, p);
      ChainLinks(states, rank, p, tail);
      assert ch == [c] + tail;
      assert forall i :: 1 <= i < |ch| ==> ch[i] == tail[i - 1];
      if tail != [] {
        assert ch[|ch| - 1] == tail[|tail| - 1];
        forall i, j | 0 <= i && j == i + 1 && j < |ch|
          ensures states[ch[i]].parent == ch[j]
        {
          if i > 0 {
            assert ch[i] == tail[i - 1] && ch[j] == tail[j - 1];
          }
        }
      }
    }
  }

  /** Along the chain from c the rank strictly falls. */
  lemma {:induction false} ChainRanks(states: map<Node, CellState>, rank: map<Node, nat>, c: Node, ch: seq<Node>)
    requires ParentsRanked(states, rank) && c in states && ch == Chain(states, rank, c)
    ensures ch != [] ==> ch[0] == c
    ensures forall i, j :: 0 <= i < j < |ch| ==> rank[ch[j]] < rank[ch[i]]
    decreases rank[c]
  {
    if states[c].status != Start && states[c].parent != null {
      var p := states[c].parent;
      var tail := Chain(states, rank, p);
      ChainRanks(states, rank, p, tail);
      assert ch == [c] + tail;
      forall i, j | 0 <= i < j < |ch|
        ensures rank[ch[j]] < rank[ch[i]]
      {
        if i > 0 {
          assert ch[i] == tail[i - 1] && ch[j] == tail[j - 1];
        } else if j > 1 {
          assert ch[j] == tail[j - 1] && tail[0] == p;
        }
      }
    }
  }

  /** The walk never meets a cell twice: the cells of a chain are distinct. */
  lemma ChainDistinct(states: map<Node, CellState>, rank: map<Node, nat>, c: Node, ch: seq<Node>)
    requires ParentsRanked(states, rank) && c in states && ch == Chain(states, rank, c)
    ensures forall i, j :: 0 <= i < j < |ch| ==> ch[i] != ch[j]
  {
    ChainRanks(states, rank, c, ch);
  }

  /**
   * The status a parent gets on the path: the waypoint pointing at its child when the two
   * are adjacent, its status s otherwise.
   */
  function Stamped(child: Node, parent: Node, s: NodeStatus): NodeStatus {
    match FromOffset(child.X() - parent.X(), child.Y() - parent.Y())
    case None => s
    case Some(d) => DirectedWaypoint(d)
  }

  /** r is s, or a directed waypoint. */
  predicate StampedFrom(r: NodeStatus, s: NodeStatus) {
    r == s || (IsWaypoint(r) && r !in {Start, Finish, Obstacle, Empty, Waypoint})
  }

  /**
   * One step of the walk on the statuses m: the parent, unless it is START, gets the stamp
   * for its child.
   */
  function Restamp(m: map<Node, NodeStatus>, child: Node, parent: Node): (r: map<Node, NodeStatus>)
    ensures r.Keys == m.Keys
  {
    if parent in m && m[parent] != Start then m[parent := Stamped(child, parent, m[parent])] else m
  }

  /** The statuses of the snapshot. */
  ghost function Statuses(before: map<Node, CellState>): (m: map<Node, NodeStatus>)
    ensures m.Keys == before.Keys
  {
    map c | c in before :: before[c].status
  }

  /**
   * The statuses after the walk along the first n cells of chain, starting from the
   * snapshot's: walking from each cell to the next, the next one is restamped.
   */
  ghost function Stamps(before: map<Node, CellState>, chain: seq<Node>, n: nat): (m: map<Node, NodeStatus>)
    requires n <= |chain|
    ensures m.Keys == before.Keys
  {
    if n < 2 then Statuses(before)
    else Restamp(Stamps(before, chain, n - 1), chain[n - 2], chain[n - 1])
  }

  /** Walking one cell further restamps that cell for its predecessor. */
  lemma StampsStep(before: map<Node, CellState>, chain: seq<Node>, n: nat)
    requires 1 <= n < |chain|
    ensures Stamps(before, chain, n + 1) == Restamp(Stamps(before, chain, n), chain[n - 1], chain[n])
  {
  }

  /** The walk leaves a cell's status or makes it a directed waypoint. */
  lemma {:induction false} StampsKind(before: map<Node, CellState>, chain: seq<Node>, n: nat, c: Node)
    requires n <= |chain| && c in before
    ensures StampedFrom(Stamps(before, chain, n)[c], before[c].status)
  {
    if n >= 2 {
      StampsKind(before, chain, n - 1, c);
      var m := Stamps(before, chain, n - 1);
      var child := chain[n - 2];
      if chain[n - 1] == c && m[c] != Start {
        match FromOffset(child.X() - c.X(), child.Y() - c.Y())
        case None =>
        case Some(d) => DirectedWaypointIsDirected(d);
      }
    }
  }

  /** A cell the walk never reaches after its first step keeps its status. */
  lemma {:induction false} StampsUntouched(before: map<Node, CellState>, chain: seq<Node>, n: nat, c: Node)
    requires n <= |chain| && c in before
    requires forall i :: 1 <= i < n ==> chain[i] != c
    ensures Stamps(before, chain, n)[c] == before[c].status
  {
    if n >= 2 {
      StampsUntouched(before, chain, n - 1, c);
    }
  }

  /**
   * On a walk along distinct non-START cells every cell after the first gets the stamp
   * pointing at its predecessor, applied to its status before the walk.
   */
  lemma {:induction false} StampsAlongChain(before: map<Node, CellState>, chain: seq<Node>, n: nat, k: int)
    requires n <= |chain|
    requires forall i :: 0 <= i < |chain| ==> chain[i] in before && before[chain[i]].status != Start
    requires forall i, j :: 0 <= i < j < |chain| ==> chain[i] != chain[j]
    requires 1 <= k < n
    ensures Stamps(before, chain, n)[chain[k]] == Stamped(chain[k - 1], chain[k], before[chain[k]].status)
  {
    if k < n - 1 {
      StampsAlongChain(before, chain, n - 1, k);
    } else {
      StampsUntouched(before, chain, n - 1, chain[k]);
    }
  }

  /** The first n elements of s, back to front. */
  function ReversedPrefix<T>(s: seq<T>, n: nat): (r: seq<T>)
    requires n <= |s|
    ensures |r| == n
  {
    if n == 0 then [] else [s[n - 1]] + ReversedPrefix(s, n - 1)
  }

  /** The sequence read back to front. */
  function Reverse<T>(s: seq<T>): (r: seq<T>)
    ensures |r| == |s|
  {
    ReversedPrefix(s, |s|)
  }

  /** Element i of the reversal is element |s| - 1 - i of the original. */
  lemma {:induction false} ReversedPrefixIndex<T>(s: seq<T>, n: nat, i: int)
    requires n <= |s| && 0 <= i < n
    ensures ReversedPrefix(s, n)[i] == s[n - 1 - i]
  {
    if i > 0 {
      ReversedPrefixIndex(s, n - 1, i - 1);
    }
  }

  /**
   * The path the walk returns runs from the cell after the START cell to the finish: it
   * holds no START cell, ends with the finish, each cell's parent is the cell before it,
   * and the first cell's parent is a START cell.
   */
  lemma PathShape(states: map<Node, CellState>, rank: map<Node, nat>, finish: Node)
    requires ParentsRanked(states, rank) && finish in states && ReachesStart(states, rank, finish)
    ensures var path := Reverse(Chain(states, rank, finish));
      (forall i :: 0 <= i < |path| ==> path[i] in states && states[path[i]].status != Start) &&
      (forall i :: 1 <= i < |path| ==> states[path[i]].parent == path[i - 1]) &&
      (path != [] ==>
         path[|path| - 1] == finish &&
         states[path[0]].parent != null && states[path[0]].parent in states &&
         states[states[path[0]].parent].status == Start)
  {
    var ch := Chain(states, rank, finish);
    var path := Reverse(ch);
    ChainLinks(states, rank, finish, ch);
    forall i | 0 <= i < |path|
      ensures path[i] == ch[|ch| - 1 - i]
    {
      ReversedPrefixIndex(ch, |ch|, i);
    }
    forall i | 1 <= i < |path|
      ensures states[path[i]].parent == path[i - 1]
    {
      assert path[i] == ch[|ch| - 1 - i] && path[i - 1] == ch[|ch| - 1 - i + 1];
    }
  }

  /** Each of the cells has its state from the snapshot, except for the status, which is stamps'. */
  ghost predicate StatusesAre(cells: set<Node>, before: map<Node, CellState>, stamps: map<Node, NodeStatus>)
    reads cells
  {
    cells <= before.Keys && cells <= stamps.Keys &&
    forall c :: c in cells ==> c.State() == before[c].(status := stamps[c])
  }

  /** The statuses of the given cells, as one value. */
  ghost function StatusesOf(cells: set<Node>): (m: map<Node, NodeStatus>)
    reads cells`status
    ensures m.Keys == cells && forall c :: c in cells ==> m[c] == c.status
  {
    map c | c in cells :: c.status
  }

  /** A path without its last cell: the cells the walk restamps for their successors. */
  function Upstream(p: seq<Node>): (u: seq<Node>)
    ensures |u| == if p == [] then 0 else |p| - 1
    ensures forall i :: 0 <= i < |u| ==> u[i] == p[i]
  {
    if p == [] then [] else p[..|p| - 1]
  }

  /**
   * The statuses a returned path p leaves on the cells that had the statuses S: each cell of
   * the path but the last carries the stamp pointing at the next one (the waypoint arrow
   * towards it, when the two are adjacent), applied to its status in S; every other cell
   * keeps its status.
   */
  ghost predicate Waymarked(cells: set<Node>, S: map<Node, NodeStatus>, p: seq<Node>)
    reads cells`status
  {
    cells <= S.Keys &&
    (forall i :: 0 <= i < |p| ==> p[i] in cells) &&
    (forall i :: 0 <= i < |p| - 1 ==> p[i].status == Stamped(p[i + 1], p[i], S[p[i]])) &&
    forall c :: c in cells && c !in Upstream(p) ==> c.status == S[c]
  }

  /**
   * The statuses the path builder leaves, S being those before it ran and r its answer: each
   * cell keeps its status or becomes a directed waypoint; "no path" changes no status; a
   * returned path is waymarked.
   */
  ghost predicate MarksLeft(cells: set<Node>, S: map<Node, NodeStatus>, r: Outcome<Option<seq<Node>>>)
    reads cells`status
  {
    cells <= S.Keys &&
    (forall c :: c in cells ==> StampedFrom(c.status, S[c])) &&
    (r == Returns(None) ==> forall c :: c in cells ==> c.status == S[c]) &&
    (r.Returns? && r.value.Some? ==> Waymarked(cells, S, r.value.value))
  }

  /** MarksLeft depends only on the statuses S gives the cells. */
  lemma MarksLeftAgree(cells: set<Node>, S: map<Node, NodeStatus>, T: map<Node, NodeStatus>, r: Outcome<Option<seq<Node>>>)
    requires MarksLeft(cells, S, r) && cells <= T.Keys
    requires forall c :: c in cells ==> S[c] == T[c]
    ensures MarksLeft(cells, T, r)
  {
    if r.Returns? && r.value.Some? {
      var p := r.value.value;
      forall i | 0 <= i < |p| - 1
        ensures p[i].status == Stamped(p[i + 1], p[i], T[p[i]])
      {
        assert p[i] in cells;
      }
    }
  }

  /**
   * The statuses after the walk from the finish along the snapshot's parent chain mean what
   * MarksLeft says, for the path builder's answer r.
   */
  lemma {:induction false} WalkMarks(cells: set<Node>, before: map<Node, CellState>, rank: map<Node, nat>, finish: Node,
                                     r: Outcome<Option<seq<Node>>>)
    requires ParentsRanked(before, rank) && finish in before && cells == before.Keys
    requires var chain := Chain(before, rank, finish); StatusesAre(cells, before, Stamps(before, chain, |chain|))
    requires r == Returns(None) <==> before[finish].parent == null
    requires r.Returns? && r.value.Some? ==> r.value.value == Reverse(Chain(before, rank, finish))
    ensures MarksLeft(cells, Statuses(before), r)
  {
    var chain := Chain(before, rank, finish);
    var S := Statuses(before);
    ChainLinks(before, rank, finish, chain);
    ChainDistinct(before, rank, finish, chain);
    forall c | c in cells
      ensures StampedFrom(c.status, S[c])
    {
      StampsKind(before, chain, |chain|, c);
    }
    if r == Returns(None) {
      assert |chain| <= 1;
    }
    if r.Returns? && r.value.Some? {
      var p := r.value.value;
      forall i | 0 <= i < |p|
        ensures p[i] == chain[|chain| - 1 - i]
      {
        ReversedPrefixIndex(chain, |chain|, i);
      }
      forall i | 0 <= i < |p| - 1
        ensures p[i].status == Stamped(p[i + 1], p[i], S[p[i]])
      {
        StampsAlongChain(before, chain, |chain|, |chain| - 1 - i);
      }
      forall c | c in cells && c !in Upstream(p)
        ensures c.status == S[c]
      {
        forall j | 1 <= j < |chain|
          ensures chain[j] != c
        {
          assert Upstream(p)[|chain| - 1 - j] == chain[j];
        }
        StampsUntouched(before, chain, |chain|, c);
      }
    }
  }

  /**
   * The body of the walk for one cell and its parent: the parent, unless it is START, is
   * stamped with the waypoint pointing at the child when the two are adjacent.
   */
  method PointParentAt(ghost cells: set<Node>, ghost before: map<Node, CellState>, ghost stamps: map<Node, NodeStatus>,
                       currentNode: Node, parentNode: Node)
    requires parentNode in cells && StatusesAre(cells, before, stamps)
    modifies parentNode
    ensures StatusesAre(cells, before, Restamp(stamps, currentNode, parentNode))
  {
    var parentXOffset := parentNode.X() - currentNode.X();
    var parentYOffset := parentNode.Y() - currentNode.Y();
    var dirToCurrent := FromOffset(-parentXOffset, -parentYOffset);
    if dirToCurrent.Some? && !parentNode.IsStart() {
      parentNode.SetStatus(DirectedWaypoint(dirToCurrent.value));
    }
  }

  /**
   * The loop of the path builder, from a finish that has a parent: it returns the walked
   * cells, start side first, or a NullPointerException when it meets a non-START cell
   * without a parent, and restamps the parents it passes.
   */
  method WalkBack(ghost cells: set<Node>, ghost before: map<Node, CellState>, ghost rank: map<Node, nat>, finish: Node)
    returns (r: Outcome<seq<Node>>)
    requires before.Keys == cells && StatusesAre(cells, before, Statuses(before))
    requires finish in cells && finish.parent != null && ParentsRanked(before, rank)
    modifies cells
    ensures var chain := Chain(before, rank, finish); StatusesAre(cells, before, Stamps(before, chain, |chain|))
    ensures r.Throws? <==> !ReachesStart(before, rank, finish)
    ensures r.Throws? ==> r.error == NullPointer
    ensures r.Returns? ==> r.value == Reverse(Chain(before, rank, finish))
  {
    var currentNode := finish;
    ghost var chain := Chain(before, rank, currentNode);
    ChainLinks(before, rank, currentNode, chain);
    ghost var k := 0;
    ghost var stamps := Stamps(before, chain, if chain == [] then 0 else 1);
    var path: seq<Node> := [];
    while !currentNode.IsStart()
      invariant 0 <= k <= |chain| && currentNode in cells
      invariant k < |chain| ==> currentNode == chain[k] && currentNode.status != Start
      invariant k < |chain| ==> stamps == Stamps(before, chain, k + 1)
      invariant k == |chain| ==> currentNode.status == Start && stamps == Stamps(before, chain, |chain|)
      invariant k == |chain| && chain != [] ==> before[chain[|chain| - 1]].parent != null
      invariant path == ReversedPrefix(chain, k)
      invariant StatusesAre(cells, before, stamps)
      decreases |chain| - k
    {
      ghost var nextPath := ReversedPrefix(chain, k + 1);
      assert [currentNode] + path == nextPath;
      path := [currentNode] + path;
      var parentNode := currentNode.parent;
      assert parentNode == before[currentNode].parent;
      if k + 1 < |chain| {
        assert parentNode == chain[k + 1];
      }
      if parentNode == null {
        return Throws(NullPointer);
      }
      PointParentAt(cells, before, stamps, currentNode, parentNode);
      if k + 1 < |chain| {
        StampsStep(before, chain, k + 1);
        StampsKind(before, chain, k + 2, parentNode);
        assert Restamp(stamps, currentNode, parentNode) == Stamps(before, chain, k + 2);
      } else {
        StampsUntouched(before, chain, k + 1, parentNode);
        assert stamps[parentNode] == Start;
        assert Restamp(stamps, currentNode, parentNode) == stamps;
      }
      stamps := Restamp(stamps, currentNode, parentNode);
      currentNode := parentNode;
      k := k + 1;
    }
    return Returns(path);
  }

  /**
   * Builds the solution path from the search area's finish. Returns None when the finish
   * has no parent (the search never reached it); otherwise the walked cells, from the one
   * after the start to the finish, or a NullPointerException when the parent links break
   * off before a START cell. Only statuses change: parents on the path become waypoints
   * pointing at their children, and the area stays valid.
   */
  method BuildSolutionPath(area: SearchArea, ghost rank: map<Node, nat>) returns (r: Outcome<Option<seq<Node>>>)
    requires area.Valid() && area.finish != null && ParentsRanked(Snapshot(area.Cells), rank)
    modifies area.Cells
    ensures area.Valid()
    ensures var before := old(Snapshot(area.Cells)); var chain := Chain(before, rank, area.finish);
      StatusesAre(area.Cells, before, Stamps(before, chain, |chain|)) &&
      (r == Returns(None) <==> before[area.finish].parent == null) &&
      (r.Throws? <==> before[area.finish].parent != null && !ReachesStart(before, rank, area.finish)) &&
      (r.Throws? ==> r.error == NullPointer) &&
      (r.Returns? && r.value.Some? ==> r.value.value == Reverse(chain)) &&
      MarksLeft(area.Cells, Statuses(before), r)
  {
    ghost var before := Snapshot(area.Cells);
    ghost var chain := Chain(before, rank, area.finish);
    var currentNode := area.finish;
    if !currentNode.HasParent() {
      return Returns(None);
    }
    assert StatusesAre(area.Cells, before, Statuses(before));
    var walk := WalkBack(area.Cells, before, rank, currentNode);
    forall c | c in area.Cells
      ensures StampedFrom(c.status, before[c].status)
    {
      StampsKind(before, chain, |chain|, c);
    }
    match walk {
      case Throws(e) => r := Throws(e);
      case Returns(path) => r := Returns(Some(path));
    }
    WalkMarks(area.Cells, before, rank, area.finish, r);
  }
}
