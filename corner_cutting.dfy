/**
 * The corner-cutting rule applied to a neighbour map. A diagonal move is kept only when the
 * orthogonal cells flanking it allow it: in strict mode both must be present, in lenient mode
 * at least one. Orthogonal entries are never removed.
 */
module CornerCutting {
  import opened Directions

  /** Whether the flanks of diagonal d in m allow moving along d. */
  predicate DiagonalAllowed<V>(m: map<Direction, V>, d: Direction, cuttingCornersAllowed: bool) {
    if cuttingCornersAllowed then AdjacentDirectionCCW(d) in m || AdjacentDirectionCW(d) in m
    else AdjacentDirectionCCW(d) in m && AdjacentDirectionCW(d) in m
  }

  /** The entries of m that the rule keeps: all orthogonal ones and the allowed diagonals. */
  function Walkable<V>(m: map<Direction, V>, cuttingCornersAllowed: bool): map<Direction, V> {
    map d | d in m && (IsDiagonal(d) ==> DiagonalAllowed(m, d, cuttingCornersAllowed)) :: m[d]
  }

  /** Removes the entry for d when it is present and its flanks do not allow the move. */
  function TrimDiagonal<V>(m: map<Direction, V>, d: Direction, cuttingCornersAllowed: bool): (r: map<Direction, V>)
    ensures d in r <==> d in m && DiagonalAllowed(m, d, cuttingCornersAllowed)
    ensures forall k :: k != d ==> (k in r <==> k in m)
    ensures forall k :: k in r ==> r[k] == m[k]
  {
    if d in m && !DiagonalAllowed(m, d, cuttingCornersAllowed) then m - {d} else m
  }

  /** Trimming one diagonal leaves the decision for every diagonal unchanged. */
  lemma TrimKeepsDecisions<V>(m: map<Direction, V>, d: Direction, cut: bool, e: Direction)
    requires IsDiagonal(d) && IsDiagonal(e)
    ensures DiagonalAllowed(TrimDiagonal(m, d, cut), e, cut) == DiagonalAllowed(m, e, cut)
  {
    DiagonalFlanks(e);
  }

  /** The four trims of getWalkableNeighbors, in its order, compute exactly Walkable. */
  lemma TrimsComputeWalkable<V>(m: map<Direction, V>, cut: bool)
    ensures TrimDiagonal(TrimDiagonal(TrimDiagonal(TrimDiagonal(m, NorthEast, cut), SouthEast, cut),
                                      SouthWest, cut), NorthWest, cut)
            == Walkable(m, cut)
  {
    var m1 := TrimDiagonal(m, NorthEast, cut);
    var m2 := TrimDiagonal(m1, SouthEast, cut);
    var m3 := TrimDiagonal(m2, SouthWest, cut);
    var m4 := TrimDiagonal(m3, NorthWest, cut);
    var w := Walkable(m, cut);
    TrimKeepsDecisions(m, NorthEast, cut, SouthEast);
    TrimKeepsDecisions(m, NorthEast, cut, SouthWest);
    TrimKeepsDecisions(m1, SouthEast, cut, SouthWest);
    TrimKeepsDecisions(m, NorthEast, cut, NorthWest);
    TrimKeepsDecisions(m1, SouthEast, cut, NorthWest);
    TrimKeepsDecisions(m2, SouthWest, cut, NorthWest);
    forall k
      ensures k in m4 <==> k in w
    {
      if !IsDiagonal(k) {
        assert k != NorthEast && k != SouthEast && k != SouthWest && k != NorthWest;
      }
    }
    assert m4.Keys == w.Keys;
  }

  /** Orthogonal entries always survive, unchanged. */
  lemma WalkableKeepsOrthogonal<V>(m: map<Direction, V>, cut: bool, d: Direction)
    requires d in m && !IsDiagonal(d)
    ensures d in Walkable(m, cut) && Walkable(m, cut)[d] == m[d]
  {
  }

  /** In strict mode a diagonal survives iff both flanking orthogonal entries are present. */
  lemma StrictKeepsDiagonalIffBothFlanks<V>(m: map<Direction, V>, d: Direction)
    requires IsDiagonal(d)
    ensures d in Walkable(m, false) <==>
      d in m && AdjacentDirectionCW(d) in m && AdjacentDirectionCCW(d) in m
  {
  }

  /** In lenient mode a diagonal survives iff at least one flanking entry is present. */
  lemma LenientKeepsDiagonalIffOneFlank<V>(m: map<Direction, V>, d: Direction)
    requires IsDiagonal(d)
    ensures d in Walkable(m, true) <==>
      d in m && (AdjacentDirectionCW(d) in m || AdjacentDirectionCCW(d) in m)
  {
  }

  /** The result is a sub-map of the input, and strict mode keeps no more than lenient mode. */
  lemma WalkableIsSubMap<V>(m: map<Direction, V>, cut: bool)
    ensures Walkable(m, cut).Keys <= m.Keys
    ensures forall d :: d in Walkable(m, cut) ==> Walkable(m, cut)[d] == m[d]
    ensures Walkable(m, false).Keys <= Walkable(m, true).Keys
  {
  }
}
