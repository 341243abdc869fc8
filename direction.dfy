/**
 * The eight compass directions of travel from a cell of the grid: each has a unit
 * offset, an abbreviation and an integer move cost (10 orthogonal, 15 diagonal).
 */
module Directions {
  import opened Wrappers

  /** An (x, y) grid position as a plain value. */
  datatype Coord = Coord(x: int, y: int)

  datatype Direction = SouthWest | North | SouthEast | West | NorthEast | South | NorthWest | East

  /** The directions in declaration order, the order `values()` enumerates them. */
  const Values: seq<Direction> := [SouthWest, North, SouthEast, West, NorthEast, South, NorthWest, East]

  const AllDirections: set<Direction> := {SouthWest, North, SouthEast, West, NorthEast, South, NorthWest, East}

  const OrthogonalCost: int := 10
  const DiagonalCost: int := 15

  function DeltaX(d: Direction): int {
    match d
    case SouthWest => -1
    case North => 0
    case SouthEast => 1
    case West => -1
    case NorthEast => 1
    case South => 0
    case NorthWest => -1
    case East => 1
  }

  function DeltaY(d: Direction): int {
    match d
    case SouthWest => -1
    case North => 1
    case SouthEast => -1
    case West => 0
    case NorthEast => 1
    case South => -1
    case NorthWest => 1
    case East => 0
  }

  function Abbreviation(d: Direction): string {
    match d
    case SouthWest => "SW"
    case North => "N"
    case SouthEast => "SE"
    case West => "W"
    case NorthEast => "NE"
    case South => "S"
    case NorthWest => "NW"
    case East => "E"
  }

  function CostToNeighbor(d: Direction): int {
    match d
    case SouthWest => DiagonalCost
    case North => OrthogonalCost
    case SouthEast => DiagonalCost
    case West => OrthogonalCost
    case NorthEast => DiagonalCost
    case South => OrthogonalCost
    case NorthWest => DiagonalCost
    case East => OrthogonalCost
  }

  predicate IsDiagonal(d: Direction) {
    DeltaX(d) != 0 && DeltaY(d) != 0
  }

  /** The position one step from (x, y) in direction d. */
  function AdjacentPoint(d: Direction, x: int, y: int): Coord {
    Coord(x + DeltaX(d), y + DeltaY(d))
  }

  function AdjacentDirectionCW(d: Direction): Direction {
    match d
    case North => NorthEast
    case NorthEast => East
    case East => SouthEast
    case SouthEast => South
    case South => SouthWest
    case SouthWest => West
    case West => NorthWest
    case NorthWest => North
  }

  function AdjacentDirectionCCW(d: Direction): Direction {
    match d
    case North => NorthWest
    case NorthWest => West
    case West => SouthWest
    case SouthWest => South
    case South => SouthEast
    case SouthEast => East
    case East => NorthEast
    case NorthEast => North
  }

  /** `n` clockwise eighth-turns starting from d. */
  function RotateCW(d: Direction, n: nat): Direction {
    if n == 0 then d else AdjacentDirectionCW(RotateCW(d, n - 1))
  }

  /** First direction of `vs` whose offset is (xOffset, yOffset). */
  function FindByOffset(vs: seq<Direction>, xOffset: int, yOffset: int): (r: Option<Direction>)
    ensures r.Some? ==> r.value in vs && DeltaX(r.value) == xOffset && DeltaY(r.value) == yOffset
    ensures r.None? ==> forall d :: d in vs ==> DeltaX(d) != xOffset || DeltaY(d) != yOffset
  {
    if vs == [] then None
    else if DeltaX(vs[0]) == xOffset && DeltaY(vs[0]) == yOffset then Some(vs[0])
    else FindByOffset(vs[1..], xOffset, yOffset)
  }

  /** The direction with the given offset; None unless both offsets are in [-1, 1] and one is nonzero. */
  function FromOffset(xOffset: int, yOffset: int): (r: Option<Direction>)
    ensures r.Some? ==> DeltaX(r.value) == xOffset && DeltaY(r.value) == yOffset
    ensures r.None? <==> xOffset < -1 || 1 < xOffset || yOffset < -1 || 1 < yOffset || (xOffset == 0 && yOffset == 0)
  {
    if xOffset == -1 then
      if yOffset == -1 then Some(SouthWest) else if yOffset == 0 then Some(West)
      else if yOffset == 1 then Some(NorthWest) else None
    else if xOffset == 0 then
      if yOffset == -1 then Some(South) else if yOffset == 1 then Some(North) else None
    else if xOffset == 1 then
      if yOffset == -1 then Some(SouthEast) else if yOffset == 0 then Some(East)
      else if yOffset == 1 then Some(NorthEast) else None
    else None
  }

  /** fromOffset scans values() for the first direction with that offset: the same answer. */
  lemma FromOffsetIsSearch(xOffset: int, yOffset: int)
    ensures FromOffset(xOffset, yOffset) == FindByOffset(Values, xOffset, yOffset)
  {
    var r := FindByOffset(Values, xOffset, yOffset);
    if r.Some? {
      DeltasInUnitRange(r.value);
      OffsetsDistinct(r.value, FromOffset(xOffset, yOffset).value);
    } else if FromOffset(xOffset, yOffset).Some? {
      ValuesEnumerateAll();
    }
  }

  /** The direction whose offset is the negation of d's. */
  function OppositeDirectionCCW(d: Direction): (r: Option<Direction>)
    ensures r.Some? && DeltaX(r.value) == -DeltaX(d) && DeltaY(r.value) == -DeltaY(d)
  {
    FromOffset(-DeltaX(d), -DeltaY(d))
  }

  // ---------------------------------------------------------------------------------------
  // Abbreviation lookup: trimmed, case-insensitive (ASCII letters) comparison.

  /** Characters that the Java String.trim removes (code point at most U+0020). */
  predicate IsTrimmable(c: char) {
    c <= ' '
  }

  function TrimStart(s: string): (r: string)
    ensures |r| <= |s| && r == s[|s| - |r|..]
    ensures r != [] ==> !IsTrimmable(r[0])
  {
    if s != [] && IsTrimmable(s[0]) then TrimStart(s[1..]) else s
  }

  function TrimEnd(s: string): (r: string)
    ensures |r| <= |s| && r == s[..|r|]
    ensures r != [] ==> !IsTrimmable(r[|r| - 1])
  {
    if s != [] && IsTrimmable(s[|s| - 1]) then TrimEnd(s[..|s| - 1]) else s
  }

  function Trim(s: string): string {
    TrimEnd(TrimStart(s))
  }

  /**
   * The upper case of c, as far as comparing with the letters N, E, S and W goes: the
   * ASCII lower-case letters, and the long s (U+017F), whose upper case is 'S'. No other
   * character folds to one of those four letters, so the rest are left alone.
   */
  function ToUpper(c: char): char {
    if 'a' <= c <= 'z' then (c as int - 'a' as int + 'A' as int) as char
    else if c == '\U{017F}' then 'S'
    else c
  }

  predicate EqualsIgnoreCase(a: string, b: string) {
    |a| == |b| && forall i :: 0 <= i < |a| ==> ToUpper(a[i]) == ToUpper(b[i])
  }

  /** First direction of `vs` whose abbreviation equals s, ignoring case. */
  function FindByAbbreviation(vs: seq<Direction>, s: string): (r: Option<Direction>)
    ensures r.Some? ==> r.value in vs && EqualsIgnoreCase(s, Abbreviation(r.value))
    ensures r.None? ==> forall d :: d in vs ==> !EqualsIgnoreCase(s, Abbreviation(d))
  {
    if vs == [] then None
    else if EqualsIgnoreCase(s, Abbreviation(vs[0])) then Some(vs[0])
    else FindByAbbreviation(vs[1..], s)
  }

  /** The direction named by an abbreviation such as " ne ", or None (also for a null string). */
  function FromAbbreviation(abbreviation: Option<string>): (r: Option<Direction>)
    ensures abbreviation.None? ==> r.None?
    ensures r.Some? ==> abbreviation.Some? && EqualsIgnoreCase(Trim(abbreviation.value), Abbreviation(r.value))
  {
    if abbreviation.Some? then FindByAbbreviation(Values, Trim(abbreviation.value)) else None
  }

  // ---------------------------------------------------------------------------------------
  // Properties of the direction table.

  lemma DeltasInUnitRange(d: Direction)
    ensures -1 <= DeltaX(d) <= 1 && -1 <= DeltaY(d) <= 1
    ensures DeltaX(d) != 0 || DeltaY(d) != 0
  {
  }

  lemma OffsetsDistinct(d1: Direction, d2: Direction)
    requires DeltaX(d1) == DeltaX(d2) && DeltaY(d1) == DeltaY(d2)
    ensures d1 == d2
  {
  }

  lemma CostMatchesShape(d: Direction)
    ensures CostToNeighbor(d) == if IsDiagonal(d) then DiagonalCost else OrthogonalCost
  {
  }

  /** There are eight directions. */
  lemma AllDirectionsCount()
    ensures |AllDirections| == 8
  {
  }

  lemma ValuesEnumerateAll()
    ensures |Values| == 8 && forall d :: d in AllDirections <==> d in Values
    ensures forall i, j :: 0 <= i < j < |Values| ==> Values[i] != Values[j]
  {
  }

  /** The adjacent point is one king-move away, and its offset names d again. */
  lemma AdjacentPointRoundTrip(d: Direction, x: int, y: int)
    ensures AdjacentPoint(d, x, y) != Coord(x, y)
    ensures FromOffset(AdjacentPoint(d, x, y).x - x, AdjacentPoint(d, x, y).y - y) == Some(d)
  {
  }

  lemma RotationsAreInverse(d: Direction)
    ensures AdjacentDirectionCCW(AdjacentDirectionCW(d)) == d
    ensures AdjacentDirectionCW(AdjacentDirectionCCW(d)) == d
  {
  }

  lemma {:induction false} RotateCWAdd(d: Direction, m: nat, n: nat)
    ensures RotateCW(RotateCW(d, m), n) == RotateCW(d, m + n)
  {
    if n > 0 {
      RotateCWAdd(d, m, n - 1);
    }
  }

  /** Eight clockwise eighth-turns bring every direction back to itself. */
  lemma {:induction false} RotateCWFullTurn(d: Direction, k: nat)
    ensures RotateCW(d, 8 * k) == d
  {
    if k > 0 {
      RotateCWFullTurn(d, k - 1);
      var e := RotateCW(d, 8 * (k - 1));
      RotateCWAdd(d, 8 * (k - 1), 8);
      assert RotateCW(e, 8) == e;
    }
  }

  /** The two directions flanking a diagonal are orthogonal and their offsets sum to its offset. */
  lemma DiagonalFlanks(d: Direction)
    requires IsDiagonal(d)
    ensures !IsDiagonal(AdjacentDirectionCW(d)) && !IsDiagonal(AdjacentDirectionCCW(d))
    ensures DeltaX(AdjacentDirectionCW(d)) + DeltaX(AdjacentDirectionCCW(d)) == DeltaX(d)
    ensures DeltaY(AdjacentDirectionCW(d)) + DeltaY(AdjacentDirectionCCW(d)) == DeltaY(d)
  {
  }

  lemma FromOffsetRoundTrip(d: Direction)
    ensures FromOffset(DeltaX(d), DeltaY(d)) == Some(d)
  {
    OffsetsDistinct(d, FromOffset(DeltaX(d), DeltaY(d)).value);
  }

  lemma OppositeIsInvolution(d: Direction)
    ensures OppositeDirectionCCW(d).value != d
    ensures OppositeDirectionCCW(OppositeDirectionCCW(d).value) == Some(d)
  {
    var o := OppositeDirectionCCW(d).value;
    OffsetsDistinct(d, OppositeDirectionCCW(o).value);
  }

  lemma {:induction false} TrimStartPadding(pre: string, s: string)
    requires forall i :: 0 <= i < |pre| ==> IsTrimmable(pre[i])
    requires s != [] && !IsTrimmable(s[0])
    ensures TrimStart(pre + s) == s
  {
    if pre != [] {
      assert (pre + s)[1..] == pre[1..] + s;
      TrimStartPadding(pre[1..], s);
    }
  }

  lemma {:induction false} TrimEndPadding(s: string, post: string)
    requires forall i :: 0 <= i < |post| ==> IsTrimmable(post[i])
    requires s != [] && !IsTrimmable(s[|s| - 1])
    ensures TrimEnd(s + post) == s
  {
    if post != [] {
      assert (s + post)[..|s + post| - 1] == s + post[..|post| - 1];
      TrimEndPadding(s, post[..|post| - 1]);
    }
  }

  /** Abbreviations are upper-case, so two of them match ignoring case only when equal. */
  lemma AbbreviationsDistinctIgnoringCase(d: Direction, e: Direction)
    requires EqualsIgnoreCase(Abbreviation(d), Abbreviation(e))
    ensures d == e
  {
    assert ToUpper(Abbreviation(d)[0]) == ToUpper(Abbreviation(e)[0]);
    if |Abbreviation(d)| == 2 {
      assert ToUpper(Abbreviation(d)[1]) == ToUpper(Abbreviation(e)[1]);
    }
  }

  lemma TrimPadding(pre: string, s: string, post: string)
    requires forall i :: 0 <= i < |pre| ==> IsTrimmable(pre[i])
    requires forall i :: 0 <= i < |post| ==> IsTrimmable(post[i])
    requires s != [] && !IsTrimmable(s[0]) && !IsTrimmable(s[|s| - 1])
    ensures Trim(pre + s + post) == s
  {
    assert pre + s + post == pre + (s + post);
    TrimStartPadding(pre, s + post);
    TrimEndPadding(s, post);
  }

  /**
   * An abbreviation in any letter case, surrounded by blanks, names its direction:
   * fromAbbreviation(" nE ") == NORTHEAST.
   */
  lemma FromAbbreviationRoundTrip(d: Direction, pre: string, s: string, post: string)
    requires forall i :: 0 <= i < |pre| ==> IsTrimmable(pre[i])
    requires forall i :: 0 <= i < |post| ==> IsTrimmable(post[i])
    requires EqualsIgnoreCase(s, Abbreviation(d))
    ensures FromAbbreviation(Some(pre + s + post)) == Some(d)
  {
    assert ToUpper(s[0]) == ToUpper(Abbreviation(d)[0]);
    assert ToUpper(s[|s| - 1]) == ToUpper(Abbreviation(d)[|s| - 1]);
    TrimPadding(pre, s, post);
    assert d in Values;
    var r := FindByAbbreviation(Values, s);
    assert r.Some?;
    assert EqualsIgnoreCase(Abbreviation(r.value), Abbreviation(d)) by {
      forall i | 0 <= i < |s|
        ensures ToUpper(Abbreviation(r.value)[i]) == ToUpper(Abbreviation(d)[i])
      {
      }
    }
    AbbreviationsDistinctIgnoringCase(r.value, d);
  }

  /**
   * The long s folds to 'S', so fromAbbreviation("\u017F") names SOUTH, while none of
   * the directions before SOUTH in declaration order matches it.
   */
  lemma LongSNamesSouth()
    ensures FromAbbreviation(Some("\U{017F}")) == Some(South)
  {
    var s := "\U{017F}";
    assert Trim(s) == s;
    assert Values[..5] == [SouthWest, North, SouthEast, West, NorthEast];
    assert ToUpper(s[0]) == 'S';
    assert !EqualsIgnoreCase(s, "SW") && !EqualsIgnoreCase(s, "SE") && !EqualsIgnoreCase(s, "NE");
    assert !EqualsIgnoreCase(s, "N") by {
      assert ToUpper(s[0]) != ToUpper("N"[0]);
    }
    assert !EqualsIgnoreCase(s, "W") by {
      assert ToUpper(s[0]) != ToUpper("W"[0]);
    }
    assert FindByAbbreviation(Values, s) == FindByAbbreviation(Values[5..], s);
  }
}
