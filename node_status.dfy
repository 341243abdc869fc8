/**
 * The status of a cell: start, finish, obstacle, one of the eight directed waypoints,
 * the undirected waypoint, or empty. Each status has a one-character display symbol.
 */
module NodeStatuses {
  import opened Wrappers
  import opened Directions

  datatype NodeStatus =
    | Start | Finish | Obstacle
    | WaypointN | WaypointNE | WaypointE | WaypointSE
    | WaypointS | WaypointSW | WaypointW | WaypointNW
    | Waypoint | Empty

  /** The statuses in declaration order, the order `values()` enumerates them. */
  const StatusValues: seq<NodeStatus> :=
    [Start, Finish, Obstacle, WaypointN, WaypointNE, WaypointE, WaypointSE,
     WaypointS, WaypointSW, WaypointW, WaypointNW, Waypoint, Empty]

  /** The name of the enumeration constant, as `toString` and `valueOf` use it. */
  function Name(s: NodeStatus): string {
    match s
    case Start => "START"
    case Finish => "FINISH"
    case Obstacle => "OBSTACLE"
    case WaypointN => "WAYPOINT_N"
    case WaypointNE => "WAYPOINT_NE"
    case WaypointE => "WAYPOINT_E"
    case WaypointSE => "WAYPOINT_SE"
    case WaypointS => "WAYPOINT_S"
    case WaypointSW => "WAYPOINT_SW"
    case WaypointW => "WAYPOINT_W"
    case WaypointNW => "WAYPOINT_NW"
    case Waypoint => "WAYPOINT"
    case Empty => "EMPTY"
  }

  function Symbol(s: NodeStatus): string {
    match s
    case Start => "S"
    case Finish => "F"
    case Obstacle => "\U{2588}"
    case WaypointN => "\U{2191}"
    case WaypointNE => "\U{2197}"
    case WaypointE => "\U{2192}"
    case WaypointSE => "\U{2198}"
    case WaypointS => "\U{2193}"
    case WaypointSW => "\U{2199}"
    case WaypointW => "\U{2190}"
    case WaypointNW => "\U{2196}"
    case Waypoint => "\U{2022}"
    case Empty => " "
  }

  /** The waypoint statuses: the eight directed ones and the undirected one. */
  predicate IsWaypoint(s: NodeStatus) {
    !(s.Start? || s.Finish? || s.Obstacle? || s.Empty?)
  }

  /** First status of `vs` with the given name. */
  function FindByName(vs: seq<NodeStatus>, name: string): (r: Option<NodeStatus>)
    ensures r.Some? ==> r.value in vs && Name(r.value) == name
    ensures r.None? ==> forall s :: s in vs ==> Name(s) != name
  {
    if vs == [] then None
    else if Name(vs[0]) == name then Some(vs[0])
    else FindByName(vs[1..], name)
  }

  /** Enum.valueOf: the constant with that name, or None where Java throws IllegalArgumentException. */
  function ValueOf(name: string): (r: Option<NodeStatus>)
    ensures r.Some? ==> Name(r.value) == name
    ensures r.None? ==> forall s :: Name(s) != name
  {
    forall s ensures s in StatusValues {
      InStatusValues(s);
    }
    FindByName(StatusValues, name)
  }

  lemma InStatusValues(s: NodeStatus)
    ensures s in StatusValues
  {
    match s
    case Start => assert StatusValues[0] == s;
    case Finish => assert StatusValues[1] == s;
    case Obstacle => assert StatusValues[2] == s;
    case WaypointN => assert StatusValues[3] == s;
    case WaypointNE => assert StatusValues[4] == s;
    case WaypointE => assert StatusValues[5] == s;
    case WaypointSE => assert StatusValues[6] == s;
    case WaypointS => assert StatusValues[7] == s;
    case WaypointSW => assert StatusValues[8] == s;
    case WaypointW => assert StatusValues[9] == s;
    case WaypointNW => assert StatusValues[10] == s;
    case Waypoint => assert StatusValues[11] == s;
    case Empty => assert StatusValues[12] == s;
  }

  lemma NamesDistinct(s: NodeStatus, t: NodeStatus)
    requires Name(s) == Name(t)
    ensures s == t
  {
  }

  /** The directed waypoint for d: the status whose arrow points along d. */
  function DirectedWaypoint(d: Direction): NodeStatus {
    match d
    case North => WaypointN
    case NorthEast => WaypointNE
    case East => WaypointE
    case SouthEast => WaypointSE
    case South => WaypointS
    case SouthWest => WaypointSW
    case West => WaypointW
    case NorthWest => WaypointNW
  }

  /**
   * getDirectedWaypoint looks the constant up by the name "WAYPOINT_" followed by d's
   * abbreviation; that lookup succeeds and finds exactly the table entry.
   */
  lemma DirectedWaypointByName(d: Direction)
    ensures Name(DirectedWaypoint(d)) == "WAYPOINT_" + Abbreviation(d)
    ensures ValueOf("WAYPOINT_" + Abbreviation(d)) == Some(DirectedWaypoint(d))
  {
    var name := "WAYPOINT_" + Abbreviation(d);
    DirectedWaypointName(d);
    var r := ValueOf(name);
    NamesDistinct(r.value, DirectedWaypoint(d));
  }

  lemma DirectedWaypointName(d: Direction)
    ensures Name(DirectedWaypoint(d)) == "WAYPOINT_" + Abbreviation(d)
  {
    match d
    case North => assert "WAYPOINT_" + "N" == "WAYPOINT_N";
    case NorthEast => assert "WAYPOINT_" + "NE" == "WAYPOINT_NE";
    case East => assert "WAYPOINT_" + "E" == "WAYPOINT_E";
    case SouthEast => assert "WAYPOINT_" + "SE" == "WAYPOINT_SE";
    case South => assert "WAYPOINT_" + "S" == "WAYPOINT_S";
    case SouthWest => assert "WAYPOINT_" + "SW" == "WAYPOINT_SW";
    case West => assert "WAYPOINT_" + "W" == "WAYPOINT_W";
    case NorthWest => assert "WAYPOINT_" + "NW" == "WAYPOINT_NW";
  }

  // ---------------------------------------------------------------------------------------
  // Properties of the status table.

  lemma StatusValuesEnumerateAll()
    ensures |StatusValues| == 13 && forall s :: s in StatusValues
    ensures forall i, j :: 0 <= i < j < |StatusValues| ==> StatusValues[i] != StatusValues[j]
  {
    forall s ensures s in StatusValues {
      InStatusValues(s);
    }
  }

  lemma SymbolsAreSingleCharacters(s: NodeStatus)
    ensures |Symbol(s)| == 1
  {
  }

  lemma SymbolsDistinct(s: NodeStatus, t: NodeStatus)
    requires Symbol(s) == Symbol(t)
    ensures s == t
  {
    assert Symbol(s)[0] == Symbol(t)[0];
  }

  /** isWaypoint tests whether the constant's name starts with "WAYPOINT": exactly IsWaypoint. */
  lemma IsWaypointByName(s: NodeStatus)
    ensures IsWaypoint(s) <==> "WAYPOINT" <= Name(s)
  {
    if !IsWaypoint(s) {
      assert Name(s)[0] != 'W';
    }
  }

  /** The directed waypoint of d is the WAYPOINT_ constant and d can be read back from it. */
  lemma DirectedWaypointIsDirected(d: Direction)
    ensures IsWaypoint(DirectedWaypoint(d))
    ensures DirectedWaypoint(d) !in {Start, Finish, Obstacle, Empty, Waypoint}
  {
  }

  lemma DirectedWaypointInjective(d: Direction, e: Direction)
    requires DirectedWaypoint(d) == DirectedWaypoint(e)
    ensures d == e
  {
    DirectedWaypointByName(d);
    DirectedWaypointByName(e);
    var suffix := Name(DirectedWaypoint(d))[9..];
    assert suffix == Abbreviation(d) && suffix == Abbreviation(e);
    assert EqualsIgnoreCase(Abbreviation(d), Abbreviation(e));
    AbbreviationsDistinctIgnoringCase(d, e);
  }
}
