/** What the distance function of meshes, tori, lines and rings measures. */
module MeshDistance {
  import opened Radix
  import opened MeshCode
  import opened MeshLinks
  import opened Wiring

  function Apart(a: nat, b: nat): nat { if a > b then a - b else b - a }

  /** Steps between two positions of `n`, around the end if that is shorter and there is a link. */
  function Steps(a: nat, b: nat, n: nat, wraps: bool): nat {
    if wraps && Apart(a, b) <= n && n - Apart(a, b) < Apart(a, b) then n - Apart(a, b) else Apart(a, b)
  }

  function Hops(g: Grid, a: Coord, b: Coord): nat {
    Steps(a.x, b.x, g.X(), Wraps(g)) + Steps(a.y, b.y, g.Y(), Wraps(g)) + Steps(a.z, b.z, g.Z(), false)
  }

  ghost predicate Adjacent(g: Grid, a: Coord, b: Coord)
    requires g.Valid()
  {
    exists d :: Linked(g, a, d) && b == Next(g, a, d)
  }

  /** Routers, each linked to the next. */
  ghost predicate Path(g: Grid, w: seq<Coord>)
    requires g.Valid()
  {
    && w != [] && (forall i :: 0 <= i < |w| ==> InGrid(g, w[i]))
    && forall i, j :: 0 <= i < j < |w| && j == i + 1 ==> Adjacent(g, w[i], w[j])
  }

  /** One link brings the goal nearer by at most one. */
  lemma OneLink(g: Grid, a: Coord, b: Coord, goal: Coord)
    requires g.Valid() && InGrid(g, a) && InGrid(g, goal) && Adjacent(g, a, b)
    ensures Hops(g, a, goal) <= Hops(g, b, goal) + 1
  {
    var d :| Linked(g, a, d) && b == Next(g, a, d);
    match d
    case East =>
    case West =>
    case South =>
    case North =>
    case Up =>
    case Down =>
  }

  /** Which way the goal is. */
  function Toward(g: Grid, a: Coord, goal: Coord): Dir {
    if a.x != goal.x then
      if (a.x < goal.x) == (Steps(a.x, goal.x, g.X(), Wraps(g)) == Apart(a.x, goal.x)) then East else West
    else if a.y != goal.y then
      if (a.y < goal.y) == (Steps(a.y, goal.y, g.Y(), Wraps(g)) == Apart(a.y, goal.y)) then South else North
    else if a.z < goal.z then Up else Down
  }

  lemma StepToward(g: Grid, a: Coord, goal: Coord)
    requires g.Valid() && InGrid(g, a) && InGrid(g, goal) && a != goal
    ensures var d := Toward(g, a, goal);
      Linked(g, a, d) && InGrid(g, Next(g, a, d)) && Hops(g, Next(g, a, d), goal) == Hops(g, a, goal) - 1
  {
  }

  lemma {:induction false} PathExists(g: Grid, a: Coord, goal: Coord) returns (w: seq<Coord>)
    requires g.Valid() && InGrid(g, a) && InGrid(g, goal)
    ensures Path(g, w) && w[0] == a && w[|w| - 1] == goal && |w| == Hops(g, a, goal) + 1
    decreases Hops(g, a, goal)
  {
    if a == goal {
      w := [a];
    } else {
      StepToward(g, a, goal);
      var b := Next(g, a, Toward(g, a, goal));
      hide Toward, Linked, Next, Hops;
      var rest := PathExists(g, b, goal);
      w := [a] + rest;
      assert Adjacent(g, a, b);
      forall i, j | 0 <= i < j < |w| && j == i + 1 ensures Adjacent(g, w[i], w[j]) {
        if i > 0 { assert w[i] == rest[i - 1] && w[j] == rest[j - 1]; }
      }
    }
  }

  lemma {:induction false} NoneShorter(g: Grid, w: seq<Coord>)
    requires g.Valid() && Path(g, w)
    ensures |w| >= Hops(g, w[0], w[|w| - 1]) + 1
    decreases |w|
  {
    if |w| > 1 {
      hide Hops, Adjacent;
      var rest := w[1..];
      assert Path(g, rest) by {
        forall i, j | 0 <= i < j < |rest| && j == i + 1 ensures Adjacent(g, rest[i], rest[j]) {
          assert rest[i] == w[i + 1] && rest[j] == w[j + 1];
        }
      }
      NoneShorter(g, rest);
      assert Adjacent(g, w[0], w[1]);
      OneLink(g, w[0], w[1], w[|w| - 1]);
    }
  }

  // ---------- in the generated table ----------

  /** The wires of the table: one from each row. */
  ghost function TableWires(rows: seq<Row>): Wires {
    set row | row in rows :: (row.r1, row.r2)
  }

  ghost function GridWires(g: Grid): Wires
    requires g.Valid()
  {
    TableWires(Table(g, g.Routers()))
  }

  /** The table wires exactly the routers that are next to each other. */
  lemma WiresAdjacent(g: Grid, a: nat, b: nat)
    requires g.Valid()
    ensures (a, b) in GridWires(g) <==>
      a < g.Routers() && b < g.Routers() && Adjacent(g, CoordOf(g, a), CoordOf(g, b))
  {
    hide Mul, Div, Mod, CoordOf, Linked, Next, Table, Port;
    if (a, b) in GridWires(g) {
      var row :| row in Table(g, g.Routers()) && (row.r1, row.r2) == (a, b);
      InWholeTable(g, row);
      var c, d :| IsLink(g, c, d, row);
      ThereAndBack(g, c, d);
      RouterRoundTrip(g, c);
      RouterRoundTrip(g, Next(g, c, d));
    }
    if a < g.Routers() && b < g.Routers() && Adjacent(g, CoordOf(g, a), CoordOf(g, b)) {
      var c := CoordOf(g, a);
      var d :| Linked(g, c, d) && CoordOf(g, b) == Next(g, c, d);
      RouterNumbered(g, a);
      RouterNumbered(g, b);
      assert IsLink(g, c, d, LinkRow(g, c, d));
      InWholeTable(g, LinkRow(g, c, d));
    }
  }

  /** A path of coordinates is a way through the table. */
  lemma PathIsWay(g: Grid, w: seq<Coord>) returns (v: seq<nat>)
    requires g.Valid() && Path(g, w)
    ensures |v| == |w| && Joins(GridWires(g), v, RouterId(g, w[0]), RouterId(g, w[|w| - 1]))
  {
    hide Mul, CoordOf, RouterId, GridWires, Adjacent, InGrid;
    v := seq(|w|, i requires 0 <= i < |w| => RouterId(g, w[i]));
    forall i, j | 0 <= i < j < |v| && j == i + 1 ensures (v[i], v[j]) in GridWires(g) {
      RouterRoundTrip(g, w[i]);
      RouterRoundTrip(g, w[j]);
      WiresAdjacent(g, v[i], v[j]);
    }
  }

  lemma WayIsPath(g: Grid, v: seq<nat>) returns (w: seq<Coord>)
    requires g.Valid() && Way(GridWires(g), v) && v[0] < g.Routers()
    ensures |w| == |v| && Path(g, w) && w[0] == CoordOf(g, v[0]) && w[|w| - 1] == CoordOf(g, v[|v| - 1])
  {
    hide Mul, CoordOf, GridWires, Adjacent, InGrid;
    w := seq(|v|, i requires 0 <= i < |v| => CoordOf(g, v[i]));
    forall i | 0 <= i < |v| ensures v[i] < g.Routers() && InGrid(g, w[i]) {
      if i > 0 { WiresAdjacent(g, v[i - 1], v[i]); }
      RouterNumbered(g, v[i]);
    }
    forall i, j | 0 <= i < j < |w| && j == i + 1 ensures Adjacent(g, w[i], w[j]) {
      WiresAdjacent(g, v[i], v[j]);
    }
  }

  /** The number of links on a shortest way between two routers. */
  lemma HopsAreShortest(g: Grid, a: Coord, b: Coord)
    requires g.Valid() && InGrid(g, a) && InGrid(g, b)
    ensures Shortest(GridWires(g), RouterId(g, a), RouterId(g, b), Hops(g, a, b) + 1)
  {
    hide Hops, InGrid, GridWires, RouterId, CoordOf, Way, Path;
    var w := PathExists(g, a, b);
    var v := PathIsWay(g, w);
    RouterRoundTrip(g, a);
    RouterRoundTrip(g, b);
    forall v | Joins(GridWires(g), v, RouterId(g, a), RouterId(g, b)) ensures |v| >= Hops(g, a, b) + 1 {
      var w := WayIsPath(g, v);
      NoneShorter(g, w);
    }
  }

  /** The router of an endpoint, by its coordinates. */
  function RouterOf(g: Grid, id: nat): Coord
    requires g.Valid()
  {
    if g.kind == FMesh then FMeshCoords(g, id).0 else EndpointCoords(g, id).0
  }

  /** The offsets at which going round the ends is no shorter. */
  ghost predicate HalfWay(g: Grid, a: Coord, b: Coord) {
    2 * Apart(a.x, b.x) <= g.X() && 2 * Apart(a.y, b.y) <= g.Y()
  }

  /** `get_mah_distance`: the links on a shortest way through the generated table between the routers of the two
      endpoints, on every line and mesh; on a ring or torus exactly when they are at most half way round apart in each
      direction. */
  method GetMahDistance(g: Grid, id1: nat, id2: nat) returns (distance: nat)
    requires g.Valid() && id1 < Endpoints(g) && id2 < Endpoints(g)
    ensures Shortest(GridWires(g), EndAt(g, id1).0, EndAt(g, id2).0, distance + 1)
       <==> !Wraps(g) || HalfWay(g, RouterOf(g, id1), RouterOf(g, id2))
  {
    hide Mul, Div, Mod, GridWires, Shortest, EndAt, EndpointCoords, FMeshCoords, Endpoints;
    var a, b := RouterOf(g, id1), RouterOf(g, id2);
    var xDiff := if a.x > b.x then a.x - b.x else b.x - a.x;
    var yDiff := if a.y > b.y then a.y - b.y else b.y - a.y;
    var zDiff := if a.z > b.z then a.z - b.z else b.z - a.z;
    distance := xDiff + yDiff + zDiff;
    DistanceIsShortest(g, id1, id2);
  }

  lemma DistanceIsShortest(g: Grid, id1: nat, id2: nat)
    requires g.Valid() && id1 < Endpoints(g) && id2 < Endpoints(g)
    ensures var a, b := RouterOf(g, id1), RouterOf(g, id2);
      Shortest(GridWires(g), EndAt(g, id1).0, EndAt(g, id2).0, Apart(a.x, b.x) + Apart(a.y, b.y) + Apart(a.z, b.z) + 1)
      <==> !Wraps(g) || HalfWay(g, a, b)
  {
    hide Mul, Div, Mod, GridWires, Shortest, FMeshCoords, EndpointCoords, EndAt, RouterOf, RouterId, Hops, Endpoints;
    RouterInGrid(g, id1);
    RouterInGrid(g, id2);
    var a, b := RouterOf(g, id1), RouterOf(g, id2);
    HopsAreShortest(g, a, b);
    ApartIsHops(g, a, b);
    ShortestUnique(GridWires(g), RouterId(g, a), RouterId(g, b), Hops(g, a, b) + 1,
                   Apart(a.x, b.x) + Apart(a.y, b.y) + Apart(a.z, b.z) + 1);
  }

  lemma ApartIsHops(g: Grid, a: Coord, b: Coord)
    requires InGrid(g, a) && InGrid(g, b)
    ensures Apart(a.x, b.x) + Apart(a.y, b.y) + Apart(a.z, b.z) == Hops(g, a, b) <==> !Wraps(g) || HalfWay(g, a, b)
  {
  }

  lemma RouterInGrid(g: Grid, id: nat)
    requires g.Valid() && id < Endpoints(g)
    ensures InGrid(g, RouterOf(g, id)) && RouterId(g, RouterOf(g, id)) == EndAt(g, id).0
  {
    hide Mul, Div, Mod, CoordOf, RouterId;
    if id < Mul(g.Routers(), g.Locals()) {
      InnerEndpoint(g, id);
      MulComm(g.Routers(), g.Locals());
      QuotientBelow(id, g.Locals(), g.Routers());
      RouterNumbered(g, Div(id, g.Locals()));
    }
  }

  /** On a ring of three, the first and the last router are linked, and yet two apart for the distance function. */
  lemma RingOfThree()
    ensures var g, a, b := Grid(Ring, 3, 0, 1, 0), Coord(0, 0, 0), Coord(2, 0, 0);
      g.Valid() && Shortest(GridWires(g), RouterId(g, a), RouterId(g, b), 2) && Apart(a.x, b.x) == 2 && !HalfWay(g, a, b)
  {
    hide GridWires, Shortest, RouterId;
    HopsAreShortest(Grid(Ring, 3, 0, 1, 0), Coord(0, 0, 0), Coord(2, 0, 0));
  }
}
