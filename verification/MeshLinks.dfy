/** Meshes, tori, lines and rings: the generated tables. */
module MeshLinks {
  import opened Bits
  import opened Radix
  import opened FatTreeCode
  import opened MeshCode

  datatype Dir = East | West | South | North | Up | Down

  const DIRS: seq<Dir> := [East, West, South, North, Up, Down]

  function Port(g: Grid, d: Dir): nat {
    match d
    case East => EAST
    case West => WestPort(g)
    case South => SOUTH
    case North => NORTH
    case Up => UP
    case Down => DOWN
  }

  function Opposite(d: Dir): Dir {
    match d
    case East => West
    case West => East
    case South => North
    case North => South
    case Up => Down
    case Down => Up
  }

  /** Rings and tori close on themselves. */
  predicate Wraps(g: Grid) { g.kind == Ring || g.kind == Torus }

  predicate Allowed(g: Grid, d: Dir) {
    match d
    case East => true
    case West => true
    case South => g.Dim() > 1
    case North => g.Dim() > 1
    case Up => g.Dim() > 2
    case Down => g.Dim() > 2
  }

  /** Not at the border in this direction. */
  predicate Inside(g: Grid, c: Coord, d: Dir) {
    match d
    case East => c.x + 1 < g.X()
    case West => c.x > 0
    case South => c.y + 1 < g.Y()
    case North => c.y > 0
    case Up => c.z + 1 < g.Z()
    case Down => c.z > 0
  }

  function Next(g: Grid, c: Coord, d: Dir): Coord
    requires g.Valid()
  {
    match d
    case East => c.(x := if Inside(g, c, d) then c.x + 1 else 0)
    case West => c.(x := if Inside(g, c, d) then c.x - 1 else g.X() - 1)
    case South => c.(y := if Inside(g, c, d) then c.y + 1 else 0)
    case North => c.(y := if Inside(g, c, d) then c.y - 1 else g.Y() - 1)
    case Up => c.(z := if Inside(g, c, d) then c.z + 1 else 0)
    case Down => c.(z := if Inside(g, c, d) then c.z - 1 else g.Z() - 1)
  }

  /** The router at `c` has a link in direction `d`. */
  predicate Linked(g: Grid, c: Coord, d: Dir) {
    Allowed(g, d) && (Inside(g, c, d) || Wraps(g))
  }

  datatype Row = Row(r1: nat, p1: nat, r2: nat, p2: nat)

  function LinkRow(g: Grid, c: Coord, d: Dir): Row
    requires g.Valid()
  {
    Row(RouterId(g, c), Port(g, d), RouterId(g, Next(g, c, d)), Port(g, Opposite(d)))
  }

  /** A link and the way back. */
  lemma ThereAndBack(g: Grid, c: Coord, d: Dir)
    requires g.Valid() && InGrid(g, c) && Linked(g, c, d)
    ensures InGrid(g, Next(g, c, d)) && Linked(g, Next(g, c, d), Opposite(d))
    ensures Next(g, Next(g, c, d), Opposite(d)) == c
  {
  }

  lemma LinkFields(g: Grid, c: Coord, d: Dir)
    requires g.Valid() && Linked(g, c, d)
    ensures Allowed(g, d) && LinkRow(g, c, d).r1 == RouterId(g, c) && LinkRow(g, c, d).p1 == Port(g, d)
  {
  }

  lemma PortsDiffer(g: Grid, d: Dir, e: Dir)
    requires Allowed(g, d) && Allowed(g, e) && Port(g, d) == Port(g, e)
    ensures d == e
  {
  }

  // ---------- the router-to-router table ----------

  function RowsTo(g: Grid, c: Coord, ds: seq<Dir>): seq<Row>
    requires g.Valid()
  {
    if ds == [] then []
    else RowsTo(g, c, ds[..|ds| - 1]) + if Linked(g, c, ds[|ds| - 1]) then [LinkRow(g, c, ds[|ds| - 1])] else []
  }

  /** The rows of the first `n` routers. */
  function Table(g: Grid, n: nat): seq<Row>
    requires g.Valid()
  {
    if n == 0 then [] else Table(g, n - 1) + RowsTo(g, CoordOf(g, n - 1), DIRS)
  }

  lemma {:induction false} InRowsTo(g: Grid, c: Coord, ds: seq<Dir>, row: Row)
    requires g.Valid()
    ensures row in RowsTo(g, c, ds) <==> exists d :: d in ds && Linked(g, c, d) && row == LinkRow(g, c, d)
  {
    hide LinkRow, Linked;
    if ds != [] {
      InRowsTo(g, c, ds[..|ds| - 1], row);
      assert ds == ds[..|ds| - 1] + [ds[|ds| - 1]];
    }
  }

  ghost predicate IsLink(g: Grid, c: Coord, d: Dir, row: Row)
    requires g.Valid()
  {
    InGrid(g, c) && Linked(g, c, d) && row == LinkRow(g, c, d)
  }

  lemma AllDirs(d: Dir)
    ensures d in DIRS
  {
    assert DIRS[0] == East && DIRS[1] == West && DIRS[2] == South && DIRS[3] == North && DIRS[4] == Up && DIRS[5] == Down;
  }

  lemma {:induction false} InTable(g: Grid, n: nat, row: Row)
    requires g.Valid() && n <= g.Routers()
    ensures row in Table(g, n) <==> exists c, d :: RouterId(g, c) < n && IsLink(g, c, d, row)
  {
    hide Mul, Div, Mod, LinkRow, Linked, RowsTo, CoordOf;
    if n > 0 {
      InTable(g, n - 1, row);
      var c0 := CoordOf(g, n - 1);
      RouterNumbered(g, n - 1);
      InRowsTo(g, c0, DIRS, row);
      if row in RowsTo(g, c0, DIRS) {
        var d :| d in DIRS && Linked(g, c0, d) && row == LinkRow(g, c0, d);
        assert IsLink(g, c0, d, row);
      }
      if c, d :| RouterId(g, c) < n && IsLink(g, c, d, row) {
        RouterRoundTrip(g, c);
        AllDirs(d);
      }
    }
  }

  lemma InWholeTable(g: Grid, row: Row)
    requires g.Valid()
    ensures row in Table(g, g.Routers()) <==> exists c, d :: IsLink(g, c, d, row)
  {
    hide Mul, LinkRow, Linked, Table;
    InTable(g, g.Routers(), row);
    if c, d :| IsLink(g, c, d, row) { RouterRoundTrip(g, c); }
  }

  /** The table is symmetric, and uses each router port at most once. */
  lemma TableSymmetric(g: Grid, row: Row)
    requires g.Valid() && row in Table(g, g.Routers())
    ensures Row(row.r2, row.p2, row.r1, row.p1) in Table(g, g.Routers())
    ensures forall row' :: row' in Table(g, g.Routers()) && row'.r1 == row.r1 && row'.p1 == row.p1 ==> row' == row
  {
    hide Mul, Linked, Table, Next, Port, Allowed;
    InWholeTable(g, row);
    var c, d :| IsLink(g, c, d, row);
    ThereAndBack(g, c, d);
    var back := Row(row.r2, row.p2, row.r1, row.p1);
    InWholeTable(g, back);
    assert Opposite(Opposite(d)) == d;
    assert IsLink(g, Next(g, c, d), Opposite(d), back);
    forall row' | row' in Table(g, g.Routers()) && row'.r1 == row.r1 && row'.p1 == row.p1 ensures row' == row {
      InWholeTable(g, row');
      var c', d' :| IsLink(g, c', d', row');
      RouterRoundTrip(g, c);
      RouterRoundTrip(g, c');
      LinkFields(g, c, d);
      LinkFields(g, c', d');
      PortsDiffer(g, d, d');
    }
  }

  /** The row joins port `p1` of one router to port `p2` of another. */
  ghost predicate LeadsTo(row: Row, r1: nat, p1: nat, r2: nat, p2: nat) {
    row.r1 == r1 && row.p1 == p1 && row.r2 == r2 && row.p2 == p2
  }

  /** The ports by number: 1 east, 2 north, 3 west, 4 south, 5 up, 6 down, but 2 west in one dimension. A link leads to
      the port of the opposite direction at the next router, whose number is one more or less, a row more or less, or a
      floor more or less, as long as it does not wrap. */
  lemma LinkNumbers(g: Grid, c: Coord)
    requires g.Valid() && InGrid(g, c)
    ensures c.x + 1 < g.X() ==> LeadsTo(LinkRow(g, c, East), RouterId(g, c), 1, RouterId(g, c) + 1, if g.OneDim() then 2 else 3)
    ensures c.y + 1 < g.Y() ==> LeadsTo(LinkRow(g, c, South), RouterId(g, c), 4, RouterId(g, c) + g.X(), 2)
    ensures c.z + 1 < g.Z() ==> LeadsTo(LinkRow(g, c, Up), RouterId(g, c), 5, RouterId(g, c) + Mul(g.X(), g.Y()), 6)
  {
    hide Mul;
    RowBelow(g, c);
    FloorAbove(g, c);
  }

  /** And the way back. */
  lemma BackNumbers(g: Grid, c: Coord)
    requires g.Valid() && InGrid(g, c)
    ensures c.x > 0 ==>
      RouterId(g, c) >= 1 && LeadsTo(LinkRow(g, c, West), RouterId(g, c), if g.OneDim() then 2 else 3, RouterId(g, c) - 1, 1)
    ensures c.y > 0 ==> RouterId(g, c) >= g.X() && LeadsTo(LinkRow(g, c, North), RouterId(g, c), 2, RouterId(g, c) - g.X(), 4)
    ensures c.z > 0 ==>
      RouterId(g, c) >= Mul(g.X(), g.Y()) && LeadsTo(LinkRow(g, c, Down), RouterId(g, c), 6, RouterId(g, c) - Mul(g.X(), g.Y()), 5)
  {
    hide Mul;
    if c.y > 0 { RowBelow(g, c.(y := c.y - 1)); }
    if c.z > 0 { FloorAbove(g, c.(z := c.z - 1)); }
  }

  lemma RowBelow(g: Grid, c: Coord)
    ensures RouterId(g, c.(y := c.y + 1)) == RouterId(g, c) + g.X()
  {
    hide Mul;
    MulComm(c.y, g.X());
    MulComm(c.y + 1, g.X());
    MulAdd(g.X(), c.y, 1);
    MulUnits(g.X());
  }

  lemma FloorAbove(g: Grid, c: Coord)
    ensures RouterId(g, c.(z := c.z + 1)) == RouterId(g, c) + Mul(g.X(), g.Y())
  {
    hide Mul;
    MulComm(c.z, g.Y());
    MulComm(c.z + 1, g.Y());
    MulAdd(g.Y(), c.z, 1);
    MulUnits(g.Y());
    MulComm(Mul(g.Y(), c.z), g.X());
    MulComm(Mul(g.Y(), c.z + 1), g.X());
    MulAdd(g.X(), Mul(g.Y(), c.z), g.Y());
  }

  // ---------- grounded ports ----------

  /** At the border of a mesh or line a port is tied to ground. */
  predicate Grounded(g: Grid, c: Coord, d: Dir) {
    Allowed(g, d) && !Inside(g, c, d) && !Wraps(g) && g.kind != FMesh
  }

  /** The ports of one router that are grounded in some directions, in order. */
  function GroundsTo(g: Grid, c: Coord, ds: seq<Dir>): seq<(nat, nat)> {
    if ds == [] then []
    else GroundsTo(g, c, ds[..|ds| - 1])
         + if Grounded(g, c, ds[|ds| - 1]) then [(RouterId(g, c), Port(g, ds[|ds| - 1]))] else []
  }

  /** The grounded ports of the first `n` routers. */
  function Grounds(g: Grid, n: nat): seq<(nat, nat)>
    requires g.Valid()
  {
    if n == 0 then [] else Grounds(g, n - 1) + GroundsTo(g, CoordOf(g, n - 1), DIRS)
  }

  lemma {:induction false} InGroundsTo(g: Grid, c: Coord, ds: seq<Dir>, at: (nat, nat))
    ensures at in GroundsTo(g, c, ds) <==> exists d :: d in ds && Grounded(g, c, d) && at == (RouterId(g, c), Port(g, d))
  {
    hide Grounded, RouterId, Port;
    if ds != [] {
      InGroundsTo(g, c, ds[..|ds| - 1], at);
      assert ds == ds[..|ds| - 1] + [ds[|ds| - 1]];
    }
  }

  lemma {:induction false} InGrounds(g: Grid, n: nat, c: Coord, d: Dir)
    requires g.Valid() && n <= g.Routers() && InGrid(g, c) && Allowed(g, d)
    ensures (RouterId(g, c), Port(g, d)) in Grounds(g, n) <==> RouterId(g, c) < n && Grounded(g, c, d)
  {
    hide Mul, Div, Mod, GroundsTo, CoordOf, RouterId, Inside, Wraps, Port;
    if n > 0 {
      InGrounds(g, n - 1, c, d);
      RouterNumbered(g, n - 1);
      RouterRoundTrip(g, c);
      var c0 := CoordOf(g, n - 1);
      InGroundsTo(g, c0, DIRS, (RouterId(g, c), Port(g, d)));
      AllDirs(d);
      if e :| e in DIRS && Grounded(g, c0, e) && (RouterId(g, c), Port(g, d)) == (RouterId(g, c0), Port(g, e)) {
        PortsDiffer(g, d, e);
      }
    }
  }

  /** Every port towards a direction is used exactly once: by a link, by an edge endpoint, or by the ground. */
  lemma PortsPartitioned(g: Grid, c: Coord, d: Dir)
    requires g.Valid() && InGrid(g, c) && Allowed(g, d)
    ensures var at := (RouterId(g, c), Port(g, d));
      var linked := exists row :: row in Table(g, g.Routers()) && (row.r1, row.p1) == at;
      var ended := exists id: nat :: id < Endpoints(g) && EndAt(g, id) == at;
      var grounded := at in Grounds(g, g.Routers());
      && (linked || ended || grounded)
      && !(linked && ended) && !(linked && grounded) && !(ended && grounded)
  {
    hide Mul, Div, Mod, Table, EndAt, LinkRow, Endpoints, CoordOf, RouterId, Grounds, EdgeEndpoint, Inside, Port;
    var at := (RouterId(g, c), Port(g, d));
    RouterRoundTrip(g, c);
    InGrounds(g, g.Routers(), c, d);
    if row :| row in Table(g, g.Routers()) && (row.r1, row.p1) == at {
      InWholeTable(g, row);
      var c', d' :| IsLink(g, c', d', row);
      RouterRoundTrip(g, c');
      LinkFields(g, c', d');
      PortsDiffer(g, d, d');
    }
    if Linked(g, c, d) {
      LinkFields(g, c, d);
      InWholeTable(g, LinkRow(g, c, d));
      assert IsLink(g, c, d, LinkRow(g, c, d));
    }
    if IsEdge(g, c, d) { EdgeEnd(g, c, d); }
    if id: nat :| id < Endpoints(g) && EndAt(g, id) == at { EndAtEdge(g, c, d, id); }
  }

  /** An endpoint on a port towards a direction is an edge endpoint. */
  lemma EndAtEdge(g: Grid, c: Coord, d: Dir, id: nat)
    requires g.Valid() && InGrid(g, c) && Allowed(g, d) && id < Endpoints(g) && EndAt(g, id) == (RouterId(g, c), Port(g, d))
    ensures IsEdge(g, c, d)
  {
    hide Mul, Div, Mod, EndAt, Endpoints, CoordOf, RouterId, EdgeEndpoint, EndpointId;
    EndKind(g, id);
    RouterRoundTrip(g, c);
    if e :| IsEdge(g, c, e) && Port(g, d) == Port(g, e) {
      PortsDiffer(g, d, e);
    }
  }

  // ---------- the router-to-endpoint table ----------

  /** Where an endpoint is attached: its router, and a local port, or in an fmesh an edge port. */
  function EndAt(g: Grid, id: nat): (nat, nat)
    requires g.Valid()
  {
    if g.kind == FMesh then var (c, p) := FMeshCoords(g, id); (RouterId(g, c), p)
    else (Div(id, g.Locals()), if Mod(id, g.Locals()) == 0 then LOCAL else Mod(id, g.Locals()) + Channels(g))
  }

  /** The edge endpoint of an fmesh router in direction `d`. */
  function EdgeEndpoint(g: Grid, c: Coord, d: Dir): nat {
    Mul(g.Routers(), g.t3)
    + match d
      case East => 2 * g.t1 + g.t2 + c.y
      case West => 2 * g.t1 + c.y
      case South => g.t1 + c.x
      case _ => c.x
  }

  predicate IsEdge(g: Grid, c: Coord, d: Dir) {
    g.kind == FMesh && d != Up && d != Down && !Inside(g, c, d)
  }

  lemma LocalEnd(g: Grid, c: Coord, l: nat)
    requires g.Valid() && InGrid(g, c) && l < g.Locals()
    ensures EndpointId(g, c, l) < Endpoints(g)
    ensures EndAt(g, EndpointId(g, c, l)) == (RouterId(g, c), if l == 0 then LOCAL else l + Channels(g))
  {
    hide Mul, Div, Mod;
    var r := RouterId(g, c);
    RouterRoundTrip(g, c);
    MulComm(r, g.Locals());
    DivModUnique(EndpointId(g, c, l), g.Locals(), r, l);
    MulBelow(g.Locals(), r, g.Routers(), l);
    MulComm(g.Routers(), g.Locals());
  }

  lemma EdgeEnd(g: Grid, c: Coord, d: Dir)
    requires g.Valid() && InGrid(g, c) && IsEdge(g, c, d)
    ensures EdgeEndpoint(g, c, d) < Endpoints(g) && EndAt(g, EdgeEndpoint(g, c, d)) == (RouterId(g, c), Port(g, d))
  {
    hide Mul, RouterId;
  }

  /** The numbers of endpoints and where they are: `l` per router, router by router, the first at port 0, the others
      behind the ports of the links; in an fmesh then those of the northern (port 2), southern (4), western (3) and
      eastern (1) edge. */
  lemma EndNumbers(g: Grid, c: Coord, l: nat)
    requires g.Valid() && InGrid(g, c) && l < g.Locals()
    ensures var r := RouterId(g, c);
      EndAt(g, Mul(r, g.Locals()) + l) == (r, if l == 0 then 0 else l + (if g.OneDim() then 2 else if g.kind == Mesh3D then 6 else 4))
  {
    LocalEnd(g, c, l);
    hide Mul, EndAt, RouterId;
  }

  lemma EdgeNumbers(g: Grid, x: nat, y: nat)
    requires g.Valid() && g.kind == FMesh && x < g.t1 && y < g.t2
    ensures var n := Mul(Mul(Mul(g.t1, g.t2), 1), g.t3);
      && EndAt(g, n + x) == (RouterId(g, Coord(x, 0, 0)), 2)
      && EndAt(g, n + g.t1 + x) == (RouterId(g, Coord(x, g.t2 - 1, 0)), 4)
      && EndAt(g, n + 2 * g.t1 + y) == (RouterId(g, Coord(0, y, 0)), 3)
      && EndAt(g, n + 2 * g.t1 + g.t2 + y) == (RouterId(g, Coord(g.t1 - 1, y, 0)), 1)
  {
    hide Mul, RouterId;
  }

  /** Every endpoint is a local one of some router, or an edge one. */
  lemma EndsCovered(g: Grid, id: nat)
    requires g.Valid() && id < Endpoints(g)
    ensures (exists c, l: nat :: InGrid(g, c) && l < g.Locals() && id == EndpointId(g, c, l))
         || (exists c, d :: InGrid(g, c) && IsEdge(g, c, d) && id == EdgeEndpoint(g, c, d))
  {
    hide Mul, Div, Mod;
    if id < Mul(g.Routers(), g.Locals()) {
      InnerEndpoint(g, id);
      var (c, l) := EndpointCoords(g, id);
      assert InGrid(g, c) && l < g.Locals() && id == EndpointId(g, c, l);
    } else {
      var (c, p) := FMeshCoords(g, id);
      var edge := id - Mul(g.Routers(), g.t3);
      var d := if edge < g.t1 then North else if edge < 2 * g.t1 then South else if edge < 2 * g.t1 + g.t2 then West else East;
      assert InGrid(g, c) && IsEdge(g, c, d) && id == EdgeEndpoint(g, c, d);
    }
  }

  /** No two endpoints share a router port, and none is on the port of a link. */
  lemma EndPortsOnce(g: Grid, id: nat, id': nat, row: Row)
    requires g.Valid() && id < Endpoints(g) && id' < Endpoints(g) && row in Table(g, g.Routers())
    ensures EndAt(g, id) == EndAt(g, id') ==> id == id'
    ensures EndAt(g, id) != (row.r1, row.p1)
  {
    hide Mul, Div, Mod, Table, EndAt, LinkRow, Endpoints;
    EndKind(g, id);
    EndKind(g, id');
    InWholeTable(g, row);
    var c, d :| IsLink(g, c, d, row);
    LinkFields(g, c, d);
    RouterRoundTrip(g, c);
  }

  /** An endpoint's router and port give it back: the ports are local, or edge ports without a link. */
  lemma EndKind(g: Grid, id: nat)
    requires g.Valid() && id < Endpoints(g)
    ensures var (r, p) := EndAt(g, id);
      && r < g.Routers()
      && var c := CoordOf(g, r);
         (p == 0 && id == EndpointId(g, c, 0))
         || (p > Channels(g) && id == EndpointId(g, c, p - Channels(g)))
         || exists d :: IsEdge(g, c, d) && p == Port(g, d) && id == EdgeEndpoint(g, c, d)
  {
    hide Mul, Div, Mod, EndAt, Endpoints, CoordOf;
    EndsCovered(g, id);
    if c, l: nat :| InGrid(g, c) && l < g.Locals() && id == EndpointId(g, c, l) {
      LocalEnd(g, c, l);
      RouterRoundTrip(g, c);
    } else {
      var c, d :| InGrid(g, c) && IsEdge(g, c, d) && id == EdgeEndpoint(g, c, d);
      EdgeEnd(g, c, d);
      RouterRoundTrip(g, c);
    }
  }

  // ---------- the generator ----------

  /** The endpoints attached so far: those of the first `n` routers, and of the router at `c` the first `l` local ones
      and the edge ones of the directions `ds`. */
  ghost predicate Attached(g: Grid, id: nat, n: nat, c: Coord, l: nat, ds: seq<Dir>)
    requires g.Valid()
  {
    && id < Endpoints(g)
    && (EndAt(g, id).0 < n
        || (exists k: nat :: k < l && id == EndpointId(g, c, k))
        || exists d :: d in ds && IsEdge(g, c, d) && id == EdgeEndpoint(g, c, d))
  }

  ghost predicate EndsOk(g: Grid, r2e: map<nat, (nat, nat)>, n: nat, c: Coord, l: nat, ds: seq<Dir>)
    requires g.Valid()
  {
    && (forall id: nat :: id in r2e <==> Attached(g, id, n, c, l, ds))
    && forall id :: id in r2e ==> r2e[id] == EndAt(g, id)
  }

  /** The endpoints of the first `n` routers are attached. */
  ghost predicate EndsDone(g: Grid, r2e: map<nat, (nat, nat)>, n: nat)
    requires g.Valid()
  {
    && (forall id: nat :: id in r2e <==> id < Endpoints(g) && EndAt(g, id).0 < n)
    && forall id :: id in r2e ==> r2e[id] == EndAt(g, id)
  }

  lemma RouterBegun(g: Grid, r2e: map<nat, (nat, nat)>, n: nat, c: Coord)
    requires g.Valid() && EndsDone(g, r2e, n)
    ensures EndsOk(g, r2e, n, c, 0, [])
  {
    hide EndAt, Endpoints;
  }

  /** With its local ports and all its directions, a router is finished. */
  lemma RouterFinished(g: Grid, r2e: map<nat, (nat, nat)>, n: nat, c: Coord, ds: seq<Dir>)
    requires g.Valid() && InGrid(g, c) && n == RouterId(g, c)
    requires forall d :: Allowed(g, d) ==> d in ds
    requires EndsOk(g, r2e, n, c, g.Locals(), ds)
    ensures EndsDone(g, r2e, n + 1)
  {
    hide Mul, Div, Mod, EndAt, Endpoints, CoordOf, EdgeEndpoint, EndpointId;
    forall id: nat | id < Endpoints(g) ensures EndAt(g, id).0 < n + 1 <==> Attached(g, id, n, c, g.Locals(), ds) {
      if k: nat :| k < g.Locals() && id == EndpointId(g, c, k) { LocalEnd(g, c, k); }
      if d :| d in ds && IsEdge(g, c, d) && id == EdgeEndpoint(g, c, d) { EdgeEnd(g, c, d); }
      if EndAt(g, id).0 == n { OwnEnd(g, c, id); }
    }
  }

  lemma OwnEnd(g: Grid, c: Coord, id: nat)
    requires g.Valid() && InGrid(g, c) && id < Endpoints(g) && EndAt(g, id).0 == RouterId(g, c)
    ensures (exists k: nat :: k < g.Locals() && id == EndpointId(g, c, k))
         || exists d :: Allowed(g, d) && IsEdge(g, c, d) && id == EdgeEndpoint(g, c, d)
  {
    hide Mul, Div, Mod, EndAt, Endpoints, CoordOf, EdgeEndpoint;
    EndsCovered(g, id);
    RouterRoundTrip(g, c);
    if b, l: nat :| InGrid(g, b) && l < g.Locals() && id == EndpointId(g, b, l) {
      LocalEnd(g, b, l);
      RouterRoundTrip(g, b);
    } else {
      var b, d :| InGrid(g, b) && IsEdge(g, b, d) && id == EdgeEndpoint(g, b, d);
      EdgeEnd(g, b, d);
      RouterRoundTrip(g, b);
    }
  }

  /** `R_ADDR`: the coordinates of a router in bit fields. */
  function RouterAddress(g: Grid, c: Coord): nat {
    Mul(Power2(FieldBits(g.X()) + FieldBits(g.Y())), c.z) + Mul(Power2(FieldBits(g.X())), c.y) + c.x
  }

  /** Each endpoint has the address of its router. */
  ghost predicate Addressed(g: Grid, r2e: map<nat, (nat, nat)>, erAddr: map<nat, nat>)
    requires g.Valid()
  {
    erAddr.Keys == r2e.Keys && forall id :: id in r2e ==> erAddr[id] == RouterAddress(g, CoordOf(g, r2e[id].0))
  }

  /** The first `n` routers have their addresses. */
  ghost predicate Named(g: Grid, rAddr: map<nat, nat>, n: nat)
    requires g.Valid()
  {
    (forall r: nat :: r in rAddr <==> r < n) && forall r :: r in rAddr ==> rAddr[r] == RouterAddress(g, CoordOf(g, r))
  }

  /** A router's address is that of its local endpoint 0. */
  lemma RouterAddressPacked(g: Grid, c: Coord)
    requires g.Valid() && InGrid(g, c)
    ensures RouterAddress(g, c) == Pack(g, c, 0)
  {
    hide Mul, FieldBits, Power2, Pack;
    var nx, ny, nz := FieldBits(g.X()), FieldBits(g.Y()), FieldBits(g.Z());
    PackNested(g, c, 0);
    MulUnits(Power2(nx));
    MulUnits(Power2(ny));
    MulUnits(Power2(nz));
    MulUnits(Power2(nx + ny));
    MulAdd(Power2(nx), c.y, Mul(Power2(ny), c.z));
    MulAssoc(Power2(nx), Power2(ny), c.z);
    Power2Add(nx, ny);
  }

  /** One local endpoint more. */
  lemma LocalAttached(g: Grid, r2e: map<nat, (nat, nat)>, erAddr: map<nat, nat>, c: Coord, l: nat)
    requires g.Valid() && InGrid(g, c) && l < g.Locals()
    requires EndsOk(g, r2e, RouterId(g, c), c, l, []) && Addressed(g, r2e, erAddr)
    ensures var id := EndpointId(g, c, l);
      var r2e' := r2e[id := (RouterId(g, c), if l == 0 then LOCAL else l + Channels(g))];
      EndsOk(g, r2e', RouterId(g, c), c, l + 1, []) && Addressed(g, r2e', erAddr[id := RouterAddress(g, c)])
  {
    hide Mul, EndAt, Endpoints, RouterId, EndpointId, CoordOf, RouterAddress;
    RouterRoundTrip(g, c);
    LocalEnd(g, c, l);
  }

  class Topology {
    var r2r: seq<Row>
    var r2e: map<nat, (nat, nat)>
    /** Addresses of the routers, and for each endpoint that of its router. */
    var rAddr: map<nat, nat>
    var erAddr: map<nat, nat>
    /** Ports tied to ground, in the order of the calls. */
    var grounds: seq<(nat, nat)>

    constructor ()
      ensures r2r == [] && r2e == map[] && rAddr == map[] && erAddr == map[] && grounds == []
    {
      r2r, r2e, rAddr, erAddr, grounds := [], map[], map[], map[], [];
    }

    /** Direction `k` of one router: the link to the neighbour, or what `topology_edge_connect` does. */
    method Connect(g: Grid, c: Coord, k: nat, ghost n: nat, ghost before: seq<Row>, ghost earlier: seq<(nat, nat)>)
      requires g.Valid() && InGrid(g, c) && k < |DIRS| && Allowed(g, DIRS[k]) && n == RouterId(g, c)
      requires EndsOk(g, r2e, n, c, g.Locals(), DIRS[..k]) && r2r == before + RowsTo(g, c, DIRS[..k])
      requires Addressed(g, r2e, erAddr) && grounds == earlier + GroundsTo(g, c, DIRS[..k])
      modifies this`r2r, this`r2e, this`erAddr, this`grounds
      ensures EndsOk(g, r2e, n, c, g.Locals(), DIRS[..k + 1]) && r2r == before + RowsTo(g, c, DIRS[..k + 1])
      ensures Addressed(g, r2e, erAddr) && grounds == earlier + GroundsTo(g, c, DIRS[..k + 1])
    {
      hide Mul, LinkRow, EndAt, EdgeEndpoint, Endpoints, EndsOk, Next, RouterId, EndpointId, RowsTo, GroundsTo;
      hide CoordOf, RouterAddress;
      RouterRoundTrip(g, c);
      var d := DIRS[k];
      RowsLast(g, c, k);
      GroundsLast(g, c, k);
      DirDone(g, r2e, n, c, DIRS[..k], d);
      assert DIRS[..k + 1] == DIRS[..k] + [d];
      if Inside(g, c, d) || Wraps(g) {
        r2r := r2r + [LinkRow(g, c, d)];
      }
      if IsEdge(g, c, d) {
        r2e := r2e[EdgeEndpoint(g, c, d) := (RouterId(g, c), Port(g, d))];
        erAddr := erAddr[EdgeEndpoint(g, c, d) := RouterAddress(g, c)];
      }
      if Grounded(g, c, d) {
        grounds := grounds + [(RouterId(g, c), Port(g, d))];
      }
    }

    method AttachLocals(g: Grid, c: Coord)
      requires g.Valid() && InGrid(g, c) && EndsOk(g, r2e, RouterId(g, c), c, 0, []) && Addressed(g, r2e, erAddr)
      modifies this`r2e, this`erAddr
      ensures EndsOk(g, r2e, RouterId(g, c), c, g.Locals(), []) && Addressed(g, r2e, erAddr)
    {
      hide Mul, EndAt, Endpoints, RouterId, EndpointId, CoordOf, RouterAddress, EndsOk, Addressed;
      for l := 0 to g.Locals()
        invariant EndsOk(g, r2e, RouterId(g, c), c, l, []) && Addressed(g, r2e, erAddr)
      {
        LocalAttached(g, r2e, erAddr, c, l);
        r2e := r2e[EndpointId(g, c, l) := (RouterId(g, c), if l == 0 then LOCAL else l + Channels(g))];
        erAddr := erAddr[EndpointId(g, c, l) := RouterAddress(g, c)];
      }
    }

    /** The endpoints and links of one router. */
    method ConnectRouter(g: Grid, c: Coord)
      requires g.Valid() && InGrid(g, c) && EndsDone(g, r2e, RouterId(g, c))
      requires Addressed(g, r2e, erAddr) && Named(g, rAddr, RouterId(g, c))
      modifies this
      ensures r2r == old(r2r) + RowsTo(g, c, DIRS) && grounds == old(grounds) + GroundsTo(g, c, DIRS)
      ensures EndsDone(g, r2e, RouterId(g, c) + 1)
      ensures Addressed(g, r2e, erAddr) && Named(g, rAddr, RouterId(g, c) + 1)
    {
      hide Mul, EndsOk, EndsDone, RouterId, RowsTo, GroundsTo, CoordOf, RouterAddress, Addressed;
      RouterRoundTrip(g, c);
      rAddr := rAddr[RouterId(g, c) := RouterAddress(g, c)];
      RouterBegun(g, r2e, RouterId(g, c), c);
      AttachLocals(g, c);
      ConnectLinks(g, c);
    }

    method ConnectLinks(g: Grid, c: Coord)
      requires g.Valid() && InGrid(g, c) && EndsOk(g, r2e, RouterId(g, c), c, g.Locals(), []) && Addressed(g, r2e, erAddr)
      modifies this`r2r, this`r2e, this`erAddr, this`grounds
      ensures r2r == old(r2r) + RowsTo(g, c, DIRS) && grounds == old(grounds) + GroundsTo(g, c, DIRS)
      ensures EndsDone(g, r2e, RouterId(g, c) + 1) && Addressed(g, r2e, erAddr)
    {
      hide Mul, LinkRow, EndAt, EdgeEndpoint, Endpoints, EndsOk, EndsDone, Linked, RouterId, RowsTo, GroundsTo, Addressed;
      ghost var n, before, earlier := RouterId(g, c), r2r, grounds;
      RowsLast(g, c, 0);
      GroundsLast(g, c, 0);
      assert DIRS[..0] == [] && DIRS[..6] == DIRS && before + [] == before && earlier + [] == earlier;
      Connect(g, c, 0, n, before, earlier);
      Connect(g, c, 1, n, before, earlier);
      if g.Dim() > 1 {
        Connect(g, c, 2, n, before, earlier);
        Connect(g, c, 3, n, before, earlier);
      }
      if g.Dim() > 2 {
        Connect(g, c, 4, n, before, earlier);
        Connect(g, c, 5, n, before, earlier);
      }
      RowsSkipped(g, c);
      GroundsSkipped(g, c);
      AllowedDirs(g);
      RouterFinished(g, r2e, n, c, if g.Dim() == 1 then DIRS[..2] else if g.Dim() == 2 then DIRS[..4] else DIRS[..6]);
    }

    /** The first `n` routers are done. */
    ghost predicate Built(g: Grid, n: nat)
      requires g.Valid()
      reads this
    {
      && r2r == Table(g, n) && grounds == Grounds(g, n) && EndsDone(g, r2e, n)
      && Addressed(g, r2e, erAddr) && Named(g, rAddr, n)
    }

    /** `topology_init`. */
    method TopologyInit(g: Grid)
      requires g.Valid()
      modifies this
      ensures r2r == Table(g, g.Routers()) && grounds == Grounds(g, g.Routers())
      ensures forall id: nat :: id in r2e <==> id < Endpoints(g)
      ensures forall id :: id in r2e ==> r2e[id] == EndAt(g, id)
      ensures Addressed(g, r2e, erAddr) && Named(g, rAddr, g.Routers())
    {
      hide Mul, LinkRow, EndAt, Endpoints, RowsTo, EndsDone, CoordOf, GroundsTo, Addressed, Named;
      r2r, r2e, rAddr, erAddr, grounds := [], map[], map[], map[], [];
      Numbering(g, Coord(0, 0, 0));
      NothingDone(g);
      for z := 0 to g.Z()
        invariant Built(g, RouterId(g, Coord(0, 0, z)))
      {
        for y := 0 to g.Y()
          invariant Built(g, RouterId(g, Coord(0, y, z)))
        {
          for x := 0 to g.X()
            invariant Built(g, RouterId(g, Coord(x, y, z)))
          {
            Numbering(g, Coord(x, y, z));
            RouterRoundTrip(g, Coord(x, y, z));
            ConnectRouter(g, Coord(x, y, z));
          }
          Numbering(g, Coord(0, y, z));
        }
        Numbering(g, Coord(0, 0, z));
      }
      Numbering(g, Coord(0, 0, 0));
      AllEnds(g, r2e);
    }
  }

  /** One direction more, with its edge endpoint if it has one. */
  lemma DirDone(g: Grid, r2e: map<nat, (nat, nat)>, n: nat, c: Coord, ds: seq<Dir>, d: Dir)
    requires g.Valid() && InGrid(g, c) && n == RouterId(g, c) && EndsOk(g, r2e, n, c, g.Locals(), ds)
    ensures var id := EdgeEndpoint(g, c, d);
      EndsOk(g, if IsEdge(g, c, d) then r2e[id := (n, Port(g, d))] else r2e, n, c, g.Locals(), ds + [d])
  {
    hide Mul, EndAt, EdgeEndpoint, Endpoints, RouterId, EndpointId, IsEdge;
    if IsEdge(g, c, d) { EdgeEnd(g, c, d); }
    forall e ensures e in ds + [d] <==> e in ds || e == d {
    }
  }

  lemma DirPrefixes()
    ensures DIRS[..0] == [] && DIRS[..6] == DIRS
    ensures DIRS[..1] == DIRS[..0] + [East] && DIRS[..2] == DIRS[..1] + [West] && DIRS[..3] == DIRS[..2] + [South]
    ensures DIRS[..4] == DIRS[..3] + [North] && DIRS[..5] == DIRS[..4] + [Up] && DIRS[..6] == DIRS[..5] + [Down]
  {
  }

  lemma AllowedDirs(g: Grid)
    ensures forall d :: Allowed(g, d) ==>
      d in if g.Dim() == 1 then DIRS[..2] else if g.Dim() == 2 then DIRS[..4] else DIRS[..6]
  {
    forall d | Allowed(g, d)
      ensures d in if g.Dim() == 1 then DIRS[..2] else if g.Dim() == 2 then DIRS[..4] else DIRS[..6]
    {
      DirPrefixes();
      AllDirs(d);
    }
  }

  /** Directions a grid does not have add no rows. */
  lemma RowsSkipped(g: Grid, c: Coord)
    requires g.Valid()
    ensures g.Dim() == 1 ==> RowsTo(g, c, DIRS[..2]) == RowsTo(g, c, DIRS)
    ensures g.Dim() == 2 ==> RowsTo(g, c, DIRS[..4]) == RowsTo(g, c, DIRS)
  {
    hide LinkRow, RowsTo;
    assert DIRS[..6] == DIRS;
    assert DIRS[2] == South && DIRS[3] == North && DIRS[4] == Up && DIRS[5] == Down;
    RowsLast(g, c, 2);
    RowsLast(g, c, 3);
    RowsLast(g, c, 4);
    RowsLast(g, c, 5);
  }

  lemma GroundsSkipped(g: Grid, c: Coord)
    ensures g.Dim() == 1 ==> GroundsTo(g, c, DIRS[..2]) == GroundsTo(g, c, DIRS)
    ensures g.Dim() == 2 ==> GroundsTo(g, c, DIRS[..4]) == GroundsTo(g, c, DIRS)
  {
    hide GroundsTo, Inside, RouterId;
    assert DIRS[..6] == DIRS;
    assert DIRS[2] == South && DIRS[3] == North && DIRS[4] == Up && DIRS[5] == Down;
    GroundsLast(g, c, 2);
    GroundsLast(g, c, 3);
    GroundsLast(g, c, 4);
    GroundsLast(g, c, 5);
  }

  lemma GroundsLast(g: Grid, c: Coord, k: nat)
    requires k < |DIRS|
    ensures GroundsTo(g, c, DIRS[..k + 1])
         == GroundsTo(g, c, DIRS[..k]) + if Grounded(g, c, DIRS[k]) then [(RouterId(g, c), Port(g, DIRS[k]))] else []
    ensures GroundsTo(g, c, DIRS[..0]) == []
  {
    hide Grounded, RouterId;
    assert DIRS[..k + 1][..k] == DIRS[..k] && DIRS[..k + 1][k] == DIRS[k];
  }

  lemma RowsLast(g: Grid, c: Coord, k: nat)
    requires g.Valid() && k < |DIRS|
    ensures RowsTo(g, c, DIRS[..k + 1])
         == RowsTo(g, c, DIRS[..k]) + if Linked(g, c, DIRS[k]) then [LinkRow(g, c, DIRS[k])] else []
    ensures RowsTo(g, c, DIRS[..0]) == []
  {
    hide LinkRow, Linked;
    assert DIRS[..k + 1][..k] == DIRS[..k] && DIRS[..k + 1][k] == DIRS[k];
  }

  /** The loops visit the routers in the order of their numbers. */
  lemma Numbering(g: Grid, c: Coord)
    requires g.Valid()
    ensures RouterId(g, Coord(0, 0, 0)) == 0 && RouterId(g, Coord(0, 0, g.Z())) == g.Routers()
    ensures RouterId(g, Coord(c.x + 1, c.y, c.z)) == RouterId(g, c) + 1
    ensures RouterId(g, Coord(g.X(), c.y, c.z)) == RouterId(g, Coord(0, c.y + 1, c.z))
    ensures RouterId(g, Coord(0, g.Y(), c.z)) == RouterId(g, Coord(0, 0, c.z + 1))
  {
    hide Mul;
    var x, y, z := g.X(), g.Y(), g.Z();
    MulUnits(x);
    MulUnits(y);
    MulUnits(c.z);
    MulComm(z, y);
    MulComm(Mul(y, z), x);
    MulAssoc(x, y, z);
    MulComm(c.y, x);
    MulComm(c.y + 1, x);
    MulAdd(x, c.y, 1);
    MulComm(c.z, y);
    MulComm(c.z + 1, y);
    MulAdd(y, c.z, 1);
    MulComm(Mul(y, c.z), x);
    MulComm(Mul(y, c.z + 1), x);
    MulAdd(x, Mul(y, c.z), y);
    MulComm(y, x);
  }

  lemma NothingDone(g: Grid)
    requires g.Valid()
    ensures EndsDone(g, map[], 0) && Addressed(g, map[], map[]) && Named(g, map[], 0)
  {
    hide EndAt, Endpoints;
  }

  lemma AllEnds(g: Grid, r2e: map<nat, (nat, nat)>)
    requires g.Valid() && EndsDone(g, r2e, g.Routers())
    ensures forall id: nat :: id in r2e <==> id < Endpoints(g)
    ensures forall id :: id in r2e ==> r2e[id] == EndAt(g, id)
  {
    hide EndAt, Endpoints, CoordOf, Mul;
    forall id: nat | id < Endpoints(g) ensures EndAt(g, id).0 < g.Routers() { EndKind(g, id); }
  }
}
