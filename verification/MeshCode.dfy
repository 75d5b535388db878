/** Meshes, tori, lines and rings: coordinates, router and endpoint numbers, and endpoint addresses. */
module MeshCode {
  import opened Bits
  import opened Radix
  import opened FatTreeCode

  datatype Kind = Line | Ring | Mesh | Torus | FMesh | Mesh3D

  /** The topology parameters as the simulator is built with them. */
  datatype Grid = Grid(kind: Kind, t1: nat, t2: nat, t3: nat, t4: nat)
  {
    predicate OneDim() { kind == Line || kind == Ring }

    function Dim(): nat { if OneDim() then 1 else if kind == Mesh3D then 3 else 2 }

    function X(): nat { t1 }

    function Y(): nat { if OneDim() then 1 else t2 }

    function Z(): nat { if kind == Mesh3D then t3 else 1 }

    /** Endpoints per router. */
    function Locals(): nat { if kind == Mesh3D then t4 else t3 }

    ghost predicate Valid() {
      X() > 0 && Y() > 0 && Z() > 0 && Locals() > 0
    }

    function Routers(): nat { Mul(Mul(X(), Y()), Z()) }
  }

  const LOCAL := 0
  const EAST := 1
  const NORTH := 2
  const SOUTH := 4
  const UP := 5
  const DOWN := 6

  function WestPort(g: Grid): nat { if g.OneDim() then 2 else 3 }

  /** Ports that lead to other routers. */
  function Channels(g: Grid): nat { if g.OneDim() then 2 else if g.kind == Mesh3D then 6 else 4 }

  datatype Coord = Coord(x: nat, y: nat, z: nat)

  ghost predicate InGrid(g: Grid, c: Coord) {
    c.x < g.X() && c.y < g.Y() && c.z < g.Z()
  }

  function RouterId(g: Grid, c: Coord): nat {
    Mul(Mul(c.z, g.Y()), g.X()) + Mul(c.y, g.X()) + c.x
  }

  function EndpointId(g: Grid, c: Coord, l: nat): nat {
    Mul(RouterId(g, c), g.Locals()) + l
  }

  /** `regular_topo_Eid_to_coords`, router part. */
  function CoordOf(g: Grid, id: nat): Coord
    requires g.Valid()
  {
    Coord(Mod(id, g.X()), Mod(Div(id, g.X()), g.Y()), Div(id, Mul(g.X(), g.Y())))
  }

  /** Router numbers and coordinates determine each other. */
  lemma RouterRoundTrip(g: Grid, c: Coord)
    requires g.Valid() && InGrid(g, c)
    ensures CoordOf(g, RouterId(g, c)) == c && RouterId(g, c) < g.Routers()
  {
    hide Mul, Div, Mod;
    var x, y := g.X(), g.Y();
    var row := Mul(y, c.z) + c.y;
    MulComm(c.z, y);
    MulComm(Mul(y, c.z), x);
    MulComm(c.y, x);
    MulAdd(x, Mul(y, c.z), c.y);
    assert RouterId(g, c) == Mul(x, row) + c.x;
    DivModUnique(RouterId(g, c), x, row, c.x);
    DivModUnique(row, y, c.z, c.y);
    DivDiv(RouterId(g, c), x, y);
    MulBelow(y, c.z, g.Z(), c.y);
    MulBelow(x, row, Mul(y, g.Z()), c.x);
    MulAssoc(x, y, g.Z());
  }

  lemma RouterNumbered(g: Grid, id: nat)
    requires g.Valid() && id < g.Routers()
    ensures InGrid(g, CoordOf(g, id)) && RouterId(g, CoordOf(g, id)) == id
  {
    hide Mul, Div, Mod;
    var x, y := g.X(), g.Y();
    var c := CoordOf(g, id);
    DivMod(id, x);
    DivMod(Div(id, x), y);
    DivDiv(id, x, y);
    QuotientBelow(id, Mul(x, y), g.Z());
    var row := Mul(y, c.z) + c.y;
    MulComm(c.z, y);
    MulComm(Mul(y, c.z), x);
    MulComm(c.y, x);
    MulAdd(x, Mul(y, c.z), c.y);
  }

  // ---------- endpoint addresses ----------

  /** `Log2`: at least one bit. */
  function FieldBits(n: nat): nat { WidthFrom(n, 1) }

  /** `regular_topo_coords_to_Eaddr`. */
  function Pack(g: Grid, c: Coord, l: nat): nat {
    var nx, ny, nz := FieldBits(g.X()), FieldBits(g.Y()), FieldBits(g.Z());
    var code0 := c.x;
    var code1 := if g.Dim() > 1 then Or(code0, Mul(Power2(nx), c.y)) else code0;
    var shift1 := if g.Dim() > 1 then nx + ny else nx;
    var code2 := if g.Dim() > 2 then Or(code1, Mul(Power2(shift1), c.z)) else code1;
    var shift2 := if g.Dim() > 2 then shift1 + nz else shift1;
    Or(code2, Mul(Power2(shift2), l))
  }

  /** `regular_topo_Eaddr_to_coords`. */
  function Unpack(g: Grid, code: nat): (Coord, nat) {
    var nx, ny, nz := FieldBits(g.X()), FieldBits(g.Y()), FieldBits(g.Z());
    var x, code1 := And(code, Power2(nx) - 1), Div(code, Power2(nx));
    var y := if g.Dim() > 1 then And(code1, Power2(ny) - 1) else 0;
    var code2 := if g.Dim() > 1 then Div(code1, Power2(ny)) else code1;
    var z := if g.Dim() > 2 then And(code2, Power2(nz) - 1) else 0;
    var code3 := if g.Dim() > 2 then Div(code2, Power2(nz)) else code2;
    (Coord(x, y, z), code3)
  }

  /** One bit field on top of others. */
  lemma Field(low: nat, n: nat, high: nat)
    requires low < Power2(n)
    ensures Or(low, Mul(Power2(n), high)) == low + Mul(Power2(n), high)
    ensures And(low + Mul(Power2(n), high), Power2(n) - 1) == low
    ensures Div(low + Mul(Power2(n), high), Power2(n)) == high
  {
    OrDisjoint(low, high, n);
    AndMask(low + Mul(Power2(n), high), n);
    hide Mul, Or, And;
    DivModUnique(low + Mul(Power2(n), high), Power2(n), high, low);
    assert (low + Mul(Power2(n), high)) % Power2(n) == Mod(low + Mul(Power2(n), high), Power2(n));
  }

  /** Two fields below the rest: written one after the other, they are nested. */
  lemma TwoFields(a: nat, m: nat, b: nat, n: nat, rest: nat)
    requires a < Power2(m) && b < Power2(n)
    ensures var inner := b + Mul(Power2(n), rest);
      Or(Or(a, Mul(Power2(m), b)), Mul(Power2(m + n), rest)) == a + Mul(Power2(m), inner)
    ensures a + Mul(Power2(m), b) < Power2(m + n)
  {
    hide Mul, Or, And, Div, Mod;
    Field(a, m, b);
    Power2Add(m, n);
    MulBelow(Power2(m), b, Power2(n), a);
    Field(a + Mul(Power2(m), b), m + n, rest);
    MulAdd(Power2(m), b, Mul(Power2(n), rest));
    MulAssoc(Power2(m), Power2(n), rest);
  }

  /** Three fields below the rest. */
  lemma ThreeFields(a: nat, m: nat, b: nat, n: nat, d: nat, k: nat, rest: nat)
    requires a < Power2(m) && b < Power2(n) && d < Power2(k)
    ensures var inner := b + Mul(Power2(n), d + Mul(Power2(k), rest));
      Or(Or(Or(a, Mul(Power2(m), b)), Mul(Power2(m + n), d)), Mul(Power2(m + n + k), rest)) == a + Mul(Power2(m), inner)
  {
    hide Mul, Or, And, Div, Mod;
    var ab, dr := a + Mul(Power2(m), b), d + Mul(Power2(k), rest);
    Field(a, m, b);
    TwoFields(a, m, b, n, 0);
    TwoFields(ab, m + n, d, k, rest);
    Power2Add(m, n);
    MulAssoc(Power2(m), Power2(n), dr);
    MulAdd(Power2(m), b, Mul(Power2(n), dr));
  }

  /** The address is nested: each field above the ones before. */
  lemma PackNested(g: Grid, c: Coord, l: nat)
    requires g.Valid() && InGrid(g, c)
    ensures var nx, ny, nz := FieldBits(g.X()), FieldBits(g.Y()), FieldBits(g.Z());
      Pack(g, c, l) == c.x + Mul(Power2(nx),
        if g.Dim() == 1 then l else c.y + Mul(Power2(ny), if g.Dim() == 2 then l else c.z + Mul(Power2(nz), l)))
  {
    var nx, ny, nz := FieldBits(g.X()), FieldBits(g.Y()), FieldBits(g.Z());
    FieldsFit(g, c);
    hide Mul, Or, And, Div, Mod, FieldBits, Power2;
    match g.Dim()
    case 1 => Field(c.x, nx, l);
    case 2 => TwoFields(c.x, nx, c.y, ny, l);
    case _ => ThreeFields(c.x, nx, c.y, ny, c.z, nz, l);
  }

  /** The bits of an address: from the lowest `nx` for x, above them in two dimensions `ny` for y, in three `nz` for z, and
      on top the local port, each field as narrow as its range allows, but of one bit at least. */
  lemma PackFields(g: Grid, c: Coord, l: nat, nx: nat, ny: nat, nz: nat)
    requires g.Valid() && InGrid(g, c) && Least(g.X(), nx) && Least(g.Y(), ny) && Least(g.Z(), nz)
    ensures g.kind in {Line, Ring} ==> Pack(g, c, l) == c.x + Mul(Power2(nx), l)
    ensures g.kind in {Mesh, Torus, FMesh} ==> Pack(g, c, l) == c.x + Mul(Power2(nx), c.y + Mul(Power2(ny), l))
    ensures g.kind == Mesh3D ==> Pack(g, c, l) == c.x + Mul(Power2(nx), c.y + Mul(Power2(ny), c.z + Mul(Power2(nz), l)))
  {
    hide Mul, Pack, Power2, WidthFrom, Least;
    LeastWidth(g.X(), nx);
    LeastWidth(g.Y(), ny);
    LeastWidth(g.Z(), nz);
    PackNested(g, c, l);
  }

  /** Addresses lose nothing: not even a local port beyond the range is cut off. */
  lemma PackRoundTrip(g: Grid, c: Coord, l: nat)
    requires g.Valid() && InGrid(g, c)
    ensures Unpack(g, Pack(g, c, l)) == (c, l)
  {
    hide Mul, Or, And, Div, Mod, FieldBits, Power2, Pack;
    PackNested(g, c, l);
    FieldsFit(g, c);
    var nx, ny, nz := FieldBits(g.X()), FieldBits(g.Y()), FieldBits(g.Z());
    match g.Dim()
    case 1 =>
      Field(c.x, nx, l);
    case 2 =>
      Field(c.y, ny, l);
      Field(c.x, nx, c.y + Mul(Power2(ny), l));
    case _ =>
      var zl := c.z + Mul(Power2(nz), l);
      Field(c.z, nz, l);
      Field(c.y, ny, zl);
      Field(c.x, nx, c.y + Mul(Power2(ny), zl));
  }

  lemma FieldsFit(g: Grid, c: Coord)
    requires InGrid(g, c)
    ensures c.x < Power2(FieldBits(g.X())) && c.y < Power2(FieldBits(g.Y())) && c.z < Power2(FieldBits(g.Z()))
  {
  }

  // ---------- endpoints ----------

  /** `regular_topo_Eid_to_coords`. */
  function EndpointCoords(g: Grid, id: nat): (Coord, nat)
    requires g.Valid()
  {
    (CoordOf(g, Div(id, g.Locals())), Mod(id, g.Locals()))
  }

  /** `fmesh_Eid_to_coords`: the inner endpoints, then the top, bottom, left and right edges. */
  function FMeshCoords(g: Grid, id: nat): (Coord, nat)
    requires g.Valid() && g.kind == FMesh
  {
    var inner := Mul(g.Routers(), g.t3);
    if id < inner then
      var (c, l) := EndpointCoords(g, id);
      (Coord(c.x, c.y, 0), if l == 0 then LOCAL else SOUTH + l)
    else
      var edge := id - inner;
      if edge < g.t1 then (Coord(edge, 0, 0), NORTH)
      else if edge < 2 * g.t1 then (Coord(edge - g.t1, g.t2 - 1, 0), SOUTH)
      else if edge < 2 * g.t1 + g.t2 then (Coord(0, edge - 2 * g.t1, 0), WestPort(g))
      else (Coord(g.t1 - 1, edge - 2 * g.t1 - g.t2, 0), EAST)
  }

  /** All endpoints; an fmesh has one more on every edge port. */
  function Endpoints(g: Grid): nat {
    Mul(g.Routers(), g.Locals()) + if g.kind == FMesh then 2 * g.t1 + 2 * g.t2 else 0
  }

  function AddressEncode(g: Grid, id: nat): nat
    requires g.Valid()
  {
    if g.kind == FMesh then var (c, p) := FMeshCoords(g, id); Pack(g, c, p)
    else var (c, l) := EndpointCoords(g, id); Pack(g, c, l)
  }

  function AddressDecode(g: Grid, code: nat): nat
    requires g.Valid()
  {
    var (c, p) := Unpack(g, code);
    if g.kind != FMesh then EndpointId(g, c, p)
    else
      var inner := Mul(g.Routers(), g.t3);
      if p == LOCAL then EndpointId(g, Coord(c.x, c.y, 0), 0)
      else if p > SOUTH then EndpointId(g, Coord(c.x, c.y, 0), p - SOUTH)
      else if p == NORTH then inner + c.x
      else if p == SOUTH then inner + g.t1 + c.x
      else if p == WestPort(g) then inner + 2 * g.t1 + c.y
      else inner + 2 * g.t1 + g.t2 + c.y
  }

  /** Decoding inverts encoding on every endpoint. */
  lemma AddressRoundTrip(g: Grid, id: nat)
    requires g.Valid() && id < Endpoints(g)
    ensures AddressDecode(g, AddressEncode(g, id)) == id
  {
    hide Mul, Div, Mod, Pack, Unpack;
    var inner := Mul(g.Routers(), g.Locals());
    if id < inner { InnerEndpoint(g, id); }
    if g.kind == FMesh {
      var (c, p) := FMeshCoords(g, id);
      assert InGrid(g, c);
      PackRoundTrip(g, c, p);
    } else {
      var (c, l) := EndpointCoords(g, id);
      PackRoundTrip(g, c, l);
    }
  }

  lemma InnerEndpoint(g: Grid, id: nat)
    requires g.Valid() && id < Mul(g.Routers(), g.Locals())
    ensures var (c, l) := EndpointCoords(g, id);
      InGrid(g, c) && l < g.Locals() && EndpointId(g, c, l) == id
  {
    hide Mul, Div, Mod;
    MulComm(g.Routers(), g.Locals());
    QuotientBelow(id, g.Locals(), g.Routers());
    RouterNumbered(g, Div(id, g.Locals()));
    DivMod(id, g.Locals());
    MulComm(Div(id, g.Locals()), g.Locals());
  }
}
