/** The k-ary fat tree: the generated link table, its routes, and the distance function. */
module FatTree {
  import opened Bits
  import opened Radix
  import opened FatTreeCode

  const WORD := 0x1_0000_0000

  /** A 32-bit unsigned value. */
  function Unsigned(x: int): nat { x % WORD }

  /** One row of the router-to-router table; `t` and `r` say which of the two router kinds, and which one of it. */
  datatype Link = Link(id1: nat, t1: nat, r1: nat, p1: nat, id2: nat, t2: nat, r2: nat, p2: nat)

  function Ti(id: nat, nr1: nat): nat { if id < nr1 then 1 else 2 }

  function Ri(id: nat, nr1: nat): nat { if id < nr1 then id else id - nr1 }

  /** There are two kinds of routers, 1 and 2, each numbered from zero; those of the first kind come first. */
  ghost predicate Names(t: nat, r: nat, id: nat, nr1: nat) {
    (t == 1 && r < nr1 && id == r) || (t == 2 && id == nr1 + r)
  }

  /** `k` ports down per router, `l` levels, routers numbered below `nr1` of the first kind. */
  datatype Shape = Shape(k: nat, l: nat, nr1: nat)
  {
    function Positions(): nat
      requires l > 0
    {
      Pow(k, l - 1)
    }

    /** All link numbers fit a word. */
    ghost predicate Fits() {
      k > 0 && l > 0 && Mul(l, 2 * Mul(k, Positions())) < WORD
    }
  }

  /** The row for one down port, as the generator computes it; `direction` is the number of channels per
      direction, which cancels. */
  function Row(s: Shape, direction: nat, level: nat, pos: nat, port: nat): Link
    requires s.Fits() && level + 1 < s.l
  {
    var (level2, pos2, port2) := Lower(s, direction, level, pos, port);
    var id1, id2 := Mul(s.Positions(), level) + pos, Mul(s.Positions(), level2) + pos2;
    Link(id1, Ti(id1, s.nr1), Ri(id1, s.nr1), port, id2, Ti(id2, s.nr1), Ri(id2, s.nr1), port2)
  }

  /** Level, position and port at the lower end. */
  function Lower(s: Shape, direction: nat, level: nat, pos: nat, port: nat): (nat, nat, nat)
    requires s.Fits() && level + 1 < s.l
  {
    var channels := 2 * Mul(s.k, s.Positions());
    var hood, branch := Pow(s.k, s.l - 1 - level), Pow(s.k, s.l - 1 - (level + 1));
    var offset := Mul(hood, s.k);
    var inHood := Mod(pos, hood);
    var link := Unsigned(Mul(level + 1, channels) - direction + Mul(Div(pos, hood), offset)
                         + Mul(Mul(port, branch), s.k) + Mul(Mod(inHood, branch), s.k) + Div(inHood, branch));
    var at := Unsigned(link + direction);
    (Div(at, channels), Div(Mod(at, channels), s.k), Mod(Mod(at, channels), s.k) + s.k)
  }

  /** Positions by their digits. */
  ghost predicate IsPosition(s: Shape, d: seq<nat>) {
    s.l > 0 && |d| == s.l - 1 && AreDigits(d, s.k)
  }

  /** Taking a number off and putting it back, in one word. */
  lemma Cancels(x: nat, c: nat)
    requires x < WORD
    ensures Unsigned(Unsigned(x - c) + c) == x
  {
    var y := Unsigned(x - c);
    assert exists q :: x - c == q * WORD + y by { assert x - c == (x - c) / WORD * WORD + y; }
  }

  /** A position around its digit `j`. */
  lemma AroundDigit(d: seq<nat>, k: nat, j: nat)
    requires k > 0 && AreDigits(d, k) && j < |d|
    ensures var r, n := ToNat(d[..j], k), ToNat(d[j + 1..], k);
      && ToNat(d, k) == Mul(Pow(k, j + 1), n) + (Mul(Pow(k, j), d[j]) + r)
      && r < Pow(k, j) && Mul(Pow(k, j), d[j]) + r < Pow(k, j + 1)
  {
    hide Mul;
    var r, n := ToNat(d[..j], k), ToNat(d[j + 1..], k);
    ToNatDigits(d[..j], k);
    ToNatDigits(d[..j + 1], k);
    assert d[..j + 1] == d[..j] + [d[j]] && d == d[..j + 1] + d[j + 1..];
    ToNatConcat(d[..j], [d[j]], k);
    ToNatOne(d[j], k);
    ToNatConcat(d[..j + 1], d[j + 1..], k);
  }

  /** The link number within its level is the position and port at the other end. */
  lemma InnerValue(k: nat, n: nat, hood: nat, branch: nat, port: nat, r: nat)
    ensures Mul(n, Mul(hood, k)) + Mul(Mul(port, branch), k) + Mul(r, k)
         == Mul(k, Mul(hood, n) + (Mul(branch, port) + r))
  {
    hide Mul;
    MulAdd(k, Mul(hood, n), Mul(branch, port) + r);
    MulAdd(k, Mul(branch, port), r);
    MulComm(n, Mul(hood, k));
    MulComm(hood, k);
    MulAssoc(k, hood, n);
    MulComm(Mul(port, branch), k);
    MulComm(port, branch);
    MulComm(r, k);
  }

  /** The butterfly: a link from level `level` exchanges one digit of the position with the port. */
  lemma RowMeaning(s: Shape, direction: nat, level: nat, d: seq<nat>, port: nat)
    requires s.Fits() && level + 1 < s.l && IsPosition(s, d) && port < s.k
    ensures var j := s.l - 2 - level;
      var row := Row(s, direction, level, ToNat(d, s.k), port);
      && row.id1 == Mul(s.Positions(), level) + ToNat(d, s.k) && row.p1 == port
      && row.id2 == Mul(s.Positions(), level + 1) + ToNat(d[j := port], s.k) && row.p2 == s.k + d[j]
      && Names(row.t1, row.r1, row.id1, s.nr1) && Names(row.t2, row.r2, row.id2, s.nr1)
      && Lower(s, direction, level, ToNat(d, s.k), port) == (level + 1, ToNat(d[j := port], s.k), s.k + d[j])
  {
    hide Mul, Div, Mod, Pow, ToNat, Unsigned;
    var k, j, pos := s.k, s.l - 2 - level, ToNat(d, s.k);
    var d2, h := d[j := port], d[j];
    var r, n, hood, branch := ToNat(d[..j], k), ToNat(d[j + 1..], k), Pow(k, j + 1), Pow(k, j);
    AroundDigit(d, k, j);
    AroundDigit(d2, k, j);
    assert d2[..j] == d[..j] && d2[j + 1..] == d[j + 1..];
    DivModUnique(pos, hood, n, Mul(branch, h) + r);
    DivModUnique(Mul(branch, h) + r, branch, h, r);
    InnerValue(k, n, hood, branch, port, r);
    var pos2 := ToNat(d2, k);
    ToNatDigits(d2, k);
    var channels, inner := 2 * Mul(k, s.Positions()), Mul(k, pos2) + h;
    MulBelow(k, pos2, s.Positions(), h);
    MulBelow(channels, level + 1, s.l, inner);
    MulComm(channels, level + 1);
    MulComm(channels, s.l);
    Cancels(Mul(level + 1, channels) + inner, direction);
    DivModUnique(Mul(level + 1, channels) + inner, channels, level + 1, inner);
    DivModUnique(inner, k, pos2, h);
  }

  // ---------- routers and the links between them ----------

  datatype Router = Router(level: nat, pos: seq<nat>)

  ghost predicate IsRouter(s: Shape, a: Router) {
    a.level < s.l && IsPosition(s, a.pos)
  }

  ghost function Id(s: Shape, a: Router): nat
    requires s.l > 0
  {
    Mul(s.Positions(), a.level) + ToNat(a.pos, s.k)
  }

  /** Router ids are distinct. */
  lemma IdInjective(s: Shape, a: Router, b: Router)
    requires s.k > 0 && IsRouter(s, a) && IsRouter(s, b) && Id(s, a) == Id(s, b)
    ensures a == b
  {
    hide Mul, Div, Mod;
    ToNatDigits(a.pos, s.k);
    ToNatDigits(b.pos, s.k);
    DivModUnique(Id(s, a), s.Positions(), a.level, ToNat(a.pos, s.k));
    DivModUnique(Id(s, b), s.Positions(), b.level, ToNat(b.pos, s.k));
  }

  /** Port `port` of `a` leads down to port `k + up` of `b`. */
  ghost predicate LeadsDown(s: Shape, a: Router, port: nat, b: Router, up: nat) {
    && IsRouter(s, a) && a.level + 1 < s.l && port < s.k
    && var j := s.l - 2 - a.level;
       b == Router(a.level + 1, a.pos[j := port]) && up == a.pos[j]
  }

  /** The row of the table for one down port. */
  ghost function RowOf(s: Shape, direction: nat, a: Router, port: nat): Link
    requires s.Fits() && IsRouter(s, a) && a.level + 1 < s.l
  {
    Row(s, direction, a.level, ToNat(a.pos, s.k), port)
  }

  /** Each row joins a down port to the up port the butterfly says. */
  lemma RowLeadsDown(s: Shape, direction: nat, a: Router, port: nat, b: Router, up: nat)
    requires s.Fits() && LeadsDown(s, a, port, b, up)
    ensures IsRouter(s, b) && up < s.k
    ensures var row := RowOf(s, direction, a, port);
      && row.id1 == Id(s, a) && row.p1 == port && row.id2 == Id(s, b) && row.p2 == s.k + up
      && Names(row.t1, row.r1, row.id1, s.nr1) && Names(row.t2, row.r2, row.id2, s.nr1)
  {
    RowMeaning(s, direction, a.level, a.pos, port);
  }

  /** Every up port below the top level is the lower end of a link from exactly one down port. */
  lemma UpPortsOnce(s: Shape, b: Router, up: nat)
    requires s.k > 0 && IsRouter(s, b) && b.level > 0 && up < s.k
    ensures exists a, port :: LeadsDown(s, a, port, b, up)
    ensures forall a, port, a', port' :: LeadsDown(s, a, port, b, up) && LeadsDown(s, a', port', b, up) ==>
      a == a' && port == port'
  {
    var j := s.l - 1 - b.level;
    var a := Router(b.level - 1, b.pos[j := up]);
    assert a.pos[j := b.pos[j]] == b.pos;
    assert LeadsDown(s, a, b.pos[j], b, up);
    forall a', port' | LeadsDown(s, a', port', b, up) ensures a' == a && port' == b.pos[j] {
      assert a'.pos == a.pos;
    }
  }

  /** No port is used by two rows: neither two down ports, nor two up ports, nor one of each. */
  lemma PortsOnce(s: Shape, direction: nat, a: Router, port: nat, a': Router, port': nat)
    requires s.Fits() && IsRouter(s, a) && IsRouter(s, a') && a.level + 1 < s.l && a'.level + 1 < s.l
    requires port < s.k && port' < s.k
    ensures var row, row' := RowOf(s, direction, a, port), RowOf(s, direction, a', port');
      && (row.id1 == row'.id1 && row.p1 == row'.p1 ==> a == a' && port == port')
      && (row.id2 == row'.id2 && row.p2 == row'.p2 ==> a == a' && port == port')
      && (row.id1, row.p1) != (row'.id2, row'.p2)
  {
    hide RowOf, Id, LeadsDown, IsRouter;
    var (b, up) := Across(s, a, port);
    var (b', up') := Across(s, a', port');
    RowLeadsDown(s, direction, a, port, b, up);
    RowLeadsDown(s, direction, a', port', b', up');
    if Id(s, a) == Id(s, a') { IdInjective(s, a, a'); }
    if Id(s, b) == Id(s, b') && up == up' {
      IdInjective(s, b, b');
      UpPortsOnce(s, b, up);
    }
  }

  /** Where a down port leads. */
  ghost function Across(s: Shape, a: Router, port: nat): (r: (Router, nat))
    requires IsRouter(s, a) && a.level + 1 < s.l && port < s.k
    ensures LeadsDown(s, a, port, r.0, r.1) && r.0.level == a.level + 1
  {
    var j := s.l - 2 - a.level;
    (Router(a.level + 1, a.pos[j := port]), a.pos[j])
  }

  // ---------- the table ----------

  function PortRows(s: Shape, direction: nat, level: nat, pos: nat, n: nat): seq<Link>
    requires s.Fits() && level + 1 < s.l
  {
    seq(n, port requires 0 <= port < n => Row(s, direction, level, pos, port))
  }

  function LevelRows(s: Shape, direction: nat, level: nat, n: nat): seq<Link>
    requires s.Fits() && level + 1 < s.l
  {
    if n == 0 then [] else LevelRows(s, direction, level, n - 1) + PortRows(s, direction, level, n - 1, s.k)
  }

  /** The rows of the `n` highest levels, in the generator's order. */
  function TableRows(s: Shape, direction: nat, n: nat): seq<Link>
    requires s.Fits() && n < s.l
  {
    if n == 0 then [] else TableRows(s, direction, n - 1) + LevelRows(s, direction, n - 1, s.Positions())
  }

  lemma InPortRows(s: Shape, direction: nat, level: nat, pos: nat, n: nat, row: Link)
    requires s.Fits() && level + 1 < s.l
    ensures row in PortRows(s, direction, level, pos, n) <==>
      exists port :: 0 <= port < n && row == Row(s, direction, level, pos, port)
  {
    hide Row;
    var rows := PortRows(s, direction, level, pos, n);
    forall port | 0 <= port < n ensures rows[port] == Row(s, direction, level, pos, port) {
    }
    if port :| 0 <= port < n && row == Row(s, direction, level, pos, port) { assert rows[port] == row; }
  }

  lemma {:induction false} InLevelRows(s: Shape, direction: nat, level: nat, n: nat, row: Link)
    requires s.Fits() && level + 1 < s.l
    ensures row in LevelRows(s, direction, level, n) <==>
      exists pos, port :: 0 <= pos < n && 0 <= port < s.k && row == Row(s, direction, level, pos, port)
  {
    hide Row;
    if n > 0 {
      InLevelRows(s, direction, level, n - 1, row);
      InPortRows(s, direction, level, n - 1, s.k, row);
    }
  }

  lemma {:induction false} InTableRows(s: Shape, direction: nat, n: nat, row: Link)
    requires s.Fits() && n < s.l
    ensures row in TableRows(s, direction, n) <==>
      exists level, pos, port ::
        0 <= level < n && 0 <= pos < s.Positions() && 0 <= port < s.k && row == Row(s, direction, level, pos, port)
  {
    hide Row;
    if n > 0 {
      InTableRows(s, direction, n - 1, row);
      InLevelRows(s, direction, n - 1, s.Positions(), row);
    }
  }

  /** The table holds exactly the links of the fat tree. */
  lemma TableIsFatTree(s: Shape, direction: nat, row: Link)
    requires s.Fits()
    ensures row in TableRows(s, direction, s.l - 1) <==>
      exists a, port: nat :: IsRouter(s, a) && a.level + 1 < s.l && port < s.k && row == RowOf(s, direction, a, port)
  {
    hide Row;
    InTableRows(s, direction, s.l - 1, row);
    if row in TableRows(s, direction, s.l - 1) {
      var level, pos, port :|
        0 <= level < s.l - 1 && 0 <= pos < s.Positions() && 0 <= port < s.k && row == Row(s, direction, level, pos, port);
      var a := Router(level, Digits(pos, s.k, s.l - 1));
      DigitsToNat(pos, s.k, s.l - 1);
      assert IsRouter(s, a) && row == RowOf(s, direction, a, port);
    }
    if a, port: nat :| IsRouter(s, a) && a.level + 1 < s.l && port < s.k && row == RowOf(s, direction, a, port) {
      ToNatDigits(a.pos, s.k);
      assert row == Row(s, direction, a.level, ToNat(a.pos, s.k), port);
    }
  }

  // ---------- the generator ----------

  /** One row of the router-to-endpoint table, and the address of the endpoint's router. */
  datatype Attachment = Attachment(r: nat, p: nat, address: nat)

  function Attach(s: Shape, e: nat): Attachment
    requires s.k > 0 && s.l > 0
  {
    Attachment(Ri(Mul(s.Positions(), s.l - 1) + Div(e, s.k), s.nr1), Mod(e, s.k), Encode(Div(e, s.k), s.k, s.l))
  }

  /** `Log2`: at least one bit. */
  function Log2(n: nat): nat { WidthFrom(n, 1) }

  /** The address of a router: how far its level is from the lowest, above the digits of its position. */
  function RouterAddress(s: Shape, level: nat, pos: nat): nat
    requires s.k > 0 && level < s.l
  {
    Or(Mul(Power2(Mul(s.l, Log2(s.k))), s.l - 1 - level), Encode(pos, s.k, s.l))
  }

  /** The bits of an address above those of the position, `w` for each of `l` digits, tell the level counted from the
      lowest, the bits below the position; `w` is the least positive width that holds a digit. */
  lemma AddressParts(s: Shape, level: nat, pos: nat, w: nat)
    requires s.k > 0 && level < s.l && pos < s.Positions()
    requires Least(s.k, w)
    ensures var address, low := RouterAddress(s, level, pos), Power2(Mul(s.l, w));
      && Div(address, low) == s.l - 1 - level && Mod(address, low) == Encode(pos, s.k, s.l)
      && Decode(Mod(address, low), s.k, s.l) == pos
  {
    hide Mul, Mod, Div, Pow, Encode, Decode, Or, Power2, Least, WidthFrom;
    LeastWidth(s.k, w);
    assert w == Log2(s.k);
    hide Log2;
    var n, low, code := s.l - 1 - level, Power2(Mul(s.l, w)), Encode(pos, s.k, s.l);
    EncodeBelow(pos, s.k, s.l, w);
    OrMul(code, n, Mul(s.l, w));
    DivModUnique(Mul(low, n) + code, low, n, code);
    MoreLevels(s, pos);
    CodecRoundTrip(pos, s.k, s.l);
  }

  lemma OrMul(a: nat, b: nat, n: nat)
    requires a < Power2(n)
    ensures Or(Mul(Power2(n), b), a) == Mul(Power2(n), b) + a
  {
    OrDisjoint(a, b, n);
    OrComm(Mul(Power2(n), b), a);
  }

  lemma MoreLevels(s: Shape, pos: nat)
    requires s.k > 0 && s.l > 0 && pos < s.Positions()
    ensures pos < Pow(s.k, s.l)
  {
    assert Mul(s.k, s.Positions()) >= s.Positions();
  }

  lemma EncodeBelow(pos: nat, k: nat, l: nat, w: nat)
    requires k > 0 && Power2(w) >= k
    ensures Encode(pos, k, l) < Power2(Mul(l, w))
  {
    hide Mul, Digits, ToNat;
    var v := Width(k);
    assert v <= w;
    var ds := Digits(pos, k, l);
    assert AreDigits(ds, Power2(v));
    ToNatDigits(ds, Power2(v));
    Power2Pow(l, v);
    MulComm(l, v);
    MulComm(l, w);
    MulAdd(l, v, w - v);
    Power2Add(Mul(l, v), Mul(l, w - v));
  }

  /** The router object with this number: its kind, and which one of it. */
  function Object(s: Shape, id: nat): (nat, nat) { (Ti(id, s.nr1), Ri(id, s.nr1)) }

  /** `fatree_local_addr`: what each router object has been told, address and number. */
  type Labels = map<(nat, nat), (nat, nat)>

  /** Whatever has been told is the address and the number of that router. */
  ghost predicate Truthful(s: Shape, labels: Labels)
    requires s.k > 0 && s.l > 0
  {
    forall id: nat :: Object(s, id) in labels ==> id < Mul(s.Positions(), s.l) && labels[Object(s, id)] == Label(s, id)
  }

  function Label(s: Shape, id: nat): (nat, nat)
    requires s.k > 0 && s.l > 0
  {
    if Div(id, s.Positions()) < s.l then (RouterAddress(s, Div(id, s.Positions()), Mod(id, s.Positions())), id) else (0, id)
  }

  /** The routers of a row have been told, the lower one if it is on the lowest level. */
  ghost predicate Told(s: Shape, labels: Labels, row: Link)
    requires s.k > 0 && s.l > 0
  {
    && Object(s, row.id1) in labels
    && (row.id2 >= Mul(s.Positions(), s.l - 1) ==> Object(s, row.id2) in labels)
  }

  ghost predicate Labelled(s: Shape, labels: Labels, rows: seq<Link>)
    requires s.k > 0 && s.l > 0
  {
    Truthful(s, labels) && forall row :: row in rows ==> Told(s, labels, row)
  }

  lemma ObjectInjective(s: Shape, a: nat, b: nat)
    ensures Object(s, a) == Object(s, b) ==> a == b
  {
  }

  /** The number of a router on a level. */
  lemma NumberParts(s: Shape, level: nat, pos: nat)
    requires s.k > 0 && s.l > 0 && level < s.l && pos < s.Positions()
    ensures var id := Mul(s.Positions(), level) + pos;
      && id < Mul(s.Positions(), s.l) && Label(s, id) == (RouterAddress(s, level, pos), id)
      && (id >= Mul(s.Positions(), s.l - 1) <==> level == s.l - 1)
  {
    hide Mul, Div, Mod, RouterAddress, Pow;
    DivModUnique(Mul(s.Positions(), level) + pos, s.Positions(), level, pos);
    MulBelow(s.Positions(), level, s.l, pos);
    if level < s.l - 1 { MulBelow(s.Positions(), level, s.l - 1, pos); }
    MulUnits(s.Positions());
  }

  /** One more router is told. */
  lemma TellOne(s: Shape, labels: Labels, level: nat, pos: nat)
    requires s.k > 0 && s.l > 0 && level < s.l && pos < s.Positions() && Truthful(s, labels)
    ensures var id := Mul(s.Positions(), level) + pos;
      Truthful(s, labels[Object(s, id) := (RouterAddress(s, level, pos), id)])
  {
    hide Mul, Div, Mod, RouterAddress, Pow, Label, Object;
    NumberParts(s, level, pos);
    forall x: nat { ObjectInjective(s, x, Mul(s.Positions(), level) + pos); }
  }

  /** Where the row computed for a port ends. */
  lemma LowerEnd(s: Shape, direction: nat, level: nat, pos: nat, port: nat)
    requires s.Fits() && level + 1 < s.l && pos < s.Positions() && port < s.k
    ensures var (level2, pos2, port2) := Lower(s, direction, level, pos, port);
      var row := Row(s, direction, level, pos, port);
      && level2 == level + 1 && pos2 < s.Positions()
      && row.id1 == Mul(s.Positions(), level) + pos && row.id2 == Mul(s.Positions(), level2) + pos2
      && (row.t1, row.r1) == Object(s, row.id1) && (row.t2, row.r2) == Object(s, row.id2)
  {
    hide Mul, Lower;
    var d := Digits(pos, s.k, s.l - 1);
    DigitsToNat(pos, s.k, s.l - 1);
    RowMeaning(s, direction, level, d, port);
    ToNatDigits(d[s.l - 2 - level := port], s.k);
  }

  /** Once the whole table has been produced, every router has been told its own address and number, provided there is
      more than one level; a lone level has no rows. */
  lemma AllLabelled(s: Shape, direction: nat, labels: Labels, a: Router)
    requires s.Fits() && s.l > 1 && IsRouter(s, a) && Labelled(s, labels, TableRows(s, direction, s.l - 1))
    ensures Object(s, Id(s, a)) in labels
    ensures labels[Object(s, Id(s, a))] == (RouterAddress(s, a.level, ToNat(a.pos, s.k)), Id(s, a))
  {
    hide Mul, Div, Mod, Pow, RouterAddress, RowOf, TableRows, Object, Label, ToNat;
    ToNatDigits(a.pos, s.k);
    NumberParts(s, a.level, ToNat(a.pos, s.k));
    if a.level + 1 < s.l {
      var row := RowOf(s, direction, a, 0);
      TableIsFatTree(s, direction, row);
      var (b, up) := Across(s, a, 0);
      RowLeadsDown(s, direction, a, 0, b, up);
      assert Told(s, labels, row);
    } else {
      UpPortsOnce(s, a, 0);
      var b, port :| LeadsDown(s, b, port, a, 0);
      var row := RowOf(s, direction, b, port);
      TableIsFatTree(s, direction, row);
      RowLeadsDown(s, direction, b, port, a, 0);
      assert Told(s, labels, row);
    }
  }

  /** The address an endpoint carries is that of the router it is attached to. */
  lemma EndpointAddress(s: Shape, e: nat)
    requires s.k > 0 && s.l > 0
    ensures Attach(s, e).address == RouterAddress(s, s.l - 1, Div(e, s.k))
  {
    hide Encode, Div, Mod, Log2;
    MulUnits(Power2(Mul(s.l, Log2(s.k))));
  }

  method Power(x: nat, y: nat) returns (pow: nat)
    ensures pow == Pow(x, y)
  {
    pow := 1;
    for i := 0 to y
      invariant pow == Pow(x, i)
    {
      MulComm(pow, x);
      pow := Mul(pow, x);
    }
  }

  lemma NoLabels(s: Shape)
    requires s.k > 0 && s.l > 0
    ensures Labelled(s, map[], [])
  {
  }

  class Topology {
    var r2r: seq<Link>
    var r2e: seq<Attachment>
    var labels: Labels

    constructor ()
      ensures r2r == [] && r2e == [] && labels == map[]
    {
      r2r, r2e, labels := [], [], map[];
    }

    /** `topology_init`. */
    method TopologyInit(s: Shape, direction: nat)
      requires s.Fits()
      modifies this
      ensures r2r == TableRows(s, direction, s.l - 1)
      ensures |r2e| == Pow(s.k, s.l) && forall e :: 0 <= e < |r2e| ==> r2e[e] == Attach(s, e)
      ensures Labelled(s, labels, r2r) && (s.l == 1 ==> labels == map[])
    {
      hide Row, Mul, Pow, Attach, LevelRows, Truthful, Told;
      var positions := Power(s.k, s.l - 1);
      r2r, labels := [], map[];
      NoLabels(s);
      for level := 0 to s.l - 1
        invariant r2r == TableRows(s, direction, level) && Labelled(s, labels, r2r)
        invariant level == 0 ==> labels == map[]
        modifies this`r2r, this`labels
      {
        ConnectLevel(s, direction, level, positions);
      }
      AttachEndpoints(s, positions);
    }

    /** The links of one level. */
    method ConnectLevel(s: Shape, direction: nat, level: nat, positions: nat)
      requires s.Fits() && level + 1 < s.l && positions == s.Positions() && Labelled(s, labels, r2r)
      modifies this`r2r, this`labels
      ensures r2r == old(r2r) + LevelRows(s, direction, level, positions) && Labelled(s, labels, r2r)
    {
      hide Row, Mul, Pow, Labelled;
      for pos := 0 to positions
        invariant r2r == old(r2r) + LevelRows(s, direction, level, pos) && Labelled(s, labels, r2r)
      {
        ghost var begun := r2r;
        for port := 0 to s.k
          invariant r2r == begun + PortRows(s, direction, level, pos, port) && Labelled(s, labels, r2r)
        {
          ConnectPort(s, direction, level, pos, port);
        }
      }
    }

    /** One row, and what its routers are told. */
    method ConnectPort(s: Shape, direction: nat, level: nat, pos: nat, port: nat)
      requires s.Fits() && level + 1 < s.l && pos < s.Positions() && port < s.k && Labelled(s, labels, r2r)
      modifies this`r2r, this`labels
      ensures r2r == old(r2r) + [Row(s, direction, level, pos, port)] && Labelled(s, labels, r2r)
    {
      hide Row, Mul, Pow, Lower, Encode, RouterAddress, Truthful, Object;
      LowerEnd(s, direction, level, pos, port);
      var (level2, pos2, port2) := Lower(s, direction, level, pos, port);
      var row := Row(s, direction, level, pos, port);
      NumberParts(s, level2, pos2);
      TellOne(s, labels, level, pos);
      r2r, labels := r2r + [row], labels[(row.t1, row.r1) := (RouterAddress(s, level, pos), row.id1)];
      if level == s.l - 2 {
        TellOne(s, labels, level2, pos2);
        labels := labels[(row.t2, row.r2) := (RouterAddress(s, level2, pos2), row.id2)];
      }
    }

    method AttachEndpoints(s: Shape, positions: nat)
      requires s.k > 0 && s.l > 0 && positions == s.Positions()
      modifies this`r2e
      ensures |r2e| == Pow(s.k, s.l) && forall e :: 0 <= e < |r2e| ==> r2e[e] == Attach(s, e)
    {
      hide Mul, Div, Mod, Pow, Encode;
      var endpoints := Power(s.k, s.l);
      r2e := [];
      for e := 0 to endpoints
        invariant |r2e| == e && forall i :: 0 <= i < e ==> r2e[i] == Attach(s, i)
      {
        var code := AddrEncode(Div(e, s.k), s.k, s.l);
        var router := Mul(positions, s.l - 1) + Div(e, s.k);
        r2e := r2e + [Attachment(Ri(router, s.nr1), Mod(e, s.k), code)];
      }
    }
  }
}
