/** Routes through the fat tree, and what the distance function measures. */
module FatTreeRoutes {
  import opened Radix
  import opened FatTreeCode
  import opened FatTree
  import opened Wiring

  /** The router at the other end of a down port. */
  function Below(s: Shape, a: Router, port: nat): Router
    requires a.level + 1 < s.l && |a.pos| == s.l - 1
  {
    Router(a.level + 1, a.pos[s.l - 2 - a.level := port])
  }

  /** Going down by the digits of `target` to the lowest level. */
  function Descend(s: Shape, a: Router, target: seq<nat>): (b: Router)
    requires a.level < s.l && |a.pos| == |target| == s.l - 1
    ensures |b.pos| == s.l - 1
    decreases s.l - a.level
  {
    if a.level + 1 == s.l then a else Descend(s, Below(s, a, target[s.l - 2 - a.level]), target)
  }

  /** The descent reaches the target exactly if the router agrees with it on the digits above its level; from a top
      router it always does. */
  lemma {:induction false} DescentReaches(s: Shape, a: Router, target: seq<nat>)
    requires a.level < s.l && |a.pos| == |target| == s.l - 1
    ensures Descend(s, a, target) == Router(s.l - 1, target) <==>
      forall j :: s.l - 1 - a.level <= j < s.l - 1 ==> a.pos[j] == target[j]
    decreases s.l - a.level
  {
    if a.level + 1 < s.l {
      var j0 := s.l - 2 - a.level;
      var b := Below(s, a, target[j0]);
      DescentReaches(s, b, target);
      assert forall j :: 0 <= j < s.l - 1 ==> b.pos[j] == if j == j0 then target[j0] else a.pos[j];
    }
  }

  // ---------- paths ----------

  ghost predicate Adjacent(s: Shape, a: Router, b: Router) {
    exists port: nat, up :: LeadsDown(s, a, port, b, up) || LeadsDown(s, b, port, a, up)
  }

  /** Routers, each joined to the next by a row of the table. */
  ghost predicate Path(s: Shape, w: seq<Router>) {
    && w != [] && (forall i :: 0 <= i < |w| ==> IsRouter(s, w[i]))
    && forall i, j :: 0 <= i < j < |w| && j == i + 1 ==> Adjacent(s, w[i], w[j])
  }

  /** The router an endpoint is attached to: its digits but the lowest, which is the port. */
  ghost function Leaf(s: Shape, e: nat): Router
    requires s.k > 0 && s.l > 0
  {
    Router(s.l - 1, Digits(e, s.k, s.l)[1..])
  }

  /** That is the router the table attaches it to. */
  lemma LeafAttached(s: Shape, e: nat)
    requires s.k > 0 && s.l > 0 && e < Pow(s.k, s.l)
    ensures IsRouter(s, Leaf(s, e)) && Id(s, Leaf(s, e)) == LeafId(s, e)
    ensures Digits(e, s.k, s.l)[0] == Mod(e, s.k) == Attach(s, e).p
    ensures Names(1, Attach(s, e).r, LeafId(s, e), s.nr1) || Names(2, Attach(s, e).r, LeafId(s, e), s.nr1)
  {
    hide Mul, Div, Mod;
    assert Digits(e, s.k, s.l)[1..] == Digits(Div(e, s.k), s.k, s.l - 1);
    QuotientBelow(e, s.k, Pow(s.k, s.l - 1));
    DigitsToNat(Div(e, s.k), s.k, s.l - 1);
  }

  /** The highest digit in which two numbers differ, counted from one; zero if there is none. */
  ghost function Differ(a: seq<nat>, b: seq<nat>): (h: nat)
    requires |a| == |b|
    ensures h <= |a| && (h > 0 ==> a[h - 1] != b[h - 1]) && forall j :: h <= j < |a| ==> a[j] == b[j]
  {
    if a == [] then 0
    else if a[|a| - 1] != b[|b| - 1] then |a|
    else Differ(a[..|a| - 1], b[..|b| - 1])
  }

  /** `get_mah_distance`. */
  ghost function Distance(s: Shape, e1: nat, e2: nat): nat
    requires s.k > 0
  {
    var h := Differ(Digits(e1, s.k, s.l), Digits(e2, s.k, s.l));
    if h == 0 then 0 else 2 * h - 1
  }

  method GetMahDistance(s: Shape, id1: nat, id2: nat) returns (distance: nat)
    requires s.k > 0
    ensures distance == Distance(s, id1, id2)
    ensures forall direction :: s.Fits() && id1 < Pow(s.k, s.l) && id2 < Pow(s.k, s.l) && id1 != id2 ==>
      Shortest(TreeWires(s, direction), LeafId(s, id1), LeafId(s, id2), distance)
  {
    forall direction | s.Fits() && id1 < Pow(s.k, s.l) && id2 < Pow(s.k, s.l) && id1 != id2
      ensures Shortest(TreeWires(s, direction), LeafId(s, id1), LeafId(s, id2), Distance(s, id1, id2))
    {
      DistanceIsShortest(s, direction, id1, id2);
    }
    hide Mul, Div, Mod;
    var pow := 1;
    distance := 0;
    for i := 0 to s.l
      invariant pow == Pow(s.k, i)
      invariant var h := Differ(Digits(id1, s.k, i), Digits(id2, s.k, i)); distance == if h == 0 then 0 else 2 * h - 1
    {
      var digit1, digit2 := Mod(Div(id1, pow), s.k), Mod(Div(id2, pow), s.k);
      DigitsLast(id1, s.k, i);
      DigitsLast(id2, s.k, i);
      DifferLast(Digits(id1, s.k, i), digit1, Digits(id2, s.k, i), digit2);
      MulComm(pow, s.k);
      pow := Mul(pow, s.k);
      if digit1 != digit2 { distance := (i + 1) * 2 - 1; }
    }
  }

  lemma DifferLast(a: seq<nat>, x: nat, b: seq<nat>, y: nat)
    requires |a| == |b|
    ensures Differ(a + [x], b + [y]) == if x != y then |a| + 1 else Differ(a, b)
  {
    assert (a + [x])[..|a|] == a && (b + [y])[..|b|] == b;
  }

  // ---------- up and down ----------

  /** The low `j` digits of `a` under the high digits of `b`. */
  ghost function Mix(a: seq<nat>, b: seq<nat>, j: nat): seq<nat>
    requires j <= |a| == |b|
  {
    a[..j] + b[j..]
  }

  /** The `i`th router on the way straight up `h` levels from the first leaf, then down by the digits of the second. */
  ghost function Stop(s: Shape, a: seq<nat>, b: seq<nat>, h: nat, i: nat): Router
    requires h <= |a| == |b| == s.l - 1 && i <= 2 * h
  {
    if i <= h then Router(s.l - 1 - i, a) else Router(s.l - 1 - 2 * h + i, Mix(a, b, 2 * h - i))
  }

  ghost function UpDown(s: Shape, a: seq<nat>, b: seq<nat>, h: nat): seq<Router>
    requires h <= |a| == |b| == s.l - 1
  {
    seq(2 * h + 1, i requires 0 <= i <= 2 * h => Stop(s, a, b, h, i))
  }

  lemma StopRouter(s: Shape, a: seq<nat>, b: seq<nat>, h: nat, i: nat)
    requires IsPosition(s, a) && IsPosition(s, b) && h <= |a| && i <= 2 * h
    ensures IsRouter(s, Stop(s, a, b, h, i))
  {
    assert i > h ==> AreDigits(Mix(a, b, 2 * h - i), s.k);
  }

  lemma ClimbStep(s: Shape, a: seq<nat>, level: nat)
    requires IsPosition(s, a) && 0 < level < s.l
    ensures Adjacent(s, Router(level, a), Router(level - 1, a))
  {
    var j := s.l - 1 - level;
    assert a[j := a[j]] == a;
    assert LeadsDown(s, Router(level - 1, a), a[j], Router(level, a), a[j]);
  }

  lemma DropStep(s: Shape, a: seq<nat>, b: seq<nat>, j: nat)
    requires IsPosition(s, a) && IsPosition(s, b) && j < |a|
    ensures Adjacent(s, Router(s.l - 2 - j, Mix(a, b, j + 1)), Router(s.l - 1 - j, Mix(a, b, j)))
  {
    var x, y := Mix(a, b, j + 1), Mix(a, b, j);
    assert x[j := b[j]] == y;
    assert LeadsDown(s, Router(s.l - 2 - j, x), b[j], Router(s.l - 1 - j, y), x[j]);
  }

  lemma StopStep(s: Shape, a: seq<nat>, b: seq<nat>, h: nat, i: nat)
    requires IsPosition(s, a) && IsPosition(s, b) && h <= |a| && Mix(a, b, h) == a && i < 2 * h
    ensures Adjacent(s, Stop(s, a, b, h, i), Stop(s, a, b, h, i + 1))
  {
    hide Mix, Adjacent;
    if i < h { ClimbStep(s, a, s.l - 1 - i); } else { DropStep(s, a, b, 2 * h - i - 1); }
  }

  /** The path goes through `2h + 1` routers, from one leaf to the other. */
  lemma UpDownPath(s: Shape, a: seq<nat>, b: seq<nat>)
    requires IsPosition(s, a) && IsPosition(s, b)
    ensures var h := Differ(a, b);
      var w := UpDown(s, a, b, h);
      Path(s, w) && |w| == 2 * h + 1 && w[0] == Router(s.l - 1, a) && w[|w| - 1] == Router(s.l - 1, b)
  {
    var h := Differ(a, b);
    assert Mix(a, b, 0) == b && Mix(a, b, h) == a;
    assert Stop(s, a, b, h, 0) == Router(s.l - 1, a) && Stop(s, a, b, h, 2 * h) == Router(s.l - 1, b);
    hide Stop, Mix, IsRouter, Adjacent, Differ;
    forall i: nat | i <= 2 * h ensures IsRouter(s, Stop(s, a, b, h, i)) { StopRouter(s, a, b, h, i); }
    forall i: nat | i < 2 * h ensures Adjacent(s, Stop(s, a, b, h, i), Stop(s, a, b, h, i + 1)) { StopStep(s, a, b, h, i); }
    StopsPath(s, a, b, h);
  }

  lemma StopsPath(s: Shape, a: seq<nat>, b: seq<nat>, h: nat)
    requires h <= |a| == |b| == s.l - 1
    requires forall i: nat :: i <= 2 * h ==> IsRouter(s, Stop(s, a, b, h, i))
    requires forall i: nat :: i < 2 * h ==> Adjacent(s, Stop(s, a, b, h, i), Stop(s, a, b, h, i + 1))
    ensures Path(s, UpDown(s, a, b, h))
  {
    hide Stop, IsRouter, Adjacent;
  }

  // ---------- no shorter path ----------

  /** A step changes the level by one, and a digit only between the two levels of that digit. */
  lemma StepChanges(s: Shape, x: Router, y: Router, j: nat)
    requires Adjacent(s, x, y) && IsRouter(s, x) && IsRouter(s, y) && j < s.l - 1
    ensures x.level - 1 <= y.level <= x.level + 1
    ensures x.pos[j] != y.pos[j] ==> x.level <= s.l - 2 - j || y.level <= s.l - 2 - j
  {
  }

  /** A path from a lowest-level router on which digit `j` changes has climbed to level `l - 2 - j`. */
  lemma {:induction false} MustClimb(s: Shape, w: seq<Router>, j: nat) returns (t: nat)
    requires Path(s, w) && j < s.l - 1 && w[0].pos[j] != w[|w| - 1].pos[j]
    ensures t < |w| && w[t].level <= s.l - 2 - j
    decreases |w|
  {
    var m := |w| - 1;
    var front := w[..m];
    assert front != [];
    assert Path(s, front) by {
      assert forall i :: 0 <= i < m ==> front[i] == w[i];
    }
    assert Adjacent(s, w[m - 1], w[m]);
    StepChanges(s, w[m - 1], w[m], j);
    if w[m - 1].pos[j] != w[m].pos[j] {
      t := if w[m].level <= s.l - 2 - j then m else m - 1;
    } else {
      assert front[m - 1] == w[m - 1];
      t := MustClimb(s, front, j);
    }
  }

  lemma {:induction false} LevelsApart(s: Shape, w: seq<Router>, i: nat, j: nat)
    requires Path(s, w) && i <= j < |w|
    ensures -(j - i) <= w[j].level - w[i].level <= j - i
    decreases j - i
  {
    if i < j {
      LevelsApart(s, w, i, j - 1);
      assert Adjacent(s, w[j - 1], w[j]);
    }
  }

  /** A path between routers of the lowest level on which digit `j` changes has climbed and come down. */
  lemma PathAtLeast(s: Shape, w: seq<Router>, j: nat)
    requires Path(s, w) && j < s.l - 1 && w[0].level == w[|w| - 1].level == s.l - 1
    requires w[0].pos[j] != w[|w| - 1].pos[j]
    ensures |w| >= 2 * j + 3
  {
    var t := MustClimb(s, w, j);
    LevelsApart(s, w, 0, t);
    LevelsApart(s, w, t, |w| - 1);
  }

  /** The up-and-down path between the leaves of two endpoints given by their digits. */
  lemma PathBetween(s: Shape, d1: seq<nat>, d2: seq<nat>)
    requires |d1| == |d2| == s.l > 0 && AreDigits(d1, s.k) && AreDigits(d2, s.k) && Differ(d1, d2) > 0
    ensures var w := UpDown(s, d1[1..], d2[1..], Differ(d1, d2) - 1);
      && Path(s, w) && |w| == 2 * Differ(d1, d2) - 1
      && w[0] == Router(s.l - 1, d1[1..]) && w[|w| - 1] == Router(s.l - 1, d2[1..])
  {
    hide Differ, Path;
    TailDiffer(d1, d2);
    UpDownPath(s, d1[1..], d2[1..]);
  }

  lemma NoneShorter(s: Shape, d1: seq<nat>, d2: seq<nat>, w: seq<Router>)
    requires |d1| == |d2| == s.l > 0 && Differ(d1, d2) > 0
    requires Path(s, w) && w[0] == Router(s.l - 1, d1[1..]) && w[|w| - 1] == Router(s.l - 1, d2[1..])
    ensures |w| >= 2 * Differ(d1, d2) - 1
  {
    var h := Differ(d1, d2);
    hide Differ;
    if h > 1 {
      assert d1[1..][h - 2] == d1[h - 1] && d2[1..][h - 2] == d2[h - 1];
      PathAtLeast(s, w, h - 2);
    }
  }

  // ---------- in the generated table ----------

  /** The wires of the table: each row joins its two routers in both directions. */
  ghost function TableWires(rows: seq<Link>): Wires {
    (set row | row in rows :: (row.id1, row.id2)) + (set row | row in rows :: (row.id2, row.id1))
  }

  ghost function TreeWires(s: Shape, direction: nat): Wires
    requires s.Fits()
  {
    TableWires(TableRows(s, direction, s.l - 1))
  }

  /** The table wires exactly the routers of which one leads down to the other. */
  lemma WiresAdjacent(s: Shape, direction: nat, x: nat, y: nat)
    requires s.Fits()
    ensures (x, y) in TreeWires(s, direction) <==>
      exists a, b :: IsRouter(s, a) && IsRouter(s, b) && Adjacent(s, a, b) && x == Id(s, a) && y == Id(s, b)
  {
    hide Row, Id, TableRows, RowOf, IsRouter;
    if (x, y) in TreeWires(s, direction) {
      var row :| row in TableRows(s, direction, s.l - 1) && ((row.id1, row.id2) == (x, y) || (row.id2, row.id1) == (x, y));
      TableIsFatTree(s, direction, row);
      var a, port: nat :| IsRouter(s, a) && a.level + 1 < s.l && port < s.k && row == RowOf(s, direction, a, port);
      var (b, up) := Across(s, a, port);
      RowLeadsDown(s, direction, a, port, b, up);
      assert Adjacent(s, a, b) && Adjacent(s, b, a);
    }
    if a, b :| IsRouter(s, a) && IsRouter(s, b) && Adjacent(s, a, b) && x == Id(s, a) && y == Id(s, b) {
      var port: nat, up :| LeadsDown(s, a, port, b, up) || LeadsDown(s, b, port, a, up);
      var top := if LeadsDown(s, a, port, b, up) then a else b;
      RowLeadsDown(s, direction, top, port, if top == a then b else a, up);
      TableIsFatTree(s, direction, RowOf(s, direction, top, port));
    }
  }

  /** A path of routers is a way through the table. */
  lemma PathIsWay(s: Shape, direction: nat, w: seq<Router>) returns (v: seq<nat>)
    requires s.Fits() && Path(s, w)
    ensures |v| == |w| && Joins(TreeWires(s, direction), v, Id(s, w[0]), Id(s, w[|w| - 1]))
  {
    hide Id, TreeWires, Adjacent, IsRouter;
    v := seq(|w|, i requires 0 <= i < |w| => Id(s, w[i]));
    forall i, j | 0 <= i < j < |v| && j == i + 1 ensures (v[i], v[j]) in TreeWires(s, direction) {
      WiresAdjacent(s, direction, v[i], v[j]);
    }
  }

  /** A way through the table is a path of routers. */
  lemma {:induction false} WayIsPath(s: Shape, direction: nat, v: seq<nat>, a: Router) returns (w: seq<Router>)
    requires s.Fits() && Way(TreeWires(s, direction), v) && IsRouter(s, a) && v[0] == Id(s, a)
    ensures |w| == |v| && Path(s, w) && w[0] == a && Id(s, w[|w| - 1]) == v[|v| - 1]
    decreases |v|
  {
    hide Id, TreeWires, Adjacent, IsRouter;
    if |v| == 1 {
      w := [a];
    } else {
      WiresAdjacent(s, direction, v[0], v[1]);
      var a', b :| IsRouter(s, a') && IsRouter(s, b) && Adjacent(s, a', b) && v[0] == Id(s, a') && v[1] == Id(s, b);
      IdInjective(s, a, a');
      var rest := WayIsPath(s, direction, v[1..], b);
      w := [a] + rest;
      forall i, j | 0 <= i < j < |w| && j == i + 1 ensures Adjacent(s, w[i], w[j]) {
        if i > 0 { assert w[i] == rest[i - 1] && w[j] == rest[j - 1]; }
      }
    }
  }

  /** The number of the router an endpoint is attached to. */
  function LeafId(s: Shape, e: nat): nat
    requires s.k > 0 && s.l > 0
  {
    Mul(s.Positions(), s.l - 1) + Div(e, s.k)
  }

  /** The distance function is the number of routers on a shortest way through the generated table between two
      different endpoints, and zero from an endpoint to itself. */
  lemma DistanceIsShortest(s: Shape, direction: nat, e1: nat, e2: nat)
    requires s.Fits() && e1 < Pow(s.k, s.l) && e2 < Pow(s.k, s.l)
    ensures if e1 == e2 then Distance(s, e1, e2) == 0
            else Shortest(TreeWires(s, direction), LeafId(s, e1), LeafId(s, e2), Distance(s, e1, e2))
  {
    hide Mul, Div, Mod, Pow, UpDown, Differ, Digits, ToNat, IsRouter, Adjacent, TreeWires, Id;
    var d1, d2 := Digits(e1, s.k, s.l), Digits(e2, s.k, s.l);
    if e1 == e2 {
      assert Differ(d1, d2) == 0;
    } else {
      DigitsToNat(e1, s.k, s.l);
      DigitsToNat(e2, s.k, s.l);
      assert d1 != d2;
      assert Differ(d1, d2) == 0 ==> d1 == d2;
      PathBetween(s, d1, d2);
      LeafAttached(s, e1);
      LeafAttached(s, e2);
      var w := UpDown(s, d1[1..], d2[1..], Differ(d1, d2) - 1);
      var v := PathIsWay(s, direction, w);
      forall v | Joins(TreeWires(s, direction), v, LeafId(s, e1), LeafId(s, e2)) ensures |v| >= Distance(s, e1, e2) {
        var w := WayIsPath(s, direction, v, Leaf(s, e1));
        EndRouter(s, w);
        IdInjective(s, w[|w| - 1], Leaf(s, e2));
        NoneShorter(s, d1, d2, w);
      }
    }
  }

  lemma EndRouter(s: Shape, w: seq<Router>)
    requires Path(s, w)
    ensures IsRouter(s, w[|w| - 1])
  {
  }

  lemma TailDiffer(d1: seq<nat>, d2: seq<nat>)
    requires |d1| == |d2| > 0 && Differ(d1, d2) > 0
    ensures Differ(d1[1..], d2[1..]) == Differ(d1, d2) - 1
  {
    var h := Differ(d1, d2);
    hide Differ;
    assert forall j :: 0 <= j < |d1| - 1 ==> d1[1..][j] == d1[j + 1] && d2[1..][j] == d2[j + 1];
    DifferUnique(d1[1..], d2[1..], h - 1);
  }

  lemma {:induction false} DifferUnique(a: seq<nat>, b: seq<nat>, h: nat)
    requires |a| == |b| && h <= |a| && (h > 0 ==> a[h - 1] != b[h - 1]) && forall j :: h <= j < |a| ==> a[j] == b[j]
    ensures Differ(a, b) == h
  {
    if a != [] && h < |a| { DifferUnique(a[..|a| - 1], b[..|b| - 1], h); }
  }
}
