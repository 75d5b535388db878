/** What the network latency of a packet is: the length of a shortest way over the grid. */
module NetraceTiming {
  import opened Radix
  import opened NetraceWorld
  import opened Wiring

  /** Nodes next to each other in a row, or one above the other in a column. */
  predicate Beside(x: nat, a: nat, b: nat)
    requires x > 0
  {
    || (Div(a, x) == Div(b, x) && (b == a + 1 || a == b + 1))
    || b == a + x || a == b + x
  }

  ghost function NodeWires(g: Grid): Wires
    requires g.xNodes > 0
  {
    set a: nat, b: nat | 0 <= a < g.nodes && 0 <= b < g.nodes && Beside(g.xNodes, a, b) :: (a, b)
  }

  function Hops(x: nat, a: nat, b: nat): nat
    requires x > 0
  {
    Abs(Mod(a, x) - Mod(b, x)) + Abs(Div(a, x) - Div(b, x))
  }

  lemma Below(x: nat, a: nat)
    requires x > 0
    ensures Div(a + x, x) == Div(a, x) + 1 && Mod(a + x, x) == Mod(a, x)
  {
    hide Mul, Div, Mod;
    DivMod(a, x);
    MulAdd(x, Div(a, x), 1);
    MulUnits(x);
    DivModUnique(a + x, x, Div(a, x) + 1, Mod(a, x));
  }

  lemma SameRow(x: nat, a: nat)
    requires x > 0 && Div(a, x) == Div(a + 1, x)
    ensures Mod(a + 1, x) == Mod(a, x) + 1
  {
    hide Mul, Div, Mod;
    DivMod(a, x);
    DivMod(a + 1, x);
  }

  /** One step brings any goal nearer by at most one. */
  lemma OneStep(x: nat, a: nat, b: nat, goal: nat)
    requires x > 0 && Beside(x, a, b)
    ensures Hops(x, a, goal) <= Hops(x, b, goal) + 1
  {
    hide Div, Mod;
    if b == a + x {
      Below(x, a);
    } else if a == b + x {
      Below(x, b);
    } else if b == a + 1 {
      SameRow(x, a);
    } else {
      SameRow(x, b);
    }
  }

  /** A step towards the goal that does not leave the nodes: up if the goal is higher, else along the row and then down. */
  lemma StepToward(x: nat, a: nat, goal: nat) returns (b: nat)
    requires x > 0 && a != goal
    ensures Beside(x, a, b) && Hops(x, b, goal) == Hops(x, a, goal) - 1 && (b <= a || b <= goal)
  {
    hide Mul, Div, Mod;
    var r, c, r', c' := Div(a, x), Mod(a, x), Div(goal, x), Mod(goal, x);
    DivMod(a, x);
    DivMod(goal, x);
    if r > r' {
      b := a - x;
      Below(x, b);
    } else if c > c' {
      b := a - 1;
      DivModUnique(b, x, r, c - 1);
    } else if c < c' {
      b := a + 1;
      DivModUnique(b, x, r, c + 1);
      Before(x, b, goal);
    } else {
      b := a + x;
      Below(x, a);
      Before(x, b, goal);
    }
  }

  /** Row by row, then along the row. */
  lemma Before(x: nat, a: nat, b: nat)
    requires x > 0 && (Div(a, x) < Div(b, x) || (Div(a, x) == Div(b, x) && Mod(a, x) <= Mod(b, x)))
    ensures a <= b
  {
    hide Mul, Div, Mod;
    DivMod(a, x);
    DivMod(b, x);
    if Div(a, x) < Div(b, x) { MulBelow(x, Div(a, x), Div(b, x), Mod(a, x)); }
  }

  lemma {:induction false} WayExists(g: Grid, a: nat, b: nat) returns (w: seq<nat>)
    requires g.xNodes > 0 && a < g.nodes && b < g.nodes
    ensures Joins(NodeWires(g), w, a, b) && |w| == Hops(g.xNodes, a, b) + 1
    decreases Hops(g.xNodes, a, b)
  {
    if a == b {
      w := [a];
    } else {
      var c := StepToward(g.xNodes, a, b);
      hide Hops, Beside;
      var rest := WayExists(g, c, b);
      w := [a] + rest;
      forall i, j | 0 <= i < j < |w| && j == i + 1 ensures (w[i], w[j]) in NodeWires(g) {
        if i > 0 { assert w[i] == rest[i - 1] && w[j] == rest[j - 1]; }
      }
    }
  }

  lemma {:induction false} NoneShorter(g: Grid, w: seq<nat>)
    requires g.xNodes > 0 && Way(NodeWires(g), w)
    ensures |w| >= Hops(g.xNodes, w[0], w[|w| - 1]) + 1
    decreases |w|
  {
    if |w| > 1 {
      hide Hops, Beside;
      var rest := w[1..];
      NoneShorter(g, rest);
      assert (w[0], w[1]) in NodeWires(g);
      OneStep(g.xNodes, w[0], w[1], w[|w| - 1]);
    }
  }

  lemma HopsShortest(g: Grid, a: nat, b: nat)
    requires g.xNodes > 0 && a < g.nodes && b < g.nodes
    ensures Shortest(NodeWires(g), a, b, Hops(g.xNodes, a, b) + 1)
  {
    hide Hops, NodeWires;
    var w := WayExists(g, a, b);
    forall v | Joins(NodeWires(g), v, a, b) ensures |v| >= Hops(g.xNodes, a, b) + 1 {
      NoneShorter(g, v);
    }
  }
}
