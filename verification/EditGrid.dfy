/** The edit matrix of two strings: forward and backward edit distances inside a box of it. */
module EditGrid {

  /** Substrings `xs[x0..x1]` and `ys[y0..y1]`. */
  datatype Box = Box(xs: seq<int>, ys: seq<int>, x0: int, x1: int, y0: int, y1: int) {
    ghost predicate Valid() {
      0 <= x0 <= x1 <= |xs| && 0 <= y0 <= y1 <= |ys|
    }

    /** Characters outside the box match nothing. */
    predicate Match(i: int, j: int)
      requires Valid()
    {
      x0 <= i < x1 && y0 <= j < y1 && xs[i] == ys[j]
    }

    ghost predicate Inside(x: int, y: int) {
      x0 <= x <= x1 && y0 <= y <= y1
    }

    /** The points of diagonal `d` that lie in the box, by column. */
    ghost predicate On(d: int, z: int) { Inside(z, z - d) }

    predicate MatchOn(d: int, i: int)
      requires Valid()
    {
      Match(i, i - d)
    }

    /** Fewest insertions and deletions from the upper left corner to `(x, y)`. */
    ghost function Fwd(x: int, y: int): (c: nat)
      requires Valid() && x >= x0 && y >= y0
      decreases x - x0 + y - y0
    {
      if x == x0 then y - y0
      else if y == y0 then x - x0
      else if Match(x - 1, y - 1) then Fwd(x - 1, y - 1)
      else if Fwd(x - 1, y) <= Fwd(x, y - 1) then Fwd(x - 1, y) + 1
      else Fwd(x, y - 1) + 1
    }

    /** Edit distance of the two substrings. */
    ghost function Dist(): nat
      requires Valid()
    {
      Fwd(x1, y1)
    }

    /** The same problem read from the other end. */
    ghost function Mirror(): (m: Box)
      requires Valid()
      ensures m.Valid() && |m.xs| == |xs| && |m.ys| == |ys|
    {
      Box(Reversed(xs), Reversed(ys), |xs| - x1, |xs| - x0, |ys| - y1, |ys| - y0)
    }

    /** Fewest insertions and deletions from `(x, y)` to the lower right corner. */
    ghost function Bwd(x: int, y: int): nat
      requires Valid() && x <= x1 && y <= y1
    {
      Mirror().Fwd(|xs| - x, |ys| - y)
    }
  }

  ghost function Reversed(s: seq<int>): (r: seq<int>)
    ensures |r| == |s|
  {
    seq(|s|, i requires 0 <= i < |s| => s[|s| - 1 - i])
  }

  lemma MirrorMirror(b: Box)
    requires b.Valid()
    ensures b.Mirror().Mirror() == b
  {
    assert Reversed(Reversed(b.xs)) == b.xs;
    assert Reversed(Reversed(b.ys)) == b.ys;
  }

  lemma MirrorMatch(b: Box, i: int, j: int)
    requires b.Valid()
    ensures b.Mirror().Match(|b.xs| - 1 - i, |b.ys| - 1 - j) == b.Match(i, j)
  {
  }

  // ---------- neighbouring points ----------

  /** Neighbours differ by at most one edit, and distances never fall along a diagonal. */
  lemma {:induction false} Neighbours(b: Box, x: int, y: int)
    requires b.Valid() && x >= b.x0 && y >= b.y0
    ensures b.Fwd(x, y) - 1 <= b.Fwd(x + 1, y) <= b.Fwd(x, y) + 1
    ensures b.Fwd(x, y) - 1 <= b.Fwd(x, y + 1) <= b.Fwd(x, y) + 1
    ensures b.Fwd(x, y) <= b.Fwd(x + 1, y + 1) <= b.Fwd(x, y) + 2
    ensures b.Match(x, y) ==> b.Fwd(x + 1, y + 1) == b.Fwd(x, y)
    decreases x - b.x0 + y - b.y0
  {
    if x > b.x0 { Neighbours(b, x - 1, y); }
    if y > b.y0 { Neighbours(b, x, y - 1); }
  }

  lemma {:induction false} Diagonal(b: Box, x: int, y: int, k: nat)
    requires b.Valid() && x >= b.x0 && y >= b.y0
    ensures b.Fwd(x, y) <= b.Fwd(x + k, y + k)
  {
    if k > 0 {
      Diagonal(b, x, y, k - 1);
      Neighbours(b, x + k - 1, y + k - 1);
    }
  }

  /** Distance is at least the change of diagonal, and of its parity. */
  lemma {:induction false} Drift(b: Box, x: int, y: int)
    requires b.Valid() && x >= b.x0 && y >= b.y0
    ensures b.Fwd(x, y) >= (x - y) - (b.x0 - b.y0)
    ensures b.Fwd(x, y) >= (b.x0 - b.y0) - (x - y)
    ensures (b.Fwd(x, y) - ((x - y) - (b.x0 - b.y0))) % 2 == 0
    decreases x - b.x0 + y - b.y0
  {
    if x > b.x0 && y > b.y0 {
      Drift(b, x - 1, y - 1);
      Drift(b, x - 1, y);
      Drift(b, x, y - 1);
    }
  }

  /** Beyond the right edge every further column costs one edit. */
  lemma {:induction false} BeyondX(b: Box, x: int, y: int)
    requires b.Valid() && x >= b.x1 && y >= b.y0
    ensures b.Fwd(x + 1, y) == b.Fwd(x, y) + 1
    decreases y - b.y0
  {
    if y > b.y0 {
      BeyondX(b, x, y - 1);
      Neighbours(b, x, y - 1);
    }
  }

  lemma {:induction false} BeyondY(b: Box, x: int, y: int)
    requires b.Valid() && x >= b.x0 && y >= b.y1
    ensures b.Fwd(x, y + 1) == b.Fwd(x, y) + 1
    decreases x - b.x0
  {
    if x > b.x0 {
      BeyondY(b, x - 1, y);
      Neighbours(b, x - 1, y);
    }
  }

  function Min(a: int, b: int): int { if a < b then a else b }

  /** A point outside the box costs its overshoot on top of the nearest point inside. */
  lemma {:induction false} Clamp(b: Box, x: int, y: int)
    requires b.Valid() && x >= b.x0 && y >= b.y0
    ensures b.Fwd(x, y) == b.Fwd(Min(x, b.x1), Min(y, b.y1)) + (x - Min(x, b.x1)) + (y - Min(y, b.y1))
    decreases x - b.x0 + y - b.y0
  {
    if x > b.x1 {
      BeyondX(b, x - 1, y);
      Clamp(b, x - 1, y);
    } else if y > b.y1 {
      BeyondY(b, x, y - 1);
      Clamp(b, x, y - 1);
    }
  }

  // ---------- forward and backward distances together ----------

  lemma BwdNeighbours(b: Box, x: int, y: int)
    requires b.Valid() && x <= b.x1 && y <= b.y1
    ensures b.Bwd(x - 1, y) <= b.Bwd(x, y) + 1
    ensures b.Bwd(x, y - 1) <= b.Bwd(x, y) + 1
    ensures b.Match(x - 1, y - 1) ==> b.Bwd(x - 1, y - 1) == b.Bwd(x, y)
  {
    Neighbours(b.Mirror(), |b.xs| - x, |b.ys| - y);
    MirrorMatch(b, x - 1, y - 1);
  }

  lemma BwdDiagonal(b: Box, x: int, y: int, k: nat)
    requires b.Valid() && x + k <= b.x1 && y + k <= b.y1
    ensures b.Bwd(x + k, y + k) <= b.Bwd(x, y)
  {
    Diagonal(b.Mirror(), |b.xs| - x - k, |b.ys| - y - k, k);
  }

  /** What `Bwd` is, spelled out on the unmirrored strings. */
  lemma BwdUnfold(b: Box, x: int, y: int)
    requires b.Valid() && x <= b.x1 && y <= b.y1
    ensures x == b.x1 ==> b.Bwd(x, y) == b.y1 - y
    ensures y == b.y1 ==> b.Bwd(x, y) == b.x1 - x
    ensures x < b.x1 && y < b.y1 && b.Match(x, y) ==> b.Bwd(x, y) == b.Bwd(x + 1, y + 1)
    ensures x < b.x1 && y < b.y1 && !b.Match(x, y) ==>
      b.Bwd(x, y) == 1 + Min(b.Bwd(x + 1, y), b.Bwd(x, y + 1))
  {
    MirrorMatch(b, x, y);
  }

  /** Triangle inequality through any point of the box. */
  lemma {:induction false} Through(b: Box, x: int, y: int)
    requires b.Valid() && b.Inside(x, y)
    ensures b.Dist() <= b.Fwd(x, y) + b.Bwd(x, y)
    decreases b.x1 - x + b.y1 - y
  {
    BwdUnfold(b, x, y);
    Neighbours(b, x, y);
    if x < b.x1 && y < b.y1 {
      Through(b, x + 1, y + 1);
      Through(b, x + 1, y);
      Through(b, x, y + 1);
    } else if x < b.x1 {
      BwdUnfold(b, x + 1, y);
      Through(b, x + 1, y);
    } else if y < b.y1 {
      BwdUnfold(b, x, y + 1);
      Through(b, x, y + 1);
    }
  }

  /** Both directions measure the same distance. */
  lemma MirrorDist(b: Box)
    requires b.Valid()
    ensures b.Mirror().Dist() == b.Dist() == b.Bwd(b.x0, b.y0)
  {
    Through(b, b.x0, b.y0);
    MirrorMirror(b);
    Through(b.Mirror(), b.Mirror().x0, b.Mirror().y0);
  }

  /** Backwards along an optimal path to the first point at forward distance `c`. */
  lemma {:induction false} OptimalPoint(b: Box, c: nat, x: int, y: int) returns (px: int, py: int)
    requires b.Valid() && b.Inside(x, y) && c <= b.Fwd(x, y)
    requires b.Fwd(x, y) + b.Bwd(x, y) <= b.Dist()
    ensures b.Inside(px, py) && b.Fwd(px, py) == c && b.Fwd(px, py) + b.Bwd(px, py) == b.Dist()
    decreases x - b.x0 + y - b.y0
  {
    Through(b, x, y);
    if b.Fwd(x, y) == c {
      px, py := x, y;
    } else {
      BwdNeighbours(b, x, y);
      if x == b.x0 {
        px, py := OptimalPoint(b, c, x, y - 1);
      } else if y == b.y0 {
        px, py := OptimalPoint(b, c, x - 1, y);
      } else if b.Match(x - 1, y - 1) {
        px, py := OptimalPoint(b, c, x - 1, y - 1);
      } else if b.Fwd(x - 1, y) <= b.Fwd(x, y - 1) {
        px, py := OptimalPoint(b, c, x - 1, y);
      } else {
        px, py := OptimalPoint(b, c, x, y - 1);
      }
    }
  }

  /** For every split of the distance some point of an optimal path realises it. */
  lemma SplitPoint(b: Box, c: nat) returns (px: int, py: int)
    requires b.Valid() && c <= b.Dist()
    ensures b.Inside(px, py) && b.Fwd(px, py) == c && b.Bwd(px, py) == b.Dist() - c
  {
    BwdUnfold(b, b.x1, b.y1);
    px, py := OptimalPoint(b, c, b.x1, b.y1);
  }

  /** The distance of an inner box measured from its own corner. */
  lemma {:induction false} SubBoxFwd(b: Box, x1: int, y1: int, x: int, y: int)
    requires b.Valid() && b.Inside(x1, y1) && b.x0 <= x <= x1 && b.y0 <= y <= y1
    ensures b.(x1 := x1, y1 := y1).Fwd(x, y) == b.Fwd(x, y)
    decreases x - b.x0 + y - b.y0
  {
    if x > b.x0 && y > b.y0 {
      SubBoxFwd(b, x1, y1, x - 1, y - 1);
      SubBoxFwd(b, x1, y1, x - 1, y);
      SubBoxFwd(b, x1, y1, x, y - 1);
    }
  }

  /** Cutting the box at `(x, y)`: the halves have distances `Fwd` and `Bwd`. */
  lemma Halves(b: Box, x: int, y: int)
    requires b.Valid() && b.Inside(x, y)
    ensures b.(x1 := x, y1 := y).Dist() == b.Fwd(x, y)
    ensures b.(x0 := x, y0 := y).Dist() == b.Bwd(x, y)
  {
    hide Box.Fwd, Reversed;
    SubBoxFwd(b, x, y, x, y);
    var h := b.(x0 := x, y0 := y);
    MirrorDist(h);
    SubBoxFwd(b.Mirror(), |b.xs| - x, |b.ys| - y, |b.xs| - x, |b.ys| - y);
    assert h.Mirror() == b.Mirror().(x1 := |b.xs| - x, y1 := |b.ys| - y);
  }
}
