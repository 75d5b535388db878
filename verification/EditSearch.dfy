/** The furthest-reaching search of `diag`: what one entry of the diagonal vector says, and how a step extends it. */
module EditSearch {
  import opened EditGrid

  /** `v` is the furthest column on diagonal `d` that `c` edits reach from the upper left corner. */
  ghost predicate Furthest(b: Box, v: int, d: int, c: int)
    requires b.Valid()
  {
    && v >= b.x0 && v - d >= b.y0
    && b.Fwd(v, v - d) <= c
    && forall z :: b.On(d, z) && b.Fwd(z, z - d) <= c ==> z <= v
  }

  /** Nothing on diagonal `d` is reached, and `v` is the sentinel that says so. */
  ghost predicate Unreached(b: Box, v: int, d: int, c: int)
    requires b.Valid()
  {
    v < 0 && forall z :: b.On(d, z) ==> b.Fwd(z, z - d) > c
  }

  ghost predicate Entry(b: Box, v: int, d: int, c: int)
    requires b.Valid()
  {
    Furthest(b, v, d, c) || Unreached(b, v, d, c)
  }

  /** The start of the snake on diagonal `d`, from the entries of the diagonals beside it. */
  function Landing(lo: int, hi: int): int {
    if lo >= hi then lo + 1 else hi
  }

  /** From `x` to `v` along diagonal `d` all characters match, and the next do not. */
  ghost predicate Snake(b: Box, d: int, x: int, v: int)
    requires b.Valid()
  {
    x <= v && (forall i :: x <= i < v ==> b.MatchOn(d, i)) && !b.MatchOn(d, v)
  }

  lemma {:induction false} SnakeFwd(b: Box, d: int, x: int, v: int)
    requires b.Valid() && x >= b.x0 && x - d >= b.y0 && x <= v
    requires forall i :: x <= i < v ==> b.MatchOn(d, i)
    ensures b.Fwd(v, v - d) == b.Fwd(x, x - d)
    decreases v - x
  {
    if x < v {
      SnakeFwd(b, d, x, v - 1);
      assert b.MatchOn(d, v - 1);
      Neighbours(b, v - 1, v - 1 - d);
    }
  }

  /** The landing point costs one edit more than the neighbour it came from. */
  lemma LandingReached(b: Box, d: int, c: int, lo: int, hi: int)
    requires b.Valid()
    requires Entry(b, lo, d - 1, c - 1) && Entry(b, hi, d + 1, c - 1)
    requires Furthest(b, lo, d - 1, c - 1) || Furthest(b, hi, d + 1, c - 1)
    ensures var x := Landing(lo, hi); x >= b.x0 && x - d >= b.y0 && b.Fwd(x, x - d) <= c
  {
    var x := Landing(lo, hi);
    if lo >= hi {
      Neighbours(b, lo, lo - (d - 1));
    } else {
      Neighbours(b, hi, hi - (d + 1));
    }
  }

  /** Points reached with two edits to spare lie before the landing point. */
  lemma SpareReached(b: Box, d: int, c: int, lo: int, hi: int, z: int)
    requires b.Valid() && b.On(d, z) && b.Fwd(z, z - d) <= c - 2 < b.Dist()
    requires Entry(b, lo, d - 1, c - 1) && Entry(b, hi, d + 1, c - 1)
    ensures z <= Landing(lo, hi)
  {
    Neighbours(b, z, z - d);
    if z < b.x1 {
      assert b.On(d + 1, z + 1);
      assert b.Fwd(z + 1, z + 1 - (d + 1)) <= c - 1;
    } else {
      assert z - d < b.y1;
      assert b.On(d - 1, z);
      assert b.Fwd(z, z - (d - 1)) <= c - 1;
    }
  }

  /** A point reached with exactly `c` edits lies before the end of the snake. */
  lemma {:induction false} SnakeCovers(b: Box, d: int, c: int, lo: int, hi: int, v: int, z: int)
    requires b.Valid() && b.On(d, z) && b.Fwd(z, z - d) == c >= 1
    requires Entry(b, lo, d - 1, c - 1) && Entry(b, hi, d + 1, c - 1)
    requires Snake(b, d, Landing(lo, hi), v)
    ensures z <= v
    decreases z
  {
    var y := z - d;
    if z > b.x0 && y > b.y0 && b.MatchOn(d, z - 1) {
      if z > Landing(lo, hi) {
        SnakeCovers(b, d, c, lo, hi, v, z - 1);
      }
    } else if y > b.y0 && (z == b.x0 || b.Fwd(z - 1, y) > b.Fwd(z, y - 1)) {
      assert b.On(d + 1, z) && b.Fwd(z, z - (d + 1)) == c - 1;
    } else {
      assert b.On(d - 1, z - 1) && b.Fwd(z - 1, z - 1 - (d - 1)) == c - 1;
    }
  }

  /** One step of the search on one diagonal. */
  lemma FurthestStep(b: Box, d: int, c: int, lo: int, hi: int, v: int)
    requires b.Valid() && c >= 1 && c - 2 < b.Dist()
    requires (c - (d - (b.x0 - b.y0))) % 2 == 0
    requires Entry(b, lo, d - 1, c - 1) && Entry(b, hi, d + 1, c - 1)
    requires Furthest(b, lo, d - 1, c - 1) || Furthest(b, hi, d + 1, c - 1)
    requires Snake(b, d, Landing(lo, hi), v)
    ensures Furthest(b, v, d, c)
  {
    LandingReached(b, d, c, lo, hi);
    SnakeFwd(b, d, Landing(lo, hi), v);
    forall z | b.On(d, z) && b.Fwd(z, z - d) <= c ensures z <= v {
      Drift(b, z, z - d);
      if b.Fwd(z, z - d) == c {
        SnakeCovers(b, d, c, lo, hi, v, z);
      } else {
        SpareReached(b, d, c, lo, hi, z);
      }
    }
  }

  /** Diagonals too far from the corner, or off the box, are unreached. */
  lemma FarUnreached(b: Box, v: int, d: int, c: int)
    requires b.Valid() && v < 0
    requires d < b.x0 - b.y1 || d > b.x1 - b.y0 || d < b.x0 - b.y0 - c || d > b.x0 - b.y0 + c
    ensures Unreached(b, v, d, c)
  {
    forall z | b.On(d, z) ensures b.Fwd(z, z - d) > c {
      Drift(b, z, z - d);
    }
  }

  // ---------- the two searches meet ----------

  /** Overlapping entries on one diagonal: the searches have met, the forward entry is the midpoint of an
      optimal path, and the costs add up to the distance. */
  lemma Meet(b: Box, d: int, c: nat, c': nat, v: int, u: int)
    requires b.Valid() && b.Dist() > c + c' - 1
    requires Furthest(b, v, d, c)
    requires u <= b.x1 && u - d <= b.y1 && b.Bwd(u, u - d) <= c'
    requires u <= v
    ensures b.Inside(v, v - d)
    ensures b.Dist() == c + c' && b.Fwd(v, v - d) == c && b.Bwd(v, v - d) == c'
  {
    var y := v - d;
    var xc, yc := Min(v, b.x1), Min(y, b.y1);
    Clamp(b, v, y);
    Through(b, xc, yc);
    if v > b.x1 && y > b.y1 {
    } else if v > b.x1 {
      BwdUnfold(b, b.x1, y);
      BwdDiagonal(b, u, u - d, b.x1 - u);
      BwdUnfold(b, b.x1, b.x1 - d);
    } else if y > b.y1 {
      BwdUnfold(b, v, b.y1);
      BwdDiagonal(b, u, u - d, b.y1 + d - u);
      BwdUnfold(b, b.y1 + d, b.y1);
    } else {
      BwdDiagonal(b, u, u - d, v - u);
    }
  }

  // ---------- rows of the diagonal vectors ----------

  /** Lowest diagonal of the row for `c` edits: `mid - c`, pushed back inside by whole steps of two. */
  function LowDiag(want: int, dmin: int): int {
    if want >= dmin then want else if (dmin - want) % 2 == 0 then dmin else dmin + 1
  }

  function HighDiag(want: int, dmax: int): int {
    if want <= dmax then want else if (want - dmax) % 2 == 0 then dmax else dmax - 1
  }

  ghost predicate FurthestAt(b: Box, s: seq<int>, o: int, d: int, c: int)
    requires b.Valid()
  {
    0 <= d + o < |s| && Furthest(b, s[d + o], d, c)
  }

  ghost predicate EntryAt(b: Box, s: seq<int>, o: int, d: int, c: int)
    requires b.Valid()
  {
    0 <= d + o < |s| && Entry(b, s[d + o], d, c)
  }

  /** The diagonals `c` edits can end on. */
  ghost predicate Bounds(b: Box, c: int, lo: int, hi: int) {
    && lo == LowDiag(b.x0 - b.y0 - c, b.x0 - b.y1)
    && hi == HighDiag(b.x0 - b.y0 + c, b.x1 - b.y0)
  }

  ghost predicate InRow(d: int, lo: int, hi: int) {
    lo <= d <= hi && (d - lo) % 2 == 0
  }

  /** All diagonals of the row for `c` edits hold their furthest point; `s[d + o]` is the entry of diagonal `d`. */
  ghost predicate Row(b: Box, s: seq<int>, o: int, c: int, lo: int, hi: int)
    requires b.Valid()
  {
    Bounds(b, c, lo, hi) && forall d :: InRow(d, lo, hi) ==> FurthestAt(b, s, o, d, c)
  }

  ghost predicate Entries(b: Box, s: seq<int>, o: int, c: int, lo: int, hi: int)
    requires b.Valid()
  {
    forall d :: InRow(d, lo, hi) ==> EntryAt(b, s, o, d, c)
  }

  /** One of the diagonals beside `d` has been reached. */
  ghost predicate Beside(b: Box, s: seq<int>, o: int, d: int, c: int)
    requires b.Valid()
  {
    FurthestAt(b, s, o, d - 1, c) || FurthestAt(b, s, o, d + 1, c)
  }

  /** The row for `c - 1` edits with sentinels put where the row for `c` edits looks beyond it. */
  ghost predicate Widened(b: Box, s: seq<int>, o: int, c: int, lo: int, hi: int)
    requires b.Valid()
  {
    && Bounds(b, c, lo, hi)
    && Entries(b, s, o, c - 1, lo - 1, hi + 1)
    && (forall d :: InRow(d, lo, hi) ==> Beside(b, s, o, d, c - 1))
  }

  /** A box with two non-empty sides, as `diag` gets it: first and last characters differ. */
  ghost predicate Trimmed(b: Box) {
    && b.Valid() && b.x0 < b.x1 && b.y0 < b.y1
    && !b.Match(b.x0, b.y0) && !b.Match(b.x1 - 1, b.y1 - 1)
  }

  lemma TrimmedMirror(b: Box)
    requires Trimmed(b)
    ensures Trimmed(b.Mirror())
  {
    MirrorMatch(b, b.x0, b.y0);
    MirrorMatch(b, b.x1 - 1, b.y1 - 1);
  }

  /** Only the corner itself is free of edits. */
  lemma ZeroOnlyCorner(b: Box, x: int, y: int)
    requires Trimmed(b) && b.Inside(x, y) && (x, y) != (b.x0, b.y0)
    ensures b.Fwd(x, y) > 0
  {
    Drift(b, x, y);
    if x - y == b.x0 - b.y0 {
      Diagonal(b, b.x0 + 1, b.y0 + 1, x - b.x0 - 1);
      Drift(b, b.x0 + 1, b.y0);
      Drift(b, b.x0, b.y0 + 1);
    }
  }

  /** Trimmed substrings differ by at least two edits. */
  lemma TrimmedDist(b: Box)
    requires Trimmed(b)
    ensures b.Dist() >= 2
  {
    ZeroOnlyCorner(b, b.x1 - 1, b.y1);
    ZeroOnlyCorner(b, b.x1, b.y1 - 1);
  }

  lemma FirstRow(b: Box, s: seq<int>, o: int)
    requires Trimmed(b) && 0 <= b.x0 - b.y0 + o < |s| && s[b.x0 - b.y0 + o] == b.x0
    ensures Row(b, s, o, 0, b.x0 - b.y0, b.x0 - b.y0)
  {
    var d := b.x0 - b.y0;
    forall z | b.On(d, z) && b.Fwd(z, z - d) <= 0 ensures z <= b.x0 {
      if z != b.x0 { ZeroOnlyCorner(b, z, z - d); }
    }
    assert FurthestAt(b, s, o, d, 0);
  }

  /** How `diag` moves the bounds of a row for the next edit. */
  ghost predicate NextBounds(b: Box, lo: int, hi: int, lo': int, hi': int) {
    && lo' == (if lo > b.x0 - b.y1 then lo - 1 else lo + 1)
    && hi' == (if hi < b.x1 - b.y0 then hi + 1 else hi - 1)
  }

  lemma WidenBounds(b: Box, c: nat, lo: int, hi: int, lo': int, hi': int)
    requires b.Valid() && b.x0 < b.x1 && b.y0 < b.y1 && c >= 1
    requires Bounds(b, c - 1, lo, hi) && NextBounds(b, lo, hi, lo', hi')
    ensures Bounds(b, c, lo', hi') && lo' <= hi' && (hi' - lo') % 2 == 0 && (lo' - lo) % 2 == 1
    ensures b.x0 - b.y1 <= lo' && hi' <= b.x1 - b.y0
    ensures b.x0 - b.y1 <= lo <= hi <= b.x1 - b.y0 && (hi - lo) % 2 == 0
    ensures (c - (lo' - (b.x0 - b.y0))) % 2 == 0
  {
    hide LowDiag, HighDiag;
    var mid, dmin, dmax := b.x0 - b.y0, b.x0 - b.y1, b.x1 - b.y0;
    LowStep(mid - (c - 1), dmin);
    HighStep(mid + (c - 1), dmax);
    assert dmin < mid < dmax;
    LowHigh(mid, c - 1, dmin, dmax);
    LowHigh(mid, c, dmin, dmax);
  }

  lemma LowStep(want: int, dmin: int)
    ensures var l := LowDiag(want, dmin); LowDiag(want - 1, dmin) == if l > dmin then l - 1 else l + 1
  {
  }

  lemma HighStep(want: int, dmax: int)
    ensures var h := HighDiag(want, dmax); HighDiag(want + 1, dmax) == if h < dmax then h + 1 else h - 1
  {
  }

  lemma LowHigh(mid: int, c: nat, dmin: int, dmax: int)
    requires dmin < mid < dmax
    ensures dmin <= LowDiag(mid - c, dmin) <= HighDiag(mid + c, dmax) <= dmax
    ensures (LowDiag(mid - c, dmin) - (mid - c)) % 2 == 0
    ensures (HighDiag(mid + c, dmax) - (mid + c)) % 2 == 0
    ensures (HighDiag(mid + c, dmax) - LowDiag(mid - c, dmin)) % 2 == 0
  {
    assert (mid + c) - (mid - c) == 2 * c;
  }

  lemma WidenRow(b: Box, s: seq<int>, o: int, c: nat, lo: int, hi: int, s': seq<int>, lo': int, hi': int)
    requires b.Valid() && b.x0 < b.x1 && b.y0 < b.y1 && c >= 1 && Row(b, s, o, c - 1, lo, hi)
    requires b.x0 - b.y1 - 1 + o >= 0 && b.x1 - b.y0 + 1 + o < |s| == |s'|
    requires NextBounds(b, lo, hi, lo', hi')
    requires forall d :: InRow(d, lo, hi) ==> 0 <= d + o < |s| && s'[d + o] == s[d + o]
    requires lo > b.x0 - b.y1 ==> s'[lo - 2 + o] < 0
    requires hi < b.x1 - b.y0 ==> s'[hi + 2 + o] < 0
    ensures Widened(b, s', o, c, lo', hi')
  {
    hide Furthest, Unreached, FurthestAt, EntryAt;
    WidenBounds(b, c, lo, hi, lo', hi');
    forall d | InRow(d, lo, hi) ensures FurthestAt(b, s', o, d, c - 1) && EntryAt(b, s', o, d, c - 1) {
      assert FurthestAt(b, s, o, d, c - 1);
      SameEntry(b, s, s', o, d, c - 1);
    }
    hide Bounds;
    var low, high := lo' - 1, hi' + 1;
    forall d | InRow(d, low, high) ensures EntryAt(b, s', o, d, c - 1) {
      if d < lo {
        OutsideRow(b, s', o, c - 1, lo, hi, d);
      } else if d > hi {
        OutsideRow(b, s', o, c - 1, lo, hi, d);
      } else {
        assert InRow(d, lo, hi);
      }
    }
    forall d | InRow(d, lo', hi') ensures Beside(b, s', o, d, c - 1) {
      assert InRow(d - 1, lo, hi) || InRow(d + 1, lo, hi);
    }
  }

  lemma SameEntry(b: Box, s: seq<int>, s': seq<int>, o: int, d: int, c: int)
    requires b.Valid() && FurthestAt(b, s, o, d, c) && |s| == |s'| && s'[d + o] == s[d + o]
    ensures FurthestAt(b, s', o, d, c) && EntryAt(b, s', o, d, c)
  {
  }

  /** Two diagonals outside a row nothing is reached. */
  lemma OutsideRow(b: Box, s: seq<int>, o: int, c: int, lo: int, hi: int, d: int)
    requires b.Valid() && Bounds(b, c, lo, hi) && (d == lo - 2 || d == hi + 2)
    requires 0 <= d + o < |s| && s[d + o] < 0
    ensures EntryAt(b, s, o, d, c)
  {
    FarUnreached(b, s[d + o], d, c);
  }

  /** The row for `c` edits misses no point that `c` edits reach. */
  lemma RowCovers(b: Box, s: seq<int>, o: int, c: nat, lo: int, hi: int, z: int, d: int)
    requires b.Valid() && Row(b, s, o, c, lo, hi) && b.On(d, z) && b.Fwd(z, z - d) == c
    ensures InRow(d, lo, hi) && FurthestAt(b, s, o, d, c) && z <= s[d + o]
  {
    Drift(b, z, z - d);
    assert InRow(d, lo, hi);
    assert FurthestAt(b, s, o, d, c);
  }

  /** Recomputing the entry of one diagonal of the row. */
  lemma RowStep(b: Box, s: seq<int>, o: int, c: nat, lo: int, hi: int, d: int, v: int)
    requires b.Valid() && c >= 1 && c - 2 < b.Dist() && Widened(b, s, o, c, lo, hi) && InRow(d, lo, hi)
    requires (c - (lo - (b.x0 - b.y0))) % 2 == 0
    requires 1 <= d + o < |s| - 1
    requires Snake(b, d, Landing(s[d - 1 + o], s[d + 1 + o]), v)
    ensures Widened(b, s[d + o := v], o, c, lo, hi)
    ensures FurthestAt(b, s[d + o := v], o, d, c)
    ensures forall e :: e != d && FurthestAt(b, s, o, e, c) ==> FurthestAt(b, s[d + o := v], o, e, c)
  {
    hide Furthest, Unreached, Snake, Bounds;
    var s' := s[d + o := v];
    assert InRow(d - 1, lo - 1, hi + 1) && InRow(d + 1, lo - 1, hi + 1);
    assert Beside(b, s, o, d, c - 1);
    FurthestStep(b, d, c, s[d - 1 + o], s[d + 1 + o], v);
    var low, high := lo - 1, hi + 1;
    forall e | InRow(e, low, high) ensures EntryAt(b, s', o, e, c - 1) {
      assert EntryAt(b, s, o, e, c - 1);
    }
    forall e | InRow(e, lo, hi) ensures Beside(b, s', o, e, c - 1) {
      assert Beside(b, s, o, e, c - 1);
    }
  }

  /** The backward vector as a forward vector of the mirrored problem. */
  ghost function Flipped(b: Box, s: seq<int>): (r: seq<int>)
    ensures |r| == |s|
  {
    seq(|s|, i requires 0 <= i < |s| => |b.xs| - s[|s| - 1 - i])
  }

  function Delta(b: Box): int { |b.xs| - |b.ys| }

  /** The layout of both vectors: one entry per diagonal of the whole matrix, and one spare at each end. */
  ghost predicate Layout(b: Box, s: seq<int>, o: int) {
    o == |b.ys| + 1 && |s| == |b.xs| + |b.ys| + 3
  }

  lemma FlippedAt(b: Box, s: seq<int>, o: int, d: int)
    requires Layout(b, s, o) && 0 <= d + o < |s|
    ensures 0 <= Delta(b) - d + o < |s| && Flipped(b, s)[Delta(b) - d + o] == |b.xs| - s[d + o]
  {
  }

  lemma FlippedUpdate(b: Box, s: seq<int>, o: int, d: int, v: int)
    requires Layout(b, s, o) && 0 <= d + o < |s|
    ensures Flipped(b, s[d + o := v]) == Flipped(b, s)[Delta(b) - d + o := |b.xs| - v]
  {
  }

  /** The row of the backward search after `c` edits, diagonals `lo` to `hi`. */
  ghost predicate BackRow(b: Box, s: seq<int>, o: int, c: int, lo: int, hi: int)
    requires b.Valid()
  {
    Row(b.Mirror(), Flipped(b, s), o, c, Delta(b) - hi, Delta(b) - lo)
  }

  /** The two rows overlap on diagonal `d`. */
  ghost predicate Overlap(fd: seq<int>, bd: seq<int>, o: int, d: int) {
    0 <= d + o < |fd| && d + o < |bd| && bd[d + o] <= fd[d + o]
  }

  /** If the two costs add up to the distance, the rows overlap somewhere. */
  lemma RowsOverlap(b: Box, fd: seq<int>, bd: seq<int>, o: int, c: nat, flo: int, fhi: int, c': nat, blo: int, bhi: int)
    returns (d: int)
    requires b.Valid() && Layout(b, fd, o) && Layout(b, bd, o)
    requires Row(b, fd, o, c, flo, fhi) && BackRow(b, bd, o, c', blo, bhi)
    requires b.Dist() == c + c'
    ensures InRow(d, flo, fhi) && InRow(Delta(b) - d, Delta(b) - bhi, Delta(b) - blo) && Overlap(fd, bd, o, d)
  {
    hide Row, Box.Fwd;
    var px, py := SplitPoint(b, c);
    d := px - py;
    assert b.On(d, px) && b.Mirror().On(Delta(b) - d, |b.xs| - px);
    RowCovers(b, fd, o, c, flo, fhi, px, d);
    RowCovers(b.Mirror(), Flipped(b, bd), o, c', Delta(b) - bhi, Delta(b) - blo, |b.xs| - px, Delta(b) - d);
    FlippedAt(b, bd, o, d);
  }

  /** Forward entry beyond the backward one on diagonal `d`: the forward entry is an optimal midpoint. */
  lemma MeetForward(b: Box, fd: seq<int>, bd: seq<int>, o: int, d: int, c: nat, c': nat)
    requires b.Valid() && Layout(b, fd, o) && Layout(b, bd, o) && b.Dist() > c + c' - 1
    requires FurthestAt(b, fd, o, d, c) && FurthestAt(b.Mirror(), Flipped(b, bd), o, Delta(b) - d, c')
    requires Overlap(fd, bd, o, d)
    ensures var v := fd[d + o]; b.Inside(v, v - d) && b.Dist() == c + c' && b.Fwd(v, v - d) == c && b.Bwd(v, v - d) == c'
  {
    FlippedAt(b, bd, o, d);
    Meet(b, d, c, c', fd[d + o], bd[d + o]);
  }

  /** The same with the backward entry as midpoint. */
  lemma MeetBackward(b: Box, fd: seq<int>, bd: seq<int>, o: int, d: int, c: nat, c': nat)
    requires b.Valid() && Layout(b, fd, o) && Layout(b, bd, o) && b.Dist() > c + c' - 1
    requires FurthestAt(b, fd, o, d, c) && FurthestAt(b.Mirror(), Flipped(b, bd), o, Delta(b) - d, c')
    requires Overlap(fd, bd, o, d)
    ensures var u := bd[d + o]; b.Inside(u, u - d) && b.Dist() == c + c' && b.Fwd(u, u - d) == c && b.Bwd(u, u - d) == c'
  {
    hide Box.Fwd, Reversed;
    var m := b.Mirror();
    FlippedAt(b, bd, o, d);
    MirrorMirror(b);
    MirrorDist(b);
    Meet(m, Delta(b) - d, c', c, |b.xs| - bd[d + o], |b.xs| - fd[d + o]);
  }

  /** The scan of a row starts inside the grid on every diagonal. */
  lemma RowStart(b: Box, s: seq<int>, o: int, c: nat, lo: int, hi: int, d: int)
    requires b.Valid() && c >= 1 && Widened(b, s, o, c, lo, hi) && InRow(d, lo, hi)
    requires 1 <= d + o < |s| - 1
    ensures var x := Landing(s[d - 1 + o], s[d + 1 + o]); x >= b.x0 && x - d >= b.y0
  {
    assert InRow(d - 1, lo - 1, hi + 1) && InRow(d + 1, lo - 1, hi + 1);
    assert Beside(b, s, o, d, c - 1);
    LandingReached(b, d, c, s[d - 1 + o], s[d + 1 + o]);
  }

  lemma MirrorEnds(b: Box)
    requires b.Valid()
    ensures var m := b.Mirror();
      m.Valid() && m.x0 == |b.xs| - b.x1 && m.x1 == |b.xs| - b.x0 && m.y0 == |b.ys| - b.y1 && m.y1 == |b.ys| - b.y0
  {
  }

  lemma SameParity(d: int, e: int, lo: int, hi: int)
    requires InRow(d, lo, hi) && InRow(e, lo, hi) && d < e + 2
    ensures d <= e
  {
  }

  /** With the entry of diagonal `e` recomputed the finished part of a row has grown by it. */
  lemma RowProgress(b: Box, s: seq<int>, s': seq<int>, o: int, c: int, lo: int, hi: int, e: int)
    requires b.Valid() && InRow(e, lo, hi) && FurthestAt(b, s', o, e, c)
    requires forall f :: InRow(f, lo, hi) && f < e ==> FurthestAt(b, s, o, f, c)
    requires forall f :: f != e && FurthestAt(b, s, o, f, c) ==> FurthestAt(b, s', o, f, c)
    ensures forall f :: InRow(f, lo, hi) && f < e + 2 ==> FurthestAt(b, s', o, f, c)
  {
    hide FurthestAt;
    forall f | InRow(f, lo, hi) && f < e + 2 ensures FurthestAt(b, s', o, f, c) {
      SameParity(f, e, lo, hi);
      if f != e { assert FurthestAt(b, s, o, f, c); }
    }
  }

  lemma RowDone(b: Box, s: seq<int>, o: int, c: int, lo: int, hi: int)
    requires b.Valid() && Widened(b, s, o, c, lo, hi)
    requires forall e :: InRow(e, lo, hi) ==> FurthestAt(b, s, o, e, c)
    ensures Row(b, s, o, c, lo, hi)
  {
  }

  /** The backward entries of all diagonals above `d` have been recomputed. */
  ghost predicate BackDone(b: Box, s: seq<int>, o: int, c: int, lo: int, hi: int, d: int)
    requires b.Valid()
  {
    forall f :: InRow(f, Delta(b) - hi, Delta(b) - lo) && f < Delta(b) - d ==> FurthestAt(b.Mirror(), Flipped(b, s), o, f, c)
  }

  /** On no diagonal of the row above `d` that lies between `from` and `to` do the entries overlap. */
  ghost predicate Apart(fd: seq<int>, bd: seq<int>, o: int, lo: int, hi: int, from: int, to: int, d: int) {
    forall e :: InRow(e, lo, hi) && e > d && from <= e <= to ==> !Overlap(fd, bd, o, e)
  }

  lemma StartScan(b: Box, fd: seq<int>, bd: seq<int>, o: int, c: int, lo: int, hi: int, from: int, to: int)
    requires b.Valid()
    ensures BackDone(b, bd, o, c, lo, hi, hi)
    ensures Apart(fd, bd, o, lo, hi, from, to, hi)
  {
  }

  lemma ApartDown(fd: seq<int>, bd: seq<int>, o: int, lo: int, hi: int, from: int, to: int, d: int)
    requires d < lo && (hi - d) % 2 == 0
    ensures Apart(fd, bd, o, lo, hi, from, to, d) ==> Apart(fd, bd, o, lo, hi, from, to, lo - 1)
  {
  }

  /** A new backward entry `v` on diagonal `d` leaves the rows apart above, and down to it unless it overlaps itself. */
  lemma ApartBelow(fd: seq<int>, bd: seq<int>, o: int, lo: int, hi: int, from: int, to: int, d: int, v: int)
    requires InRow(d, lo, hi) && (hi - lo) % 2 == 0 && 0 <= d + o < |fd| == |bd|
    ensures var bd' := bd[d + o := v];
      Apart(fd, bd, o, lo, hi, from, to, d) ==>
        && Apart(fd, bd', o, lo, hi, from, to, d)
        && ((from <= d <= to && v <= fd[d + o]) || Apart(fd, bd', o, lo, hi, from, to, d - 2))
  {
    var bd' := bd[d + o := v];
    if Apart(fd, bd, o, lo, hi, from, to, d) {
      forall e | InRow(e, lo, hi) && e > d && from <= e <= to ensures !Overlap(fd, bd', o, e) {
        assert !Overlap(fd, bd, o, e);
      }
      if !(from <= d <= to && v <= fd[d + o]) {
        forall e | InRow(e, lo, hi) && e > d - 2 && from <= e <= to ensures !Overlap(fd, bd', o, e) {
          SameParity(d, e, lo, hi);
        }
      }
    }
  }

  /** The same for a new forward entry. */
  lemma ApartAbove(fd: seq<int>, bd: seq<int>, o: int, lo: int, hi: int, from: int, to: int, d: int, v: int)
    requires InRow(d, lo, hi) && (hi - lo) % 2 == 0 && 0 <= d + o < |fd| == |bd|
    ensures var fd' := fd[d + o := v];
      Apart(fd, bd, o, lo, hi, from, to, d) ==>
        && Apart(fd', bd, o, lo, hi, from, to, d)
        && ((from <= d <= to && bd[d + o] <= v) || Apart(fd', bd, o, lo, hi, from, to, d - 2))
  {
    var fd' := fd[d + o := v];
    if Apart(fd, bd, o, lo, hi, from, to, d) {
      forall e | InRow(e, lo, hi) && e > d && from <= e <= to ensures !Overlap(fd', bd, o, e) {
        assert !Overlap(fd, bd, o, e);
      }
      if !(from <= d <= to && bd[d + o] <= v) {
        forall e | InRow(e, lo, hi) && e > d - 2 && from <= e <= to ensures !Overlap(fd', bd, o, e) {
          SameParity(d, e, lo, hi);
        }
      }
    }
  }

  lemma BackProgress(b: Box, s: seq<int>, o: int, c: int, lo: int, hi: int, d: int, v: int)
    requires b.Valid() && InRow(Delta(b) - d, Delta(b) - hi, Delta(b) - lo) && 0 <= d + o < |s|
    requires BackDone(b, s, o, c, lo, hi, d)
    requires FurthestAt(b.Mirror(), Flipped(b, s[d + o := v]), o, Delta(b) - d, c)
    requires forall f :: f != Delta(b) - d && FurthestAt(b.Mirror(), Flipped(b, s), o, f, c) ==>
      FurthestAt(b.Mirror(), Flipped(b, s[d + o := v]), o, f, c)
    ensures BackDone(b, s[d + o := v], o, c, lo, hi, d - 2)
  {
    hide Flipped, FurthestAt, Box.Mirror;
    RowProgress(b.Mirror(), Flipped(b, s), Flipped(b, s[d + o := v]), o, c, Delta(b) - hi, Delta(b) - lo, Delta(b) - d);
  }

  lemma BackRowDone(b: Box, s: seq<int>, o: int, c: int, lo: int, hi: int, d: int)
    requires b.Valid() && Widened(b.Mirror(), Flipped(b, s), o, c, Delta(b) - hi, Delta(b) - lo)
    requires d < lo && BackDone(b, s, o, c, lo, hi, d)
    ensures BackRow(b, s, o, c, lo, hi)
  {
  }

  /** Diagonals on which the two searches compare entries belong to both rows. */
  lemma InBothRows(b: Box, c: nat, c': nat, flo: int, fhi: int, blo: int, bhi: int, d: int)
    requires Trimmed(b) && Bounds(b, c, flo, fhi) && Bounds(b.Mirror(), c', Delta(b) - bhi, Delta(b) - blo)
    requires flo <= d <= fhi && blo <= d <= bhi
    requires ((b.x0 - b.y0) - (b.x1 - b.y1) - c - c') % 2 == 0
    ensures InRow(d, flo, fhi) <==> InRow(Delta(b) - d, Delta(b) - bhi, Delta(b) - blo)
    ensures InRow(d, flo, fhi) <==> InRow(d, blo, bhi)
  {
    hide Box.Match;
    var m := b.Mirror();
    MirrorEnds(b);
    LowHigh(b.x0 - b.y0, c, b.x0 - b.y1, b.x1 - b.y0);
    LowHigh(m.x0 - m.y0, c', m.x0 - m.y1, m.x1 - m.y0);
    hide *;
    SameParities(b.x0 - b.y0, b.x1 - b.y1, c, c', flo, blo, bhi, d, Delta(b));
  }

  lemma SameParities(fmid: int, bmid: int, c: int, c': int, flo: int, blo: int, bhi: int, d: int, delta: int)
    requires (flo - (fmid - c)) % 2 == 0 && ((delta - bhi) - (delta - bmid - c')) % 2 == 0
    requires ((delta - blo) - (delta - bhi)) % 2 == 0 && (fmid - bmid - c - c') % 2 == 0
    ensures (d - flo) % 2 == 0 <==> ((delta - d) - (delta - bhi)) % 2 == 0
    ensures (d - flo) % 2 == 0 <==> (d - blo) % 2 == 0
  {
  }

  /** The point of the box nearest to entry `v` on its diagonal, as the expense cut-off computes it. */
  function ClampColumn(b: Box, v: int, d: int): int {
    var x := if v < b.x1 then v else b.x1;
    if x - d > b.y1 then b.y1 + d else x
  }

  lemma ClampedGood(b: Box, v: int, d: int, c: int)
    requires Trimmed(b) && Furthest(b, v, d, c) && c >= 1 && b.x0 - b.y1 <= d <= b.x1 - b.y0
    requires (c - (d - (b.x0 - b.y0))) % 2 == 0
    ensures var x := ClampColumn(b, v, d); b.Inside(x, x - d) && b.Fwd(x, x - d) <= c && x + (x - d) > b.x0 + b.y0
  {
    var x := ClampColumn(b, v, d);
    Diagonal(b, x, x - d, v - x);
    if d == b.x0 - b.y0 {
      Neighbours(b, b.x0, b.y0);
      assert b.On(d, b.x0 + 1);
    }
  }

  lemma RowIndices(b: Box, s: seq<int>, o: int, c: int, lo: int, hi: int)
    requires b.Valid() && Row(b, s, o, c, lo, hi)
    ensures forall d :: InRow(d, lo, hi) ==> 0 <= d + o < |s|
  {
    forall d | InRow(d, lo, hi) ensures 0 <= d + o < |s| { assert FurthestAt(b, s, o, d, c); }
  }

  lemma RowClamped(b: Box, s: seq<int>, o: int, c: int, lo: int, hi: int, d: int)
    requires Trimmed(b) && Row(b, s, o, c, lo, hi) && InRow(d, lo, hi) && c >= 1
    requires b.x0 - b.y1 <= lo <= hi <= b.x1 - b.y0 && (c - (lo - (b.x0 - b.y0))) % 2 == 0
    ensures 0 <= d + o < |s|
    ensures var x := ClampColumn(b, s[d + o], d);
      b.Inside(x, x - d) && b.Fwd(x, x - d) <= c && x + (x - d) > b.x0 + b.y0
  {
    assert FurthestAt(b, s, o, d, c);
    ClampedGood(b, s[d + o], d, c);
  }

  lemma RowBounds(b: Box, s: seq<int>, o: int, c: int, lo: int, hi: int)
    requires b.Valid() && Row(b, s, o, c, lo, hi)
    ensures Bounds(b, c, lo, hi)
  {
  }

  lemma BackRowBounds(b: Box, s: seq<int>, o: int, c: int, lo: int, hi: int)
    requires b.Valid() && BackRow(b, s, o, c, lo, hi)
    ensures Bounds(b.Mirror(), c, Delta(b) - hi, Delta(b) - lo)
  {
  }

  lemma WidenBackRow(b: Box, s: seq<int>, o: int, c: nat, lo: int, hi: int, s': seq<int>, lo': int, hi': int)
    requires Trimmed(b) && c >= 1 && Layout(b, s, o) && Layout(b, s', o) && BackRow(b, s, o, c - 1, lo, hi)
    requires NextBounds(b, lo, hi, lo', hi')
    requires forall i :: 0 <= i < |s| && i != lo - 2 + o && i != hi + 2 + o ==> s'[i] == s[i]
    requires lo > b.x0 - b.y1 ==> s'[lo - 2 + o] > |b.xs|
    requires hi < b.x1 - b.y0 ==> s'[hi + 2 + o] > |b.xs|
    ensures Widened(b.Mirror(), Flipped(b, s'), o, c, Delta(b) - hi', Delta(b) - lo')
  {
    hide Box.Match, FurthestAt, Widened;
    var m := b.Mirror();
    MirrorEnds(b);
    RowIndices(m, Flipped(b, s), o, c - 1, Delta(b) - hi, Delta(b) - lo);
    WidenRow(m, Flipped(b, s), o, c, Delta(b) - hi, Delta(b) - lo, Flipped(b, s'), Delta(b) - hi', Delta(b) - lo');
  }

  /** Bounds of a backward row in the unmirrored problem. */
  lemma BackBounds(b: Box, s: seq<int>, o: int, c: nat, lo: int, hi: int, lo': int, hi': int)
    requires Trimmed(b) && c >= 1 && BackRow(b, s, o, c - 1, lo, hi) && NextBounds(b, lo, hi, lo', hi')
    ensures b.x0 - b.y1 <= lo' <= hi' <= b.x1 - b.y0 && (hi' - lo') % 2 == 0
    ensures (c - (Delta(b) - hi' - (b.Mirror().x0 - b.Mirror().y0))) % 2 == 0
    ensures b.x0 - b.y1 <= lo <= hi <= b.x1 - b.y0
    ensures Bounds(b.Mirror(), c, Delta(b) - hi', Delta(b) - lo')
  {
    hide Box.Match, FurthestAt;
    MirrorEnds(b);
    WidenBounds(b.Mirror(), c, Delta(b) - hi, Delta(b) - lo, Delta(b) - hi', Delta(b) - lo');
  }

  // ---------- the steps of the main loop ----------

  lemma StartRows(b: Box, fd: seq<int>, bd: seq<int>, o: int)
    requires Trimmed(b) && Layout(b, fd, o) && Layout(b, bd, o)
    requires fd[b.x0 - b.y0 + o] == b.x0 && bd[b.x1 - b.y1 + o] == b.x1
    ensures Row(b, fd, o, 0, b.x0 - b.y0, b.x0 - b.y0)
    ensures BackRow(b, bd, o, 0, b.x1 - b.y1, b.x1 - b.y1)
  {
    hide Row;
    FirstRow(b, fd, o);
    TrimmedMirror(b);
    FlippedAt(b, bd, o, b.x1 - b.y1);
    FirstRow(b.Mirror(), Flipped(b, bd), o);
  }

  lemma DistParity(b: Box)
    requires b.Valid()
    ensures (b.Dist() - ((b.x0 - b.y0) - (b.x1 - b.y1))) % 2 == 0
  {
    Drift(b, b.x1, b.y1);
  }

  /** An odd search that met in the forward row. */
  lemma MetForward(b: Box, fd: seq<int>, bd: seq<int>, o: int, c: nat, flo: int, fhi: int, blo: int, bhi: int, x: int, y: int)
    requires Trimmed(b) && Layout(b, fd, o) && Layout(b, bd, o) && c >= 1 && b.Dist() > 2 * (c - 1)
    requires ((b.x0 - b.y0) - (b.x1 - b.y1)) % 2 == 1
    requires Bounds(b, c, flo, fhi) && BackRow(b, bd, o, c - 1, blo, bhi)
    requires InRow(x - y, flo, fhi) && blo <= x - y <= bhi && FurthestAt(b, fd, o, x - y, c)
    requires Overlap(fd, bd, o, x - y) && x == fd[x - y + o]
    ensures b.Inside(x, y) && b.Dist() == 2 * c - 1 && b.Fwd(x, y) == c && b.Bwd(x, y) == c - 1
  {
    hide Box.Match, FurthestAt, Box.Fwd;
    var d := x - y;
    InBothRows(b, c, c - 1, flo, fhi, blo, bhi, d);
    assert FurthestAt(b.Mirror(), Flipped(b, bd), o, Delta(b) - d, c - 1);
    MeetForward(b, fd, bd, o, d, c, c - 1);
  }

  lemma NotMetForward(b: Box, fd: seq<int>, bd: seq<int>, o: int, c: nat, flo: int, fhi: int, blo: int, bhi: int, odd: bool)
    requires Trimmed(b) && Layout(b, fd, o) && Layout(b, bd, o) && c >= 1 && b.Dist() > 2 * (c - 1)
    requires odd == (((b.x0 - b.y0) - (b.x1 - b.y1)) % 2 == 1)
    requires Row(b, fd, o, c, flo, fhi) && BackRow(b, bd, o, c - 1, blo, bhi)
    requires odd ==> Apart(fd, bd, o, flo, fhi, blo, bhi, flo - 1)
    ensures b.Dist() > 2 * c - 1
  {
    hide Row, BackRow, Box.Match, Overlap;
    DistParity(b);
    if b.Dist() == 2 * c - 1 {
      var d := RowsOverlap(b, fd, bd, o, c, flo, fhi, c - 1, blo, bhi);
    }
  }

  /** An even search that met in the backward row. */
  lemma MetBackward(b: Box, fd: seq<int>, bd: seq<int>, o: int, c: nat, flo: int, fhi: int, blo: int, bhi: int, x: int, y: int)
    requires Trimmed(b) && Layout(b, fd, o) && Layout(b, bd, o) && c >= 1 && b.Dist() > 2 * c - 1
    requires ((b.x0 - b.y0) - (b.x1 - b.y1)) % 2 == 0
    requires Row(b, fd, o, c, flo, fhi) && Bounds(b.Mirror(), c, Delta(b) - bhi, Delta(b) - blo)
    requires InRow(x - y, blo, bhi) && flo <= x - y <= fhi
    requires FurthestAt(b.Mirror(), Flipped(b, bd), o, Delta(b) - (x - y), c)
    requires Overlap(fd, bd, o, x - y) && x == bd[x - y + o]
    ensures b.Inside(x, y) && b.Dist() == 2 * c && b.Fwd(x, y) == c && b.Bwd(x, y) == c
  {
    hide Box.Match, FurthestAt, Box.Fwd;
    var d := x - y;
    InBothRows(b, c, c, flo, fhi, blo, bhi, d);
    assert FurthestAt(b, fd, o, d, c);
    MeetBackward(b, fd, bd, o, d, c, c);
  }

  lemma NotMetBackward(b: Box, fd: seq<int>, bd: seq<int>, o: int, c: nat, flo: int, fhi: int, blo: int, bhi: int, odd: bool)
    requires Trimmed(b) && Layout(b, fd, o) && Layout(b, bd, o) && c >= 1 && b.Dist() > 2 * c - 1
    requires odd == (((b.x0 - b.y0) - (b.x1 - b.y1)) % 2 == 1)
    requires Row(b, fd, o, c, flo, fhi) && BackRow(b, bd, o, c, blo, bhi)
    requires (bhi - blo) % 2 == 0
    requires !odd ==> Apart(fd, bd, o, blo, bhi, flo, fhi, blo - 1)
    ensures b.Dist() > 2 * c
  {
    hide Row, BackRow, Box.Match, Overlap;
    DistParity(b);
    if b.Dist() == 2 * c {
      var d := RowsOverlap(b, fd, bd, o, c, flo, fhi, c, blo, bhi);
      RowParity(d, blo, bhi, Delta(b));
    }
  }

  lemma RowParity(d: int, blo: int, bhi: int, delta: int)
    requires InRow(delta - d, delta - bhi, delta - blo) && (bhi - blo) % 2 == 0
    ensures InRow(d, blo, bhi)
  {
  }

  lemma CornerDistances(b: Box)
    requires b.Valid()
    ensures b.Fwd(b.x0, b.y0) == 0 && b.Bwd(b.x1, b.y1) == 0
    ensures b.Bwd(b.x0, b.y0) == b.Dist()
  {
    BwdUnfold(b, b.x1, b.y1);
    MirrorDist(b);
  }
}
