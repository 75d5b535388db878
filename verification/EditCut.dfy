/** Where a comparison cuts its box and what it counts in the end, said without reference to the search. */
module EditCut {
  import opened EditGrid
  import opened EditMeaning
  import opened EditSearch

  datatype Partition = Partition(xmid: int, ymid: int, loMinimal: bool, hiMinimal: bool)

  /** A point of an optimal path, `c` edits from the upper left corner. */
  ghost predicate Split(b: Box, c: int, x: int, y: int)
    requires b.Valid()
  {
    b.Inside(x, y) && b.Fwd(x, y) == c && b.Bwd(x, y) == b.Dist() - c
  }

  /** Of these points the lowest on the highest diagonal. */
  ghost predicate LastSplit(b: Box, c: int, x: int, y: int)
    requires b.Valid()
  {
    && Split(b, c, x, y)
    && forall p, q :: Split(b, c, p, q) ==> p - q < x - y || (p - q == x - y && p <= x)
  }

  /** Of these points the uppermost on the highest diagonal. */
  ghost predicate FirstSplit(b: Box, c: int, x: int, y: int)
    requires b.Valid()
  {
    && Split(b, c, x, y)
    && forall p, q :: Split(b, c, p, q) ==> p - q < x - y || (p - q == x - y && x <= p)
  }

  /** Points the search from above has on its diagonals after `c` edits. */
  ghost predicate FwdReach(b: Box, c: int, x: int, y: int)
    requires b.Valid()
  {
    b.Inside(x, y) && b.Fwd(x, y) <= c && (c - b.Fwd(x, y)) % 2 == 0
  }

  ghost predicate BwdReach(b: Box, c: int, x: int, y: int)
    requires b.Valid()
  {
    b.Inside(x, y) && b.Bwd(x, y) <= c && (c - b.Bwd(x, y)) % 2 == 0
  }

  /** The first point comes after the second, by `x + y` and then by `x`. */
  ghost predicate NotAfter(p: int, q: int, x: int, y: int) {
    p + q < x + y || (p + q == x + y && p <= x)
  }

  ghost predicate NotBefore(p: int, q: int, x: int, y: int) {
    x + y < p + q || (x + y == p + q && p <= x)
  }

  ghost predicate BestFwd(b: Box, c: int, x: int, y: int)
    requires b.Valid()
  {
    FwdReach(b, c, x, y) && forall p, q :: FwdReach(b, c, p, q) ==> NotAfter(p, q, x, y)
  }

  ghost predicate BestBwd(b: Box, c: int, x: int, y: int)
    requires b.Valid()
  {
    BwdReach(b, c, x, y) && forall p, q :: BwdReach(b, c, p, q) ==> NotBefore(p, q, x, y)
  }

  /** The better of the two best points, by the way each has come. */
  function Better(b: Box, fx: int, fy: int, gx: int, gy: int): Partition {
    if (b.x1 + b.y1) - (gx + gy) < (fx + fy) - (b.x0 + b.y0) then Partition(fx, fy, true, false)
    else Partition(gx, gy, false, true)
  }

  /** A search may finish if it must be minimal, or if the distance is within the expense bound. */
  ghost predicate Affordable(b: Box, minimal: bool, expense: int)
    requires b.Valid()
  {
    minimal || b.Dist() <= 2 * expense
  }

  /** Where the middle of an optimal path is cut. */
  ghost predicate Middle(b: Box, x: int, y: int)
    requires b.Valid()
  {
    if b.Dist() % 2 == 1 then LastSplit(b, b.Dist() / 2 + 1, x, y) else FirstSplit(b, b.Dist() / 2, x, y)
  }

  ghost predicate Abandoned(b: Box, c: int, part: Partition)
    requires b.Valid()
  {
    exists fx, fy, gx, gy :: BestFwd(b, c, fx, fy) && BestBwd(b, c, gx, gy) && part == Better(b, fx, fy, gx, gy)
  }

  /** `part` is where the box is cut. */
  ghost predicate CutAt(b: Box, minimal: bool, expense: int, part: Partition)
    requires b.Valid()
  {
    if Affordable(b, minimal, expense) then part.loMinimal && part.hiMinimal && Middle(b, part.xmid, part.ymid)
    else Abandoned(b, expense, part)
  }

  /** How far the search that reached the point has come, by `x + y`. */
  function Progress(b: Box, part: Partition): int {
    if part.loMinimal then (part.xmid + part.ymid) - (b.x0 + b.y0) else (b.x1 + b.y1) - (part.xmid + part.ymid)
  }

  /** An abandoned search cuts where one of the searches has come furthest, and the other has not come as far or, if it
      is the one from above, no further. */
  lemma AbandonedFurthest(b: Box, c: int, part: Partition)
    requires b.Valid() && Abandoned(b, c, part)
    ensures part.loMinimal != part.hiMinimal
    ensures if part.loMinimal then FwdReach(b, c, part.xmid, part.ymid) else BwdReach(b, c, part.xmid, part.ymid)
    ensures forall p, q :: FwdReach(b, c, p, q) ==> (p + q) - (b.x0 + b.y0) <= Progress(b, part)
    ensures forall p, q :: BwdReach(b, c, p, q) ==>
      (b.x1 + b.y1) - (p + q) <= Progress(b, part) - if part.loMinimal then 1 else 0
  {
    hide FwdReach, BwdReach;
    var fx, fy, gx, gy :| BestFwd(b, c, fx, fy) && BestBwd(b, c, gx, gy) && part == Better(b, fx, fy, gx, gy);
  }

  // ---------- there is exactly one cut ----------

  lemma LexUnique(b: Box, c: int, x: int, y: int, p: int, q: int)
    requires b.Valid()
    ensures LastSplit(b, c, x, y) && LastSplit(b, c, p, q) ==> x == p && y == q
    ensures FirstSplit(b, c, x, y) && FirstSplit(b, c, p, q) ==> x == p && y == q
    ensures BestFwd(b, c, x, y) && BestFwd(b, c, p, q) ==> x == p && y == q
    ensures BestBwd(b, c, x, y) && BestBwd(b, c, p, q) ==> x == p && y == q
  {
    hide Split, FwdReach, BwdReach;
  }

  lemma CutUnique(b: Box, minimal: bool, expense: int, part: Partition, other: Partition)
    requires b.Valid() && CutAt(b, minimal, expense, part) && CutAt(b, minimal, expense, other)
    ensures part == other
  {
    hide LastSplit, FirstSplit, BestFwd, BestBwd;
    if Affordable(b, minimal, expense) {
      LexUnique(b, b.Dist() / 2 + 1, part.xmid, part.ymid, other.xmid, other.ymid);
      LexUnique(b, b.Dist() / 2, part.xmid, part.ymid, other.xmid, other.ymid);
    } else {
      var fx, fy, gx, gy :| BestFwd(b, expense, fx, fy) && BestBwd(b, expense, gx, gy) && part == Better(b, fx, fy, gx, gy);
      var fx', fy', gx', gy' :|
        BestFwd(b, expense, fx', fy') && BestBwd(b, expense, gx', gy') && other == Better(b, fx', fy', gx', gy');
      LexUnique(b, expense, fx, fy, fx', fy');
      LexUnique(b, expense, gx, gy, gx', gy');
    }
  }

  /** Every non-empty finite set of points has one that comes last. */
  lemma {:induction false} LexMax(s: set<(int, int)>, f: (int, int) -> int, g: (int, int) -> int) returns (m: (int, int))
    requires s != {}
    ensures m in s && forall p :: p in s ==> f(p.0, p.1) < f(m.0, m.1) || (f(p.0, p.1) == f(m.0, m.1) && g(p.0, p.1) <= g(m.0, m.1))
    decreases s
  {
    m :| m in s;
    if s != {m} {
      var rest := LexMax(s - {m}, f, g);
      if f(m.0, m.1) < f(rest.0, rest.1) || (f(m.0, m.1) == f(rest.0, rest.1) && g(m.0, m.1) <= g(rest.0, rest.1)) {
        m := rest;
      }
    }
  }

  ghost function Points(b: Box): set<(int, int)> {
    set x, y | b.x0 <= x <= b.x1 && b.y0 <= y <= b.y1 :: (x, y)
  }

  lemma SplitsExist(b: Box, c: nat)
    requires b.Valid() && c <= b.Dist()
    ensures exists x, y :: LastSplit(b, c, x, y)
    ensures exists x, y :: FirstSplit(b, c, x, y)
  {
    hide Box.Fwd;
    var s := set p <- Points(b) | Split(b, c, p.0, p.1);
    var px, py := SplitPoint(b, c);
    assert (px, py) in s;
    forall x, y | Split(b, c, x, y) ensures (x, y) in s {}
    var last := LexMax(s, (x, y) => x - y, (x, y) => x);
    var first := LexMax(s, (x, y) => x - y, (x, y) => -x);
    assert LastSplit(b, c, last.0, last.1);
    assert FirstSplit(b, c, first.0, first.1);
  }

  /** Both searches leave their corner: each has reached a point one or two edits away, whatever the parity. */
  lemma LeaveCorner(b: Box, c: int)
    requires Trimmed(b) && c >= 1
    ensures if c % 2 == 1 then FwdReach(b, c, b.x0 + 1, b.y0) else FwdReach(b, c, b.x0 + 1, b.y0 + 1)
    ensures if c % 2 == 1 then BwdReach(b, c, b.x1 - 1, b.y1) else BwdReach(b, c, b.x1 - 1, b.y1 - 1)
  {
    assert b.Fwd(b.x0 + 1, b.y0) == 1 && b.Fwd(b.x0, b.y0 + 1) == 1;
    assert b.Fwd(b.x0 + 1, b.y0 + 1) == 2;
    BwdUnfold(b, b.x1 - 1, b.y1);
    BwdUnfold(b, b.x1, b.y1 - 1);
    BwdUnfold(b, b.x1 - 1, b.y1 - 1);
  }

  lemma BestsExist(b: Box, c: int)
    requires Trimmed(b) && c >= 1
    ensures exists x, y :: BestFwd(b, c, x, y)
    ensures exists x, y :: BestBwd(b, c, x, y)
  {
    LeaveCorner(b, c);
    hide Box.Fwd, Box.Match;
    var s := set p <- Points(b) | FwdReach(b, c, p.0, p.1);
    forall x, y | FwdReach(b, c, x, y) ensures (x, y) in s {}
    var m := LexMax(s, (x, y) => x + y, (x, y) => x);
    assert BestFwd(b, c, m.0, m.1);
    var t := set p <- Points(b) | BwdReach(b, c, p.0, p.1);
    forall x, y | BwdReach(b, c, x, y) ensures (x, y) in t {}
    var n := LexMax(t, (x, y) => -(x + y), (x, y) => x);
    assert BestBwd(b, c, n.0, n.1);
  }

  lemma CutExists(b: Box, minimal: bool, expense: int)
    requires Trimmed(b) && expense >= 1
    ensures exists part :: CutAt(b, minimal, expense, part)
  {
    hide LastSplit, FirstSplit, BestFwd, BestBwd, Box.Match;
    if Affordable(b, minimal, expense) {
      TrimmedDist(b);
      var c := if b.Dist() % 2 == 1 then b.Dist() / 2 + 1 else b.Dist() / 2;
      SplitsExist(b, c);
      var x, y :| if b.Dist() % 2 == 1 then LastSplit(b, c, x, y) else FirstSplit(b, c, x, y);
      assert CutAt(b, minimal, expense, Partition(x, y, true, true));
    } else {
      BestsExist(b, expense);
      var fx, fy :| BestFwd(b, expense, fx, fy);
      var gx, gy :| BestBwd(b, expense, gx, gy);
      assert CutAt(b, minimal, expense, Better(b, fx, fy, gx, gy));
    }
  }

  /** The cut lies in the box and makes both parts smaller; a finished search cuts an optimal path. */
  lemma CutProper(b: Box, minimal: bool, expense: int, part: Partition)
    requires Trimmed(b) && expense >= 1 && CutAt(b, minimal, expense, part)
    ensures b.Inside(part.xmid, part.ymid)
    ensures (part.xmid, part.ymid) != (b.x0, b.y0) && (part.xmid, part.ymid) != (b.x1, b.y1)
    ensures Affordable(b, minimal, expense) ==> b.Fwd(part.xmid, part.ymid) + b.Bwd(part.xmid, part.ymid) == b.Dist()
    ensures Affordable(b, minimal, expense) <==> part.loMinimal && part.hiMinimal
  {
    TrimmedDist(b);
    CornerDistances(b);
    LeaveCorner(b, expense);
    hide Box.Fwd, Box.Match;
    var x, y, dist := part.xmid, part.ymid, b.Dist();
    if Affordable(b, minimal, expense) {
      assert Split(b, if dist % 2 == 1 then dist / 2 + 1 else dist / 2, x, y);
    } else {
      var fx, fy, gx, gy :| BestFwd(b, expense, fx, fy) && BestBwd(b, expense, gx, gy) && part == Better(b, fx, fy, gx, gy);
    }
  }

  /** Where a box is cut. */
  ghost function TheCut(b: Box, minimal: bool, expense: int): (part: Partition)
    requires Trimmed(b) && expense >= 1
    ensures CutAt(b, minimal, expense, part)
  {
    CutExists(b, minimal, expense);
    var part :| CutAt(b, minimal, expense, part);
    part
  }

  // ---------- the whole recursion ----------

  /** The box without its common head. */
  ghost function DropHead(b: Box): (t: Box)
    requires b.Valid()
    ensures t.Valid() && t.xs == b.xs && t.ys == b.ys && t.x1 == b.x1 && t.y1 == b.y1 && b.x0 <= t.x0 && b.y0 <= t.y0
    ensures !t.Match(t.x0, t.y0)
    decreases b.x1 - b.x0
  {
    if b.Match(b.x0, b.y0) then DropHead(b.(x0 := b.x0 + 1, y0 := b.y0 + 1)) else b
  }

  /** The box without its common tail. */
  ghost function DropTail(b: Box): (t: Box)
    requires b.Valid()
    ensures t.Valid() && t.xs == b.xs && t.ys == b.ys && t.x0 == b.x0 && t.y0 == b.y0 && t.x1 <= b.x1 && t.y1 <= b.y1
    ensures !t.Match(t.x1 - 1, t.y1 - 1)
    ensures !b.Match(b.x0, b.y0) ==> !t.Match(t.x0, t.y0)
    decreases b.x1 - b.x0
  {
    if b.Match(b.x1 - 1, b.y1 - 1) then DropTail(b.(x1 := b.x1 - 1, y1 := b.y1 - 1)) else b
  }

  ghost function Bare(b: Box): (t: Box)
    requires b.Valid()
    ensures t.Valid() && t.xs == b.xs && t.ys == b.ys
    ensures b.x0 <= t.x0 <= t.x1 <= b.x1 && b.y0 <= t.y0 <= t.y1 <= b.y1
    ensures !t.Match(t.x0, t.y0) && !t.Match(t.x1 - 1, t.y1 - 1)
  {
    DropTail(DropHead(b))
  }

  /** Insertions and deletions that a comparison without edit limit counts. */
  ghost function Edits(b: Box, minimal: bool, expense: int): (e: (int, int))
    requires b.Valid() && expense >= 1
    ensures e.0 >= 0 && e.1 >= 0
    decreases b.x1 - b.x0 + b.y1 - b.y0
  {
    var t := Bare(b);
    if t.x0 == t.x1 || t.y0 == t.y1 then (t.x1 - t.x0, t.y1 - t.y0)
    else
      var part := TheCut(t, minimal, expense);
      CutProper(t, minimal, expense, part);
      var lower := Edits(t.(x1 := part.xmid, y1 := part.ymid), part.loMinimal, expense);
      var upper := Edits(t.(x0 := part.xmid, y0 := part.ymid), part.hiMinimal, expense);
      (lower.0 + upper.0, lower.1 + upper.1)
  }

  /** Cutting a trimmed box where the search cuts it adds up the counts of the parts. */
  lemma EditsCut(t: Box, minimal: bool, expense: int, part: Partition)
    requires Trimmed(t) && expense >= 1 && CutAt(t, minimal, expense, part)
    ensures t.Inside(part.xmid, part.ymid)
    ensures (part.xmid, part.ymid) != (t.x0, t.y0) && (part.xmid, part.ymid) != (t.x1, t.y1)
    ensures var l := Edits(t.(x1 := part.xmid, y1 := part.ymid), part.loMinimal, expense);
      var u := Edits(t.(x0 := part.xmid, y0 := part.ymid), part.hiMinimal, expense);
      Edits(t, minimal, expense) == (l.0 + u.0, l.1 + u.1)
  {
    hide CutAt, Box.Fwd;
    CutProper(t, minimal, expense, part);
    CutUnique(t, minimal, expense, part, TheCut(t, minimal, expense));
    assert Bare(t) == t;
  }

  /** Trimming first makes no difference. */
  lemma EditsBare(b: Box, minimal: bool, expense: int)
    requires b.Valid() && expense >= 1
    ensures Edits(Bare(b), minimal, expense) == Edits(b, minimal, expense)
  {
    hide CutAt;
    assert Bare(Bare(b)) == Bare(b);
  }

  lemma EditsEmpty(t: Box, minimal: bool, expense: int)
    requires t.Valid() && expense >= 1 && (t.x0 == t.x1 || t.y0 == t.y1)
    ensures Edits(t, minimal, expense) == (t.x1 - t.x0, t.y1 - t.y0)
  {
    assert Bare(t) == t;
  }

  lemma {:induction false} DropHeadKeeps(b: Box)
    requires b.Valid()
    ensures DropHead(b).Dist() == b.Dist()
    ensures forall e0, e1 :: Edited(DropHead(b), e0, e1) ==> Edited(b, e0, e1)
    decreases b.x1 - b.x0
  {
    hide Edited, Box.Fwd;
    if b.Match(b.x0, b.y0) {
      TrimFront(b);
      DropHeadKeeps(b.(x0 := b.x0 + 1, y0 := b.y0 + 1));
    }
  }

  lemma {:induction false} DropTailKeeps(b: Box)
    requires b.Valid()
    ensures DropTail(b).Dist() == b.Dist()
    ensures forall e0, e1 :: Edited(DropTail(b), e0, e1) ==> Edited(b, e0, e1)
    decreases b.x1 - b.x0
  {
    hide Edited, Box.Fwd;
    if b.Match(b.x1 - 1, b.y1 - 1) {
      TrimBack(b);
      DropTailKeeps(b.(x1 := b.x1 - 1, y1 := b.y1 - 1));
    }
  }

  lemma BareTrimmed(b: Box)
    requires b.Valid() && Bare(b).x0 < Bare(b).x1 && Bare(b).y0 < Bare(b).y1
    ensures Trimmed(Bare(b))
  {
  }

  /** Common head and tail add nothing to the distance and are matched in any case. */
  lemma BareKeeps(b: Box)
    requires b.Valid()
    ensures Bare(b).Dist() == b.Dist()
    ensures forall e0, e1 :: Edited(Bare(b), e0, e1) ==> Edited(b, e0, e1)
  {
    DropHeadKeeps(b);
    DropTailKeeps(DropHead(b));
  }

  /** Even where the search is abandoned the counts are those of a real common subsequence. */
  lemma {:induction false} EditsReal(b: Box, minimal: bool, expense: int)
    requires b.Valid() && expense >= 1
    ensures var e := Edits(b, minimal, expense); Edited(b, e.0, e.1)
    decreases b.x1 - b.x0 + b.y1 - b.y0
  {
    hide Edited, Bare, CutAt, Box.Fwd, Edits;
    BareKeeps(b);
    EditsBare(b, minimal, expense);
    var t := Bare(b);
    if t.x0 == t.x1 || t.y0 == t.y1 {
      EditsEmpty(t, minimal, expense);
      EditedEmptySide(t);
    } else {
      var part := TheCut(t, minimal, expense);
      EditsCut(t, minimal, expense, part);
      var lower, upper := t.(x1 := part.xmid, y1 := part.ymid), t.(x0 := part.xmid, y0 := part.ymid);
      EditsReal(lower, part.loMinimal, expense);
      EditsReal(upper, part.hiMinimal, expense);
      var l, u := Edits(lower, part.loMinimal, expense), Edits(upper, part.hiMinimal, expense);
      EditedJoin(t, part.xmid, part.ymid, l.0, l.1, u.0, u.1);
    }
  }

  /** Where no search is abandoned they are minimal. */
  lemma {:induction false} EditsMinimal(b: Box, minimal: bool, expense: int)
    requires b.Valid() && expense >= 1 && Affordable(b, minimal, expense)
    ensures var e := Edits(b, minimal, expense); e.0 + e.1 == b.Dist()
    decreases b.x1 - b.x0 + b.y1 - b.y0
  {
    hide Edited, Bare, CutAt, Box.Fwd, Edits;
    BareKeeps(b);
    EditsBare(b, minimal, expense);
    var t := Bare(b);
    if t.x0 == t.x1 || t.y0 == t.y1 {
      EditsEmpty(t, minimal, expense);
      EditedEmptySide(t);
    } else {
      var part := TheCut(t, minimal, expense);
      CutProper(t, minimal, expense, part);
      EditsCut(t, minimal, expense, part);
      Halves(t, part.xmid, part.ymid);
      EditsMinimal(t.(x1 := part.xmid, y1 := part.ymid), part.loMinimal, expense);
      EditsMinimal(t.(x0 := part.xmid, y0 := part.ymid), part.hiMinimal, expense);
    }
  }

  // ---------- the cuts the search makes are these ----------

  /** Entries that go as far as one and the same point overlap. */
  lemma EntriesOverlap(b: Box, fd: seq<int>, bd: seq<int>, o: int, c: int, c': int, x: int, y: int)
    requires b.Valid() && Layout(b, fd, o) && Layout(b, bd, o) && b.Inside(x, y)
    requires FurthestAt(b, fd, o, x - y, c) && b.Fwd(x, y) <= c
    requires FurthestAt(b.Mirror(), Flipped(b, bd), o, Delta(b) - (x - y), c') && b.Bwd(x, y) <= c'
    ensures Overlap(fd, bd, o, x - y)
  {
    hide Box.Match, Box.Fwd;
    assert b.On(x - y, x) && b.Mirror().On(Delta(b) - (x - y), |b.xs| - x);
    FlippedAt(b, bd, o, x - y);
  }

  /** The forward row meets the backward row first where the highest diagonal has a split point. */
  lemma MetForwardFirst(b: Box, fd: seq<int>, bd: seq<int>, o: int, c: nat, flo: int, fhi: int, blo: int, bhi: int, x: int, y: int)
    requires Trimmed(b) && Layout(b, fd, o) && Layout(b, bd, o) && c >= 1 && b.Dist() == 2 * c - 1
    requires Split(b, c, x, y) && x == fd[x - y + o]
    requires Bounds(b, c, flo, fhi) && BackRow(b, bd, o, c - 1, blo, bhi)
    requires forall e :: InRow(e, flo, fhi) && e >= x - y ==> FurthestAt(b, fd, o, e, c)
    requires Apart(fd, bd, o, flo, fhi, blo, bhi, x - y)
    ensures LastSplit(b, c, x, y)
  {
    hide Box.Match, Box.Fwd, Bounds, Furthest, Overlap, Box.Mirror;
    forall p, q | Split(b, c, p, q) ensures p - q < x - y || (p - q == x - y && p <= x) {
      var e := p - q;
      ReachInRow(b, c, flo, fhi, p, q);
      if e == x - y {
        FurthestCovers(b, fd, o, c, p, q);
      } else if e > x - y {
        BackReachInRow(b, c - 1, blo, bhi, p, q);
        EntriesOverlap(b, fd, bd, o, c, c - 1, p, q);
      }
    }
  }

  /** The backward row meets the forward row first where the highest diagonal has a split point. */
  lemma MetBackwardFirst(b: Box, fd: seq<int>, bd: seq<int>, o: int, c: nat, flo: int, fhi: int, blo: int, bhi: int, x: int, y: int)
    requires Trimmed(b) && Layout(b, fd, o) && Layout(b, bd, o) && c >= 1 && b.Dist() == 2 * c
    requires Split(b, c, x, y) && x == bd[x - y + o] && (bhi - blo) % 2 == 0
    requires Row(b, fd, o, c, flo, fhi) && Bounds(b.Mirror(), c, Delta(b) - bhi, Delta(b) - blo)
    requires BackDone(b, bd, o, c, blo, bhi, x - y - 2)
    requires Apart(fd, bd, o, blo, bhi, flo, fhi, x - y)
    ensures FirstSplit(b, c, x, y)
  {
    hide Box.Match, Box.Fwd, Bounds, Furthest, Overlap, Box.Mirror;
    forall p, q | Split(b, c, p, q) ensures p - q < x - y || (p - q == x - y && x <= p) {
      var e := p - q;
      BackReachInRow(b, c, blo, bhi, p, q);
      if e == x - y {
        BackFurthestCovers(b, bd, o, c, p, q);
      } else if e > x - y {
        RowParity(e, blo, bhi, Delta(b));
        ReachInRow(b, c, flo, fhi, p, q);
        EntriesOverlap(b, fd, bd, o, c, c, p, q);
      }
    }
  }

  lemma FurthestCovers(b: Box, s: seq<int>, o: int, c: int, p: int, q: int)
    requires b.Valid() && FurthestAt(b, s, o, p - q, c) && b.Inside(p, q) && b.Fwd(p, q) <= c
    ensures p <= s[p - q + o]
  {
    assert b.On(p - q, p);
  }

  lemma BackFurthestCovers(b: Box, s: seq<int>, o: int, c: int, p: int, q: int)
    requires b.Valid() && Layout(b, s, o) && b.Inside(p, q) && b.Bwd(p, q) <= c
    requires FurthestAt(b.Mirror(), Flipped(b, s), o, Delta(b) - (p - q), c)
    ensures 0 <= p - q + o < |s| && s[p - q + o] <= p
  {
    hide Box.Fwd;
    assert b.Mirror().On(Delta(b) - (p - q), |b.xs| - p);
    FlippedAt(b, s, o, p - q);
  }

  lemma BetweenBounds(d: int, mid: int, c: nat, f: nat, dmin: int, dmax: int)
    requires dmin <= d <= dmax && mid - f <= d <= mid + f && f <= c && (c - f) % 2 == 0 && (f - (d - mid)) % 2 == 0
    ensures InRow(d, LowDiag(mid - c, dmin), HighDiag(mid + c, dmax))
  {
  }

  lemma ReachInRow(b: Box, c: nat, lo: int, hi: int, p: int, q: int)
    requires b.Valid() && Bounds(b, c, lo, hi) && FwdReach(b, c, p, q)
    ensures InRow(p - q, lo, hi)
  {
    hide Box.Match, Box.Fwd;
    Drift(b, p, q);
    BetweenBounds(p - q, b.x0 - b.y0, c, b.Fwd(p, q), b.x0 - b.y1, b.x1 - b.y0);
  }

  lemma BackReachInRow(b: Box, c: nat, lo: int, hi: int, p: int, q: int)
    requires b.Valid() && Bounds(b.Mirror(), c, Delta(b) - hi, Delta(b) - lo) && BwdReach(b, c, p, q)
    ensures InRow(Delta(b) - (p - q), Delta(b) - hi, Delta(b) - lo)
    ensures lo <= p - q <= hi
  {
    hide Box.Match, Box.Fwd, Bounds;
    ReachInRow(b.Mirror(), c, Delta(b) - hi, Delta(b) - lo, |b.xs| - p, |b.ys| - q);
  }

  /** The point taken on one diagonal is the furthest of those reached there. */
  lemma ClampedFurthest(b: Box, s: seq<int>, o: int, c: int, lo: int, hi: int, d: int)
    requires Trimmed(b) && Row(b, s, o, c, lo, hi) && InRow(d, lo, hi) && c >= 1
    requires b.x0 - b.y1 <= lo <= hi <= b.x1 - b.y0 && (c - (lo - (b.x0 - b.y0))) % 2 == 0
    ensures 0 <= d + o < |s|
    ensures var x := ClampColumn(b, s[d + o], d);
      FwdReach(b, c, x, x - d) && forall p, q :: FwdReach(b, c, p, q) && p - q == d ==> p <= x
  {
    hide Box.Match, Box.Fwd;
    RowClamped(b, s, o, c, lo, hi, d);
    assert FurthestAt(b, s, o, d, c);
    var x := ClampColumn(b, s[d + o], d);
    Drift(b, x, x - d);
    forall p, q | FwdReach(b, c, p, q) && p - q == d ensures p <= x {
      assert b.On(d, p) && q == p - d;
    }
  }

  /** The same for the search from below. */
  lemma BackClampedFurthest(b: Box, s: seq<int>, o: int, c: int, lo: int, hi: int, d: int)
    requires Trimmed(b) && Layout(b, s, o) && BackRow(b, s, o, c, lo, hi) && InRow(d, lo, hi) && c >= 1
    requires b.x0 - b.y1 <= lo <= hi <= b.x1 - b.y0 && (hi - lo) % 2 == 0
    requires (c - (Delta(b) - hi - (b.Mirror().x0 - b.Mirror().y0))) % 2 == 0
    ensures 0 <= d + o < |s|
    ensures var x := |b.xs| - ClampColumn(b.Mirror(), |b.xs| - s[d + o], Delta(b) - d);
      BwdReach(b, c, x, x - d) && forall p, q :: BwdReach(b, c, p, q) && p - q == d ==> x <= p
  {
    hide Row, Box.Match, Box.Fwd;
    var m := b.Mirror();
    MirrorEnds(b);
    TrimmedMirror(b);
    FlippedAt(b, s, o, d);
    ClampedFurthest(m, Flipped(b, s), o, c, Delta(b) - hi, Delta(b) - lo, Delta(b) - d);
    var x := |b.xs| - ClampColumn(m, |b.xs| - s[d + o], Delta(b) - d);
    forall p, q | BwdReach(b, c, p, q) && p - q == d ensures x <= p {
      assert FwdReach(m, c, |b.xs| - p, |b.ys| - q);
    }
  }

  /** Clamping a backward entry in the unmirrored problem. */
  lemma ClampMirrored(b: Box, v: int, d: int)
    requires b.Valid()
    ensures var x := if b.x0 > v then b.x0 else v;
      |b.xs| - ClampColumn(b.Mirror(), |b.xs| - v, Delta(b) - d) == if x - d < b.y0 then b.y0 + d else x
  {
    hide Reversed;
  }

  /** The best forward point on diagonals above `d`. */
  ghost predicate LeadsFwd(b: Box, c: int, d: int, x: int, y: int)
    requires b.Valid()
  {
    && FwdReach(b, c, x, y) && x - y > d
    && forall p, q :: FwdReach(b, c, p, q) && p - q > d ==> NotAfter(p, q, x, y)
  }

  ghost predicate LeadsBwd(b: Box, c: int, d: int, x: int, y: int)
    requires b.Valid()
  {
    && BwdReach(b, c, x, y) && x - y > d
    && forall p, q :: BwdReach(b, c, p, q) && p - q > d ==> NotBefore(p, q, x, y)
  }

  /** Comparing the leader with the furthest point `(x, x - d)` of the next diagonal. */
  lemma LeadsFwdStep(b: Box, c: nat, lo: int, hi: int, d: int, px: int, py: int, x: int)
    requires b.Valid() && Bounds(b, c, lo, hi) && InRow(d, lo, hi) && (hi - lo) % 2 == 0
    requires d == hi || LeadsFwd(b, c, d, px, py)
    requires FwdReach(b, c, x, x - d) && forall p, q :: FwdReach(b, c, p, q) && p - q == d ==> p <= x
    ensures if d == hi || px + py < x + (x - d) then LeadsFwd(b, c, d - 2, x, x - d) else LeadsFwd(b, c, d - 2, px, py)
  {
    hide FwdReach, Bounds;
    forall p, q | FwdReach(b, c, p, q) && p - q > d - 2 ensures d <= p - q <= hi {
      ReachInRow(b, c, lo, hi, p, q);
      SameParity(d, p - q, lo, hi);
    }
  }

  lemma LeadsFwdDone(b: Box, c: nat, lo: int, hi: int, d: int, x: int, y: int)
    requires b.Valid() && Bounds(b, c, lo, hi) && d < lo && LeadsFwd(b, c, d, x, y)
    ensures BestFwd(b, c, x, y)
  {
    hide FwdReach, Bounds;
    forall p, q | FwdReach(b, c, p, q) ensures NotAfter(p, q, x, y) {
      ReachInRow(b, c, lo, hi, p, q);
    }
  }

  lemma LeadsBwdStep(b: Box, c: nat, lo: int, hi: int, d: int, px: int, py: int, x: int)
    requires b.Valid() && Bounds(b.Mirror(), c, Delta(b) - hi, Delta(b) - lo) && InRow(d, lo, hi) && (hi - lo) % 2 == 0
    requires d == hi || LeadsBwd(b, c, d, px, py)
    requires BwdReach(b, c, x, x - d) && forall p, q :: BwdReach(b, c, p, q) && p - q == d ==> x <= p
    ensures if d == hi || x + (x - d) < px + py then LeadsBwd(b, c, d - 2, x, x - d) else LeadsBwd(b, c, d - 2, px, py)
  {
    hide BwdReach, Bounds;
    forall p, q | BwdReach(b, c, p, q) && p - q > d - 2 ensures d <= p - q <= hi {
      BackReachInRow(b, c, lo, hi, p, q);
      RowParity(p - q, lo, hi, Delta(b));
      SameParity(d, p - q, lo, hi);
    }
  }

  lemma LeadsBwdDone(b: Box, c: nat, lo: int, hi: int, d: int, x: int, y: int)
    requires b.Valid() && Bounds(b.Mirror(), c, Delta(b) - hi, Delta(b) - lo) && d < lo && LeadsBwd(b, c, d, x, y)
    ensures BestBwd(b, c, x, y)
  {
    hide BwdReach, Bounds;
    forall p, q | BwdReach(b, c, p, q) ensures NotBefore(p, q, x, y) {
      BackReachInRow(b, c, lo, hi, p, q);
    }
  }
}
