/** Linear-space comparison of two strings: `diag`, `compareseq` and `fstrcmp`. */
module FuzzyCompare {
  import opened EditGrid
  import opened EditMeaning
  import opened EditSearch
  import opened EditCut

  const INT_MAX := 0x7fff_ffff

  /** The least expense bound `fstrcmp` ever sets. */
  const CHEAP := 256

  class Comparer {
    const xs: seq<int>
    const ys: seq<int>
    var fdiag: array<int>
    var bdiag: array<int>
    var edits0: int           // string[0].edit_count
    var edits1: int           // string[1].edit_count
    var maxEdits: int
    var tooExpensive: int

    /** Position of diagonal 0 in both vectors. */
    function Origin(): int { |ys| + 1 }

    ghost predicate Ready()
      reads this
    {
      && fdiag != bdiag && fdiag.Length == bdiag.Length == |xs| + |ys| + 3 <= INT_MAX
      && tooExpensive >= CHEAP
    }

    ghost predicate Of(b: Box) {
      b.Valid() && b.xs == xs && b.ys == ys
    }

    ghost predicate Slid(b: Box, d: int, from: int, x: int)
      requires b.Valid()
    {
      from <= x && forall i :: from <= i < x ==> b.MatchOn(d, i)
    }

    /** Slides down diagonal `d` from column `x0` while characters match. */
    method SlideDown(b: Box, d: int, start: int) returns (x: int)
      requires Of(b) && start >= b.x0 && start - d >= b.y0
      ensures Snake(b, d, start, x)
    {
      x := start;
      var y := x - d;
      while x < b.x1 && y < b.y1 && xs[x] == ys[y]
        invariant start <= x && y == x - d && Slid(b, d, start, x)
        decreases b.x1 - x
      {
        assert b.MatchOn(d, x);
        x := x + 1;
        y := y + 1;
      }
    }

    /** One row of the top-down search; stops at the first overlap with the backward row. */
    method ForwardRow(b: Box, c: int, lo: int, hi: int, odd: bool, blo: int, bhi: int)
      returns (met: bool, x: int, y: int)
      requires Ready() && Of(b) && c >= 1 && c - 2 < b.Dist()
      requires Widened(b, fdiag[..], Origin(), c, lo, hi)
      requires b.x0 - b.y1 <= lo <= hi <= b.x1 - b.y0 && (hi - lo) % 2 == 0 && (c - (lo - (b.x0 - b.y0))) % 2 == 0
      modifies fdiag
      ensures !met ==> Row(b, fdiag[..], Origin(), c, lo, hi)
      ensures !met && odd ==> Apart(fdiag[..], bdiag[..], Origin(), lo, hi, blo, bhi, lo - 1)
      ensures met ==> odd && var d := x - y;
        InRow(d, lo, hi) && blo <= d <= bhi && FurthestAt(b, fdiag[..], Origin(), d, c)
        && Overlap(fdiag[..], bdiag[..], Origin(), d) && x == fdiag[d + Origin()]
        && (forall e :: InRow(e, lo, hi) && e >= d ==> FurthestAt(b, fdiag[..], Origin(), e, c))
        && Apart(fdiag[..], bdiag[..], Origin(), lo, hi, blo, bhi, d)
    {
      hide Furthest, Snake, Widened, FurthestAt, Apart, Bounds;
      StartScan(b, fdiag[..], bdiag[..], Origin(), c, lo, hi, blo, bhi);
      met, x, y := false, 0, 0;
      var d, o := hi, Origin();
      while d >= lo
        invariant lo - 2 <= d <= hi && (hi - d) % 2 == 0
        invariant Widened(b, fdiag[..], o, c, lo, hi)
        invariant forall e :: InRow(e, lo, hi) && e > d ==> FurthestAt(b, fdiag[..], o, e, c)
        invariant odd ==> Apart(fdiag[..], bdiag[..], o, lo, hi, blo, bhi, d)
      {
        assert InRow(d, lo, hi);
        ghost var s := fdiag[..];
        var tlo, thi := fdiag[d - 1 + o], fdiag[d + 1 + o];
        var start := if tlo >= thi then tlo + 1 else thi;
        RowStart(b, s, o, c, lo, hi, d);
        var v := SlideDown(b, d, start);
        RowStep(b, s, o, c, lo, hi, d, v);
        fdiag[d + o] := v;
        assert fdiag[..] == s[d + o := v];
        ApartAbove(s, bdiag[..], o, lo, hi, blo, bhi, d, v);
        forall e | InRow(e, lo, hi) && e > d - 2 ensures FurthestAt(b, fdiag[..], o, e, c) {
          SameParity(d, e, lo, hi);
        }
        if odd && blo <= d <= bhi && bdiag[d + o] <= v {
          met, x, y := true, v, v - d;
          return;
        }
        d := d - 2;
      }
      RowDone(b, fdiag[..], o, c, lo, hi);
      ApartDown(fdiag[..], bdiag[..], o, lo, hi, blo, bhi, d);
    }

    /** Slides up diagonal `d` from column `start` while the characters before match. */
    method SlideUp(b: Box, d: int, start: int) returns (x: int)
      requires Of(b) && start <= b.x1 && start - d <= b.y1
      ensures Snake(b.Mirror(), Delta(b) - d, |xs| - start, |xs| - x)
    {
      x := start;
      var y := x - d;
      while x > b.x0 && y > b.y0 && xs[x - 1] == ys[y - 1]
        invariant x <= start && y == x - d && Slid(b.Mirror(), Delta(b) - d, |xs| - start, |xs| - x)
        decreases x - b.x0
      {
        MirrorMatch(b, x - 1, y - 1);
        assert b.Mirror().MatchOn(Delta(b) - d, |xs| - x);
        x := x - 1;
        y := y - 1;
      }
      MirrorMatch(b, x - 1, y - 1);
    }

    /** Recomputes the backward entry of diagonal `d`. */
    method BackwardEntry(b: Box, c: int, lo: int, hi: int, d: int) returns (v: int)
      requires Ready() && Of(b) && c >= 1 && c - 2 < b.Mirror().Dist()
      requires Widened(b.Mirror(), Flipped(b, bdiag[..]), Origin(), c, Delta(b) - hi, Delta(b) - lo)
      requires b.x0 - b.y1 <= lo <= d <= hi <= b.x1 - b.y0 && InRow(Delta(b) - d, Delta(b) - hi, Delta(b) - lo)
      requires (c - (Delta(b) - hi - (b.Mirror().x0 - b.Mirror().y0))) % 2 == 0
      modifies bdiag
      ensures bdiag[..] == old(bdiag[..])[d + Origin() := v]
      ensures Widened(b.Mirror(), Flipped(b, bdiag[..]), Origin(), c, Delta(b) - hi, Delta(b) - lo)
      ensures FurthestAt(b.Mirror(), Flipped(b, bdiag[..]), Origin(), Delta(b) - d, c)
      ensures forall f :: f != Delta(b) - d && FurthestAt(b.Mirror(), Flipped(b, old(bdiag[..])), Origin(), f, c) ==>
        FurthestAt(b.Mirror(), Flipped(b, bdiag[..]), Origin(), f, c)
    {
      hide Furthest, Snake, Widened, FurthestAt, Box.Mirror, Flipped;
      ghost var m, s, e := b.Mirror(), bdiag[..], Delta(b) - d;
      var o := Origin();
      var tlo, thi := bdiag[d - 1 + o], bdiag[d + 1 + o];
      var start := if tlo < thi then tlo else thi - 1;
      FlippedAt(b, s, o, d - 1);
      FlippedAt(b, s, o, d + 1);
      RowStart(m, Flipped(b, s), o, c, Delta(b) - hi, Delta(b) - lo, e);
      MirrorEnds(b);
      v := SlideUp(b, d, start);
      RowStep(m, Flipped(b, s), o, c, Delta(b) - hi, Delta(b) - lo, e, |xs| - v);
      FlippedUpdate(b, s, o, d, v);
      bdiag[d + o] := v;
      assert bdiag[..] == s[d + o := v];
    }

    /** One row of the bottom-up search; stops at the first overlap with the forward row. */
    method BackwardRow(b: Box, c: int, lo: int, hi: int, odd: bool, flo: int, fhi: int)
      returns (met: bool, x: int, y: int)
      requires Ready() && Of(b) && c >= 1 && c - 2 < b.Mirror().Dist()
      requires Widened(b.Mirror(), Flipped(b, bdiag[..]), Origin(), c, Delta(b) - hi, Delta(b) - lo)
      requires b.x0 - b.y1 <= lo <= hi <= b.x1 - b.y0 && (hi - lo) % 2 == 0
      requires (c - (Delta(b) - hi - (b.Mirror().x0 - b.Mirror().y0))) % 2 == 0
      modifies bdiag
      ensures !met ==> BackRow(b, bdiag[..], Origin(), c, lo, hi)
      ensures !met && !odd ==> Apart(fdiag[..], bdiag[..], Origin(), lo, hi, flo, fhi, lo - 1)
      ensures met ==> !odd && var d := x - y;
        InRow(d, lo, hi) && flo <= d <= fhi
        && FurthestAt(b.Mirror(), Flipped(b, bdiag[..]), Origin(), Delta(b) - d, c)
        && Overlap(fdiag[..], bdiag[..], Origin(), d) && x == bdiag[d + Origin()]
        && BackDone(b, bdiag[..], Origin(), c, lo, hi, d - 2)
        && Apart(fdiag[..], bdiag[..], Origin(), lo, hi, flo, fhi, d)
    {
      hide Furthest, Snake, Widened, FurthestAt, Box.Mirror, Flipped, Row, BackRow, Apart, BackDone, Bounds;
      StartScan(b, fdiag[..], bdiag[..], Origin(), c, lo, hi, flo, fhi);
      met, x, y := false, 0, 0;
      ghost var m := b.Mirror();
      var d, o := hi, Origin();
      while d >= lo
        invariant lo - 2 <= d <= hi && (hi - d) % 2 == 0
        invariant Widened(m, Flipped(b, bdiag[..]), o, c, Delta(b) - hi, Delta(b) - lo)
        invariant BackDone(b, bdiag[..], o, c, lo, hi, d)
        invariant !odd ==> Apart(fdiag[..], bdiag[..], o, lo, hi, flo, fhi, d)
      {
        ghost var s, e := bdiag[..], Delta(b) - d;
        assert InRow(d, lo, hi) && InRow(e, Delta(b) - hi, Delta(b) - lo);
        var v := BackwardEntry(b, c, lo, hi, d);
        BackProgress(b, s, o, c, lo, hi, d, v);
        ApartBelow(fdiag[..], s, o, lo, hi, flo, fhi, d, v);
        if !odd && flo <= d <= fhi && v <= fdiag[d + o] {
          met, x, y := true, v, v - d;
          return;
        }
        d := d - 2;
      }
      BackRowDone(b, bdiag[..], o, c, lo, hi, d);
      ApartDown(fdiag[..], bdiag[..], o, lo, hi, flo, fhi, d);
    }

    /** Moves the bounds of the top-down search out by one edit, leaving sentinels beyond them. */
    method WidenForward(b: Box, c: int, lo: int, hi: int) returns (lo': int, hi': int)
      requires Ready() && Of(b) && Trimmed(b) && c >= 1 && Row(b, fdiag[..], Origin(), c - 1, lo, hi)
      modifies fdiag
      ensures Widened(b, fdiag[..], Origin(), c, lo', hi') && Bounds(b, c, lo', hi')
      ensures b.x0 - b.y1 <= lo' <= hi' <= b.x1 - b.y0 && (hi' - lo') % 2 == 0
      ensures (c - (lo' - (b.x0 - b.y0))) % 2 == 0
    {
      hide FurthestAt;
      var o := Origin();
      ghost var s := fdiag[..];
      lo', hi' := if lo > b.x0 - b.y1 then lo - 1 else lo + 1, if hi < b.x1 - b.y0 then hi + 1 else hi - 1;
      WidenBounds(b, c, lo, hi, lo', hi');
      RowIndices(b, s, o, c - 1, lo, hi);
      if lo > b.x0 - b.y1 {
        fdiag[lo' - 1 + o] := -1;
      }
      if hi < b.x1 - b.y0 {
        fdiag[hi' + 1 + o] := -1;
      }
      WidenRow(b, s, o, c, lo, hi, fdiag[..], lo', hi');
    }

    /** The same for the bottom-up search, whose sentinels lie beyond every column. */
    method WidenBackward(b: Box, c: int, lo: int, hi: int) returns (lo': int, hi': int)
      requires Ready() && Of(b) && Trimmed(b) && c >= 1 && BackRow(b, bdiag[..], Origin(), c - 1, lo, hi)
      modifies bdiag
      ensures Widened(b.Mirror(), Flipped(b, bdiag[..]), Origin(), c, Delta(b) - hi', Delta(b) - lo')
      ensures Bounds(b.Mirror(), c, Delta(b) - hi', Delta(b) - lo')
      ensures b.x0 - b.y1 <= lo' <= hi' <= b.x1 - b.y0 && (hi' - lo') % 2 == 0
      ensures (c - (Delta(b) - hi' - (b.Mirror().x0 - b.Mirror().y0))) % 2 == 0
    {
      hide BackRow, Row, Widened, Box.Match;
      var o := Origin();
      ghost var s := bdiag[..];
      lo', hi' := if lo > b.x0 - b.y1 then lo - 1 else lo + 1, if hi < b.x1 - b.y0 then hi + 1 else hi - 1;
      BackBounds(b, s, o, c, lo, hi, lo', hi');
      if lo > b.x0 - b.y1 {
        bdiag[lo' - 1 + o] := INT_MAX;
      }
      if hi < b.x1 - b.y0 {
        bdiag[hi' + 1 + o] := INT_MAX;
      }
      WidenBackRow(b, s, o, c, lo, hi, bdiag[..], lo', hi');
    }

    /** The forward point of the row with the greatest `x + y`. */
    method BestForward(b: Box, c: int, lo: int, hi: int) returns (xybest: int, xbest: int)
      requires Ready() && Of(b) && Trimmed(b) && c >= 1 && Row(b, fdiag[..], Origin(), c, lo, hi)
      requires b.x0 - b.y1 <= lo <= hi <= b.x1 - b.y0 && (hi - lo) % 2 == 0 && (c - (lo - (b.x0 - b.y0))) % 2 == 0
      ensures BestFwd(b, c, xbest, xybest - xbest)
    {
      hide Row, Box.Match, Box.Fwd, LeadsFwd, Bounds, BestFwd;
      RowBounds(b, fdiag[..], Origin(), c, lo, hi);
      xybest, xbest := -1, 0;
      var d := hi;
      while d >= lo
        invariant lo - 2 <= d <= hi && (hi - d) % 2 == 0
        invariant d == hi ==> xybest == -1
        invariant d < hi ==> LeadsFwd(b, c, d, xbest, xybest - xbest)
      {
        ClampedFurthest(b, fdiag[..], Origin(), c, lo, hi, d);
        var x := if fdiag[d + Origin()] < b.x1 then fdiag[d + Origin()] else b.x1;
        var y := x - d;
        if b.y1 < y {
          x, y := b.y1 + d, b.y1;
        }
        LeadsFwdStep(b, c, lo, hi, d, xbest, xybest - xbest, x);
        if xybest < x + y {
          xybest, xbest := x + y, x;
        }
        d := d - 2;
      }
      LeadsFwdDone(b, c, lo, hi, d, xbest, xybest - xbest);
    }

    /** The backward point of the row with the least `x + y`. */
    method BestBackward(b: Box, c: int, lo: int, hi: int) returns (xybest: int, xbest: int)
      requires Ready() && Of(b) && Trimmed(b) && c >= 1 && BackRow(b, bdiag[..], Origin(), c, lo, hi)
      requires b.x0 - b.y1 <= lo <= hi <= b.x1 - b.y0 && (hi - lo) % 2 == 0
      requires (c - (Delta(b) - hi - (b.Mirror().x0 - b.Mirror().y0))) % 2 == 0
      ensures BestBwd(b, c, xbest, xybest - xbest)
    {
      hide BackRow, Box.Match, Box.Bwd, LeadsBwd, Bounds, BestBwd, ClampColumn, Box.Mirror;
      BackRowBounds(b, bdiag[..], Origin(), c, lo, hi);
      MirrorEnds(b);
      xybest, xbest := INT_MAX, 0;
      var d := hi;
      while d >= lo
        invariant lo - 2 <= d <= hi && (hi - d) % 2 == 0
        invariant d == hi ==> xybest == INT_MAX
        invariant d < hi ==> LeadsBwd(b, c, d, xbest, xybest - xbest)
      {
        BackClampedFurthest(b, bdiag[..], Origin(), c, lo, hi, d);
        ClampMirrored(b, bdiag[d + Origin()], d);
        var x := if b.x0 > bdiag[d + Origin()] then b.x0 else bdiag[d + Origin()];
        var y := x - d;
        if y < b.y0 {
          x, y := b.y0 + d, b.y0;
        }
        LeadsBwdStep(b, c, lo, hi, d, xbest, xybest - xbest, x);
        if x + y < xybest {
          xybest, xbest := x + y, x;
        }
        d := d - 2;
      }
      LeadsBwdDone(b, c, lo, hi, d, xbest, xybest - xbest);
    }

    /** The cut made when the search has become too expensive: the better of the two best points so far. */
    method Halfway(b: Box, c: int, flo: int, fhi: int, blo: int, bhi: int) returns (part: Partition)
      requires Ready() && Of(b) && Trimmed(b) && c >= 1
      requires Row(b, fdiag[..], Origin(), c, flo, fhi) && BackRow(b, bdiag[..], Origin(), c, blo, bhi)
      requires b.x0 - b.y1 <= flo <= fhi <= b.x1 - b.y0 && (fhi - flo) % 2 == 0 && (c - (flo - (b.x0 - b.y0))) % 2 == 0
      requires b.x0 - b.y1 <= blo <= bhi <= b.x1 - b.y0 && (bhi - blo) % 2 == 0
      requires (c - (Delta(b) - bhi - (b.Mirror().x0 - b.Mirror().y0))) % 2 == 0
      ensures Abandoned(b, c, part)
    {
      hide Row, BackRow, Box.Match, BestFwd, BestBwd;
      var fxy, fx := BestForward(b, c, flo, fhi);
      var bxy, bx := BestBackward(b, c, blo, bhi);
      if (b.x1 + b.y1) - bxy < fxy - (b.x0 + b.y0) {
        part := Partition(fx, fxy - fx, true, false);
      } else {
        part := Partition(bx, bxy - bx, false, true);
      }
      assert part == Better(b, fx, fxy - fx, bx, bxy - bx);
    }

    /** Whether the corners of the box lie on diagonals of different parity. */
    predicate Odd(b: Box) { ((b.x0 - b.y0) - (b.x1 - b.y1)) % 2 == 1 }

    /** One edit more from the top. */
    method StepForward(b: Box, c: int, flo: int, fhi: int, blo: int, bhi: int)
      returns (met: bool, x: int, y: int, flo': int, fhi': int)
      requires Ready() && Of(b) && Trimmed(b) && c >= 1 && b.Dist() > 2 * (c - 1)
      requires Row(b, fdiag[..], Origin(), c - 1, flo, fhi) && BackRow(b, bdiag[..], Origin(), c - 1, blo, bhi)
      modifies fdiag
      ensures met ==> b.Dist() == 2 * c - 1 && LastSplit(b, c, x, y)
      ensures !met ==> b.Dist() > 2 * c - 1 && Row(b, fdiag[..], Origin(), c, flo', fhi')
      ensures b.x0 - b.y1 <= flo' <= fhi' <= b.x1 - b.y0 && (fhi' - flo') % 2 == 0 && (c - (flo' - (b.x0 - b.y0))) % 2 == 0
    {
      hide Box.Match, Row, Widened, BackRow, Box.Fwd, InRow, LastSplit, FirstSplit;
      flo', fhi' := WidenForward(b, c, flo, fhi);
      met, x, y := ForwardRow(b, c, flo', fhi', Odd(b), blo, bhi);
      if met {
        MetForward(b, fdiag[..], bdiag[..], Origin(), c, flo', fhi', blo, bhi, x, y);
        MetForwardFirst(b, fdiag[..], bdiag[..], Origin(), c, flo', fhi', blo, bhi, x, y);
      } else {
        NotMetForward(b, fdiag[..], bdiag[..], Origin(), c, flo', fhi', blo, bhi, Odd(b));
      }
    }

    /** One edit more from the bottom. */
    method StepBackward(b: Box, c: int, flo: int, fhi: int, blo: int, bhi: int)
      returns (met: bool, x: int, y: int, blo': int, bhi': int)
      requires Ready() && Of(b) && Trimmed(b) && c >= 1 && b.Dist() > 2 * c - 1
      requires Row(b, fdiag[..], Origin(), c, flo, fhi) && BackRow(b, bdiag[..], Origin(), c - 1, blo, bhi)
      modifies bdiag
      ensures met ==> b.Dist() == 2 * c && FirstSplit(b, c, x, y)
      ensures !met ==> b.Dist() > 2 * c && BackRow(b, bdiag[..], Origin(), c, blo', bhi')
      ensures b.x0 - b.y1 <= blo' <= bhi' <= b.x1 - b.y0 && (bhi' - blo') % 2 == 0
      ensures (c - (Delta(b) - bhi' - (b.Mirror().x0 - b.Mirror().y0))) % 2 == 0
    {
      hide Box.Match, Row, Widened, BackRow, Box.Fwd, InRow, LastSplit, FirstSplit;
      MirrorDist(b);
      blo', bhi' := WidenBackward(b, c, blo, bhi);
      met, x, y := BackwardRow(b, c, blo', bhi', Odd(b), flo, fhi);
      if met {
        MetBackward(b, fdiag[..], bdiag[..], Origin(), c, flo, fhi, blo', bhi', x, y);
        MetBackwardFirst(b, fdiag[..], bdiag[..], Origin(), c, flo, fhi, blo', bhi', x, y);
      } else {
        NotMetBackward(b, fdiag[..], bdiag[..], Origin(), c, flo, fhi, blo', bhi', Odd(b));
      }
    }

    /** Finds a point to cut the box at. */
    method Diag(b: Box, minimal: bool) returns (cost: int, part: Partition)
      requires Ready() && Of(b) && Trimmed(b)
      modifies fdiag, bdiag
      ensures CutAt(b, minimal, tooExpensive, part)
      ensures cost == if Affordable(b, minimal, tooExpensive) then b.Dist() else 2 * tooExpensive - 1
      ensures cost >= 2
    {
      hide Box.Match, Row, BackRow, Box.Fwd, LastSplit, FirstSplit, Abandoned;
      var fmid, bmid := b.x0 - b.y0, b.x1 - b.y1;
      var fmin, fmax, bmin, bmax := fmid, fmid, bmid, bmid;
      fdiag[fmid + Origin()] := b.x0;
      bdiag[bmid + Origin()] := b.x1;
      StartRows(b, fdiag[..], bdiag[..], Origin());
      TrimmedDist(b);
      CornerDistances(b);
      var c := 1;
      while true
        invariant c >= 1 && b.Dist() > 2 * (c - 1) && (minimal || c <= tooExpensive)
        invariant Row(b, fdiag[..], Origin(), c - 1, fmin, fmax) && BackRow(b, bdiag[..], Origin(), c - 1, bmin, bmax)
        decreases b.Dist() - 2 * c + 2
      {
        var met, x, y;
        met, x, y, fmin, fmax := StepForward(b, c, fmin, fmax, bmin, bmax);
        if met {
          return 2 * c - 1, Partition(x, y, true, true);
        }
        met, x, y, bmin, bmax := StepBackward(b, c, fmin, fmax, bmin, bmax);
        if met {
          return 2 * c, Partition(x, y, true, true);
        }
        if !minimal && c >= tooExpensive {
          part := Halfway(b, c, fmin, fmax, bmin, bmax);
          return 2 * c - 1, part;
        }
        c := c + 1;
      }
    }

    /** What one comparison of box `b` has added to the edit counts: as much as a comparison without limit, unless the
        limit is exceeded by then, and never more. */
    ghost predicate Counted(b: Box, minimal: bool, before0: int, before1: int)
      requires b.Valid() && tooExpensive >= CHEAP
      reads this
    {
      var e := Edits(b, minimal, tooExpensive);
      && edits0 >= before0 && edits1 >= before1
      && edits0 + edits1 <= before0 + before1 + e.0 + e.1
      && (edits0 + edits1 <= maxEdits ==> edits0 == before0 + e.0 && edits1 == before1 + e.1)
    }

    /** Drops the common head and tail of the box. */
    method Trim(b: Box) returns (t: Box)
      requires Of(b)
      ensures t == Bare(b) && Of(t)
    {
      t := b;
      while t.x0 < t.x1 && t.y0 < t.y1 && xs[t.x0] == ys[t.y0]
        invariant Of(t) && DropHead(t) == DropHead(b)
        decreases t.x1 - t.x0
      {
        t := t.(x0 := t.x0 + 1, y0 := t.y0 + 1);
      }
      while t.x1 > t.x0 && t.y1 > t.y0 && xs[t.x1 - 1] == ys[t.y1 - 1]
        invariant Of(t) && DropTail(t) == Bare(b)
        decreases t.x1 - t.x0
      {
        t := t.(x1 := t.x1 - 1, y1 := t.y1 - 1);
      }
    }

    /** Adds the edits that turn one substring into the other to the counts. */
    method CompareSeq(b: Box, minimal: bool)
      requires Ready() && Of(b)
      modifies this`edits0, this`edits1, fdiag, bdiag
      ensures Counted(b, minimal, old(edits0), old(edits1))
      decreases b.x1 - b.x0 + b.y1 - b.y0
    {
      if edits1 + edits0 > maxEdits {
        return;
      }
      hide Box.Fwd, Box.Match, CutAt, Bare, Edits, Trimmed, Affordable, Counted;
      var t := Trim(b);
      if t.x0 == t.x1 || t.y0 == t.y1 {
        CountRest(t, minimal);
      } else {
        BareTrimmed(b);
        CutAndCompare(t, minimal);
      }
      CountedBare(b, minimal, old(edits0), old(edits1));
    }

    lemma CountedBare(b: Box, minimal: bool, before0: int, before1: int)
      requires b.Valid() && tooExpensive >= CHEAP && Counted(Bare(b), minimal, before0, before1)
      ensures Counted(b, minimal, before0, before1)
    {
      hide Bare;
      EditsBare(b, minimal, tooExpensive);
    }

    /** Counts what is left when one side is empty. */
    method CountRest(t: Box, ghost minimal: bool)
      requires Ready() && Of(t) && (t.x0 == t.x1 || t.y0 == t.y1)
      modifies this`edits0, this`edits1
      ensures edits0 == old(edits0) + (t.x1 - t.x0) && edits1 == old(edits1) + (t.y1 - t.y0)
      ensures Counted(t, minimal, old(edits0), old(edits1))
    {
      hide Edits;
      EditsEmpty(t, minimal, tooExpensive);
      var xoff, yoff := t.x0, t.y0;
      if xoff == t.x1 {
        while yoff < t.y1
          invariant t.y0 <= yoff <= t.y1 && edits1 == old(edits1) + (yoff - t.y0) && edits0 == old(edits0)
        {
          edits1 := edits1 + 1;
          yoff := yoff + 1;
        }
      } else if yoff == t.y1 {
        while xoff < t.x1
          invariant t.x0 <= xoff <= t.x1 && edits0 == old(edits0) + (xoff - t.x0) && edits1 == old(edits1)
        {
          edits0 := edits0 + 1;
          xoff := xoff + 1;
        }
      }
    }

    /** Finds a cut and compares the two boxes on either side of it. */
    method CutAndCompare(t: Box, minimal: bool)
      requires Ready() && Of(t) && Trimmed(t)
      modifies this`edits0, this`edits1, fdiag, bdiag
      ensures Counted(t, minimal, old(edits0), old(edits1))
      decreases t.x1 - t.x0 + t.y1 - t.y0, 0
    {
      hide Box.Fwd, Box.Match, CutAt, Edits, Affordable;
      var cost, part := Diag(t, minimal);
      if cost == 1 {
        assert false;  // the branch the source suspects to be impossible; trimmed boxes cost at least two edits
      } else {
        EditsCut(t, minimal, tooExpensive, part);
        CompareSeq(t.(x1 := part.xmid, y1 := part.ymid), part.loMinimal);
        CompareSeq(t.(x0 := part.xmid, y0 := part.ymid), part.hiMinimal);
      }
    }

    constructor (xs: seq<int>, ys: seq<int>, expense: int, limit: int)
      requires |xs| + |ys| + 3 <= INT_MAX && expense >= CHEAP
      ensures Ready() && this.xs == xs && this.ys == ys
      ensures tooExpensive == expense && maxEdits == limit && edits0 == edits1 == 0
      ensures fresh(fdiag) && fresh(bdiag)
    {
      this.xs, this.ys := xs, ys;
      fdiag := new int[|xs| + |ys| + 3];
      bdiag := new int[|xs| + |ys| + 3];
      edits0, edits1, maxEdits, tooExpensive := 0, 0, limit, expense;
    }
  }

  /** C conversion of a double to an integer: towards zero. */
  function Truncate(x: real): int {
    if x >= 0.0 then x.Floor else -((-x).Floor)
  }

  /** Two to the number of base-4 digits of `n`: about its square root. */
  function Doublings(n: nat): nat {
    if n == 0 then 1 else 2 * Doublings(n / 4)
  }

  /** Edit searches are not cut short up to this many steps from either end. */
  function Expense(n: nat): (e: nat)
    ensures e >= CHEAP
  {
    if Doublings(n) < CHEAP then CHEAP else Doublings(n)
  }

  /** A power of two. */
  ghost predicate Doubled(e: nat) {
    e == 1 || (e > 1 && e % 2 == 0 && Doubled(e / 2))
  }

  /** The expense bound is about the square root of `n`: the power of two `e` with n < e * e <= 4 * n, but at least 256. */
  ghost predicate NearRoot(n: nat, e: nat) {
    Doubled(e) && e >= 256 && n < Square(e) && (e > 256 ==> Square(e) <= 4 * n)
  }

  function Square(e: nat): nat { e * e }

  lemma SquareDouble(e: nat)
    ensures Square(2 * e) == 4 * Square(e)
  {
    assert (2 * e) * (2 * e) == 4 * (e * e);
  }

  lemma {:induction false} DoublingsRoot(n: nat)
    ensures Doubled(Doublings(n)) && n < Square(Doublings(n))
    ensures n > 0 ==> Square(Doublings(n)) <= 4 * n
  {
    if n == 0 {
      assert Square(1) == 1;
    } else {
      assert Square(1) == 1;
      hide Square;
      DoublingsRoot(n / 4);
      SquareDouble(Doublings(n / 4));
    }
  }

  lemma ExpenseRoot(n: nat)
    ensures NearRoot(n, Expense(n))
  {
    DoublingsRoot(n);
    var d := Doublings(n);
    hide Square;
    if d < CHEAP {
      Squares(d, CHEAP);
      assert Doubled(CHEAP) by {
        assert Doubled(2) && Doubled(4) && Doubled(8) && Doubled(16) && Doubled(32) && Doubled(64) && Doubled(128);
      }
    }
  }

  lemma Squares(a: nat, b: nat)
    requires a <= b
    ensures Square(a) <= Square(b)
  {
  }

  lemma Shift(e: int, k: int)
    ensures e * (2 * k) == (e * 2) * k
  {
  }

  method ExpenseBound(n: nat) returns (e: int)
    ensures e == Expense(n) && NearRoot(n, e)
  {
    ExpenseRoot(n);
    hide NearRoot;
    e := 1;
    var i := n;
    while i != 0
      invariant i >= 0 && e * Doublings(i) == Doublings(n)
    {
      Shift(e, Doublings(i / 4));
      e := e * 2;
      i := i / 4;
    }
    if e < CHEAP {
      e := CHEAP;
    }
  }

  /** The whole of two strings as one box. */
  function Whole(xs: seq<int>, ys: seq<int>): Box {
    Box(xs, ys, 0, |xs|, 0, |ys|)
  }

  /** The similarity a comparison with `e` edits stands for. */
  function Similarity(total: int, e: int): real
    requires total > 0
  {
    (total - e) as real / total as real
  }

  /** How many edits are counted at most, so that whoever needs more is below `minimum`. */
  function Limit(total: int, minimum: real): int {
    Truncate(1.0 + total as real * (1.0 - minimum))
  }

  /** The edit limit is exactly where the similarity falls below `minimum`: whoever exceeds it is below. */
  lemma CutOffBelow(total: int, minimum: real, e: int)
    requires total > 0 && e > Limit(total, minimum)
    ensures Similarity(total, e) < minimum
  {
    var z := 1.0 + total as real * (1.0 - minimum);
    assert e as real > total as real * (1.0 - minimum);
    DivideBelow(total as real, (total - e) as real, minimum);
  }

  lemma DivideBelow(t: real, a: real, m: real)
    requires t > 0.0 && a < t * m
    ensures a / t < m
  {
    var q := a / t;
    assert q * t == a;
    assert (q - m) * t < 0.0;
  }

  lemma SimilarityMonotone(total: int, e: int, f: int)
    requires total > 0 && e <= f
    ensures Similarity(total, f) <= Similarity(total, e)
  {
    assert (total - f) as real <= (total - e) as real;
    DivideMonotone(total as real, (total - f) as real, (total - e) as real);
  }

  lemma DivideMonotone(t: real, a: real, b: real)
    requires t > 0.0 && a <= b
    ensures a / t <= b / t
  {
    assert (b - a) / t >= 0.0;
  }

  /** The similarity that comes out without any edit limit. */
  ghost function Unlimited(xs: seq<int>, ys: seq<int>): real
    requires xs != [] && ys != []
  {
    var e := Edits(Whole(xs, ys), false, Expense(|xs| + |ys|));
    Similarity(|xs| + |ys|, e.0 + e.1)
  }

  /** Edit counts of a common subsequence stand for its similarity, which is at most the true one. */
  lemma EditedSimilarity(b: Box, e0: int, e1: int)
    requires b.Valid() && b == Whole(b.xs, b.ys) && |b.xs| + |b.ys| > 0 && Edited(b, e0, e1)
    ensures exists m: seq<(int, int)> ::
      Common(b, m) && Similarity(|b.xs| + |b.ys|, e0 + e1) == Similarity(|b.xs| + |b.ys|, |b.xs| + |b.ys| - 2 * |m|)
    ensures Similarity(|b.xs| + |b.ys|, e0 + e1) <= Similarity(|b.xs| + |b.ys|, b.Dist())
  {
    hide Box.Fwd, Common, Similarity;
    EditedAtLeastDist(b, e0, e1);
    SimilarityMonotone(|b.xs| + |b.ys|, b.Dist(), e0 + e1);
    var m: seq<(int, int)> :| Common(b, m) && e0 == |b.xs| - |m| && e1 == |b.ys| - |m|;
    assert e0 + e1 == |b.xs| + |b.ys| - 2 * |m|;
  }

  /** It is the similarity of a real common subsequence. */
  lemma UnlimitedReal(xs: seq<int>, ys: seq<int>)
    requires xs != [] && ys != []
    ensures exists m: seq<(int, int)> ::
      Common(Whole(xs, ys), m) && Unlimited(xs, ys) == Similarity(|xs| + |ys|, |xs| + |ys| - 2 * |m|)
  {
    hide Expense, Box.Fwd, Edits, Similarity, Edited, Common;
    var b, expense := Whole(xs, ys), Expense(|xs| + |ys|);
    EditsReal(b, false, expense);
    var e := Edits(b, false, expense);
    EditedSimilarity(b, e.0, e.1);
  }

  /** It is at most the true similarity, and equals it within the expense bound. */
  lemma UnlimitedTrue(xs: seq<int>, ys: seq<int>)
    requires xs != [] && ys != []
    ensures Unlimited(xs, ys) <= Similarity(|xs| + |ys|, Whole(xs, ys).Dist())
    ensures Whole(xs, ys).Dist() <= 2 * Expense(|xs| + |ys|) ==>
      Unlimited(xs, ys) == Similarity(|xs| + |ys|, Whole(xs, ys).Dist())
  {
    hide Expense, Box.Fwd, Edits, Similarity, Edited;
    var b, expense := Whole(xs, ys), Expense(|xs| + |ys|);
    EditsReal(b, false, expense);
    var e := Edits(b, false, expense);
    EditedSimilarity(b, e.0, e.1);
    if b.Dist() <= 2 * expense {
      EditsMinimal(b, false, expense);
    }
  }

  /** Counting up to the limit gives the verdict of counting on. */
  lemma SameVerdict(xs: seq<int>, ys: seq<int>, minimum: real, edits: int)
    requires xs != [] && ys != []
    requires var e := Edits(Whole(xs, ys), false, Expense(|xs| + |ys|));
      edits <= e.0 + e.1 && (edits <= Limit(|xs| + |ys|, minimum) ==> edits == e.0 + e.1)
    ensures var r := Similarity(|xs| + |ys|, edits);
      (r >= minimum <==> Unlimited(xs, ys) >= minimum) && (r >= minimum ==> r == Unlimited(xs, ys))
  {
    hide Expense, Edits, Similarity, Limit;
    var total := |xs| + |ys|;
    var e := Edits(Whole(xs, ys), false, Expense(|xs| + |ys|));
    if edits > Limit(total, minimum) {
      CutOffBelow(total, minimum, edits);
      CutOffBelow(total, minimum, e.0 + e.1);
    }
  }

  /** What a number that agrees with the comparison without limit, down to `minimum`, says about the true similarity. */
  lemma Verdict(xs: seq<int>, ys: seq<int>, minimum: real, r: real)
    requires xs != [] && ys != []
    requires (r >= minimum <==> Unlimited(xs, ys) >= minimum) && (r >= minimum ==> r == Unlimited(xs, ys))
    ensures r >= minimum ==>
      exists m: seq<(int, int)> :: Common(Whole(xs, ys), m) && r == Similarity(|xs| + |ys|, |xs| + |ys| - 2 * |m|)
    ensures r >= minimum ==> Similarity(|xs| + |ys|, Whole(xs, ys).Dist()) >= minimum
    ensures Whole(xs, ys).Dist() <= 2 * Expense(|xs| + |ys|) ==>
      && (r >= minimum <==> Similarity(|xs| + |ys|, Whole(xs, ys).Dist()) >= minimum)
      && (r >= minimum ==> r == Similarity(|xs| + |ys|, Whole(xs, ys).Dist()))
  {
    hide Expense, Similarity, Unlimited, Common, Box.Dist;
    UnlimitedReal(xs, ys);
    UnlimitedTrue(xs, ys);
  }

  /** The comparison of two strings that are not empty. */
  method CompareWhole(xs: seq<int>, ys: seq<int>, minimum: real) returns (r: real)
    requires |xs| + |ys| + 3 <= INT_MAX && xs != [] && ys != []
    ensures (r >= minimum <==> Unlimited(xs, ys) >= minimum) && (r >= minimum ==> r == Unlimited(xs, ys))
  {
    hide Expense, Edits, NearRoot, Similarity, Unlimited, Limit, Box.Dist;
    var total := |xs| + |ys|;
    var expense := ExpenseBound(total);
    var cmp := new Comparer(xs, ys, expense, Limit(total, minimum));
    cmp.CompareSeq(Whole(xs, ys), false);
    var edits := cmp.edits0 + cmp.edits1;
    r := Similarity(total, edits);
    SameVerdict(xs, ys, minimum, edits);
  }

  /** How alike two strings are, from 0 to 1; anything below `minimum` may come out as a smaller number. */
  method Fstrcmp(xs: seq<int>, ys: seq<int>, minimum: real) returns (r: real)
    requires |xs| + |ys| + 3 <= INT_MAX
    ensures xs == [] && ys == [] ==> r == 1.0
    ensures (xs == [] || ys == []) && xs + ys != [] ==> r == 0.0
    // the edit limit never changes the verdict "at least minimum", nor the number when the verdict is positive
    ensures xs != [] && ys != [] ==> (r >= minimum <==> Unlimited(xs, ys) >= minimum)
    ensures xs != [] && ys != [] && r >= minimum ==> r == Unlimited(xs, ys)
    // such a verdict is always backed by a real common subsequence ...
    ensures xs != [] && ys != [] && r >= minimum ==>
      exists m: seq<(int, int)> :: Common(Whole(xs, ys), m) && r == Similarity(|xs| + |ys|, |xs| + |ys| - 2 * |m|)
    // ... so the true similarity is at least minimum as well ...
    ensures xs != [] && ys != [] && r >= minimum ==>
      Similarity(|xs| + |ys|, Whole(xs, ys).Dist()) >= minimum
    // ... and for strings within the expense bound the verdict is exact
    ensures xs != [] && ys != [] && Whole(xs, ys).Dist() <= 2 * Expense(|xs| + |ys|) ==>
      (r >= minimum <==> Similarity(|xs| + |ys|, Whole(xs, ys).Dist()) >= minimum)
    ensures xs != [] && ys != [] && Whole(xs, ys).Dist() <= 2 * Expense(|xs| + |ys|) && r >= minimum ==>
      r == Similarity(|xs| + |ys|, Whole(xs, ys).Dist())
  {
    if xs == [] && ys == [] {
      return 1.0;
    }
    if xs == [] || ys == [] {
      return 0.0;
    }
    hide Expense, Unlimited, Similarity, Common, Box.Dist;
    r := CompareWhole(xs, ys, minimum);
    Verdict(xs, ys, minimum, r);
  }
}
