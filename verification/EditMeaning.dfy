/** What the edit distance means: it is the length that a longest common subsequence leaves unmatched. */
module EditMeaning {
  import opened EditGrid

  /** `m` pairs up equal characters of the two substrings, in order: a common subsequence. */
  ghost predicate Common(b: Box, m: seq<(int, int)>)
    requires b.Valid()
  {
    && (forall k :: 0 <= k < |m| ==> b.Match(m[k].0, m[k].1))
    && (forall j, k :: 0 <= j < k < |m| ==> m[j].0 < m[k].0 && m[j].1 < m[k].1)
  }

  /** `k` is the length of a longest common subsequence. */
  ghost predicate LongestCommon(b: Box, k: nat)
    requires b.Valid()
  {
    && (exists m: seq<(int, int)> :: Common(b, m) && |m| == k)
    && (forall m: seq<(int, int)> :: Common(b, m) ==> |m| <= k)
  }

  lemma {:induction false} CommonBound(b: Box, m: seq<(int, int)>, x: int, y: int)
    requires b.Valid() && x >= b.x0 && y >= b.y0 && Common(b, m)
    requires forall k :: 0 <= k < |m| ==> m[k].0 < x && m[k].1 < y
    ensures b.Fwd(x, y) <= (x - b.x0) + (y - b.y0) - 2 * |m|
    decreases x - b.x0 + y - b.y0
  {
    if m == [] {
      if x > b.x0 {
        CommonBound(b, m, x - 1, y);
        Neighbours(b, x - 1, y);
      }
    } else {
      var last, init := m[|m| - 1], m[..|m| - 1];
      assert b.Match(last.0, last.1);
      if last.0 < x - 1 {
        CommonBound(b, m, x - 1, y);
        Neighbours(b, x - 1, y);
      } else if last.1 < y - 1 {
        CommonBound(b, m, x, y - 1);
        Neighbours(b, x, y - 1);
      } else {
        CommonBound(b, init, x - 1, y - 1);
      }
    }
  }

  lemma {:induction false} CommonReached(b: Box, x: int, y: int) returns (m: seq<(int, int)>)
    requires b.Valid() && b.Inside(x, y)
    ensures Common(b, m) && forall k :: 0 <= k < |m| ==> m[k].0 < x && m[k].1 < y
    ensures b.Fwd(x, y) == (x - b.x0) + (y - b.y0) - 2 * |m|
    decreases x - b.x0 + y - b.y0
  {
    if x == b.x0 || y == b.y0 {
      m := [];
    } else if b.Match(x - 1, y - 1) {
      m := CommonReached(b, x - 1, y - 1);
      m := m + [(x - 1, y - 1)];
    } else if b.Fwd(x - 1, y) <= b.Fwd(x, y - 1) {
      m := CommonReached(b, x - 1, y);
    } else {
      m := CommonReached(b, x, y - 1);
    }
  }

  /** `Dist` counts exactly the characters outside a longest common subsequence. */
  lemma DistIsLcs(b: Box, k: nat)
    requires b.Valid()
    ensures LongestCommon(b, k) <==> b.Dist() == (b.x1 - b.x0) + (b.y1 - b.y0) - 2 * k
  {
    var m := CommonReached(b, b.x1, b.y1);
    forall m': seq<(int, int)> | Common(b, m') ensures |m'| <= |m| {
      forall j | 0 <= j < |m'| ensures m'[j].0 < b.x1 && m'[j].1 < b.y1 { assert b.Match(m'[j].0, m'[j].1); }
      CommonBound(b, m', b.x1, b.y1);
    }
  }

  /** Common subsequences of the two halves at `(x, y)` make one of the whole. */
  lemma CommonJoin(b: Box, x: int, y: int, m1: seq<(int, int)>, m2: seq<(int, int)>)
    requires b.Valid() && b.Inside(x, y)
    requires Common(b.(x1 := x, y1 := y), m1) && Common(b.(x0 := x, y0 := y), m2)
    ensures Common(b, m1 + m2)
  {
    var h1, h2, m := b.(x1 := x, y1 := y), b.(x0 := x, y0 := y), m1 + m2;
    forall k | 0 <= k < |m| ensures b.Match(m[k].0, m[k].1) {
      if k < |m1| { assert h1.Match(m1[k].0, m1[k].1); } else { assert h2.Match(m2[k - |m1|].0, m2[k - |m1|].1); }
    }
    forall j, k | 0 <= j < k < |m| ensures m[j].0 < m[k].0 && m[j].1 < m[k].1 {
      if j < |m1| { assert h1.Match(m1[j].0, m1[j].1); }
      if k >= |m1| { assert h2.Match(m2[k - |m1|].0, m2[k - |m1|].1); }
    }
  }

  /** `e0` characters of the first and `e1` of the second substring are all that some common subsequence leaves out. */
  ghost predicate Edited(b: Box, e0: int, e1: int)
    requires b.Valid()
  {
    exists m: seq<(int, int)> :: Common(b, m) && e0 == (b.x1 - b.x0) - |m| && e1 == (b.y1 - b.y0) - |m|
  }

  lemma EditedAtLeastDist(b: Box, e0: int, e1: int)
    requires b.Valid() && Edited(b, e0, e1)
    ensures e0 + e1 >= b.Dist() && e0 >= 0 && e1 >= 0
  {
    var m: seq<(int, int)> :| Common(b, m) && e0 == (b.x1 - b.x0) - |m| && e1 == (b.y1 - b.y0) - |m|;
    forall j | 0 <= j < |m| ensures m[j].0 < b.x1 && m[j].1 < b.y1 { assert b.Match(m[j].0, m[j].1); }
    CommonBound(b, m, b.x1, b.y1);
    PairsFit(b, m);
  }

  lemma {:induction false} PairsFit(b: Box, m: seq<(int, int)>)
    requires b.Valid() && Common(b, m)
    ensures |m| <= b.x1 - b.x0 && |m| <= b.y1 - b.y0
    ensures m != [] ==> b.x0 + |m| - 1 <= m[|m| - 1].0 && b.y0 + |m| - 1 <= m[|m| - 1].1
  {
    if m != [] {
      PairsFit(b, m[..|m| - 1]);
      assert b.Match(m[|m| - 1].0, m[|m| - 1].1);
    }
  }

  lemma EditedEmptySide(b: Box)
    requires b.Valid() && (b.x0 == b.x1 || b.y0 == b.y1)
    ensures Edited(b, b.x1 - b.x0, b.y1 - b.y0) && b.Dist() == (b.x1 - b.x0) + (b.y1 - b.y0)
  {
    assert Common(b, []);
  }

  lemma EditedJoin(b: Box, x: int, y: int, a0: int, a1: int, c0: int, c1: int)
    requires b.Valid() && b.Inside(x, y)
    requires Edited(b.(x1 := x, y1 := y), a0, a1) && Edited(b.(x0 := x, y0 := y), c0, c1)
    ensures Edited(b, a0 + c0, a1 + c1)
  {
    var h1, h2 := b.(x1 := x, y1 := y), b.(x0 := x, y0 := y);
    var m1: seq<(int, int)> :| Common(h1, m1) && a0 == (h1.x1 - h1.x0) - |m1| && a1 == (h1.y1 - h1.y0) - |m1|;
    var m2: seq<(int, int)> :| Common(h2, m2) && c0 == (h2.x1 - h2.x0) - |m2| && c1 == (h2.y1 - h2.y0) - |m2|;
    CommonJoin(b, x, y, m1, m2);
    assert |m1 + m2| == |m1| + |m2|;
  }

  /** A single matching pair is its own common subsequence. */
  lemma EditedPair(b: Box)
    requires b.Valid() && b.x1 == b.x0 + 1 && b.y1 == b.y0 + 1 && b.Match(b.x0, b.y0)
    ensures Edited(b, 0, 0)
  {
    assert Common(b, [(b.x0, b.y0)]);
  }

  lemma TrimFront(b: Box)
    requires b.Valid() && b.x0 < b.x1 && b.y0 < b.y1 && b.Match(b.x0, b.y0)
    ensures b.(x0 := b.x0 + 1, y0 := b.y0 + 1).Dist() == b.Dist()
    ensures forall e0, e1 :: Edited(b.(x0 := b.x0 + 1, y0 := b.y0 + 1), e0, e1) ==> Edited(b, e0, e1)
  {
    var t := b.(x0 := b.x0 + 1, y0 := b.y0 + 1);
    Halves(b, b.x0 + 1, b.y0 + 1);
    MirrorDist(b);
    BwdUnfold(b, b.x0, b.y0);
    forall e0, e1 | Edited(t, e0, e1) ensures Edited(b, e0, e1) {
      EditedPair(b.(x1 := b.x0 + 1, y1 := b.y0 + 1));
      EditedJoin(b, b.x0 + 1, b.y0 + 1, 0, 0, e0, e1);
    }
  }

  lemma TrimBack(b: Box)
    requires b.Valid() && b.x0 < b.x1 && b.y0 < b.y1 && b.Match(b.x1 - 1, b.y1 - 1)
    ensures b.(x1 := b.x1 - 1, y1 := b.y1 - 1).Dist() == b.Dist()
    ensures forall e0, e1 :: Edited(b.(x1 := b.x1 - 1, y1 := b.y1 - 1), e0, e1) ==> Edited(b, e0, e1)
  {
    var t := b.(x1 := b.x1 - 1, y1 := b.y1 - 1);
    Halves(b, b.x1 - 1, b.y1 - 1);
    forall e0, e1 | Edited(t, e0, e1) ensures Edited(b, e0, e1) {
      EditedPair(b.(x0 := b.x1 - 1, y0 := b.y1 - 1));
      EditedJoin(b, b.x1 - 1, b.y1 - 1, e0, e1, 0, 0);
    }
  }
}
