/** The dense renumbering of ranks done when a ranking is written out. */
module AgonyRelabel {
  import opened AgonyTheory

  /** The distinct ranks below `x`. */
  ghost function Below(r: seq<int>, x: int): set<int> {
    set y | y in r && y < x
  }

  /** Every node gets the number of distinct ranks below its own. */
  ghost predicate Dense(r: seq<int>, d: seq<int>) {
    && |d| == |r|
    && forall v :: 0 <= v < |r| ==> d[v] == |Below(r, r[v])|
  }

  lemma {:induction false} MinExists(s: set<int>) returns (m: int)
    requires |s| > 0
    ensures m in s
    ensures forall y :: y in s ==> m <= y
    decreases |s|
  {
    if forall x :: x !in s { assert false; }
    m :| m in s;
    var rest := s - {m};
    if |rest| > 0 {
      var k := MinExists(rest);
      forall y | y in s ensures (if m < k then m else k) <= y {
        if y != m { assert y in rest; }
      }
      m := if m < k then m else k;
    } else {
      assert forall y :: y in s ==> y == m || y in rest;
    }
  }

  lemma SubsetSize(a: set<int>, b: set<int>)
    requires a <= b
    ensures |a| <= |b|
    ensures |b| == |a| + |b - a|
  {
    assert b == a + (b - a);
  }

  /** A set of integers in `[lo, hi)` has at most `hi - lo` elements. */
  lemma {:induction false} IntervalSize(s: set<int>, lo: int, hi: int)
    requires lo <= hi && forall x :: x in s ==> lo <= x < hi
    ensures |s| <= hi - lo
    decreases hi - lo
  {
    if lo < hi {
      IntervalSize(s - {hi - 1}, lo, hi - 1);
      SubsetSize(s - {hi - 1}, s);
      assert s - (s - {hi - 1}) <= {hi - 1};
      SubsetSize(s - (s - {hi - 1}), {hi - 1});
    } else {
      assert forall x :: x !in s;
    }
  }

  /** Renumbering keeps the order of ranks and never widens a gap. */
  lemma DenseGap(r: seq<int>, d: seq<int>, a: int, b: int)
    requires Dense(r, d) && 0 <= a < |r| && 0 <= b < |r|
    ensures r[a] < r[b] ==> d[a] < d[b]
    ensures r[a] <= r[b] ==> d[a] <= d[b] <= d[a] + (r[b] - r[a])
  {
    if r[a] <= r[b] {
      var s, t := Below(r, r[a]), Below(r, r[b]);
      SubsetSize(s, t);
      IntervalSize(t - s, r[a], r[b]);
      if r[a] < r[b] {
        assert r[a] in t - s;
        SubsetSize({r[a]}, t - s);
      }
    }
  }

  lemma {:induction false} DenseCostTo(g: Digraph, r: seq<int>, d: seq<int>, k: nat)
    requires g.Valid() && Ranking(g, r) && Dense(r, d) && k <= g.M()
    ensures CostTo(g, d, k) <= CostTo(g, r, k)
  {
    if k > 0 {
      DenseCostTo(g, r, d, k - 1);
      DenseGap(r, d, g.src[k - 1], g.dst[k - 1]);
      DenseGap(r, d, g.dst[k - 1], g.src[k - 1]);
    }
  }

  /** So the written numbers cost no more, and an optimal ranking stays optimal. */
  lemma DenseCost(g: Digraph, r: seq<int>, d: seq<int>)
    requires g.Valid() && Ranking(g, r) && Dense(r, d)
    ensures Cost(g, d) <= Cost(g, r)
    ensures Optimal(g, r) ==> Optimal(g, d) && Cost(g, d) == Cost(g, r)
  {
    DenseCostTo(g, r, d, g.M());
  }

  ghost function Smaller(s: set<int>, x: int): set<int> {
    set y | y in s && y < x
  }

  /** The keys, split into those handled and larger ones still to come. */
  ghost predicate Split(keys: set<int>, done: set<int>, rest: set<int>) {
    keys == done + rest && done !! rest && forall x, y :: x in done && y in rest ==> x < y
  }

  /** Once everything below `k` has been handled, `|done|` is the number of `k`. */
  lemma NextNumber(keys: set<int>, done: set<int>, rest: set<int>, k: int)
    requires Split(keys, done, rest) && k in rest
    requires forall y :: y in rest ==> k <= y
    ensures Smaller(keys, k) == done && Split(keys, done + {k}, rest - {k}) && |done + {k}| == |done| + 1 && k in keys && k !in done
  {
  }

  lemma SplitDone(keys: set<int>, done: set<int>)
    requires Split(keys, done, {})
    ensures keys == done
  {
  }

  /** All of `done` have been given their numbers. */
  ghost predicate Numbered(keys: set<int>, numbered: map<int, int>, done: set<int>) {
    numbered.Keys == keys && forall x :: x in done && x in keys ==> numbered[x] == |Smaller(keys, x)|
  }

  lemma NumberedNext(keys: set<int>, numbered: map<int, int>, done: set<int>, k: int)
    requires Numbered(keys, numbered, done) && k in keys && k !in done
    ensures Numbered(keys, numbered[k := |Smaller(keys, k)|], done + {k})
  {
    hide Smaller;
  }

  /** Walks the keys upwards and numbers them 0, 1, 2, ... */
  method NumberInOrder(ranks: map<int, int>) returns (numbered: map<int, int>)
    ensures numbered.Keys == ranks.Keys
    ensures forall x :: x in ranks ==> numbered[x] == |Smaller(ranks.Keys, x)|
  {
    numbered := ranks;
    ghost var done: set<int> := {};
    var rest, r := ranks.Keys, 0;
    assert Split(ranks.Keys, done, rest) && Numbered(ranks.Keys, numbered, done);
    while |rest| > 0
      invariant Split(ranks.Keys, done, rest) && r == |done| && Numbered(ranks.Keys, numbered, done)
      decreases rest
    {
      ghost var m := MinExists(rest);
      var k :| k in rest && forall y :: y in rest ==> k <= y;
      NextNumber(ranks.Keys, done, rest, k);
      NumberedNext(ranks.Keys, numbered, done, k);
      numbered := numbered[k := r];
      r, rest, done := r + 1, rest - {k}, done + {k};
    }
    SplitDone(ranks.Keys, done);
  }
}
