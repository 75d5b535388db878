/** Agony of a ranking, balanced edge sets, and the duality between them. */
module AgonyTheory {

  /** The input multigraph: edge `e` runs from `src[e]` to `dst[e]`; self-loops and parallel edges are allowed. */
  datatype Digraph = Digraph(n: nat, src: seq<int>, dst: seq<int>) {
    ghost predicate Valid() {
      && |src| == |dst|
      && (forall e :: 0 <= e < |src| ==> 0 <= src[e] < n)
      && (forall e :: 0 <= e < |dst| ==> 0 <= dst[e] < n)
    }
    function M(): nat { |src| }
  }

  ghost predicate Ranking(g: Digraph, r: seq<int>) { |r| == g.n }

  ghost predicate Marking(g: Digraph, eul: seq<bool>) { |eul| == g.M() }

  /** `slack(v, u)`: by how much `u` lies more than one rank above `v`. */
  function Slack(r: seq<int>, v: int, u: int): (t: int)
    requires 0 <= v < |r| && 0 <= u < |r|
    ensures t >= 0
  {
    if r[u] > r[v] + 1 then r[u] - r[v] - 1 else 0
  }

  function EdgeSlack(g: Digraph, r: seq<int>, e: int): (t: int)
    requires g.Valid() && Ranking(g, r) && 0 <= e < g.M()
    ensures t >= 0
  {
    Slack(r, g.src[e], g.dst[e])
  }

  /** The penalty one edge pays: nothing when it climbs, else the drop plus one. */
  function EdgeCost(g: Digraph, r: seq<int>, e: int): (t: int)
    requires g.Valid() && Ranking(g, r) && 0 <= e < g.M()
    ensures t >= 0
  {
    if r[g.dst[e]] <= r[g.src[e]] then r[g.src[e]] - r[g.dst[e]] + 1 else 0
  }

  function CostTo(g: Digraph, r: seq<int>, k: nat): (t: int)
    requires g.Valid() && Ranking(g, r) && k <= g.M()
    ensures t >= 0
  {
    if k == 0 then 0 else CostTo(g, r, k - 1) + EdgeCost(g, r, k - 1)
  }

  /** The agony of ranking `r`. */
  function Cost(g: Digraph, r: seq<int>): int
    requires g.Valid() && Ranking(g, r)
  {
    CostTo(g, r, g.M())
  }

  ghost function CountTo(eul: seq<bool>, k: nat): (c: int)
    requires k <= |eul|
    ensures 0 <= c <= k
  {
    if k == 0 then 0 else CountTo(eul, k - 1) + if eul[k - 1] then 1 else 0
  }

  /** Number of marked edges. */
  ghost function Count(eul: seq<bool>): (c: int)
    ensures c >= 0
  {
    CountTo(eul, |eul|)
  }

  ghost function SlackTo(eul: seq<bool>, slk: seq<int>, k: nat): int
    requires k <= |eul| == |slk|
  {
    if k == 0 then 0 else SlackTo(eul, slk, k - 1) + if eul[k - 1] then slk[k - 1] else 0
  }

  /** Sum of the recorded slacks of the marked edges. */
  ghost function SlackSum(eul: seq<bool>, slk: seq<int>): int
    requires |eul| == |slk|
  {
    SlackTo(eul, slk, |eul|)
  }

  /** In-degree minus out-degree of `v` in the marked part of the first `k` edges. */
  ghost function ExcessTo(g: Digraph, eul: seq<bool>, v: int, k: nat): int
    requires g.Valid() && Marking(g, eul) && k <= g.M()
  {
    if k == 0 then 0
    else ExcessTo(g, eul, v, k - 1)
         + (if eul[k - 1] && g.dst[k - 1] == v then 1 else 0)
         - (if eul[k - 1] && g.src[k - 1] == v then 1 else 0)
  }

  ghost function Excess(g: Digraph, eul: seq<bool>, v: int): int
    requires g.Valid() && Marking(g, eul)
  {
    ExcessTo(g, eul, v, g.M())
  }

  /** Every node has as many marked edges in as out: the marked part is Eulerian. */
  ghost predicate Balanced(g: Digraph, eul: seq<bool>)
    requires g.Valid() && Marking(g, eul)
  {
    forall v :: 0 <= v < g.n ==> Excess(g, eul, v) == 0
  }

  /** Every unmarked edge climbs. */
  ghost predicate Increasing(g: Digraph, eul: seq<bool>, r: seq<int>)
    requires g.Valid() && Marking(g, eul) && Ranking(g, r)
  {
    forall e :: 0 <= e < g.M() && !eul[e] ==> r[g.src[e]] < r[g.dst[e]]
  }

  // ---------- marking or unmarking one edge ----------

  ghost function Ind(b: bool): int { if b then 1 else 0 }

  lemma {:induction false} CountFlip(eul: seq<bool>, e: nat, b: bool, k: nat)
    requires e < |eul| && k <= |eul|
    ensures CountTo(eul[e := b], k) == CountTo(eul, k) + (if e < k then Ind(b) - Ind(eul[e]) else 0)
  {
    if k > 0 { CountFlip(eul, e, b, k - 1); }
  }

  lemma CountDrop(eul: seq<bool>, e: nat)
    requires e < |eul| && eul[e]
    ensures Count(eul[e := false]) == Count(eul) - 1
  {
    CountFlip(eul, e, false, |eul|);
  }

  lemma {:induction false} SlackFlip(eul: seq<bool>, slk: seq<int>, e: nat, b: bool, t: int, k: nat)
    requires e < |eul| == |slk| && k <= |eul|
    ensures SlackTo(eul[e := b], slk[e := t], k)
         == SlackTo(eul, slk, k) + (if e < k then Ind(b) * t - Ind(eul[e]) * slk[e] else 0)
  {
    if k > 0 { SlackFlip(eul, slk, e, b, t, k - 1); }
  }

  lemma {:induction false} ExcessFlip(g: Digraph, eul: seq<bool>, e: nat, b: bool, v: int, k: nat)
    requires g.Valid() && Marking(g, eul) && e < g.M() && k <= g.M()
    ensures ExcessTo(g, eul[e := b], v, k)
         == ExcessTo(g, eul, v, k)
            + (if e >= k || b == eul[e] then 0
               else if b then Ind(g.dst[e] == v) - Ind(g.src[e] == v)
               else Ind(g.src[e] == v) - Ind(g.dst[e] == v))
  {
    if k > 0 { ExcessFlip(g, eul, e, b, v, k - 1); }
  }

  /** Balanced, except that `s` has one marked edge too many in and `u` one too many out. */
  ghost predicate Skewed(g: Digraph, eul: seq<bool>, s: int, u: int)
    requires g.Valid() && Marking(g, eul)
  {
    forall v :: 0 <= v < g.n ==> Excess(g, eul, v) == Ind(v == s) - Ind(v == u)
  }

  lemma SkewedSelf(g: Digraph, eul: seq<bool>, s: int)
    requires g.Valid() && Marking(g, eul)
    ensures Balanced(g, eul) <==> Skewed(g, eul, s, s)
  {
  }

  /** Marking an edge from `w` to `u`, or unmarking one from `u` to `w`, moves the skew from `u` to `w`. */
  lemma SkewStep(g: Digraph, eul: seq<bool>, s: int, u: int, w: int, e: int, eul': seq<bool>)
    requires g.Valid() && Marking(g, eul) && 0 <= e < g.M() && Skewed(g, eul, s, u)
    requires eul' == eul[e := !eul[e]]
    requires if eul[e] then g.src[e] == u && g.dst[e] == w else g.src[e] == w && g.dst[e] == u
    ensures Skewed(g, eul', s, w)
  {
    forall v | 0 <= v < g.n ensures Excess(g, eul', v) == Ind(v == s) - Ind(v == w) {
      assert Excess(g, eul, v) == Ind(v == s) - Ind(v == u);
      ExcessFlip(g, eul, e, !eul[e], v, g.M());
    }
  }

  lemma {:induction false} SlackNonNegative(eul: seq<bool>, slk: seq<int>, k: nat)
    requires k <= |eul| == |slk|
    requires forall e :: 0 <= e < |slk| && eul[e] ==> slk[e] >= 0
    ensures SlackTo(eul, slk, k) >= 0
    ensures SlackTo(eul, slk, k) == 0 ==> forall e :: 0 <= e < k && eul[e] ==> slk[e] == 0
    ensures forall e :: 0 <= e < k && eul[e] ==> slk[e] <= SlackTo(eul, slk, k)
  {
    if k > 0 { SlackNonNegative(eul, slk, k - 1); }
  }

  // ---------- telescoping ----------

  /** Total climb of the marked edges among the first `k`. */
  ghost function ClimbTo(g: Digraph, eul: seq<bool>, f: seq<int>, k: nat): int
    requires g.Valid() && Marking(g, eul) && Ranking(g, f) && k <= g.M()
  {
    if k == 0 then 0
    else ClimbTo(g, eul, f, k - 1) + if eul[k - 1] then f[g.dst[k - 1]] - f[g.src[k - 1]] else 0
  }

  /** The same climb gathered node by node. */
  ghost function NodeClimb(g: Digraph, eul: seq<bool>, f: seq<int>, k: nat, w: nat): int
    requires g.Valid() && Marking(g, eul) && Ranking(g, f) && k <= g.M() && w <= g.n
  {
    if w == 0 then 0
    else NodeClimb(g, eul, f, k, w - 1) + f[w - 1] * ExcessTo(g, eul, w - 1, k)
  }

  lemma {:induction false} NodeClimbStep(g: Digraph, eul: seq<bool>, f: seq<int>, k: nat, w: nat)
    requires g.Valid() && Marking(g, eul) && Ranking(g, f) && 0 < k <= g.M() && w <= g.n
    ensures NodeClimb(g, eul, f, k, w) == NodeClimb(g, eul, f, k - 1, w)
      + if eul[k - 1]
        then (if g.dst[k - 1] < w then f[g.dst[k - 1]] else 0) - (if g.src[k - 1] < w then f[g.src[k - 1]] else 0)
        else 0
  {
    if w > 0 {
      NodeClimbStep(g, eul, f, k, w - 1);
      var x := ExcessTo(g, eul, w - 1, k - 1);
      var d := ExcessTo(g, eul, w - 1, k) - x;
      assert f[w - 1] * (x + d) == f[w - 1] * x + f[w - 1] * d;
      assert d == 0 || d == 1 || d == -1;
    }
  }

  lemma {:induction false} NodeClimbZero(g: Digraph, eul: seq<bool>, f: seq<int>, w: nat)
    requires g.Valid() && Marking(g, eul) && Ranking(g, f) && w <= g.n
    ensures NodeClimb(g, eul, f, 0, w) == 0
  {
    if w > 0 { NodeClimbZero(g, eul, f, w - 1); }
  }

  lemma {:induction false} ClimbByNode(g: Digraph, eul: seq<bool>, f: seq<int>, k: nat)
    requires g.Valid() && Marking(g, eul) && Ranking(g, f) && k <= g.M()
    ensures ClimbTo(g, eul, f, k) == NodeClimb(g, eul, f, k, g.n)
  {
    if k == 0 {
      NodeClimbZero(g, eul, f, g.n);
    } else {
      ClimbByNode(g, eul, f, k - 1);
      NodeClimbStep(g, eul, f, k, g.n);
    }
  }

  lemma {:induction false} BalancedNodeClimb(g: Digraph, eul: seq<bool>, f: seq<int>, w: nat)
    requires g.Valid() && Marking(g, eul) && Ranking(g, f) && w <= g.n && Balanced(g, eul)
    ensures NodeClimb(g, eul, f, g.M(), w) == 0
  {
    if w > 0 {
      BalancedNodeClimb(g, eul, f, w - 1);
      assert Excess(g, eul, w - 1) == 0;
    }
  }

  /** Around a balanced edge set every ranking climbs by zero in total. */
  lemma Telescope(g: Digraph, eul: seq<bool>, f: seq<int>)
    requires g.Valid() && Marking(g, eul) && Ranking(g, f) && Balanced(g, eul)
    ensures ClimbTo(g, eul, f, g.M()) == 0
  {
    ClimbByNode(g, eul, f, g.M());
    BalancedNodeClimb(g, eul, f, g.n);
  }

  // ---------- duality ----------

  lemma {:induction false} CostAboveClimb(g: Digraph, eul: seq<bool>, r: seq<int>, k: nat)
    requires g.Valid() && Marking(g, eul) && Ranking(g, r) && k <= g.M()
    ensures CostTo(g, r, k) >= CountTo(eul, k) - ClimbTo(g, eul, r, k)
  {
    if k > 0 { CostAboveClimb(g, eul, r, k - 1); }
  }

  /** Weak duality: no ranking whatsoever costs less than the size of a balanced edge set. */
  lemma WeakDuality(g: Digraph, eul: seq<bool>, r: seq<int>)
    requires g.Valid() && Marking(g, eul) && Ranking(g, r) && Balanced(g, eul)
    ensures Cost(g, r) >= Count(eul)
  {
    CostAboveClimb(g, eul, r, g.M());
    Telescope(g, eul, r);
  }

  lemma {:induction false} CostIsClimbPlusSlack(g: Digraph, eul: seq<bool>, r: seq<int>, slk: seq<int>, k: nat)
    requires g.Valid() && Marking(g, eul) && Ranking(g, r) && |slk| == g.M() && k <= g.M()
    requires Increasing(g, eul, r)
    requires forall e :: 0 <= e < g.M() && eul[e] ==> slk[e] == EdgeSlack(g, r, e)
    ensures CostTo(g, r, k) == CountTo(eul, k) - ClimbTo(g, eul, r, k) + SlackTo(eul, slk, k)
  {
    if k > 0 {
      CostIsClimbPlusSlack(g, eul, r, slk, k - 1);
      if !eul[k - 1] { assert r[g.src[k - 1]] < r[g.dst[k - 1]]; }
    }
  }

  /** Exact duality gap: with every unmarked edge climbing, cost = dual + total slack. */
  lemma DualityGap(g: Digraph, eul: seq<bool>, r: seq<int>, slk: seq<int>)
    requires g.Valid() && Marking(g, eul) && Ranking(g, r) && |slk| == g.M()
    requires Balanced(g, eul) && Increasing(g, eul, r)
    requires forall e :: 0 <= e < g.M() && eul[e] ==> slk[e] == EdgeSlack(g, r, e)
    ensures Cost(g, r) == Count(eul) + SlackSum(eul, slk)
  {
    CostIsClimbPlusSlack(g, eul, r, slk, g.M());
    Telescope(g, eul, r);
  }

  /** `r` is optimal: no other assignment of integers to the nodes has less agony. */
  ghost predicate Optimal(g: Digraph, r: seq<int>)
    requires g.Valid() && Ranking(g, r)
  {
    forall f: seq<int> :: Ranking(g, f) ==> Cost(g, f) >= Cost(g, r)
  }

  lemma ZeroSlackOptimal(g: Digraph, eul: seq<bool>, r: seq<int>, slk: seq<int>)
    requires g.Valid() && Marking(g, eul) && Ranking(g, r) && |slk| == g.M()
    requires Balanced(g, eul) && Increasing(g, eul, r)
    requires forall e :: 0 <= e < g.M() && eul[e] ==> slk[e] == EdgeSlack(g, r, e)
    requires SlackSum(eul, slk) == 0
    ensures Cost(g, r) == Count(eul) && Optimal(g, r)
  {
    DualityGap(g, eul, r, slk);
    forall f: seq<int> | Ranking(g, f) ensures Cost(g, f) >= Cost(g, r) {
      WeakDuality(g, eul, f);
    }
  }
}
