/** The state of `cycledfs`: a depth-first walk that marks every cycle it closes. */
module AgonyWalk {
  import opened Lists
  import opened AgonyTheory

  /** `bound` are the edges still in the scratch graph; `path` runs from the seed to the current node;
      `dead` lists the nodes without remaining out-edges, in the order they died. */
  datatype Walk = Walk(eul: seq<bool>, bound: seq<bool>, parent: seq<int>, paredge: seq<int>,
                       path: seq<int>, dead: seq<int>)
  {
    ghost predicate Shape(g: Digraph) {
      && g.Valid() && |eul| == |bound| == g.M() && |parent| == |paredge| == g.n
      && (forall k :: 0 <= k < |path| ==> 0 <= path[k] < g.n)
      && (forall k :: 0 <= k < |dead| ==> 0 <= dead[k] < g.n)
      && Distinct(path) && Distinct(dead)
      && (forall k :: 0 <= k < |path| ==> path[k] !in dead)
    }

    /** Remaining edges are unmarked and join living nodes; every other unmarked edge leads to a dead node
        that died before its source did. */
    ghost predicate Edges(g: Digraph)
      requires Shape(g)
    {
      && (forall e :: 0 <= e < g.M() && bound[e] ==> !eul[e] && g.src[e] !in dead && g.dst[e] !in dead)
      && (forall e :: 0 <= e < g.M() && !bound[e] && !eul[e] ==> g.dst[e] in dead)
      && (forall k, e :: 0 <= k < |dead| && 0 <= e < g.M() && g.src[e] == dead[k] && !eul[e] ==> g.dst[e] in dead[..k])
    }

    /** Among living nodes, exactly those on the path behind the seed have a parent: the node before them. */
    ghost predicate Parents(g: Digraph)
      requires Shape(g)
    {
      && (forall v :: 0 <= v < g.n && v !in dead && v !in path ==> parent[v] == -1)
      && (path != [] ==> parent[path[0]] == -1)
      && (forall k :: 1 <= k < |path| ==> parent[path[k]] == path[k - 1])
    }

    /** The step into `path[k]` used the remaining edge `paredge[path[k]]`. */
    ghost predicate Link(g: Digraph, k: int)
      requires Shape(g) && 1 <= k < |path|
    {
      var e := paredge[path[k]];
      0 <= e < g.M() && bound[e] && g.src[e] == path[k - 1] && g.dst[e] == path[k]
    }

    ghost predicate LinksTo(g: Digraph, m: int)
      requires Shape(g) && m < |path|
    {
      forall k :: 1 <= k <= m ==> Link(g, k)
    }

    ghost predicate Inv(g: Digraph) {
      Shape(g) && Edges(g) && Parents(g) && LinksTo(g, |path| - 1) && Balanced(g, eul)
    }

    function Last(): int
      requires path != []
    {
      path[|path| - 1]
    }
  }

  lemma StartInv(g: Digraph, w: Walk)
    requires g.Valid() && w.path == w.dead == []
    requires w.eul == seq(g.M(), e => false) && w.bound == seq(g.M(), e => true)
    requires |w.parent| == |w.paredge| == g.n && forall v :: 0 <= v < g.n ==> w.parent[v] == -1
    ensures w.Inv(g)
  {
    forall v | 0 <= v < g.n ensures Excess(g, w.eul, v) == 0 {
      UnmarkedExcess(g, w.eul, v, g.M());
    }
  }

  lemma {:induction false} UnmarkedExcess(g: Digraph, eul: seq<bool>, v: int, k: nat)
    requires g.Valid() && Marking(g, eul) && k <= g.M() && forall e :: 0 <= e < g.M() ==> !eul[e]
    ensures ExcessTo(g, eul, v, k) == 0
  {
    if k > 0 { UnmarkedExcess(g, eul, v, k - 1); }
  }

  lemma SeedInv(g: Digraph, w: Walk, seed: int)
    requires w.Inv(g) && w.path == [] && 0 <= seed < g.n && seed !in w.dead
    ensures w.(path := [seed], parent := w.parent[seed := -1]).Inv(g)
  {
    assert w.parent[seed := -1] == w.parent;
  }

  /** A living node is on the path iff it has a parent or is the seed. */
  lemma OnPath(g: Digraph, w: Walk, v: int)
    requires w.Inv(g) && w.path != [] && 0 <= v < g.n && v !in w.dead
    ensures v in w.path <==> w.parent[v] != -1 || v == w.path[0]
  {
    if v in w.path && v != w.path[0] {
      var k :| 0 <= k < |w.path| && w.path[k] == v;
      assert w.parent[w.path[k]] == w.path[k - 1];
    }
  }

  lemma ExtendInv(g: Digraph, w: Walk, e: int)
    requires w.Inv(g) && w.path != [] && 0 <= e < g.M() && w.bound[e]
    requires g.src[e] == w.Last() && g.dst[e] !in w.path
    ensures w.(path := w.path + [g.dst[e]], parent := w.parent[g.dst[e] := w.Last()],
               paredge := w.paredge[g.dst[e] := e]).Inv(g)
  {
    var v := g.dst[e];
    var w' := w.(path := w.path + [v], parent := w.parent[v := w.Last()], paredge := w.paredge[v := e]);
    AppendDistinct(w.path, v);
    assert w'.Shape(g);
    forall k | 1 <= k < |w'.path| ensures w'.Link(g, k) && w'.parent[w'.path[k]] == w'.path[k - 1] {
      if k < |w.path| {
        assert w.path[k] in w.path;
        assert w.Link(g, k);
      }
    }
  }

  /** What is left bound when `u` dies. */
  ghost predicate Severed(g: Digraph, bound: seq<bool>, bound': seq<bool>, u: int)
    requires g.Valid()
  {
    && |bound| == |bound'| == g.M()
    && forall e :: 0 <= e < g.M() ==> bound'[e] == (bound[e] && g.src[e] != u && g.dst[e] != u)
  }

  lemma DieInv(g: Digraph, w: Walk, bound': seq<bool>)
    requires w.Inv(g) && w.path != []
    requires forall e :: 0 <= e < g.M() && w.bound[e] ==> g.src[e] != w.Last()
    requires Severed(g, w.bound, bound', w.Last())
    ensures w.(path := w.path[..|w.path| - 1], dead := w.dead + [w.Last()], bound := bound').Inv(g)
  {
    var u := w.Last();
    var w' := w.(path := w.path[..|w.path| - 1], dead := w.dead + [u], bound := bound');
    AppendDistinct(w.dead, u);
    assert w'.Shape(g);
    DieEdges(g, w, w');
    forall k | 1 <= k < |w'.path| ensures w'.Link(g, k) { assert w.Link(g, k); }
  }

  lemma DieEdges(g: Digraph, w: Walk, w': Walk)
    requires w.Shape(g) && w.Edges(g) && w.path != [] && w'.Shape(g)
    requires forall e :: 0 <= e < g.M() && w.bound[e] ==> g.src[e] != w.Last()
    requires Severed(g, w.bound, w'.bound, w.Last()) && w'.dead == w.dead + [w.Last()] && w'.eul == w.eul
    ensures w'.Edges(g)
  {
    forall k, e | 0 <= k < |w'.dead| && 0 <= e < g.M() && g.src[e] == w'.dead[k] && !w.eul[e]
      ensures g.dst[e] in w'.dead[..k]
    {
      if k < |w.dead| {
        assert w'.dead[..k] == w.dead[..k];
      } else {
        assert w'.dead[..k] == w.dead;
      }
    }
  }

  // ---------- closing a cycle ----------

  /** Path edges behind position `m` are already marked and removed; the skew sits at `path[m]`. */
  ghost predicate Unwinding(g: Digraph, w: Walk, m: int) {
    && w.Shape(g) && w.Edges(g) && w.Parents(g) && w.path != []
    && 0 <= m < |w.path| && w.LinksTo(g, m)
    && Skewed(g, w.eul, w.Last(), w.path[m])
  }

  lemma UnwindStart(g: Digraph, w: Walk)
    requires w.Inv(g) && w.path != []
    ensures Unwinding(g, w, |w.path| - 1)
  {
    SkewedSelf(g, w.eul, w.Last());
  }

  /** The cycle through `path[m]` is marked and removed; only parents and path remain to be put right. */
  ghost predicate Closed(g: Digraph, w: Walk, m: int) {
    && w.Shape(g) && w.Edges(g) && w.Parents(g) && w.path != []
    && 0 <= m < |w.path| && w.LinksTo(g, m)
    && Balanced(g, w.eul)
  }

  function Marked(w: Walk, e: int): Walk
    requires 0 <= e < |w.eul| && e < |w.bound|
  {
    w.(eul := w.eul[e := true], bound := w.bound[e := false])
  }

  lemma MarkEdges(g: Digraph, w: Walk, e: int)
    requires w.Shape(g) && w.Edges(g) && 0 <= e < g.M() && w.bound[e]
    ensures Marked(w, e).Shape(g) && Marked(w, e).Edges(g)
  {
  }

  lemma UnwindStep(g: Digraph, w: Walk, m: int)
    requires Unwinding(g, w, m) && m > 0
    ensures w.Link(g, m) && w.parent[w.path[m]] == w.path[m - 1]
    ensures Unwinding(g, Marked(w, w.paredge[w.path[m]]), m - 1)
  {
    assert w.Link(g, m);
    var e := w.paredge[w.path[m]];
    MarkEdges(g, w, e);
    var w' := Marked(w, e);
    SkewStep(g, w.eul, w.Last(), w.path[m], w.path[m - 1], e, w'.eul);
    forall k | 1 <= k <= m - 1 ensures w'.Link(g, k) { assert w.Link(g, k); }
  }

  /** Marking the edge from the last node back to `path[m]` rebalances the marks. */
  lemma UnwindClose(g: Digraph, w: Walk, m: int, e: int)
    requires Unwinding(g, w, m) && 0 <= e < g.M() && w.bound[e]
    requires g.src[e] == w.Last() && g.dst[e] == w.path[m]
    ensures Closed(g, Marked(w, e), m)
  {
    MarkEdges(g, w, e);
    var w' := Marked(w, e);
    SkewStep(g, w.eul, w.Last(), w.path[m], w.Last(), e, w'.eul);
    SkewedSelf(g, w'.eul, w.Last());
    forall k | 1 <= k <= m ensures w'.Link(g, k) { assert w.Link(g, k); }
  }

  /** `parent'` is `parent` with the nodes behind position `m` of the path made parentless. */
  ghost predicate Orphaned(w: Walk, parent': seq<int>, m: int) {
    && |parent'| == |w.parent| && 0 <= m < |w.path|
    && forall v :: 0 <= v < |parent'| ==> parent'[v] == if v in w.path[m + 1..] then -1 else w.parent[v]
  }

  /** The walk resumes at `path[m]`. */
  lemma ResumeInv(g: Digraph, w: Walk, m: int, parent': seq<int>)
    requires Closed(g, w, m) && Orphaned(w, parent', m)
    ensures w.(path := w.path[..m + 1], parent := parent').Inv(g)
  {
    var w' := w.(path := w.path[..m + 1], parent := parent');
    assert w'.Shape(g);
    assert w.path == w.path[..m + 1] + w.path[m + 1..];
    forall k | 1 <= k < |w'.path| ensures w'.Link(g, k) && w'.parent[w'.path[k]] == w'.path[k - 1] {
      assert w.Link(g, k);
    }
    assert w.path[0] !in w.path[m + 1..];
  }

  /** A walk that has killed every node leaves the unmarked edges acyclic: each leads to a node that died earlier. */
  ghost predicate SinksFirst(g: Digraph, eul: seq<bool>, order: seq<int>)
    requires g.Valid() && Marking(g, eul)
  {
    && Distinct(order)
    && (forall k :: 0 <= k < |order| ==> 0 <= order[k] < g.n)
    && (forall v :: 0 <= v < g.n ==> v in order)
    && (forall k, e :: 0 <= k < |order| && 0 <= e < g.M() && g.src[e] == order[k] && !eul[e] ==> g.dst[e] in order[..k])
  }

  /** The list of living nodes. */
  ghost predicate Living(g: Digraph, dead: seq<int>, active: seq<int>)
  {
    Distinct(active) && forall v :: v in active <==> 0 <= v < g.n && v !in dead
  }

  lemma DieLiving(g: Digraph, w: Walk, active: seq<int>)
    requires w.Shape(g) && Living(g, w.dead, active) && w.path != []
    ensures |Without(active, w.Last())| < |active|
    ensures Living(g, w.dead + [w.Last()], Without(active, w.Last()))
  {
    WithoutDistinct(active, w.Last());
  }

  lemma PathBounded(g: Digraph, w: Walk)
    requires w.Shape(g)
    ensures |w.path| <= g.n
  {
    DistinctBounded(w.path, g.n);
  }

  lemma BoundLives(g: Digraph, w: Walk, e: int)
    requires w.Inv(g) && 0 <= e < g.M() && w.bound[e]
    ensures g.dst[e] !in w.dead && !w.eul[e]
  {
  }

  /** Stepping back from the last path node leads to the node before it, or nowhere from the seed. */
  lemma ParentOfLast(g: Digraph, w: Walk)
    requires w.Inv(g) && w.path != []
    ensures w.parent[w.Last()] == if |w.path| == 1 then -1 else w.path[|w.path| - 2]
  {
  }

  lemma AllDead(g: Digraph, w: Walk, active: seq<int>)
    requires w.Inv(g) && Living(g, w.dead, active) && active == []
    ensures Balanced(g, w.eul) && SinksFirst(g, w.eul, w.dead)
  {
    forall v | 0 <= v < g.n ensures v in w.dead { assert v !in active; }
  }

  lemma AllLiving(g: Digraph, active: seq<int>)
    requires active == seq(g.n, i => i)
    ensures Living(g, [], active)
  {
    forall v | 0 <= v < g.n ensures v in active { assert active[v] == v; }
  }

  lemma FirstLiving(g: Digraph, dead: seq<int>, active: seq<int>)
    requires Living(g, dead, active) && active != []
    ensures 0 <= active[0] < g.n && active[0] !in dead
  {
    assert active[0] in active;
  }

  lemma ClosedShape(g: Digraph, w: Walk, m: int)
    requires Closed(g, w, m)
    ensures w.Shape(g) && |w.parent| == g.n
  {
  }
}
