/** Strongly connected pieces of a graph, and the worklist of pieces that cycle breaking keeps. */
module SccPieces {
  import opened CycleGraph

  /** The networkx routine: it lists the classes of mutual reachability. */
  type Oracle = Graph -> seq<set<int>>

  ghost predicate Components(g: Graph, cs: seq<set<int>>) {
    && (forall i :: 0 <= i < |cs| ==> cs[i] <= g.nodes)
    && (forall i, j :: 0 <= i < j < |cs| ==> cs[i] !! cs[j])
    && (forall v :: v in g.nodes ==> exists i :: 0 <= i < |cs| && v in cs[i])
    && (forall i, u, v :: 0 <= i < |cs| && u in cs[i] && v in g.nodes ==>
          (v in cs[i] <==> Reaches(g.edges, u, v) && Reaches(g.edges, v, u)))
  }

  ghost predicate FindsComponents(scc: Oracle) {
    forall g: Graph :: g.Valid() ==> Components(g, scc(g))
  }

  ghost predicate StronglyConnected(g: Graph) {
    forall u, v :: u in g.nodes && v in g.nodes ==> Reaches(g.edges, u, v)
  }

  ghost predicate LoopFree(es: set<Edge>) {
    forall e :: e in es ==> e.0 != e.1
  }

  /** `g.subgraph(c)`. */
  function Sub(g: Graph, c: set<int>): Graph {
    Graph(c, set e | e in g.edges && e.0 in c && e.1 in c)
  }

  /** The components of two or more nodes, as graphs of their own. */
  function BigSubgraphs(g: Graph, cs: seq<set<int>>): seq<Graph> {
    if cs == [] then []
    else (if |cs[0]| >= 2 then [Sub(g, cs[0])] else []) + BigSubgraphs(g, cs[1..])
  }

  lemma {:induction false} BigSubgraphsElements(g: Graph, cs: seq<set<int>>, h: Graph)
    ensures h in BigSubgraphs(g, cs) <==> exists i :: 0 <= i < |cs| && |cs[i]| >= 2 && h == Sub(g, cs[i])
  {
    if cs != [] {
      BigSubgraphsElements(g, cs[1..], h);
      if i :| 0 <= i < |cs| && |cs[i]| >= 2 && h == Sub(g, cs[i]) {
        if i > 0 { assert cs[1..][i - 1] == cs[i]; }
      }
      if i :| 0 <= i < |cs[1..]| && |cs[1..][i]| >= 2 && h == Sub(g, cs[1..][i]) {
        assert cs[i + 1] == cs[1..][i];
      }
    }
  }

  // ---------- walks and components ----------

  lemma WalkSlice(es: set<Edge>, p: seq<int>, i: int, j: int)
    requires Walk(es, p) && 0 <= i <= j < |p|
    ensures Reaches(es, p[i], p[j])
  {
    var q := p[i..j + 1];
    forall k | 0 <= k < |q| - 1 ensures (q[k], q[k + 1]) in es {
      assert (p[i + k], p[i + k + 1]) in es;
    }
    assert WalkFromTo(es, q, p[i], p[j]);
  }

  lemma ReachesTrans(es: set<Edge>, a: int, b: int, c: int)
    requires Reaches(es, a, b) && Reaches(es, b, c)
    ensures Reaches(es, a, c)
  {
    var p: seq<int> :| WalkFromTo(es, p, a, b);
    var q: seq<int> :| WalkFromTo(es, q, b, c);
    var r := p + q[1..];
    forall k | 0 <= k < |r| - 1 ensures (r[k], r[k + 1]) in es {
      if k < |p| - 1 {
        assert (p[k], p[k + 1]) in es;
      } else {
        assert (q[k - |p| + 1], q[k - |p| + 2]) in es;
      }
    }
    assert WalkFromTo(es, r, a, c);
  }

  /** A walk that ends where it can get back to its start stays inside one component. */
  lemma WalkInComponent(g: Graph, cs: seq<set<int>>, i: int, p: seq<int>)
    requires g.Valid() && Components(g, cs) && 0 <= i < |cs|
    requires Walk(g.edges, p) && p[0] in cs[i] && Reaches(g.edges, p[|p| - 1], p[0])
    ensures Walk(Sub(g, cs[i]).edges, p)
  {
    forall k | 0 <= k < |p| ensures p[k] in cs[i] {
      WalkSlice(g.edges, p, 0, k);
      WalkSlice(g.edges, p, k, |p| - 1);
      ReachesTrans(g.edges, p[k], p[|p| - 1], p[0]);
      if k > 0 { assert (p[k - 1], p[k]) in g.edges; }
      assert p[k] in g.nodes;
    }
    forall k | 0 <= k < |p| - 1 ensures (p[k], p[k + 1]) in Sub(g, cs[i]).edges {
      assert (p[k], p[k + 1]) in g.edges;
    }
  }

  lemma SubStronglyConnected(g: Graph, cs: seq<set<int>>, i: int)
    requires g.Valid() && Components(g, cs) && 0 <= i < |cs|
    ensures StronglyConnected(Sub(g, cs[i])) && Sub(g, cs[i]).Valid()
  {
    var h := Sub(g, cs[i]);
    forall u, v | u in h.nodes && v in h.nodes ensures Reaches(h.edges, u, v) {
      assert Reaches(g.edges, u, v) && Reaches(g.edges, v, u);
      var p: seq<int> :| WalkFromTo(g.edges, p, u, v);
      WalkInComponent(g, cs, i, p);
      assert WalkFromTo(h.edges, p, u, v);
    }
  }

  /** Every cycle lies in a component of at least two nodes. */
  lemma CycleInBigSubgraph(g: Graph, cs: seq<set<int>>, p: seq<int>)
    requires g.Valid() && Components(g, cs) && LoopFree(g.edges) && Cycle(g.edges, p)
    ensures exists h :: h in BigSubgraphs(g, cs) && Cycle(h.edges, p)
  {
    assert (p[0], p[1]) in g.edges;
    assert p[0] in g.nodes;
    var i :| 0 <= i < |cs| && p[0] in cs[i];
    ReachesSelf(g.edges, p[0]);
    WalkInComponent(g, cs, i, p);
    assert (p[0], p[1]) in Sub(g, cs[i]).edges;
    TwoNodes(cs[i], p[0], p[1]);
    BigSubgraphsElements(g, cs, Sub(g, cs[i]));
    assert Cycle(Sub(g, cs[i]).edges, p);
  }

  lemma TwoNodes(s: set<int>, a: int, b: int)
    requires a in s && b in s && a != b
    ensures |s| >= 2
  {
    assert {a, b} <= s;
    assert |s| == |{a, b}| + |s - {a, b}| by { assert s == {a, b} + (s - {a, b}); }
  }

  // ---------- the worklist ----------

  ghost function Total(gs: seq<Graph>): nat {
    if gs == [] then 0 else Total(gs[..|gs| - 1]) + |gs[|gs| - 1].edges|
  }

  lemma {:induction false} TotalConcat(a: seq<Graph>, b: seq<Graph>)
    ensures Total(a + b) == Total(a) + Total(b)
  {
    if b == [] {
      assert a + b == a;
    } else {
      var c := b[..|b| - 1];
      TotalConcat(a, c);
      assert (a + b)[..|a + b| - 1] == a + c;
    }
  }

  /** Edge sets of distinct components do not overlap, so together they have at most the edges of the graph. */
  lemma {:induction false} TotalBigSubgraphs(g: Graph, cs: seq<set<int>>, pool: set<Edge>)
    requires forall i, j :: 0 <= i < j < |cs| ==> cs[i] !! cs[j]
    requires forall i, e :: 0 <= i < |cs| && e in g.edges && e.0 in cs[i] ==> e in pool
    ensures Total(BigSubgraphs(g, cs)) <= |pool|
    decreases |cs|
  {
    if cs != [] {
      var first, own := BigSubgraphs(g, cs[1..]), Sub(g, cs[0]).edges;
      forall i, e | 0 <= i < |cs[1..]| && e in g.edges && e.0 in cs[1..][i] ensures e in pool - own {
        assert cs[0] !! cs[i + 1];
      }
      TotalBigSubgraphs(g, cs[1..], pool - own);
      assert |pool| == |pool - own| + |own| by { assert pool == (pool - own) + own; }
      TotalConcat(if |cs[0]| >= 2 then [Sub(g, cs[0])] else [], first);
      assert [Sub(g, cs[0])][..0] == [];
    }
  }

  ghost predicate Apart(g: Graph, h: Graph) { g.edges !! h.edges }

  ghost predicate AllApart(gs: seq<Graph>) {
    forall i, j :: 0 <= i < j < |gs| ==> Apart(gs[i], gs[j])
  }

  ghost predicate Piece(original: set<Edge>, h: Graph) {
    h.Valid() && |h.nodes| >= 2 && StronglyConnected(h) && h.edges <= original
  }

  /** Every cycle that is left lies inside one graph of the worklist. */
  ghost predicate Covered(left: set<Edge>, gs: seq<Graph>) {
    forall p: seq<int> :: Cycle(left, p) ==> exists h :: h in gs && Cycle(h.edges, p)
  }

  ghost predicate Inv(original: set<Edge>, gs: seq<Graph>, removed: set<Edge>) {
    && LoopFree(original)
    && (forall h :: h in gs ==> Piece(original, h))
    && AllApart(gs)
    && (forall h :: h in gs ==> h.edges !! removed)
    && Covered(original - removed, gs)
    && (forall e :: e in removed ==> OnCycle(original, e))
  }

  /** What `filter_big_scc` delivers for a graph of which every edge comes from `original`. */
  lemma PiecesOfComponents(original: set<Edge>, g: Graph, cs: seq<set<int>>)
    requires g.Valid() && Components(g, cs) && g.edges <= original
    ensures forall h :: h in BigSubgraphs(g, cs) ==> Piece(original, h) && h.edges <= g.edges
  {
    forall h | h in BigSubgraphs(g, cs) ensures Piece(original, h) && h.edges <= g.edges {
      BigSubgraphsElements(g, cs, h);
      var i :| 0 <= i < |cs| && |cs[i]| >= 2 && h == Sub(g, cs[i]);
      SubStronglyConnected(g, cs, i);
    }
  }

  lemma {:induction false} BigSubgraphsDisjoint(g: Graph, cs: seq<set<int>>)
    requires forall i, j :: 0 <= i < j < |cs| ==> cs[i] !! cs[j]
    ensures AllApart(BigSubgraphs(g, cs))
  {
    if cs != [] {
      BigSubgraphsDisjoint(g, cs[1..]);
      var hs, tail := BigSubgraphs(g, cs), BigSubgraphs(g, cs[1..]);
      if |cs[0]| >= 2 {
        forall h | h in tail ensures Apart(Sub(g, cs[0]), h) {
          BigSubgraphsElements(g, cs[1..], h);
          var i :| 0 <= i < |cs[1..]| && |cs[1..][i]| >= 2 && h == Sub(g, cs[1..][i]);
          assert cs[0] !! cs[i + 1];
        }
        forall i, j | 0 <= i < j < |hs| ensures Apart(hs[i], hs[j]) {
          assert hs[j] == tail[j - 1] && tail[j - 1] in tail;
          if i > 0 { assert hs[i] == tail[i - 1] && Apart(tail[i - 1], tail[j - 1]); }
        }
      } else {
        assert hs == tail;
      }
    }
  }

  function Minus(g: Graph, cut: set<Edge>): Graph { g.(edges := g.edges - cut) }

  lemma StepCovered(original: set<Edge>, gs: seq<Graph>, g: Graph, removed: set<Edge>, cut: set<Edge>, cs: seq<set<int>>)
    requires Inv(original, gs + [g], removed) && cut <= g.edges && Components(Minus(g, cut), cs)
    ensures Covered(original - (removed + cut), gs + BigSubgraphs(Minus(g, cut), cs))
  {
    var h0 := Minus(g, cut);
    assert g in gs + [g];
    forall p: seq<int> | Cycle(original - (removed + cut), p)
      ensures exists h :: h in gs + BigSubgraphs(h0, cs) && Cycle(h.edges, p)
    {
      assert Cycle(original - removed, p);
      var h :| h in gs + [g] && Cycle(h.edges, p);
      if h == g {
        forall k | 0 <= k < |p| - 1 ensures (p[k], p[k + 1]) in h0.edges {
          assert (p[k], p[k + 1]) in g.edges;
        }
        assert Cycle(h0.edges, p);
        CycleInBigSubgraph(h0, cs, p);
        var h' :| h' in BigSubgraphs(h0, cs) && Cycle(h'.edges, p);
      }
    }
  }

  /** An edge of a strongly connected piece lies on a cycle. */
  lemma PieceEdgeOnCycle(original: set<Edge>, g: Graph, e: Edge)
    requires Piece(original, g) && e in g.edges
    ensures OnCycle(original, e)
  {
    assert e.0 in g.nodes && e.1 in g.nodes;
    assert Reaches(g.edges, e.1, e.0);
    ReachesMore(g.edges, original, e.1, e.0);
  }

  lemma StepDisjoint(original: set<Edge>, gs: seq<Graph>, g: Graph, removed: set<Edge>, cut: set<Edge>, cs: seq<set<int>>)
    requires Inv(original, gs + [g], removed) && cut <= g.edges && Components(Minus(g, cut), cs)
    ensures var gs' := gs + BigSubgraphs(Minus(g, cut), cs);
      && AllApart(gs')
      && (forall h :: h in gs' ==> h.edges !! removed + cut)
      && (forall h :: h in gs' ==> Piece(original, h))
  {
    var h0 := Minus(g, cut);
    var all, new_ := gs + [g], BigSubgraphs(h0, cs);
    var gs' := gs + new_;
    assert all[|gs|] == g && g in all;
    PiecesOfComponents(original, h0, cs);
    BigSubgraphsDisjoint(h0, cs);
    forall k | 0 <= k < |gs| ensures Apart(gs[k], g) && gs[k] in all {
      assert all[k] == gs[k];
    }
    forall i, j | 0 <= i < j < |gs'| ensures Apart(gs'[i], gs'[j]) {
      if j < |gs| {
        assert Apart(all[i], all[j]);
      } else {
        assert gs'[j] == new_[j - |gs|] && gs'[j] in new_;
        if i >= |gs| {
          assert gs'[i] == new_[i - |gs|] && Apart(new_[i - |gs|], new_[j - |gs|]);
        } else {
          assert Apart(gs[i], g) && gs'[j].edges <= g.edges;
        }
      }
    }
    forall h | h in gs' ensures h.edges !! removed + cut && Piece(original, h) {
      if h in gs {
        var k :| 0 <= k < |gs| && gs[k] == h;
        assert Apart(gs[k], g);
      }
    }
  }

  /** Cutting a non-empty set of edges out of one graph of the worklist and replacing it by its components. */
  lemma StepInv(original: set<Edge>, gs: seq<Graph>, g: Graph, removed: set<Edge>, cut: set<Edge>, cs: seq<set<int>>)
    requires Inv(original, gs + [g], removed) && cut <= g.edges && cut != {} && Components(Minus(g, cut), cs)
    ensures Inv(original, gs + BigSubgraphs(Minus(g, cut), cs), removed + cut)
    ensures Total(gs + BigSubgraphs(Minus(g, cut), cs)) < Total(gs + [g])
  {
    var h0 := Minus(g, cut);
    TotalBigSubgraphs(h0, cs, h0.edges);
    hide OnCycle, Covered, Piece, AllApart, Components;
    assert g in gs + [g];
    StepCovered(original, gs, g, removed, cut, cs);
    StepDisjoint(original, gs, g, removed, cut, cs);
    forall e | e in cut ensures OnCycle(original, e) { PieceEdgeOnCycle(original, g, e); }
    TotalConcat(gs, BigSubgraphs(h0, cs));
    assert (gs + [g])[..|gs|] == gs;
    assert |g.edges| == |h0.edges| + |cut| by { assert g.edges == h0.edges + cut; }
  }

  lemma EmptyWorklistAcyclic(original: set<Edge>, removed: set<Edge>)
    requires Inv(original, [], removed)
    ensures Acyclic(original - removed)
  {
  }

  function OutEdges(g: Graph, v: int): set<Edge> { set e | e in g.edges && e.0 == v }

  function InEdges(g: Graph, v: int): set<Edge> { set e | e in g.edges && e.1 == v }

  /** In a strongly connected graph of two or more nodes edges lead out of and into every node. */
  lemma EdgesAround(g: Graph, v: int)
    requires g.Valid() && StronglyConnected(g) && |g.nodes| >= 2 && v in g.nodes
    ensures OutEdges(g, v) != {} && InEdges(g, v) != {}
  {
    assert |g.nodes| == |g.nodes - {v}| + 1;
    Inhabited(g.nodes - {v});
    var w :| w in g.nodes - {v};
    var p: seq<int> :| WalkFromTo(g.edges, p, v, w);
    assert (p[0], p[1]) in OutEdges(g, v);
    var q: seq<int> :| WalkFromTo(g.edges, q, w, v);
    assert (q[|q| - 2], q[|q| - 1]) in InEdges(g, v);
  }

  lemma SomeNodeAndEdge(g: Graph)
    requires g.Valid() && StronglyConnected(g) && |g.nodes| >= 2
    ensures g.nodes != {} && g.edges != {}
  {
    Inhabited(g.nodes);
    var v :| v in g.nodes;
    EdgesAround(g, v);
  }

  lemma NodesShrink(g: Graph, cs: seq<set<int>>)
    requires Components(g, cs)
    ensures forall h :: h in BigSubgraphs(g, cs) ==> h.nodes <= g.nodes
  {
    forall h | h in BigSubgraphs(g, cs) ensures h.nodes <= g.nodes {
      BigSubgraphsElements(g, cs, h);
    }
  }

  lemma StartInv(g: Graph, cs: seq<set<int>>)
    requires g.Valid() && LoopFree(g.edges) && Components(g, cs)
    ensures Inv(g.edges, BigSubgraphs(g, cs), {})
  {
    PiecesOfComponents(g.edges, g, cs);
    BigSubgraphsDisjoint(g, cs);
    assert g.edges - {} == g.edges;
    forall p: seq<int> | Cycle(g.edges, p) ensures exists h :: h in BigSubgraphs(g, cs) && Cycle(h.edges, p) {
      CycleInBigSubgraph(g, cs, p);
    }
  }
}
