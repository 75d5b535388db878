/** Cycle breaking by strongly connected components: a worklist of components, cut until none is left. */
module SccBreaker {
  import opened CycleGraph
  import opened SccPieces
  import opened CutStrategy
  import opened CutHazard
  import opened CutMeaning

  /** `filter_big_scc`. */
  method FilterBigScc(g: Graph, cut: set<Edge>, scc: Oracle) returns (hs: seq<Graph>)
    requires g.Valid() && FindsComponents(scc)
    ensures Components(Minus(g, cut), scc(Minus(g, cut))) && hs == BigSubgraphs(Minus(g, cut), scc(Minus(g, cut)))
  {
    var h := Minus(g, cut);
    hs := BigSubgraphs(h, scc(h));
  }

  /** Where nothing is left to chance a trap stays in the worklist. */
  ghost predicate Trapped(s: Strategy, g: Graph, gs: seq<Graph>) {
    Untied(s, g.nodes) ==> forall t :: IsTrap(s, g, t) ==> SomeHolds(g, gs, t)
  }

  lemma StepTrapped(s: Strategy, g: Graph, gs: seq<Graph>, removed: set<Edge>, cut: set<Edge>, scc: Oracle)
    requires FindsComponents(scc) && gs != [] && Ready(s, g, gs, removed) && Trapped(s, g, gs)
    requires Piece(g.edges, Last(gs)) && Scored(s, Last(gs).nodes) && Pickable(s, Last(gs))
    requires Chosen(s, Last(gs), cut) && cut <= Last(gs).edges && cut != {}
    ensures Trapped(s, g, Rest(gs, cut, scc))
  {
    hide Inv, IsTrap, AtLevel, Chosen, Pickable, Holds, Spares, FindsComponents, Components, BigSubgraphs, Scored, Untied;
    var h := Last(gs);
    if Untied(s, g.nodes) {
      UntiedPiece(s, g, h);
      forall t | IsTrap(s, g, t) ensures SomeHolds(g, Rest(gs, cut, scc), t) {
        if Holds(g, h, t) {
          var some := SparingChoice(s, g, h, t);
          assert Spares(s, h, t, cut);
        }
        TrapStep(s, g, gs, removed, scc, t, cut);
      }
    }
  }

  lemma UntiedPiece(s: Strategy, g: Graph, h: Graph)
    requires Untied(s, g.nodes) && Piece(g.edges, h) && g.Valid()
    ensures Untied(s, h.nodes)
  {
    forall v | v in h.nodes ensures v in g.nodes {
      EdgesAround(h, v);
      SomeEdge(OutEdges(h, v));
      var e :| e in OutEdges(h, v);
      assert e in g.edges;
    }
  }

  /** A trap ends in a piece in which nothing can be picked, at the latest in the last. */
  lemma TrappedNotEmpty(s: Strategy, g: Graph)
    requires Trapped(s, g, []) && Untied(s, g.nodes)
    ensures !Hazard(s, g)
  {
    if Hazard(s, g) {
      var t := HazardTrap(s, g);
    }
  }

  /** The worklist loop: one graph is popped, cut, and replaced by the components of the rest. */
  method CutAll(sccs: seq<Graph>, s: Strategy, scc: Oracle, ghost g: Graph) returns (ok: bool, removed: set<Edge>)
    requires sccs != [] && Ready(s, g, sccs, {}) && Trapped(s, g, sccs) && FindsComponents(scc)
    ensures ok ==> Acyclic(g.edges - removed) && forall e :: e in removed ==> OnCycle(g.edges, e)
    ensures ok ==> forall e :: e in removed ==> Justified(s, g.edges, e)
    ensures !ok ==> Hazard(s, g)
    ensures ok && Untied(s, g.nodes) ==> !Hazard(s, g)
  {
    hide Hazard, Trapped, AtLevel, Untied, Components, BigSubgraphs, Justified, Sensible;
    removed := {};
    var work := sccs;
    while true
      invariant work != [] && Ready(s, g, work, removed) && Trapped(s, g, work)
      invariant forall e :: e in removed ==> Justified(s, g.edges, e)
      decreases Total(work)
    {
      LastPiece(s, g, work, removed);
      var h := work[|work| - 1];
      var found, cut := Choose(s, h, g.edges);
      if !found {
        StuckHazard(s, g, h);
        return false, removed;
      }
      StepReady(s, g, work, removed, cut, scc);
      StepTrapped(s, g, work, removed, cut, scc);
      ChosenSensible(s, h, cut);
      forall e | e in cut ensures Justified(s, g.edges, e) { CutJustified(s, g.edges, h, cut, e); }
      work := work[..|work| - 1];
      // the degree-ratio loop removes everything cut so far, the others only the latest cut
      var gone := if s.DegreeRatio? then removed + cut else cut;
      assert Minus(h, gone) == Minus(h, cut);
      var hs := FilterBigScc(h, gone, scc);
      removed := removed + cut;
      work := work + hs;
      if work == [] {
        break;
      }
    }
    ok := true;
    EmptyWorklistAcyclic(g.edges, removed);
    if Untied(s, g.nodes) { TrappedNotEmpty(s, g); }
  }

  function SelfLoops(g: Graph): set<Edge> { set e | e in g.edges && e.0 == e.1 }

  /** The graph without its self-loops. */
  function Simple(g: Graph): Graph { Minus(g, SelfLoops(g)) }

  lemma StartTrapped(s: Strategy, g: Graph, cs: seq<set<int>>)
    requires g.Valid() && LoopFree(g.edges) && Components(g, cs)
    ensures Trapped(s, g, BigSubgraphs(g, cs))
  {
    hide IsTrap, Components;
    forall t | IsTrap(s, g, t) ensures SomeHolds(g, BigSubgraphs(g, cs), t) {
      StartHolds(s, g, cs, t);
    }
  }

  /** The whole program, for every strategy: self-loops go first, then the worklist breaks what cycles are left. */
  method BreakCycles(g: Graph, s: Strategy, scc: Oracle) returns (ok: bool, result: set<Edge>)
    requires g.Valid() && FindsComponents(scc)
    // without the returned edges there is no cycle, and every one of them lies on a cycle of the input
    ensures ok ==> Acyclic(g.edges - result) && forall e :: e in result ==> OnCycle(g.edges, e)
    // each is a self-loop, or the worst of some cycle by the scores alone
    ensures ok ==> forall e :: e in result ==> e.0 == e.1 || Justified(s, Simple(g).edges, e)
    // it only fails for want of a score, or of anything to pick ...
    ensures !ok ==> Unscored(s, Simple(g)) || Hazard(s, Simple(g))
    // ... and then always, unless a tie between nodes is drawn in its favour
    ensures Unscored(s, Simple(g)) ==> !ok
    ensures Hazard(s, Simple(g)) && Untied(s, g.nodes) ==> !ok
  {
    hide Unscored, Hazard, Untied, Trapped, Justified;
    var selfLoops := SelfLoops(g);
    var h := Simple(g);
    var sccs := FilterBigScc(h, {}, scc);
    assert Minus(h, {}) == h;
    ScoredPieces(s, h, scc(h));
    var removed := {};
    if exists piece :: piece in sccs && !Scored(s, piece.nodes) {
      return false, {};
    }
    StartReady(s, h, scc(h));
    StartTrapped(s, h, scc(h));
    ok := true;
    if sccs == [] {
      EmptyWorklistAcyclic(h.edges, {});
      if Untied(s, h.nodes) { TrappedNotEmpty(s, h); }
    } else {
      ok, removed := CutAll(sccs, s, scc, h);
    }
    result := removed + selfLoops;
    if ok {
      assert g.edges - result == h.edges - removed;
      forall e | e in result ensures OnCycle(g.edges, e) {
        if e in removed {
          ReachesMore(h.edges, g.edges, e.1, e.0);
        } else {
          ReachesSelf(g.edges, e.1);
        }
      }
    }
  }

  /** `remove_cycle_edges_by_mfas`: the ratios are those of the graph itself, so no score is missing. */
  method BreakByDegrees(g: Graph, scc: Oracle) returns (ok: bool, result: set<Edge>, degrees: map<int, (real, bool)>)
    requires g.Valid() && FindsComponents(scc)
    ensures ok ==> Acyclic(g.edges - result) && forall e :: e in result ==> OnCycle(g.edges, e)
    // the ratios of the nodes that lie in big components
    ensures DegreesOf(Simple(g), PieceNodes(Simple(g), scc(Simple(g))), degrees)
    ensures ok ==> forall e :: e in result ==> e.0 == e.1 || Justified(DegreeRatio(degrees), Simple(g).edges, e)
    ensures !ok ==> Hazard(DegreeRatio(degrees), Simple(g))
  {
    hide Hazard, Justified, DegreesOf, Components, BigSubgraphs, Unscored;
    var h := Simple(g);
    var sccs := FilterBigScc(h, {}, scc);
    assert Minus(h, {}) == h;
    var nodes := set piece, v | piece in sccs && v in piece.nodes :: v;
    degrees := NodesDegreeDict(h, nodes);
    DegreeKeys(h, nodes, degrees);
    ScoredPieces(DegreeRatio(degrees), h, scc(h));
    forall piece | piece in sccs ensures Scored(DegreeRatio(degrees), piece.nodes) {
      forall v | v in piece.nodes ensures v in nodes { assert piece in sccs; }
    }
    ok, result := BreakCycles(g, DegreeRatio(degrees), scc);
  }

  function PieceNodes(g: Graph, cs: seq<set<int>>): set<int> {
    set piece, v | piece in BigSubgraphs(g, cs) && v in piece.nodes :: v
  }

  lemma DegreeKeys(g: Graph, nodes: set<int>, degrees: map<int, (real, bool)>)
    requires DegreesOf(g, nodes, degrees)
    ensures degrees.Keys == nodes
  {
  }

  /** Two nodes on a cycle that both score above 10000: the list of lowest scores stays empty, so every run fails. */
  lemma BothTooHigh()
    ensures var g, s := Graph({1, 2}, {(1, 2), (2, 1)}), Ranking(map[1 := 20000.0, 2 := 20001.0], true);
      g.Valid() && Simple(g) == g && !Unscored(s, g) && Untied(s, g.nodes) && Hazard(s, g)
  {
    var g, s := Graph({1, 2}, {(1, 2), (2, 1)}), Ranking(map[1 := 20000.0, 2 := 20001.0], true);
    assert SelfLoops(g) == {} && Simple(g) == g;
    assert Sub(g, g.nodes) == g;
    assert WalkFromTo(g.edges, [1, 2], 1, 2) && WalkFromTo(g.edges, [2, 1], 2, 1);
    ReachesSelf(g.edges, 1);
    ReachesSelf(g.edges, 2);
    assert Level(s, g, g.nodes, g.nodes) && !RanksInReach(s, g.nodes);
    forall p: seq<int> | Cycle(g.edges, p) ensures Scored(s, {p[0]}) {
      assert (p[0], p[1]) in g.edges;
    }
  }

  /** A single high score is no obstacle: one node at or above -10000 and one at or below 10000 in each cycle suffice. */
  lemma OneHighScore()
    ensures var g, s := Graph({1, 2}, {(1, 2), (2, 1)}), Ranking(map[1 := 20000.0, 2 := 0.0], true);
      !Unscored(s, Simple(g)) && !Hazard(s, Simple(g))
  {
    var g, s := Graph({1, 2}, {(1, 2), (2, 1)}), Ranking(map[1 := 20000.0, 2 := 0.0], true);
    assert SelfLoops(g) == {} && Simple(g) == g;
    forall p: seq<int> | Cycle(g.edges, p)
      ensures Scored(s, {p[0]})
      ensures (exists k :: 0 <= k < |p| && Rank(s, p[k]) >= -10000.0) && (exists k :: 0 <= k < |p| && Rank(s, p[k]) <= 10000.0)
    {
      assert (p[0], p[1]) in g.edges;
      var i := if p[0] == 2 then 0 else 1;
      assert Rank(s, p[i]) == 0.0;
    }
    NoHazard(s, g);
  }
}
