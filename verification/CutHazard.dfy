/** Which inputs can bring the worklist to a piece in which nothing is found to cut. */
module CutHazard {
  import opened CycleGraph
  import opened SccPieces
  import opened CutStrategy

  predicate ByNode(s: Strategy) { s.Ranking? || s.DegreeRatio? }

  /** The value of a node by which a node-wise strategy takes the greatest: its score, negated if the lowest is wanted. */
  function Rank(s: Strategy, v: int): real {
    match s
    case Ranking(players, forward) =>
      var x := if v in players then players[v] else 0.0;
      if forward then x else -x
    case DegreeRatio(degrees) => if v in degrees then degrees[v].0 else 0.0
    case _ => 0.0
  }

  ghost predicate RanksInReach(s: Strategy, nodes: set<int>) {
    (exists v :: v in nodes && Rank(s, v) >= -10000.0) && (exists v :: v in nodes && Rank(s, v) <= 10000.0)
  }

  lemma PickableRanks(s: Strategy, g: Graph)
    requires g.Valid() && Scored(s, g.nodes) && ByNode(s)
    ensures Pickable(s, g) <==> RanksInReach(s, g.nodes)
  {
    var d := if s.Ranking? then ScoresIn(g, s.players) else RatiosIn(g, s.degrees);
    assert d.Keys == g.nodes;
    forall v | v in g.nodes ensures v in d && (Rank(s, v) == d[v] || Rank(s, v) == -d[v]) {}
    if Pickable(s, g) {
      var k :| k in d && d[k] >= -10000.0;
      var l :| l in d && d[l] <= 10000.0;
      assert k in g.nodes && l in g.nodes;
    }
    if RanksInReach(s, g.nodes) {
      var k :| k in g.nodes && Rank(s, k) >= -10000.0;
      var l :| l in g.nodes && Rank(s, l) <= 10000.0;
      assert k in d && l in d;
    }
  }

  /** `v` ranks highest in the piece. */
  ghost predicate TopRank(s: Strategy, nodes: set<int>, v: int) {
    v in nodes && forall w :: w in nodes ==> Rank(s, w) <= Rank(s, v)
  }

  /** What a node-wise strategy removes with `v`: all edges out of it, or all edges into it. */
  function Side(s: Strategy, g: Graph, v: int): set<Edge> {
    match s
    case Ranking(_, forward) => if forward then OutEdges(g, v) else InEdges(g, v)
    case DegreeRatio(degrees) => LighterSide(g, degrees, v)
    case _ => {}
  }

  lemma ChosenNode(s: Strategy, g: Graph, cut: set<Edge>)
    requires g.Valid() && Scored(s, g.nodes) && ByNode(s)
    ensures Chosen(s, g, cut) <==> exists v :: TopRank(s, g.nodes, v) && cut == Side(s, g, v)
  {
    var d := if s.Ranking? then ScoresIn(g, s.players) else RatiosIn(g, s.degrees);
    assert d.Keys == g.nodes;
    if Chosen(s, g, cut) {
      var v :| (if s.Ranking? && !s.forward then BottomNode(d, v) else TopNode(d, v)) && cut == Side(s, g, v);
      assert TopRank(s, g.nodes, v);
    }
    if v :| TopRank(s, g.nodes, v) && cut == Side(s, g, v) {
      forall w | w in d ensures if s.Ranking? && !s.forward then d[v] <= d[w] else d[w] <= d[v] {
        assert Rank(s, w) <= Rank(s, v);
      }
      assert if s.Ranking? && !s.forward then BottomNode(d, v) else TopNode(d, v);
    }
  }

  lemma {:induction false} TopRankExists(s: Strategy, nodes: set<int>) returns (v: int)
    requires nodes != {}
    ensures TopRank(s, nodes, v)
    decreases nodes
  {
    Inhabited(nodes);
    v :| v in nodes;
    if nodes != {v} {
      var w := TopRankExists(s, nodes - {v});
      if Rank(s, v) <= Rank(s, w) { v := w; }
    }
  }

  // ---------- hazards ----------

  /** `c` is a class of mutual reachability among the nodes `x`. */
  ghost predicate ComponentAmong(g: Graph, x: set<int>, c: set<int>) {
    && c <= x
    && forall u, v :: u in c && v in x ==>
         (v in c <==> Reaches(Sub(g, x).edges, u, v) && Reaches(Sub(g, x).edges, v, u))
  }

  /** With a node all nodes ranking below it are in `x`: the strategy may have removed exactly the others. */
  ghost predicate DownClosed(s: Strategy, nodes: set<int>, x: set<int>) {
    && x <= nodes
    && forall v, w :: v in x && w in nodes && Rank(s, w) < Rank(s, v) ==> w in x
  }

  /** `c` is a component of two or more nodes after the nodes outside `x` have been removed, highest first. */
  ghost predicate Level(s: Strategy, g: Graph, x: set<int>, c: set<int>) {
    DownClosed(s, g.nodes, x) && ComponentAmong(g, x, c) && |c| >= 2
  }

  /** Edges an edge-wise strategy would never take. */
  ghost function Unvoted(g: Graph, votes: map<Edge, real>): set<Edge> {
    set e | e in g.edges && VoteOf(votes, e) < -1.0
  }

  /** The graph without self-loops holds what some run cannot cut: a cycle of edges all voted below the start of the
      search, or a component, left after removing the highest ranking nodes, all on one side of the search bounds. */
  ghost predicate Hazard(s: Strategy, g: Graph) {
    match s
    case Greedy(_) => false
    case Voting(votes) => exists p: seq<int> :: Cycle(Unvoted(g, votes), p)
    case _ => exists x, c :: Level(s, g, x, c) && !RanksInReach(s, c)
  }

  /** A node on a cycle has no score. */
  ghost predicate Unscored(s: Strategy, g: Graph) {
    exists p: seq<int> :: Cycle(g.edges, p) && !Scored(s, {p[0]})
  }

  /** No choice is left to chance. */
  ghost predicate Untied(s: Strategy, nodes: set<int>) {
    ByNode(s) ==> forall v, w :: v in nodes && w in nodes && v != w ==> Rank(s, v) != Rank(s, w)
  }

  // ---------- pieces of the worklist are such components ----------

  /** A piece of the worklist, for a node-wise strategy: a component of the graph among the nodes of some level. */
  ghost predicate AtLevel(s: Strategy, g: Graph, h: Graph) {
    h == Sub(g, h.nodes) && exists x :: Level(s, g, x, h.nodes)
  }

  /** A walk inside `x` that can come back stays in the component of its start. */
  lemma WalkAmong(g: Graph, x: set<int>, c: set<int>, p: seq<int>)
    requires g.Valid() && x <= g.nodes && ComponentAmong(g, x, c)
    requires Walk(Sub(g, x).edges, p) && p[0] in c && Reaches(Sub(g, x).edges, p[|p| - 1], p[0])
    ensures Walk(Sub(g, c).edges, p)
  {
    var es := Sub(g, x).edges;
    forall k | 0 <= k < |p| ensures p[k] in c {
      WalkSlice(es, p, 0, k);
      WalkSlice(es, p, k, |p| - 1);
      ReachesTrans(es, p[k], p[|p| - 1], p[0]);
      if k > 0 { assert (p[k - 1], p[k]) in es; }
    }
    forall k | 0 <= k < |p| - 1 ensures (p[k], p[k + 1]) in Sub(g, c).edges {
      assert (p[k], p[k + 1]) in es;
    }
  }

  lemma WalkEnds(es: set<Edge>, a: int, b: int)
    requires a != b && Reaches(es, a, b)
    ensures (exists e :: e in es && e.0 == a) && (exists e :: e in es && e.1 == b)
  {
    var p: seq<int> :| WalkFromTo(es, p, a, b);
    assert (p[0], p[1]) in es && (p[|p| - 2], p[|p| - 1]) in es;
  }

  /** All nodes of the big pieces have scores exactly if all nodes on cycles have. */
  lemma ScoredPieces(s: Strategy, g: Graph, cs: seq<set<int>>)
    requires g.Valid() && LoopFree(g.edges) && Components(g, cs)
    ensures Unscored(s, g) <==> exists h :: h in BigSubgraphs(g, cs) && !Scored(s, h.nodes)
  {
    if p: seq<int> :| Cycle(g.edges, p) && !Scored(s, {p[0]}) {
      CycleInBigSubgraph(g, cs, p);
      var h :| h in BigSubgraphs(g, cs) && Cycle(h.edges, p);
      PiecesOfComponents(g.edges, g, cs);
      assert (p[0], p[1]) in h.edges;
      assert !Scored(s, h.nodes);
    }
    if h :| h in BigSubgraphs(g, cs) && !Scored(s, h.nodes) {
      PiecesOfComponents(g.edges, g, cs);
      UnscoredPiece(s, g, h);
    }
  }

  lemma NotSubset(a: set<int>, b: set<int>)
    requires !(a <= b)
    ensures exists v :: v in a && v !in b
  {
    if forall v :: v in a ==> v in b { assert false; }
  }

  lemma UnscoredPiece(s: Strategy, g: Graph, h: Graph)
    requires Piece(g.edges, h) && !Scored(s, h.nodes)
    ensures Unscored(s, g)
  {
    var scored := if s.DegreeRatio? then s.degrees.Keys else s.players.Keys;
    NotSubset(h.nodes, scored);
    var v :| v in h.nodes && v !in scored;
    EdgesAround(h, v);
    SomeEdge(OutEdges(h, v));
    var e :| e in OutEdges(h, v);
    ReachesMore(h.edges, g.edges, e.1, e.0);
    ClosingEdge(g.edges, e);
    var p: seq<int> :| Cycle(g.edges, p) && p[0] == e.0 && p[1] == e.1;
    assert !Scored(s, {p[0]});
  }

  /** With all edges on one side of `v` cut, `v` is a component by itself. */
  lemma CutOff(s: Strategy, h: Graph, v: int, cs: seq<set<int>>, c: set<int>)
    requires h.Valid() && v in h.nodes && ByNode(s)
    requires var rest := Minus(h, Side(s, h, v)); Components(rest, cs) && c in cs && |c| >= 2
    ensures v !in c && Sub(Minus(h, Side(s, h, v)), c) == Sub(h, c)
  {
    var es := Minus(h, Side(s, h, v)).edges;
    if v in c {
      assert |c| == |c - {v}| + 1;
      Inhabited(c - {v});
      var w :| w in c - {v};
      WalkEnds(es, v, w);
      WalkEnds(es, w, v);
      assert false;
    }
  }

  lemma LowerLevel(s: Strategy, g: Graph, x: set<int>, h: set<int>, v: int) returns (x': set<int>)
    requires DownClosed(s, g.nodes, x) && h <= x && TopRank(s, h, v)
    ensures DownClosed(s, g.nodes, x') && x' <= x && h - {v} <= x' && v !in x'
  {
    x' := set w | w in x && w != v && Rank(s, w) <= Rank(s, v);
  }

  /** The pieces left of a piece at some level are at some level. */
  lemma StepLevel(s: Strategy, g: Graph, h: Graph, v: int, cs: seq<set<int>>, c: set<int>)
    requires g.Valid() && h.Valid() && ByNode(s) && AtLevel(s, g, h) && TopRank(s, h.nodes, v)
    requires var rest := Minus(h, Side(s, h, v)); Components(rest, cs) && c in cs && |c| >= 2
    ensures AtLevel(s, g, Sub(Minus(h, Side(s, h, v)), c))
  {
    var rest := Minus(h, Side(s, h, v));
    CutOff(s, h, v, cs, c);
    assert c <= h.nodes;
    var piece := Sub(rest, c);
    assert piece == Sub(g, c);
    var x :| Level(s, g, x, h.nodes);
    var x' := LowerLevel(s, g, x, h.nodes, v);
    var es := Sub(g, x').edges;
    var i :| 0 <= i < |cs| && cs[i] == c;
    SubStronglyConnected(rest, cs, i);
    forall u, w | u in c && w in x' ensures w in c <==> Reaches(es, u, w) && Reaches(es, w, u) {
      if w in c {
        assert piece.edges <= es;
        ReachesMore(piece.edges, es, u, w);
        ReachesMore(piece.edges, es, w, u);
      } else if Reaches(es, u, w) && Reaches(es, w, u) {
        BothWaysInRest(g, h, x, x', v, s, u, w);
        assert false;
      }
    }
    assert Level(s, g, x', c);
  }

  lemma BothWaysInRest(g: Graph, h: Graph, x: set<int>, x': set<int>, v: int, s: Strategy, u: int, w: int)
    requires g.Valid() && ByNode(s) && h == Sub(g, h.nodes) && x <= g.nodes && ComponentAmong(g, x, h.nodes)
    requires x' <= x && v !in x' && u in h.nodes && u in x' && w in x'
    requires Reaches(Sub(g, x').edges, u, w) && Reaches(Sub(g, x').edges, w, u)
    ensures w in h.nodes
    ensures Reaches(Minus(h, Side(s, h, v)).edges, u, w) && Reaches(Minus(h, Side(s, h, v)).edges, w, u)
  {
    var es, es' := Sub(g, x).edges, Sub(g, x').edges;
    assert es' <= es;
    ReachesMore(es', es, u, w);
    ReachesMore(es', es, w, u);
    OneWayInRest(g, h, x, x', v, s, u, w);
    OneWayInRest(g, h, x, x', v, s, w, u);
  }

  lemma OneWayInRest(g: Graph, h: Graph, x: set<int>, x': set<int>, v: int, s: Strategy, u: int, w: int)
    requires g.Valid() && ByNode(s) && h == Sub(g, h.nodes) && x <= g.nodes && ComponentAmong(g, x, h.nodes)
    requires x' <= x && v !in x' && u in h.nodes
    requires Reaches(Sub(g, x').edges, u, w) && Reaches(Sub(g, x).edges, w, u)
    ensures Reaches(Minus(h, Side(s, h, v)).edges, u, w)
  {
    var es' := Sub(g, x').edges;
    var p: seq<int> :| WalkFromTo(es', p, u, w);
    forall k | 0 <= k < |p| - 1 ensures (p[k], p[k + 1]) in Sub(g, x).edges {
      assert (p[k], p[k + 1]) in es';
    }
    WalkAmong(g, x, h.nodes, p);
    forall k | 0 <= k < |p| - 1 ensures (p[k], p[k + 1]) in Minus(h, Side(s, h, v)).edges {
      assert (p[k], p[k + 1]) in es' && (p[k], p[k + 1]) in h.edges;
    }
    assert WalkFromTo(Minus(h, Side(s, h, v)).edges, p, u, w);
  }

  /** The components of the whole graph are at the level of all nodes. */
  lemma StartLevel(s: Strategy, g: Graph, cs: seq<set<int>>)
    requires g.Valid() && Components(g, cs)
    ensures forall h :: h in BigSubgraphs(g, cs) ==> AtLevel(s, g, h)
  {
    assert Sub(g, g.nodes).edges == g.edges;
    forall h | h in BigSubgraphs(g, cs) ensures AtLevel(s, g, h) {
      BigSubgraphsElements(g, cs, h);
      assert Level(s, g, g.nodes, h.nodes);
    }
  }

  /** Cutting one piece keeps all pieces at some level. */
  lemma StepLevels(s: Strategy, g: Graph, h: Graph, cut: set<Edge>, cs: seq<set<int>>)
    requires g.Valid() && h.Valid() && Scored(s, h.nodes) && ByNode(s) && AtLevel(s, g, h) && Chosen(s, h, cut)
    requires Components(Minus(h, cut), cs)
    ensures forall h' :: h' in BigSubgraphs(Minus(h, cut), cs) ==> AtLevel(s, g, h')
  {
    ChosenNode(s, h, cut);
    var v :| TopRank(s, h.nodes, v) && cut == Side(s, h, v);
    forall h' | h' in BigSubgraphs(Minus(h, cut), cs) ensures AtLevel(s, g, h') {
      BigSubgraphsElements(Minus(h, cut), cs, h');
      var i :| 0 <= i < |cs| && |cs[i]| >= 2 && h' == Sub(Minus(h, cut), cs[i]);
      StepLevel(s, g, h, v, cs, cs[i]);
    }
  }

  /** A piece in which nothing can be picked shows a hazard of the graph. */
  lemma StuckHazard(s: Strategy, g: Graph, h: Graph)
    requires g.Valid() && Piece(g.edges, h) && Scored(s, h.nodes) && !Pickable(s, h)
    requires ByNode(s) ==> AtLevel(s, g, h)
    ensures Hazard(s, g)
  {
    if ByNode(s) {
      PickableRanks(s, h);
      var x :| Level(s, g, x, h.nodes);
      assert Level(s, g, x, h.nodes) && !RanksInReach(s, h.nodes);
    } else {
      SomeNodeAndEdge(h);
      SomeEdge(h.edges);
      var e :| e in h.edges;
      assert e.0 in h.nodes && e.1 in h.nodes;
      forall f | f in h.edges ensures f in Unvoted(g, s.votes) {}
      ReachesMore(h.edges, Unvoted(g, s.votes), e.1, e.0);
      ClosingEdge(Unvoted(g, s.votes), e);
    }
  }

  // ---------- what a hazard does to a run ----------

  /** The witness of a hazard: the cycle of unvoted edges, or the level and its component. */
  datatype Trap = EdgeTrap(p: seq<int>) | NodeTrap(x: set<int>, c: set<int>)

  ghost predicate IsTrap(s: Strategy, g: Graph, t: Trap) {
    match s
    case Greedy(_) => false
    case Voting(votes) => t.EdgeTrap? && Cycle(Unvoted(g, votes), t.p)
    case _ => t.NodeTrap? && Level(s, g, t.x, t.c) && !RanksInReach(s, t.c)
  }

  lemma HazardTrap(s: Strategy, g: Graph) returns (t: Trap)
    requires Hazard(s, g)
    ensures IsTrap(s, g, t)
  {
    if s.Voting? {
      var p: seq<int> :| Cycle(Unvoted(g, s.votes), p);
      t := EdgeTrap(p);
    } else {
      var x, c :| Level(s, g, x, c) && !RanksInReach(s, c);
      t := NodeTrap(x, c);
    }
  }

  /** The piece contains the trap. */
  ghost predicate Holds(g: Graph, h: Graph, t: Trap) {
    match t
    case EdgeTrap(p) => Cycle(h.edges, p)
    case NodeTrap(_, c) => c <= h.nodes && h == Sub(g, h.nodes)
  }

  ghost predicate SomeHolds(g: Graph, gs: seq<Graph>, t: Trap) {
    exists h :: h in gs && Holds(g, h, t)
  }

  lemma StartHolds(s: Strategy, g: Graph, cs: seq<set<int>>, t: Trap)
    requires g.Valid() && LoopFree(g.edges) && Components(g, cs) && IsTrap(s, g, t)
    ensures SomeHolds(g, BigSubgraphs(g, cs), t)
  {
    match t
    case EdgeTrap(p) =>
      forall k | 0 <= k < |p| - 1 ensures (p[k], p[k + 1]) in g.edges {
        assert (p[k], p[k + 1]) in Unvoted(g, s.votes);
      }
      assert Cycle(g.edges, p);
      CycleInBigSubgraph(g, cs, p);
    case NodeTrap(x, c) =>
      TrapConnected(g, x, c);
      ConnectedInPiece(g, cs, c);
  }

  /** A component among some nodes is strongly connected. */
  lemma TrapConnected(g: Graph, x: set<int>, c: set<int>)
    requires g.Valid() && x <= g.nodes && ComponentAmong(g, x, c)
    ensures StronglyConnected(Sub(g, c))
  {
    var es := Sub(g, x).edges;
    forall u, v | u in c && v in c ensures Reaches(Sub(g, c).edges, u, v) {
      assert Reaches(es, u, v) && Reaches(es, v, u);
      var p: seq<int> :| WalkFromTo(es, p, u, v);
      WalkAmong(g, x, c, p);
      assert WalkFromTo(Sub(g, c).edges, p, u, v);
    }
  }

  /** A strongly connected set of two or more nodes lies in one big piece. */
  lemma ConnectedInPiece(g: Graph, cs: seq<set<int>>, c: set<int>)
    requires g.Valid() && Components(g, cs) && c <= g.nodes && |c| >= 2 && StronglyConnected(Sub(g, c))
    ensures exists i :: 0 <= i < |cs| && |cs[i]| >= 2 && c <= cs[i]
    ensures exists h :: h in BigSubgraphs(g, cs) && c <= h.nodes && h == Sub(g, h.nodes)
  {
    Inhabited(c);
    var v :| v in c;
    var i :| 0 <= i < |cs| && v in cs[i];
    forall w | w in c ensures w in cs[i] {
      ReachesMore(Sub(g, c).edges, g.edges, v, w);
      ReachesMore(Sub(g, c).edges, g.edges, w, v);
    }
    assert |cs[i]| == |c| + |cs[i] - c| by { assert cs[i] == c + (cs[i] - c); }
    BigSubgraphsElements(g, cs, Sub(g, cs[i]));
  }

  /** A pickable piece that contains the trap offers a choice after which the trap is still there. */
  lemma SparingChoice(s: Strategy, g: Graph, h: Graph, t: Trap) returns (cut: set<Edge>)
    requires g.Valid() && Piece(g.edges, h) && Scored(s, h.nodes) && Pickable(s, h) && IsTrap(s, g, t) && Holds(g, h, t)
    ensures Chosen(s, h, cut) && cut <= h.edges && cut != {} && Spares(s, h, t, cut)
    ensures Untied(s, h.nodes) ==> forall other :: Chosen(s, h, other) ==> Spares(s, h, t, other)
  {
    if s.Voting? {
      cut := SomeChoice(s, h);
      forall other | Chosen(s, h, other) ensures Spares(s, h, t, other) {
        var e :| HeaviestEdge(VotesOf(h, s.votes), e) && other == {e};
        var f :| f in h.edges && VoteOf(s.votes, f) >= -1.0;
        assert f in VotesOf(h, s.votes);
        forall k | 0 <= k < |t.p| - 1 ensures (t.p[k], t.p[k + 1]) != e {
          assert (t.p[k], t.p[k + 1]) in Unvoted(g, s.votes);
        }
      }
    } else {
      var v := SparedTop(s, g, h, t);
      cut := Side(s, h, v);
      EdgesAround(h, v);
      ChosenNode(s, h, cut);
      if Untied(s, h.nodes) {
        forall other | Chosen(s, h, other) ensures Spares(s, h, t, other) {
          ChosenNode(s, h, other);
          var w :| TopRank(s, h.nodes, w) && other == Side(s, h, w);
          assert w == v;
        }
      }
    }
  }

  /** The cut takes nothing of the trap away. */
  ghost predicate Spares(s: Strategy, h: Graph, t: Trap, cut: set<Edge>) {
    match t
    case EdgeTrap(p) => forall k :: 0 <= k < |p| - 1 ==> (p[k], p[k + 1]) !in cut
    case NodeTrap(_, c) => exists v :: v !in c && cut == Side(s, h, v)
  }

  /** One of the highest ranking nodes is not part of the trap. */
  lemma SparedTop(s: Strategy, g: Graph, h: Graph, t: Trap) returns (v: int)
    requires g.Valid() && Piece(g.edges, h) && Scored(s, h.nodes) && ByNode(s) && Pickable(s, h)
    requires IsTrap(s, g, t) && Holds(g, h, t)
    ensures TopRank(s, h.nodes, v) && v !in t.c
  {
    PickableRanks(s, h);
    v := TopRankExists(s, h.nodes);
    if forall y :: y in h.nodes ==> y in t.x {
      InsideIsComponent(g, h, t.x, t.c);
      assert false;
    } else {
      var y :| y in h.nodes && y !in t.x;
      assert y in g.nodes by {
        EdgesAround(h, y);
        SomeEdge(OutEdges(h, y));
        var e :| e in OutEdges(h, y);
        assert e in g.edges;
      }
      if v in t.x {
        assert Rank(s, y) >= Rank(s, v);
        v := y;
      }
    }
  }

  lemma InsideIsComponent(g: Graph, h: Graph, x: set<int>, c: set<int>)
    requires g.Valid() && StronglyConnected(h) && h == Sub(g, h.nodes) && h.nodes <= x && x <= g.nodes
    requires ComponentAmong(g, x, c) && c <= h.nodes && |c| >= 2
    ensures h.nodes == c
  {
    Inhabited(c);
    var u :| u in c;
    forall w | w in h.nodes ensures w in c {
      assert Reaches(h.edges, u, w) && Reaches(h.edges, w, u);
      assert h.edges <= Sub(g, x).edges;
      ReachesMore(h.edges, Sub(g, x).edges, u, w);
      ReachesMore(h.edges, Sub(g, x).edges, w, u);
    }
  }

  /** Some choice is possible in a pickable piece. */
  lemma SomeChoice(s: Strategy, h: Graph) returns (cut: set<Edge>)
    requires h.Valid() && StronglyConnected(h) && |h.nodes| >= 2 && Scored(s, h.nodes)
    ensures Chosen(s, h, cut) && cut <= h.edges && cut != {}
  {
    SomeNodeAndEdge(h);
    if ByNode(s) {
      var v := TopRankExists(s, h.nodes);
      cut := Side(s, h, v);
      EdgesAround(h, v);
      ChosenNode(s, h, cut);
    } else {
      var weight := if s.Greedy? then Agonies(h, s.players) else VotesOf(h, s.votes);
      var e := Heaviest(weight, h.edges);
      cut := {e};
    }
  }

  lemma {:induction false} Heaviest(weight: map<Edge, real>, es: set<Edge>) returns (e: Edge)
    requires es != {} && es <= weight.Keys
    ensures e in es && forall f :: f in es ==> weight[f] <= weight[e]
    decreases es
  {
    SomeEdge(es);
    e :| e in es;
    if es != {e} {
      var f := Heaviest(weight, es - {e});
      if weight[e] <= weight[f] { e := f; }
    }
  }

  /** After a sparing cut one of the components still contains the trap. */
  lemma SparedHolds(s: Strategy, g: Graph, h: Graph, t: Trap, cut: set<Edge>, cs: seq<set<int>>)
    requires g.Valid() && LoopFree(g.edges) && Piece(g.edges, h) && IsTrap(s, g, t) && Holds(g, h, t)
    requires Spares(s, h, t, cut) && Components(Minus(h, cut), cs)
    requires ByNode(s) ==> forall h' :: h' in BigSubgraphs(Minus(h, cut), cs) ==> AtLevel(s, g, h')
    ensures SomeHolds(g, BigSubgraphs(Minus(h, cut), cs), t)
  {
    var rest := Minus(h, cut);
    match t
    case EdgeTrap(p) =>
      forall k | 0 <= k < |p| - 1 ensures (p[k], p[k + 1]) in rest.edges {
        assert (p[k], p[k + 1]) in h.edges;
      }
      assert Cycle(rest.edges, p);
      CycleInBigSubgraph(rest, cs, p);
    case NodeTrap(x, c) =>
      TrapConnected(g, x, c);
      assert Sub(rest, c) == Sub(g, c);
      ConnectedInPiece(rest, cs, c);
  }

  // ---------- runs of the worklist ----------

  /** The worklist as the loop finds it in every round. */
  ghost predicate Ready(s: Strategy, g: Graph, gs: seq<Graph>, removed: set<Edge>) {
    && g.Valid() && Inv(g.edges, gs, removed)
    && (forall h :: h in gs ==> Scored(s, h.nodes))
    && (ByNode(s) ==> forall h :: h in gs ==> AtLevel(s, g, h))
  }

  /** One round keeps it so, and shrinks the worklist. */
  lemma StepReady(s: Strategy, g: Graph, gs: seq<Graph>, removed: set<Edge>, cut: set<Edge>, scc: Oracle)
    requires FindsComponents(scc) && gs != [] && Ready(s, g, gs, removed)
    requires Piece(g.edges, Last(gs)) && Scored(s, Last(gs).nodes)
    requires Chosen(s, Last(gs), cut) && cut <= Last(gs).edges && cut != {}
    ensures Ready(s, g, Rest(gs, cut, scc), removed + cut)
    ensures Total(Rest(gs, cut, scc)) < Total(gs)
  {
    hide AtLevel, Chosen, Components, BigSubgraphs;
    var h, before := Last(gs), gs[..|gs| - 1];
    assert gs == before + [h] && h in gs;
    var cs := scc(Minus(h, cut));
    StepInv(g.edges, before, h, removed, cut, cs);
    NodesShrink(Minus(h, cut), cs);
    ScoredSubset(s, h.nodes, BigSubgraphs(Minus(h, cut), cs));
    if ByNode(s) { StepLevels(s, g, h, cut, cs); }
  }

  /** Within `n` rounds some run of the worklist comes to a piece in which nothing can be picked. */
  ghost predicate CanFail(s: Strategy, gs: seq<Graph>, scc: Oracle, n: nat)
    decreases n
  {
    && gs != [] && Last(gs).Valid() && Scored(s, Last(gs).nodes)
    && (!Pickable(s, Last(gs))
        || (n > 0 && exists cut :: Chosen(s, Last(gs), cut) && CanFail(s, Rest(gs, cut, scc), scc, n - 1)))
  }

  function Last(gs: seq<Graph>): Graph
    requires gs != []
  {
    gs[|gs| - 1]
  }

  /** The worklist after `cut` has been taken out of its last graph. */
  function Rest(gs: seq<Graph>, cut: set<Edge>, scc: Oracle): seq<Graph>
    requires gs != []
  {
    var h := Minus(Last(gs), cut);
    gs[..|gs| - 1] + BigSubgraphs(h, scc(h))
  }

  /** From a worklist that contains the trap some run fails. */
  lemma {:induction false} TrapCanFail(s: Strategy, g: Graph, gs: seq<Graph>, removed: set<Edge>, scc: Oracle, t: Trap) returns (n: nat)
    requires FindsComponents(scc) && Ready(s, g, gs, removed) && IsTrap(s, g, t) && SomeHolds(g, gs, t)
    ensures CanFail(s, gs, scc, n)
    decreases Total(gs)
  {
    hide Inv, IsTrap, AtLevel, Chosen, Pickable, Holds, Spares, FindsComponents, Components, BigSubgraphs, Scored;
    n := 0;
    LastPiece(s, g, gs, removed);
    if Pickable(s, Last(gs)) {
      var cut := TrapChoice(s, g, Last(gs), t);
      StepReady(s, g, gs, removed, cut, scc);
      TrapStep(s, g, gs, removed, scc, t, cut);
      n := TrapCanFail(s, g, Rest(gs, cut, scc), removed + cut, scc, t);
      n := n + 1;
    }
  }

  lemma LastPiece(s: Strategy, g: Graph, gs: seq<Graph>, removed: set<Edge>)
    requires Ready(s, g, gs, removed) && gs != []
    ensures Piece(g.edges, Last(gs)) && Scored(s, Last(gs).nodes)
    ensures ByNode(s) ==> AtLevel(s, g, Last(gs))
  {
    assert Last(gs) in gs;
  }

  /** The round in which `cut` is taken keeps the trap in the worklist, if the cut spares it. */
  lemma TrapStep(s: Strategy, g: Graph, gs: seq<Graph>, removed: set<Edge>, scc: Oracle, t: Trap, cut: set<Edge>)
    requires FindsComponents(scc) && Ready(s, g, gs, removed) && IsTrap(s, g, t) && SomeHolds(g, gs, t)
    requires gs != [] && Piece(g.edges, Last(gs)) && Scored(s, Last(gs).nodes)
    requires Chosen(s, Last(gs), cut) && cut <= Last(gs).edges && cut != {}
    requires Holds(g, Last(gs), t) ==> Spares(s, Last(gs), t, cut)
    ensures SomeHolds(g, Rest(gs, cut, scc), t)
  {
    hide IsTrap, AtLevel, Chosen, Holds, Spares, Components, BigSubgraphs;
    var h := Last(gs);
    var cs := scc(Minus(h, cut));
    LastPiece(s, g, gs, removed);
    if ByNode(s) { StepLevels(s, g, h, cut, cs); }
    var holder :| holder in gs && Holds(g, holder, t);
    if Holds(g, h, t) {
      SparedHolds(s, g, h, t, cut, cs);
      holder :| holder in BigSubgraphs(Minus(h, cut), cs) && Holds(g, holder, t);
    }
    assert holder in Rest(gs, cut, scc);
  }

  lemma TrapChoice(s: Strategy, g: Graph, h: Graph, t: Trap) returns (cut: set<Edge>)
    requires g.Valid() && Piece(g.edges, h) && Scored(s, h.nodes) && Pickable(s, h) && IsTrap(s, g, t)
    ensures Chosen(s, h, cut) && cut <= h.edges && cut != {}
    ensures Holds(g, h, t) ==> Spares(s, h, t, cut)
  {
    if Holds(g, h, t) {
      cut := SparingChoice(s, g, h, t);
    } else {
      cut := SomeChoice(s, h);
    }
  }

  lemma ScoredSubset(s: Strategy, nodes: set<int>, hs: seq<Graph>)
    requires Scored(s, nodes) && forall h :: h in hs ==> h.nodes <= nodes
    ensures forall h :: h in hs ==> Scored(s, h.nodes)
  {
  }

  /** What may be chosen is a non-empty part of the piece. */
  lemma ChosenCut(s: Strategy, h: Graph, cut: set<Edge>)
    requires h.Valid() && StronglyConnected(h) && |h.nodes| >= 2 && Scored(s, h.nodes) && Chosen(s, h, cut)
    ensures cut <= h.edges && cut != {}
  {
    if ByNode(s) {
      ChosenNode(s, h, cut);
      var v :| TopRank(s, h.nodes, v) && cut == Side(s, h, v);
      EdgesAround(h, v);
    }
  }

  /** A run that fails shows a hazard. */
  lemma {:induction false} FailHazard(s: Strategy, g: Graph, gs: seq<Graph>, removed: set<Edge>, scc: Oracle, n: nat)
    requires FindsComponents(scc) && Ready(s, g, gs, removed) && CanFail(s, gs, scc, n)
    ensures Hazard(s, g)
    decreases n
  {
    hide Inv, AtLevel, Chosen, Pickable, FindsComponents, Components, BigSubgraphs, Scored, Hazard;
    LastPiece(s, g, gs, removed);
    if Pickable(s, Last(gs)) {
      var cut :| Chosen(s, Last(gs), cut) && CanFail(s, Rest(gs, cut, scc), scc, n - 1);
      ChosenCut(s, Last(gs), cut);
      StepReady(s, g, gs, removed, cut, scc);
      FailHazard(s, g, Rest(gs, cut, scc), removed + cut, scc, n - 1);
    } else {
      StuckHazard(s, g, Last(gs));
    }
  }

  lemma StartReady(s: Strategy, g: Graph, cs: seq<set<int>>)
    requires g.Valid() && LoopFree(g.edges) && Components(g, cs) && !Unscored(s, g)
    ensures Ready(s, g, BigSubgraphs(g, cs), {})
  {
    hide Unscored, AtLevel, Components;
    StartInv(g, cs);
    ScoredPieces(s, g, cs);
    StartLevel(s, g, cs);
  }

  /** Exactly on inputs with a hazard some run of the worklist fails. */
  lemma CanFailExactly(s: Strategy, g: Graph, scc: Oracle)
    requires g.Valid() && LoopFree(g.edges) && FindsComponents(scc) && !Unscored(s, g)
    ensures Hazard(s, g) <==> exists n: nat :: CanFail(s, BigSubgraphs(g, scc(g)), scc, n)
  {
    hide Unscored, Ready, BigSubgraphs, CanFail;
    var gs := BigSubgraphs(g, scc(g));
    StartReady(s, g, scc(g));
    if Hazard(s, g) {
      var t := HazardTrap(s, g);
      StartHolds(s, g, scc(g), t);
      var n := TrapCanFail(s, g, gs, {}, scc, t);
    }
    if n: nat :| CanFail(s, gs, scc, n) {
      FailHazard(s, g, gs, {}, scc, n);
    }
  }

  // ---------- what a caller can look for ----------

  /** If every cycle has a node that ranks high enough and a node that ranks low enough, there is no hazard. */
  lemma NoHazard(s: Strategy, g: Graph)
    requires g.Valid() && ByNode(s)
    requires forall p: seq<int> :: Cycle(g.edges, p) ==>
      (exists k :: 0 <= k < |p| && Rank(s, p[k]) >= -10000.0) && (exists k :: 0 <= k < |p| && Rank(s, p[k]) <= 10000.0)
    ensures !Hazard(s, g)
  {
    forall x, c | Level(s, g, x, c) ensures RanksInReach(s, c) {
      var p := CycleInside(g, x, c);
      var i :| 0 <= i < |p| && Rank(s, p[i]) >= -10000.0;
      var j :| 0 <= j < |p| && Rank(s, p[j]) <= 10000.0;
      assert p[i] in c && p[j] in c;
    }
  }

  lemma CycleInside(g: Graph, x: set<int>, c: set<int>) returns (p: seq<int>)
    requires g.Valid() && x <= g.nodes && ComponentAmong(g, x, c) && |c| >= 2
    ensures Cycle(g.edges, p) && forall k :: 0 <= k < |p| ==> p[k] in c
  {
    TrapConnected(g, x, c);
    var h := Sub(g, c);
    SomeNodeAndEdge(h);
    SomeEdge(h.edges);
    var e :| e in h.edges;
    assert Reaches(h.edges, e.1, e.0);
    ClosingEdge(h.edges, e);
    p :| Cycle(h.edges, p) && p[0] == e.0 && p[1] == e.1;
    forall k | 0 <= k < |p| - 1 ensures (p[k], p[k + 1]) in g.edges {
      assert (p[k], p[k + 1]) in h.edges;
    }
    forall k | 0 <= k < |p| ensures p[k] in c {
      if k < |p| - 1 { assert (p[k], p[k + 1]) in h.edges; } else { assert (p[k - 1], p[k]) in h.edges; }
    }
  }

  /** A cycle whose nodes all rank below the start of the maximum search is a hazard, whatever else there is. */
  lemma LowCycleHazard(s: Strategy, g: Graph, p: seq<int>)
    requires g.Valid() && LoopFree(g.edges) && ByNode(s) && Cycle(g.edges, p)
    requires forall k :: 0 <= k < |p| ==> Rank(s, p[k]) < -10000.0
    ensures Hazard(s, g)
  {
    var x := set v | v in g.nodes && Rank(s, v) < -10000.0;
    var es := Sub(g, x).edges;
    forall k | 0 <= k < |p| - 1 ensures (p[k], p[k + 1]) in es {
      assert (p[k], p[k + 1]) in g.edges;
    }
    assert (p[0], p[1]) in es;
    var c := ComponentOf(g, x, p[0]);
    assert Walk(es, p);
    WalkSlice(es, p, 0, 1);
    WalkSlice(es, p, 1, |p| - 1);
    assert (p[0], p[1]) in g.edges;
    TwoNodes(c, p[0], p[1]);
    assert Level(s, g, x, c) && !RanksInReach(s, c);
  }

  lemma ComponentOf(g: Graph, x: set<int>, v: int) returns (c: set<int>)
    requires g.Valid() && x <= g.nodes && v in x
    ensures ComponentAmong(g, x, c)
    ensures forall w :: w in c <==> w in x && Reaches(Sub(g, x).edges, v, w) && Reaches(Sub(g, x).edges, w, v)
    ensures v in c
  {
    var es := Sub(g, x).edges;
    c := set w | w in x && Reaches(es, v, w) && Reaches(es, w, v);
    ReachesSelf(es, v);
    forall u, w | u in c && w in x ensures w in c <==> Reaches(es, u, w) && Reaches(es, w, u) {
      if w in c {
        ReachesTrans(es, u, v, w);
        ReachesTrans(es, w, v, u);
      } else if Reaches(es, u, w) && Reaches(es, w, u) {
        ReachesTrans(es, v, u, w);
        ReachesTrans(es, w, u, v);
      }
    }
  }
}
