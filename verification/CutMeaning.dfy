/** What the chosen edges have to do with the scores, said on the scores alone. */
module CutMeaning {
  import opened CycleGraph
  import opened SccPieces
  import opened CutStrategy

  /** How far an edge drops in score; edges are meant to climb. */
  function Drop(players: map<int, real>, e: Edge): real
    requires e.0 in players && e.1 in players
  {
    players[e.0] - players[e.1]
  }

  /** No more votes; nobody has voted on an edge that is missing. */
  ghost predicate NoMoreVotes(votes: map<Edge, real>, f: Edge, e: Edge) {
    (if f in votes then votes[f] else 0.0) <= if e in votes then votes[e] else 0.0
  }

  /** What is cut out of a piece: the edge that drops furthest, or has most votes; all edges out of a node no other
      outranks, or into one that outranks no other; all edges on one side of a node whose ratio no other exceeds. */
  ghost predicate Sensible(s: Strategy, g: Graph, cut: set<Edge>)
    requires g.Valid() && Scored(s, g.nodes)
  {
    match s
    case Greedy(players) =>
      exists e :: e in g.edges && cut == {e} && Drop(players, e) >= 0.0
        && forall f :: f in g.edges ==> Drop(players, f) <= Drop(players, e)
    case Voting(votes) =>
      exists e :: e in g.edges && cut == {e} && forall f :: f in g.edges ==> NoMoreVotes(votes, f, e)
    case Ranking(players, true) =>
      exists v :: v in g.nodes && (forall w :: w in g.nodes ==> players[w] <= players[v])
        && forall e :: e in cut <==> e in g.edges && e.0 == v
    case Ranking(players, false) =>
      exists v :: v in g.nodes && (forall w :: w in g.nodes ==> players[v] <= players[w])
        && forall e :: e in cut <==> e in g.edges && e.1 == v
    case DegreeRatio(degrees) =>
      exists v :: v in g.nodes && (forall w :: w in g.nodes ==> degrees[w].0 <= degrees[v].0)
        && forall e :: e in cut <==> e in g.edges && v == if degrees[v].1 then e.0 else e.1
  }

  /** Where no edge drops, nobody reached scores less. */
  lemma {:induction false} NoDrop(g: Graph, players: map<int, real>, p: seq<int>)
    requires g.Valid() && g.nodes <= players.Keys && Walk(g.edges, p) && p[0] in g.nodes
    requires forall f :: f in g.edges ==> Drop(players, f) <= 0.0
    ensures p[|p| - 1] in g.nodes && players[p[0]] <= players[p[|p| - 1]]
    decreases |p|
  {
    if |p| > 1 {
      var q := p[..|p| - 1];
      forall k | 0 <= k < |q| - 1 ensures (q[k], q[k + 1]) in g.edges { assert (p[k], p[k + 1]) in g.edges; }
      NoDrop(g, players, q);
      assert (p[|p| - 2], p[|p| - 1]) in g.edges;
      assert Drop(players, (p[|p| - 2], p[|p| - 1])) <= 0.0;
    }
  }

  /** The edge of greatest agony in a strongly connected piece does not climb: if no edge dropped, all scores would be
      equal. */
  lemma HeaviestDrops(g: Graph, players: map<int, real>, e: Edge)
    requires g.Valid() && StronglyConnected(g) && g.nodes <= players.Keys && HeaviestEdge(Agonies(g, players), e)
    ensures e in g.edges && Drop(players, e) >= 0.0
    ensures forall f :: f in g.edges ==> Drop(players, f) <= Drop(players, e)
  {
    var weight := Agonies(g, players);
    assert weight.Keys == g.edges;
    forall f | f in g.edges ensures Drop(players, f) <= weight[e] { assert weight[f] <= weight[e]; }
    if Drop(players, e) < 0.0 {
      assert e.0 in g.nodes && e.1 in g.nodes;
      assert Reaches(g.edges, e.1, e.0);
      var p: seq<int> :| WalkFromTo(g.edges, p, e.1, e.0);
      NoDrop(g, players, p);
      assert false;
    }
  }

  lemma ChosenSensible(s: Strategy, g: Graph, cut: set<Edge>)
    requires g.Valid() && StronglyConnected(g) && Scored(s, g.nodes) && Chosen(s, g, cut)
    ensures Sensible(s, g, cut)
  {
    match s
    case Greedy(players) =>
      var e :| HeaviestEdge(Agonies(g, players), e) && cut == {e};
      HeaviestDrops(g, players, e);
    case Voting(votes) =>
      var e :| HeaviestEdge(VotesOf(g, votes), e) && cut == {e};
      assert VotesOf(g, votes).Keys == g.edges;
      forall f | f in g.edges ensures NoMoreVotes(votes, f, e) { assert f in VotesOf(g, votes); }
    case Ranking(players, forward) =>
      var d := ScoresIn(g, players);
      assert d.Keys == g.nodes;
      if forward {
        var v :| TopNode(d, v) && cut == OutEdges(g, v);
        assert forall w :: w in g.nodes ==> w in d && d[w] <= d[v];
      } else {
        var v :| BottomNode(d, v) && cut == InEdges(g, v);
        assert forall w :: w in g.nodes ==> w in d && d[v] <= d[w];
      }
    case DegreeRatio(degrees) =>
      var d := RatiosIn(g, degrees);
      assert d.Keys == g.nodes;
      var v :| TopNode(d, v) && cut == LighterSide(g, degrees, v);
      assert forall w :: w in g.nodes ==> w in d && d[w] <= d[v];
  }

  // ---------- every edge that goes ----------

  /** Why the edge is removed: it lies on a cycle on which no edge drops further, or has more votes; or on which no node
      ranks above its tail, or below its head, or above the end at which it was taken. */
  ghost predicate Justified(s: Strategy, es: set<Edge>, e: Edge) {
    exists p: seq<int> :: Cycle(es, p) && p[0] == e.0 && p[1] == e.1 && Culprit(s, p, e)
  }

  ghost predicate Culprit(s: Strategy, p: seq<int>, e: Edge) {
    match s
    case Greedy(players) =>
      && (forall k :: 0 <= k < |p| ==> p[k] in players) && e.0 in players && e.1 in players
      && Drop(players, e) >= 0.0
      && forall k, j :: 0 <= k < j < |p| && j == k + 1 ==> Drop(players, (p[k], p[j])) <= Drop(players, e)
    case Voting(votes) =>
      forall k, j :: 0 <= k < j < |p| && j == k + 1 ==> NoMoreVotes(votes, (p[k], p[j]), e)
    case Ranking(players, forward) =>
      && (forall k :: 0 <= k < |p| ==> p[k] in players) && e.0 in players && e.1 in players
      && forall k :: 0 <= k < |p| ==> if forward then players[p[k]] <= players[e.0] else players[e.1] <= players[p[k]]
    case DegreeRatio(degrees) =>
      && (forall k :: 0 <= k < |p| ==> p[k] in degrees) && e.0 in degrees && e.1 in degrees
      && ((degrees[e.0].1 && forall k :: 0 <= k < |p| ==> degrees[p[k]].0 <= degrees[e.0].0)
          || (!degrees[e.1].1 && forall k :: 0 <= k < |p| ==> degrees[p[k]].0 <= degrees[e.1].0))
  }

  lemma CutJustified(s: Strategy, original: set<Edge>, g: Graph, cut: set<Edge>, e: Edge)
    requires Piece(original, g) && Scored(s, g.nodes) && Sensible(s, g, cut) && e in cut
    ensures Justified(s, original, e)
  {
    assert e in g.edges && e.0 in g.nodes && e.1 in g.nodes;
    assert Reaches(g.edges, e.1, e.0);
    ClosingEdge(g.edges, e);
    var p: seq<int> :| Cycle(g.edges, p) && p[0] == e.0 && p[1] == e.1;
    forall k, j | 0 <= k < j < |p| && j == k + 1 ensures (p[k], p[j]) in g.edges {
      assert (p[k], p[k + 1]) in g.edges;
    }
    forall k | 0 <= k < |p| - 1 ensures (p[k], p[k + 1]) in original {
      assert (p[k], p[k + 1]) in g.edges;
    }
    forall k | 0 <= k < |p| ensures p[k] in g.nodes {
      if k < |p| - 1 { assert (p[k], p[k + 1]) in g.edges; } else { assert (p[k - 1], p[k]) in g.edges; }
    }
    hide Sensible, Culprit;
    SensibleCulprit(s, g, cut, e, p);
    assert Cycle(original, p);
  }

  /** The walk stays in the piece. */
  ghost predicate Stays(g: Graph, p: seq<int>) {
    && (forall k, j :: 0 <= k < j < |p| && j == k + 1 ==> (p[k], p[j]) in g.edges)
    && forall k :: 0 <= k < |p| ==> p[k] in g.nodes
  }

  lemma SensibleCulprit(s: Strategy, g: Graph, cut: set<Edge>, e: Edge, p: seq<int>)
    requires g.Valid() && Scored(s, g.nodes) && Sensible(s, g, cut) && e in cut && e.0 in g.nodes && e.1 in g.nodes
    requires Stays(g, p)
    ensures Culprit(s, p, e)
  {
    match s
    case Greedy(players) =>
      assert forall f :: f in g.edges ==> Drop(players, f) <= Drop(players, e);
    case Voting(votes) =>
      assert forall f :: f in g.edges ==> NoMoreVotes(votes, f, e);
    case Ranking(players, forward) => RankingCulprit(players, forward, g, cut, e, p);
    case DegreeRatio(degrees) =>
      var v :| v in g.nodes && (forall w :: w in g.nodes ==> degrees[w].0 <= degrees[v].0)
        && forall f :: f in cut <==> f in g.edges && v == if degrees[v].1 then f.0 else f.1;
  }

  lemma RankingCulprit(players: map<int, real>, forward: bool, g: Graph, cut: set<Edge>, e: Edge, p: seq<int>)
    requires g.Valid() && g.nodes <= players.Keys && e in cut && e.0 in g.nodes && e.1 in g.nodes
    requires Sensible(Ranking(players, forward), g, cut) && Stays(g, p)
    ensures Culprit(Ranking(players, forward), p, e)
  {
    var v := if forward then e.0 else e.1;
    assert forall w :: w in g.nodes ==> w in players && if forward then players[w] <= players[v] else players[v] <= players[w];
    forall k | 0 <= k < |p| ensures p[k] in players && if forward then players[p[k]] <= players[v] else players[v] <= players[p[k]] {
      assert p[k] in g.nodes;
    }
  }

  /** So with node scores no removed edge climbs. */
  lemma NeverClimbs(s: Strategy, es: set<Edge>, e: Edge)
    requires Justified(s, es, e) && (s.Greedy? || s.Ranking?)
    ensures e.0 in s.players && e.1 in s.players && s.players[e.0] >= s.players[e.1]
  {
    var p: seq<int> :| Cycle(es, p) && p[0] == e.0 && p[1] == e.1 && Culprit(s, p, e);
  }

  // ---------- degrees ----------

  /** How many times as many edges there are on one side of a node as on the other, and whether that is the side of the
      edges that lead in. */
  ghost predicate DegreeOf(i: nat, o: nat, entry: (real, bool)) {
    && entry.1 == (i >= o)
    && (i > 0 && o > 0 ==> entry.0 * (if i >= o then o else i) as real == (if i >= o then i else o) as real)
    && (i == 0 || o == 0 ==> entry.0 == 0.0)
  }

  ghost predicate DegreesOf(g: Graph, nodes: set<int>, degrees: map<int, (real, bool)>) {
    degrees.Keys == nodes && forall v :: v in nodes ==> DegreeOf(|InEdges(g, v)|, |OutEdges(g, v)|, degrees[v])
  }

  method NodeDegree(i: nat, o: nat) returns (entry: (real, bool))
    ensures DegreeOf(i, o, entry)
  {
    var value := 0.0;
    if i >= o {
      if o != 0 { value := i as real / o as real; }
    } else {
      if i != 0 { value := o as real / i as real; }
    }
    entry := (value, i >= o);
  }

  /** `get_nodes_degree_dict`. */
  method NodesDegreeDict(g: Graph, nodes: set<int>) returns (degrees: map<int, (real, bool)>)
    ensures DegreesOf(g, nodes, degrees)
  {
    hide DegreeOf;
    degrees := map[];
    var rest := nodes;
    while rest != {}
      invariant rest <= nodes && DegreesOf(g, nodes - rest, degrees)
      decreases rest
    {
      Inhabited(rest);
      var v :| v in rest;
      var entry := NodeDegree(|InEdges(g, v)|, |OutEdges(g, v)|);
      degrees := degrees[v := entry];
      assert nodes - (rest - {v}) == (nodes - rest) + {v};
      rest := rest - {v};
    }
    assert nodes - rest == nodes;
  }

  /** What is cut at a node are the edges on the side that has no more of them in the whole graph, and no node of the
      piece is more lopsided. */
  lemma LighterSideCut(g: Graph, nodes: set<int>, degrees: map<int, (real, bool)>, h: Graph, cut: set<Edge>)
    requires DegreesOf(g, nodes, degrees) && h.Valid() && h.nodes <= nodes && h.edges <= g.edges
    requires Sensible(DegreeRatio(degrees), h, cut)
    ensures exists v ::
      v in h.nodes && (forall w :: w in h.nodes ==> degrees[w].0 <= degrees[v].0)
      && ((cut == OutEdges(h, v) && |OutEdges(g, v)| <= |InEdges(g, v)|)
          || (cut == InEdges(h, v) && |InEdges(g, v)| < |OutEdges(g, v)|))
  {
    var v :| v in h.nodes && (forall w :: w in h.nodes ==> degrees[w].0 <= degrees[v].0)
      && forall e :: e in cut <==> e in h.edges && v == if degrees[v].1 then e.0 else e.1;
    if degrees[v].1 {
      assert cut == OutEdges(h, v);
    } else {
      assert cut == InEdges(h, v);
    }
  }
}
