/** The ways of choosing the edges to cut out of a piece, and when they find any. */
module CutStrategy {
  import opened CycleGraph
  import opened SccPieces

  /** The four ways of choosing edges: highest agony of the node scores, highest vote, all edges out of the highest
      (or into the lowest) scored node, all edges on the lighter side of the most lopsided node. */
  datatype Strategy =
    | Greedy(players: map<int, real>)
    | Voting(votes: map<Edge, real>)
    | Ranking(players: map<int, real>, forward: bool)
    | DegreeRatio(degrees: map<int, (real, bool)>)   // value, and whether in-degree is the larger

  /** The bounds with which `pick_from_dict` starts, and the start of the running maximum over edges. */
  const LOWEST := -10000.0
  const HIGHEST := 10000.0
  const LEAST_VOTE := -1.0

  /** The nodes have scores; without one the programs stop at the look-up, before anything is cut. */
  predicate Scored(s: Strategy, nodes: set<int>) {
    match s
    case Greedy(players) => nodes <= players.Keys
    case Voting(_) => true
    case Ranking(players, _) => nodes <= players.Keys
    case DegreeRatio(degrees) => nodes <= degrees.Keys
  }

  function Max(a: real, b: real): real { if a >= b then a else b }

  /** `get_agonies`. */
  function Agonies(g: Graph, players: map<int, real>): map<Edge, real>
    requires forall e :: e in g.edges ==> e.0 in players && e.1 in players
  {
    map e | e in g.edges :: Max(players[e.0] - players[e.1], 0.0)
  }

  function VoteOf(votes: map<Edge, real>, e: Edge): real { if e in votes then votes[e] else 0.0 }

  /** Votes of the edges of `g`; an edge nobody voted on counts 0. */
  function VotesOf(g: Graph, votes: map<Edge, real>): map<Edge, real> {
    map e | e in g.edges :: VoteOf(votes, e)
  }

  ghost predicate HeaviestEdge(weight: map<Edge, real>, e: Edge) {
    e in weight && forall f :: f in weight ==> weight[f] <= weight[e]
  }

  ghost predicate TopNode(score: map<int, real>, v: int) {
    v in score && forall w :: w in score ==> score[w] <= score[v]
  }

  ghost predicate BottomNode(score: map<int, real>, v: int) {
    v in score && forall w :: w in score ==> score[v] <= score[w]
  }

  function ScoresIn(g: Graph, players: map<int, real>): map<int, real>
    requires forall v :: v in g.nodes ==> v in players
  {
    map v | v in g.nodes :: players[v]
  }

  function RatiosIn(g: Graph, degrees: map<int, (real, bool)>): map<int, real>
    requires forall v :: v in g.nodes ==> v in degrees
  {
    map v | v in g.nodes :: degrees[v].0
  }

  /** The edges out of `v` if more lead in, else the edges into it. */
  function LighterSide(g: Graph, degrees: map<int, (real, bool)>, v: int): set<Edge> {
    if v in degrees && degrees[v].1 then OutEdges(g, v) else InEdges(g, v)
  }

  /** `cut` is a choice the strategy may make in `g`. */
  ghost predicate Chosen(s: Strategy, g: Graph, cut: set<Edge>)
    requires g.Valid() && Scored(s, g.nodes)
  {
    match s
    case Greedy(players) => exists e :: HeaviestEdge(Agonies(g, players), e) && cut == {e}
    case Voting(votes) => exists e :: HeaviestEdge(VotesOf(g, votes), e) && cut == {e}
    case Ranking(players, true) => exists v :: TopNode(ScoresIn(g, players), v) && cut == OutEdges(g, v)
    case Ranking(players, false) => exists v :: BottomNode(ScoresIn(g, players), v) && cut == InEdges(g, v)
    case DegreeRatio(degrees) => exists v :: TopNode(RatiosIn(g, degrees), v) && cut == LighterSide(g, degrees, v)
  }

  /** Some value is not below the start of the maximum search, and some value not above that of the minimum search. */
  ghost predicate InReach(d: map<int, real>) {
    (exists k :: k in d && d[k] >= -10000.0) && (exists k :: k in d && d[k] <= 10000.0)
  }

  /** The strategy finds something to cut in the piece. */
  ghost predicate Pickable(s: Strategy, g: Graph)
    requires g.Valid() && Scored(s, g.nodes)
  {
    match s
    case Greedy(_) => true
    case Voting(votes) => exists e :: e in g.edges && VoteOf(votes, e) >= -1.0
    case Ranking(players, _) => InReach(ScoresIn(g, players))
    case DegreeRatio(degrees) => InReach(RatiosIn(g, degrees))
  }

  lemma SomeEdge(s: set<Edge>)
    requires s != {}
    ensures exists e :: e in s
  {
    if forall e :: e !in s { assert false; }
  }

  /** The running maximum over the edges, taken in any order; later ties win. Nothing is found among edges that all
      weigh less than the start of the search. */
  method PickEdge(weight: map<Edge, real>) returns (found: bool, best: Edge)
    ensures found <==> exists e :: e in weight && weight[e] >= -1.0
    ensures found ==> HeaviestEdge(weight, best)
  {
    var rest, highest := weight.Keys, LEAST_VOTE;
    found, best := false, (0, 0);
    while rest != {}
      invariant rest <= weight.Keys && highest >= LEAST_VOTE
      invariant found ==> best in weight && weight[best] == highest
      invariant !found ==> forall e :: e in weight.Keys - rest ==> weight[e] < LEAST_VOTE
      invariant forall e :: e in weight.Keys - rest ==> weight[e] <= highest
      invariant !found ==> highest == LEAST_VOTE
      decreases rest
    {
      SomeEdge(rest);
      var e :| e in rest;
      rest := rest - {e};
      if weight[e] >= highest {
        found, best, highest := true, e, weight[e];
      }
    }
    if found { assert weight[best] >= LEAST_VOTE; }
  }

  /** `pick_from_dict`: all keys of highest and of lowest value, and one of each at random. The lists of these keys are
      empty when every value lies below, or every value above, the bound where the search for it starts. */
  method PickFromDict(d: map<int, real>) returns (found: bool, top: int, bottom: int)
    ensures found <==> InReach(d)
    ensures found ==> TopNode(d, top) && BottomNode(d, bottom)
  {
    var rest, maxV, minV := d.Keys, LOWEST, HIGHEST;
    var maxItems: set<int>, minItems: set<int> := {}, {};
    while rest != {}
      invariant rest <= d.Keys
      invariant forall k :: k in maxItems ==> k in d && d[k] == maxV
      invariant forall k :: k in minItems ==> k in d && d[k] == minV
      invariant forall k :: k in d.Keys - rest ==> d[k] <= maxV && minV <= d[k]
      invariant maxV >= LOWEST && minV <= HIGHEST
      invariant maxItems == {} ==> maxV == LOWEST && forall k :: k in d.Keys - rest ==> d[k] < LOWEST
      invariant minItems == {} ==> minV == HIGHEST && forall k :: k in d.Keys - rest ==> d[k] > HIGHEST
      decreases rest
    {
      Inhabited(rest);
      var k :| k in rest;
      rest := rest - {k};
      var v := d[k];
      if v > maxV {
        maxV, maxItems := v, {k};
      } else if v == maxV {
        maxItems := maxItems + {k};
      }
      if v < minV {
        minV, minItems := v, {k};
      } else if v == minV {
        minItems := minItems + {k};
      }
    }
    found, top, bottom := maxItems != {} && minItems != {}, 0, 0;
    if found {
      Inhabited(maxItems);
      Inhabited(minItems);
      top :| top in maxItems;
      bottom :| bottom in minItems;
    }
  }

  /** Chooses what to cut out of a piece. */
  method Choose(s: Strategy, g: Graph, ghost original: set<Edge>) returns (ok: bool, cut: set<Edge>)
    requires Piece(original, g) && Scored(s, g.nodes)
    ensures ok <==> Pickable(s, g)
    ensures ok ==> cut <= g.edges && cut != {} && Chosen(s, g, cut)
  {
    SomeNodeAndEdge(g);
    match s
    case Greedy(players) =>
      var weight := Agonies(g, players);
      assert weight.Keys == g.edges;
      SomeEdge(g.edges);
      ghost var some :| some in g.edges;
      assert some in weight && weight[some] >= LEAST_VOTE;
      var e;
      ok, e := PickEdge(weight);
      cut := {e};
    case Voting(votes) =>
      var weight := VotesOf(g, votes);
      assert weight.Keys == g.edges;
      var e;
      ok, e := PickEdge(weight);
      cut := {e};
    case Ranking(players, forward) =>
      var score := ScoresIn(g, players);
      assert score.Keys == g.nodes;
      var top, bottom;
      ok, top, bottom := PickFromDict(score);
      cut := if forward then OutEdges(g, top) else InEdges(g, bottom);
      if ok {
        EdgesAround(g, top);
        EdgesAround(g, bottom);
      }
    case DegreeRatio(degrees) =>
      var score := RatiosIn(g, degrees);
      assert score.Keys == g.nodes;
      var top, bottom;
      ok, top, bottom := PickFromDict(score);
      cut := LighterSide(g, degrees, top);
      if ok {
        EdgesAround(g, top);
      }
  }
}
