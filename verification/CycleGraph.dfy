/** Simple directed graphs, walks in them, and what it means to be free of cycles. */
module CycleGraph {

  type Edge = (int, int)

  /** A networkx `DiGraph`: at most one edge per ordered pair; self-loops allowed. */
  datatype Graph = Graph(nodes: set<int>, edges: set<Edge>) {
    ghost predicate Valid() {
      forall e :: e in edges ==> e.0 in nodes && e.1 in nodes
    }
  }

  lemma Inhabited(s: set<int>)
    requires s != {}
    ensures exists x :: x in s
  {
    if forall x :: x !in s { assert false; }
  }

  /** `p` visits nodes along edges of `es`. */
  ghost predicate Walk(es: set<Edge>, p: seq<int>) {
    |p| >= 1 && forall i :: 0 <= i < |p| - 1 ==> (p[i], p[i + 1]) in es
  }

  ghost predicate WalkFromTo(es: set<Edge>, p: seq<int>, a: int, b: int) {
    Walk(es, p) && p[0] == a && p[|p| - 1] == b
  }

  ghost predicate Reaches(es: set<Edge>, a: int, b: int) {
    exists p: seq<int> :: WalkFromTo(es, p, a, b)
  }

  /** A closed walk of at least one edge. */
  ghost predicate Cycle(es: set<Edge>, p: seq<int>) {
    Walk(es, p) && |p| >= 2 && p[0] == p[|p| - 1]
  }

  ghost predicate Acyclic(es: set<Edge>) {
    forall p: seq<int> :: !Cycle(es, p)
  }

  /** The edge lies on a cycle of `es`. */
  ghost predicate OnCycle(es: set<Edge>, e: Edge) {
    e in es && Reaches(es, e.1, e.0)
  }

  lemma ReachesSelf(es: set<Edge>, a: int)
    ensures Reaches(es, a, a)
  {
    assert WalkFromTo(es, [a], a, a);
  }

  lemma ReachesMore(es: set<Edge>, es': set<Edge>, a: int, b: int)
    requires es <= es' && Reaches(es, a, b)
    ensures Reaches(es', a, b)
  {
    var p: seq<int> :| WalkFromTo(es, p, a, b);
    assert WalkFromTo(es', p, a, b);
  }

  /** A reaching walk closed by an edge is a cycle, and a cycle shows its first edge to be on one. */
  lemma ClosingEdge(es: set<Edge>, e: Edge)
    ensures OnCycle(es, e) <==> exists p: seq<int> :: Cycle(es, p) && p[0] == e.0 && p[1] == e.1
  {
    if OnCycle(es, e) {
      var p: seq<int> :| WalkFromTo(es, p, e.1, e.0);
      var q := [e.0] + p;
      forall i | 0 <= i < |q| - 1 ensures (q[i], q[i + 1]) in es {
        if i > 0 { assert (p[i - 1], p[i]) in es; }
      }
      assert Cycle(es, q);
    }
    if p: seq<int> :| Cycle(es, p) && p[0] == e.0 && p[1] == e.1 {
      var q := p[1..];
      forall i | 0 <= i < |q| - 1 ensures (q[i], q[i + 1]) in es {
        assert (p[i + 1], p[i + 2]) in es;
      }
      assert WalkFromTo(es, q, e.1, e.0);
    }
  }

  /** `order` lists nodes so that every edge of `es` leads to an earlier one. */
  ghost predicate Descends(es: set<Edge>, order: seq<int>) {
    && (forall e :: e in es ==> e.0 in order)
    && (forall e, k :: e in es && 0 <= k < |order| && order[k] == e.0 ==> e.1 in order[..k])
  }

  /** A walk never comes back: it only moves to earlier places of the order. */
  lemma {:induction false} WalkDescends(es: set<Edge>, order: seq<int>, p: seq<int>, k: int)
    requires Descends(es, order) && Walk(es, p) && |p| >= 2
    requires 0 <= k < |order| && order[k] == p[0]
    ensures p[|p| - 1] in order[..k]
    decreases |p|
  {
    assert (p[0], p[1]) in es;
    assert p[1] in order[..k];
    if |p| > 2 {
      var j :| 0 <= j < k && order[j] == p[1];
      var q := p[1..];
      forall i | 0 <= i < |q| - 1 ensures (q[i], q[i + 1]) in es {
        assert (p[i + 1], p[i + 2]) in es;
      }
      WalkDescends(es, order, q, j);
      assert order[..j] <= order[..k];
    }
  }

  lemma DescendsAcyclic(es: set<Edge>, order: seq<int>)
    requires Descends(es, order) && forall i, j :: 0 <= i < j < |order| ==> order[i] != order[j]
    ensures Acyclic(es)
  {
    forall p: seq<int> | Cycle(es, p) ensures false {
      assert (p[0], p[1]) in es;
      var k :| 0 <= k < |order| && order[k] == p[0];
      WalkDescends(es, order, p, k);
    }
  }
}
