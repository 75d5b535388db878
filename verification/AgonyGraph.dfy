/** The mutable graph of bound edges behind the DAG and the Eulerian part. */
module AgonyGraph {
  import opened Lists
  import opened AgonyTheory

  class Graph {
    var out: seq<seq<int>>    // per node: bound edges leaving it, in binding order
    var inn: seq<seq<int>>    // per node: bound edges entering it
    var outd: seq<int>
    var ind: seq<int>
    var parent: seq<int>      // per edge
    var child: seq<int>
    var bound: seq<bool>

    ghost predicate Valid()
      reads this
    {
      && |out| == |inn| == |outd| == |ind|
      && |parent| == |child| == |bound|
      && (forall e :: 0 <= e < |bound| && bound[e] ==> 0 <= parent[e] < |out| && 0 <= child[e] < |out|)
      && (forall v :: 0 <= v < |out| ==> Distinct(out[v]) && outd[v] == |out[v]|)
      && (forall v :: 0 <= v < |out| ==> Distinct(inn[v]) && ind[v] == |inn[v]|)
      && (forall v, e {:trigger e in out[v]} :: 0 <= v < |out| ==> (e in out[v] <==> 0 <= e < |bound| && bound[e] && parent[e] == v))
      && (forall v, e {:trigger e in inn[v]} :: 0 <= v < |out| ==> (e in inn[v] <==> 0 <= e < |bound| && bound[e] && child[e] == v))
    }

    /** The edges of `g` and nothing else: same nodes, same end points. */
    ghost predicate Over(g: Digraph)
      reads this
    {
      Valid() && |out| == |inn| == |ind| == g.n && parent == g.src && child == g.dst
    }

    constructor Empty()
      ensures Over(Digraph(0, [], [])) && bound == []
    {
      out, inn, outd, ind, parent, child, bound := [], [], [], [], [], [], [];
    }

    /** Becomes a copy of the fully bound input graph, whatever it was before. */
    method Copy(g: Digraph)
      requires g.Valid()
      modifies this
      ensures Over(g)
      ensures bound == seq(g.M(), e => true)
    {
      out, inn := seq(g.n, v => []), seq(g.n, v => []);
      outd, ind := seq(g.n, v => 0), seq(g.n, v => 0);
      parent, child := seq(g.M(), e => 0), seq(g.M(), e => 0);
      bound := seq(g.M(), e => false);
      for k := 0 to g.M()
        invariant Valid() && |out| == g.n && |bound| == g.M()
        invariant parent[..k] == g.src[..k] && child[..k] == g.dst[..k]
        invariant forall e :: 0 <= e < g.M() ==> bound[e] == (e < k)
      {
        Bind(k, g.src[k], g.dst[k]);
      }
      assert parent == parent[..g.M()] && child == child[..g.M()];
      assert g.src == g.src[..g.M()] && g.dst == g.dst[..g.M()];
    }

    method Bind(e: int, n: int, m: int)
      requires Valid() && 0 <= e < |bound| && !bound[e]
      requires 0 <= n < |out| && 0 <= m < |out|
      modifies this
      ensures Valid()
      ensures bound == old(bound)[e := true]
      ensures parent == old(parent)[e := n] && child == old(child)[e := m]
      ensures out == old(out)[n := old(out[n]) + [e]] && inn == old(inn)[m := old(inn[m]) + [e]]
    {
      assert e !in out[n] && e !in inn[m];
      AppendDistinct(out[n], e);
      AppendDistinct(inn[m], e);
      out := out[n := out[n] + [e]];
      inn := inn[m := inn[m] + [e]];
      outd := outd[n := outd[n] + 1];
      ind := ind[m := ind[m] + 1];
      bound := bound[e := true];
      parent := parent[e := n];
      child := child[e := m];
    }

    method Unbind(e: int)
      requires Valid() && 0 <= e < |bound| && bound[e]
      modifies this
      ensures Valid()
      ensures bound == old(bound)[e := false]
      ensures parent == old(parent) && child == old(child)
      ensures out == old(out)[parent[e] := Without(old(out[parent[e]]), e)]
      ensures inn == old(inn)[child[e] := Without(old(inn[child[e]]), e)]
    {
      var n, m := parent[e], child[e];
      WithoutDistinct(out[n], e);
      WithoutDistinct(inn[m], e);
      out := out[n := Without(out[n], e)];
      inn := inn[m := Without(inn[m], e)];
      outd := outd[n := outd[n] - 1];
      ind := ind[m := ind[m] - 1];
      bound := bound[e := false];
    }

    /** Unbinds every edge that leaves or enters `v`. */
    method UnbindNode(v: int)
      requires Valid() && 0 <= v < |out|
      modifies this
      ensures Valid() && |out| == old(|out|)
      ensures parent == old(parent) && child == old(child) && |bound| == old(|bound|)
      ensures forall e :: 0 <= e < |bound| ==> bound[e] == (old(bound[e]) && parent[e] != v && child[e] != v)
    {
      while out[v] != []
        invariant Valid() && |out| == old(|out|)
        invariant parent == old(parent) && child == old(child) && |bound| == old(|bound|)
        invariant forall e :: 0 <= e < |bound| && bound[e] ==> old(bound[e])
        invariant forall e :: 0 <= e < |bound| && old(bound[e]) && !bound[e] ==> parent[e] == v
        decreases |out[v]|
      {
        var e := out[v][0];
        assert e in out[v];
        WithoutDistinct(out[v], e);
        Unbind(e);
      }
      assert forall e :: 0 <= e < |bound| && bound[e] && parent[e] == v ==> e in out[v];
      while inn[v] != []
        invariant Valid() && |out| == old(|out|)
        invariant parent == old(parent) && child == old(child) && |bound| == old(|bound|)
        invariant forall e :: 0 <= e < |bound| && bound[e] ==> old(bound[e]) && parent[e] != v
        invariant forall e :: 0 <= e < |bound| && old(bound[e]) && !bound[e] ==> parent[e] == v || child[e] == v
        decreases |inn[v]|
      {
        var e := inn[v][0];
        assert e in inn[v];
        WithoutDistinct(inn[v], e);
        Unbind(e);
      }
      assert forall e :: 0 <= e < |bound| && bound[e] && child[e] == v ==> e in inn[v];
    }
  }

  lemma NoOut(h: Graph, u: int)
    requires h.Valid() && 0 <= u < |h.out| && h.out[u] == []
    ensures forall e :: 0 <= e < |h.bound| && h.bound[e] ==> h.parent[e] != u
  {
    forall e | 0 <= e < |h.bound| && h.bound[e] ensures h.parent[e] != u { assert e !in h.out[u]; }
  }

  lemma FirstOut(h: Graph, u: int)
    requires h.Valid() && 0 <= u < |h.out| && h.out[u] != []
    ensures var e := h.out[u][0]; 0 <= e < |h.bound| && h.bound[e] && h.parent[e] == u
  {
    assert h.out[u][0] in h.out[u];
  }

  lemma OutList(h: Graph, u: int)
    requires h.Valid() && 0 <= u < |h.out|
    ensures Distinct(h.out[u])
    ensures forall e {:trigger e in h.out[u]} :: e in h.out[u] <==> 0 <= e < |h.bound| && h.bound[e] && h.parent[e] == u
  {
  }

  lemma InList(h: Graph, u: int)
    requires h.Valid() && 0 <= u < |h.inn|
    ensures Distinct(h.inn[u])
    ensures forall e {:trigger e in h.inn[u]} :: e in h.inn[u] <==> 0 <= e < |h.bound| && h.bound[e] && h.child[e] == u
  {
  }

  lemma InDegrees(h: Graph)
    requires h.Valid()
    ensures forall v :: 0 <= v < |h.inn| ==> h.ind[v] == |h.inn[v]|
  {
  }
}
