/** Cycle breaking by depth-first search: the edges that lead back to a node still being visited are removed. */
module DfsBreaker {
  import opened Lists
  import opened CycleGraph

  const WHITE := 0
  const GREY := 1
  const BLACK := 2

  ghost function Edges(s: seq<Edge>): set<Edge> { set e | e in s }

  /** `e` is one step of the current path. */
  ghost predicate StepOf(path: seq<int>, e: Edge) {
    exists i :: 0 <= i < |path| - 1 && path[i] == e.0 && path[i + 1] == e.1
  }

  /** `done` lists the black nodes in the order they were finished; `scanned` the edges looked at so far. */
  datatype Dfs = Dfs(color: map<int, int>, removed: seq<Edge>, done: seq<int>, scanned: set<Edge>) {
    ghost function Kept(): set<Edge> { scanned - Edges(removed) }

    /** Grey nodes are those on the path, black nodes those done. */
    ghost predicate Colors(g: Graph, path: seq<int>) {
      && g.Valid() && color.Keys == g.nodes && Distinct(path) && Distinct(done)
      && (forall v :: v in path ==> v in g.nodes) && (forall v :: v in done ==> v in g.nodes)
      && (forall v :: v in g.nodes ==> WHITE <= color[v] <= BLACK)
      && (forall v :: v in g.nodes ==> (color[v] == GREY <==> v in path))
      && (forall v :: v in g.nodes ==> (color[v] == BLACK <==> v in done))
    }

    ghost predicate Scans(g: Graph)
      requires g.Valid() && color.Keys == g.nodes
    {
      && scanned <= g.edges && Edges(removed) <= scanned
      && (forall e :: e in scanned ==> color[e.0] != WHITE)
      && (forall e :: e in g.edges && color[e.0] == BLACK ==> e in scanned)
    }

    /** Kept edges lead to finished nodes, except along the path; a finished node's kept edges lead to nodes finished before it. */
    ghost predicate Order(path: seq<int>) {
      && (forall e :: e in Kept() ==> e.1 in done || StepOf(path, e))
      && (forall e, k :: e in Kept() && 0 <= k < |done| && done[k] == e.0 ==> e.1 in done[..k])
    }

    /** The path runs along kept edges, and every removed edge would close a cycle of kept edges. */
    ghost predicate Cycles(path: seq<int>) {
      && (forall i :: 0 <= i < |path| - 1 ==> (path[i], path[i + 1]) in Kept())
      && (forall e :: e in removed ==> Reaches(Kept(), e.1, e.0))
    }

    ghost predicate Inv(g: Graph, path: seq<int>) {
      Colors(g, path) && Scans(g) && Order(path) && Cycles(path)
    }
  }

  ghost predicate MayEnter(g: Graph, st: Dfs, path: seq<int>, node: int) {
    && st.Inv(g, path) && node in g.nodes && st.color[node] == WHITE
    && (path != [] ==> (path[|path| - 1], node) in g.edges - st.scanned)
  }

  /** The edge by which the visit of `node` is entered, if any. */
  ghost function Entering(path: seq<int>, node: int): set<Edge> {
    if path == [] then {} else {(path[|path| - 1], node)}
  }

  function Enter(st: Dfs, tree: set<Edge>, node: int): Dfs {
    st.(color := st.color[node := GREY], scanned := st.scanned + tree)
  }

  lemma EnterInv(g: Graph, st: Dfs, path: seq<int>, node: int)
    requires MayEnter(g, st, path, node)
    ensures Enter(st, Entering(path, node), node).Inv(g, path + [node])
  {
    var tree := Entering(path, node);
    var st', path' := Enter(st, tree, node), path + [node];
    assert node !in path && node !in st.done;
    assert st'.Colors(g, path');
    assert st'.Scans(g);
    assert st'.Kept() == st.Kept() + tree;
    forall e | e in st'.Kept() ensures e.1 in st.done || StepOf(path', e) {
      if e in st.Kept() {
        if e.1 !in st.done {
          var i :| 0 <= i < |path| - 1 && path[i] == e.0 && path[i + 1] == e.1;
          assert path'[i] == e.0 && path'[i + 1] == e.1;
        }
      } else {
        assert path'[|path| - 1] == e.0 && path'[|path|] == e.1;
      }
    }
    forall e | e in st.removed ensures Reaches(st'.Kept(), e.1, e.0) {
      ReachesMore(st.Kept(), st'.Kept(), e.1, e.0);
    }
    forall e, k | e in st'.Kept() && 0 <= k < |st.done| && st.done[k] == e.0 ensures e.1 in st.done[..k] {
      assert e.0 in st.done;
    }
  }

  /** An edge to a finished node is kept. */
  lemma SkipInv(g: Graph, st: Dfs, path: seq<int>, e: Edge)
    requires st.Inv(g, path) && path != [] && e in g.edges && e.0 == path[|path| - 1] && e.1 in st.done
    ensures st.(scanned := st.scanned + {e}).Inv(g, path)
  {
    var st' := st.(scanned := st.scanned + {e});
    assert e.0 in path;
    assert st.Kept() <= st'.Kept();
    assert st'.Kept() <= st.Kept() + {e};
    forall f | f in st.removed ensures Reaches(st'.Kept(), f.1, f.0) {
      ReachesMore(st.Kept(), st'.Kept(), f.1, f.0);
    }
    forall f, k | f in st'.Kept() && 0 <= k < |st.done| && st.done[k] == f.0 ensures f.1 in st.done[..k] {
      assert f.0 in st.done;
    }
  }

  /** Along the path every node reaches every later one. */
  lemma PathReaches(st: Dfs, path: seq<int>, i: int)
    requires st.Cycles(path) && 0 <= i < |path|
    ensures Reaches(st.Kept(), path[i], path[|path| - 1])
  {
    var q := path[i..];
    forall j | 0 <= j < |q| - 1 ensures (q[j], q[j + 1]) in st.Kept() {
      assert (path[i + j], path[i + j + 1]) in st.Kept();
    }
    assert WalkFromTo(st.Kept(), q, path[i], path[|path| - 1]);
  }

  /** An edge back onto the path is removed; it would have closed a cycle. */
  lemma BackInv(g: Graph, st: Dfs, path: seq<int>, e: Edge)
    requires st.Inv(g, path) && path != [] && e in g.edges - st.scanned
    requires e.0 == path[|path| - 1] && e.1 in path
    ensures st.(scanned := st.scanned + {e}, removed := st.removed + [e]).Inv(g, path)
  {
    var st' := st.(scanned := st.scanned + {e}, removed := st.removed + [e]);
    assert e.0 in path;
    assert Edges(st'.removed) == Edges(st.removed) + {e};
    assert st'.Kept() == st.Kept();
    var i :| 0 <= i < |path| && path[i] == e.1;
    PathReaches(st, path, i);
  }

  function Leave(st: Dfs, node: int): Dfs {
    st.(color := st.color[node := BLACK], done := st.done + [node])
  }

  /** All edges of the last path node scanned: it is finished. */
  lemma LeaveInv(g: Graph, st: Dfs, path: seq<int>, node: int)
    requires st.Inv(g, path + [node]) && forall e :: e in g.edges && e.0 == node ==> e in st.scanned
    ensures Leave(st, node).Inv(g, path)
  {
    var path', st' := path + [node], Leave(st, node);
    assert path'[|path|] == node;
    assert node in path' && node in g.nodes;
    assert forall i :: 0 <= i < |path| ==> path[i] == path'[i];
    assert node !in path;
    assert st'.Colors(g, path);
    forall e | e in st'.Kept() ensures e.1 in st'.done || StepOf(path, e) {
      if e.1 !in st.done {
        var i :| 0 <= i < |path'| - 1 && path'[i] == e.0 && path'[i + 1] == e.1;
        assert i == |path| - 1 || (path[i] == e.0 && path[i + 1] == e.1);
      }
    }
    forall e, k | e in st'.Kept() && 0 <= k < |st'.done| && st'.done[k] == e.0 ensures e.1 in st'.done[..k] {
      if k < |st.done| {
        assert st'.done[..k] == st.done[..k];
      } else {
        assert st'.done[..k] == st.done;
      }
    }
    forall i | 0 <= i < |path| - 1 ensures (path[i], path[i + 1]) in st'.Kept() {
      assert (path'[i], path'[i + 1]) in st.Kept();
    }
  }

  /** Every edge kept, and every edge scanned: what the finished search leaves. */
  lemma FinishedGood(g: Graph, st: Dfs)
    requires st.Inv(g, []) && forall v :: v in g.nodes ==> st.color[v] == BLACK
    ensures Edges(st.removed) <= g.edges
    ensures Acyclic(g.edges - Edges(st.removed))
    ensures forall e :: e in st.removed ==> OnCycle(g.edges - Edges(st.removed) + {e}, e)
  {
    forall e | e in g.edges ensures e in st.scanned { assert e.0 in g.nodes && st.color[e.0] == BLACK; }
    assert st.scanned == g.edges;
    var kept := st.Kept();
    forall e | e in kept ensures e.0 in st.done { }
    DescendsAcyclic(kept, st.done);
    forall e | e in st.removed ensures OnCycle(kept + {e}, e) {
      ReachesMore(kept, kept + {e}, e.1, e.0);
    }
  }

  lemma InvKeys(g: Graph, st: Dfs, path: seq<int>)
    requires st.Inv(g, path)
    ensures st.color.Keys == g.nodes && g.Valid() && forall v :: v in path ==> v in g.nodes && st.color[v] == GREY
  {
  }

  lemma NothingScanned(g: Graph, st: Dfs, path: seq<int>, node: int)
    requires MayEnter(g, st, path, node)
    ensures node !in path && forall e :: e in st.scanned ==> e.0 != node
  {
  }

  /** What the scan of edge `(node, child)` can find. */
  lemma InvFacts(g: Graph, st: Dfs, path: seq<int>, node: int, child: int)
    requires st.Inv(g, path) && path != [] && node == path[|path| - 1] && (node, child) in g.edges - st.scanned
    ensures child in g.nodes && WHITE <= st.color[child] <= BLACK
    ensures st.color[child] == WHITE ==> MayEnter(g, st, path, child)
    ensures st.color[child] == GREY ==> child in path
    ensures st.color[child] == BLACK ==> child in st.done
  {
  }

  lemma AllScanned(g: Graph, scanned: set<Edge>, node: int, rest: set<int>)
    requires (forall v :: v !in rest) && forall v :: v in rest <==> (node, v) in g.edges && (node, v) !in scanned
    ensures forall e :: e in g.edges && e.0 == node ==> e in scanned
  {
    forall v | (node, v) in g.edges ensures (node, v) in scanned {
      assert v !in rest;
    }
    forall e | e in g.edges && e.0 == node ensures e in scanned {
      var v := e.1;
      assert e == (node, v);
    }
  }

  lemma NoGrey(g: Graph, st: Dfs, node: int)
    requires st.Inv(g, []) && node in g.nodes
    ensures node in st.color && (st.color[node] == WHITE || st.color[node] == BLACK)
    ensures st.color[node] == WHITE ==> MayEnter(g, st, [], node)
  {
  }

  class Search {
    const g: Graph
    var color: map<int, int>          // nodes_color
    var removed: seq<Edge>            // edges_to_be_removed
    ghost var done: seq<int>
    ghost var scanned: set<Edge>

    ghost function State(): Dfs
      reads this
    {
      Dfs(color, removed, done, scanned)
    }

    ghost function White(): set<int>
      requires color.Keys == g.nodes
      reads this
    {
      set v | v in g.nodes && color[v] == WHITE
    }

    constructor (g: Graph)
      requires g.Valid()
      ensures this.g == g && removed == [] && State().Inv(g, [])
      ensures forall v :: v in g.nodes ==> color[v] == WHITE
    {
      this.g := g;
      color := map v | v in g.nodes :: WHITE;
      removed := [];
      done, scanned := [], {};
    }

    /** The search only moves on: nothing scanned or finished is forgotten, and of the edges out of the
        path only `more` were scanned. */
    twostate predicate Advanced(path: seq<int>, more: set<Edge>)
      reads this
    {
      && old(scanned) + more <= scanned
      && (forall e :: e in scanned && e.0 in path ==> e in old(scanned) + more)
      && old(color.Keys) == color.Keys == g.nodes && White() <= old(White())
      && (forall v :: v in g.nodes && old(color[v]) == BLACK ==> color[v] == BLACK)
    }

    /** `dfs_visit_recursively`. */
    method Visit(node: int, ghost path: seq<int>)
      requires MayEnter(g, State(), path, node)
      modifies this
      ensures State().Inv(g, path) && node in color && color[node] == BLACK
      ensures Advanced(path, Entering(path, node)) && node !in White()
      decreases White(), 1
    {
      hide Dfs.Inv;
      InvKeys(g, State(), path);
      NothingScanned(g, State(), path, node);
      EnterInv(g, State(), path, node);
      color := color[node := GREY];
      scanned := scanned + Entering(path, node);
      assert White() == old(White()) - {node};
      ScanChildren(node, path + [node]);
      LeaveInv(g, State(), path, node);
      ghost var white := White();
      color := color[node := BLACK];
      done := done + [node];
      assert White() <= white;
    }

    /** Looks at all edges out of the current node; children are taken in any order. */
    method ScanChildren(node: int, ghost path: seq<int>)
      requires State().Inv(g, path) && color.Keys == g.nodes && path != [] && node == path[|path| - 1]
      requires forall e :: e in scanned ==> e.0 != node
      modifies this
      ensures State().Inv(g, path) && color.Keys == g.nodes && White() <= old(White())
      ensures old(scanned) <= scanned && forall e :: e in g.edges && e.0 == node ==> e in scanned
      ensures forall e :: e in scanned && e.0 in path && e.0 != node ==> e in old(scanned)
      ensures forall v :: v in g.nodes && old(color[v]) == BLACK ==> color[v] == BLACK
      decreases White(), 3
    {
      hide Dfs.Inv;
      var rest := set e | e in g.edges && e.0 == node :: e.1;
      assert forall v :: v in rest <==> (node, v) in g.edges && (node, v) !in scanned;
      while rest != {}
        invariant State().Inv(g, path) && color.Keys == g.nodes && White() <= old(White())
        invariant old(scanned) <= scanned
        invariant forall e :: e in scanned && e.0 in path && e.0 != node ==> e in old(scanned)
        invariant forall v :: v in g.nodes && old(color[v]) == BLACK ==> color[v] == BLACK
        invariant forall v :: v in rest <==> (node, v) in g.edges && (node, v) !in scanned
        decreases rest
      {
        Inhabited(rest);
        var child :| child in rest;
        rest := rest - {child};
        ScanChild(node, child, path);
      }
      AllScanned(g, scanned, node, rest);
    }

    /** Looks at one edge out of the current node. */
    method ScanChild(node: int, child: int, ghost path: seq<int>)
      requires State().Inv(g, path) && color.Keys == g.nodes && path != [] && node == path[|path| - 1]
      requires (node, child) in g.edges - scanned
      modifies this
      ensures State().Inv(g, path) && Advanced(path, {(node, child)})
      decreases White(), 2
    {
      hide Dfs.Inv;
      InvFacts(g, State(), path, node, child);
      if color[child] == WHITE {
        Visit(child, path);
      } else if color[child] == GREY {
        BackInv(g, State(), path, (node, child));
        removed := removed + [(node, child)];
        scanned := scanned + {(node, child)};
      } else {
        SkipInv(g, State(), path, (node, child));
        scanned := scanned + {(node, child)};
      }
    }

    /** `dfs_remove_back_edges`: searches from every node not yet visited, in any order. */
    method RemoveBackEdges()
      requires State().Inv(g, []) && removed == [] && forall v :: v in g.nodes ==> color[v] == WHITE
      modifies this
      // what remains has no cycle ...
      ensures Acyclic(g.edges - Edges(removed))
      // ... and putting any one removed edge back closes one
      ensures forall e :: e in removed ==> e in g.edges && OnCycle(g.edges - Edges(removed) + {e}, e)
    {
      hide Dfs.Inv;
      InvKeys(g, State(), []);
      var rest := g.nodes;
      while rest != {}
        invariant State().Inv(g, []) && color.Keys == g.nodes && rest <= g.nodes
        invariant forall v :: v in g.nodes - rest ==> color[v] == BLACK
        decreases rest
      {
        Inhabited(rest);
        var node :| node in rest;
        rest := rest - {node};
        NoGrey(g, State(), node);
        if color[node] == WHITE {
          Visit(node, []);
          InvKeys(g, State(), []);
        }
      }
      FinishedGood(g, State());
    }
  }
}
