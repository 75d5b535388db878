/** The optimiser: node and edge fields, and the methods that update them in place. */
module Agony {
  import opened Lists
  import opened AgonyTheory
  import opened AgonyGraph
  import opened AgonySearch
  import opened AgonyLedger
  import opened AgonyWalk
  import opened AgonyKahn
  import opened AgonyRelabel

  class Optimiser {
    const g: Digraph          // m_graph: fully bound by the reader, never changed afterwards

    // per node
    var rank: seq<int>
    var newrank: seq<int>
    var diff: seq<int>
    var parent: seq<int>      // -1 stands for the null pointer
    var paredge: seq<int>
    var count: seq<int>

    // per edge
    var eulerian: seq<bool>
    var slk: seq<int>

    var dag: Graph            // m_dag: the unmarked edges
    var euler: Graph          // m_euler: the marked edges
    var slacks: seq<seq<int>> // m_slacks
    var curslack: int
    var dual: int
    var primal: int

    /** The per-node and per-edge vectors have the size of the graph. */
    ghost predicate Sized()
      reads this
    {
      && g.Valid()
      && |rank| == |newrank| == |diff| == |parent| == |paredge| == |count| == g.n
      && |eulerian| == |slk| == g.M()
    }

    /** `m_dag` and `m_euler` partition the edges by their mark. */
    ghost predicate Parts()
      reads this, dag, euler
    {
      && g.Valid() && dag != euler
      && dag.Over(g) && euler.Over(g)
      && |eulerian| == |dag.bound| == g.M() && euler.bound == eulerian
      && (forall e :: 0 <= e < g.M() ==> dag.bound[e] == !eulerian[e])
    }

    /** The books between reliefs, save that the marked part may be unbalanced for a moment. */
    ghost predicate Books()
      reads this, dag, euler
    {
      && Sized() && Parts()
      && |slacks| == g.n && -1 <= curslack < g.n
      && Ledger(eulerian, slk, slacks, dual, primal)
      && Exact(g, rank, eulerian, slk)
      && Increasing(g, eulerian, rank)
      && (forall e :: 0 <= e < g.M() && eulerian[e] ==> slk[e] <= curslack + 1)
      && (forall v :: 0 <= v < g.n ==> rank[v] >= 0)
    }

    /** What holds between reliefs. */
    ghost predicate Valid()
      reads this, dag, euler
    {
      && Books()
      && Balanced(g, eulerian)
      && newrank == rank
      && (forall v :: 0 <= v < g.n ==> diff[v] == 0)
    }

    constructor (g: Digraph)
      requires g.Valid()
      ensures this.g == g && Sized()
      ensures dag != euler && fresh(dag) && fresh(euler)
      ensures rank == newrank == diff && (forall v :: 0 <= v < g.n ==> rank[v] == 0)
      ensures (forall v :: 0 <= v < g.n ==> parent[v] == -1) && (forall e :: 0 <= e < g.M() ==> !eulerian[e])
      ensures dual == primal == 0
    {
      this.g := g;
      rank, newrank, diff := seq(g.n, v => 0), seq(g.n, v => 0), seq(g.n, v => 0);
      parent, paredge, count := seq(g.n, v => -1), seq(g.n, v => 0), seq(g.n, v => 0);
      eulerian, slk := seq(g.M(), e => false), seq(g.M(), e => 0);
      slacks, curslack, dual, primal := [], -1, 0, 0;
      var d := new Graph.Empty();
      var e := new Graph.Empty();
      dag, euler := d, e;
    }

    ghost function NodeFields(): Fields
      reads this
    {
      Fields(newrank, diff, parent, paredge)
    }

    ghost function State(q: seq<seq<int>>, nl: seq<int>, visited: seq<int>, bound: int, cur: int): Search
      reads this
    {
      Search(NodeFields(), q, nl, visited, bound, cur)
    }

    /** Queues `v` with a rise of `d` over edge `e` of popped node `u`, if that beats its earlier offers. */
    method MakeOffer(u: int, v: int, d: int, e: int, s: int, q: seq<seq<int>>, nl: seq<int>, bound: int,
                     ghost visited: seq<int>, ghost cur: int)
      returns (q': seq<seq<int>>, nl': seq<int>, bound': int)
      requires 0 <= v < |diff| && v < |parent| && v < |paredge| && 0 < d <= |q| && 0 <= diff[v] <= |q|
      modifies this`diff, this`parent, this`paredge
      ensures State(q', nl', visited, bound', cur) == Offer(old(State(q, nl, visited, bound, cur)), u, v, d, e, s)
    {
      q', nl', bound' := q, nl, bound;
      if v == s { bound' := if d > bound then d else bound; }
      if d > diff[v] {
        if diff[v] > 0 {
          q' := q'[diff[v] - 1 := Without(q'[diff[v] - 1], v)];
        } else {
          nl' := nl' + [v];
        }
        diff := diff[v := d];
        q' := q'[d - 1 := q'[d - 1] + [v]];
        parent := parent[v := u];
        paredge := paredge[v := e];
      }
    }

    /** Scans the DAG edges out of the node `u` popped last. */
    method ScanOut(ghost t: Task, u: int, s: int, q: seq<seq<int>>, nl: seq<int>, bound: int,
                   ghost visited: seq<int>, ghost cur: int)
      returns (q': seq<seq<int>>, nl': seq<int>, bound': int)
      requires Sized() && Parts() && t == Task(g, eulerian, rank, t.p, s) && t.Valid() && 0 <= u < g.n
      requires State(q, nl, visited, bound, cur).ScanInv(t, u)
      modifies this`diff, this`parent, this`paredge
      ensures Sized() && State(q', nl', visited, bound', cur).ScanInv(t, u)
      ensures forall e :: 0 <= e < g.M() && !eulerian[e] && g.src[e] == u ==> NodeFields().Settled(t, e)
    {
      hide Search.ScanInv, Fields.Settled, Graph.Valid;
      OutList(dag, u);
      q', nl', bound' := q, nl, bound;
      var es := dag.out[u];
      for i := 0 to |es|
        invariant Sized() && State(q', nl', visited, bound', cur).ScanInv(t, u)
        invariant forall j :: 0 <= j < i ==> 0 <= es[j] < g.M() && NodeFields().Settled(t, es[j])
      {
        var e := es[i];
        assert e in dag.out[u];
        var v := dag.child[e];
        ghost var st := State(q', nl', visited, bound', cur);
        ScanStep(t, st, e, u);
        if newrank[v] <= newrank[u] {
          var d := newrank[u] + 1 - newrank[v];
          q', nl', bound' := MakeOffer(u, v, d, e, s, q', nl', bound', visited, cur);
          assert State(q', nl', visited, bound', cur) == Offered(t, st, e, u);
        }
      }
      assert forall e :: 0 <= e < g.M() && !eulerian[e] && g.src[e] == u ==> e in dag.out[u];
    }

    /** Scans the Eulerian edges into `u`. */
    method ScanIn(ghost t: Task, u: int, s: int, q: seq<seq<int>>, nl: seq<int>, bound: int,
                  ghost visited: seq<int>, ghost cur: int)
      returns (q': seq<seq<int>>, nl': seq<int>, bound': int)
      requires Sized() && Parts() && t == Task(g, eulerian, rank, t.p, s) && t.Valid() && 0 <= u < g.n
      requires State(q, nl, visited, bound, cur).ScanInv(t, u)
      requires forall e :: 0 <= e < g.M() && !eulerian[e] && g.src[e] == u ==> NodeFields().Settled(t, e)
      modifies this`diff, this`parent, this`paredge
      ensures Sized() && State(q', nl', visited, bound', cur).Inv(t)
    {
      hide Search.ScanInv, Search.Inv, Fields.Settled, Graph.Valid;
      InList(euler, u);
      q', nl', bound' := q, nl, bound;
      var es := euler.inn[u];
      for i := 0 to |es|
        invariant Sized() && State(q', nl', visited, bound', cur).ScanInv(t, u)
        invariant forall e :: 0 <= e < g.M() && !eulerian[e] && g.src[e] == u ==> NodeFields().Settled(t, e)
        invariant forall j :: 0 <= j < i ==> 0 <= es[j] < g.M() && NodeFields().Settled(t, es[j])
      {
        var e := es[i];
        assert e in euler.inn[u];
        var v := euler.parent[e];
        ghost var st := State(q', nl', visited, bound', cur);
        ScanStep(t, st, e, u);
        if Slack(newrank, v, u) > Slack(rank, v, u) {
          var d := Slack(newrank, v, u) - Slack(rank, v, u);
          q', nl', bound' := MakeOffer(u, v, d, e, s, q', nl', bound', visited, cur);
          assert State(q', nl', visited, bound', cur) == Offered(t, st, e, u);
        }
      }
      assert forall e :: 0 <= e < g.M() && eulerian[e] && g.dst[e] == u ==> e in euler.inn[u];
      ScanDone(t, State(q', nl', visited, bound', cur), u);
    }

    /** Pops the first node of the top bucket and gives it the rank it was offered. */
    method PopTop(ghost t: Task, q: seq<seq<int>>, nl: seq<int>, visited: seq<int>, ghost bound: int, cur: int)
      returns (u: int, q': seq<seq<int>>, visited': seq<int>)
      requires Sized() && t == Task(g, eulerian, rank, t.p, t.s)
      requires State(q, nl, visited, bound, cur).Ready(t)
      modifies this`newrank, this`diff
      ensures Sized() && State(q', nl, visited', bound, cur).ScanInv(t, u)
      ensures 0 <= u < g.n && u != t.s
      ensures |visited| < |visited'| <= g.n
    {
      hide Search.Inv, Search.ScanInv, Search.Ready;
      ghost var st := State(q, nl, visited, bound, cur);
      PopFacts(st, t);
      PopBound(st, t);
      PopInv(st, t);
      u := q[cur][0];
      q' := q[cur := Without(q[cur], u)];
      newrank := newrank[u := newrank[u] + diff[u]];
      visited' := visited + [u];
      diff := diff[u := 0];
      assert State(q', nl, visited', bound, cur) == Pop(st);
    }

    /** The search loop of `relief`: pops nodes by non-increasing rise until no rise beats the best offer to `s`. */
    method LongestSlack(ghost t: Task, p: int, s: int)
      returns (nl: seq<int>, visited: seq<int>, cur: int, ghost q: seq<seq<int>>, ghost bound: int)
      requires Sized() && Parts() && t == Task(g, eulerian, rank, p, s) && t.Valid()
      requires newrank == rank && forall v :: 0 <= v < g.n ==> diff[v] == 0
      modifies this`newrank, this`diff, this`parent, this`paredge
      ensures Sized() && Done(t, State(q, nl, visited, bound, cur))
      ensures Falling(rank, newrank, visited)
    {
      hide Search.Inv, Search.ScanInv, Search.Ready, Graph.Valid, Falling;
      InitialInv(t, NodeFields());
      parent := parent[p := -1];
      diff := diff[p := Slack(rank, p, s)];
      var buckets: seq<seq<int>> := seq(diff[p], i => []);
      buckets := buckets[diff[p] - 1 := [p]];
      cur := diff[p] - 1;
      nl, visited := [p], [];
      var best := 0;
      assert State(buckets, nl, visited, best, cur) == Initial(t, old(NodeFields()));
      while true
        invariant Sized() && State(buckets, nl, visited, best, cur).Inv(t)
        decreases g.n - |visited|
      {
        InvFacts(State(buckets, nl, visited, best, cur), t);
        while cur >= 0 && buckets[cur] == []
          invariant Sized() && State(buckets, nl, visited, best, cur).Inv(t) && cur < |buckets|
        {
          LowerInv(State(buckets, nl, visited, best, cur), t);
          cur := cur - 1;
        }
        if cur < best {
          break;
        }
        PopReady(State(buckets, nl, visited, best, cur), t);
        var u;
        u, buckets, visited := PopTop(t, buckets, nl, visited, best, cur);
        if u == s {
          break;
        }
        buckets, nl, best := ScanOut(t, u, s, buckets, nl, best, visited, cur);
        buckets, nl, best := ScanIn(t, u, s, buckets, nl, best, visited, cur);
      }
      q, bound := buckets, best;
      InvFalling(State(q, nl, visited, bound, cur), t);
    }

    method ShiftRank(nl: seq<int>, shift: int)
      requires Distinct(nl) && forall k :: 0 <= k < |nl| ==> 0 <= nl[k] < |newrank|
      modifies this`newrank
      ensures newrank == Shifted(old(newrank), nl, shift)
    {
      for i := 0 to |nl|
        invariant |newrank| == old(|newrank|)
        invariant forall v :: 0 <= v < |newrank| ==>
          newrank[v] == if v in nl[..i] then old(newrank[v]) - shift else old(newrank[v])
      {
        assert nl[..i + 1] == nl[..i] + [nl[i]];
        assert nl[i] !in nl[..i];
        newrank := newrank[nl[i] := newrank[nl[i]] - shift];
      }
      assert nl[..|nl|] == nl;
    }

    method DeleteSlack(e: int)
      requires 0 <= e < |slk| && slk[e] <= |slacks|
      modifies this`slacks, this`primal
      ensures slacks == DropFrom(old(slacks), slk[e], e) && primal == old(primal) - slk[e]
    {
      var t := slk[e];
      if t > 0 {
        slacks := slacks[t - 1 := Without(slacks[t - 1], e)];
      }
      primal := primal - t;
    }

    method AddSlack(e: int)
      requires Sized() && 0 <= e < g.M() && EdgeSlack(g, rank, e) <= |slacks|
      modifies this`slk, this`slacks, this`primal
      ensures var t := EdgeSlack(g, rank, e);
        slk == old(slk)[e := t] && slacks == AddTo(old(slacks), t, e) && primal == old(primal) + t
    {
      var t := EdgeSlack(g, rank, e);
      slk := slk[e := t];
      if t > 0 {
        slacks := slacks[t - 1 := slacks[t - 1] + [e]];
      }
      primal := primal + t;
    }

    /** Moves a climbing edge from the Eulerian part to the DAG. */
    method UnmarkEdge(e: int)
      requires Books() && 0 <= e < g.M() && eulerian[e]
      requires rank[g.src[e]] < rank[g.dst[e]]
      modifies this`eulerian, this`slacks, this`dual, this`primal, dag, euler
      ensures Books() && eulerian == old(eulerian)[e := false]
      ensures SlackSum(eulerian, slk) == old(SlackSum(eulerian, slk)) - slk[e] && slk[e] >= 0
    {
      hide Ledger, Graph.Valid, SlackSum;
      LedgerUnmark(eulerian, slk, slacks, dual, primal, e);
      eulerian := eulerian[e := false];
      euler.Unbind(e);
      dag.Bind(e, g.src[e], g.dst[e]);
      DeleteSlack(e);
      dual := dual - 1;
      primal := primal - 1;
    }

    /** Moves a DAG edge that climbs by exactly one into the Eulerian part, where it has no slack. */
    method MarkEdge(e: int)
      requires Books() && 0 <= e < g.M() && !eulerian[e]
      requires rank[g.dst[e]] == rank[g.src[e]] + 1
      modifies this`eulerian, this`slk, this`slacks, this`dual, this`primal, dag, euler
      ensures Books() && eulerian == old(eulerian)[e := true] && slk == old(slk)[e := 0]
      ensures SlackSum(eulerian, slk) == old(SlackSum(eulerian, slk))
    {
      hide Ledger, Graph.Valid, SlackSum;
      LedgerMark(eulerian, slk, slacks, dual, primal, e, 0);
      eulerian := eulerian[e := true];
      dag.Unbind(e);
      euler.Bind(e, g.src[e], g.dst[e]);
      AddSlack(e);
      dual := dual + 1;
      primal := primal + 1;
    }

    /** Moves an edge on a cycle that is being flipped to the other part. */
    method FlipEdge(f: int)
      requires Books() && 0 <= f < g.M()
      requires if eulerian[f] then rank[g.src[f]] < rank[g.dst[f]] else rank[g.dst[f]] == rank[g.src[f]] + 1
      modifies this`eulerian, this`slk, this`slacks, this`dual, this`primal, dag, euler
      ensures Books() && eulerian == old(eulerian)[f := !old(eulerian[f])]
      ensures slk == if old(eulerian[f]) then old(slk) else old(slk)[f := 0]
      ensures SlackSum(eulerian, slk) <= old(SlackSum(eulerian, slk))
    {
      hide Ledger, Graph.Valid, SlackSum;
      if eulerian[f] {
        UnmarkEdge(f);
      } else {
        MarkEdge(f);
      }
    }

    /** Flips the cycle made of `p -> s` and the tree path from `s` back to `p`. */
    method ExtractCycle(ghost t: Task, eid: int, ghost ord: seq<int>)
      requires Books() && Balanced(g, eulerian)
      requires t.g == g && t.eul == eulerian && 0 <= eid < g.M() && eulerian[eid]
      requires t.p == g.src[eid] && t.s == g.dst[eid] && rank[t.p] < rank[t.s]
      requires HangingPath(t, NodeFields(), rank, ord)
      modifies this`eulerian, this`slk, this`slacks, this`dual, this`primal, dag, euler
      ensures Books() && Balanced(g, eulerian)
      ensures SlackSum(eulerian, slk) <= old(SlackSum(eulerian, slk) - slk[eid])
      ensures forall e :: 0 <= e < g.M() && eulerian[e] ==> (old(eulerian[e]) && slk[e] == old(slk[e])) || slk[e] == 0
    {
      hide Ledger, Graph.Valid, SlackSum, Skewed, Balanced, HangingPath, Increasing, Exact;
      SkewedSelf(g, eulerian, g.dst[eid]);
      PathEnds(t, NodeFields(), rank, ord);
      var p, s := euler.parent[eid], euler.child[eid];
      var u := s;
      ghost var k := |ord| - 1;
      while u != p
        invariant Books()
        invariant 0 <= k < |ord| && u == ord[k]
        invariant Skewed(g, eulerian, s, u)
        invariant eulerian[eid] && slk[eid] == old(slk[eid])
        invariant forall j :: 1 <= j <= k ==> PathEdgeKept(t, ord, j)
        invariant SlackSum(eulerian, slk) <= old(SlackSum(eulerian, slk))
        invariant forall e :: 0 <= e < g.M() && eulerian[e] ==> (t.eul[e] && slk[e] == old(slk[e])) || slk[e] == 0
        decreases k
      {
        var f := paredge[u];
        ghost var up := PathStep(t, NodeFields(), rank, ord, k);
        assert PathEdgeKept(t, ord, k);
        SkewStep(g, eulerian, s, u, parent[u], f, eulerian[f := !eulerian[f]]);
        label Flip:
        FlipEdge(f);
        forall j | 1 <= j <= up ensures PathEdgeKept(t, ord, j) {
          assert old@Flip(PathEdgeKept(t, ord, j));
        }
        u := parent[u];
        k := up;
      }
      SkewStep(g, eulerian, s, p, s, eid, eulerian[eid := false]);
      SkewedSelf(g, eulerian[eid := false], s);
      UnmarkEdge(eid);
    }

    /** The path edge of `ord[j]` still has the mark it had before the walk. */
    ghost predicate PathEdgeKept(t: Task, ord: seq<int>, j: int)
      reads this
    {
      && 0 <= j < |ord| && 0 <= ord[j] < |paredge|
      && 0 <= paredge[ord[j]] < |eulerian| == |t.eul|
      && eulerian[paredge[ord[j]]] == t.eul[paredge[ord[j]]]
    }

    /** The recorded slack of marked edge `e` is its slack under `r0` (not rescanned yet) or under the current ranks. */
    ghost predicate Recorded(r0: seq<int>, e: int)
      requires Sized() && Ranking(g, r0) && 0 <= e < g.M()
      reads this
    {
      slk[e] == EdgeSlack(g, r0, e) || slk[e] == EdgeSlack(g, rank, e)
    }

    /** Rescans the marked edges out of node `u`. */
    method Rescan(u: int, ghost r0: seq<int>)
      requires Sized() && Parts() && Ranking(g, r0) && 0 <= u < g.n
      requires Ledger(eulerian, slk, slacks, dual, primal)
      requires forall e :: 0 <= e < g.M() && eulerian[e] ==> Recorded(r0, e) && EdgeSlack(g, rank, e) <= |slacks|
      modifies this`slk, this`slacks, this`primal
      ensures Sized() && Ledger(eulerian, slk, slacks, dual, primal) && |slacks| == old(|slacks|)
      ensures forall e :: 0 <= e < g.M() && eulerian[e] ==> Recorded(r0, e)
      ensures forall e :: 0 <= e < g.M() && eulerian[e] ==>
        slk[e] == if g.src[e] == u then EdgeSlack(g, rank, e) else old(slk[e])
    {
      hide Ledger, SlackSum, Graph.Valid;
      OutList(euler, u);
      var es := euler.out[u];
      for i := 0 to |es|
        invariant Sized() && Ledger(eulerian, slk, slacks, dual, primal) && |slacks| == old(|slacks|)
        invariant forall e :: 0 <= e < g.M() && eulerian[e] ==> slk[e] == old(slk[e]) || slk[e] == EdgeSlack(g, rank, e)
        invariant forall e :: 0 <= e < g.M() && eulerian[e] && g.src[e] != u ==> slk[e] == old(slk[e])
        invariant forall j :: 0 <= j < i ==> 0 <= es[j] < g.M() && slk[es[j]] == EdgeSlack(g, rank, es[j])
      {
        var e := es[i];
        assert e in euler.out[u];
        if EdgeSlack(g, rank, e) != slk[e] {
          LedgerUpdate(eulerian, slk, slacks, dual, primal, e, EdgeSlack(g, rank, e));
          DeleteSlack(e);
          AddSlack(e);
        }
      }
      forall e | 0 <= e < g.M() && eulerian[e]
        ensures slk[e] == if g.src[e] == u then EdgeSlack(g, rank, e) else old(slk[e])
      {
        if g.src[e] == u { assert e in euler.out[u]; }
      }
    }

    /** First half of `updaterelief`: the touched nodes take their new ranks and leave the queue. */
    method TakeRanks(nl: seq<int>)
      requires Sized() && forall k :: 0 <= k < |nl| ==> 0 <= nl[k] < g.n
      requires forall v :: 0 <= v < g.n && v !in nl ==> newrank[v] == rank[v] && diff[v] == 0
      modifies this`rank, this`diff
      ensures Sized() && rank == newrank && forall v :: 0 <= v < g.n ==> diff[v] == 0
    {
      for i := 0 to |nl|
        invariant Sized()
        invariant forall v :: 0 <= v < g.n ==>
          if v in nl[..i] then rank[v] == newrank[v] && diff[v] == 0 else rank[v] == old(rank[v]) && diff[v] == old(diff[v])
      {
        assert nl[..i + 1] == nl[..i] + [nl[i]];
        rank := rank[nl[i] := newrank[nl[i]]];
        diff := diff[nl[i] := 0];
      }
      assert nl[..|nl|] == nl;
    }

    /** Installs the new ranks; rescanning only the out-edges of touched nodes is enough. */
    method UpdateRelief(nl: seq<int>)
      requires Books() && forall k :: 0 <= k < |nl| ==> 0 <= nl[k] < g.n
      requires forall v :: 0 <= v < g.n ==> newrank[v] >= rank[v]
      requires forall v :: 0 <= v < g.n && v !in nl ==> newrank[v] == rank[v] && diff[v] == 0
      requires Increasing(g, eulerian, newrank)
      requires forall e :: 0 <= e < g.M() && eulerian[e] ==> EdgeSlack(g, newrank, e) <= EdgeSlack(g, rank, e)
      modifies this`rank, this`diff, this`slk, this`slacks, this`primal
      ensures Books() && rank == newrank && forall v :: 0 <= v < g.n ==> diff[v] == 0
      ensures forall e :: 0 <= e < g.M() && eulerian[e] ==> slk[e] <= old(slk[e])
      ensures forall e :: 0 <= e < g.M() && eulerian[e] ==>
        SlackSum(eulerian, slk) <= old(SlackSum(eulerian, slk)) - (old(slk[e]) - slk[e])
    {
      ghost var r0, slk0 := rank, slk;
      hide Ledger, EdgeSlack, Graph.Valid, Increasing, SlackSum;
      LedgerBounds(eulerian, slk, slacks, dual, primal);
      RaisedSlacks(g, eulerian, r0, newrank, nl);
      TakeRanks(nl);
      assert forall e :: 0 <= e < g.M() && eulerian[e] ==> EdgeSlack(g, rank, e) <= slk[e] <= |slacks|;
      for i := 0 to |nl|
        invariant Sized() && Ledger(eulerian, slk, slacks, dual, primal) && |slacks| == old(|slacks|)
        invariant forall e :: 0 <= e < g.M() && eulerian[e] ==> Recorded(r0, e)
        invariant forall e :: 0 <= e < g.M() && eulerian[e] && g.src[e] in nl[..i] ==> slk[e] == EdgeSlack(g, rank, e)
        modifies this`slk, this`slacks, this`primal
      {
        assert nl[..i + 1] == nl[..i] + [nl[i]];
        Rescan(nl[i], r0);
      }
      assert nl[..|nl|] == nl;
      forall e | 0 <= e < g.M() && eulerian[e] ensures slk[e] == EdgeSlack(g, rank, e) {
        assert Recorded(r0, e);
      }
      SlackSumMonotone(eulerian, slk0, slk);
    }

    /** The search of `relief` and the installation of the ranks it found; a tree path is left for what slack remains. */
    method RaiseRanks(eid: int, p: int, s: int) returns (ghost t: Task, ghost ord: seq<int>)
      requires Valid() && 0 <= eid < g.M() && eulerian[eid] && slk[eid] > 0
      requires p == g.src[eid] && s == g.dst[eid]
      modifies this`rank, this`newrank, this`diff, this`parent, this`paredge, this`slk, this`slacks, this`primal
      ensures Valid() && t == Task(g, eulerian, old(rank), p, s)
      ensures forall e :: 0 <= e < g.M() && eulerian[e] ==> slk[e] <= old(slk[e])
      ensures SlackSum(eulerian, slk) <= old(SlackSum(eulerian, slk)) - (old(slk[eid]) - slk[eid])
      ensures forall v :: 0 <= v < g.n ==> rank[v] >= old(rank[v])
      ensures slk[eid] > 0 ==> HangingPath(t, NodeFields(), rank, ord)
    {
      hide Ledger, Graph.Valid, SlackSum, Balanced, Done, HangingPath, Increasing;
      t := Task(g, eulerian, rank, p, s);
      var nl, visited, cur;
      ghost var q, bound;
      nl, visited, cur, q, bound := LongestSlack(t, p, s);
      ghost var st := State(q, nl, visited, bound, cur);
      SearchOutcome(t, st);
      if cur >= 0 {
        ShiftRank(visited, cur + 1);
      }
      assert newrank == Shifted(st.f.newrank, visited, bound);
      UpdateRelief(nl);
      ord := visited + [s];
      if slk[eid] > 0 {
        SameLinksSamePath(t, st.f, NodeFields(), rank, ord);
      }
    }

    /** Takes all the slack of edge `eid` away: by raising ranks, and by flipping a cycle for what is left. */
    method Relief(eid: int)
      requires Valid() && 0 <= eid < g.M() && eulerian[eid] && slk[eid] > 0
      modifies this, dag, euler
      ensures Valid() && dag == old(dag) && euler == old(euler) && curslack == old(curslack)
      ensures SlackSum(eulerian, slk) <= old(SlackSum(eulerian, slk)) - old(slk[eid])
      ensures forall e :: 0 <= e < g.M() && eulerian[e] ==> (old(eulerian[e]) && slk[e] <= old(slk[e])) || slk[e] == 0
      ensures forall v :: 0 <= v < g.n ==> rank[v] >= old(rank[v])
    {
      hide Ledger, Graph.Valid, SlackSum, Balanced, HangingPath, Increasing;
      var p, s := euler.parent[eid], euler.child[eid];
      ghost var t, ord;
      t, ord := RaiseRanks(eid, p, s);
      if Slack(rank, p, s) > 0 {
        ExtractCycle(t, eid, ord);
      }
    }

    /** Relieves edges, those of most slack first, until no marked edge has any. */
    method MinAgony()
      requires Valid()
      modifies this, dag, euler
      ensures Valid()
      ensures dual == primal == Cost(g, rank)
      ensures Optimal(g, rank)
    {
      hide Ledger, Graph.Valid, SlackSum, Increasing;
      while true
        invariant Valid() && dag == old(dag) && euler == old(euler)
        decreases SlackSum(eulerian, slk)
      {
        SlackSumNonNegative(eulerian, slk, slacks, dual, primal);
        while curslack >= 0 && slacks[curslack] == []
          invariant Valid() && dag == old(dag) && euler == old(euler)
          modifies this`curslack
        {
          EmptyTop(eulerian, slk, slacks, dual, primal, curslack);
          curslack := curslack - 1;
        }
        if curslack < 0 {
          break;
        }
        var e := slacks[curslack][0];
        TopEdge(eulerian, slk, slacks, dual, primal, curslack);
        Relief(e);
      }
      NoSlack(eulerian, slk, slacks, dual, primal);
      ZeroSlackOptimal(g, eulerian, rank, slk);
    }

    ghost function WalkState(dfs: Graph, path: seq<int>, dead: seq<int>): Walk
      reads this, dfs
    {
      Walk(eulerian, dfs.bound, parent, paredge, path, dead)
    }

    /** Marks and removes the path edges from `u` back to `v`, then the edge `e` that closed the cycle. */
    method MarkCycle(dfs: Graph, u: int, v: int, e: int, ghost path: seq<int>, ghost dead: seq<int>, ghost m: int)
      requires dfs.Over(g) && WalkState(dfs, path, dead).Inv(g) && path != []
      requires 0 <= e < g.M() && dfs.bound[e] && g.src[e] == u == path[|path| - 1]
      requires 0 <= m < |path| && v == g.dst[e] == path[m]
      modifies this`eulerian, dfs
      ensures dfs.Over(g) && Closed(g, WalkState(dfs, path, dead), m)
      ensures Count(dfs.bound) < old(Count(dfs.bound))
    {
      hide Graph.Valid, Walk.Edges, Walk.Parents, Balanced, Skewed, Count;
      var w := u;
      ghost var k := |path| - 1;
      UnwindStart(g, WalkState(dfs, path, dead));
      while w != v
        invariant dfs.Over(g) && m <= k < |path| && w == path[k]
        invariant Unwinding(g, WalkState(dfs, path, dead), k)
        invariant dfs.bound[e] && Count(dfs.bound) <= old(Count(dfs.bound))
        decreases k
      {
        ghost var st := WalkState(dfs, path, dead);
        UnwindStep(g, st, k);
        CountDrop(dfs.bound, paredge[w]);
        eulerian := eulerian[paredge[w] := true];
        dfs.Unbind(paredge[w]);
        assert WalkState(dfs, path, dead) == Marked(st, paredge[w]);
        w := parent[w];
        k := k - 1;
      }
      UnwindClose(g, WalkState(dfs, path, dead), m, e);
      CountDrop(dfs.bound, e);
      eulerian := eulerian[e := true];
      dfs.Unbind(e);
    }

    /** Makes the nodes from `u` back to `v`, `v` excluded, parentless again. */
    method ClearParents(u: int, v: int, ghost w: Walk, ghost m: int)
      requires Closed(g, w, m) && w.parent == parent && u == w.Last() && v == w.path[m]
      modifies this`parent
      ensures Orphaned(w, parent, m)
    {
      var x := u;
      ghost var k := |w.path| - 1;
      while x != v
        invariant m <= k < |w.path| && x == w.path[k] && |parent| == |w.parent|
        invariant forall y :: 0 <= y < |parent| ==> parent[y] == if y in w.path[k + 1..] then -1 else w.parent[y]
        decreases k
      {
        assert w.parent[w.path[k]] == w.path[k - 1];
        assert w.path[k..] == [w.path[k]] + w.path[k + 1..];
        var next := parent[x];
        parent := parent[x := -1];
        x := next;
        k := k - 1;
      }
    }

    /** The walk closed a cycle by stepping from `u` onto its own path at `v`. */
    method CloseCycle(dfs: Graph, u: int, v: int, e: int, ghost path: seq<int>, ghost dead: seq<int>)
      returns (ghost path': seq<int>)
      requires Sized() && dfs.Over(g) && WalkState(dfs, path, dead).Inv(g) && path != []
      requires 0 <= e < g.M() && dfs.bound[e] && g.src[e] == u == path[|path| - 1] && v == g.dst[e] && v in path
      modifies this`eulerian, this`parent, dfs
      ensures Sized() && dfs.Over(g) && WalkState(dfs, path', dead).Inv(g)
      ensures path' != [] && path'[0] == path[0] && path'[|path'| - 1] == v
      ensures Count(dfs.bound) < old(Count(dfs.bound))
    {
      hide Graph.Valid, Closed, Orphaned, Count, Walk.Edges, Walk.Parents, Walk.LinksTo, Balanced;
      ghost var m :| 0 <= m < |path| && path[m] == v;
      MarkCycle(dfs, u, v, e, path, dead, m);
      ghost var w := WalkState(dfs, path, dead);
      ClosedShape(g, w, m);
      ClearParents(u, v, w, m);
      ResumeInv(g, w, m, parent);
      path' := path[..m + 1];
    }

    /** The current node has no edge left: it dies and the walk steps back; returns the node before it, or -1. */
    method StepBack(dfs: Graph, u: int, ghost path: seq<int>, ghost dead: seq<int>) returns (u': int)
      requires Sized() && dfs.Over(g) && WalkState(dfs, path, dead).Inv(g)
      requires path != [] && u == path[|path| - 1] && 0 <= u < g.n && dfs.out[u] == []
      modifies dfs
      ensures dfs.Over(g) && WalkState(dfs, path[..|path| - 1], dead + [u]).Inv(g)
      ensures u' == if |path| == 1 then -1 else path[|path| - 2]
    {
      hide Graph.Valid, Walk.Edges, Walk.Parents, Walk.LinksTo, Balanced;
      ghost var st := WalkState(dfs, path, dead);
      NoOut(dfs, u);
      dfs.UnbindNode(u);
      DieInv(g, st, dfs.bound);
      ParentOfLast(g, st);
      u' := parent[u];
    }

    /** Walks depth first from `seed` until it is dead; marks every cycle it closes. */
    method WalkFrom(dfs: Graph, seed: int, active: seq<int>, ghost dead: seq<int>)
      returns (active': seq<int>, ghost dead': seq<int>)
      requires Sized() && dfs.Over(g) && WalkState(dfs, [], dead).Inv(g) && Living(g, dead, active)
      requires 0 <= seed < g.n && seed !in dead
      modifies this`parent, this`paredge, this`eulerian, dfs
      ensures Sized() && dfs.Over(g) && WalkState(dfs, [], dead').Inv(g) && Living(g, dead', active')
      ensures |active'| < |active|
    {
      hide Graph.Valid, Walk.Edges, Walk.Parents, Walk.LinksTo, Balanced, Count, Living;
      active', dead' := active, dead;
      SeedInv(g, WalkState(dfs, [], dead), seed);
      var u := seed;
      parent := parent[u := -1];
      ghost var path := [seed];
      while u != -1
        invariant Sized() && dfs.Over(g) && (path == [] <==> u == -1)
        invariant path != [] ==> u == path[|path| - 1] && path[0] == seed
        invariant WalkState(dfs, path, dead').Inv(g) && Living(g, dead', active')
        invariant |active'| <= |active| && (path == [] ==> |active'| < |active|)
        decreases |active'|, Count(dfs.bound), g.n - |path|
      {
        ghost var st := WalkState(dfs, path, dead');
        PathBounded(g, st);
        if dfs.out[u] == [] {
          DieLiving(g, st, active');
          active' := Without(active', u);
          u := StepBack(dfs, u, path, dead');
          path, dead' := path[..|path| - 1], dead' + [st.Last()];
        } else {
          var e := dfs.out[u][0];
          FirstOut(dfs, u);
          var v := dfs.child[e];
          BoundLives(g, st, e);
          OnPath(g, st, v);
          if parent[v] == -1 && v != seed {
            ExtendInv(g, st, e);
            parent := parent[v := u];
            paredge := paredge[v := e];
            u := v;
            path := path + [v];
            PathBounded(g, WalkState(dfs, path, dead'));
          } else {
            path := CloseCycle(dfs, u, v, e, path, dead');
            u := v;
          }
        }
      }
    }

    /** Marks a balanced set of edges whose removal leaves the graph acyclic; `order` lists sinks first. */
    method CycleDfs() returns (ghost order: seq<int>)
      requires Sized()
      requires (forall v :: 0 <= v < g.n ==> parent[v] == -1) && (forall e :: 0 <= e < g.M() ==> !eulerian[e])
      modifies this`parent, this`paredge, this`eulerian
      ensures Sized() && Balanced(g, eulerian) && SinksFirst(g, eulerian, order)
    {
      hide Graph.Valid, Walk.Edges, Walk.Parents, Walk.LinksTo, Balanced, Living, SinksFirst;
      var dfs := new Graph.Empty();
      dfs.Copy(g);
      var active := seq(g.n, i => i);
      order := [];
      assert eulerian == seq(g.M(), e => false);
      StartInv(g, WalkState(dfs, [], order));
      AllLiving(g, active);
      while active != []
        invariant Sized() && dfs.Over(g) && fresh(dfs)
        invariant WalkState(dfs, [], order).Inv(g) && Living(g, order, active)
        decreases |active|
      {
        FirstLiving(g, order, active);
        active, order := WalkFrom(dfs, active[0], active, order);
      }
      AllDead(g, WalkState(dfs, [], order), active);
    }

    /** Splits the graph by the marks; the dual is the number of marked edges. */
    method InitAgony()
      requires Sized() && dag != euler && dual == 0
      modifies this`dual, this`primal, dag, euler
      ensures Sized() && Parts() && primal == dual == Count(eulerian)
    {
      hide Graph.Valid;
      dag.Copy(g);
      euler.Copy(g);
      for i := 0 to g.M()
        invariant dag.Over(g) && euler.Over(g) && |dag.bound| == |euler.bound| == g.M()
        invariant forall e :: 0 <= e < g.M() ==> dag.bound[e] == !(e < i && eulerian[e])
        invariant forall e :: 0 <= e < g.M() ==> euler.bound[e] == (i <= e || eulerian[e])
        invariant dual == CountTo(eulerian, i)
      {
        if eulerian[i] {
          dag.Unbind(i);
          dual := dual + 1;
        } else {
          euler.Unbind(i);
        }
      }
      primal := dual;
    }

    ghost function KahnState(sources: seq<int>, popped: seq<int>, seen: set<int>): Kahn
      reads this
    {
      Kahn(rank, count, sources, popped, seen)
    }

    lemma InListsOf(h: Graph)
      requires g.Valid() && |eulerian| == g.M() && h.Over(g) && |h.bound| == g.M()
      requires forall e :: 0 <= e < g.M() ==> h.bound[e] == !eulerian[e]
      ensures InLists(g, eulerian, h.inn)
    {
    }

    /** The nodes no unmarked edge enters. */
    method FindSources() returns (sources: seq<int>)
      requires Sized() && Parts() && rank == newrank && forall v :: 0 <= v < g.n ==> rank[v] == 0
      modifies this`rank, this`newrank, this`count
      ensures Sized() && rank == newrank && KahnState(sources, [], {}).Inv(g, eulerian, dag.inn)
    {
      hide Graph.Valid, Kahn.Inv, InLists;
      InDegrees(dag);
      sources := [];
      for i := 0 to g.n
        invariant Sized() && rank == newrank && (forall v :: 0 <= v < g.n ==> rank[v] == 0)
        invariant Distinct(sources)
        invariant forall v :: v in sources <==> 0 <= v < i && dag.ind[v] == 0
        invariant forall v :: 0 <= v < i ==> count[v] == dag.ind[v]
      {
        count := count[i := dag.ind[i]];
        if count[i] == 0 {
          newrank, rank := newrank[i := 0], rank[i := 0];
          AppendDistinct(sources, i);
          sources := sources + [i];
        }
      }
      InListsOf(dag);
      KahnStart(g, eulerian, dag.inn, KahnState(sources, [], {}));
    }

    /** Ranks the nodes so that every unmarked edge climbs. */
    method RankDag(ghost order: seq<int>)
      requires Sized() && Parts() && SinksFirst(g, eulerian, order)
      requires rank == newrank && forall v :: 0 <= v < g.n ==> rank[v] == 0
      modifies this`rank, this`newrank, this`count
      ensures Sized() && rank == newrank && Increasing(g, eulerian, rank)
      ensures forall v :: 0 <= v < g.n ==> 0 <= rank[v] < g.n
    {
      hide Graph.Valid, Kahn.Base, Kahn.Inv, SinksFirst;
      var sources := FindSources();
      ghost var popped: seq<int>, seen: set<int> := [], {};
      while sources != []
        invariant Sized() && rank == newrank
        invariant KahnState(sources, popped, seen).Inv(g, eulerian, dag.inn)
        decreases g.n - |popped|
      {
        var n := sources[0];
        PopSource(g, eulerian, dag.inn, KahnState(sources, popped, seen));
        assert (popped + [n])[..|popped|] == popped;
        sources, popped := sources[1..], popped + [n];
        sources, seen := PushSuccessors(n, sources, popped, seen);
      }
      KahnDone(g, eulerian, dag.inn, KahnState(sources, popped, seen), order);
    }

    /** Processes the DAG edges out of node `n`, popped last. */
    method PushSuccessors(n: int, sources: seq<int>, ghost popped: seq<int>, ghost seen: set<int>)
      returns (sources': seq<int>, ghost seen': set<int>)
      requires Sized() && Parts() && rank == newrank && popped != [] && popped[|popped| - 1] == n && 0 <= n < g.n
      requires KahnState(sources, popped, seen).Base(g, eulerian, dag.inn)
      requires KahnState(sources, popped, seen).Processed(g, eulerian, popped[..|popped| - 1])
      requires forall e :: e in seen ==> 0 <= e < g.M() && g.src[e] != n
      modifies this`rank, this`newrank, this`count
      ensures Sized() && rank == newrank
      ensures KahnState(sources', popped, seen').Inv(g, eulerian, dag.inn)
    {
      hide Kahn.Base, Graph.Valid;
      OutList(dag, n);
      sources', seen' := sources, seen;
      var es := dag.out[n];
      for i := 0 to |es|
        invariant Sized() && rank == newrank
        invariant KahnState(sources', popped, seen').Base(g, eulerian, dag.inn)
        invariant forall e :: e in seen' <==> e in seen || e in es[..i]
      {
        var e := es[i];
        assert e in dag.out[n];
        assert e !in es[..i] && es[..i + 1] == es[..i] + [e];
        assert n in popped;
        ghost var st := KahnState(sources', popped, seen');
        ProcessBase(g, eulerian, dag.inn, st, e);
        var m := dag.child[e];
        count := count[m := count[m] - 1];
        var r := if rank[m] >= rank[n] + 1 then rank[m] else rank[n] + 1;
        rank := rank[m := r];
        newrank := newrank[m := r];
        if count[m] == 0 {
          sources' := sources' + [m];
        }
        seen' := seen' + {e};
        assert KahnState(sources', popped, seen') == Process(g, st, e);
      }
      assert es[..|es|] == es;
      assert popped == popped[..|popped| - 1] + [n];
      forall e | 0 <= e < g.M() && !eulerian[e] && g.src[e] in popped ensures e in seen' {
        if g.src[e] == n { assert e in dag.out[n]; }
      }
    }

    /** Records the slack of edge `i`. */
    method FillOne(i: int)
      requires Sized() && 0 <= i < g.M() && |slacks| == g.n && -1 <= curslack < g.n
      requires forall v :: 0 <= v < g.n ==> 0 <= rank[v] < g.n
      requires Entered(eulerian, slk, slacks, dual, primal, i)
      modifies this`slacks, this`curslack, this`slk, this`primal
      ensures Sized() && |slacks| == g.n && old(curslack) <= curslack < g.n
      ensures Entered(eulerian, slk, slacks, dual, primal, i + 1)
      ensures forall e :: 0 <= e < g.M() && e != i ==> slk[e] == old(slk[e])
      ensures eulerian[i] ==> slk[i] == EdgeSlack(g, rank, i) <= curslack
    {
      hide Graph.Valid, Entered;
      ghost var t := EdgeSlack(g, rank, i);
      assert 0 <= rank[g.src[i]] < g.n && 0 <= rank[g.dst[i]] < g.n;
      if eulerian[i] {
        EnterMarked(eulerian, slk, slacks, dual, primal, i, t);
        AddSlack(i);
      } else {
        EnterUnmarked(eulerian, slk, slacks, dual, primal, i);
      }
      curslack := if EdgeSlack(g, rank, i) > curslack then EdgeSlack(g, rank, i) else curslack;
    }

    /** Enters the slack of every marked edge and finds the highest slack. */
    method FillSlacks()
      requires Sized() && Parts() && Increasing(g, eulerian, rank) && primal == dual == Count(eulerian)
      requires forall v :: 0 <= v < g.n ==> 0 <= rank[v] < g.n
      modifies this`slacks, this`curslack, this`slk, this`primal
      ensures Books()
    {
      hide Graph.Valid, Entered;
      slacks := seq(g.n, i => []);
      curslack := -1;
      EnterNone(eulerian, slk, slacks, dual);
      for i := 0 to g.M()
        invariant Sized() && |slacks| == g.n && -1 <= curslack < g.n
        invariant Entered(eulerian, slk, slacks, dual, primal, i)
        invariant forall e :: 0 <= e < i && eulerian[e] ==> slk[e] == EdgeSlack(g, rank, e) <= curslack
      {
        FillOne(i);
      }
      EnterAll(eulerian, slk, slacks, dual, primal);
    }

    method InitRank(ghost order: seq<int>)
      requires Sized() && Parts() && Balanced(g, eulerian) && SinksFirst(g, eulerian, order)
      requires primal == dual == Count(eulerian)
      requires rank == newrank && forall v :: 0 <= v < g.n ==> rank[v] == diff[v] == 0
      modifies this`rank, this`newrank, this`count, this`slacks, this`curslack, this`slk, this`primal
      ensures Valid()
    {
      RankDag(order);
      FillSlacks();
    }

    /** The whole program: the ranking found is optimal among all rankings, and primal and dual certify it. */
    method Solve()
      requires Sized() && dag != euler && dual == primal == 0
      requires rank == newrank && forall v :: 0 <= v < g.n ==> rank[v] == diff[v] == 0
      requires (forall v :: 0 <= v < g.n ==> parent[v] == -1) && (forall e :: 0 <= e < g.M() ==> !eulerian[e])
      modifies this, dag, euler
      ensures Valid()
      ensures dual == primal == Cost(g, rank)
      ensures Optimal(g, rank)
    {
      ghost var order := CycleDfs();
      InitAgony();
      InitRank(order);
      MinAgony();
    }

    /** Between reliefs the primal counter is the agony of the current ranking and the dual a bound for every ranking. */
    lemma Certificate(f: seq<int>)
      requires Valid() && Ranking(g, f)
      ensures primal == dual + SlackSum(eulerian, slk) == Cost(g, rank)
      ensures dual <= Cost(g, f)
    {
      DualityGap(g, eulerian, rank, slk);
      WeakDuality(g, eulerian, f);
    }

    /** `cost()`. */
    method ComputeCost() returns (t: int)
      requires Sized()
      ensures t == Cost(g, rank)
    {
      t := 0;
      for i := 0 to g.M()
        invariant t == CostTo(g, rank, i)
      {
        var n, m := g.src[i], g.dst[i];
        if rank[m] <= rank[n] {
          t := t + (rank[n] - rank[m] + 1);
        }
      }
    }

    /** `writeagony`: numbers the distinct ranks in increasing order and lists every node's number. */
    method WriteAgony() returns (out: seq<int>)
      requires Sized()
      ensures Dense(rank, out)
      ensures Cost(g, out) <= Cost(g, rank)
      ensures Optimal(g, rank) ==> Optimal(g, out) && Cost(g, out) == Cost(g, rank)
    {
      hide Optimal, CostTo;
      var ranks: map<int, int> := map[];
      for i := 0 to g.n
        invariant ranks.Keys == set v | v in rank[..i]
      {
        assert rank[..i + 1] == rank[..i] + [rank[i]];
        ranks := ranks[rank[i] := 0];
      }
      assert rank[..g.n] == rank;
      ranks := NumberInOrder(ranks);
      var written := rank;
      out := seq(g.n, i requires 0 <= i < |written| && written[i] in ranks => ranks[written[i]]);
      forall v | 0 <= v < g.n ensures out[v] == |Below(rank, rank[v])| {
        assert Below(rank, rank[v]) == Smaller(ranks.Keys, rank[v]);
      }
      DenseCost(g, rank, out);
    }
  }
}
