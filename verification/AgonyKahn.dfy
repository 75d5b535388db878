/** Ranking the acyclic part: the state of `initrank`. */
module AgonyKahn {
  import opened Lists
  import opened AgonyTheory
  import opened AgonyLedger
  import opened AgonyWalk

  /** How many entries of an in-list have not been processed. */
  ghost function Pending(es: seq<int>, seen: set<int>): (c: nat)
    ensures c == 0 <==> forall e :: e in es ==> e in seen
  {
    if es == [] then 0
    else
      assert es[0] in es && forall e :: e in es <==> e == es[0] || e in es[1..];
      Pending(es[1..], seen) + if es[0] in seen then 0 else 1
  }

  lemma {:induction false} PendingOther(es: seq<int>, seen: set<int>, e: int)
    requires e !in es
    ensures Pending(es, seen + {e}) == Pending(es, seen)
  {
    if es != [] { PendingOther(es[1..], seen, e); }
  }

  lemma {:induction false} PendingSeen(es: seq<int>, seen: set<int>, e: int)
    requires e in es && e !in seen && Distinct(es)
    ensures Pending(es, seen + {e}) == Pending(es, seen) - 1
  {
    if es[0] == e {
      PendingOther(es[1..], seen, e);
    } else {
      PendingSeen(es[1..], seen, e);
    }
  }

  lemma {:induction false} PendingAll(es: seq<int>)
    ensures Pending(es, {}) == |es|
  {
    if es != [] { PendingAll(es[1..]); }
  }

  /** `inn` lists, per node, the unmarked edges entering it. */
  ghost predicate InLists(g: Digraph, eul: seq<bool>, inn: seq<seq<int>>)
    requires g.Valid() && Marking(g, eul)
  {
    && |inn| == g.n
    && (forall v :: 0 <= v < g.n ==> Distinct(inn[v]))
    && (forall v, e {:trigger e in inn[v]} :: 0 <= v < g.n ==> (e in inn[v] <==> 0 <= e < g.M() && !eul[e] && g.dst[e] == v))
  }

  /** `seen` are the processed edges, `popped` the finished nodes, `sources` the nodes ready to be popped. */
  datatype Kahn = Kahn(rank: seq<int>, count: seq<int>, sources: seq<int>, popped: seq<int>, seen: set<int>) {
    ghost predicate Shape(g: Digraph) {
      && g.Valid() && |rank| == |count| == g.n
      && Distinct(popped + sources)
      && (forall v :: v in popped || v in sources ==> 0 <= v < g.n)
    }

    ghost predicate Counts(g: Digraph, inn: seq<seq<int>>)
      requires Shape(g) && |inn| == g.n
    {
      forall v :: 0 <= v < g.n ==>
        && count[v] == Pending(inn[v], seen)
        && (count[v] == 0 <==> v in popped || v in sources)
    }

    ghost predicate Ranks(g: Digraph, eul: seq<bool>)
      requires Shape(g) && Marking(g, eul)
    {
      && (forall e :: e in seen ==> 0 <= e < g.M() && !eul[e] && g.src[e] in popped && rank[g.src[e]] < rank[g.dst[e]])
      && (forall v :: 0 <= v < g.n ==> 0 <= rank[v] && if v in popped then rank[v] < |popped| else rank[v] <= |popped|)
    }

    ghost predicate Processed(g: Digraph, eul: seq<bool>, nodes: seq<int>)
      requires g.Valid() && Marking(g, eul)
    {
      forall e :: 0 <= e < g.M() && !eul[e] && g.src[e] in nodes ==> e in seen
    }

    ghost predicate Base(g: Digraph, eul: seq<bool>, inn: seq<seq<int>>) {
      && Shape(g) && Marking(g, eul) && InLists(g, eul, inn)
      && Counts(g, inn) && Ranks(g, eul)
    }

    ghost predicate Inv(g: Digraph, eul: seq<bool>, inn: seq<seq<int>>) {
      Base(g, eul, inn) && Processed(g, eul, popped)
    }
  }

  /** Taking the front source. */
  lemma PopSource(g: Digraph, eul: seq<bool>, inn: seq<seq<int>>, st: Kahn)
    requires st.Inv(g, eul, inn) && st.sources != []
    ensures st.(sources := st.sources[1..], popped := st.popped + [st.sources[0]]).Base(g, eul, inn)
    ensures |st.popped| < g.n && 0 <= st.sources[0] < g.n
    ensures st.Processed(g, eul, st.popped)
    ensures forall e :: e in st.seen ==> 0 <= e < g.M() && g.src[e] != st.sources[0]
  {
    var st' := st.(sources := st.sources[1..], popped := st.popped + [st.sources[0]]);
    assert st'.popped + st'.sources == st.popped + st.sources;
    assert st.sources == [st.sources[0]] + st.sources[1..];
    assert forall v :: v in st.sources[1..] ==> v in st.sources;
    assert st.sources[0] in st.popped + st.sources;
    assert st.sources[0] in st.sources;
    assert forall k :: 0 <= k < |st.popped| ==> st.popped[k] == (st.popped + st.sources)[k];
    assert (st.popped + st.sources)[|st.popped|] == st.sources[0];
    DistinctMissing(st.popped, g.n, st.sources[0]);
  }

  /** Processing edge `e` out of the node popped last. */
  function Process(g: Digraph, st: Kahn, e: int): Kahn
    requires g.Valid() && |st.rank| == |st.count| == g.n && 0 <= e < g.M()
  {
    var n, m := g.src[e], g.dst[e];
    var c := st.count[m] - 1;
    st.(count := st.count[m := c],
        rank := st.rank[m := if st.rank[m] >= st.rank[n] + 1 then st.rank[m] else st.rank[n] + 1],
        sources := if c == 0 then st.sources + [m] else st.sources,
        seen := st.seen + {e})
  }

  lemma ProcessCounts(g: Digraph, eul: seq<bool>, inn: seq<seq<int>>, st: Kahn, e: int)
    requires st.Base(g, eul, inn) && 0 <= e < g.M() && !eul[e] && e !in st.seen
    ensures var st' := Process(g, st, e); st'.Shape(g) && st'.Counts(g, inn)
    ensures g.dst[e] !in st.popped && g.dst[e] !in st.sources
  {
    var m := g.dst[e];
    var st' := Process(g, st, e);
    assert e in inn[m];
    PendingSeen(inn[m], st.seen, e);
    assert st.count[m] > 0;
    forall v | 0 <= v < g.n && v != m ensures Pending(inn[v], st'.seen) == Pending(inn[v], st.seen) {
      assert e !in inn[v];
      PendingOther(inn[v], st.seen, e);
    }
    assert m !in st.popped + st.sources;
    AppendDistinct(st.popped + st.sources, m);
    assert st.popped + (st.sources + [m]) == (st.popped + st.sources) + [m];
  }

  lemma ProcessRanks(g: Digraph, eul: seq<bool>, inn: seq<seq<int>>, st: Kahn, e: int)
    requires st.Base(g, eul, inn) && 0 <= e < g.M() && !eul[e] && e !in st.seen && g.src[e] in st.popped
    requires Process(g, st, e).Shape(g) && g.dst[e] !in st.popped
    ensures Process(g, st, e).Ranks(g, eul)
  {
    var st' := Process(g, st, e);
    forall h | h in st'.seen
      ensures 0 <= h < g.M() && !eul[h] && g.src[h] in st.popped && st'.rank[g.src[h]] < st'.rank[g.dst[h]]
    {
      if h != e { assert h in st.seen; }
    }
  }

  lemma ProcessBase(g: Digraph, eul: seq<bool>, inn: seq<seq<int>>, st: Kahn, e: int)
    requires st.Base(g, eul, inn) && 0 <= e < g.M() && !eul[e] && e !in st.seen && g.src[e] in st.popped
    ensures Process(g, st, e).Base(g, eul, inn)
  {
    ProcessCounts(g, eul, inn, st, e);
    ProcessRanks(g, eul, inn, st, e);
  }

  /** With no source left, an acyclic graph is finished: later nodes of `order` first. */
  lemma {:induction false} AllPopped(g: Digraph, eul: seq<bool>, inn: seq<seq<int>>, st: Kahn, order: seq<int>, k: nat)
    requires st.Inv(g, eul, inn) && st.sources == [] && SinksFirst(g, eul, order) && k <= |order|
    ensures forall j :: k <= j < |order| ==> order[j] in st.popped
    decreases |order| - k
  {
    if k < |order| {
      AllPopped(g, eul, inn, st, order, k + 1);
      var v := order[k];
      forall e | e in inn[v] ensures e in st.seen {
        assert g.src[e] in order;
        var j :| 0 <= j < |order| && order[j] == g.src[e];
        assert g.dst[e] in order[..j];
        assert order[j] in st.popped;
      }
      assert st.count[v] == 0;
    }
  }

  lemma KahnDone(g: Digraph, eul: seq<bool>, inn: seq<seq<int>>, st: Kahn, order: seq<int>)
    requires st.Inv(g, eul, inn) && st.sources == [] && SinksFirst(g, eul, order)
    ensures Increasing(g, eul, st.rank)
    ensures forall v :: 0 <= v < g.n ==> 0 <= st.rank[v] < g.n
  {
    AllPopped(g, eul, inn, st, order, 0);
    forall v | 0 <= v < g.n ensures v in st.popped { assert v in order; }
    assert st.popped + st.sources == st.popped;
    DistinctBounded(st.popped, g.n);
    forall e | 0 <= e < g.M() && !eul[e] ensures st.rank[g.src[e]] < st.rank[g.dst[e]] {
      assert g.src[e] in st.popped;
      assert e in st.seen;
    }
  }

  // ---------- filling the slack buckets ----------

  /** The books with only the first `k` edges entered. */
  ghost predicate Entered(eul: seq<bool>, slk: seq<int>, slacks: seq<seq<int>>, dual: int, primal: int, k: int) {
    && |eul| == |slk| && 0 <= k <= |eul|
    && Buckets(seq(|eul|, e requires 0 <= e < |eul| => if e < k && eul[e] then slk[e] else 0), slacks)
    && (forall e :: 0 <= e < k && eul[e] ==> 0 <= slk[e] <= |slacks|)
    && primal == dual + SlackTo(eul, slk, k)
  }

  lemma EnterNone(eul: seq<bool>, slk: seq<int>, slacks: seq<seq<int>>, dual: int)
    requires |eul| == |slk| && forall i :: 0 <= i < |slacks| ==> slacks[i] == []
    ensures Entered(eul, slk, slacks, dual, dual, 0)
  {
  }

  lemma EnterMarked(eul: seq<bool>, slk: seq<int>, slacks: seq<seq<int>>, dual: int, primal: int, k: int, t: int)
    requires Entered(eul, slk, slacks, dual, primal, k) && k < |eul| && eul[k] && 0 <= t <= |slacks|
    ensures Entered(eul, slk[k := t], AddTo(slacks, t, k), dual, primal + t, k + 1)
  {
    SlackFlip(eul, slk, k, true, t, k);
    assert eul[k := true] == eul;
    var l := seq(|eul|, e requires 0 <= e < |eul| => if e < k && eul[e] then slk[e] else 0);
    assert seq(|eul|, e requires 0 <= e < |eul| => if e < k + 1 && eul[e] then slk[k := t][e] else 0) == l[k := t];
    if t > 0 { BucketAdd(l, slacks, k, t); } else { assert l[k := t] == l; }
  }

  lemma EnterUnmarked(eul: seq<bool>, slk: seq<int>, slacks: seq<seq<int>>, dual: int, primal: int, k: int)
    requires Entered(eul, slk, slacks, dual, primal, k) && k < |eul| && !eul[k]
    ensures Entered(eul, slk, slacks, dual, primal, k + 1)
  {
    assert seq(|eul|, e requires 0 <= e < |eul| => if e < k + 1 && eul[e] then slk[e] else 0)
        == seq(|eul|, e requires 0 <= e < |eul| => if e < k && eul[e] then slk[e] else 0);
  }

  lemma EnterAll(eul: seq<bool>, slk: seq<int>, slacks: seq<seq<int>>, dual: int, primal: int)
    requires Entered(eul, slk, slacks, dual, primal, |eul|) && dual == Count(eul)
    ensures Ledger(eul, slk, slacks, dual, primal)
  {
    assert LevelOf(eul, slk) == seq(|eul|, e requires 0 <= e < |eul| => if e < |eul| && eul[e] then slk[e] else 0);
  }

  lemma KahnStart(g: Digraph, eul: seq<bool>, inn: seq<seq<int>>, st: Kahn)
    requires g.Valid() && Marking(g, eul) && InLists(g, eul, inn)
    requires |st.rank| == |st.count| == g.n && st.popped == [] && st.seen == {} && Distinct(st.sources)
    requires forall v :: 0 <= v < g.n ==> st.rank[v] == 0 && st.count[v] == |inn[v]|
    requires forall v :: v in st.sources <==> 0 <= v < g.n && |inn[v]| == 0
    ensures st.Inv(g, eul, inn)
  {
    assert st.popped + st.sources == st.sources;
    forall v | 0 <= v < g.n ensures st.count[v] == Pending(inn[v], {}) { PendingAll(inn[v]); }
  }
}
