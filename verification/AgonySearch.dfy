/** The longest-slack search inside `relief`: its state, its steps, and what every step keeps. */
module AgonySearch {
  import opened Lists
  import opened AgonyTheory

  /** Everything a search reads and never changes; `s` lies more than one rank above `p`. */
  datatype Task = Task(g: Digraph, eul: seq<bool>, rank: seq<int>, p: int, s: int) {
    ghost predicate Valid() {
      && g.Valid() && Marking(g, eul) && Ranking(g, rank)
      && 0 <= p < g.n && 0 <= s < g.n
      && rank[s] > rank[p] + 1
      && Increasing(g, eul, rank)
    }
    function Start(): int
      requires 0 <= p < |rank| && 0 <= s < |rank|
    {
      Slack(rank, p, s)
    }
    /** The end whose popping puts edge `e` under scrutiny, and the end it then makes demands on. */
    function Head(e: int): int
      requires |eul| == |g.src| == |g.dst| && 0 <= e < |eul|
    {
      if eul[e] then g.dst[e] else g.src[e]
    }
    function Far(e: int): int
      requires |eul| == |g.src| == |g.dst| && 0 <= e < |eul|
    {
      if eul[e] then g.src[e] else g.dst[e]
    }
  }

  /** The node fields the search writes. */
  datatype Fields = Fields(newrank: seq<int>, diff: seq<int>, parent: seq<int>, paredge: seq<int>) {
    ghost predicate Shape(n: nat) {
      |newrank| == |diff| == |parent| == |paredge| == n
    }

    /** The rank `v` has, or will get if popped now. Popping leaves it alone; offers raise it. */
    function Est(v: int): int
      requires 0 <= v < |newrank| && 0 <= v < |diff|
    {
      newrank[v] + diff[v]
    }

    /** `v` was reached from popped node `parent[v]` over edge `paredge[v]`, which its estimate makes tight. */
    ghost predicate Reached(t: Task, v: int)
      requires t.Valid() && Shape(t.g.n) && 0 <= v < t.g.n
    {
      var e, u := paredge[v], parent[v];
      && 0 <= e < t.g.M() && 0 <= u < t.g.n
      && t.Head(e) == u && t.Far(e) == v
      && (if t.eul[e] then Est(v) < newrank[u] else Est(v) == newrank[u] + 1)
    }

    /** Edge `e` asks nothing more of the nodes around its popped head. */
    ghost predicate Settled(t: Task, e: int)
      requires t.Valid() && Shape(t.g.n) && 0 <= e < t.g.M()
    {
      var a, b := t.g.src[e], t.g.dst[e];
      if t.eul[e] then newrank[b] - Est(a) - 1 <= Slack(t.rank, a, b)
      else newrank[a] + 1 <= Est(b)
    }

    ghost predicate SettledFor(t: Task, us: seq<int>)
      requires t.Valid() && Shape(t.g.n)
    {
      forall e :: 0 <= e < t.g.M() && t.Head(e) in us ==> Settled(t, e)
    }

    /** Popped nodes rose by at least `cur + 1`; the others kept their rank and are offered at most that. */
    ghost predicate Levels(t: Task, visited: seq<int>, cur: int)
      requires t.Valid() && Shape(t.g.n)
    {
      forall v :: 0 <= v < t.g.n ==>
        && 0 <= diff[v] <= cur + 1
        && (if v in visited then diff[v] == 0 && newrank[v] >= t.rank[v] + cur + 1
            else newrank[v] == t.rank[v])
    }

    ghost predicate Touched(t: Task, nl: seq<int>, visited: seq<int>)
      requires t.Valid() && Shape(t.g.n)
    {
      && (forall v :: v in nl ==> 0 <= v < t.g.n)
      && (forall v :: 0 <= v < t.g.n ==> (v in nl <==> diff[v] > 0 || v in visited))
      && (visited == [] ==> forall v :: v in nl ==> v == t.p)
    }

    /** Popped nodes hang in a tree rooted at `p`, parents popped before children. */
    ghost predicate Tree(t: Task, visited: seq<int>)
      requires t.Valid() && Shape(t.g.n)
    {
      && Distinct(visited)
      && (forall k :: 0 <= k < |visited| ==> 0 <= visited[k] < t.g.n)
      && (visited != [] ==> visited[0] == t.p)
      && (forall k :: 1 <= k < |visited| ==> Reached(t, visited[k]) && parent[visited[k]] in visited[..k])
    }

    /** Waiting nodes hang below the popped ones. */
    ghost predicate Fringe(t: Task, visited: seq<int>)
      requires t.Valid() && Shape(t.g.n)
    {
      forall v :: 0 <= v < t.g.n && diff[v] > 0 && v != t.p ==> Reached(t, v) && parent[v] in visited
    }

    ghost predicate Ends(t: Task, nl: seq<int>, visited: seq<int>, bound: int)
      requires t.Valid() && Shape(t.g.n)
    {
      && t.s !in visited && bound == diff[t.s]
      && t.p in nl && Est(t.p) == t.rank[t.p] + t.Start()
    }
  }

  /** Of the nodes popped, in this order, none has risen further than one popped before it. */
  ghost predicate Falling(rank: seq<int>, newrank: seq<int>, visited: seq<int>)
    requires |rank| == |newrank|
  {
    && (forall i :: 0 <= i < |visited| ==> 0 <= visited[i] < |rank|)
    && forall i, j :: 0 <= i < j < |visited| ==>
         newrank[visited[i]] - rank[visited[i]] >= newrank[visited[j]] - rank[visited[j]]
  }

  /** A node that rises no further than all before it. */
  lemma FallingAppend(rank: seq<int>, newrank: seq<int>, visited: seq<int>, u: int, rise: int)
    requires |rank| == |newrank| && Falling(rank, newrank, visited) && 0 <= u < |rank| && u !in visited
    requires forall v :: v in visited ==> 0 <= v < |rank| && newrank[v] >= rank[v] + rise
    ensures Falling(rank, newrank[u := rank[u] + rise], visited + [u])
  {
    var after, more := newrank[u := rank[u] + rise], visited + [u];
    forall i | 0 <= i < |visited| ensures more[i] in visited && after[more[i]] == newrank[visited[i]] {
    }
  }

  /** `cur` is `curstack`. */
  datatype Search = Search(f: Fields, q: seq<seq<int>>, nl: seq<int>, visited: seq<int>, bound: int, cur: int)
  {
    ghost predicate Base(t: Task) {
      && t.Valid() && f.Shape(t.g.n)
      && -1 <= cur < |q| == t.Start()
      && f.Levels(t, visited, cur) && Buckets(f.diff, q) && f.Touched(t, nl, visited)
      && f.Tree(t, visited) && f.Fringe(t, visited) && f.Ends(t, nl, visited, bound)
      && Falling(t.rank, f.newrank, visited)
    }

    /** What holds whenever the search is about to look for the next node. */
    ghost predicate Inv(t: Task) {
      Base(t) && f.SettledFor(t, visited)
    }

    /** The same while the edges of the node popped last are still being scanned. */
    ghost predicate ScanInv(t: Task, u: int) {
      && Base(t)
      && visited != [] && visited[|visited| - 1] == u
      && f.SettledFor(t, visited[..|visited| - 1])
      && f.newrank[u] == t.rank[u] + cur + 1
    }

    /** There is a next node to pop. */
    ghost predicate Ready(t: Task) {
      Inv(t) && cur >= 0 && cur >= bound && q[cur] != [] && 0 <= q[cur][0] < t.g.n
    }
  }

  /** The state on entry: `p` waits in the top bucket. */
  function Initial(t: Task, f: Fields): Search
    requires 0 <= t.p < |t.rank| && 0 <= t.s < |t.rank| && t.p < |f.diff| && t.p < |f.parent| && t.Start() > 0
  {
    var d := t.Start();
    Search(f.(diff := f.diff[t.p := d], parent := f.parent[t.p := -1]),
           seq(d, i => [])[d - 1 := [t.p]], [t.p], [], 0, d - 1)
  }

  lemma InitialInv(t: Task, f: Fields)
    requires t.Valid() && f.Shape(t.g.n) && f.newrank == t.rank
    requires forall v :: 0 <= v < t.g.n ==> f.diff[v] == 0
    ensures Initial(t, f).Inv(t)
  {
  }

  lemma InvFacts(st: Search, t: Task)
    requires st.Inv(t)
    ensures -1 <= st.cur < |st.q| && st.bound >= 0
  {
    hide Falling;
  }

  /** Skipping an empty top bucket. */
  lemma LowerInv(st: Search, t: Task)
    requires st.Inv(t) && st.cur >= 0 && st.q[st.cur] == []
    ensures st.(cur := st.cur - 1).Inv(t)
  {
    hide Falling;
    forall v | 0 <= v < t.g.n ensures st.f.diff[v] <= st.cur {
      assert v !in st.q[st.cur];
    }
  }

  // ---------- popping ----------

  /** Popping the first node of the top bucket. */
  function Pop(st: Search): Search
    requires 0 <= st.cur < |st.q| && st.q[st.cur] != []
    requires 0 <= st.q[st.cur][0] < |st.f.newrank| && st.q[st.cur][0] < |st.f.diff|
  {
    var u := st.q[st.cur][0];
    st.(q := st.q[st.cur := Without(st.q[st.cur], u)],
        visited := st.visited + [u],
        f := st.f.(newrank := st.f.newrank[u := st.f.newrank[u] + st.f.diff[u]], diff := st.f.diff[u := 0]))
  }

  lemma PopReady(st: Search, t: Task)
    requires st.Inv(t) && st.cur >= 0 && st.cur >= st.bound && st.q[st.cur] != []
    ensures st.Ready(t)
  {
    hide Falling;
    assert st.q[st.cur][0] in st.q[st.cur];
  }

  /** The node popped next is unpopped, waits at the current level, and is never `s`. */
  lemma PopFacts(st: Search, t: Task)
    requires st.Ready(t)
    ensures 0 <= st.cur < |st.q| && st.q[st.cur] != []
    ensures var u := st.q[st.cur][0];
      && 0 <= u < t.g.n
      && st.f.diff[u] == st.cur + 1 && u !in st.visited && u != t.s && u in st.nl
      && st.f.newrank[u] == t.rank[u]
      && (st.visited == [] ==> u == t.p) && (st.visited != [] ==> u != t.p)
  {
    hide Falling;
    var u := st.q[st.cur][0];
    assert u in st.q[st.cur];
  }

  /** Some node is still unpopped, so the search ends. */
  lemma PopBound(st: Search, t: Task)
    requires st.Ready(t)
    ensures |st.visited| < t.g.n
  {
    hide Falling;
    PopFacts(st, t);
    DistinctMissing(st.visited, t.g.n, st.q[st.cur][0]);
  }

  lemma PopQueue(st: Search, t: Task)
    requires st.Ready(t)
    ensures Buckets(Pop(st).f.diff, Pop(st).q)
  {
    hide Falling;
    PopFacts(st, t);
    WithoutDistinct(st.q[st.cur], st.q[st.cur][0]);
  }

  lemma PopReached(st: Search, t: Task, v: int)
    requires st.Ready(t)
    requires 0 <= v < t.g.n && st.f.Reached(t, v) && st.f.parent[v] in st.visited
    ensures Pop(st).f.Reached(t, v)
  {
    hide Falling;
    PopFacts(st, t);
  }

  lemma PopTree(st: Search, t: Task)
    requires st.Ready(t)
    ensures Pop(st).f.Tree(t, Pop(st).visited) && Pop(st).f.Fringe(t, Pop(st).visited)
  {
    hide Falling, Fields.Levels, Fields.Touched, Fields.SettledFor, Fields.Ends, Fields.Reached, Buckets;
    PopFacts(st, t);
    var u := st.q[st.cur][0];
    var st' := Pop(st);
    AppendDistinct(st.visited, u);
    forall k | 1 <= k < |st'.visited|
      ensures st'.f.Reached(t, st'.visited[k]) && st'.f.parent[st'.visited[k]] in st'.visited[..k]
    {
      assert st'.visited[..k] == st.visited[..k];
      PopReached(st, t, st'.visited[k]);
    }
    forall v | 0 <= v < t.g.n && st'.f.diff[v] > 0 && v != t.p ensures st'.f.Reached(t, v) {
      PopReached(st, t, v);
    }
  }

  lemma PopSettled(st: Search, t: Task)
    requires st.Ready(t)
    ensures Pop(st).f.SettledFor(t, st.visited)
  {
    hide Falling;
    PopFacts(st, t);
    forall e | 0 <= e < t.g.M() && t.Head(e) in st.visited ensures Pop(st).f.Settled(t, e) {
      assert st.f.Settled(t, e);
    }
  }

  lemma PopFalling(st: Search, t: Task)
    requires st.Ready(t)
    ensures Falling(t.rank, Pop(st).f.newrank, Pop(st).visited)
  {
    hide Falling, Fields.Tree, Fields.Fringe, Fields.SettledFor, Fields.Touched;
    PopFacts(st, t);
    VisitedRise(st, t);
    FallingAppend(t.rank, st.f.newrank, st.visited, st.q[st.cur][0], st.cur + 1);
  }

  lemma VisitedRise(st: Search, t: Task)
    requires st.Inv(t)
    ensures forall v :: v in st.visited ==> 0 <= v < t.g.n && st.f.newrank[v] >= t.rank[v] + st.cur + 1
  {
    hide Falling, Fields.Fringe, Fields.SettledFor, Fields.Touched;
    forall v | v in st.visited ensures 0 <= v < t.g.n {
      var k :| 0 <= k < |st.visited| && st.visited[k] == v;
    }
  }

  lemma InvFalling(st: Search, t: Task)
    requires st.Inv(t)
    ensures Falling(t.rank, st.f.newrank, st.visited)
  {
  }

  lemma PopInv(st: Search, t: Task)
    requires st.Ready(t)
    ensures Pop(st).ScanInv(t, st.q[st.cur][0])
  {
    hide Falling, Fields.Levels, Fields.Touched, Fields.Ends, Fields.Tree, Fields.Fringe, Fields.SettledFor, Buckets;
    PopFacts(st, t);
    PopLevels(st, t);
    PopQueue(st, t);
    PopTree(st, t);
    PopSettled(st, t);
    PopFalling(st, t);
    assert Pop(st).visited[..|st.visited|] == st.visited;
  }

  lemma PopLevels(st: Search, t: Task)
    requires st.Ready(t)
    ensures var st' := Pop(st);
      && st'.f.Levels(t, st'.visited, st.cur) && st'.f.Touched(t, st.nl, st'.visited)
      && st'.f.Ends(t, st.nl, st'.visited, st.bound)
  {
    hide Falling, Fields.Tree, Fields.Fringe, Fields.SettledFor;
    PopFacts(st, t);
    hide Buckets;
  }

  // ---------- offering a rise to the far end of a scanned edge ----------

  /** The rise edge `e` demands of its far end once its head was popped; not positive means none. */
  function Demand(t: Task, f: Fields, e: int): int
    requires t.g.Valid() && |t.eul| == t.g.M() && |t.rank| == |f.newrank| == t.g.n && 0 <= e < t.g.M()
  {
    var a, b := t.g.src[e], t.g.dst[e];
    if t.eul[e] then Slack(f.newrank, a, b) - Slack(t.rank, a, b)
    else f.newrank[a] + 1 - f.newrank[b]
  }

  function Offer(st: Search, u: int, v: int, d: int, e: int, s: int): Search
    requires 0 <= v < |st.f.diff| && v < |st.f.parent| && v < |st.f.paredge|
    requires 0 < d <= |st.q| && 0 <= st.f.diff[v] <= |st.q|
  {
    var b := if v == s && d > st.bound then d else st.bound;
    if d > st.f.diff[v] then
      var q1 := if st.f.diff[v] > 0 then st.q[st.f.diff[v] - 1 := Without(st.q[st.f.diff[v] - 1], v)] else st.q;
      st.(q := q1[d - 1 := q1[d - 1] + [v]],
          nl := if st.f.diff[v] > 0 then st.nl else st.nl + [v],
          bound := b,
          f := st.f.(diff := st.f.diff[v := d], parent := st.f.parent[v := u], paredge := st.f.paredge[v := e]))
    else st.(bound := b)
  }

  ghost predicate Offering(t: Task, st: Search, e: int, u: int) {
    && st.ScanInv(t, u) && 0 <= e < t.g.M() && t.Head(e) == u
    && Demand(t, st.f, e) > 0
  }

  /** An edge demands something only of an unpopped node, and never more than the current level. */
  lemma DemandFacts(t: Task, st: Search, e: int, u: int)
    requires Offering(t, st, e, u)
    ensures var v := t.Far(e);
      && v !in st.visited && Demand(t, st.f, e) <= st.cur + 1
      && v != u && v != t.p && st.f.newrank[v] == t.rank[v]
  {
    hide Falling;
    assert u in st.visited;
    if !t.eul[e] { assert t.rank[t.g.src[e]] < t.rank[t.g.dst[e]]; }
  }

  function Offered(t: Task, st: Search, e: int, u: int): Search
    requires t.Valid() && st.f.Shape(t.g.n) && 0 <= e < t.g.M()
    requires 0 < Demand(t, st.f, e) <= |st.q| && 0 <= st.f.diff[t.Far(e)] <= |st.q|
  {
    Offer(st, u, t.Far(e), Demand(t, st.f, e), e, t.s)
  }

  /** The unpopped node `v` takes a higher offer over edge `e` from popped node `u`. */
  ghost predicate Takes(t: Task, f: Fields, visited: seq<int>, u: int, v: int, d: int, e: int) {
    && t.Valid() && f.Shape(t.g.n)
    && 0 <= u < t.g.n && 0 <= v < t.g.n && 0 <= e < t.g.M()
    && u in visited && v !in visited && v != u
    && t.Head(e) == u && t.Far(e) == v
    && d == Demand(t, f, e) > f.diff[v] >= 0
  }

  function TakeFields(f: Fields, u: int, v: int, d: int, e: int): Fields
    requires 0 <= v < |f.diff| && v < |f.parent| && v < |f.paredge|
  {
    f.(diff := f.diff[v := d], parent := f.parent[v := u], paredge := f.paredge[v := e])
  }

  lemma TakeTree(t: Task, f: Fields, visited: seq<int>, u: int, v: int, d: int, e: int)
    requires Takes(t, f, visited, u, v, d, e) && f.Tree(t, visited)
    ensures TakeFields(f, u, v, d, e).Tree(t, visited)
  {
    var f' := TakeFields(f, u, v, d, e);
    forall k | 1 <= k < |visited|
      ensures f'.Reached(t, visited[k]) && f'.parent[visited[k]] in visited[..k]
    {
      assert visited[k] in visited;
      assert f.Reached(t, visited[k]);
    }
  }

  lemma TakeFringe(t: Task, f: Fields, visited: seq<int>, u: int, v: int, d: int, e: int)
    requires Takes(t, f, visited, u, v, d, e) && f.Fringe(t, visited) && f.newrank[v] == t.rank[v]
    ensures TakeFields(f, u, v, d, e).Fringe(t, visited)
  {
    var f' := TakeFields(f, u, v, d, e);
    forall w | 0 <= w < t.g.n && f'.diff[w] > 0 && w != t.p
      ensures f'.Reached(t, w) && f'.parent[w] in visited
    {
      if w != v {
        assert f.Reached(t, w) && f.parent[w] in visited;
        assert f'.Est(w) == f.Est(w);
      }
    }
  }

  /** Offers only raise estimates, so no settled edge comes loose, and `e` itself is settled. */
  lemma TakeSettled(t: Task, f: Fields, visited: seq<int>, u: int, v: int, d: int, e: int)
    requires Takes(t, f, visited, u, v, d, e) && f.newrank[v] == t.rank[v]
    ensures forall h :: 0 <= h < t.g.M() && f.Settled(t, h) ==> TakeFields(f, u, v, d, e).Settled(t, h)
    ensures TakeFields(f, u, v, d, e).Settled(t, e)
  {
  }

  lemma OfferScan(t: Task, st: Search, e: int, u: int)
    requires Offering(t, st, e, u) && Demand(t, st.f, e) <= |st.q|
    ensures Offered(t, st, e, u).ScanInv(t, u)
    ensures forall h :: 0 <= h < t.g.M() && st.f.Settled(t, h) ==> Offered(t, st, e, u).f.Settled(t, h)
    ensures Offered(t, st, e, u).f.Settled(t, e)
  {
    hide Falling;
    DemandFacts(t, st, e, u);
    assert u in st.visited;
    if Demand(t, st.f, e) > st.f.diff[t.Far(e)] {
      TakeScan(t, st, e, u, t.Far(e), Demand(t, st.f, e));
    } else {
      OfferIdle(t, st, e, u);
    }
  }

  lemma TakeScan(t: Task, st: Search, e: int, u: int, v: int, d: int)
    requires Offering(t, st, e, u) && Demand(t, st.f, e) <= |st.q|
    requires v == t.Far(e) && d == Demand(t, st.f, e) > st.f.diff[v]
    requires v !in st.visited && d <= st.cur + 1 && v != t.p && v != u && st.f.newrank[v] == t.rank[v]
    requires 0 <= st.f.diff[v] <= |st.q| && u in st.visited
    ensures Offered(t, st, e, u).ScanInv(t, u)
    ensures forall h :: 0 <= h < t.g.M() && st.f.Settled(t, h) ==> Offered(t, st, e, u).f.Settled(t, h)
    ensures Offered(t, st, e, u).f.Settled(t, e)
  {
    hide Falling, Fields.Levels, Fields.Touched, Fields.Ends, Buckets, Fields.Tree, Fields.Fringe, Fields.Settled;
    var st' := Offered(t, st, e, u);
    assert Takes(t, st.f, st.visited, u, v, d, e);
    assert st'.f == TakeFields(st.f, u, v, d, e);
    assert st'.f.Levels(t, st.visited, st.cur) && st'.f.Touched(t, st'.nl, st.visited)
      && st'.f.Ends(t, st'.nl, st.visited, st'.bound) by { TakeRest(t, st, e, u, v, d); }
    assert Buckets(st'.f.diff, st'.q) by { BucketMove(st.f.diff, st.q, v, d); }
    assert st'.f.Tree(t, st.visited) by { TakeTree(t, st.f, st.visited, u, v, d, e); }
    assert st'.f.Fringe(t, st.visited) by { TakeFringe(t, st.f, st.visited, u, v, d, e); }
    TakeSettled(t, st.f, st.visited, u, v, d, e);
    SettledForMonotone(t, st.f, st'.f, st.visited[..|st.visited| - 1]);
  }

  lemma SettledForMonotone(t: Task, f: Fields, f': Fields, us: seq<int>)
    requires t.Valid() && f.Shape(t.g.n) && f'.Shape(t.g.n) && f.SettledFor(t, us)
    requires forall h :: 0 <= h < t.g.M() && f.Settled(t, h) ==> f'.Settled(t, h)
    ensures f'.SettledFor(t, us)
  {
  }

  lemma TakeRest(t: Task, st: Search, e: int, u: int, v: int, d: int)
    requires Offering(t, st, e, u) && Demand(t, st.f, e) <= |st.q|
    requires v == t.Far(e) && d == Demand(t, st.f, e) > st.f.diff[v]
    requires v !in st.visited && d <= st.cur + 1 && v != t.p
    ensures var st' := Offered(t, st, e, u);
      && st'.f.Levels(t, st.visited, st.cur) && st'.f.Touched(t, st'.nl, st.visited)
      && st'.f.Ends(t, st'.nl, st.visited, st'.bound)
  {
    hide Falling, Fields.Tree, Fields.Fringe, Fields.SettledFor, Buckets, Increasing;
  }

  lemma OfferIdle(t: Task, st: Search, e: int, u: int)
    requires Offering(t, st, e, u) && Demand(t, st.f, e) <= st.f.diff[t.Far(e)] <= |st.q|
    requires t.Far(e) !in st.visited && st.f.newrank[t.Far(e)] == t.rank[t.Far(e)]
    ensures Offered(t, st, e, u) == st
    ensures st.f.Settled(t, e)
  {
    hide Falling;
  }

  /** An edge that demands nothing is settled as it stands. */
  lemma NoDemandSettled(t: Task, st: Search, e: int, u: int)
    requires st.ScanInv(t, u) && 0 <= e < t.g.M() && t.Head(e) == u
    requires Demand(t, st.f, e) <= 0
    ensures st.f.Settled(t, e)
  {
    hide Falling;
  }

  /** Scanning one edge of the popped node, whether or not it leads to an offer. */
  lemma ScanStep(t: Task, st: Search, e: int, u: int)
    requires st.ScanInv(t, u) && 0 <= e < t.g.M() && t.Head(e) == u
    ensures Demand(t, st.f, e) <= 0 ==> st.f.Settled(t, e)
    ensures Demand(t, st.f, e) > 0 ==>
      && Demand(t, st.f, e) - 1 <= st.cur
      && Demand(t, st.f, e) <= |st.q| && 0 <= st.f.diff[t.Far(e)] <= |st.q|
      && Offered(t, st, e, u).ScanInv(t, u)
      && Offered(t, st, e, u).f.Settled(t, e)
      && (forall h :: 0 <= h < t.g.M() && st.f.Settled(t, h) ==> Offered(t, st, e, u).f.Settled(t, h))
  {
    hide Falling;
    if Demand(t, st.f, e) > 0 {
      DemandFacts(t, st, e, u);
      OfferScan(t, st, e, u);
    } else {
      NoDemandSettled(t, st, e, u);
    }
  }

  lemma SettledForAppend(t: Task, f: Fields, us: seq<int>, u: int)
    requires t.Valid() && f.Shape(t.g.n) && f.SettledFor(t, us)
    requires forall e :: 0 <= e < t.g.M() && t.Head(e) == u ==> f.Settled(t, e)
    ensures f.SettledFor(t, us + [u])
  {
  }

  /** All edges of the popped node scanned: the search is back at its head. */
  lemma ScanDone(t: Task, st: Search, u: int)
    requires st.ScanInv(t, u)
    requires forall e :: 0 <= e < t.g.M() && t.Head(e) == u ==> st.f.Settled(t, e)
    ensures st.Inv(t)
  {
    hide Falling, Fields.Levels, Fields.Touched, Fields.Ends, Buckets, Fields.Tree, Fields.Fringe, Fields.Settled;
    var us := st.visited[..|st.visited| - 1];
    assert st.visited == us + [u];
    SettledForAppend(t, st.f, us, u);
  }

  // ---------- the end of the search ----------

  /** `shiftrank`: the popped nodes sink back by `b`. */
  function Shifted(newrank: seq<int>, visited: seq<int>, b: int): (r: seq<int>)
    ensures |r| == |newrank|
  {
    seq(|newrank|, v requires 0 <= v < |newrank| => if v in visited then newrank[v] - b else newrank[v])
  }

  /** The search is over: no bucket above the best offer made to `s` is occupied. */
  ghost predicate Done(t: Task, st: Search) {
    st.Inv(t) && st.cur < st.bound
  }

  lemma DoneFacts(t: Task, st: Search)
    requires Done(t, st)
    ensures st.cur + 1 == st.bound == st.f.diff[t.s] <= t.Start()
    ensures t.p in st.visited
    ensures st.visited != [] && st.visited[0] == t.p
  {
    hide Falling;
  }

  /** Raised ranks: nobody sinks, and only popped nodes move. */
  lemma DoneRanks(t: Task, st: Search)
    requires Done(t, st)
    ensures var r := Shifted(st.f.newrank, st.visited, st.bound);
      && |r| == t.g.n
      && (forall v :: 0 <= v < t.g.n ==> r[v] >= t.rank[v])
      && (forall v :: 0 <= v < t.g.n && v !in st.visited ==> r[v] == t.rank[v])
      && (forall v :: 0 <= v < t.g.n && v in st.visited ==> r[v] == st.f.newrank[v] - st.bound)
      && Slack(r, t.p, t.s) == st.bound
  {
    hide Falling;
    DoneFacts(t, st);
  }

  lemma DoneEdge(t: Task, st: Search, r: seq<int>, e: int)
    requires Done(t, st) && r == Shifted(st.f.newrank, st.visited, st.bound) && 0 <= e < t.g.M()
    ensures !t.eul[e] ==> r[t.g.src[e]] < r[t.g.dst[e]]
    ensures t.eul[e] ==> EdgeSlack(t.g, r, e) <= EdgeSlack(t.g, t.rank, e)
  {
    hide Falling;
    DoneFacts(t, st);
    DoneRanks(t, st);
    var a, b := t.g.src[e], t.g.dst[e];
    if t.Head(e) in st.visited { assert st.f.Settled(t, e); }
    if !t.eul[e] { assert t.rank[a] < t.rank[b]; }
  }

  /** Every unmarked edge still climbs, and no marked edge gained slack. */
  lemma DoneEdges(t: Task, st: Search, r: seq<int>)
    requires Done(t, st) && r == Shifted(st.f.newrank, st.visited, st.bound)
    ensures Increasing(t.g, t.eul, r)
    ensures forall e :: 0 <= e < t.g.M() && t.eul[e] ==> EdgeSlack(t.g, r, e) <= EdgeSlack(t.g, t.rank, e)
  {
    hide Falling;
    forall e | 0 <= e < t.g.M()
      ensures !t.eul[e] ==> r[t.g.src[e]] < r[t.g.dst[e]]
      ensures t.eul[e] ==> EdgeSlack(t.g, r, e) <= EdgeSlack(t.g, t.rank, e)
    {
      DoneEdge(t, st, r, e);
    }
  }

  /** Node `v` hangs below `parent[v]` by edge `paredge[v]`: flipping that edge is safe under ranking `r`. */
  ghost predicate Hangs(t: Task, f: Fields, r: seq<int>, v: int)
    requires t.g.Valid() && Marking(t.g, t.eul) && Ranking(t.g, r) && f.Shape(t.g.n) && 0 <= v < t.g.n
  {
    var e, u := f.paredge[v], f.parent[v];
    && 0 <= e < t.g.M() && 0 <= u < t.g.n
    && t.Head(e) == u && t.Far(e) == v
    && (if t.eul[e] then r[v] < r[u] else r[v] == r[u] + 1)
  }

  /** `ord` lists the popped nodes and then `s`, each after the node it hangs below; `p` comes first. */
  ghost predicate HangingPath(t: Task, f: Fields, r: seq<int>, ord: seq<int>)
    requires t.g.Valid() && Marking(t.g, t.eul) && Ranking(t.g, r) && f.Shape(t.g.n)
  {
    && Distinct(ord) && |ord| >= 2
    && (forall k :: 0 <= k < |ord| ==> 0 <= ord[k] < t.g.n)
    && ord[0] == t.p && ord[|ord| - 1] == t.s
    && (forall k :: 1 <= k < |ord| ==> Hangs(t, f, r, ord[k]) && f.parent[ord[k]] in ord[..k])
  }

  lemma DoneHangs(t: Task, st: Search, r: seq<int>, v: int)
    requires Done(t, st) && r == Shifted(st.f.newrank, st.visited, st.bound)
    requires 0 <= v < t.g.n && st.f.Reached(t, v) && st.f.parent[v] in st.visited
    requires v in st.visited || v == t.s
    ensures Hangs(t, st.f, r, v)
  {
    hide Falling;
    DoneFacts(t, st);
    DoneRanks(t, st);
  }

  /** When `s` was reached, the tree path from `s` up to `p` can be flipped. */
  lemma DonePath(t: Task, st: Search, r: seq<int>)
    requires Done(t, st) && r == Shifted(st.f.newrank, st.visited, st.bound) && st.bound > 0
    ensures HangingPath(t, st.f, r, st.visited + [t.s])
  {
    hide Falling;
    DoneFacts(t, st);
    var ord := st.visited + [t.s];
    AppendDistinct(st.visited, t.s);
    forall k | 1 <= k < |ord| ensures Hangs(t, st.f, r, ord[k]) && st.f.parent[ord[k]] in ord[..k] {
      assert ord[..k] == st.visited[..k];
      if k < |st.visited| { assert st.visited[k] in st.visited; }
      DoneHangs(t, st, r, ord[k]);
    }
  }

  /** No edge serves two nodes of the path, so flipping one leaves the others as they were. */
  lemma PathEdgesDistinct(t: Task, f: Fields, r: seq<int>, ord: seq<int>, j: int, k: int)
    requires t.g.Valid() && Marking(t.g, t.eul) && Ranking(t.g, r) && f.Shape(t.g.n)
    requires HangingPath(t, f, r, ord) && 1 <= j < k < |ord|
    ensures f.paredge[ord[j]] != f.paredge[ord[k]]
  {
    assert Hangs(t, f, r, ord[j]) && Hangs(t, f, r, ord[k]);
  }

  /** One step of the walk from `ord[k]` to its parent. */
  lemma PathStep(t: Task, f: Fields, r: seq<int>, ord: seq<int>, k: int) returns (up: int)
    requires t.g.Valid() && Marking(t.g, t.eul) && Ranking(t.g, r) && f.Shape(t.g.n)
    requires HangingPath(t, f, r, ord) && 1 <= k < |ord|
    ensures 0 <= up < k && ord[up] == f.parent[ord[k]] && 0 <= ord[k] < t.g.n && 0 <= ord[up] < t.g.n
    ensures Hangs(t, f, r, ord[k])
    ensures forall j :: 1 <= j <= up ==> 0 <= ord[j] < t.g.n && f.paredge[ord[j]] != f.paredge[ord[k]]
    ensures ord[k] != t.p
  {
    assert Hangs(t, f, r, ord[k]) && f.parent[ord[k]] in ord[..k];
    up :| 0 <= up < k && ord[up] == f.parent[ord[k]];
    forall j | 1 <= j <= up ensures f.paredge[ord[j]] != f.paredge[ord[k]] {
      PathEdgesDistinct(t, f, r, ord, j, k);
    }
  }

  lemma PathEnds(t: Task, f: Fields, r: seq<int>, ord: seq<int>)
    requires t.g.Valid() && Marking(t.g, t.eul) && Ranking(t.g, r) && f.Shape(t.g.n)
    requires HangingPath(t, f, r, ord)
    ensures |ord| >= 2 && ord[0] == t.p && ord[|ord| - 1] == t.s
    ensures forall j :: 1 <= j < |ord| ==> 0 <= ord[j] < t.g.n && 0 <= f.paredge[ord[j]] < t.g.M()
  {
    forall j | 1 <= j < |ord| ensures 0 <= ord[j] < t.g.n && 0 <= f.paredge[ord[j]] < t.g.M() {
      assert Hangs(t, f, r, ord[j]);
    }
  }

  /** All that the rest of `relief` needs from a finished search; `r` are the ranks about to be installed. */
  ghost predicate Outcome(t: Task, st: Search, r: seq<int>)
    requires t.Valid() && st.f.Shape(t.g.n)
  {
    && st.cur + 1 == st.bound
    && Distinct(st.visited) && (forall k :: 0 <= k < |st.visited| ==> 0 <= st.visited[k] < t.g.n)
    && (forall k :: 0 <= k < |st.nl| ==> 0 <= st.nl[k] < t.g.n)
    && Ranking(t.g, r)
    && (forall v :: 0 <= v < t.g.n ==> r[v] >= t.rank[v])
    && (forall v :: 0 <= v < t.g.n && v !in st.nl ==> r[v] == t.rank[v] && st.f.diff[v] == 0)
    && Increasing(t.g, t.eul, r)
    && (forall e :: 0 <= e < t.g.M() && t.eul[e] ==> EdgeSlack(t.g, r, e) <= EdgeSlack(t.g, t.rank, e))
    && Slack(r, t.p, t.s) == st.bound
    && (st.bound > 0 ==> HangingPath(t, st.f, r, st.visited + [t.s]))
  }

  lemma DoneLists(t: Task, st: Search)
    requires Done(t, st)
    ensures Distinct(st.visited) && forall k :: 0 <= k < |st.visited| ==> 0 <= st.visited[k] < t.g.n
    ensures forall k :: 0 <= k < |st.nl| ==> 0 <= st.nl[k] < t.g.n
  {
    hide Falling, Fields.Fringe, Fields.SettledFor, Fields.Ends, Fields.Reached, Buckets;
    forall k | 0 <= k < |st.nl| ensures 0 <= st.nl[k] < t.g.n { assert st.nl[k] in st.nl; }
  }

  lemma DoneUntouched(t: Task, st: Search)
    requires Done(t, st)
    ensures var r := Shifted(st.f.newrank, st.visited, st.bound);
      |r| == t.g.n && forall v :: 0 <= v < t.g.n && v !in st.nl ==> r[v] == t.rank[v] && st.f.diff[v] == 0
  {
    DoneRanks(t, st);
    hide Falling, Fields.Fringe, Fields.SettledFor, Fields.Ends, Fields.Tree, Buckets, Shifted;
  }

  lemma SearchOutcome(t: Task, st: Search)
    requires Done(t, st)
    ensures Outcome(t, st, Shifted(st.f.newrank, st.visited, st.bound))
  {
    var r := Shifted(st.f.newrank, st.visited, st.bound);
    hide Search.Base, HangingPath, Increasing, EdgeSlack, Distinct, Shifted, Fields.SettledFor;
    DoneFacts(t, st);
    DoneLists(t, st);
    DoneUntouched(t, st);
    DoneRanks(t, st);
    DoneEdges(t, st, r);
    if st.bound > 0 { DonePath(t, st, r); }
    DoneShape(t, st);
  }

  lemma DoneShape(t: Task, st: Search)
    requires Done(t, st)
    ensures t.Valid() && st.f.Shape(t.g.n)
  {
  }

  /** The path depends on the links only. */
  lemma SameLinksSamePath(t: Task, f: Fields, f': Fields, r: seq<int>, ord: seq<int>)
    requires t.g.Valid() && Marking(t.g, t.eul) && Ranking(t.g, r) && f.Shape(t.g.n) && f'.Shape(t.g.n)
    requires f.parent == f'.parent && f.paredge == f'.paredge && HangingPath(t, f, r, ord)
    ensures HangingPath(t, f', r, ord)
  {
    forall k | 1 <= k < |ord| ensures Hangs(t, f', r, ord[k]) && f'.parent[ord[k]] in ord[..k] {
      assert Hangs(t, f, r, ord[k]);
    }
  }
}
