/** How the simulator divides routers, links and endpoints among its threads. */
module ThreadBlocks {
  import opened Lists
  import opened Radix

  /** The three parallel phases of a simulated clock edge. */
  datatype Phase = Eval | Copy | Update

  /** The actions of the phases, on an endpoint, a router, or a row of the link table. */
  datatype Op = ResetEndpoint | ResetRouter | EvalRouter | EvalEndpoint | Connect | Attach | UpdateRouter

  datatype Task = Task(op: Op, node: nat)

  /** The loops of a phase, in order. */
  function Ops(q: Phase): seq<Op> {
    match q
    case Eval => [ResetEndpoint, ResetRouter, EvalRouter, EvalEndpoint]
    case Copy => [Connect, Attach]
    case Update => [UpdateRouter]
  }

  /** Routers, endpoints, and the upper router of each row of the link table. */
  datatype Config = Config(nr: nat, ne: nat, rows: seq<nat>, threads: nat)
  {
    ghost predicate Valid() {
      threads > 0 && forall i :: 0 <= i < |rows| ==> rows[i] < nr
    }
  }

  /** Nodes per thread, rounded up. */
  function PerThread(count: nat, threads: nat): nat
    requires threads > 0
  {
    if Mod(count, threads) != 0 then Div(count, threads) + 1 else Div(count, threads)
  }

  /** The nodes of thread `n`: its block, cut off at the last node. */
  function Block(count: nat, threads: nat, n: nat): (s: seq<nat>)
    requires threads > 0
  {
    var per := PerThread(count, threads);
    var from := Mul(n, per);
    seq(if from >= count then 0 else if from + per <= count then per else count - from, i requires 0 <= i => from + i)
  }

  /** The rows thread `n` copies: those whose upper router is in its block, uncut. */
  function RowsFrom(c: Config, n: nat, i: nat): seq<nat>
    requires c.threads > 0
    decreases |c.rows| - i
  {
    if i >= |c.rows| then []
    else
      var per := PerThread(c.nr, c.threads);
      (if Mul(n, per) <= c.rows[i] < Mul(n + 1, per) then [i] else []) + RowsFrom(c, n, i + 1)
  }

  predicate OnEndpoints(op: Op) { op == ResetEndpoint || op == EvalEndpoint || op == Attach }

  /** How many nodes an action has to be done for. */
  function Limit(c: Config, op: Op): nat {
    if OnEndpoints(op) then c.ne else if op == Connect then |c.rows| else c.nr
  }

  /** The nodes thread `n` does an action for. */
  function Nodes(c: Config, op: Op, n: nat): seq<nat>
    requires c.threads > 0
  {
    if OnEndpoints(op) then Block(c.ne, c.threads, n)
    else if op == Connect then RowsFrom(c, n, 0)
    else Block(c.nr, c.threads, n)
  }

  function Each(op: Op, nodes: seq<nat>): seq<Task> {
    seq(|nodes|, i requires 0 <= i < |nodes| => Task(op, nodes[i]))
  }

  function ItemsOf(c: Config, ops: seq<Op>, n: nat): seq<Task>
    requires c.threads > 0
  {
    if ops == [] then [] else Each(ops[0], Nodes(c, ops[0], n)) + ItemsOf(c, ops[1..], n)
  }

  /** What thread `n` does in a phase, in its order. */
  function Items(c: Config, q: Phase, n: nat): seq<Task>
    requires c.threads > 0
  {
    ItemsOf(c, Ops(q), n)
  }

  /** A task of the phase: reset and evaluation of every endpoint and every router; the copy of every row of the link
      table and of every endpoint's connection; the update of every router. */
  predicate Due(c: Config, q: Phase, t: Task) {
    match q
    case Eval =>
      || ((t.op == ResetEndpoint || t.op == EvalEndpoint) && t.node < c.ne)
      || ((t.op == ResetRouter || t.op == EvalRouter) && t.node < c.nr)
    case Copy => (t.op == Connect && t.node < |c.rows|) || (t.op == Attach && t.node < c.ne)
    case Update => t.op == UpdateRouter && t.node < c.nr
  }

  lemma DueOps(c: Config, q: Phase, t: Task)
    ensures Due(c, q, t) <==> t.op in Ops(q) && t.node < Limit(c, t.op)
  {
  }

  /** The thread whose block a task is in. */
  function Owner(c: Config, t: Task): nat
    requires c.Valid() && t.node < Limit(c, t.op)
  {
    if OnEndpoints(t.op) then BlockOf(c.ne, c.threads, t.node)
    else if t.op == Connect then BlockOf(c.nr, c.threads, c.rows[t.node])
    else BlockOf(c.nr, c.threads, t.node)
  }

  function BlockOf(count: nat, threads: nat, x: nat): nat
    requires threads > 0 && x < count
  {
    PerPositive(count, threads);
    Div(x, PerThread(count, threads))
  }

  lemma PerPositive(count: nat, threads: nat)
    requires threads > 0
    ensures Mul(threads, PerThread(count, threads)) >= count && (count > 0 ==> PerThread(count, threads) > 0)
  {
    hide Mul, Div, Mod;
    var q, r := Div(count, threads), Mod(count, threads);
    DivMod(count, threads);
    MulAdd(threads, q, 1);
    MulUnits(threads);
  }

  /** Every node is in exactly one block, that of its quotient. */
  lemma BlockIff(count: nat, threads: nat, n: nat, x: nat)
    requires threads > 0 && x < count
    ensures x in Block(count, threads, n) <==> BlockOf(count, threads, x) == n
    ensures BlockOf(count, threads, x) < threads
    ensures Mul(n, PerThread(count, threads)) <= x < Mul(n + 1, PerThread(count, threads)) <==> BlockOf(count, threads, x) == n
  {
    hide Mul, Div, Mod;
    var per := PerThread(count, threads);
    var from := Mul(n, per);
    PerPositive(count, threads);
    MulComm(threads, per);
    QuotientBelow(x, per, threads);
    MulComm(n, per);
    MulComm(n + 1, per);
    MulAdd(per, n, 1);
    MulUnits(per);
    DivMod(x, per);
    hide PerThread;
    if from <= x < from + per {
      DivModUnique(x, per, n, x - from);
      assert Block(count, threads, n)[x - from] == x;
    }
  }

  lemma BlockDistinct(count: nat, threads: nat, n: nat)
    requires threads > 0
    ensures Distinct(Block(count, threads, n)) && forall x :: x in Block(count, threads, n) ==> x < count
  {
    hide Mul, PerThread;
  }

  lemma {:induction false} RowsIff(c: Config, n: nat, i: nat, x: nat)
    requires c.Valid()
    ensures x in RowsFrom(c, n, i) <==> i <= x < |c.rows| && BlockOf(c.nr, c.threads, c.rows[x]) == n
    ensures Distinct(RowsFrom(c, n, i))
    decreases |c.rows| - i
  {
    hide Mul, PerThread, BlockOf;
    if i < |c.rows| {
      RowsIff(c, n, i + 1, x);
      RowsIff(c, n, i + 1, i);
      BlockIff(c.nr, c.threads, n, c.rows[i]);
      var rest := RowsFrom(c, n, i + 1);
      assert i !in rest;
      forall j | 0 <= j < |rest| ensures rest[j] != i { assert rest[j] in rest; }
    }
  }

  /** A thread's nodes for an action are exactly those it owns, each once. */
  lemma NodesIff(c: Config, op: Op, n: nat, x: nat)
    requires c.Valid()
    ensures x in Nodes(c, op, n) <==> x < Limit(c, op) && Owner(c, Task(op, x)) == n
    ensures x < Limit(c, op) ==> Owner(c, Task(op, x)) < c.threads
    ensures Distinct(Nodes(c, op, n))
  {
    hide Block, BlockOf, RowsFrom, Distinct;
    if op == Connect {
      RowsIff(c, n, 0, x);
      if x < |c.rows| { BlockIff(c.nr, c.threads, n, c.rows[x]); }
    } else {
      var count := Limit(c, op);
      BlockDistinct(count, c.threads, n);
      if x < count { BlockIff(count, c.threads, n, x); }
    }
  }

  lemma EachIff(op: Op, nodes: seq<nat>, t: Task)
    ensures t in Each(op, nodes) <==> t.op == op && t.node in nodes
    ensures Distinct(nodes) ==> Distinct(Each(op, nodes))
  {
    if t.op == op && t.node in nodes {
      var i :| 0 <= i < |nodes| && nodes[i] == t.node;
      assert Each(op, nodes)[i] == t;
    }
  }

  lemma {:induction false} ItemsOfIff(c: Config, ops: seq<Op>, n: nat, t: Task)
    requires c.Valid() && Distinct(ops)
    ensures t in ItemsOf(c, ops, n) <==> t.op in ops && t.node < Limit(c, t.op) && Owner(c, t) == n
    ensures Distinct(ItemsOf(c, ops, n))
  {
    hide Nodes, Owner, Each, Limit;
    if ops != [] {
      var nodes, rest := Nodes(c, ops[0], n), ItemsOf(c, ops[1..], n);
      NodesIff(c, ops[0], n, t.node);
      EachIff(ops[0], nodes, t);
      ItemsOfIff(c, ops[1..], n, t);
      assert ops == [ops[0]] + ops[1..];
      forall u | u in Each(ops[0], nodes) ensures u !in rest {
        EachIff(ops[0], nodes, u);
        ItemsOfIff(c, ops[1..], n, u);
        assert ops[0] !in ops[1..];
      }
      NoDupConcat(Each(ops[0], nodes), rest);
    }
  }

  lemma NoDupConcat<T>(s: seq<T>, t: seq<T>)
    requires Distinct(s) && Distinct(t) && forall x :: x in s ==> x !in t
    ensures Distinct(s + t)
  {
    forall i, j | 0 <= i < j < |s + t| ensures (s + t)[i] != (s + t)[j] {
      if i < |s| <= j { assert s[i] in s && t[j - |s|] in t; }
    }
  }

  /** For every number of threads, the lists of a phase cover each task exactly once. */
  lemma ItemsPartition(c: Config, q: Phase, n: nat, t: Task)
    requires c.Valid()
    ensures t in Items(c, q, n) <==> Due(c, q, t) && Owner(c, t) == n
    ensures Due(c, q, t) ==> Owner(c, t) < c.threads
    ensures Distinct(Items(c, q, n))
  {
    hide Nodes, Each;
    assert Distinct(Ops(q));
    ItemsOfIff(c, Ops(q), n, t);
    DueOps(c, q, t);
    if Due(c, q, t) { NodesIff(c, t.op, n, t.node); }
  }

  /** The reset that an evaluation needs. */
  function ResetOf(op: Op): Op { if op == EvalEndpoint then ResetEndpoint else ResetRouter }

  lemma EvalItems(c: Config, n: nat)
    requires c.threads > 0
    ensures var es, rs := Block(c.ne, c.threads, n), Block(c.nr, c.threads, n);
      Items(c, Eval, n) == Each(ResetEndpoint, es) + Each(ResetRouter, rs) + Each(EvalRouter, rs) + Each(EvalEndpoint, es)
  {
    hide Block, Each, ItemsOf;
    ItemsOfStep(c, ResetEndpoint, [ResetRouter, EvalRouter, EvalEndpoint], n);
    ItemsOfStep(c, ResetRouter, [EvalRouter, EvalEndpoint], n);
    ItemsOfStep(c, EvalRouter, [EvalEndpoint], n);
    ItemsOfStep(c, EvalEndpoint, [], n);
    assert Ops(Eval) == [ResetEndpoint] + [ResetRouter, EvalRouter, EvalEndpoint];
    assert [ResetRouter] + [EvalRouter, EvalEndpoint] == [ResetRouter, EvalRouter, EvalEndpoint];
    assert [EvalRouter] + [EvalEndpoint] == [EvalRouter, EvalEndpoint] && [EvalEndpoint] + [] == [EvalEndpoint];
  }

  lemma ItemsOfStep(c: Config, op: Op, ops: seq<Op>, n: nat)
    requires c.threads > 0
    ensures ItemsOf(c, [op] + ops, n) == Each(op, Nodes(c, op, n)) + ItemsOf(c, ops, n)
    ensures ItemsOf(c, [], n) == []
  {
    hide Nodes, Each;
    assert ([op] + ops)[1..] == ops;
  }

  /** A thread resets a node before it evaluates it. */
  lemma ResetEarlier(c: Config, n: nat, k: nat)
    requires c.threads > 0 && k < |Items(c, Eval, n)|
    requires Items(c, Eval, n)[k].op in {EvalRouter, EvalEndpoint}
    ensures var x := Items(c, Eval, n)[k]; exists j :: 0 <= j < k && Items(c, Eval, n)[j] == Task(ResetOf(x.op), x.node)
  {
    EvalItems(c, n);
    hide Block, Items;
    var es, rs := Block(c.ne, c.threads, n), Block(c.nr, c.threads, n);
    var j := if k < |es| + 2 * |rs| then k - |rs| else k - |es| - 2 * |rs|;
    assert k >= |es| + |rs|;
    assert 0 <= j < k && Items(c, Eval, n)[j] == Task(ResetOf(Items(c, Eval, n)[k].op), Items(c, Eval, n)[k].node);
  }
}
