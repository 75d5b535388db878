/** The packets of a netrace run: where each one is, and what every reachable state satisfies. */
module NetraceWorld {
  import opened NetQueue

  /** A packet of the trace; `deps` are the ids of later packets that wait for it. */
  datatype Packet = Packet(cycle: nat, id: nat, src: nat, dst: nat, deps: seq<nat>)

  /** Ids and cycles are in order, dependencies point to later packets, nodes exist. */
  ghost predicate WellFormed(trace: seq<Packet>, nodes: nat) {
    && (forall i, j :: 0 <= i < j < |trace| ==> trace[i].id < trace[j].id && trace[i].cycle <= trace[j].cycle)
    && (forall i, d :: 0 <= i < |trace| && d in trace[i].deps ==> d > trace[i].id)
    && (forall i :: 0 <= i < |trace| ==> trace[i].src < nodes && trace[i].dst < nodes)
  }

  /** The life of a packet: in the trace, waiting for others, in the injection queue, in the network, freed. */
  datatype Stage = Unplaced | Waiting | Queued | Flying | Gone

  /** A packet enters the network from the injection queue of a node, or leaves it from the traverse queue of one. */
  datatype Event = Injected(packet: nat, node: nat, cycle: int) | Ejected(packet: nat, node: nat, cycle: int)

  type Queues = seq<seq<Entry<nat>>>

  datatype World = World(waiting: Queues, inject: Queues, traverse: Queues, stage: seq<Stage>, log: seq<Event>)

  // ---------- queues and stages ----------

  ghost function Elems(q: seq<Entry<nat>>): set<nat> { set e | e in q :: e.elem }

  /** No packet is in the queue twice. */
  ghost predicate EachOnce(q: seq<Entry<nat>>) {
    forall i, j :: 0 <= i < j < |q| ==> q[i].elem != q[j].elem
  }

  function Home(trace: seq<Packet>, s: Stage, i: nat): nat
    requires i < |trace|
  {
    if s == Flying then trace[i].dst else trace[i].src
  }

  ghost function InStage(trace: seq<Packet>, stage: seq<Stage>, s: Stage, n: nat): set<nat>
    requires |stage| == |trace|
  {
    set i | 0 <= i < |stage| && stage[i] == s && Home(trace, s, i) == n
  }

  /** The queues of a stage hold exactly its packets, each at its node, each once. */
  ghost predicate Holds(qs: Queues, trace: seq<Packet>, stage: seq<Stage>, s: Stage)
    requires |stage| == |trace|
  {
    forall n :: 0 <= n < |qs| ==> EachOnce(qs[n]) && Elems(qs[n]) == InStage(trace, stage, s, n)
  }

  lemma ElemAt(q: seq<Entry<nat>>, i: nat)
    requires i < |q|
    ensures q[i].elem in Elems(q)
  {
    assert q[i] in q;
  }

  lemma PushedElems(q: seq<Entry<nat>>, x: nat, prio: nat)
    requires EachOnce(q) && x !in Elems(q)
    ensures EachOnce(Pushed(q, x, prio)) && Elems(Pushed(q, x, prio)) == Elems(q) + {x}
  {
    hide Place, EachOnce;
    var k, e := Place(q, prio), Entry(x, prio);
    ElemsConcat(q[..k], q[k..]);
    ElemsConcat(q[..k], [e]);
    ElemsConcat(q[..k] + [e], q[k..]);
    assert q == q[..k] + q[k..];
    forall i | 0 <= i < |q| ensures q[i].elem != x { ElemAt(q, i); }
    hide Elems;
    InsertOnce(q, k, e);
  }

  lemma InsertOnce(q: seq<Entry<nat>>, k: nat, e: Entry<nat>)
    requires EachOnce(q) && k <= |q| && forall i :: 0 <= i < |q| ==> q[i].elem != e.elem
    ensures EachOnce(q[..k] + [e] + q[k..])
  {
    var r := q[..k] + [e] + q[k..];
    forall i | 0 <= i < |r| ensures r[i] == (if i < k then q[i] else if i == k then e else q[i - 1]) {
    }
  }

  lemma ElemsConcat(s: seq<Entry<nat>>, t: seq<Entry<nat>>)
    ensures Elems(s + t) == Elems(s) + Elems(t)
    ensures |t| == 1 ==> Elems(t) == {t[0].elem}
  {
    if |t| == 1 { assert t == [t[0]]; }
  }

  lemma PoppedElems(q: seq<Entry<nat>>)
    requires EachOnce(q) && q != []
    ensures EachOnce(q[1..]) && Elems(q[1..]) == Elems(q) - {q[0].elem}
  {
    assert q == [q[0]] + q[1..];
  }

  lemma RemovedElems(q: seq<Entry<nat>>, x: nat)
    requires EachOnce(q) && x in Elems(q)
    ensures EachOnce(Removed(q, x)) && Elems(Removed(q, x)) == Elems(q) - {x}
  {
    hide Find;
    var k, r := Find(q, x), Removed(q, x);
    var e :| e in q && e.elem == x;
    var m :| 0 <= m < |q| && q[m] == e;
    assert k < |q|;
    forall i | 0 <= i < |r| ensures r[i] == q[if i < k then i else i + 1] {
    }
    forall f | f in q && f.elem != x ensures f in r {
      var i :| 0 <= i < |q| && q[i] == f;
      assert r[if i < k then i else i - 1] == f;
    }
    assert forall f :: f in r ==> f in q && f.elem != x;
  }

  /** Packet `i` goes from stage `s` elsewhere. */
  lemma LeaveHolds(qs: Queues, trace: seq<Packet>, stage: seq<Stage>, s: Stage, i: nat, s': Stage, q: seq<Entry<nat>>)
    requires |stage| == |trace| && Holds(qs, trace, stage, s) && i < |trace| && stage[i] == s != s'
    requires Home(trace, s, i) < |qs| && EachOnce(q) && Elems(q) == Elems(qs[Home(trace, s, i)]) - {i}
    ensures Holds(qs[Home(trace, s, i) := q], trace, stage[i := s'], s)
  {
    hide EachOnce, Elems;
    forall n | 0 <= n < |qs| ensures InStage(trace, stage[i := s'], s, n) == InStage(trace, stage, s, n) - {i} {
    }
    forall n | 0 <= n < |qs| && n != Home(trace, s, i) ensures i !in InStage(trace, stage, s, n) {
    }
  }

  /** Packet `i` comes to stage `s'` from elsewhere. */
  lemma EnterHolds(qs: Queues, trace: seq<Packet>, stage: seq<Stage>, i: nat, s': Stage, q: seq<Entry<nat>>)
    requires |stage| == |trace| && Holds(qs, trace, stage, s') && i < |trace| && stage[i] != s'
    requires Home(trace, s', i) < |qs| && EachOnce(q) && Elems(q) == Elems(qs[Home(trace, s', i)]) + {i}
    ensures Holds(qs[Home(trace, s', i) := q], trace, stage[i := s'], s')
  {
    hide EachOnce, Elems;
    var h := Home(trace, s', i);
    forall n | 0 <= n < |qs|
      ensures InStage(trace, stage[i := s'], s', n) == InStage(trace, stage, s', n) + if n == h then {i} else {}
    {
    }
  }

  lemma OtherHolds(qs: Queues, trace: seq<Packet>, stage: seq<Stage>, s: Stage, i: nat, s': Stage)
    requires |stage| == |trace| && Holds(qs, trace, stage, s) && i < |trace| && stage[i] != s && s' != s
    ensures Holds(qs, trace, stage[i := s'], s)
  {
    hide EachOnce, Elems;
    forall n | 0 <= n < |qs| ensures InStage(trace, stage[i := s'], s, n) == InStage(trace, stage, s, n) {
    }
  }

  /** A packet is in the queue its stage says. */
  lemma NotHeld(qs: Queues, trace: seq<Packet>, stage: seq<Stage>, s: Stage, i: nat, n: nat)
    requires |stage| == |trace| && Holds(qs, trace, stage, s) && i < |trace| && stage[i] != s && n < |qs|
    ensures i !in Elems(qs[n])
  {
  }

  // ---------- dependencies ----------

  /** Packet `j` must be freed before packet `i` may go. */
  ghost predicate Names(trace: seq<Packet>, j: nat, i: nat)
    requires j < |trace| && i < |trace|
  {
    trace[i].id in trace[j].deps
  }

  /** Every packet that names packet `i` has been freed. */
  ghost predicate Released(trace: seq<Packet>, stage: seq<Stage>, i: nat)
    requires |stage| == |trace| && i < |trace|
  {
    forall j :: 0 <= j < |trace| && Names(trace, j, i) ==> stage[j] == Gone
  }

  ghost predicate Shape(trace: seq<Packet>, nodes: nat, w: World) {
    |w.stage| == |trace| && |w.waiting| == |w.inject| == |w.traverse| == nodes
  }

  ghost predicate Safe(trace: seq<Packet>, stage: seq<Stage>)
    requires |stage| == |trace|
  {
    forall i :: 0 <= i < |trace| && stage[i] != Unplaced && stage[i] != Waiting ==> Released(trace, stage, i)
  }

  /** No packet has left the waiting queues before every packet that names it was freed. */
  ghost predicate Inv(trace: seq<Packet>, nodes: nat, w: World) {
    && WellFormed(trace, nodes) && Shape(trace, nodes, w)
    && Holds(w.waiting, trace, w.stage, Waiting) && Holds(w.inject, trace, w.stage, Queued)
    && Holds(w.traverse, trace, w.stage, Flying)
    && Safe(trace, w.stage)
  }

  lemma SafeStep(trace: seq<Packet>, stage: seq<Stage>, i: nat, s: Stage)
    requires |stage| == |trace| && Safe(trace, stage) && i < |trace| && stage[i] != Gone
    requires s != Unplaced && s != Waiting ==> Released(trace, stage, i)
    ensures Safe(trace, stage[i := s])
  {
  }

  lemma NodesExist(trace: seq<Packet>, nodes: nat, i: nat)
    requires WellFormed(trace, nodes) && i < |trace|
    ensures trace[i].src < nodes && trace[i].dst < nodes
  {
  }

  lemma HoldsOnce(qs: Queues, trace: seq<Packet>, stage: seq<Stage>, s: Stage, n: nat)
    requires |stage| == |trace| && Holds(qs, trace, stage, s) && n < |qs|
    ensures EachOnce(qs[n])
  {
  }

  lemma SafeReleased(trace: seq<Packet>, stage: seq<Stage>, i: nat)
    requires |stage| == |trace| && Safe(trace, stage) && i < |trace| && stage[i] != Unplaced && stage[i] != Waiting
    ensures Released(trace, stage, i)
  {
  }

  lemma ReleasedGone(trace: seq<Packet>, stage: seq<Stage>, i: nat, j: nat)
    requires |stage| == |trace| && i < |trace| && j < |trace| && Released(trace, stage, i) && Names(trace, j, i)
    ensures stage[j] == Gone
  {
  }

  /** The oldest packet that is placed and not freed is never blocked. */
  lemma OldestFree(trace: seq<Packet>, nodes: nat, stage: seq<Stage>, i: nat)
    requires WellFormed(trace, nodes) && |stage| == |trace| && i < |trace|
    requires forall j :: 0 <= j < i ==> stage[j] == Gone
    ensures Released(trace, stage, i)
  {
  }

  /** If no waiting packet may go and nothing is on its way, every placed packet has been freed. */
  lemma NoneStuck(trace: seq<Packet>, nodes: nat, w: World, placed: nat)
    requires Inv(trace, nodes, w) && placed <= |trace|
    requires forall i :: 0 <= i < |trace| ==> (w.stage[i] == Unplaced <==> i >= placed)
    requires forall i :: 0 <= i < |trace| && w.stage[i] == Waiting ==> !Released(trace, w.stage, i)
    requires forall n :: 0 <= n < nodes ==> w.inject[n] == [] && w.traverse[n] == []
    ensures forall i :: 0 <= i < placed ==> w.stage[i] == Gone
  {
    var i := 0;
    while i < placed
      invariant i <= placed && forall j :: 0 <= j < i ==> w.stage[j] == Gone
    {
      OldestFree(trace, nodes, w.stage, i);
      Absent(w.inject, trace, w.stage, Queued, i);
      Absent(w.traverse, trace, w.stage, Flying, i);
      i := i + 1;
    }
  }

  lemma Absent(qs: Queues, trace: seq<Packet>, stage: seq<Stage>, s: Stage, i: nat)
    requires |stage| == |trace| && Holds(qs, trace, stage, s) && i < |trace| && Home(trace, s, i) < |qs|
    requires qs[Home(trace, s, i)] == []
    ensures stage[i] != s
  {
    assert (stage[i] == s) == (i in InStage(trace, stage, s, Home(trace, s, i)));
  }

  // ---------- the grid ----------

  datatype Grid = Grid(nodes: nat, xNodes: nat, latency: nat)

  function Abs(n: int): nat { if n < 0 then -n else n }

  /** `calc_packet_timing`: router latency times the hops of the grid, at least one. */
  function Timing(g: Grid, p: Packet): nat
    requires g.xNodes > 0
  {
    var hops := Abs(p.src % g.xNodes - p.dst % g.xNodes) + Abs(p.src / g.xNodes - p.dst / g.xNodes);
    g.latency * if hops == 0 then 1 else hops
  }

  // ---------- steps ----------

  /** Packet `i` is read from the trace into a queue of its source. */
  function Place1(trace: seq<Packet>, w: World, i: nat, prio: nat, cleared: bool): World
    requires i < |trace| && i < |w.stage| && trace[i].src < |w.waiting| == |w.inject|
  {
    var n := trace[i].src;
    if cleared then w.(inject := w.inject[n := Pushed(w.inject[n], i, prio)], stage := w.stage[i := Queued])
    else w.(waiting := w.waiting[n := Pushed(w.waiting[n], i, prio)], stage := w.stage[i := Waiting])
  }

  lemma PlaceInv(trace: seq<Packet>, nodes: nat, w: World, i: nat, prio: nat, cleared: bool)
    requires Inv(trace, nodes, w) && i < |trace| && w.stage[i] == Unplaced
    requires cleared ==> Released(trace, w.stage, i)
    ensures Inv(trace, nodes, Place1(trace, w, i, prio, cleared))
  {
    hide Holds, Safe, Pushed, Released, WellFormed, Elems, EachOnce;
    NodesExist(trace, nodes, i);
    var n, s, qs := trace[i].src, if cleared then Queued else Waiting, if cleared then w.inject else w.waiting;
    NotHeld(qs, trace, w.stage, s, i, n);
    HoldsOnce(qs, trace, w.stage, s, n);
    PushedElems(qs[n], i, prio);
    EnterHolds(qs, trace, w.stage, i, s, Pushed(qs[n], i, prio));
    if cleared { OtherHolds(w.waiting, trace, w.stage, Waiting, i, s); } else { OtherHolds(w.inject, trace, w.stage, Queued, i, s); }
    OtherHolds(w.traverse, trace, w.stage, Flying, i, s);
    SafeStep(trace, w.stage, i, s);
  }

  /** The head of injection queue `n` enters the network. */
  function Inject1(trace: seq<Packet>, g: Grid, w: World, n: nat, cycle: nat): World
    requires n < |w.inject| && w.inject[n] != [] && g.xNodes > 0
    requires var i := w.inject[n][0].elem; i < |trace| && i < |w.stage| && trace[i].dst < |w.traverse|
  {
    var i := w.inject[n][0].elem;
    var d := trace[i].dst;
    w.(inject := w.inject[n := w.inject[n][1..]],
       traverse := w.traverse[d := Pushed(w.traverse[d], i, cycle + Timing(g, trace[i]))],
       stage := w.stage[i := Flying], log := w.log + [Injected(i, n, cycle)])
  }

  /** The head of a queue is a packet of the queue's stage and node. */
  lemma HeadKnown(qs: Queues, trace: seq<Packet>, stage: seq<Stage>, s: Stage, n: nat)
    requires |stage| == |trace| && Holds(qs, trace, stage, s) && n < |qs| && qs[n] != []
    ensures var i := qs[n][0].elem; i < |trace| && stage[i] == s && Home(trace, s, i) == n && EachOnce(qs[n])
  {
    ElemAt(qs[n], 0);
    assert qs[n][0].elem in InStage(trace, stage, s, n);
  }

  lemma InjectInv(trace: seq<Packet>, g: Grid, w: World, n: nat, cycle: nat)
    requires Inv(trace, g.nodes, w) && n < g.nodes && w.inject[n] != [] && g.xNodes > 0
    ensures w.inject[n][0].elem < |trace| && trace[w.inject[n][0].elem].dst < g.nodes
    ensures Inv(trace, g.nodes, Inject1(trace, g, w, n, cycle))
  {
    hide Holds, Safe, Pushed, Released, WellFormed, Elems, EachOnce, Timing;
    HeadKnown(w.inject, trace, w.stage, Queued, n);
    var i, q := w.inject[n][0].elem, w.inject[n];
    var d, prio := trace[i].dst, cycle + Timing(g, trace[i]);
    NodesExist(trace, g.nodes, i);
    PoppedElems(q);
    LeaveHolds(w.inject, trace, w.stage, Queued, i, Flying, q[1..]);
    NotHeld(w.traverse, trace, w.stage, Flying, i, d);
    HoldsOnce(w.traverse, trace, w.stage, Flying, d);
    PushedElems(w.traverse[d], i, prio);
    EnterHolds(w.traverse, trace, w.stage, i, Flying, Pushed(w.traverse[d], i, prio));
    OtherHolds(w.waiting, trace, w.stage, Waiting, i, Flying);
    SafeReleased(trace, w.stage, i);
    SafeStep(trace, w.stage, i, Flying);
  }

  /** The head of traverse queue `n` leaves the network and is freed. */
  function Eject1(w: World, n: nat, cycle: nat): World
    requires n < |w.traverse| && w.traverse[n] != [] && w.traverse[n][0].elem < |w.stage|
  {
    var i := w.traverse[n][0].elem;
    w.(traverse := w.traverse[n := w.traverse[n][1..]], stage := w.stage[i := Gone], log := w.log + [Ejected(i, n, cycle)])
  }

  lemma EjectInv(trace: seq<Packet>, nodes: nat, w: World, n: nat, cycle: nat)
    requires Inv(trace, nodes, w) && n < nodes && w.traverse[n] != []
    ensures w.traverse[n][0].elem < |trace|
    ensures Inv(trace, nodes, Eject1(w, n, cycle))
  {
    hide Holds, Safe, Released, WellFormed, Elems, EachOnce;
    HeadKnown(w.traverse, trace, w.stage, Flying, n);
    var i, q := w.traverse[n][0].elem, w.traverse[n];
    PoppedElems(q);
    LeaveHolds(w.traverse, trace, w.stage, Flying, i, Gone, q[1..]);
    OtherHolds(w.waiting, trace, w.stage, Waiting, i, Gone);
    OtherHolds(w.inject, trace, w.stage, Queued, i, Gone);
    SafeReleased(trace, w.stage, i);
    SafeStep(trace, w.stage, i, Gone);
  }

  /** Packet `i` stops waiting. */
  function Wake1(w: World, n: nat, i: nat, prio: nat): World
    requires n < |w.waiting| && n < |w.inject| && i < |w.stage|
  {
    w.(waiting := w.waiting[n := Removed(w.waiting[n], i)], inject := w.inject[n := Pushed(w.inject[n], i, prio)],
       stage := w.stage[i := Queued])
  }

  lemma WakeInv(trace: seq<Packet>, nodes: nat, w: World, n: nat, i: nat, prio: nat)
    requires Inv(trace, nodes, w) && n < nodes && i in Elems(w.waiting[n])
    requires i < |trace| ==> Released(trace, w.stage, i)
    ensures i < |trace| && w.stage[i] == Waiting && Inv(trace, nodes, Wake1(w, n, i, prio))
  {
    hide Safe, Pushed, Removed, Released, WellFormed, Elems, EachOnce;
    assert i in InStage(trace, w.stage, Waiting, n);
    hide Holds;
    NotHeld(w.inject, trace, w.stage, Queued, i, n);
    HoldsOnce(w.inject, trace, w.stage, Queued, n);
    HoldsOnce(w.waiting, trace, w.stage, Waiting, n);
    RemovedElems(w.waiting[n], i);
    PushedElems(w.inject[n], i, prio);
    LeaveHolds(w.waiting, trace, w.stage, Waiting, i, Queued, Removed(w.waiting[n], i));
    EnterHolds(w.inject, trace, w.stage, i, Queued, Pushed(w.inject[n], i, prio));
    OtherHolds(w.traverse, trace, w.stage, Flying, i, Queued);
    SafeStep(trace, w.stage, i, Queued);
  }
}
