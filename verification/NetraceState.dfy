/** The whole state of a netrace run, and its steps. */
module NetraceState {
  import opened NetQueue
  import opened DependencyTable
  import opened NetraceWorld
  import opened NetraceRefs
  import opened NetraceLog

  const L2_LATENCY := 8

  /** `placed` packets have been put into queues; one packet more has been read, while there is one. */
  datatype State = State(w: World, table: map<nat, Info>, placed: nat, ejected: nat)

  function ReadSoFar(trace: seq<Packet>, placed: nat): nat {
    if placed < |trace| then placed + 1 else placed
  }

  ghost predicate Good(trace: seq<Packet>, g: Grid, s: State) {
    && g.xNodes > 0 && Inv(trace, g.nodes, s.w) && LogInv(trace, g, s.w)
    && s.placed <= |trace| && (forall i :: 0 <= i < |trace| ==> (s.w.stage[i] == Unplaced <==> i >= s.placed))
    && Counted(trace, s.w.stage, ReadSoFar(trace, s.placed), s.table)
    && s.ejected == |Reached(s.w.stage, false)|
    && Ordered(s.w)
  }

  /** Every queue is in order of priority. */
  ghost predicate Ordered(w: World) {
    AllSorted(w.waiting) && AllSorted(w.inject) && AllSorted(w.traverse)
  }

  ghost predicate AllSorted(qs: Queues) {
    forall n :: 0 <= n < |qs| ==> Sorted(qs[n])
  }

  lemma PushAllSorted(qs: Queues, n: nat, elem: nat, prio: nat)
    requires AllSorted(qs) && n < |qs|
    ensures AllSorted(qs[n := Pushed(qs[n], elem, prio)])
  {
    hide Pushed;
    PushSorted(qs[n], elem, prio);
  }

  lemma PopAllSorted(qs: Queues, n: nat)
    requires AllSorted(qs) && n < |qs| && qs[n] != []
    ensures AllSorted(qs[n := qs[n][1..]])
  {
    assert qs[n][..0] + qs[n][1..] == qs[n][1..];
    DropSorted(qs[n], 0);
  }

  lemma RemoveAllSorted(qs: Queues, n: nat, elem: nat)
    requires AllSorted(qs) && n < |qs|
    ensures AllSorted(qs[n := Removed(qs[n], elem)])
  {
    RemoveSorted(qs[n], elem);
  }

  lemma PlaceOrdered(trace: seq<Packet>, w: World, i: nat, prio: nat, cleared: bool)
    requires Ordered(w) && i < |trace| && i < |w.stage| && trace[i].src < |w.waiting| == |w.inject|
    ensures Ordered(Place1(trace, w, i, prio, cleared))
  {
    hide AllSorted, Pushed;
    PushAllSorted(w.inject, trace[i].src, i, prio);
    PushAllSorted(w.waiting, trace[i].src, i, prio);
  }

  lemma InjectOrdered(trace: seq<Packet>, g: Grid, w: World, n: nat, cycle: nat)
    requires Ordered(w) && n < |w.inject| && w.inject[n] != [] && g.xNodes > 0
    requires var i := w.inject[n][0].elem; i < |trace| && i < |w.stage| && trace[i].dst < |w.traverse|
    ensures Ordered(Inject1(trace, g, w, n, cycle))
  {
    hide AllSorted, Pushed, Timing;
    var i := w.inject[n][0].elem;
    PopAllSorted(w.inject, n);
    PushAllSorted(w.traverse, trace[i].dst, i, cycle + Timing(g, trace[i]));
  }

  lemma WakeOrdered(w: World, n: nat, i: nat, prio: nat)
    requires Ordered(w) && n < |w.waiting| && n < |w.inject| && i < |w.stage|
    ensures Ordered(Wake1(w, n, i, prio))
  {
    hide AllSorted, Pushed, Removed;
    RemoveAllSorted(w.waiting, n, i);
    PushAllSorted(w.inject, n, i, prio);
  }

  /** In every state of a run the earliest packet is at the head of its queue: while the head is not due, nothing in
      the queue is. */
  lemma HeadsEarliest(trace: seq<Packet>, g: Grid, s: State, n: nat, now: nat)
    requires Good(trace, g, s) && n < g.nodes
    ensures var q := s.w.inject[n]; (q == [] || q[0].prio > now) <==> forall e :: e in q ==> e.prio > now
    ensures var q := s.w.traverse[n]; (q == [] || q[0].prio > now) <==> forall e :: e in q ==> e.prio > now
  {
    hide Sorted, Inv, LogInv, Counted, Reached;
    assert Shape(trace, g.nodes, s.w) by { GoodShape(trace, g, s); }
    if s.w.inject[n] != [] { HeadEarliest(s.w.inject[n], now); }
    if s.w.traverse[n] != [] { HeadEarliest(s.w.traverse[n], now); }
  }

  lemma GoodShape(trace: seq<Packet>, g: Grid, s: State)
    requires Good(trace, g, s)
    ensures Shape(trace, g.nodes, s.w) && s.placed <= |trace| && g.xNodes > 0 && WellFormed(trace, g.nodes)
  {
  }

  // ---------- what is left to do ----------

  function Weight(s: Stage): nat {
    match s
    case Unplaced => 4
    case Waiting => 3
    case Queued => 2
    case Flying => 1
    case Gone => 0
  }

  ghost function Work(stage: seq<Stage>): nat {
    if stage == [] then 0 else Work(stage[..|stage| - 1]) + Weight(stage[|stage| - 1])
  }

  /** Every step leaves less to do. */
  lemma {:induction false} WorkStep(stage: seq<Stage>, i: nat, s: Stage)
    requires i < |stage|
    ensures Work(stage[i := s]) == Work(stage) - Weight(stage[i]) + Weight(s)
  {
    var m := |stage| - 1;
    if i < m {
      WorkStep(stage[..m], i, s);
      assert stage[i := s][..m] == stage[..m][i := s];
    } else {
      assert stage[i := s][..m] == stage[..m];
    }
  }

  // ---------- steps ----------

  function Cleared(table: map<nat, Info>, p: Packet): bool {
    p.id !in table || table[p.id].refCount == 0
  }

  lemma ClearedCount(table: map<nat, Info>, p: Packet)
    ensures Cleared(table, p) <==> RefOf(table, p.id) == 0
  {
  }

  lemma ReachedSame(stage: seq<Stage>, i: nat, s: Stage)
    requires i < |stage| && stage[i] != Gone && s != Gone
    ensures Reached(stage[i := s], false) == Reached(stage, false)
  {
  }

  lemma ReachedMore(stage: seq<Stage>, i: nat)
    requires i < |stage| && stage[i] != Gone
    ensures Reached(stage[i := Gone], false) == Reached(stage, false) + {i} && i !in Reached(stage, false)
  {
  }

  /** The packet read ahead is put into a queue, and the next one is read. */
  function PlaceStep(trace: seq<Packet>, s: State, prio: nat): State
    requires s.placed < |trace| == |s.w.stage| && trace[s.placed].src < |s.w.waiting| == |s.w.inject|
  {
    State(Place1(trace, s.w, s.placed, prio, Cleared(s.table, trace[s.placed])),
          if s.placed + 1 < |trace| then ReadTable(s.table, trace[s.placed + 1], s.placed + 1) else s.table,
          s.placed + 1, s.ejected)
  }

  lemma PlaceGood(trace: seq<Packet>, g: Grid, s: State, prio: nat)
    requires Good(trace, g, s) && s.placed < |trace|
    ensures trace[s.placed].src < g.nodes && Good(trace, g, PlaceStep(trace, s, prio))
    ensures Work(PlaceStep(trace, s, prio).w.stage) < Work(s.w.stage)
    ensures Cleared(s.table, trace[s.placed]) <==> Released(trace, s.w.stage, s.placed)
  {
    hide Holds, Safe, LogInv, Reached, WellFormed, Released, RefOf, Naming, Pushed, ReadTable, Work, Ordered;
    var i, p := s.placed, trace[s.placed];
    NodesExist(trace, g.nodes, i);
    ClearedReleased(trace, g.nodes, s.w.stage, i + 1, s.table, i);
    ClearedCount(s.table, p);
    var cleared := Cleared(s.table, p);
    hide Counted;
    PlaceInv(trace, g.nodes, s.w, i, prio, cleared);
    PlaceOrdered(trace, s.w, i, prio, cleared);
    var s', w' := if cleared then Queued else Waiting, Place1(trace, s.w, i, prio, cleared);
    QuietLog(trace, g, s.w, w', i, s');
    StageCounted(trace, s.w.stage, i + 1, s.table, i, s');
    if i + 1 < |trace| { ReadCounted(trace, g.nodes, w'.stage, i + 1, s.table); }
    WorkStep(s.w.stage, i, s');
    ReachedSame(s.w.stage, i, s');
  }

  function InjectStep(trace: seq<Packet>, g: Grid, s: State, n: nat, cycle: nat): State
    requires n < |s.w.inject| && s.w.inject[n] != [] && g.xNodes > 0
    requires var i := s.w.inject[n][0].elem; i < |trace| && i < |s.w.stage| && trace[i].dst < |s.w.traverse|
  {
    s.(w := Inject1(trace, g, s.w, n, cycle))
  }

  lemma InjectGood(trace: seq<Packet>, g: Grid, s: State, n: nat, cycle: nat)
    requires Good(trace, g, s) && n < g.nodes && s.w.inject[n] != []
    ensures s.w.inject[n][0].elem < |trace| && trace[s.w.inject[n][0].elem].dst < g.nodes
    ensures Good(trace, g, InjectStep(trace, g, s, n, cycle))
    ensures Work(InjectStep(trace, g, s, n, cycle).w.stage) < Work(s.w.stage)
  {
    hide Safe, LogInv, Reached, WellFormed, Released, RefOf, Naming, Pushed, Work, Counted, Timing, Ordered;
    InjectInv(trace, g, s.w, n, cycle);
    HeadKnown(s.w.inject, trace, s.w.stage, Queued, n);
    hide Holds;
    InjectOrdered(trace, g, s.w, n, cycle);
    InjectLog(trace, g, s.w, n, cycle);
    var i, w' := s.w.inject[n][0].elem, Inject1(trace, g, s.w, n, cycle);
    StageCounted(trace, s.w.stage, ReadSoFar(trace, s.placed), s.table, i, Flying);
    WorkStep(s.w.stage, i, Flying);
    ReachedSame(s.w.stage, i, Flying);
  }

  function EjectStep(trace: seq<Packet>, s: State, n: nat, cycle: nat): State
    requires n < |s.w.traverse| && s.w.traverse[n] != [] && s.w.traverse[n][0].elem < |s.w.stage| == |trace|
    requires Referred(s.table, trace[s.w.traverse[n][0].elem].deps)
  {
    var p := trace[s.w.traverse[n][0].elem];
    State(Eject1(s.w, n, cycle), Unrefer(s.table, p.deps) - {p.id}, s.placed, s.ejected + 1)
  }

  lemma EjectGood(trace: seq<Packet>, g: Grid, s: State, n: nat, cycle: nat)
    requires Good(trace, g, s) && n < g.nodes && s.w.traverse[n] != [] && s.w.traverse[n][0].prio <= cycle
    ensures s.w.traverse[n][0].elem < |trace| && Referred(s.table, trace[s.w.traverse[n][0].elem].deps)
    ensures Good(trace, g, EjectStep(trace, s, n, cycle))
    ensures Work(EjectStep(trace, s, n, cycle).w.stage) < Work(s.w.stage)
  {
    hide LogInv, Reached, WellFormed, Released, RefOf, Naming, Work, Counted, Referred, Unrefer;
    EjectInv(trace, g.nodes, s.w, n, cycle);
    HeadKnown(s.w.traverse, trace, s.w.stage, Flying, n);
    hide Holds;
    PopAllSorted(s.w.traverse, n);
    hide AllSorted;
    EjectLog(trace, g, s.w, n, cycle);
    var i := s.w.traverse[n][0].elem;
    FreeCounted(trace, g.nodes, s.w.stage, ReadSoFar(trace, s.placed), s.table, i);
    WorkStep(s.w.stage, i, Gone);
    ReachedMore(s.w.stage, i);
  }

  function WakeStep(s: State, n: nat, i: nat, prio: nat): State
    requires n < |s.w.waiting| && n < |s.w.inject| && i < |s.w.stage|
  {
    s.(w := Wake1(s.w, n, i, prio))
  }

  lemma WaitingKnown(trace: seq<Packet>, g: Grid, s: State, n: nat, i: nat)
    requires Good(trace, g, s) && n < g.nodes && i in Elems(s.w.waiting[n])
    ensures i < |trace| && s.w.stage[i] == Waiting && trace[i].src == n
    ensures Cleared(s.table, trace[i]) <==> Released(trace, s.w.stage, i)
  {
    hide Elems, LogInv, WellFormed, Released, Naming, Reached;
    assert i in InStage(trace, s.w.stage, Waiting, n);
    ClearedReleased(trace, g.nodes, s.w.stage, ReadSoFar(trace, s.placed), s.table, i);
  }

  lemma WakeGood(trace: seq<Packet>, g: Grid, s: State, n: nat, i: nat, prio: nat)
    requires Good(trace, g, s) && n < g.nodes && i in Elems(s.w.waiting[n]) && i < |trace|
    requires Cleared(s.table, trace[i])
    ensures Good(trace, g, WakeStep(s, n, i, prio))
    ensures Work(WakeStep(s, n, i, prio).w.stage) < Work(s.w.stage)
  {
    hide Holds, LogInv, Reached, WellFormed, Released, RefOf, Naming, Work, Pushed, Removed, Elems, Cleared, Ordered;
    WaitingKnown(trace, g, s, n, i);
    hide Counted;
    WakeInv(trace, g.nodes, s.w, n, i, prio);
    WakeOrdered(s.w, n, i, prio);
    var w' := Wake1(s.w, n, i, prio);
    QuietLog(trace, g, s.w, w', i, Queued);
    StageCounted(trace, s.w.stage, ReadSoFar(trace, s.placed), s.table, i, Queued);
    WorkStep(s.w.stage, i, Queued);
    ReachedSame(s.w.stage, i, Queued);
  }
}
