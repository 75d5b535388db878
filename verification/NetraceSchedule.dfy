/** When and where packets enter and leave the network. */
module NetraceSchedule {
  import opened Options
  import opened NetQueue
  import opened DependencyTable
  import opened NetraceWorld
  import opened NetraceRefs
  import opened NetraceLog
  import opened NetraceState
  import opened NetraceTiming
  import opened Wiring

  /** Cycle `c` is late enough for packet `i`: not before the cycle of the trace, and eight cycles after the ejection of
      each packet it has had to wait for. */
  ghost predicate LateEnough(trace: seq<Packet>, log: seq<Event>, i: nat, c: int) {
    && i < |trace| && c >= trace[i].cycle
    && forall j: nat, n: nat, e :: Ejected(j, n, e) in log && j < |trace| && Names(trace, j, i) && e >= trace[i].cycle ==> c >= e + 8
  }

  /** Packets enter at their source, late enough, and leave at their destination. */
  ghost predicate Punctual(trace: seq<Packet>, log: seq<Event>) {
    && (forall i: nat, n: nat, c :: Injected(i, n, c) in log ==> LateEnough(trace, log, i, c) && n == trace[i].src)
    && (forall i: nat, n: nat, c :: Ejected(i, n, c) in log ==> i < |trace| && n == trace[i].dst)
  }

  /** Packets in the injection queues are due late enough, waiting ones have had their cycle, and no event is later
      than `last`. */
  ghost predicate Scheduled(trace: seq<Packet>, w: World, last: int, now: int) {
    && last <= now
    && (forall e :: e in w.log ==> e.cycle <= last)
    && Punctual(trace, w.log)
    && (forall n, e :: 0 <= n < |w.inject| && e in w.inject[n] ==> LateEnough(trace, w.log, e.elem, e.prio))
    && (forall i :: 0 <= i < |w.stage| && i < |trace| && w.stage[i] == Waiting ==> trace[i].cycle <= now)
  }

  /** The packet read for this cycle, before anything is ejected in it. */
  lemma PlaceScheduled(trace: seq<Packet>, w: World, i: nat, prio: nat, cleared: bool, last: int, now: int)
    requires Scheduled(trace, w, last, now) && last < now && i < |trace| == |w.stage|
    requires trace[i].cycle == now == prio && trace[i].src < |w.waiting| == |w.inject|
    ensures Scheduled(trace, Place1(trace, w, i, prio, cleared), last, now)
  {
    hide Place, Punctual;
    var w' := Place1(trace, w, i, prio, cleared);
    assert LateEnough(trace, w.log, i, prio);
    hide LateEnough;
    forall n, e | 0 <= n < |w'.inject| && e in w'.inject[n] ensures LateEnough(trace, w.log, e.elem, e.prio) {
      if !(e == Entry(i, prio)) { assert e in w.inject[n]; }
    }
  }

  /** Events only ever get later. */
  lemma Later(trace: seq<Packet>, w: World, last: int, now: int, last': int, now': int)
    requires Scheduled(trace, w, last, now) && last <= last' <= now' && now <= now'
    ensures Scheduled(trace, w, last', now')
  {
    hide Punctual, LateEnough;
  }

  lemma LogGrows(trace: seq<Packet>, log: seq<Event>, e: Event, i: nat, c: int)
    requires LateEnough(trace, log, i, c)
    requires e.Injected? || !(e.packet < |trace| && Names(trace, e.packet, i))
    ensures LateEnough(trace, log + [e], i, c)
  {
  }

  lemma PunctualGrows(trace: seq<Packet>, log: seq<Event>, e: Event)
    requires Punctual(trace, log)
    requires forall i: nat, n: nat, c :: Injected(i, n, c) in log + [e] ==> LateEnough(trace, log + [e], i, c)
    requires e.packet < |trace| && e.node == if e.Injected? then trace[e.packet].src else trace[e.packet].dst
    ensures Punctual(trace, log + [e])
  {
    hide LateEnough;
  }

  lemma InjectScheduled(trace: seq<Packet>, g: Grid, w: World, n: nat, last: int, now: nat)
    requires Inv(trace, g.nodes, w) && n < g.nodes && w.inject[n] != [] && g.xNodes > 0 && w.inject[n][0].prio <= now
    requires w.inject[n][0].elem < |trace| && trace[w.inject[n][0].elem].dst < g.nodes
    requires Scheduled(trace, w, last, now)
    ensures Scheduled(trace, Inject1(trace, g, w, n, now), now, now)
  {
    hide Holds, Safe, WellFormed, Timing, Pushed, EachOnce;
    HeadKnown(w.inject, trace, w.stage, Queued, n);
    var head := w.inject[n][0];
    var e, w' := Injected(head.elem, n, now), Inject1(trace, g, w, n, now);
    assert head in w.inject[n];
    assert LateEnough(trace, w.log, head.elem, now);
    forall i: nat, m: nat, c | Injected(i, m, c) in w'.log ensures LateEnough(trace, w'.log, i, c) {
      LogGrows(trace, w.log, e, i, c);
    }
    hide LateEnough;
    PunctualGrows(trace, w.log, e);
    hide Punctual;
    forall m, x | 0 <= m < |w'.inject| && x in w'.inject[m] ensures LateEnough(trace, w'.log, x.elem, x.prio) {
      assert x in w.inject[m];
      LogGrows(trace, w.log, e, x.elem, x.prio);
    }
  }

  /** Whatever waited for the ejected packet is still waiting. */
  lemma EjectScheduled(trace: seq<Packet>, g: Grid, w: World, n: nat, last: int, now: nat)
    requires Inv(trace, g.nodes, w) && n < g.nodes && w.traverse[n] != [] && g.xNodes > 0 && LogInv(trace, g, w)
    requires w.traverse[n][0].elem < |trace| && Scheduled(trace, w, last, now)
    ensures Scheduled(trace, Eject1(w, n, now), now, now)
  {
    hide Safe, WellFormed, Timing, EachOnce, Once, Causal, Timely, Flights, Released;
    HeadKnown(w.traverse, trace, w.stage, Flying, n);
    var head := w.traverse[n][0];
    var e, w' := Ejected(head.elem, n, now), Eject1(w, n, now);
    forall i: nat, m: nat, c | Injected(i, m, c) in w'.log ensures LateEnough(trace, w'.log, i, c) {
      assert Injected(i, m, c) in w.log && i in InjectedIn(w.log);
      NotNamed(trace, w, head.elem, i);
      LogGrows(trace, w.log, e, i, c);
    }
    PunctualGrows(trace, w.log, e);
    forall m, x | 0 <= m < |w'.inject| && x in w'.inject[m] ensures LateEnough(trace, w'.log, x.elem, x.prio) {
      assert x.elem in Elems(w.inject[m]) && x.elem in InStage(trace, w.stage, Queued, m);
      NotNamed(trace, w, head.elem, x.elem);
      LogGrows(trace, w.log, e, x.elem, x.prio);
    }
  }

  /** A packet that no longer waits is not named by one that is still under way. */
  lemma NotNamed(trace: seq<Packet>, w: World, j: nat, i: nat)
    requires |w.stage| == |trace| && Safe(trace, w.stage) && j < |trace| && w.stage[j] == Flying
    requires i < |trace| && w.stage[i] != Unplaced && w.stage[i] != Waiting
    ensures !Names(trace, j, i)
  {
    SafeReleased(trace, w.stage, i);
    if Names(trace, j, i) { ReleasedGone(trace, w.stage, i, j); }
  }

  lemma WakeScheduled(trace: seq<Packet>, w: World, n: nat, i: nat, last: int, now: nat)
    requires Scheduled(trace, w, last, now) && n < |w.waiting| && n < |w.inject| && i < |w.stage| == |trace|
    requires w.stage[i] == Waiting
    ensures Scheduled(trace, Wake1(w, n, i, now + 8), last, now)
  {
    hide Place, Punctual, Removed;
    var w' := Wake1(w, n, i, now + 8);
    assert LateEnough(trace, w.log, i, now + 8);
    hide LateEnough;
    forall m, e | 0 <= m < |w'.inject| && e in w'.inject[m] ensures LateEnough(trace, w.log, e.elem, e.prio) {
      if e != Entry(i, now + 8) { assert e in w.inject[m]; }
    }
  }

  // ---------- the latency without its formula ----------

  /** `d` cycles for each step of a shortest way over the grid, and for at least one. */
  ghost predicate Latency(g: Grid, p: Packet, d: nat)
    requires g.xNodes > 0
  {
    exists n: nat :: Shortest(NodeWires(g), p.src, p.dst, n) && d == g.latency * if n <= 1 then 1 else n - 1
  }

  lemma TimingIsLatency(g: Grid, p: Packet, d: nat)
    requires g.xNodes > 0 && p.src < g.nodes && p.dst < g.nodes
    ensures Latency(g, p, d) <==> d == Timing(g, p)
  {
    hide Shortest, NodeWires;
    HopsShortest(g, p.src, p.dst);
    var n := Hops(g.xNodes, p.src, p.dst) + 1;
    assert Timing(g, p) == g.latency * if n <= 1 then 1 else n - 1;
    forall m: nat ensures Shortest(NodeWires(g), p.src, p.dst, m) <==> m == n {
      ShortestUnique(NodeWires(g), p.src, p.dst, n, m);
    }
  }

  /** A packet is ejected at the earliest one latency after its injection. */
  ghost predicate Delayed(trace: seq<Packet>, g: Grid, log: seq<Event>)
    requires g.xNodes > 0
  {
    forall p :: 0 <= p < |log| && log[p].Ejected? ==>
      var i := log[p].packet;
      i < |trace| && exists n, c, d: nat :: Injected(i, n, c) in log[..p] && Latency(g, trace[i], d) && c + d <= log[p].cycle
  }

  lemma TimelyDelayed(trace: seq<Packet>, g: Grid, log: seq<Event>)
    requires g.xNodes > 0 && WellFormed(trace, g.nodes) && Timely(trace, g, log)
    ensures Delayed(trace, g, log)
  {
    hide Latency, Timing;
    forall p | 0 <= p < |log| && log[p].Ejected?
      ensures var i := log[p].packet;
        i < |trace| && exists n, c, d: nat :: Injected(i, n, c) in log[..p] && Latency(g, trace[i], d) && c + d <= log[p].cycle
    {
      var i := log[p].packet;
      assert Arrived(trace, g, log[..p], i, log[p].cycle);
      var n, c :| Injected(i, n, c) in log[..p] && c + Timing(g, trace[i]) <= log[p].cycle;
      TimingIsLatency(g, trace[i], Timing(g, trace[i]));
    }
  }

  /** In every state of a run a packet in the network is due exactly one latency after its injection. */
  lemma FlightsDue(trace: seq<Packet>, g: Grid, s: State, n: nat, e: Entry<nat>)
    requires Good(trace, g, s) && n < g.nodes && e in s.w.traverse[n]
    ensures e.elem < |trace| && exists m, c, d: nat :: Injected(e.elem, m, c) in s.w.log && Latency(g, trace[e.elem], d) && c + d == e.prio
  {
    hide Latency, Timing, Counted, Reached, Once, Causal, Timely, Holds, Safe, Ordered;
    assert DueAt(trace, g, s.w.log, e.elem, e.prio);
    var m, c :| Injected(e.elem, m, c) in s.w.log && c + Timing(g, trace[e.elem]) == e.prio;
    TimingIsLatency(g, trace[e.elem], Timing(g, trace[e.elem]));
  }
}
