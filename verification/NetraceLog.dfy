/** The order of events in a netrace run. */
module NetraceLog {
  import opened NetQueue
  import opened NetraceWorld

  ghost function InjectedIn(log: seq<Event>): set<nat> { set e | e in log && e.Injected? :: e.packet }

  ghost function EjectedIn(log: seq<Event>): set<nat> { set e | e in log && e.Ejected? :: e.packet }

  /** No packet is injected twice, none ejected twice. */
  ghost predicate Once(log: seq<Event>) {
    && (forall p, q :: 0 <= p < q < |log| && log[p].Injected? && log[q].Injected? ==> log[p].packet != log[q].packet)
    && (forall p, q :: 0 <= p < q < |log| && log[p].Ejected? && log[q].Ejected? ==> log[p].packet != log[q].packet)
  }

  /** A packet is injected only after every packet that names it has been ejected. */
  ghost predicate Causal(trace: seq<Packet>, log: seq<Event>) {
    forall p, j :: (&& 0 <= p < |log| && log[p].Injected? && log[p].packet < |trace|
                    && 0 <= j < |trace| && Names(trace, j, log[p].packet)) ==>
      j in EjectedIn(log[..p])
  }

  ghost predicate Arrived(trace: seq<Packet>, g: Grid, log: seq<Event>, i: nat, cycle: int)
    requires g.xNodes > 0
  {
    i < |trace| && exists n, c :: Injected(i, n, c) in log && c + Timing(g, trace[i]) <= cycle
  }

  /** The packet is due exactly one network latency after its injection. */
  ghost predicate DueAt(trace: seq<Packet>, g: Grid, log: seq<Event>, i: nat, cycle: int)
    requires g.xNodes > 0
  {
    i < |trace| && exists n, c :: Injected(i, n, c) in log && c + Timing(g, trace[i]) == cycle
  }

  /** A packet is ejected at the earliest one network latency after its injection. */
  ghost predicate Timely(trace: seq<Packet>, g: Grid, log: seq<Event>)
    requires g.xNodes > 0
  {
    forall p :: 0 <= p < |log| && log[p].Ejected? ==> Arrived(trace, g, log[..p], log[p].packet, log[p].cycle)
  }

  /** Packets in the network are due one latency after their injection. */
  ghost predicate Flights(trace: seq<Packet>, g: Grid, traverse: Queues, log: seq<Event>)
    requires g.xNodes > 0
  {
    forall n, e :: 0 <= n < |traverse| && e in traverse[n] ==> DueAt(trace, g, log, e.elem, e.prio)
  }

  ghost function Reached(stage: seq<Stage>, flying: bool): set<nat> {
    set i | 0 <= i < |stage| && (stage[i] == Gone || (flying && stage[i] == Flying))
  }

  ghost predicate LogInv(trace: seq<Packet>, g: Grid, w: World)
    requires g.xNodes > 0
  {
    && InjectedIn(w.log) == Reached(w.stage, true) && EjectedIn(w.log) == Reached(w.stage, false)
    && Once(w.log) && Causal(trace, w.log) && Timely(trace, g, w.log) && Flights(trace, g, w.traverse, w.log)
  }

  lemma LogAppend(log: seq<Event>, e: Event)
    ensures InjectedIn(log + [e]) == InjectedIn(log) + if e.Injected? then {e.packet} else {}
    ensures EjectedIn(log + [e]) == EjectedIn(log) + if e.Ejected? then {e.packet} else {}
    ensures Once(log) && e.packet !in (if e.Injected? then InjectedIn(log) else EjectedIn(log)) ==> Once(log + [e])
  {
    var log' := log + [e];
    assert forall f :: f in log' <==> f in log || f == e;
    forall p | 0 <= p < |log| ensures log[p] in log && log'[p] == log[p] {
    }
  }

  lemma CausalAppend(trace: seq<Packet>, log: seq<Event>, e: Event)
    requires Causal(trace, log)
    requires e.Injected? && e.packet < |trace| ==>
      forall j :: 0 <= j < |trace| && Names(trace, j, e.packet) ==> j in EjectedIn(log)
    ensures Causal(trace, log + [e])
  {
    hide EjectedIn;
    var log' := log + [e];
    forall p | 0 <= p < |log'| ensures log'[..p] == log[..p] && (p < |log| ==> log'[p] == log[p]) {
    }
    assert log[..|log|] == log;
  }

  lemma TimelyAppend(trace: seq<Packet>, g: Grid, log: seq<Event>, e: Event)
    requires g.xNodes > 0 && Timely(trace, g, log)
    requires e.Ejected? ==> Arrived(trace, g, log, e.packet, e.cycle)
    ensures Timely(trace, g, log + [e])
  {
    hide Arrived;
    var log' := log + [e];
    forall p | 0 <= p < |log'| ensures log'[..p] == log[..p] && (p < |log| ==> log'[p] == log[p]) {
    }
    assert log[..|log|] == log;
  }

  lemma DueAppend(trace: seq<Packet>, g: Grid, log: seq<Event>, e: Event, i: nat, cycle: int)
    requires g.xNodes > 0
    ensures DueAt(trace, g, log, i, cycle) ==> DueAt(trace, g, log + [e], i, cycle)
  {
    if DueAt(trace, g, log, i, cycle) {
      var n, c :| Injected(i, n, c) in log && c + Timing(g, trace[i]) == cycle;
      assert Injected(i, n, c) in log + [e];
    }
  }

  lemma DueArrived(trace: seq<Packet>, g: Grid, log: seq<Event>, i: nat, due: int, cycle: int)
    requires g.xNodes > 0 && DueAt(trace, g, log, i, due) && due <= cycle
    ensures Arrived(trace, g, log, i, cycle)
  {
    var n, c :| Injected(i, n, c) in log && c + Timing(g, trace[i]) == due;
    assert Injected(i, n, c) in log;
  }

  lemma FlightsAppend(trace: seq<Packet>, g: Grid, traverse: Queues, log: seq<Event>, e: Event)
    requires g.xNodes > 0 && Flights(trace, g, traverse, log)
    ensures Flights(trace, g, traverse, log + [e])
  {
    hide DueAt;
    forall n, f | 0 <= n < |traverse| && f in traverse[n] ensures DueAt(trace, g, log + [e], f.elem, f.prio) {
      DueAppend(trace, g, log, e, f.elem, f.prio);
    }
  }

  lemma InjectLog(trace: seq<Packet>, g: Grid, w: World, n: nat, cycle: nat)
    requires Inv(trace, g.nodes, w) && n < g.nodes && w.inject[n] != [] && g.xNodes > 0 && LogInv(trace, g, w)
    requires w.inject[n][0].elem < |trace| && trace[w.inject[n][0].elem].dst < g.nodes
    ensures LogInv(trace, g, Inject1(trace, g, w, n, cycle))
  {
    hide Holds, Causal, Timely, Once, Released, InjectedIn, EjectedIn, Pushed, Timing, EachOnce, WellFormed;
    HeadKnown(w.inject, trace, w.stage, Queued, n);
    var i := w.inject[n][0].elem;
    var e, w' := Injected(i, n, cycle), Inject1(trace, g, w, n, cycle);
    LogAppend(w.log, e);
    assert i !in Reached(w.stage, true);
    assert Reached(w'.stage, true) == Reached(w.stage, true) + {i};
    assert Reached(w'.stage, false) == Reached(w.stage, false);
    forall j | 0 <= j < |trace| && Names(trace, j, i) ensures j in EjectedIn(w.log) {
      assert Released(trace, w.stage, i);
      ReleasedGone(trace, w.stage, i, j);
      assert j in Reached(w.stage, false);
    }
    CausalAppend(trace, w.log, e);
    TimelyAppend(trace, g, w.log, e);
    FlightsAppend(trace, g, w.traverse, w.log, e);
    PushFlights(trace, g, w.traverse, w'.log, i, n, cycle);
  }

  lemma PushFlights(trace: seq<Packet>, g: Grid, traverse: Queues, log: seq<Event>, i: nat, n: nat, cycle: nat)
    requires g.xNodes > 0 && Flights(trace, g, traverse, log) && i < |trace| && trace[i].dst < |traverse|
    requires Injected(i, n, cycle) in log
    ensures var d := trace[i].dst;
      Flights(trace, g, traverse[d := Pushed(traverse[d], i, cycle + Timing(g, trace[i]))], log)
  {
    hide Timing, Place;
    var d, prio := trace[i].dst, cycle + Timing(g, trace[i]);
    assert DueAt(trace, g, log, i, prio);
    hide DueAt;
    forall e | e in Pushed(traverse[d], i, prio) ensures DueAt(trace, g, log, e.elem, e.prio) {
      assert e == Entry(i, prio) || e in traverse[d];
    }
  }

  lemma EjectLog(trace: seq<Packet>, g: Grid, w: World, n: nat, cycle: nat)
    requires Inv(trace, g.nodes, w) && n < g.nodes && w.traverse[n] != [] && g.xNodes > 0 && LogInv(trace, g, w)
    requires w.traverse[n][0].elem < |trace| && w.traverse[n][0].prio <= cycle
    ensures LogInv(trace, g, Eject1(w, n, cycle))
  {
    hide Holds, Causal, Timely, Once, Released, InjectedIn, EjectedIn, Timing, EachOnce, WellFormed, Safe;
    HeadKnown(w.traverse, trace, w.stage, Flying, n);
    var head := w.traverse[n][0];
    var i := head.elem;
    var e, w' := Ejected(i, n, cycle), Eject1(w, n, cycle);
    LogAppend(w.log, e);
    assert i !in Reached(w.stage, false) && i in Reached(w.stage, true);
    assert Reached(w'.stage, true) == Reached(w.stage, true);
    assert Reached(w'.stage, false) == Reached(w.stage, false) + {i};
    assert head in w.traverse[n];
    DueArrived(trace, g, w.log, i, head.prio, cycle);
    hide Arrived, DueAt;
    CausalAppend(trace, w.log, e);
    TimelyAppend(trace, g, w.log, e);
    FlightsAppend(trace, g, w.traverse, w.log, e);
    assert forall f :: f in w'.traverse[n] ==> f in w.traverse[n];
  }

  /** Steps outside the network leave the log as it is. */
  lemma QuietLog(trace: seq<Packet>, g: Grid, w: World, w': World, i: nat, s: Stage)
    requires g.xNodes > 0 && LogInv(trace, g, w) && i < |w.stage| && w'.stage == w.stage[i := s]
    requires w.stage[i] != Flying && w.stage[i] != Gone && s != Flying && s != Gone
    requires w'.log == w.log && w'.traverse == w.traverse
    ensures LogInv(trace, g, w')
  {
    assert Reached(w'.stage, true) == Reached(w.stage, true);
    assert Reached(w'.stage, false) == Reached(w.stage, false);
  }
}
