/** The netrace trace player without self-throttling: packets enter a simple network in the order of the trace, but
    not before the packets they depend on have left it. */
module Netrace {
  import opened Options
  import opened NetQueue
  import opened NetQueueBank
  import opened DependencyTable
  import opened NetraceWorld
  import opened NetraceRefs
  import opened NetraceLog
  import opened NetraceState
  import opened NetraceSchedule

  /** Nothing is scheduled after `time`. */
  ghost predicate Bounded(qs: Queues, time: nat) {
    forall n, e :: 0 <= n < |qs| && e in qs[n] ==> e.prio <= time
  }

  function Max(a: nat, b: nat): nat { if a < b then b else a }

  lemma PushedBounded(qs: Queues, time: nat, n: nat, elem: nat, prio: nat)
    requires Bounded(qs, time) && n < |qs|
    ensures Bounded(qs[n := Pushed(qs[n], elem, prio)], Max(time, prio))
  {
    hide Place;
    forall e | e in Pushed(qs[n], elem, prio) ensures e in qs[n] || e.prio == prio {
    }
  }

  lemma PoppedBounded(qs: Queues, time: nat, n: nat)
    requires Bounded(qs, time) && n < |qs| && qs[n] != []
    ensures Bounded(qs[n := qs[n][1..]], time)
  {
    assert forall e :: e in qs[n][1..] ==> e in qs[n];
  }

  /** No head is due. */
  ghost predicate NoneDue(qs: Queues, cycle: nat, n: nat)
    requires n <= |qs|
  {
    forall k :: 0 <= k < n ==> qs[k] == [] || qs[k][0].prio > cycle
  }

  ghost predicate AllEmpty(qs: Queues, n: nat)
    requires n <= |qs|
  {
    forall k :: 0 <= k < n ==> qs[k] == []
  }

  ghost function Start(trace: seq<Packet>, g: Grid): World {
    World(seq(g.nodes, i => []), seq(g.nodes, i => []), seq(g.nodes, i => []), seq(|trace|, i => Unplaced), [])
  }

  lemma StartGood(trace: seq<Packet>, g: Grid, m: map<nat, Info>)
    requires WellFormed(trace, g.nodes) && g.xNodes > 0 && m == map[]
    ensures Good(trace, g, State(Start(trace, g), if |trace| > 0 then ReadTable(m, trace[0], 0) else m, 0, 0))
  {
    var w := Start(trace, g);
    assert Counted(trace, w.stage, 0, m) by {
      forall id ensures RefOf(m, id) == Naming(trace, w.stage, 0, id) {
      }
    }
    if |trace| > 0 { ReadCounted(trace, g.nodes, w.stage, 0, m); }
    hide Counted, ReadTable, WellFormed;
    assert Reached(w.stage, true) == {} && Reached(w.stage, false) == {};
    assert LogInv(trace, g, w);
    assert Inv(trace, g.nodes, w);
  }

  lemma ScanNext(qs: Queues, cycle: nat, n: nat)
    requires n < |qs|
    ensures NoneDue(qs, cycle, n + 1) <==> NoneDue(qs, cycle, n) && (qs[n] == [] || qs[n][0].prio > cycle)
    ensures AllEmpty(qs, n + 1) <==> AllEmpty(qs, n) && qs[n] == []
  {
  }

  lemma NoneYet(qs: Queues, cycle: nat)
    ensures NoneDue(qs, cycle, 0) && AllEmpty(qs, 0)
  {
  }

  class Simulator {
    const trace: seq<Packet>
    const g: Grid
    const numCycles: nat
    /** How many packets to place, zero for all of them. */
    const limit: nat
    const waiting: Bank
    const inject: Bank
    const traverse: Bank
    const table: Dependencies
    var cycle: nat
    var tracePacket: Option<nat>
    /** Packets read from the file so far. */
    var read: nat
    var totalRead: nat
    var totalEjected: nat
    var done: bool
    ghost var stage: seq<Stage>
    ghost var log: seq<Event>
    /** No queue entry is scheduled later. */
    ghost var horizon: nat
    /** No event has been later. */
    ghost var last: int

    /** The objects are in order and share nothing. */
    ghost predicate Separate()
      reads this, waiting, waiting.repr, inject, inject.repr, traverse, traverse.repr, table, table.chains
    {
      && waiting.Valid() && inject.Valid() && traverse.Valid() && table.Valid()
      && waiting in waiting.repr && inject in inject.repr && traverse in traverse.repr
      && waiting.repr !! inject.repr && waiting.repr !! traverse.repr && inject.repr !! traverse.repr
      && (forall o :: o in {this, table, table.chains} ==> o !in waiting.repr && o !in inject.repr && o !in traverse.repr)
      && |waiting.queues| == |inject.queues| == |traverse.queues| == g.nodes
      && waiting.Unpopped()
    }

    ghost function Now(): State
      requires Separate()
      reads this, waiting, waiting.repr, inject, inject.repr, traverse, traverse.repr, table, table.chains
    {
      State(World(waiting.Contents(), inject.Contents(), traverse.Contents(), stage, log),
            table.Contents(), totalRead, totalEjected)
    }

    ghost predicate Valid()
      reads this, waiting, waiting.repr, inject, inject.repr, traverse, traverse.repr, table, table.chains
    {
      && Separate() && Good(trace, g, Now())
      && read == ReadSoFar(trace, totalRead)
      && tracePacket == (if totalRead < |trace| then Some(totalRead) else None)
      && Bounded(Now().w.inject, horizon) && Bounded(Now().w.traverse, horizon) && horizon > numCycles
      && Scheduled(trace, Now().w, last, cycle)
    }

    /** Empty queues, an empty table, nothing read. */
    constructor (trace: seq<Packet>, g: Grid, startCycle: nat, numCycles: nat, limit: nat)
      ensures this.trace == trace && this.g == g && this.numCycles == numCycles && this.limit == limit
      ensures Separate() && Now() == State(Start(trace, g), map[], 0, 0)
      ensures cycle == startCycle && read == 0 && !done && horizon == numCycles + 1 && last == cycle - 1
      ensures fresh(waiting.repr) && fresh(inject.repr) && fresh(traverse.repr) && fresh(table) && fresh(table.chains)
    {
      hide Table, WellHashed, Bank.Valid, Bank.Contents, Bank.Unpopped;
      this.trace, this.g, this.numCycles, this.limit := trace, g, numCycles, limit;
      cycle, tracePacket, read, totalRead, totalEjected, done := startCycle, None, 0, 0, 0, false;
      waiting := new Bank(g.nodes);
      inject := new Bank(g.nodes);
      traverse := new Bank(g.nodes);
      table := new Dependencies();
      stage, log, horizon, last := seq(|trace|, i => Unplaced), [], numCycles + 1, startCycle - 1;
    }

    /** Before the cycle loop the first packet is read. */
    method Begin()
      requires WellFormed(trace, g.nodes) && g.xNodes > 0
      requires Separate() && Now() == State(Start(trace, g), map[], 0, 0) && read == 0 && horizon == numCycles + 1
      requires last < cycle
      modifies this`tracePacket, this`read, table.chains
      ensures Valid() && Now().w == Start(trace, g) && totalRead == 0
    {
      hide Good, ReadTable, Table, WellHashed, WellFormed;
      StartGood(trace, g, map[]);
      assert Bounded(Start(trace, g).inject, horizon);
      tracePacket := ReadPacket();
    }

    /** `nt_read_packet`. */
    method ReadPacket() returns (packet: Option<nat>)
      requires table.Valid() && read <= |trace|
      modifies table.chains, this`read
      ensures table.Valid()
      ensures packet == if old(read) < |trace| then Some(old(read)) else None
      ensures read == if old(read) < |trace| then old(read) + 1 else old(read)
      ensures table.Contents() == if old(read) < |trace| then ReadTable(old(table.Contents()), trace[old(read)], old(read))
                                  else old(table.Contents())
    {
      hide Table, WellHashed;
      if read == |trace| { return None; }
      var p := trace[read];
      var pos := TouchNode(p.id);
      var node := table.chains[Bucket(p.id)][pos].info;
      table.Update(p.id, pos, node.(packet := Some(read)));
      ghost var m := table.Contents();
      var i := 0;
      while i < |p.deps|
        invariant 0 <= i <= |p.deps| && table.Valid() && table.Contents() == Refer(m, p.deps[..i])
        modifies table.chains
      {
        assert p.deps[..i + 1][..i] == p.deps[..i];
        var at := TouchNode(p.deps[i]);
        var n := table.chains[Bucket(p.deps[i])][at].info;
        table.Update(p.deps[i], at, n.(refCount := n.refCount + 1));
        i := i + 1;
      }
      assert p.deps[..i] == p.deps;
      packet := Some(read);
      read := read + 1;
    }

    /** The node of an id, added if there is none. */
    method TouchNode(id: nat) returns (pos: nat)
      requires table.Valid()
      modifies table.chains
      ensures table.Valid() && table.Contents() == Touch(old(table.Contents()), id)
      ensures pos < |table.chains[Bucket(id)]| && table.chains[Bucket(id)][pos] == DepNode(id, table.Contents()[id])
    {
      hide Table, WellHashed;
      var found := table.Get(id);
      if found.Some? {
        pos := found.value;
      } else {
        pos := table.Add(id);
      }
    }

    /** `nt_dependencies_cleared`. */
    method DependenciesCleared(i: nat) returns (cleared: bool)
      requires table.Valid() && i < |trace|
      ensures cleared == Cleared(table.Contents(), trace[i])
    {
      hide Table, WellHashed;
      var found := table.Get(trace[i].id);
      match found
      case None => cleared := true;
      case Some(pos) => cleared := table.chains[Bucket(trace[i].id)][pos].info.refCount == 0;
    }

    /** `nt_clear_dependencies_free_packet`; a missing node or a zero count would be an error. */
    method ClearDependenciesFreePacket(i: nat)
      requires table.Valid() && i < |trace| && Referred(table.Contents(), trace[i].deps)
      modifies table.chains
      ensures table.Valid() && table.Contents() == Unrefer(old(table.Contents()), trace[i].deps) - {trace[i].id}
    {
      hide Table, WellHashed, Referred, Unrefer;
      var deps := trace[i].deps;
      ghost var m := table.Contents();
      var k := 0;
      assert deps[..0] == [];
      UnreferNone(m);
      while k < |deps|
        invariant 0 <= k <= |deps| && table.Valid()
        invariant Referred(m, deps[..k]) && table.Contents() == Unrefer(m, deps[..k])
        modifies table.chains
      {
        ReferredPrefix(m, deps, k + 1);
        UnreferNext(m, deps, k);
        var found := table.Get(deps[k]);
        assert found.Some?;
        var node := table.chains[Bucket(deps[k])][found.value].info;
        assert node.refCount > 0;
        table.Update(deps[k], found.value, node.(refCount := node.refCount - 1));
        k := k + 1;
      }
      assert deps[..k] == deps;
      var packet := table.Remove(trace[i].id);
    }

    // ---------- the phases of a cycle ----------

    /** Queues grow by new nodes only. */
    twostate predicate Grown()
      reads this, waiting, inject, traverse
    {
      && fresh(waiting.repr - old(waiting.repr)) && fresh(inject.repr - old(inject.repr))
      && fresh(traverse.repr - old(traverse.repr))
    }

    ghost function Todo(): nat
      reads this
    {
      Work(stage)
    }

    /** Packet `i` goes into the injection queue of its source if nothing holds it back, else into the waiting
        queue. */
    method Enqueue(i: nat, prio: nat, cleared: bool)
      requires Separate() && i < |trace| == |stage| && trace[i].src < g.nodes
      modifies this`stage, this`horizon, waiting.repr, inject.repr
      ensures Separate() && Grown()
      ensures Now() == old(Now()).(w := Place1(trace, old(Now()).w, i, prio, cleared))
      ensures horizon == if cleared then Max(old(horizon), prio) else old(horizon)
    {
      hide Bank.Valid, Bank.Contents, Bank.Unpopped, Dependencies.Valid, Dependencies.Contents, Pushed;
      if cleared {
        inject.Push(trace[i].src, i, prio);
        stage, horizon := stage[i := Queued], Max(horizon, prio);
      } else {
        waiting.Push(trace[i].src, i, prio);
        stage := stage[i := Waiting];
      }
    }

    /** The packet read ahead is placed, and the next one read. */
    method PlaceNext() returns (ghost prio: nat)
      requires Separate() && totalRead < |trace| == |stage| && trace[totalRead].src < g.nodes
      requires tracePacket == Some(totalRead) && read == totalRead + 1
      modifies this`tracePacket, this`read, this`totalRead, this`stage, this`horizon
      modifies table.chains, waiting.repr, inject.repr
      ensures Separate() && Grown() && prio == Max(cycle, trace[old(totalRead)].cycle)
      ensures Now() == PlaceStep(trace, old(Now()), prio)
      ensures horizon == if Cleared(old(table.Contents()), trace[old(totalRead)]) then Max(old(horizon), prio) else old(horizon)
      ensures totalRead == old(totalRead) + 1 && read == ReadSoFar(trace, totalRead)
      ensures tracePacket == if totalRead < |trace| then Some(totalRead) else None
    {
      hide Bank.Valid, Bank.Contents, Bank.Unpopped, Dependencies.Valid, Dependencies.Contents;
      hide Pushed, ReadTable, Cleared;
      var i := tracePacket.value;
      var time := if trace[i].cycle > cycle then trace[i].cycle else cycle;
      prio := time;
      ghost var s := Now();
      var cleared := DependenciesCleared(i);
      Enqueue(i, time, cleared);
      assert Now() == s.(w := Place1(trace, s.w, i, prio, cleared));
      tracePacket := ReadPacket();
      totalRead := totalRead + 1;
    }

    lemma SelfApart()
      requires Separate()
      ensures this !in waiting.repr && this !in inject.repr
    {
    }

    method PlaceOne()
      requires Valid() && totalRead < |trace| && last < cycle == trace[totalRead].cycle
      modifies this`tracePacket, this`read, this`totalRead, this`stage, this`horizon
      modifies table.chains, waiting.repr, inject.repr
      ensures Valid() && Grown() && totalRead == old(totalRead) + 1 && Todo() < old(Todo())
      ensures Now() == PlaceStep(trace, old(Now()), Max(cycle, trace[old(totalRead)].cycle))
    {
      hide Good, Work, Separate, PlaceStep, Bounded, Cleared, Scheduled;
      SelfApart();
      ghost var s, h := Now(), horizon;
      GoodShape(trace, g, s);
      PlaceStepScheduled(trace, s, cycle, last, cycle);
      ghost var prio := PlaceNext();
      assert prio == cycle;
      PlaceGood(trace, g, s, prio);
      PlaceBounded(trace, g, s, prio, h);
    }

    /** The head of injection queue `n` goes into the network. */
    method Launch(n: nat)
      requires Separate() && n < g.nodes && g.xNodes > 0 && Now().w.inject[n] != []
      requires var i := Now().w.inject[n][0].elem; i < |trace| == |stage| && trace[i].dst < g.nodes
      modifies this`stage, this`log, this`horizon, inject.repr, traverse.repr
      ensures Separate() && Grown() && Now() == InjectStep(trace, g, old(Now()), n, cycle)
      ensures horizon == Max(old(horizon), cycle + Timing(g, trace[old(Now()).w.inject[n][0].elem]))
    {
      hide Bank.Valid, Bank.Contents, Bank.Unpopped, Dependencies.Valid, Dependencies.Contents;
      hide Pushed, Timing;
      var popped := inject.PopFront(n);
      var packet := popped.value;
      var due := cycle + Timing(g, trace[packet]);
      traverse.Push(trace[packet].dst, packet, due);
      stage, log, horizon := stage[packet := Flying], log + [Injected(packet, n, cycle)], Max(horizon, due);
    }

    /** One node injects at most one packet a cycle, when it is due. */
    method InjectNode(n: nat) returns (left: bool)
      requires Valid() && n < g.nodes && last == cycle
      modifies this`stage, this`log, this`horizon, inject.repr, traverse.repr
      ensures Valid() && Grown() && (left <==> old(Now()).w.inject[n] != [])
      ensures if left && old(Now()).w.inject[n][0].prio <= cycle
              then Todo() < old(Todo()) && IsInjected(trace, g, old(Now()), n, cycle, Now())
              else Now() == old(Now()) && horizon == old(horizon)
    {
      hide Good, Work, Bank.Valid, Bank.Contents, Dependencies.Valid, Dependencies.Contents, Bank.Unpopped, InjectStep, Bounded;
      hide Scheduled;
      ghost var s, h := Now(), horizon;
      GoodShape(trace, g, s);
      var none := inject.Empty(n);
      left := !none;
      var head := inject.PeekFront(n);
      if head.Some? {
        if head.value.prio <= cycle {
          InjectGood(trace, g, s, n, cycle);
          InjectStepScheduled(trace, g, s, n, cycle);
          Launch(n);
          InjectBounded(trace, g, s, n, cycle, h);
        }
      }
    }

    method InjectAll() returns (left: bool)
      requires Valid() && last == cycle
      modifies this`stage, this`log, this`horizon, inject.repr, traverse.repr
      ensures Valid() && Grown() && Todo() <= old(Todo())
      ensures Todo() == old(Todo()) ==>
        && Now() == old(Now()) && horizon == old(horizon)
        && NoneDue(Now().w.inject, cycle, g.nodes) && (left <==> !AllEmpty(Now().w.inject, g.nodes))
      ensures !left ==> Todo() == old(Todo())
    {
      hide Good, Work, Bounded, Bank.Valid, Bank.Contents, Dependencies.Valid, Dependencies.Contents, Bank.Unpopped;
      hide NoneDue, AllEmpty, Scheduled;
      GoodShape(trace, g, Now());
      NoneYet(Now().w.inject, cycle);
      NoneYet(Now().w.traverse, cycle);
      left := false;
      var n := 0;
      while n < g.nodes
        invariant 0 <= n <= g.nodes && Valid() && Grown() && Todo() <= old(Todo())
        invariant Todo() == old(Todo()) ==>
          && Now() == old(Now()) && horizon == old(horizon)
          && NoneDue(Now().w.inject, cycle, n) && (left <==> !AllEmpty(Now().w.inject, n))
        invariant !left ==> Todo() == old(Todo())
      {
        ghost var qs, todo := Now().w.inject, Todo();
        GoodShape(trace, g, Now());
        ScanNext(qs, cycle, n);
        var some := InjectNode(n);
        assert Todo() == todo ==> Now().w.inject == qs;
        left := left || some;
        n := n + 1;
      }
    }

    /** The head of traverse queue `n` leaves the network: its dependents are released, and it is freed. */
    method Free(n: nat)
      requires Separate() && n < g.nodes && Now().w.traverse[n] != []
      requires var i := Now().w.traverse[n][0].elem; i < |trace| == |stage| && Referred(Now().table, trace[i].deps)
      modifies this`stage, this`log, this`totalEjected, traverse.repr, table.chains
      ensures Separate() && Grown() && Now() == EjectStep(trace, old(Now()), n, cycle)
    {
      hide Bank.Valid, Bank.Contents, Bank.Unpopped, Dependencies.Valid, Dependencies.Contents;
      hide Referred, Unrefer;
      var head := traverse.PeekFront(n);
      totalEjected := totalEjected + 1;
      ClearDependenciesFreePacket(head.value.elem);
      var popped := traverse.PopFront(n);
      var packet := popped.value;
      stage, log := stage[packet := Gone], log + [Ejected(packet, n, cycle)];
    }

    /** One node ejects at most one packet a cycle, when it has arrived. */
    method EjectNode(n: nat) returns (left: bool)
      requires Valid() && n < g.nodes && last == cycle
      modifies this`stage, this`log, this`totalEjected, traverse.repr, table.chains
      ensures Valid() && Grown() && (left <==> old(Now()).w.traverse[n] != [])
      ensures if left && old(Now()).w.traverse[n][0].prio <= cycle
              then Todo() < old(Todo()) && IsEjected(trace, g, old(Now()), n, cycle, Now())
              else Now() == old(Now())
    {
      hide Good, Work, Bank.Valid, Bank.Contents, Dependencies.Valid, Dependencies.Contents, Bank.Unpopped, EjectStep, Bounded;
      hide Referred, Scheduled;
      ghost var s := Now();
      GoodShape(trace, g, s);
      var none := traverse.Empty(n);
      left := !none;
      var head := traverse.PeekFront(n);
      if head.Some? {
        if head.value.prio <= cycle {
          EjectGood(trace, g, s, n, cycle);
          EjectStepScheduled(trace, g, s, n, cycle);
          Free(n);
          EjectBounded(trace, s, n, cycle, horizon);
        }
      }
    }

    method EjectAll() returns (left: bool)
      requires Valid() && last == cycle
      modifies this`stage, this`log, this`totalEjected, traverse.repr, table.chains
      ensures Valid() && Grown() && Todo() <= old(Todo())
      ensures Todo() == old(Todo()) ==>
        && Now() == old(Now())
        && NoneDue(Now().w.traverse, cycle, g.nodes) && (left <==> !AllEmpty(Now().w.traverse, g.nodes))
      ensures !left ==> Todo() == old(Todo())
    {
      hide Good, Work, Bounded, Bank.Valid, Bank.Contents, Dependencies.Valid, Dependencies.Contents, Bank.Unpopped;
      hide NoneDue, AllEmpty, Scheduled;
      GoodShape(trace, g, Now());
      NoneYet(Now().w.inject, cycle);
      NoneYet(Now().w.traverse, cycle);
      left := false;
      var n := 0;
      while n < g.nodes
        invariant 0 <= n <= g.nodes && Valid() && Grown() && Todo() <= old(Todo())
        invariant Todo() == old(Todo()) ==>
          && Now() == old(Now())
          && NoneDue(Now().w.traverse, cycle, n) && (left <==> !AllEmpty(Now().w.traverse, n))
        invariant !left ==> Todo() == old(Todo())
      {
        ghost var qs, todo := Now().w.traverse, Todo();
        GoodShape(trace, g, Now());
        ScanNext(qs, cycle, n);
        var some := EjectNode(n);
        assert Todo() == todo ==> Now().w.traverse == qs;
        left := left || some;
        n := n + 1;
      }
    }

    /** Waiting packet `i` of node `n` goes into the injection queue. */
    method Wake(n: nat, i: nat)
      requires Separate() && n < g.nodes && i < |stage|
      modifies this`stage, this`horizon, waiting.repr, inject.repr
      ensures Separate() && Grown() && Now() == WakeStep(old(Now()), n, i, cycle + L2_LATENCY)
      ensures horizon == Max(old(horizon), cycle + L2_LATENCY)
      ensures forall j :: j >= Find(old(Now()).w.waiting[n], i) ==> waiting.NodeAt(n, j) == old(waiting.NodeAt(n, j + 1))
    {
      hide Bank.Valid, Bank.Contents, Bank.Unpopped, Dependencies.Valid, Dependencies.Contents, Pushed, Removed, Find;
      waiting.Remove(n, i);
      inject.Push(n, i, cycle + L2_LATENCY);
      stage, horizon := stage[i := Queued], Max(horizon, cycle + L2_LATENCY);
    }

    method Visit(n: nat, node: NetQueue.Node<nat>, ghost j: nat) returns (woken: bool, next: NetQueue.Node?<nat>)
      requires Separate() && n < g.nodes && |stage| == |trace| && node == waiting.NodeAt(n, j)
      requires var q := Now().w.waiting[n]; j < |q| && q[j].elem < |trace| && Find(q, q[j].elem) == j
      modifies this`stage, this`horizon, waiting.repr, inject.repr
      ensures Separate() && Grown() && next == waiting.NodeAt(n, if woken then j else j + 1)
      ensures var i := old(Now()).w.waiting[n][j].elem;
        && (woken <==> Cleared(old(table.Contents()), trace[i]))
        && Now() == (if woken then WakeStep(old(Now()), n, i, cycle + L2_LATENCY) else old(Now()))
        && horizon == (if woken then Max(old(horizon), cycle + L2_LATENCY) else old(horizon))
    {
      hide Bank.Valid, Bank.Contents, Dependencies.Valid, Dependencies.Contents, Bank.Unpopped, Cleared, WakeStep, Find;
      var packet: nat;
      packet, next := waiting.Next(n, node, j);
      woken := DependenciesCleared(packet);
      if woken { Wake(n, packet); }
    }

    /** One entry of the waiting queue of node `n`: woken, if its dependencies are cleared. */
    method WakeOne(n: nat, node: NetQueue.Node<nat>, ghost j: nat) returns (woken: bool, next: NetQueue.Node?<nat>)
      requires Valid() && n < g.nodes && node == waiting.NodeAt(n, j)
      modifies this`stage, this`horizon, waiting.repr, inject.repr
      ensures Valid() && Grown() && next == waiting.NodeAt(n, if woken then j else j + 1)
      ensures j < |old(Now()).w.waiting[n]|
      ensures var q := old(Now()).w.waiting[n];
        && q[j].elem < |trace| && (woken <==> Cleared(old(Now()).table, trace[q[j].elem]))
        && (woken ==> Todo() < old(Todo()) && Now().table == old(Now()).table
                      && Now().w.waiting == old(Now()).w.waiting[n := q[..j] + q[j + 1..]])
        && (!woken ==> Now() == old(Now()) && horizon == old(horizon))
    {
      hide Good, Work, Bounded, Cleared, Removed, Scheduled;
      hide Bank.Valid, Bank.Contents, Dependencies.Valid, Dependencies.Contents, Bank.Unpopped;
      ghost var s, h := Now(), horizon;
      GoodShape(trace, g, s);
      ElemAt(s.w.waiting[n], j);
      ghost var packet := s.w.waiting[n][j].elem;
      WaitingKnown(trace, g, s, n, packet);
      WaitingAt(trace, g, s, n, j);
      woken, next := Visit(n, node, j);
      if woken {
        WakeGood(trace, g, s, n, packet, cycle + L2_LATENCY);
        WakeStepScheduled(trace, s, n, packet, last, cycle);
        WakeBounded(s, n, packet, cycle + L2_LATENCY, h);
      }
    }

    lemma WaitingApart()
      requires Separate()
      ensures waiting.Valid() && |waiting.queues| == g.nodes
    {
    }

    /** No packet still waiting at node `n` may go. */
    method WakeNode(n: nat) returns (left: bool)
      requires Valid() && n < g.nodes
      modifies this`stage, this`horizon, waiting.repr, inject.repr
      ensures Valid() && Grown() && Todo() <= old(Todo()) && (left <==> old(Now()).w.waiting[n] != [])
      ensures Todo() == old(Todo()) ==> Now() == old(Now()) && horizon == old(horizon)
      ensures !left ==> Todo() == old(Todo())
      ensures Now().w.waiting == old(Now()).w.waiting[n := Now().w.waiting[n]]
      ensures Stalled(trace, Now().table, Now().w.waiting[n], |Now().w.waiting[n]|)
    {
      hide Good, Work, Bank.Valid, Bank.Contents, Dependencies.Valid, Dependencies.Contents, Bank.Unpopped, Bounded, Cleared;
      hide Bank.NodeAt, Stalled, ReadSoFar, Separate, WakeStep, Scheduled;
      GoodShape(trace, g, Now());
      WaitingApart();
      NoneStalled(trace, Now().table, Now().w.waiting[n]);
      var none := waiting.Empty(n);
      left := !none;
      var temp := waiting.Head(n);
      ghost var j := 0;
      while temp != null
        invariant Valid() && Grown() && Todo() <= old(Todo()) && |Now().w.waiting| == g.nodes
        invariant waiting.Valid() && |waiting.queues| == g.nodes
        invariant temp == waiting.NodeAt(n, j) && j <= |Now().w.waiting[n]|
        invariant Todo() == old(Todo()) ==> Now() == old(Now()) && horizon == old(horizon)
        invariant !left ==> Todo() == old(Todo())
        invariant Now().w.waiting == old(Now()).w.waiting[n := Now().w.waiting[n]]
        invariant Stalled(trace, Now().table, Now().w.waiting[n], j)
        decreases |Now().w.waiting[n]| - j
      {
        ghost var q := Now().w.waiting[n];
        var woken;
        woken, temp := WakeOne(n, temp, j);
        WaitingApart();
        StalledNext(trace, Now().table, q, j);
        if !woken { j := j + 1; }
      }
    }

    method WakeAll() returns (left: bool)
      requires Valid()
      modifies this`stage, this`horizon, waiting.repr, inject.repr
      ensures Valid() && Grown() && Todo() <= old(Todo())
      ensures Todo() == old(Todo()) ==>
        && Now() == old(Now()) && horizon == old(horizon) && (left <==> !AllEmpty(Now().w.waiting, g.nodes))
      ensures !left ==> Todo() == old(Todo())
      ensures forall i :: 0 <= i < |trace| && stage[i] == Waiting ==> !Released(trace, stage, i)
    {
      hide Good, Work, Bounded, Bank.Valid, Bank.Contents, Dependencies.Valid, Dependencies.Contents, Bank.Unpopped;
      hide AllEmpty, Stalled, Released, Cleared, Scheduled;
      GoodShape(trace, g, Now());
      NoneYet(Now().w.waiting, cycle);
      left := false;
      var n := 0;
      while n < g.nodes
        invariant 0 <= n <= g.nodes && Valid() && Grown() && Todo() <= old(Todo()) && |Now().w.waiting| == g.nodes
        invariant Todo() == old(Todo()) ==>
          && Now() == old(Now()) && horizon == old(horizon) && (left <==> !AllEmpty(Now().w.waiting, n))
        invariant !left ==> Todo() == old(Todo())
        invariant forall k :: 0 <= k < n ==> Stalled(trace, Now().table, Now().w.waiting[k], |Now().w.waiting[k]|)
      {
        ghost var qs, todo := Now().w.waiting, Todo();
        ScanNext(qs, cycle, n);
        var some := WakeNode(n);
        assert Todo() == todo ==> Now().w.waiting == qs;
        left := left || some;
        n := n + 1;
      }
      StalledBlocked(trace, g, Now());
    }

    /** The packets of this cycle, unless enough have been placed. */
    method PlaceAll()
      requires Valid() && (!done ==> forall i :: totalRead <= i < |trace| ==> trace[i].cycle >= cycle)
      requires (done ==> 0 < limit <= totalRead) && last < cycle
      modifies this`tracePacket, this`read, this`totalRead, this`stage, this`horizon, this`done
      modifies table.chains, waiting.repr, inject.repr
      ensures Valid() && Grown() && Todo() <= old(Todo()) && totalRead >= old(totalRead)
      ensures Todo() == old(Todo()) ==> Now() == old(Now()) && horizon == old(horizon)
      ensures done <==> 0 < limit <= old(totalRead)
      ensures !done ==> forall i :: totalRead <= i < |trace| ==> trace[i].cycle > cycle
    {
      hide Good, Work, Bounded, PlaceStep, Scheduled;
      hide Bank.Valid, Bank.Contents, Dependencies.Valid, Dependencies.Contents, Bank.Unpopped;
      GoodShape(trace, g, Now());
      if limit == 0 || limit > totalRead {
        while tracePacket.Some? && trace[tracePacket.value].cycle == cycle
          invariant Valid() && Grown() && Todo() <= old(Todo()) && totalRead >= old(totalRead) && done == old(done)
          invariant Todo() == old(Todo()) ==> Now() == old(Now()) && horizon == old(horizon)
          invariant forall i :: totalRead <= i < |trace| ==> trace[i].cycle >= cycle
          decreases Todo()
        {
          PlaceOne();
        }
        assert tracePacket.Some? ==> trace[tracePacket.value].cycle >= cycle;
        GoodShape(trace, g, Now());
      } else {
        done := true;
      }
    }

    /** Injection, ejection, waking; whether some queue was found occupied. If nothing moves, all queues were found
        empty, or something is still due. */
    method Move() returns (packetsLeft: bool)
      requires Valid()
      modifies this`totalEjected, this`stage, this`log, this`horizon, this`last
      modifies table.chains, waiting.repr, inject.repr, traverse.repr
      ensures Valid() && Grown() && Todo() <= old(Todo()) && last == cycle
      ensures Todo() == old(Todo()) ==> horizon == old(horizon) && (packetsLeft ==> horizon > cycle)
      ensures !packetsLeft ==> Quiet(Now().w, g.nodes)
    {
      hide Good, Work, Bounded, Bank.Valid, Bank.Contents, Dependencies.Valid, Dependencies.Contents, Bank.Unpopped;
      hide AllEmpty, NoneDue, Released;
      Later(trace, Now().w, last, cycle, cycle, cycle);
      last := cycle;
      var inInject := InjectAll();
      var inTraverse := EjectAll();
      var inWaiting := WakeAll();
      packetsLeft := inInject || inTraverse || inWaiting;
      GoodShape(trace, g, Now());
      if Todo() == old(Todo()) { StillDue(trace, g, Now(), cycle, horizon); }
    }

    /** One cycle. */
    method Step() returns (packetsLeft: bool)
      requires Valid() && (!done ==> forall i :: totalRead <= i < |trace| ==> trace[i].cycle >= cycle)
      requires (done ==> 0 < limit <= totalRead) && last < cycle
      modifies this`cycle, this`tracePacket, this`read, this`totalRead, this`totalEjected, this`done
      modifies this`stage, this`log, this`horizon, this`last, table.chains, waiting.repr, inject.repr, traverse.repr
      ensures Valid() && Grown() && Todo() <= old(Todo()) && cycle == old(cycle) + 1 && last < cycle
      ensures Todo() == old(Todo()) ==> horizon == old(horizon) && (packetsLeft ==> horizon > old(cycle))
      ensures !packetsLeft ==> Quiet(Now().w, g.nodes)
      ensures done ==> 0 < limit <= totalRead
      ensures !done ==> forall i :: totalRead <= i < |trace| ==> trace[i].cycle >= cycle
    {
      hide Good, Work, Bounded, Bank.Valid, Bank.Contents, Dependencies.Valid, Dependencies.Contents, Bank.Unpopped, Quiet;
      hide Scheduled;
      PlaceAll();
      packetsLeft := Move();
      Later(trace, Now().w, last, cycle, last, cycle + 1);
      cycle := cycle + 1;
    }

    /** The whole run: it ends, and then every packet that was placed has been ejected, exactly once, and after
        everything that names it. Short of the limit these are at least the packets up to the last cycle of the trace. */
    method Run()
      requires WellFormed(trace, g.nodes) && g.xNodes > 0 && !done
      requires Separate() && Now() == State(Start(trace, g), map[], 0, 0) && read == 0 && horizon == numCycles + 1
      requires last < cycle && forall i :: 0 <= i < |trace| ==> cycle <= trace[i].cycle
      modifies this`cycle, this`tracePacket, this`read, this`totalRead, this`totalEjected, this`done
      modifies this`stage, this`log, this`horizon, this`last, table.chains, waiting.repr, inject.repr, traverse.repr
      ensures Valid() && Quiet(Now().w, g.nodes)
      ensures totalRead == totalEjected
      ensures limit == 0 || totalRead < limit ==> forall i :: totalRead <= i < |trace| ==> trace[i].cycle > numCycles
      ensures InjectedIn(log) == EjectedIn(log) == Upto(totalRead)
      ensures Once(log) && Causal(trace, log) && Timely(trace, g, log)
      ensures Punctual(trace, log) && Delayed(trace, g, log)
    {
      hide Good, Work, Bounded, Bank.Valid, Bank.Contents, Dependencies.Valid, Dependencies.Contents, Bank.Unpopped;
      hide WellFormed, Once, Causal, Timely, InjectedIn, EjectedIn, Quiet, Punctual, Delayed;
      Begin();
      StartQuiet(trace, g);
      var packetsLeft := false;
      while (!done && cycle <= numCycles) || packetsLeft
        invariant Valid() && Grown() && (!packetsLeft ==> Quiet(Now().w, g.nodes)) && last < cycle
        invariant done ==> 0 < limit <= totalRead
        invariant !done ==> forall i :: totalRead <= i < |trace| ==> trace[i].cycle >= cycle
        decreases Todo(), if horizon > cycle then horizon - cycle else 0, packetsLeft
      {
        packetsLeft := Step();
      }
      GoodShape(trace, g, Now());
      QuietDone(trace, g, Now());
      TimelyDelayed(trace, g, log);
    }
  }

  /** Exactly the head of injection queue `n` has gone into the network. */
  ghost predicate IsInjected(trace: seq<Packet>, g: Grid, s: State, n: nat, cycle: nat, s': State)
    requires n < |s.w.inject| && s.w.inject[n] != [] && g.xNodes > 0
  {
    var i := s.w.inject[n][0].elem;
    i < |trace| && i < |s.w.stage| && trace[i].dst < |s.w.traverse| && s' == InjectStep(trace, g, s, n, cycle)
  }

  /** Exactly the head of traverse queue `n` has left the network. */
  ghost predicate IsEjected(trace: seq<Packet>, g: Grid, s: State, n: nat, cycle: nat, s': State)
    requires n < |s.w.traverse| && s.w.traverse[n] != []
  {
    var i := s.w.traverse[n][0].elem;
    && i < |s.w.stage| == |trace| && Referred(s.table, trace[i].deps)
    && s' == EjectStep(trace, s, n, cycle)
  }

  lemma PlaceStepScheduled(trace: seq<Packet>, s: State, prio: nat, last: int, now: int)
    requires s.placed < |trace| == |s.w.stage| && trace[s.placed].src < |s.w.waiting| == |s.w.inject|
    requires Scheduled(trace, s.w, last, now) && last < now && trace[s.placed].cycle == now == prio
    ensures Scheduled(trace, PlaceStep(trace, s, prio).w, last, now)
  {
    hide Scheduled, Cleared, ReadTable;
    PlaceScheduled(trace, s.w, s.placed, prio, Cleared(s.table, trace[s.placed]), last, now);
  }

  lemma InjectStepScheduled(trace: seq<Packet>, g: Grid, s: State, n: nat, now: nat)
    requires Good(trace, g, s) && n < g.nodes && s.w.inject[n] != [] && s.w.inject[n][0].prio <= now
    requires s.w.inject[n][0].elem < |trace| && trace[s.w.inject[n][0].elem].dst < g.nodes
    requires Scheduled(trace, s.w, now, now)
    ensures Scheduled(trace, InjectStep(trace, g, s, n, now).w, now, now)
  {
    hide Scheduled, Inv, LogInv, Counted;
    InjectScheduled(trace, g, s.w, n, now, now);
  }

  lemma EjectStepScheduled(trace: seq<Packet>, g: Grid, s: State, n: nat, now: nat)
    requires Good(trace, g, s) && n < g.nodes && s.w.traverse[n] != [] && s.w.traverse[n][0].elem < |trace|
    requires Referred(s.table, trace[s.w.traverse[n][0].elem].deps) && Scheduled(trace, s.w, now, now)
    ensures Scheduled(trace, EjectStep(trace, s, n, now).w, now, now)
  {
    hide Scheduled, Inv, LogInv, Counted, Referred, Unrefer;
    EjectScheduled(trace, g, s.w, n, now, now);
  }

  lemma WakeStepScheduled(trace: seq<Packet>, s: State, n: nat, i: nat, last: int, now: int)
    requires Scheduled(trace, s.w, last, now) && n < |s.w.waiting| && n < |s.w.inject| && i < |s.w.stage| == |trace|
    requires s.w.stage[i] == Waiting && now >= 0
    ensures Scheduled(trace, WakeStep(s, n, i, now + L2_LATENCY).w, last, now)
  {
    hide Scheduled;
    WakeScheduled(trace, s.w, n, i, last, now);
  }

  /** The first `n` packets. */
  ghost function Upto(n: nat): (s: set<nat>)
    ensures |s| == n && forall i: nat :: i in s <==> i < n
  {
    if n == 0 then {}
    else
      var s := Upto(n - 1);
      assert n - 1 !in s;
      s + {n - 1}
  }

  /** Every queue is empty. */
  ghost predicate Quiet(w: World, nodes: nat) {
    && |w.waiting| == |w.inject| == |w.traverse| == nodes
    && AllEmpty(w.waiting, nodes) && AllEmpty(w.inject, nodes) && AllEmpty(w.traverse, nodes)
  }

  lemma StartQuiet(trace: seq<Packet>, g: Grid)
    ensures Quiet(Start(trace, g), g.nodes)
  {
  }

  lemma DueLater(qs: Queues, cycle: nat, horizon: nat, n: nat)
    requires n < |qs| && qs[n] != [] && Bounded(qs, horizon) && NoneDue(qs, cycle, |qs|)
    ensures horizon > cycle
  {
    assert qs[n][0] in qs[n];
  }

  /** While nothing is due, either something is due later or everything is empty: no packet is stuck. */
  lemma StillDue(trace: seq<Packet>, g: Grid, s: State, cycle: nat, horizon: nat)
    requires Good(trace, g, s) && Bounded(s.w.inject, horizon) && Bounded(s.w.traverse, horizon)
    requires Shape(trace, g.nodes, s.w) && NoneDue(s.w.inject, cycle, g.nodes) && NoneDue(s.w.traverse, cycle, g.nodes)
    requires forall i :: 0 <= i < |trace| && s.w.stage[i] == Waiting ==> !Released(trace, s.w.stage, i)
    ensures horizon > cycle || Quiet(s.w, g.nodes)
  {
    hide Released, LogInv, Counted, EachOnce, Safe;
    forall n | 0 <= n < g.nodes ensures horizon > cycle || (s.w.inject[n] == [] && s.w.traverse[n] == []) {
      if s.w.inject[n] != [] { DueLater(s.w.inject, cycle, horizon, n); }
      if s.w.traverse[n] != [] { DueLater(s.w.traverse, cycle, horizon, n); }
    }
    if horizon <= cycle {
      NoneStuck(trace, g.nodes, s.w, s.placed);
      forall n | 0 <= n < g.nodes ensures s.w.waiting[n] == [] {
        if s.w.waiting[n] != [] {
          HeadKnown(s.w.waiting, trace, s.w.stage, Waiting, n);
          assert false;
        }
      }
    }
  }

  /** With all queues empty, every placed packet has come and gone. */
  lemma QuietDone(trace: seq<Packet>, g: Grid, s: State)
    requires Good(trace, g, s) && Quiet(s.w, g.nodes)
    ensures s.placed == s.ejected && InjectedIn(s.w.log) == EjectedIn(s.w.log) == Upto(s.placed)
    ensures Once(s.w.log) && Causal(trace, s.w.log) && Timely(trace, g, s.w.log)
  {
    hide Once, Causal, Timely, Flights, Counted, Safe, EachOnce, InjectedIn, EjectedIn;
    forall i | 0 <= i < s.placed ensures s.w.stage[i] == Gone {
      assert WellFormed(trace, g.nodes);
      Absent(s.w.waiting, trace, s.w.stage, Waiting, i);
      Absent(s.w.inject, trace, s.w.stage, Queued, i);
      Absent(s.w.traverse, trace, s.w.stage, Flying, i);
    }
    var all := Upto(s.placed);
    assert Reached(s.w.stage, true) == all && Reached(s.w.stage, false) == all;
  }

  /** Then no waiting packet may go. */
  lemma StalledBlocked(trace: seq<Packet>, g: Grid, s: State)
    requires Good(trace, g, s)
    requires forall k :: 0 <= k < g.nodes ==> Stalled(trace, s.table, s.w.waiting[k], |s.w.waiting[k]|)
    ensures forall i :: 0 <= i < |trace| && s.w.stage[i] == Waiting ==> !Released(trace, s.w.stage, i)
  {
    hide Released, LogInv, Counted, Cleared;
    forall i | 0 <= i < |trace| && s.w.stage[i] == Waiting ensures !Released(trace, s.w.stage, i) {
      var n := trace[i].src;
      assert i in InStage(trace, s.w.stage, Waiting, n);
      var e :| e in s.w.waiting[n] && e.elem == i;
      var k :| 0 <= k < |s.w.waiting[n]| && s.w.waiting[n][k] == e;
      WaitingKnown(trace, g, s, n, i);
    }
  }

  /** None of the first `n` entries is cleared. */
  ghost predicate Stalled(trace: seq<Packet>, table: map<nat, Info>, q: seq<Entry<nat>>, n: nat)
    requires n <= |q|
  {
    forall k :: 0 <= k < n ==> q[k].elem < |trace| && !Cleared(table, trace[q[k].elem])
  }

  lemma NoneStalled(trace: seq<Packet>, table: map<nat, Info>, q: seq<Entry<nat>>)
    ensures Stalled(trace, table, q, 0)
  {
  }

  lemma StalledNext(trace: seq<Packet>, table: map<nat, Info>, q: seq<Entry<nat>>, j: nat)
    requires j < |q| && Stalled(trace, table, q, j)
    ensures Stalled(trace, table, q[..j] + q[j + 1..], j)
    ensures q[j].elem < |trace| && !Cleared(table, trace[q[j].elem]) ==> Stalled(trace, table, q, j + 1)
  {
    hide Cleared;
  }

  lemma WaitingAt(trace: seq<Packet>, g: Grid, s: State, n: nat, j: nat)
    requires Good(trace, g, s) && n < g.nodes && j < |s.w.waiting[n]|
    ensures Find(s.w.waiting[n], s.w.waiting[n][j].elem) == j
    ensures var q := s.w.waiting[n]; Removed(q, q[j].elem) == q[..j] + q[j + 1..]
  {
    assert EachOnce(s.w.waiting[n]);
    FindUnique(s.w.waiting[n], s.w.waiting[n][j].elem, j);
  }

  lemma WakeBounded(s: State, n: nat, i: nat, prio: nat, time: nat)
    requires n < |s.w.waiting| == |s.w.inject| && i < |s.w.stage|
    requires Bounded(s.w.inject, time) && Bounded(s.w.traverse, time)
    ensures var w := WakeStep(s, n, i, prio).w; Bounded(w.inject, Max(time, prio)) && Bounded(w.traverse, Max(time, prio))
  {
    hide Bounded, Pushed, Removed;
    PushedBounded(s.w.inject, time, n, i, prio);
    RaiseBound(s.w.traverse, time, prio);
  }

  lemma InjectBounded(trace: seq<Packet>, g: Grid, s: State, n: nat, cycle: nat, time: nat)
    requires Shape(trace, g.nodes, s.w) && n < g.nodes && s.w.inject[n] != [] && g.xNodes > 0
    requires s.w.inject[n][0].elem < |trace| && trace[s.w.inject[n][0].elem].dst < g.nodes
    requires Bounded(s.w.inject, time) && Bounded(s.w.traverse, time)
    ensures var w, t := InjectStep(trace, g, s, n, cycle).w, Max(time, cycle + Timing(g, trace[s.w.inject[n][0].elem]));
      Bounded(w.inject, t) && Bounded(w.traverse, t)
  {
    hide Bounded, Pushed, Timing;
    var i := s.w.inject[n][0].elem;
    PoppedBounded(s.w.inject, time, n);
    RaiseBound(s.w.inject[n := s.w.inject[n][1..]], time, cycle + Timing(g, trace[i]));
    PushedBounded(s.w.traverse, time, trace[i].dst, i, cycle + Timing(g, trace[i]));
  }

  lemma EjectBounded(trace: seq<Packet>, s: State, n: nat, cycle: nat, time: nat)
    requires n < |s.w.traverse| && s.w.traverse[n] != [] && s.w.traverse[n][0].elem < |s.w.stage| == |trace|
    requires Referred(s.table, trace[s.w.traverse[n][0].elem].deps) && Bounded(s.w.traverse, time)
    ensures var w := EjectStep(trace, s, n, cycle).w; w.inject == s.w.inject && Bounded(w.traverse, time)
  {
    PoppedBounded(s.w.traverse, time, n);
  }

  /** Placing a packet raises the bound no further than its time. */
  lemma PlaceBounded(trace: seq<Packet>, g: Grid, s: State, prio: nat, time: nat)
    requires Shape(trace, g.nodes, s.w) && s.placed < |trace| && trace[s.placed].src < g.nodes
    requires Bounded(s.w.inject, time) && Bounded(s.w.traverse, time)
    ensures var w, t := PlaceStep(trace, s, prio).w, if Cleared(s.table, trace[s.placed]) then Max(time, prio) else time;
      Bounded(w.inject, t) && Bounded(w.traverse, t)
  {
    hide Bounded, Pushed, Cleared, ReadTable;
    if Cleared(s.table, trace[s.placed]) {
      PushedBounded(s.w.inject, time, trace[s.placed].src, s.placed, prio);
      RaiseBound(s.w.traverse, time, prio);
    }
  }

  lemma RaiseBound(qs: Queues, time: nat, prio: nat)
    requires Bounded(qs, time)
    ensures Bounded(qs, Max(time, prio))
  {
  }

  lemma UnreferNone(m: map<nat, Info>)
    ensures Referred(m, []) && Unrefer(m, []) == m
  {
  }

  lemma UnreferNext(m: map<nat, Info>, deps: seq<nat>, k: nat)
    requires k < |deps| && Referred(m, deps[..k + 1])
    ensures Referred(m, deps[..k])
    ensures var m1 := Unrefer(m, deps[..k]);
      && deps[k] in m1 && m1[deps[k]].refCount > 0
      && Unrefer(m, deps[..k + 1]) == m1[deps[k] := m1[deps[k]].(refCount := m1[deps[k]].refCount - 1)]
  {
    assert deps[..k + 1][..k] == deps[..k];
  }

  lemma {:induction false} ReferredPrefix(m: map<nat, Info>, deps: seq<nat>, k: nat)
    requires Referred(m, deps) && k <= |deps|
    ensures Referred(m, deps[..k])
    decreases |deps|
  {
    if k == |deps| {
      assert deps[..k] == deps;
    } else {
      ReferredPrefix(m, deps[..|deps| - 1], k);
      assert deps[..|deps| - 1][..k] == deps[..k];
    }
  }
}
