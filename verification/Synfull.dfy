/** The SynFull traffic generator: coherence transactions injected into, and answered from, a network simulator. */
module Synfull {
  import opened SynfullNet
  import opened SynfullRoutes

  /** What the random draws and the network decide in one cycle: the messages to initiate, if a new interval
      begins, and the packets delivered, each with the draws its delivery uses. */
  datatype Load = Load(writeCount: int, readCount: int, ccrCount: int, dcrCount: int)
  datatype Script = Script(load: Load, deliveries: seq<(int, Choice)>)

  class Generator {
    var cycle: nat
    var messageId: int
    var queue: map<int, seq<Packet>>
    var inTransitPackets: map<int, Packet>
    var inTransitTransactions: map<int, Transaction>
    ghost var horizon: nat
    ghost var coherent: set<int>
    ghost var sent: map<int, int>
    ghost var invs: map<int, int>

    ghost function Now(): Net
      reads this
    {
      Net(queue, inTransitPackets, inTransitTransactions, messageId, horizon, coherent, sent, invs)
    }

    /** The protocol invariant, every packet on its way between the right nodes, and nothing queued into the past. */
    ghost predicate Valid()
      reads this
    {
      Inv(Now()) && Routed(Now()) && NothingPast(Now(), cycle)
    }

    constructor ()
      ensures Valid() && cycle == 0 && messageId == 0
      ensures queue == map[] && inTransitPackets == map[] && inTransitTransactions == map[]
    {
      cycle, messageId := 0, 0;
      queue, inTransitPackets, inTransitTransactions := map[], map[], map[];
      horizon, coherent, sent, invs := 0, {}, map[], map[];
    }

    /** `PacketQueue::Enqueue`. */
    method Put(packet: Packet, time: nat)
      modifies this`queue, this`horizon, this`sent, this`invs
      ensures Now() == Enqueue(old(Now()), packet, time)
    {
      queue := queue[time := (if time in queue then queue[time] else []) + [packet]];
      horizon := if time < horizon then horizon else time + 1;
      sent := if packet.address in sent then sent[packet.address := sent[packet.address] + 1] else sent;
      invs := if packet.address in invs && KindOf(packet) == Inval then invs[packet.address := invs[packet.address] + 1] else invs;
    }

    method QueuePacket(source: int, destination: int, msgType: int, coType: int, packetSize: int, time: nat, address: int)
      modifies this`queue, this`horizon, this`sent, this`invs
      ensures Now() == Enqueue(old(Now()), Packet(source, destination, -1, packetSize, msgType, coType, address), time)
    {
      Put(Packet(source, destination, -1, packetSize, msgType, coType, address), time);
    }

    /** One request from an even node to an odd one, queued for an even distance in time. */
    method InitiateOne(coType: int, size: int) returns (ghost new_: (Packet, nat))
      requires Valid() && WRITE <= coType <= PUTD && size == SizeOf(coType)
      modifies this`queue, this`horizon, this`sent, this`invs
      ensures Valid() && Waits(old(Now()), Now(), RequestKind(coType), 1)
      ensures NewRequest(new_.0, new_.1, coType, size, cycle) && Now() == Enqueue(old(Now()), new_.0, new_.1)
    {
      hide Inv, Count, Routed;
      var delta: nat :| 0 <= delta;
      var source: int, destination: int := *, *;
      ghost var net := Now();
      var p := Packet(source * 2, destination * 2 + 1, -1, size, REQUEST, coType, -1);
      InvFacts(net);
      InitiateWaits(net, p, cycle + delta * 2);
      NewFits(net, p);
      EnqueueRouted(net, p, cycle + delta * 2);
      QueuePacket(source * 2, destination * 2 + 1, REQUEST, coType, size, cycle + delta * 2, -1);
      new_ := (p, cycle + delta * 2);
    }

    /** One of the four loops of `UniformInject`. */
    method InjectUniformly(count: int, coType: int, size: int) returns (ghost added: seq<(Packet, nat)>)
      requires Valid() && WRITE <= coType <= PUTD && size == SizeOf(coType)
      modifies this`queue, this`horizon, this`sent, this`invs
      ensures Valid() && Waits(old(Now()), Now(), RequestKind(coType), count)
      ensures NewRequests(added, count, coType, size, cycle) && Now() == EnqueueAll(old(Now()), added)
    {
      hide Inv, NothingPast, Count, Routed, NewRequest;
      InvFacts(Now());
      assert old(Now()) == Now() && Max0(0) == 0;
      var i := 0;
      added := [];
      while i < count
        invariant Valid() && 0 <= i && (i <= count || i == 0)
        invariant Waits(old(Now()), Now(), RequestKind(coType), i)
        invariant NewRequests(added, i, coType, size, cycle) && Now() == EnqueueAll(old(Now()), added)
        modifies this`queue, this`horizon, this`sent, this`invs
        decreases count - i
      {
        ghost var new_ := InitiateOne(coType, size);
        assert (added + [new_])[..|added|] == added;
        added := added + [new_];
        i := i + 1;
      }
      assert Max0(i) == Max0(count);
    }

    /** `sendPacket`: `packet` gets the next id, and a packet without address starts a transaction. */
    method SendPacket(packet: Packet)
      modifies this`messageId, this`inTransitPackets, this`inTransitTransactions, this`coherent, this`sent, this`invs
      ensures Now() == Launch(old(Now()), packet)
    {
      var req := packet.(id := messageId);
      if req.address == -1 {
        req := req.(address := messageId);
        inTransitTransactions := inTransitTransactions[req.address := Transaction(req.source, req.dest, 0, 0, false, false)];
        if req.coType == WRITE || req.coType == READ { coherent := coherent + {messageId}; }
        sent, invs := sent[messageId := 1], invs[messageId := 0];
      } else {
        sent, invs := sent[messageId := 0], invs[messageId := 0];
      }
      inTransitPackets := inTransitPackets[messageId := req];
      messageId := messageId + 1;
    }

    /** `Inject`: everything queued for this cycle enters the network, in order and with consecutive ids. */
    method Inject()
      requires Valid()
      modifies this`queue, this`messageId, this`inTransitPackets, this`inTransitTransactions,
               this`coherent, this`sent, this`invs
      ensures Valid() && NothingPast(Now(), cycle + 1)
      ensures Now() == Injected(old(Now()), cycle)
    {
      hide Inv, Routed;
      var packets := if cycle in queue then queue[cycle] else [];
      queue := queue[cycle := packets];
      var i := 0;
      while i < |packets|
        invariant 0 <= i <= |packets| && queue == old(queue)[cycle := packets]
        invariant Now().(queue := old(queue) - {cycle}) == LaunchAll(old(Now()).(queue := old(queue) - {cycle}), packets[..i])
        modifies this`messageId, this`inTransitPackets, this`inTransitTransactions, this`coherent, this`sent, this`invs
      {
        assert packets[..i + 1][..i] == packets[..i];
        SendPacket(packets[i]);
        i := i + 1;
      }
      assert packets[..|packets|] == packets;
      queue := queue - {cycle};
      assert queue == old(queue) - {cycle};
      InjectInv(old(Now()), cycle);
      InjectRouted(old(Now()), cycle);
    }

    /** The invalidations of a forwarded write. */
    method Invalidate(a: int, source: int, dests: seq<int>)
      requires a in inTransitTransactions
      modifies this`queue, this`horizon, this`sent, this`invs, this`inTransitTransactions
      ensures Now() == Invalidations(old(Now()), a, source, dests, cycle + 1)
    {
      hide Enqueue;
      var i := 0;
      while i < |dests|
        invariant 0 <= i <= |dests| && a in inTransitTransactions
        invariant Now() == Invalidations(old(Now()), a, source, dests[..i], cycle + 1)
        modifies this`queue, this`horizon, this`sent, this`invs, this`inTransitTransactions
      {
        assert dests[..i + 1][..i] == dests[..i];
        var t := inTransitTransactions[a];
        EnqueueSetTrans(Now(), a, t.(invsSent := t.invsSent + 1),
                        Packet(source, dests[i], -1, CONTROL_SIZE, REQUEST, INV, a), cycle + 1);
        QueuePacket(source, dests[i], REQUEST, INV, CONTROL_SIZE, cycle + 1, a);
        inTransitTransactions := inTransitTransactions[a := t.(invsSent := t.invsSent + 1)];
        i := i + 1;
      }
      assert dests[..|dests|] == dests;
    }

    /** `react`, for the part that may return early: an initiating read or write. */
    method Serve(request: Packet, choice: Choice)
      requires request.address in inTransitTransactions
      modifies this`queue, this`horizon, this`sent, this`invs, this`inTransitTransactions
      ensures Now() == Served(old(Now()), request, choice, cycle)
    {
      match choice
      case Memory =>
        QueuePacket(request.dest, request.source, RESPONSE, DATA, DATA_SIZE, cycle + 80, request.address);
      case Forward(dest, invs) =>
        var destination := dest * 2;
        QueuePacket(request.dest, destination, REQUEST, request.coType, CONTROL_SIZE, cycle + 1, request.address);
        if request.coType == WRITE {
          Invalidate(request.address, request.dest, invs);
        }
    }

    /** `react`, once the packet is found: the entry of its transaction is updated, the answer queued, and a
        completed transaction erased. */
    method Handle(id: int, choice: Choice)
      requires id in inTransitPackets && inTransitPackets[id].id == id
      requires inTransitPackets[id].address in inTransitTransactions
      requires var t := inTransitTransactions[inTransitPackets[id].address];
        !t.Completed() && !t.(dataReceived := true).Completed()
      modifies this`queue, this`horizon, this`sent, this`invs, this`inTransitPackets, this`inTransitTransactions
      ensures Now() == SynfullNet.React(old(Now()), id, choice, cycle)
    {
      hide Served, Enqueue;
      var request := inTransitPackets[id];
      inTransitPackets := inTransitPackets - {id};
      var a := request.address;
      var t := inTransitTransactions[a];
      assert inTransitTransactions[a := t] == inTransitTransactions;
      if request.msgType == REQUEST && (request.coType == WRITE || request.coType == READ) {
        if a == request.id {
          Serve(request, choice);
          return;
        }
        QueuePacket(request.dest, t.source, RESPONSE, DATA, DATA_SIZE, cycle + 1, a);
      } else if request.msgType == REQUEST && (request.coType == PUTC || request.coType == PUTD) {
        QueuePacket(request.dest, request.source, RESPONSE, WB_ACK, CONTROL_SIZE, cycle + 1, a);
      } else if request.msgType == REQUEST && request.coType == INV {
        QueuePacket(request.dest, t.source, RESPONSE, ACK, CONTROL_SIZE, cycle + 1, a);
      } else if request.msgType == RESPONSE && request.coType == DATA {
        inTransitTransactions := inTransitTransactions[a := t.(dataReceived := true)];
        QueuePacket(t.source, t.dest, RESPONSE, UNBLOCK, CONTROL_SIZE, cycle + 1, a);
      } else if request.msgType == RESPONSE && request.coType == ACK {
        inTransitTransactions := inTransitTransactions[a := t.(acksReceived := t.acksReceived + 1)];
      } else if request.msgType == RESPONSE && request.coType == UNBLOCK {
        inTransitTransactions := inTransitTransactions[a := t.(unblockReceived := true)];
      }
      if inTransitTransactions[a].Completed() {
        inTransitTransactions := inTransitTransactions - {a};
      }
    }

    /** `InitiateMessages`: writes (0), reads (1), and writebacks without (2) and with the cache line (3). */
    method InitiateMessages(load: Load)
      returns (ghost ws: seq<(Packet, nat)>, ghost rs: seq<(Packet, nat)>, ghost clean: seq<(Packet, nat)>,
               ghost dirty: seq<(Packet, nat)>)
      requires Valid()
      modifies this`queue, this`horizon, this`sent, this`invs
      ensures Valid()
      ensures Count(Now(), -1, Req) == Count(old(Now()), -1, Req) + Max0(load.writeCount) + Max0(load.readCount)
      ensures Count(Now(), -1, Other) == Count(old(Now()), -1, Other) + Max0(load.ccrCount) + Max0(load.dcrCount)
      ensures Now() == EnqueueAll(old(Now()), ws + rs + clean + dirty)
      ensures NewRequests(ws, load.writeCount, 0, 8, cycle) && NewRequests(rs, load.readCount, 1, 8, cycle)
      ensures NewRequests(clean, load.ccrCount, 2, 8, cycle) && NewRequests(dirty, load.dcrCount, 3, 72, cycle)
    {
      hide Inv, NothingPast, Count, Routed, NewRequests;
      ws := InjectUniformly(load.writeCount, WRITE, CONTROL_SIZE);
      rs := InjectUniformly(load.readCount, READ, CONTROL_SIZE);
      EnqueueAllConcat(old(Now()), ws, rs);
      clean := InjectUniformly(load.ccrCount, PUTC, CONTROL_SIZE);
      EnqueueAllConcat(old(Now()), ws + rs, clean);
      dirty := InjectUniformly(load.dcrCount, PUTD, DATA_SIZE);
      EnqueueAllConcat(old(Now()), ws + rs + clean, dirty);
    }

    /** `react`: packet `id` has been delivered. An unknown id is an error; the transaction of a known one is
        always there. */
    method React(id: int, choice: Choice) returns (found: bool)
      requires Valid()
      modifies this`queue, this`horizon, this`sent, this`invs, this`inTransitPackets, this`inTransitTransactions
      ensures found <==> id in old(inTransitPackets)
      ensures !found ==> Now() == old(Now())
      ensures found ==>
        && id in old(Now()).packets && old(inTransitPackets)[id].address in old(inTransitTransactions)
        && Now() == SynfullNet.React(old(Now()), id, choice, cycle)
        && Answered(old(Now()), Now(), old(inTransitPackets)[id], choice, cycle)
      ensures Valid() && (NothingPast(old(Now()), cycle + 1) ==> NothingPast(Now(), cycle + 1))
    {
      hide Inv, NothingPast, SynfullNet.React, Routed, Answered;
      found := id in inTransitPackets;
      if !found { return; }
      ghost var net := Now();
      ReactInv(net, id, choice, cycle);
      ReactRouted(net, id, choice, cycle);
      ReactAnswers(net, id, choice, cycle);
      ReactPast(net, id, choice, cycle, cycle);
      if NothingPast(net, cycle + 1) { ReactPast(net, id, choice, cycle, cycle + 1); }
      NotCompleted(net, inTransitPackets[id].address);
      InvFacts(net);
      Handle(id, choice);
    }

    /** `Eject`: the network hands over packets one after another, in its own order; the generator stops at a
        packet it does not know. */
    method Eject(deliveries: seq<(int, Choice)>) returns (ok: bool)
      requires Valid() && NothingPast(Now(), cycle + 1)
      modifies this`queue, this`horizon, this`sent, this`invs, this`inTransitPackets, this`inTransitTransactions
      ensures Valid() && NothingPast(Now(), cycle + 1)
      ensures ok ==> inTransitPackets.Keys == old(inTransitPackets.Keys) - Ids(deliveries)
      ensures !ok ==> exists i :: 0 <= i < |deliveries| && deliveries[i].0 !in old(inTransitPackets.Keys) - Ids(deliveries[..i])
    {
      hide Inv, NothingPast, SynfullNet.React, Routed, Answered;
      var i := 0;
      while i < |deliveries|
        invariant 0 <= i <= |deliveries| && Valid() && NothingPast(Now(), cycle + 1)
        invariant inTransitPackets.Keys == old(inTransitPackets.Keys) - Ids(deliveries[..i])
        modifies this`queue, this`horizon, this`sent, this`invs, this`inTransitPackets, this`inTransitTransactions
      {
        var (id, choice) := deliveries[i];
        IdsNext(deliveries, i);
        ghost var net := Now();
        ok := React(id, choice);
        if !ok { return; }
        ReactPackets(net, id, choice, cycle);
        i := i + 1;
      }
      assert deliveries[..|deliveries|] == deliveries;
      ok := true;
    }

    /** The cycles of `Run`: new messages at the start of an interval, injection, ejection. */
    method Run(scripts: seq<Script>) returns (ok: bool)
      requires Valid()
      modifies this
      ensures Valid()
      ensures ok ==> cycle == old(cycle) + |scripts|
    {
      hide Inv, Routed;
      var i := 0;
      while i < |scripts|
        invariant 0 <= i <= |scripts| && Valid() && cycle == old(cycle) + i
      {
        ghost var ws, rs, clean, dirty := InitiateMessages(scripts[i].load);
        Inject();
        ok := Eject(scripts[i].deliveries);
        if !ok { return; }
        cycle := cycle + 1;
        i := i + 1;
      }
      ok := true;
    }
  }

  ghost function Ids(deliveries: seq<(int, Choice)>): set<int> {
    set i | 0 <= i < |deliveries| :: deliveries[i].0
  }

  lemma IdsNext(deliveries: seq<(int, Choice)>, i: nat)
    requires i < |deliveries|
    ensures Ids(deliveries[..i + 1]) == Ids(deliveries[..i]) + {deliveries[i].0}
  {
    var next, s := deliveries[..i + 1], deliveries[..i];
    forall x | x in Ids(s) ensures x in Ids(next) {
      var j :| 0 <= j < |s| && s[j].0 == x;
      assert next[j].0 == x;
    }
    assert next[i].0 == deliveries[i].0;
  }

  function SizeOf(coType: int): int { if coType == PUTD then DATA_SIZE else CONTROL_SIZE }

  function RequestKind(coType: int): Kind { if coType <= READ then Req else Other }

  function Max0(n: int): nat { if n < 0 then 0 else n }

  /** `count` requests of one kind more wait for injection, and none of another kind. */
  ghost predicate Waits(net: Net, net': Net, k: Kind, count: int)
  {
    net.nextId >= 0 && net'.nextId >= 0 &&
    forall j :: Count(net', -1, j) == Count(net, -1, j) + if j == k then Max0(count) else 0
  }

  lemma InvFacts(net: Net)
    requires Inv(net)
    ensures net.nextId >= 0 && forall id :: id in net.packets ==> net.packets[id].id == id
  {
  }

  /** No transaction has address -1. */
  lemma NewFits(net: Net, p: Packet)
    requires Inv(net) && Initiating(p)
    ensures FitsIn(net, p)
  {
  }

  lemma InitiateWaits(net: Net, p: Packet, time: nat)
    requires Inv(net) && Initiating(p)
    ensures Inv(Enqueue(net, p, time)) && Waits(net, Enqueue(net, p, time), RequestKind(p.coType), 1)
  {
    hide Count, Sound, Same;
    InitiateInv(net, p, time);
    forall k ensures Count(Enqueue(net, p, time), -1, k) == Count(net, -1, k) + Ind(KindOf(p) == k) {
      EnqueueCount(net, p, time, -1, k);
    }
  }
}
