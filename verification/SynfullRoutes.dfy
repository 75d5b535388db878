/** Who sends what to whom, and when: every message of a transaction runs between the nodes its entry names. The types
    and sizes of messages are spelled out as they are on the wire. */
module SynfullRoutes {
  import opened SynfullNet

  /** A packet runs where its transaction sends it. Requests are of type 1, responses of type 2. */
  ghost predicate Fits(t: Transaction, p: Packet) {
    // the initiating request goes from the requester to the home node
    && (p.id == p.address ==> p.source == t.source && p.dest == t.dest && p.msgType == 1)
    // forwarded requests and invalidations come from the home node
    && (p.id != p.address && p.msgType == 1 ==> p.source == t.dest)
    // acknowledgements (0), writeback acknowledgements (1) and data (2) go to the requester
    && (p.msgType == 2 && 0 <= p.coType <= 2 ==> p.dest == t.source)
    // writebacks are acknowledged by the home node
    && (p.msgType == 2 && p.coType == 1 ==> p.source == t.dest)
    // the unblock (5) goes from the requester to the home node
    && (p.msgType == 2 && p.coType == 5 ==> p.source == t.source && p.dest == t.dest)
    // only these messages exist; writes (0), reads (1), writebacks (2 and 3) and invalidations (4) are requests
    && ((p.msgType == 1 && 0 <= p.coType <= 4) || (p.msgType == 2 && (0 <= p.coType <= 2 || p.coType == 5)))
    // writebacks are not forwarded
    && (p.id != p.address && p.msgType == 1 ==> p.coType == 0 || p.coType == 1 || p.coType == 4)
    // messages that carry a cache line are longer
    && (p.msgType == 2 ==> p.packetSize == if p.coType == 2 then 72 else 8)
  }

  ghost predicate FitsIn(net: Net, p: Packet) {
    p.address in net.trans ==> Fits(net.trans[p.address], p)
  }

  /** A request that starts a transaction: a write (0), read (1) or writeback (2 and 3, the latter with the line). */
  ghost predicate Starts(p: Packet) {
    p.address == -1 ==>
      p.source % 2 == 0 && p.dest % 2 == 1 && p.msgType == 1 && 0 <= p.coType <= 3 && p.packetSize == if p.coType == 3 then 72 else 8
  }

  /** Requesters are even nodes, home nodes odd ones. */
  ghost predicate Parities(t: Transaction) { t.source % 2 == 0 && t.dest % 2 == 1 }

  /** All packets queued or in the network. Queued ones have no id yet. */
  ghost predicate Routed(net: Net) {
    && (forall a :: a in net.trans ==> Parities(net.trans[a]))
    && (forall t, p :: t in net.queue && p in net.queue[t] ==> p.id == -1 && FitsIn(net, p) && Starts(p))
    && (forall id :: id in net.packets ==> FitsIn(net, net.packets[id]))
  }

  // ---------- steps ----------

  lemma EnqueueRouted(net: Net, p: Packet, time: nat)
    requires Routed(net) && p.id == -1 && FitsIn(net, p) && Starts(p)
    ensures Routed(Enqueue(net, p, time))
  {
    hide Fits, Starts;
    var net' := Enqueue(net, p, time);
    forall t, x | t in net'.queue && x in net'.queue[t] ensures x.id == -1 && FitsIn(net', x) && Starts(x) {
      if t == time && x != p { assert t in net.queue && x in net.queue[t]; }
    }
  }

  /** Between the same two nodes. */
  lemma SetTransRouted(net: Net, a: int, t: Transaction)
    requires Routed(net) && a in net.trans && t.source == net.trans[a].source && t.dest == net.trans[a].dest
    ensures Routed(SetTrans(net, a, t))
  {
    var net' := SetTrans(net, a, t);
    forall p | FitsIn(net, p) ensures FitsIn(net', p) {
    }
    hide FitsIn;
  }

  lemma EraseRouted(net: Net, a: int)
    requires Routed(net)
    ensures Routed(Erase(net, a))
  {
    hide Fits;
  }

  lemma TakeRouted(net: Net, id: int)
    requires Routed(net)
    ensures Routed(Take(net, id))
  {
    hide Fits;
  }

  /** A packet without address starts a transaction between its ends; others keep their way. */
  lemma SendRouted(net: Net, time: int)
    requires Inv(net) && Routed(net) && time in net.queue && net.queue[time] != []
    ensures Routed(Send(net, time))
  {
    hide Sound;
    var p, net', n := net.queue[time][0], Send(net, time), net.nextId;
    assert p in net.queue[time];
    assert forall x :: x in net.queue[time][1..] ==> x in net.queue[time];
    forall x | FitsIn(net, x) && x.address < n && x.address >= -1 ensures FitsIn(net', x) {
    }
    forall id | id in net'.packets ensures FitsIn(net', net'.packets[id]) {
      if id == n && p.address != -1 {
        assert FitsIn(net, p);
        SentFits(net, p);
      }
    }
    hide FitsIn;
  }

  lemma SentFits(net: Net, p: Packet)
    requires FitsIn(net, p) && p.id == -1 && 0 <= p.address < net.nextId
    ensures FitsIn(net, p.(id := net.nextId))
  {
  }

  lemma InjectRouted(net: Net, time: int)
    requires Inv(net) && Routed(net) && time >= 0
    ensures Routed(Injected(net, time))
  {
    hide Inv;
    if time in net.queue {
      var ps := net.queue[time];
      LaunchAllRouted(net, time, |ps|);
      assert ps[..|ps|] == ps;
      var bare := LaunchAll(net.(queue := net.queue - {time}), ps);
      LaunchAllQueue(net.(queue := net.queue - {time}), ps);
      DropQueue(bare, net.queue[time := ps[|ps|..]]);
    } else {
      assert net.queue - {time} == net.queue;
    }
  }

  lemma DropQueue(net: Net, q: map<int, seq<Packet>>)
    requires Routed(net.(queue := q)) && forall t :: t in net.queue ==> t in q && net.queue[t] == q[t]
    ensures Routed(net)
  {
    hide Fits;
    assert forall p :: FitsIn(net.(queue := q), p) <==> FitsIn(net, p);
  }

  lemma {:induction false} LaunchAllRouted(net: Net, time: int, n: nat)
    requires Inv(net) && Routed(net) && time in net.queue && n <= |net.queue[time]|
    ensures Routed(LaunchAll(net.(queue := net.queue - {time}), net.queue[time][..n])
                     .(queue := net.queue[time := net.queue[time][n..]]))
  {
    hide Inv, Routed;
    var ps, bare := net.queue[time], net.(queue := net.queue - {time});
    if n == 0 {
      assert net.queue[time := ps[0..]] == net.queue;
    } else {
      LaunchAllRouted(net, time, n - 1);
      LaunchAllInv(net, time, n - 1);
      var net1 := LaunchAll(bare, ps[..n - 1]).(queue := net.queue[time := ps[n - 1..]]);
      SendRouted(net1, time);
      assert ps[..n][..n - 1] == ps[..n - 1];
      assert ps[n - 1..][1..] == ps[n..];
      assert net1.queue[time := ps[n..]] == net.queue[time := ps[n..]];
    }
  }

  lemma {:induction false} InvalidationsRouted(net: Net, a: int, dests: seq<int>, time: nat)
    requires a in net.trans && Routed(net) && a >= 0
    ensures Routed(Invalidations(net, a, net.trans[a].dest, dests, time))
    ensures var t := Invalidations(net, a, net.trans[a].dest, dests, time).trans;
      t[a].source == net.trans[a].source && t[a].dest == net.trans[a].dest
    decreases |dests|
  {
    if dests != [] {
      var source := net.trans[a].dest;
      InvalidationsRouted(net, a, dests[..|dests| - 1], time);
      var r := Invalidations(net, a, source, dests[..|dests| - 1], time);
      var t := r.trans[a].(invsSent := r.trans[a].invsSent + 1);
      SetTransRouted(r, a, t);
      EnqueueRouted(SetTrans(r, a, t), Packet(source, dests[|dests| - 1], -1, CONTROL_SIZE, REQUEST, INV, a), time);
    }
  }

  lemma AnswerRouted(net: Net, id: int, t: Transaction, r: Packet, time: nat)
    requires Routed(net) && id in net.packets && net.packets[id].address in net.trans && r.address == net.packets[id].address >= 0
    requires t.source == net.trans[r.address].source && t.dest == net.trans[r.address].dest && r.id == -1 && Fits(t, r)
    ensures Routed(Answer(net, id, t, r, time))
  {
    hide Fits;
    TakeRouted(net, id);
    SetTransRouted(Take(net, id), r.address, t);
    EnqueueRouted(SetTrans(Take(net, id), r.address, t), r, time);
  }

  /** Every delivery, in any order and with any draws, sends its answers where the transaction says. */
  lemma ReactRouted(net: Net, id: int, choice: Choice, now: nat)
    requires Inv(net) && Routed(net) && id in net.packets && net.packets[id].address in net.trans
    ensures Routed(React(net, id, choice, now))
  {
    var p := net.packets[id];
    var a, t := p.address, net.trans[p.address];
    assert FitsIn(net, p) && p.id == id && a >= 0;
    hide Inv, Routed, Enqueue, Invalidations;
    match KindOf(p)
    case Req =>
      if a == id {
        TakeRouted(net, id);
        match choice
        case Memory => EnqueueRouted(Take(net, id), Packet(p.dest, p.source, -1, DATA_SIZE, RESPONSE, DATA, a), now + 80);
        case Forward(dest, invs) => ForwardRouted(net, id, dest, invs, now);
      } else {
        AnswerRouted(net, id, t, Packet(p.dest, t.source, -1, DATA_SIZE, RESPONSE, DATA, a), now + 1);
      }
    case Inval => AnswerRouted(net, id, t, Packet(p.dest, t.source, -1, CONTROL_SIZE, RESPONSE, ACK, a), now + 1);
    case Data =>
      AnswerRouted(net, id, t.(dataReceived := true),
                   Packet(t.source, t.dest, -1, CONTROL_SIZE, RESPONSE, UNBLOCK, a), now + 1);
    case Ackn => AbsorbRouted(net, id, t.(acksReceived := t.acksReceived + 1));
    case Unblk => AbsorbRouted(net, id, t.(unblockReceived := true));
    case Other =>
      if p.msgType == REQUEST && (p.coType == PUTC || p.coType == PUTD) {
        AnswerRouted(net, id, t, Packet(p.dest, p.source, -1, CONTROL_SIZE, RESPONSE, WB_ACK, a), now + 1);
      } else {
        AbsorbRouted(net, id, t);
      }
  }

  lemma ForwardRouted(net: Net, id: int, dest: int, invs: seq<int>, now: nat)
    requires Routed(net) && id in net.packets && id >= 0 && id in net.trans && KindOf(net.packets[id]) == Req
    requires net.packets[id].id == net.packets[id].address == id && FitsIn(net, net.packets[id])
    ensures Routed(Served(Take(net, id), net.packets[id], Forward(dest, invs), now))
  {
    hide Routed, Enqueue, Invalidations;
    var p := net.packets[id];
    var r := Packet(p.dest, dest * 2, -1, CONTROL_SIZE, REQUEST, p.coType, id);
    TakeRouted(net, id);
    EnqueueRouted(Take(net, id), r, now + 1);
    if p.coType == WRITE {
      EnqueueTrans(Take(net, id), r, now + 1);
      InvalidationsRouted(Enqueue(Take(net, id), r, now + 1), id, invs, now + 1);
    }
  }

  lemma EnqueueTrans(net: Net, p: Packet, time: nat)
    ensures Enqueue(net, p, time).trans == net.trans
  {
  }

  lemma AbsorbRouted(net: Net, id: int, t: Transaction)
    requires Routed(net) && id in net.packets && net.packets[id].address in net.trans
    requires var e := net.trans[net.packets[id].address]; t.source == e.source && t.dest == e.dest
    ensures Routed(Absorb(net, id, t))
  {
    hide Routed;
    TakeRouted(net, id);
    EraseRouted(Take(net, id), net.packets[id].address);
    SetTransRouted(Take(net, id), net.packets[id].address, t);
  }

  /** `ps` are queued one after another, each for its own time. */
  function EnqueueAll(net: Net, ps: seq<(Packet, nat)>): Net
    decreases |ps|
  {
    if ps == [] then net else Enqueue(EnqueueAll(net, ps[..|ps| - 1]), ps[|ps| - 1].0, ps[|ps| - 1].1)
  }

  lemma {:induction false} EnqueueAllConcat(net: Net, ps: seq<(Packet, nat)>, qs: seq<(Packet, nat)>)
    ensures EnqueueAll(net, ps + qs) == EnqueueAll(EnqueueAll(net, ps), qs)
    decreases |qs|
  {
    hide Enqueue;
    if qs == [] {
      assert ps + qs == ps;
    } else {
      assert (ps + qs)[..|ps + qs| - 1] == ps + qs[..|qs| - 1];
      EnqueueAllConcat(net, ps, qs[..|qs| - 1]);
    }
  }

  /** A new request of this type and size, from an even to an odd node, an even number of cycles ahead. */
  ghost predicate NewRequest(p: Packet, time: nat, coType: int, size: int, cycle: nat) {
    && p == Packet(p.source, p.dest, -1, size, 1, coType, -1)
    && p.source % 2 == 0 && p.dest % 2 == 1 && time >= cycle && (time - cycle) % 2 == 0
  }

  ghost predicate NewRequests(ps: seq<(Packet, nat)>, count: int, coType: int, size: int, cycle: nat) {
    && |ps| == (if count < 0 then 0 else count)
    && forall i :: 0 <= i < |ps| ==> NewRequest(ps[i].0, ps[i].1, coType, size, cycle)
  }

  // ---------- exactly what is queued, and for when ----------

  /** `ps` have joined the end of what is queued for `time`, in this order, and nothing else in the queue has changed. */
  ghost predicate Queued(net: Net, net': Net, time: int, ps: seq<Packet>) {
    && At(net'.queue, time) == At(net.queue, time) + ps
    && forall t :: t != time ==> (t in net'.queue <==> t in net.queue) && At(net'.queue, t) == At(net.queue, t)
  }

  /** The invalidations of transaction `a`, one to each of `dests`. */
  ghost function InvsTo(a: int, source: int, dests: seq<int>): seq<Packet> {
    seq(|dests|, i requires 0 <= i < |dests| => Packet(source, dests[i], -1, 8, 1, 4, a))
  }

  lemma EnqueueQueued(net: Net, p: Packet, time: nat)
    ensures Queued(net, Enqueue(net, p, time), time, [p])
    ensures Enqueue(net, p, time).trans == net.trans && Enqueue(net, p, time).packets == net.packets
  {
  }

  lemma QueuedMore(net: Net, net1: Net, net2: Net, time: int, ps: seq<Packet>, qs: seq<Packet>)
    requires Queued(net, net1, time, ps) && Queued(net1, net2, time, qs)
    ensures Queued(net, net2, time, ps + qs)
  {
  }

  lemma InvalidateQueued(net: Net, a: int, source: int, dest: int, time: nat)
    requires a in net.trans
    ensures var net' := Invalidate(net, a, source, dest, time);
      && Queued(net, net', time, [Packet(source, dest, -1, 8, 1, 4, a)]) && net'.packets == net.packets
      && net'.trans == net.trans[a := net.trans[a].(invsSent := net.trans[a].invsSent + 1)]
  {
    hide Enqueue;
    var bare := SetTrans(net, a, net.trans[a].(invsSent := net.trans[a].invsSent + 1));
    EnqueueQueued(bare, Packet(source, dest, -1, 8, 1, 4, a), time);
  }

  lemma {:induction false} InvalidationsQueued(net: Net, a: int, source: int, dests: seq<int>, time: nat)
    requires a in net.trans
    ensures var r := Invalidations(net, a, source, dests, time);
      && Queued(net, r, time, InvsTo(a, source, dests)) && r.packets == net.packets
      && r.trans == net.trans[a := net.trans[a].(invsSent := net.trans[a].invsSent + |dests|)]
    decreases |dests|
  {
    hide Invalidate;
    if dests == [] {
      assert net.trans[a := net.trans[a]] == net.trans;
    } else {
      var m := |dests| - 1;
      var p := Packet(source, dests[m], -1, 8, 1, 4, a);
      assert InvsTo(a, source, dests) == InvsTo(a, source, dests[..m]) + [p];
      hide Queued, InvsTo;
      InvalidationsQueued(net, a, source, dests[..m], time);
      var r := Invalidations(net, a, source, dests[..m], time);
      InvalidateQueued(r, a, source, dests[m], time);
      QueuedMore(net, r, Invalidate(r, a, source, dests[m], time), time, InvsTo(a, source, dests[..m]), [p]);
    }
  }

  /** What a delivered packet of transaction `t` is answered with, and after how many cycles. */
  ghost function Answers(t: Transaction, p: Packet, choice: Choice): (r: (nat, seq<Packet>)) {
    var a := p.address;
    if p.msgType == 1 && (p.coType == 0 || p.coType == 1) then
      if p.id != a then (1, [Packet(p.dest, t.source, -1, 72, 2, 2, a)])          // forwarded: data to the requester
      else if choice.Memory? then (80, [Packet(t.dest, t.source, -1, 72, 2, 2, a)])   // memory: data to the requester
      else (1, [Packet(t.dest, 2 * choice.dest, -1, 8, 1, p.coType, a)]               // forwarded by the home node
               + if p.coType == 0 then InvsTo(a, t.dest, choice.invs) else [])
    else if p.msgType == 1 && p.coType == 4 then (1, [Packet(p.dest, t.source, -1, 8, 2, 0, a)])
    else if p.msgType == 1 then (1, [Packet(t.dest, t.source, -1, 8, 2, 1, a)])       // writeback acknowledged
    else if p.coType == 2 then (1, [Packet(t.source, t.dest, -1, 8, 2, 5, a)])        // data: the requester unblocks
    else (1, [])
  }

  /** The entry after a delivery. */
  ghost function Updated(t: Transaction, p: Packet, choice: Choice): Transaction {
    if p.msgType == 1 then
      if p.coType == 0 && p.id == p.address && choice.Forward? then t.(invsSent := t.invsSent + |choice.invs|) else t
    else if p.coType == 0 then t.(acksReceived := t.acksReceived + 1)
    else if p.coType == 2 then t.(dataReceived := true)
    else if p.coType == 5 then t.(unblockReceived := true)
    else t
  }

  ghost predicate Answered(net: Net, net': Net, p: Packet, choice: Choice, now: nat)
    requires p.address in net.trans
  {
    var t := net.trans[p.address];
    var (delay, ps), t' := Answers(t, p, choice), Updated(t, p, choice);
    && Queued(net, net', now + delay, ps)
    && net'.packets == net.packets - {p.id}
    && net'.trans == (if t'.acksReceived == t'.invsSent && t'.dataReceived && t'.unblockReceived
                      then net.trans - {p.address} else net.trans[p.address := t'])
  }

  lemma AnswerQueued(net: Net, id: int, t: Transaction, r: Packet, time: nat)
    requires id in net.packets
    ensures var net' := Answer(net, id, t, r, time);
      && Queued(net, net', time, [r]) && net'.packets == net.packets - {id}
      && net'.trans == net.trans[net.packets[id].address := t]
  {
    hide Enqueue;
    var bare := SetTrans(Take(net, id), net.packets[id].address, t);
    EnqueueQueued(bare, r, time);
    assert bare.queue == net.queue;
  }

  lemma AbsorbQueued(net: Net, id: int, t: Transaction, time: int)
    requires id in net.packets
    ensures var net', a := Absorb(net, id, t), net.packets[id].address;
      && Queued(net, net', time, []) && net'.packets == net.packets - {id}
      && net'.trans == if t.Completed() then net.trans - {a} else net.trans[a := t]
  {
  }

  lemma ServedMemory(net: Net, id: int, now: nat)
    requires id in net.packets && net.packets[id].address in net.trans
    ensures var p := net.packets[id];
      var net' := Served(Take(net, id), p, Memory, now);
      && Queued(net, net', now + 80, [Packet(p.dest, p.source, -1, 72, 2, 2, p.address)])
      && net'.packets == net.packets - {id} && net'.trans == net.trans
  {
    hide Enqueue;
    var p := net.packets[id];
    EnqueueQueued(Take(net, id), Packet(p.dest, p.source, -1, 72, 2, 2, p.address), now + 80);
  }

  lemma ServedForward(net: Net, id: int, dest: int, invs: seq<int>, now: nat)
    requires id in net.packets && net.packets[id].address in net.trans
    ensures var p := net.packets[id];
      var net', a, t := Served(Take(net, id), p, Forward(dest, invs), now), p.address, net.trans[p.address];
      && Queued(net, net', now + 1, [Packet(p.dest, dest * 2, -1, 8, 1, p.coType, a)]
                                    + if p.coType == 0 then InvsTo(a, p.dest, invs) else [])
      && net'.packets == net.packets - {id}
      && net'.trans == if p.coType == 0 then net.trans[a := t.(invsSent := t.invsSent + |invs|)] else net.trans
  {
    hide Enqueue, Invalidations, InvsTo;
    var p, bare := net.packets[id], Take(net, id);
    var r := Packet(p.dest, dest * 2, -1, 8, 1, p.coType, p.address);
    var net1 := Enqueue(bare, r, now + 1);
    EnqueueQueued(bare, r, now + 1);
    assert Queued(net, net1, now + 1, [r]);
    if p.coType == 0 {
      InvalidationsQueued(net1, p.address, p.dest, invs, now + 1);
      hide Queued;
      QueuedMore(net, net1, Invalidations(net1, p.address, p.dest, invs, now + 1), now + 1, [r], InvsTo(p.address, p.dest, invs));
    } else {
      assert [r] + [] == [r];
    }
  }

  /** A delivery queues exactly these answers, takes exactly this packet out of the network, and changes the entry of
      its transaction alone, which goes when all invalidations are acknowledged and data and unblock have arrived. */
  lemma ReactAnswers(net: Net, id: int, choice: Choice, now: nat)
    requires Inv(net) && Routed(net) && id in net.packets && net.packets[id].address in net.trans
    ensures Answered(net, React(net, id, choice, now), net.packets[id], choice, now)
  {
    Delivered(net, id);
    hide *;
    if KindOf(net.packets[id]) == Req {
      RequestAnswers(net, id, choice, now);
    } else {
      OtherAnswers(net, id, choice, now);
    }
  }

  /** What is known of a delivered packet. */
  lemma Delivered(net: Net, id: int)
    requires Inv(net) && Routed(net) && id in net.packets && net.packets[id].address in net.trans
    ensures Known(net, id)
  {
    NotCompleted(net, net.packets[id].address);
    ServedComplete(net, id);
    assert FitsIn(net, net.packets[id]);
  }

  ghost predicate Known(net: Net, id: int) {
    && id in net.packets && net.packets[id].address in net.trans && net.packets[id].id == id
    && var p := net.packets[id];
    var t := net.trans[p.address];
    && Fits(t, p) && !t.Completed() && !t.(dataReceived := true).Completed()
    && (p.address == id && KindOf(p) == Req ==> !t.dataReceived || !t.unblockReceived)
  }

  lemma RequestAnswers(net: Net, id: int, choice: Choice, now: nat)
    requires Known(net, id) && KindOf(net.packets[id]) == Req
    ensures Answered(net, React(net, id, choice, now), net.packets[id], choice, now)
  {
    if net.packets[id].address != id {
      ForwardedAnswers(net, id, choice, now);
    } else if choice.Memory? {
      MemoryAnswers(net, id, now);
    } else {
      ForwardAnswers(net, id, choice.dest, choice.invs, now);
    }
  }

  lemma ForwardedAnswers(net: Net, id: int, choice: Choice, now: nat)
    requires Known(net, id) && KindOf(net.packets[id]) == Req && net.packets[id].address != id
    ensures Answered(net, React(net, id, choice, now), net.packets[id], choice, now)
  {
    var p := net.packets[id];
    var a, t := p.address, net.trans[p.address];
    hide Served, Answer, Absorb, Queued, InvsTo;
    AnswerQueued(net, id, t, Packet(p.dest, t.source, -1, 72, 2, 2, a), now + 1);
  }

  lemma MemoryAnswers(net: Net, id: int, now: nat)
    requires Known(net, id) && KindOf(net.packets[id]) == Req && net.packets[id].address == id
    ensures Answered(net, React(net, id, Memory, now), net.packets[id], Memory, now)
  {
    hide Served, Answer, Absorb, Queued, InvsTo;
    assert net.trans[id := net.trans[id]] == net.trans;
    ServedMemory(net, id, now);
  }

  lemma ForwardAnswers(net: Net, id: int, dest: int, invs: seq<int>, now: nat)
    requires Known(net, id) && KindOf(net.packets[id]) == Req && net.packets[id].address == id
    ensures Answered(net, React(net, id, Forward(dest, invs), now), net.packets[id], Forward(dest, invs), now)
  {
    hide Served, Answer, Absorb, Queued, InvsTo;
    assert net.trans[id := net.trans[id]] == net.trans;
    ServedForward(net, id, dest, invs, now);
  }

  lemma OtherAnswers(net: Net, id: int, choice: Choice, now: nat)
    requires Known(net, id) && KindOf(net.packets[id]) != Req
    ensures Answered(net, React(net, id, choice, now), net.packets[id], choice, now)
  {
    var p := net.packets[id];
    if p.msgType == 1 || p.coType == 2 {
      ReplyAnswers(net, id, choice, now);
    } else {
      LastAnswers(net, id, choice, now);
    }
  }

  lemma ReplyAnswers(net: Net, id: int, choice: Choice, now: nat)
    requires Known(net, id) && KindOf(net.packets[id]) != Req
    requires net.packets[id].msgType == 1 || net.packets[id].coType == 2
    ensures Answered(net, React(net, id, choice, now), net.packets[id], choice, now)
  {
    var p := net.packets[id];
    var a, t := p.address, net.trans[p.address];
    hide Served, Answer, Absorb, Queued, InvsTo;
    var r := Answers(t, p, choice).1[0];
    AnswerQueued(net, id, Updated(t, p, choice), r, now + 1);
    assert Answers(t, p, choice) == (1, [r]);
    assert !Updated(t, p, choice).Completed();
  }

  lemma LastAnswers(net: Net, id: int, choice: Choice, now: nat)
    requires Known(net, id) && KindOf(net.packets[id]) != Req
    requires net.packets[id].msgType != 1 && net.packets[id].coType != 2
    ensures Answered(net, React(net, id, choice, now), net.packets[id], choice, now)
  {
    var p := net.packets[id];
    var t := net.trans[p.address];
    hide Served, Answer, Absorb, Queued, InvsTo;
    AbsorbQueued(net, id, Updated(t, p, choice), now + 1);
    assert Answers(t, p, choice) == (1, []);
  }

  /** More invalidations do not complete a transaction either. */
  lemma ServedComplete(net: Net, id: int)
    requires Inv(net) && id in net.packets && net.packets[id].address in net.trans
    ensures net.packets[id].address == id && KindOf(net.packets[id]) == Req ==>
      !net.trans[id].dataReceived || !net.trans[id].unblockReceived
  {
    DeliveredHasEntry(net, id);
    assert Sound(net, net.packets[id].address);
  }
}
