/** Coherence transactions over a network that delivers in any order: packets, transactions, and what every
    reachable state satisfies. */
module SynfullNet {

  const REQUEST := 1
  const RESPONSE := 2
  // coherence types of requests
  const WRITE := 0
  const READ := 1
  const PUTC := 2
  const PUTD := 3
  const INV := 4
  // coherence types of responses
  const ACK := 0
  const WB_ACK := 1
  const DATA := 2
  const UNBLOCK := 5

  const CONTROL_SIZE := 8
  const DATA_SIZE := 72

  /** `address` is -1 until the packet that starts a transaction is injected. */
  datatype Packet = Packet(source: int, dest: int, id: int, packetSize: int, msgType: int, coType: int, address: int)

  datatype Transaction = Transaction(source: int, dest: int, invsSent: int, acksReceived: int,
                                     dataReceived: bool, unblockReceived: bool)
  {
    predicate Completed() {
      invsSent == acksReceived && dataReceived && unblockReceived
    }
  }

  /** What a packet is to its transaction. */
  datatype Kind = Req | Inval | Ackn | Data | Unblk | Other

  function KindOf(p: Packet): Kind {
    if p.msgType == REQUEST then
      if p.coType == WRITE || p.coType == READ then Req else if p.coType == INV then Inval else Other
    else if p.msgType == RESPONSE then
      if p.coType == DATA then Data else if p.coType == ACK then Ackn else if p.coType == UNBLOCK then Unblk else Other
    else Other
  }

  /** The generator's global maps. `horizon` bounds the times in the queue; `coherent` are the transactions
      started by reads and writes; `sent` and `invs` count, per transaction, all messages and invalidations so far. */
  datatype Net = Net(queue: map<int, seq<Packet>>, packets: map<int, Packet>, trans: map<int, Transaction>, nextId: int,
                     horizon: nat, coherent: set<int>, sent: map<int, int>, invs: map<int, int>)

  // ---------- counting messages ----------

  ghost function Ind(b: bool): nat { if b then 1 else 0 }

  ghost predicate Is(p: Packet, a: int, k: Kind) { p.address == a && KindOf(p) == k }

  ghost function InList(s: seq<Packet>, a: int, k: Kind): nat {
    if s == [] then 0 else Ind(Is(s[0], a, k)) + InList(s[1..], a, k)
  }

  ghost function At(q: map<int, seq<Packet>>, t: int): seq<Packet> {
    if t in q then q[t] else []
  }

  ghost function InQueue(q: map<int, seq<Packet>>, a: int, k: Kind, h: nat): nat {
    if h == 0 then 0 else InQueue(q, a, k, h - 1) + InList(At(q, h - 1), a, k)
  }

  ghost function InTransit(ps: map<int, Packet>, a: int, k: Kind, n: nat): nat {
    if n == 0 then 0 else InTransit(ps, a, k, n - 1) + Ind(n - 1 in ps && Is(ps[n - 1], a, k))
  }

  /** Messages of kind `k` for address `a` that are queued or in the network. */
  ghost function Count(net: Net, a: int, k: Kind): nat
    requires net.nextId >= 0
  {
    InQueue(net.queue, a, k, net.horizon) + InTransit(net.packets, a, k, net.nextId)
  }

  lemma {:induction false} InListAppend(s: seq<Packet>, p: Packet, a: int, k: Kind)
    ensures InList(s + [p], a, k) == InList(s, a, k) + Ind(Is(p, a, k))
  {
    if s != [] {
      InListAppend(s[1..], p, a, k);
      assert (s + [p])[1..] == s[1..] + [p];
    }
  }

  lemma {:induction false} InQueuePut(q: map<int, seq<Packet>>, t: int, s: seq<Packet>, a: int, k: Kind, h: nat)
    ensures InQueue(q[t := s], a, k, h)
         == InQueue(q, a, k, h) + if 0 <= t < h then InList(s, a, k) - InList(At(q, t), a, k) else 0
  {
    if h > 0 { InQueuePut(q, t, s, a, k, h - 1); }
  }

  lemma {:induction false} InQueueDrop(q: map<int, seq<Packet>>, t: int, a: int, k: Kind, h: nat)
    requires At(q, t) == []
    ensures InQueue(q - {t}, a, k, h) == InQueue(q, a, k, h)
  {
    if h > 0 { InQueueDrop(q, t, a, k, h - 1); }
  }

  lemma {:induction false} InQueueFurther(q: map<int, seq<Packet>>, a: int, k: Kind, h: nat, h': nat)
    requires h <= h' && forall t :: t in q ==> t < h
    ensures InQueue(q, a, k, h') == InQueue(q, a, k, h)
    decreases h'
  {
    if h < h' { InQueueFurther(q, a, k, h, h' - 1); }
  }

  lemma {:induction false} InTransitPut(ps: map<int, Packet>, id: int, p: Packet, a: int, k: Kind, n: nat)
    ensures InTransit(ps[id := p], a, k, n) == InTransit(ps, a, k, n)
      + if 0 <= id < n then Ind(Is(p, a, k)) - Ind(id in ps && Is(ps[id], a, k)) else 0
  {
    if n > 0 { InTransitPut(ps, id, p, a, k, n - 1); }
  }

  lemma {:induction false} InTransitDrop(ps: map<int, Packet>, id: int, a: int, k: Kind, n: nat)
    ensures InTransit(ps - {id}, a, k, n) == InTransit(ps, a, k, n)
      - if 0 <= id < n then Ind(id in ps && Is(ps[id], a, k)) else 0
  {
    if n > 0 { InTransitDrop(ps, id, a, k, n - 1); }
  }

  lemma {:induction false} InQueueAbsent(q: map<int, seq<Packet>>, a: int, k: Kind, h: nat)
    requires forall t, p :: t in q && p in q[t] ==> p.address != a
    ensures InQueue(q, a, k, h) == 0
  {
    if h > 0 {
      InQueueAbsent(q, a, k, h - 1);
      if InList(At(q, h - 1), a, k) > 0 { InListWitness(At(q, h - 1), a, k); }
    }
  }

  lemma {:induction false} InListWitness(s: seq<Packet>, a: int, k: Kind)
    requires InList(s, a, k) > 0
    ensures exists p :: p in s && p.address == a
  {
    if Is(s[0], a, k) {
      assert s[0] in s && s[0].address == a;
    } else {
      InListWitness(s[1..], a, k);
      var p :| p in s[1..] && p.address == a;
      assert p in s;
    }
  }

  lemma {:induction false} InTransitAbsent(ps: map<int, Packet>, a: int, k: Kind, n: nat)
    requires forall id :: id in ps ==> ps[id].address != a
    ensures InTransit(ps, a, k, n) == 0
  {
    if n > 0 { InTransitAbsent(ps, a, k, n - 1); }
  }

  // ---------- the invariant ----------

  /** A packet that starts a transaction and waits to be injected. */
  predicate Initiating(p: Packet) {
    p.address == -1 && p.msgType == REQUEST && WRITE <= p.coType <= PUTD
  }

  ghost predicate Shape(net: Net) {
    && net.nextId >= 0
    && (forall id :: id in net.packets ==>
          0 <= id < net.nextId && net.packets[id].id == id && 0 <= net.packets[id].address < net.nextId)
    && (forall a :: a in net.trans ==> 0 <= a < net.nextId)
    && (forall t :: t in net.queue ==> 0 <= t < net.horizon)
    && (forall t, p :: t in net.queue && p in net.queue[t] ==> Initiating(p) || 0 <= p.address < net.nextId)
    && net.sent.Keys == net.invs.Keys && (forall a :: 0 <= a < net.nextId <==> a in net.sent)
    && (forall a :: a in net.coherent ==> 0 <= a < net.nextId)
  }

  /** The request that started transaction `a` is still under way. */
  ghost predicate Waiting(net: Net, a: int) {
    a in net.packets && net.packets[a].address == a && KindOf(net.packets[a]) == Req
  }

  /** How many more request, data and unblock messages transaction `a` can still cause. */
  ghost function Pending(net: Net, a: int): nat
    requires net.nextId >= 0
  {
    if Waiting(net, a) then 3 else if Count(net, a, Req) > 0 then 2 else if Count(net, a, Data) > 0 then 1 else 0
  }

  /** A read or write under way: one request, data or unblock message is outstanding until the unblock arrives;
      every invalidation sent is outstanding, answered by an outstanding acknowledgement, or acknowledged. */
  ghost predicate ReadWrite(net: Net, a: int)
    requires Shape(net) && a in net.trans
  {
    var t := net.trans[a];
    && Count(net, a, Req) + Count(net, a, Data) + Count(net, a, Unblk) == (if t.unblockReceived then 0 else 1)
    && t.acksReceived + Count(net, a, Inval) + Count(net, a, Ackn) == t.invsSent == net.invs[a]
    && 0 <= t.acksReceived
    && Count(net, a, Other) == 0
    && (if t.dataReceived then Count(net, a, Req) == Count(net, a, Data) == 0
        else Count(net, a, Unblk) == 0 && !t.unblockReceived)
    && (Waiting(net, a) ==> t.invsSent == 0)
    && !t.Completed()
    && net.sent[a] + Pending(net, a) + Count(net, a, Inval) <= 4 + 2 * net.invs[a]
  }

  /** A writeback: only its own request and answer are ever outstanding; its entry stays. */
  ghost predicate WriteBack(net: Net, a: int)
    requires Shape(net) && a in net.trans
  {
    && (forall k :: k != Other ==> Count(net, a, k) == 0)
    && net.trans[a].invsSent == net.trans[a].acksReceived == 0
    && !net.trans[a].dataReceived && !net.trans[a].unblockReceived
  }

  /** An address without entry: its transaction is over, or never was, and nothing bears its address. */
  ghost predicate Silent(net: Net, a: int)
    requires Shape(net)
  {
    (forall k :: Count(net, a, k) == 0) && a in net.sent && net.sent[a] <= 4 + 2 * net.invs[a]
  }

  ghost predicate Sound(net: Net, a: int)
    requires Shape(net)
  {
    if a !in net.trans then Silent(net, a)
    else if a in net.coherent then ReadWrite(net, a)
    else WriteBack(net, a)
  }

  ghost predicate Inv(net: Net) {
    Shape(net) && forall a :: 0 <= a < net.nextId ==> Sound(net, a)
  }

  /** All packets wait for time `now` or later. */
  ghost predicate NothingPast(net: Net, now: int) {
    forall t :: t in net.queue ==> t >= now
  }

  // ---------- consequences ----------

  /** An entry exists exactly while something bearing its address is queued or in the network. */
  lemma ErasedExactlyWhenQuiet(net: Net, a: int)
    requires Inv(net) && a in net.coherent
    ensures a in net.trans <==> exists k :: Count(net, a, k) > 0
  {
    assert Sound(net, a);
    if a in net.trans {
      var t := net.trans[a];
      assert Count(net, a, Req) > 0 || Count(net, a, Data) > 0 || Count(net, a, Unblk) > 0
          || Count(net, a, Inval) > 0 || Count(net, a, Ackn) > 0;
    }
  }

  /** `react` never looks up an erased entry. */
  lemma DeliveredHasEntry(net: Net, id: int)
    requires Inv(net) && id in net.packets
    ensures net.packets[id].address in net.trans
    ensures Count(net, net.packets[id].address, KindOf(net.packets[id])) > 0
  {
    var p := net.packets[id];
    InTransitPut(net.packets, id, p, p.address, KindOf(p), net.nextId);
    InTransitDrop(net.packets, id, p.address, KindOf(p), net.nextId);
    assert Sound(net, p.address);
  }

  /** No read or write ever sends more than four messages beside two per invalidation. */
  lemma MessageBound(net: Net, a: int)
    requires Inv(net) && a in net.coherent
    ensures net.sent[a] <= 4 + 2 * net.invs[a]
  {
    assert Sound(net, a);
  }

  /** Neither an entry as it stands nor the arrival of its data is a completion: only the last acknowledgement or
      the unblock completes a transaction. */
  lemma NotCompleted(net: Net, a: int)
    requires Inv(net) && a in net.trans
    ensures !net.trans[a].Completed() && !net.trans[a].(dataReceived := true).Completed()
  {
    assert Sound(net, a);
  }

  // ---------- frames ----------

  /** Nothing about address `a` has changed. */
  ghost predicate Same(net: Net, net': Net, a: int)
    requires Shape(net) && Shape(net')
  {
    && (forall k :: Count(net', a, k) == Count(net, a, k))
    && (a in net.trans <==> a in net'.trans) && (a in net.trans ==> net.trans[a] == net'.trans[a])
    && (a in net.coherent <==> a in net'.coherent)
    && (Waiting(net, a) <==> Waiting(net', a))
    && (a in net.sent ==> a in net'.sent && net.sent[a] == net'.sent[a] && net.invs[a] == net'.invs[a])
  }

  lemma SameSound(net: Net, net': Net, a: int)
    requires Shape(net) && Shape(net') && 0 <= a < net.nextId && Sound(net, a) && Same(net, net', a)
    ensures Sound(net', a)
  {
  }

  lemma InvFromOne(net: Net, net': Net, a: int)
    requires Inv(net) && Shape(net') && net'.nextId == net.nextId
    requires forall b :: 0 <= b < net.nextId && b != a ==> Same(net, net', b)
    requires 0 <= a < net.nextId ==> Sound(net', a)
    ensures Inv(net')
  {
    forall b | 0 <= b < net.nextId ensures Sound(net', b) {
      if b != a { SameSound(net, net', b); }
    }
  }

  // ---------- steps ----------

  function Enqueue(net: Net, p: Packet, time: nat): Net {
    net.(queue := net.queue[time := (if time in net.queue then net.queue[time] else []) + [p]],
         horizon := if time < net.horizon then net.horizon else time + 1,
         sent := if p.address in net.sent then net.sent[p.address := net.sent[p.address] + 1] else net.sent,
         invs := if p.address in net.invs && KindOf(p) == Inval then net.invs[p.address := net.invs[p.address] + 1] else net.invs)
  }

  lemma EnqueueCount(net: Net, p: Packet, time: nat, a: int, k: Kind)
    requires Shape(net)
    ensures Count(Enqueue(net, p, time), a, k) == Count(net, a, k) + Ind(Is(p, a, k))
  {
    var h := Enqueue(net, p, time).horizon;
    InQueueFurther(net.queue, a, k, net.horizon, h);
    InQueuePut(net.queue, time, At(net.queue, time) + [p], a, k, h);
    InListAppend(At(net.queue, time), p, a, k);
  }

  lemma EnqueueShape(net: Net, p: Packet, time: nat)
    requires Shape(net) && (Initiating(p) || 0 <= p.address < net.nextId)
    ensures Shape(Enqueue(net, p, time))
  {
  }

  /** A new transaction waits for its injection. */
  lemma InitiateInv(net: Net, p: Packet, time: nat)
    requires Inv(net) && Initiating(p)
    ensures Inv(Enqueue(net, p, time))
  {
    var net' := Enqueue(net, p, time);
    EnqueueShape(net, p, time);
    assert -1 !in net.sent && -1 !in net.invs;
    forall b | 0 <= b < net.nextId ensures Same(net, net', b) {
      forall k ensures Count(net', b, k) == Count(net, b, k) { EnqueueCount(net, p, time, b, k); }
    }
    InvFromOne(net, net', -1);
  }

  // ---------- injection ----------

  /** `sendPacket`: the packet gets a fresh id; a packet without address starts a transaction of that address. */
  function Launch(net: Net, p: Packet): Net {
    if p.address == -1 then
      net.(packets := net.packets[net.nextId := p.(id := net.nextId, address := net.nextId)],
           nextId := net.nextId + 1,
           trans := net.trans[net.nextId := Transaction(p.source, p.dest, 0, 0, false, false)],
           coherent := if p.coType == WRITE || p.coType == READ then net.coherent + {net.nextId} else net.coherent,
           sent := net.sent[net.nextId := 1], invs := net.invs[net.nextId := 0])
    else
      net.(packets := net.packets[net.nextId := p.(id := net.nextId)], nextId := net.nextId + 1,
           sent := net.sent[net.nextId := 0], invs := net.invs[net.nextId := 0])
  }

  /** The first packet waiting for `time` is sent. */
  function Send(net: Net, time: int): Net
    requires time in net.queue && net.queue[time] != []
  {
    Launch(net.(queue := net.queue[time := net.queue[time][1..]]), net.queue[time][0])
  }

  lemma SendCount(net: Net, time: int, a: int, k: Kind)
    requires Shape(net) && time in net.queue && net.queue[time] != []
    ensures var p, net' := net.queue[time][0], Send(net, time);
      Count(net', a, k) == Count(net, a, k) - Ind(Is(p, a, k)) + Ind(Is(net'.packets[net.nextId], a, k))
  {
    var net' := Send(net, time);
    var n := net.nextId;
    InQueuePut(net.queue, time, net.queue[time][1..], a, k, net.horizon);
    InTransitPut(net.packets, n, net'.packets[n], a, k, n + 1);
  }

  lemma SendShape(net: Net, time: int)
    requires Shape(net) && time in net.queue && net.queue[time] != []
    ensures Shape(Send(net, time))
  {
    var p, s := net.queue[time][0], net.queue[time];
    assert p in s;
    assert forall x :: x in s[1..] ==> x in s;
  }

  lemma NothingBears(net: Net, a: int)
    requires Shape(net) && a >= net.nextId
    ensures forall k :: Count(net, a, k) == 0
  {
    forall k ensures Count(net, a, k) == 0 {
      InQueueAbsent(net.queue, a, k, net.horizon);
      InTransitAbsent(net.packets, a, k, net.nextId);
    }
  }

  /** Injecting changes nothing for the addresses given out before. */
  lemma SendSame(net: Net, time: int, b: int)
    requires Shape(net) && time in net.queue && net.queue[time] != [] && 0 <= b < net.nextId
    ensures Shape(Send(net, time)) && Same(net, Send(net, time), b)
  {
    hide InQueue, InTransit;
    SendShape(net, time);
    forall k ensures Count(Send(net, time), b, k) == Count(net, b, k) { SendCount(net, time, b, k); }
  }

  /** The new id is the address of a new transaction, or nothing bears it as address. */
  lemma SendNew(net: Net, time: int)
    requires Shape(net) && time in net.queue && net.queue[time] != []
    ensures Shape(Send(net, time)) && Sound(Send(net, time), net.nextId)
  {
    hide InQueue, InTransit;
    var p, net', n := net.queue[time][0], Send(net, time), net.nextId;
    assert p in net.queue[time];
    SendShape(net, time);
    NothingBears(net, n);
    var injected := net'.packets[n];
    forall k ensures Count(net', n, k) == Ind(Is(injected, n, k)) { SendCount(net, time, n, k); }
    assert KindOf(injected) == KindOf(p);
  }

  lemma SendInv(net: Net, time: int)
    requires Inv(net) && time in net.queue && net.queue[time] != []
    ensures Inv(Send(net, time))
  {
    hide Count;
    SendShape(net, time);
    SendNew(net, time);
    forall b | 0 <= b < net.nextId ensures Sound(Send(net, time), b) {
      SendSame(net, time, b);
      SameSound(net, Send(net, time), b);
    }
  }

  /** An emptied slot can go. */
  lemma CleanUpInv(net: Net, time: nat)
    requires Inv(net) && At(net.queue, time) == []
    ensures Inv(net.(queue := net.queue - {time}))
  {
    hide Sound;
    var net' := net.(queue := net.queue - {time});
    forall b, k ensures Count(net', b, k) == Count(net, b, k) { InQueueDrop(net.queue, time, b, k, net.horizon); }
    InvFromOne(net, net', -1);
  }

  /** `ps` are sent, first to last. */
  function LaunchAll(net: Net, ps: seq<Packet>): Net
    decreases |ps|
  {
    if ps == [] then net else Launch(LaunchAll(net, ps[..|ps| - 1]), ps[|ps| - 1])
  }

  /** Everything queued for `time` is sent. */
  function Injected(net: Net, time: int): Net {
    LaunchAll(net.(queue := net.queue - {time}), if time in net.queue then net.queue[time] else [])
  }

  /** Ids are consecutive in queue order; nothing else in the network changes. */
  lemma {:induction false} LaunchedPackets(net: Net, ps: seq<Packet>)
    requires forall id :: id in net.packets ==> id < net.nextId
    ensures var r := LaunchAll(net, ps);
      && r.nextId == net.nextId + |ps| && r.queue == net.queue
      && (forall id :: id in r.packets <==> id in net.packets || net.nextId <= id < r.nextId)
      && (forall id :: id in net.packets ==> r.packets[id] == net.packets[id])
      && (forall i {:trigger ps[i]} :: 0 <= i < |ps| ==>
            r.packets[net.nextId + i]
            == ps[i].(id := net.nextId + i, address := if ps[i].address == -1 then net.nextId + i else ps[i].address))
    decreases |ps|
  {
    if ps != [] {
      var m := |ps| - 1;
      LaunchedPackets(net, ps[..m]);
      assert forall i :: 0 <= i < m ==> ps[..m][i] == ps[i];
    }
  }

  lemma {:induction false} LaunchAllInv(net: Net, time: int, n: nat)
    requires Inv(net) && time in net.queue && n <= |net.queue[time]|
    ensures Inv(LaunchAll(net.(queue := net.queue - {time}), net.queue[time][..n])
                  .(queue := net.queue[time := net.queue[time][n..]]))
  {
    hide Inv;
    var ps, bare := net.queue[time], net.(queue := net.queue - {time});
    if n == 0 {
      assert net.queue[time := ps[0..]] == net.queue;
    } else {
      LaunchAllInv(net, time, n - 1);
      var net1 := LaunchAll(bare, ps[..n - 1]).(queue := net.queue[time := ps[n - 1..]]);
      SendInv(net1, time);
      assert ps[..n][..n - 1] == ps[..n - 1];
      assert ps[n - 1..][1..] == ps[n..];
      assert net1.queue[time := ps[n..]] == net.queue[time := ps[n..]];
    }
  }

  /** Injecting a cycle's packets keeps the invariant. */
  lemma InjectInv(net: Net, time: int)
    requires Inv(net) && time >= 0
    ensures Inv(Injected(net, time))
  {
    hide Inv;
    if time in net.queue {
      var ps := net.queue[time];
      LaunchAllInv(net, time, |ps|);
      assert ps[..|ps|] == ps && ps[|ps|..] == [];
      var net1 := LaunchAll(net.(queue := net.queue - {time}), ps);
      CleanUpInv(net1.(queue := net.queue[time := []]), time);
      assert net.queue[time := []] - {time} == net.queue - {time};
      LaunchAllQueue(net.(queue := net.queue - {time}), ps);
    } else {
      assert net.queue - {time} == net.queue;
    }
  }

  lemma {:induction false} LaunchAllQueue(net: Net, ps: seq<Packet>)
    ensures LaunchAll(net, ps).queue == net.queue
    decreases |ps|
  {
    if ps != [] { LaunchAllQueue(net, ps[..|ps| - 1]); }
  }

  // ---------- delivery ----------

  function Take(net: Net, id: int): Net {
    net.(packets := net.packets - {id})
  }

  function SetTrans(net: Net, a: int, t: Transaction): Net {
    net.(trans := net.trans[a := t])
  }

  function Erase(net: Net, a: int): Net {
    net.(trans := net.trans - {a})
  }

  /** Taking a packet out of the network touches the counts of its own address only, by one of its kind. */
  lemma TakeCount(net: Net, id: int, a: int, k: Kind)
    requires Shape(net) && id in net.packets
    ensures Count(Take(net, id), a, k) == Count(net, a, k) - Ind(Is(net.packets[id], a, k))
  {
    InTransitDrop(net.packets, id, a, k, net.nextId);
  }

  /** A reply `r` to the delivered packet `id`, of the same transaction, queued for `time`; entry `t` afterwards. */
  function Answer(net: Net, id: int, t: Transaction, r: Packet, time: nat): Net
    requires id in net.packets
  {
    Enqueue(SetTrans(Take(net, id), net.packets[id].address, t), r, time)
  }

  lemma EnqueueSetTrans(net: Net, a: int, t: Transaction, p: Packet, time: nat)
    ensures Enqueue(SetTrans(net, a, t), p, time) == SetTrans(Enqueue(net, p, time), a, t)
  {
  }

  lemma AnswerFrame(net: Net, id: int, t: Transaction, r: Packet, time: nat)
    requires Inv(net) && id in net.packets && r.address == net.packets[id].address
    ensures var p, net' := net.packets[id], Answer(net, id, t, r, time);
      && Shape(net')
      && (forall k :: Count(net', p.address, k) ==
            Count(net, p.address, k) - Ind(KindOf(p) == k) + Ind(KindOf(r) == k))
      && (forall b :: 0 <= b < net.nextId && b != p.address ==> Same(net, net', b))
  {
    var p := net.packets[id];
    var net1, net2 := SetTrans(Take(net, id), p.address, t), Answer(net, id, t, r, time);
    assert Shape(net1);
    EnqueueShape(net1, r, time);
    forall b, k ensures Count(net2, b, k) == Count(net, b, k) - Ind(Is(p, b, k)) + Ind(Is(r, b, k)) {
      TakeCount(net, id, b, k);
      assert Count(net1, b, k) == Count(Take(net, id), b, k);
      EnqueueCount(net1, r, time, b, k);
    }
    forall b | 0 <= b < net.nextId && b != p.address ensures Same(net, net2, b) {
    }
  }

  /** The three ways a token moves on: request to forwarded request, any request to data, data to unblock; and an
      invalidation is answered by an acknowledgement. */
  ghost predicate Moves(net: Net, id: int, t: Transaction, r: Packet)
    requires Inv(net) && id in net.packets
  {
    var p := net.packets[id];
    && p.address in net.trans && r.address == p.address
    && match KindOf(p)
       case Req => (KindOf(r) == Data || (Waiting(net, p.address) && id == p.address && KindOf(r) == Req)) && t == net.trans[p.address]
       case Data => KindOf(r) == Unblk && t == net.trans[p.address].(dataReceived := true)
       case Inval => KindOf(r) == Ackn && t == net.trans[p.address]
       case Other => KindOf(r) == Other && t == net.trans[p.address]
       case _ => false
  }

  lemma AnswerInv(net: Net, id: int, t: Transaction, r: Packet, time: nat)
    requires Inv(net) && id in net.packets && Moves(net, id, t, r)
    ensures Inv(Answer(net, id, t, r, time))
    ensures !t.Completed()
  {
    var p, net' := net.packets[id], Answer(net, id, t, r, time);
    var a := p.address;
    AnswerFrame(net, id, t, r, time);
    DeliveredHasEntry(net, id);
    assert Sound(net, a);
    AnswerOne(net, id, t, r, time);
    InvFromOne(net, net', a);
  }

  lemma WaitingCounts(net: Net, a: int)
    requires Shape(net) && Waiting(net, a)
    ensures Count(net, a, Req) > 0
  {
    var p := net.packets[a];
    InTransitPut(net.packets, a, p, a, Req, net.nextId);
    InTransitDrop(net.packets, a, a, Req, net.nextId);
  }

  /** When the outstanding request or data of a transaction is delivered, no other initiating request remains. */
  lemma TokenUnique(net: Net, id: int)
    requires Inv(net) && id in net.packets && KindOf(net.packets[id]) in {Req, Data}
    requires net.packets[id].address in net.trans && net.packets[id].address in net.coherent
    ensures Waiting(net, net.packets[id].address) ==> id == net.packets[id].address
  {
    var a := net.packets[id].address;
    assert Sound(net, a);
    if Waiting(net, a) && id != a {
      WaitingCounts(Take(net, id), a);
      TakeCount(net, id, a, Req);
      DeliveredHasEntry(net, id);
      assert false;
    }
  }

  lemma AnswerOne(net: Net, id: int, t: Transaction, r: Packet, time: nat)
    requires Inv(net) && id in net.packets && Moves(net, id, t, r)
    ensures Shape(Answer(net, id, t, r, time)) && Sound(Answer(net, id, t, r, time), net.packets[id].address)
    ensures !t.Completed()
  {
    hide InQueue, InTransit;
    var p, net' := net.packets[id], Answer(net, id, t, r, time);
    var a := p.address;
    AnswerFrame(net, id, t, r, time);
    DeliveredHasEntry(net, id);
    assert Sound(net, a);
    if KindOf(p) in {Req, Data} { TokenUnique(net, id); }
  }

  /** A delivered packet that causes no answer: the entry becomes `t`, and goes when it is completed. */
  function Absorb(net: Net, id: int, t: Transaction): Net
    requires id in net.packets
  {
    var a := net.packets[id].address;
    if t.Completed() then Erase(Take(net, id), a) else SetTrans(Take(net, id), a, t)
  }

  /** The three packets that end a chain: acknowledgement, unblock, and the answer to a writeback. */
  ghost predicate Ends(net: Net, id: int, t: Transaction)
    requires Inv(net) && id in net.packets
  {
    var p := net.packets[id];
    && p.address in net.trans
    && var e := net.trans[p.address];
       match KindOf(p)
       case Ackn => t == e.(acksReceived := e.acksReceived + 1)
       case Unblk => t == e.(unblockReceived := true)
       case Other => t == e
       case _ => false
  }

  lemma AbsorbFrame(net: Net, id: int, t: Transaction)
    requires Inv(net) && id in net.packets
    ensures var p, net' := net.packets[id], Absorb(net, id, t);
      && Shape(net')
      && (forall k :: Count(net', p.address, k) == Count(net, p.address, k) - Ind(KindOf(p) == k))
      && (forall b :: 0 <= b < net.nextId && b != p.address ==> Same(net, net', b))
  {
    hide InQueue, InTransit;
    var p, net' := net.packets[id], Absorb(net, id, t);
    forall b, k ensures Count(net', b, k) == Count(net, b, k) - Ind(Is(p, b, k)) { TakeCount(net, id, b, k); }
  }

  lemma AbsorbInv(net: Net, id: int, t: Transaction)
    requires Inv(net) && id in net.packets && Ends(net, id, t)
    ensures Inv(Absorb(net, id, t))
  {
    hide InQueue, InTransit;
    var p, net' := net.packets[id], Absorb(net, id, t);
    AbsorbFrame(net, id, t);
    DeliveredHasEntry(net, id);
    assert Sound(net, p.address);
    assert KindOf(p) != Req;
    assert Waiting(net', p.address) ==> Waiting(net, p.address);
    InvFromOne(net, net', p.address);
  }

  // ---------- invalidations ----------

  /** One invalidation more for address `a`. */
  function Invalidate(net: Net, a: int, source: int, dest: int, time: nat): Net
    requires a in net.trans
  {
    Enqueue(SetTrans(net, a, net.trans[a].(invsSent := net.trans[a].invsSent + 1)),
            Packet(source, dest, -1, CONTROL_SIZE, REQUEST, INV, a), time)
  }

  /** The write of address `a` has been forwarded and not yet answered. */
  ghost predicate Forwarded(net: Net, a: int)
    requires Shape(net)
  {
    a in net.trans && a in net.coherent && Count(net, a, Req) > 0 && !Waiting(net, a)
  }

  lemma InvalidateInv(net: Net, a: int, source: int, dest: int, time: nat)
    requires Inv(net) && Forwarded(net, a)
    ensures Inv(Invalidate(net, a, source, dest, time)) && Forwarded(Invalidate(net, a, source, dest, time), a)
  {
    hide InQueue, InTransit;
    var p := Packet(source, dest, -1, CONTROL_SIZE, REQUEST, INV, a);
    var net1 := SetTrans(net, a, net.trans[a].(invsSent := net.trans[a].invsSent + 1));
    var net' := Enqueue(net1, p, time);
    assert Sound(net, a) && 0 <= a < net.nextId;
    EnqueueShape(net1, p, time);
    forall b, k ensures Count(net', b, k) == Count(net, b, k) + Ind(Is(p, b, k)) { EnqueueCount(net1, p, time, b, k); }
    InvFromOne(net, net', a);
  }

  /** Invalidations to all of `dests`, in order. */
  function Invalidations(net: Net, a: int, source: int, dests: seq<int>, time: nat): (r: Net)
    requires a in net.trans
    ensures a in r.trans
    decreases |dests|
  {
    if dests == [] then net
    else Invalidate(Invalidations(net, a, source, dests[..|dests| - 1], time), a, source, dests[|dests| - 1], time)
  }

  lemma {:induction false} InvalidationsInv(net: Net, a: int, source: int, dests: seq<int>, time: nat)
    requires Inv(net) && Forwarded(net, a)
    ensures var r := Invalidations(net, a, source, dests, time);
      Inv(r) && Forwarded(r, a) && r.invs[a] == net.invs[a] + |dests|
    decreases |dests|
  {
    hide InQueue, InTransit, ReadWrite, WriteBack, Silent, Count;
    if dests != [] {
      InvalidationsInv(net, a, source, dests[..|dests| - 1], time);
      var r := Invalidations(net, a, source, dests[..|dests| - 1], time);
      InvalidateInv(r, a, source, dests[|dests| - 1], time);
    }
  }

  // ---------- one delivery ----------

  /** The random draws of `react`: answer from memory, or forward to node `dest * 2` and, for a write, invalidate
      the nodes `invs`, which the code collects in a set and visits in increasing order. */
  datatype Choice = Memory | Forward(dest: int, invs: seq<int>)

  /** What the generator does with an initiating read or write `p`, taken out of the network. */
  function Served(net: Net, p: Packet, choice: Choice, now: nat): Net
    requires p.address in net.trans
  {
    match choice
    case Memory => Enqueue(net, Packet(p.dest, p.source, -1, DATA_SIZE, RESPONSE, DATA, p.address), now + 80)
    case Forward(dest, invs) =>
      var net1 := Enqueue(net, Packet(p.dest, dest * 2, -1, CONTROL_SIZE, REQUEST, p.coType, p.address), now + 1);
      if p.coType == WRITE then Invalidations(net1, p.address, p.dest, invs, now + 1) else net1
  }

  /** What the generator does with delivered packet `id` at time `now`. */
  function React(net: Net, id: int, choice: Choice, now: nat): Net
    requires id in net.packets && net.packets[id].address in net.trans
  {
    var p := net.packets[id];
    var a, t := p.address, net.trans[p.address];
    match KindOf(p)
    case Req =>
      if a == id then Served(Take(net, id), p, choice, now)
      else Answer(net, id, t, Packet(p.dest, t.source, -1, DATA_SIZE, RESPONSE, DATA, a), now + 1)
    case Inval => Answer(net, id, t, Packet(p.dest, t.source, -1, CONTROL_SIZE, RESPONSE, ACK, a), now + 1)
    case Data =>
      Answer(net, id, t.(dataReceived := true), Packet(t.source, t.dest, -1, CONTROL_SIZE, RESPONSE, UNBLOCK, a), now + 1)
    case Ackn => Absorb(net, id, t.(acksReceived := t.acksReceived + 1))
    case Unblk => Absorb(net, id, t.(unblockReceived := true))
    case Other =>
      if p.msgType == REQUEST && (p.coType == PUTC || p.coType == PUTD) then
        Answer(net, id, t, Packet(p.dest, p.source, -1, CONTROL_SIZE, RESPONSE, WB_ACK, a), now + 1)
      else Absorb(net, id, t)
  }

  lemma ServedInv(net: Net, id: int, choice: Choice, now: nat)
    requires Inv(net) && id in net.packets && net.packets[id].address == id && KindOf(net.packets[id]) == Req
    requires id in net.trans
    ensures Inv(Served(Take(net, id), net.packets[id], choice, now))
  {
    hide InQueue, InTransit, ReadWrite, WriteBack, Silent, Same, Transaction.Completed;
    var p, t := net.packets[id], net.trans[id];
    assert SetTrans(Take(net, id), id, t) == Take(net, id) by { assert net.trans[id := t] == net.trans; }
    match choice
    case Memory => AnswerInv(net, id, t, Packet(p.dest, p.source, -1, DATA_SIZE, RESPONSE, DATA, id), now + 80);
    case Forward(dest, invs) =>
      var r := Packet(p.dest, dest * 2, -1, CONTROL_SIZE, REQUEST, p.coType, id);
      AnswerInv(net, id, t, r, now + 1);
      if p.coType == WRITE {
        ForwardedNow(net, id, t, r, now + 1);
        InvalidationsInv(Answer(net, id, t, r, now + 1), id, p.dest, invs, now + 1);
      }
  }

  /** Every delivery, in any order and with any draws, keeps the invariant. */
  lemma ReactInv(net: Net, id: int, choice: Choice, now: nat)
    requires Inv(net) && id in net.packets
    ensures net.packets[id].address in net.trans && Inv(React(net, id, choice, now))
  {
    hide InQueue, InTransit, ReadWrite, WriteBack, Silent, Same, Transaction.Completed, Invalidations;
    DeliveredHasEntry(net, id);
    var p := net.packets[id];
    var a, t := p.address, net.trans[p.address];
    match KindOf(p)
    case Req =>
      if a == id {
        ServedInv(net, id, choice, now);
      } else {
        AnswerInv(net, id, t, Packet(p.dest, t.source, -1, DATA_SIZE, RESPONSE, DATA, a), now + 1);
      }
    case Inval => AnswerInv(net, id, t, Packet(p.dest, t.source, -1, CONTROL_SIZE, RESPONSE, ACK, a), now + 1);
    case Data =>
      AnswerInv(net, id, t.(dataReceived := true),
                Packet(t.source, t.dest, -1, CONTROL_SIZE, RESPONSE, UNBLOCK, a), now + 1);
    case Ackn => AbsorbInv(net, id, t.(acksReceived := t.acksReceived + 1));
    case Unblk => AbsorbInv(net, id, t.(unblockReceived := true));
    case Other =>
      if p.msgType == REQUEST && (p.coType == PUTC || p.coType == PUTD) {
        AnswerInv(net, id, t, Packet(p.dest, p.source, -1, CONTROL_SIZE, RESPONSE, WB_ACK, a), now + 1);
      } else {
        AbsorbInv(net, id, t);
      }
  }

  lemma ForwardedNow(net: Net, id: int, t: Transaction, r: Packet, time: nat)
    requires Inv(net) && id in net.packets && net.packets[id].address == id && Moves(net, id, t, r)
    requires KindOf(net.packets[id]) == Req && KindOf(r) == Req
    ensures Shape(Answer(net, id, t, r, time)) && Forwarded(Answer(net, id, t, r, time), id)
  {
    hide InQueue, InTransit;
    AnswerFrame(net, id, t, r, time);
    DeliveredHasEntry(net, id);
    assert Sound(net, id);
  }

  // ---------- nothing is queued into the past ----------

  lemma {:induction false} InvalidationsPast(net: Net, a: int, source: int, dests: seq<int>, time: nat, now: int)
    requires a in net.trans && NothingPast(net, now) && now <= time
    ensures NothingPast(Invalidations(net, a, source, dests, time), now)
    decreases |dests|
  {
    if dests != [] { InvalidationsPast(net, a, source, dests[..|dests| - 1], time, now); }
  }

  /** Every answer is queued for a later cycle. */
  lemma ReactPast(net: Net, id: int, choice: Choice, now: nat, from: int)
    requires id in net.packets && net.packets[id].address in net.trans && NothingPast(net, from) && from <= now + 1
    ensures NothingPast(React(net, id, choice, now), from)
  {
    var p := net.packets[id];
    if KindOf(p) == Req && p.address == id && choice.Forward? && p.coType == WRITE {
      var r := Packet(p.dest, choice.dest * 2, -1, CONTROL_SIZE, REQUEST, p.coType, id);
      InvalidationsPast(Enqueue(Take(net, id), r, now + 1), id, p.dest, choice.invs, now + 1, from);
    }
  }

  lemma {:induction false} InvalidationsPackets(net: Net, a: int, source: int, dests: seq<int>, time: nat)
    requires a in net.trans
    ensures Invalidations(net, a, source, dests, time).packets == net.packets
    decreases |dests|
  {
    if dests != [] { InvalidationsPackets(net, a, source, dests[..|dests| - 1], time); }
  }

  /** Exactly the delivered packet leaves the network. */
  lemma ReactPackets(net: Net, id: int, choice: Choice, now: nat)
    requires id in net.packets && net.packets[id].address in net.trans
    ensures React(net, id, choice, now).packets == net.packets - {id}
  {
    var p := net.packets[id];
    if KindOf(p) == Req && p.address == id && choice.Forward? && p.coType == WRITE {
      var r := Packet(p.dest, choice.dest * 2, -1, CONTROL_SIZE, REQUEST, p.coType, id);
      InvalidationsPackets(Enqueue(Take(net, id), r, now + 1), id, p.dest, choice.invs, now + 1);
    }
  }
}
