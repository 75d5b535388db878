/** Reference counts: the table counts, for every id, the dependency entries of packets read and not yet freed. */
module NetraceRefs {
  import opened Options
  import opened DependencyTable
  import opened NetraceWorld

  /** How often an id occurs. */
  ghost function Occ(deps: seq<nat>, id: nat): nat {
    if deps == [] then 0 else Occ(deps[..|deps| - 1], id) + if deps[|deps| - 1] == id then 1 else 0
  }

  /** The dependency entries naming `id` among the first `r` packets, those freed excepted. */
  ghost function Naming(trace: seq<Packet>, stage: seq<Stage>, r: nat, id: nat): nat
    requires r <= |trace| == |stage|
  {
    if r == 0 then 0
    else Naming(trace, stage, r - 1, id) + if stage[r - 1] == Gone then 0 else Occ(trace[r - 1].deps, id)
  }

  ghost function RefOf(m: map<nat, Info>, id: nat): nat {
    if id in m then m[id].refCount else 0
  }

  /** The node of an id, new if need be. */
  function Touch(m: map<nat, Info>, id: nat): map<nat, Info> {
    if id in m then m else m[id := Info(None, 0)]
  }

  /** One more reference to each of `deps`. */
  function Refer(m: map<nat, Info>, deps: seq<nat>): map<nat, Info>
    decreases |deps|
  {
    if deps == [] then m
    else
      var d := deps[|deps| - 1];
      var m1 := Touch(Refer(m, deps[..|deps| - 1]), d);
      m1[d := m1[d].(refCount := m1[d].refCount + 1)]
  }

  /** Each of `deps` has a node with a reference to give up. */
  predicate Referred(m: map<nat, Info>, deps: seq<nat>)
    decreases |deps|, 0
  {
    deps == []
    || (var d := deps[|deps| - 1];
        && Referred(m, deps[..|deps| - 1])
        && var m1 := Unrefer(m, deps[..|deps| - 1]); d in m1 && m1[d].refCount > 0)
  }

  /** One reference fewer to each of `deps`. */
  function Unrefer(m: map<nat, Info>, deps: seq<nat>): map<nat, Info>
    requires Referred(m, deps)
    decreases |deps|, 1
  {
    if deps == [] then m
    else
      var d := deps[|deps| - 1];
      var m1 := Unrefer(m, deps[..|deps| - 1]);
      m1[d := m1[d].(refCount := m1[d].refCount - 1)]
  }

  lemma {:induction false} ReferCount(m: map<nat, Info>, deps: seq<nat>, id: nat)
    ensures RefOf(Refer(m, deps), id) == RefOf(m, id) + Occ(deps, id)
    ensures id in m ==> id in Refer(m, deps) && Refer(m, deps)[id].packet == m[id].packet
    decreases |deps|
  {
    if deps != [] { ReferCount(m, deps[..|deps| - 1], id); }
  }

  lemma {:induction false} UnreferCount(m: map<nat, Info>, deps: seq<nat>)
    requires forall id :: RefOf(m, id) >= Occ(deps, id)
    ensures Referred(m, deps)
    ensures var m' := Unrefer(m, deps);
      && (forall id :: RefOf(m', id) == RefOf(m, id) - Occ(deps, id))
      && m'.Keys == m.Keys && (forall id :: id in m ==> m'[id].packet == m[id].packet)
    decreases |deps|
  {
    if deps != [] {
      var front, d := deps[..|deps| - 1], deps[|deps| - 1];
      forall id ensures RefOf(m, id) >= Occ(front, id) {
        assert RefOf(m, id) >= Occ(deps, id);
      }
      UnreferCount(m, front);
      assert RefOf(m, d) >= Occ(deps, d) == Occ(front, d) + 1;
      assert RefOf(Unrefer(m, front), d) > 0;
    }
  }

  lemma {:induction false} OccIn(deps: seq<nat>, id: nat)
    ensures Occ(deps, id) > 0 <==> id in deps
  {
    if deps != [] {
      OccIn(deps[..|deps| - 1], id);
      assert deps == deps[..|deps| - 1] + [deps[|deps| - 1]];
    }
  }

  lemma {:induction false} NamingZero(trace: seq<Packet>, stage: seq<Stage>, r: nat, id: nat)
    requires r <= |trace| == |stage|
    ensures Naming(trace, stage, r, id) == 0 <==> forall j :: 0 <= j < r && id in trace[j].deps ==> stage[j] == Gone
  {
    if r > 0 {
      NamingZero(trace, stage, r - 1, id);
      OccIn(trace[r - 1].deps, id);
    }
  }

  /** Only a freed packet stops counting. */
  lemma {:induction false} NamingStep(trace: seq<Packet>, stage: seq<Stage>, r: nat, id: nat, i: nat, s: Stage)
    requires r <= |trace| == |stage| && i < |trace| && stage[i] != Gone
    ensures Naming(trace, stage[i := s], r, id)
         == Naming(trace, stage, r, id) - if i < r && s == Gone then Occ(trace[i].deps, id) else 0
  {
    if r > 0 { NamingStep(trace, stage, r - 1, id, i, s); }
  }

  /** The table after `r` packets have been read. */
  ghost predicate Counted(trace: seq<Packet>, stage: seq<Stage>, r: nat, m: map<nat, Info>)
    requires r <= |trace| == |stage|
  {
    && (forall id :: RefOf(m, id) == Naming(trace, stage, r, id))
    && (forall i :: 0 <= i < r && stage[i] != Gone ==> trace[i].id in m && m[trace[i].id].packet == Some(i))
  }

  /** `nt_dependencies_cleared` answers exactly whether every packet naming this one has been freed. */
  lemma ClearedReleased(trace: seq<Packet>, nodes: nat, stage: seq<Stage>, r: nat, m: map<nat, Info>, i: nat)
    requires WellFormed(trace, nodes) && i < r <= |trace| == |stage| && Counted(trace, stage, r, m)
    ensures RefOf(m, trace[i].id) == 0 <==> Released(trace, stage, i)
  {
    NamingZero(trace, stage, r, trace[i].id);
    forall j | 0 <= j < |trace| && Names(trace, j, i) ensures j < r {
      assert trace[i].id > trace[j].id;
    }
    if RefOf(m, trace[i].id) == 0 {
      forall j | 0 <= j < |trace| && Names(trace, j, i) ensures stage[j] == Gone {
        assert trace[i].id in trace[j].deps;
      }
    } else {
      var j :| 0 <= j < r && trace[i].id in trace[j].deps && stage[j] != Gone;
      assert Names(trace, j, i);
    }
  }

  /** `nt_read_packet` on packet `r`. */
  function ReadTable(m: map<nat, Info>, p: Packet, r: nat): map<nat, Info> {
    var m1 := Touch(m, p.id);
    Refer(m1[p.id := m1[p.id].(packet := Some(r))], p.deps)
  }

  lemma ReadCounted(trace: seq<Packet>, nodes: nat, stage: seq<Stage>, r: nat, m: map<nat, Info>)
    requires WellFormed(trace, nodes) && r < |trace| == |stage| && Counted(trace, stage, r, m) && stage[r] != Gone
    ensures Counted(trace, stage, r + 1, ReadTable(m, trace[r], r))
  {
    hide Occ, Refer;
    var p := trace[r];
    var m1 := Touch(m, p.id);
    var m2 := m1[p.id := m1[p.id].(packet := Some(r))];
    var m' := ReadTable(m, p, r);
    forall id ensures RefOf(m', id) == Naming(trace, stage, r + 1, id) {
      ReferCount(m2, p.deps, id);
      assert RefOf(m2, id) == RefOf(m, id);
    }
    forall i | 0 <= i < r + 1 && stage[i] != Gone
      ensures trace[i].id in m' && m'[trace[i].id].packet == Some(i)
    {
      ReferCount(m2, p.deps, trace[i].id);
      assert i < r ==> trace[i].id < trace[r].id;
    }
  }

  /** `nt_clear_dependencies_free_packet` on packet `i`: neither error branch is taken. */
  lemma FreeCounted(trace: seq<Packet>, nodes: nat, stage: seq<Stage>, r: nat, m: map<nat, Info>, i: nat)
    requires WellFormed(trace, nodes) && i < r <= |trace| == |stage| && Counted(trace, stage, r, m)
    requires stage[i] != Gone && Released(trace, stage, i)
    ensures Referred(m, trace[i].deps)
    ensures Counted(trace, stage[i := Gone], r, Unrefer(m, trace[i].deps) - {trace[i].id})
  {
    hide Occ, Referred, Unrefer;
    var p, stage' := trace[i], stage[i := Gone];
    forall id ensures RefOf(m, id) - Occ(p.deps, id) == Naming(trace, stage', r, id) {
      NamingStep(trace, stage, r, id, i, Gone);
    }
    UnreferCount(m, p.deps);
    var m1 := Unrefer(m, p.deps);
    var m' := m1 - {p.id};
    FreedUnnamed(trace, stage, r, i);
    forall id ensures RefOf(m', id) == Naming(trace, stage', r, id) {
      assert id != p.id ==> RefOf(m', id) == RefOf(m1, id);
    }
    forall k | 0 <= k < r && stage'[k] != Gone ensures trace[k].id in m' && m'[trace[k].id].packet == Some(k) {
      assert trace[k].id != p.id by { assert k < i ==> trace[k].id < trace[i].id; assert k > i ==> trace[i].id < trace[k].id; }
    }
  }

  lemma FreedUnnamed(trace: seq<Packet>, stage: seq<Stage>, r: nat, i: nat)
    requires i < r <= |trace| == |stage| && Released(trace, stage, i) && trace[i].id !in trace[i].deps
    ensures Naming(trace, stage[i := Gone], r, trace[i].id) == 0
  {
    NamingZero(trace, stage[i := Gone], r, trace[i].id);
    forall j | 0 <= j < r && trace[i].id in trace[j].deps ensures stage[i := Gone][j] == Gone {
      assert Names(trace, j, i);
    }
  }

  /** Every other step leaves the counts alone. */
  lemma StageCounted(trace: seq<Packet>, stage: seq<Stage>, r: nat, m: map<nat, Info>, i: nat, s: Stage)
    requires r <= |trace| == |stage| && Counted(trace, stage, r, m) && i < |trace| && stage[i] != Gone && s != Gone
    ensures Counted(trace, stage[i := s], r, m)
  {
    forall id ensures RefOf(m, id) == Naming(trace, stage[i := s], r, id) { NamingStep(trace, stage, r, id, i, s); }
  }
}
