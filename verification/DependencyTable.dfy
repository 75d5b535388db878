/** The netrace dependency table: a hash table of chains that stands for a map from packet ids to reference counts. */
module DependencyTable {
  import opened Options

  const DEPENDENCY_ARRAY_SIZE := 200

  /** `packet` is the trace position of the packet once it has been read. */
  datatype Info = Info(packet: Option<nat>, refCount: nat)
  datatype DepNode = DepNode(packetId: nat, info: Info)

  /** The first node of a chain with this id, or the length. */
  function Position(chain: seq<DepNode>, id: nat): (i: nat)
    ensures i <= |chain| && (i < |chain| ==> chain[i].packetId == id) && forall j :: 0 <= j < i ==> chain[j].packetId != id
  {
    if chain == [] || chain[0].packetId == id then 0 else 1 + Position(chain[1..], id)
  }

  function Bucket(id: nat): nat { id % DEPENDENCY_ARRAY_SIZE }

  function Lookup(chain: seq<DepNode>, id: nat): Option<Info> {
    var j := Position(chain, id);
    if j < |chain| then Some(chain[j].info) else None
  }

  /** The nodes belong to bucket `k`, and no id occurs twice. */
  ghost predicate GoodChain(chain: seq<DepNode>, k: nat) {
    && (forall j :: 0 <= j < |chain| ==> Bucket(chain[j].packetId) == k)
    && (forall i, j :: 0 <= i < j < |chain| ==> chain[i].packetId != chain[j].packetId)
  }

  ghost predicate WellHashed(chains: seq<seq<DepNode>>) {
    |chains| == DEPENDENCY_ARRAY_SIZE && forall k :: 0 <= k < |chains| ==> GoodChain(chains[k], k)
  }

  ghost function Ids(chains: seq<seq<DepNode>>): set<nat> {
    set k, j | 0 <= k < |chains| && 0 <= j < |chains[k]| :: chains[k][j].packetId
  }

  /** The map the chains stand for. */
  ghost function Table(chains: seq<seq<DepNode>>): map<nat, Info>
    requires |chains| == DEPENDENCY_ARRAY_SIZE
  {
    map id | id in Ids(chains) && Lookup(chains[Bucket(id)], id).Some? :: Lookup(chains[Bucket(id)], id).value
  }

  lemma TableLookup(chains: seq<seq<DepNode>>, id: nat)
    requires |chains| == DEPENDENCY_ARRAY_SIZE
    ensures id in Table(chains) <==> Lookup(chains[Bucket(id)], id).Some?
    ensures id in Table(chains) ==> Table(chains)[id] == Lookup(chains[Bucket(id)], id).value
  {
    var k := Bucket(id);
    var j := Position(chains[k], id);
    if j < |chains[k]| { assert chains[k][j].packetId in Ids(chains); }
  }

  lemma PositionUnique(chain: seq<DepNode>, id: nat, i: nat)
    requires i <= |chain| && (i < |chain| ==> chain[i].packetId == id)
    requires forall j :: 0 <= j < i ==> chain[j].packetId != id
    ensures Position(chain, id) == i
  {
  }

  lemma ChainAdd(chain: seq<DepNode>, n: DepNode, k: nat, x: nat)
    requires GoodChain(chain, k) && Bucket(n.packetId) == k && Lookup(chain, n.packetId).None?
    ensures GoodChain(chain + [n], k)
    ensures Lookup(chain + [n], x) == if x == n.packetId then Some(n.info) else Lookup(chain, x)
  {
    PositionUnique(chain + [n], x, if Position(chain, x) < |chain| || x == n.packetId then Position(chain, x) else |chain| + 1);
  }

  lemma ChainDrop(chain: seq<DepNode>, j: nat, k: nat, x: nat)
    requires GoodChain(chain, k) && j < |chain|
    ensures GoodChain(chain[..j] + chain[j + 1..], k)
    ensures Lookup(chain[..j] + chain[j + 1..], x) == if x == chain[j].packetId then None else Lookup(chain, x)
  {
    var i, rest := Position(chain, x), chain[..j] + chain[j + 1..];
    forall a | 0 <= a < |rest| ensures rest[a] == chain[if a < j then a else a + 1] {
    }
    if x == chain[j].packetId {
      PositionUnique(rest, x, |rest|);
    } else {
      PositionUnique(rest, x, if i < j then i else i - 1);
    }
  }

  lemma ChainSet(chain: seq<DepNode>, j: nat, k: nat, info: Info, x: nat)
    requires GoodChain(chain, k) && j < |chain|
    ensures GoodChain(chain[j := DepNode(chain[j].packetId, info)], k)
    ensures Lookup(chain[j := DepNode(chain[j].packetId, info)], x)
         == if x == chain[j].packetId then Some(info) else Lookup(chain, x)
  {
    PositionUnique(chain[j := DepNode(chain[j].packetId, info)], x, Position(chain, x));
    PositionUnique(chain, chain[j].packetId, j);
  }

  /** Exchanging the chain of one bucket changes the map as the chain says. */
  lemma TableChange(chains: seq<seq<DepNode>>, k: nat, chain: seq<DepNode>, x: nat)
    requires WellHashed(chains) && k < DEPENDENCY_ARRAY_SIZE && GoodChain(chain, k)
    ensures var chains' := chains[k := chain];
      && WellHashed(chains') && (x in Table(chains') <==> Lookup(chains'[Bucket(x)], x).Some?)
      && (x in Table(chains') ==> Table(chains')[x] == Lookup(chains'[Bucket(x)], x).value)
      && (x in Table(chains) <==> Lookup(chains[Bucket(x)], x).Some?)
      && (x in Table(chains) ==> Table(chains)[x] == Lookup(chains[Bucket(x)], x).value)
  {
    TableLookup(chains[k := chain], x);
    TableLookup(chains, x);
  }

  /** A new node at the end of its chain is a new key. */
  lemma AddTable(chains: seq<seq<DepNode>>, id: nat, info: Info)
    requires WellHashed(chains) && id !in Table(chains)
    ensures var chains' := chains[Bucket(id) := chains[Bucket(id)] + [DepNode(id, info)]];
      WellHashed(chains') && Table(chains') == Table(chains)[id := info]
  {
    hide Table, GoodChain, Lookup;
    var k := Bucket(id);
    var chain' := chains[k] + [DepNode(id, info)];
    TableLookup(chains, id);
    ChainAdd(chains[k], DepNode(id, info), k, id);
    var got, want := Table(chains[k := chain']), Table(chains)[id := info];
    forall x ensures x in got <==> x in want
             ensures x in want ==> got[x] == want[x] {
      ChainAdd(chains[k], DepNode(id, info), k, x);
      TableChange(chains, k, chain', x);
    }
    TableChange(chains, k, chain', id);
  }

  /** Unlinking the node of an id removes the key. */
  lemma RemoveTable(chains: seq<seq<DepNode>>, id: nat, j: nat)
    requires WellHashed(chains) && j < |chains[Bucket(id)]| && chains[Bucket(id)][j].packetId == id
    ensures var k := Bucket(id);
      var chains' := chains[k := chains[k][..j] + chains[k][j + 1..]];
      WellHashed(chains') && Table(chains') == Table(chains) - {id}
  {
    hide Table, GoodChain, Lookup;
    var k := Bucket(id);
    var chain' := chains[k][..j] + chains[k][j + 1..];
    ChainDrop(chains[k], j, k, id);
    forall x ensures x in Table(chains[k := chain']) <==> x in Table(chains) - {id}
             ensures x in Table(chains) - {id} ==> Table(chains[k := chain'])[x] == Table(chains)[x] {
      ChainDrop(chains[k], j, k, x);
      TableChange(chains, k, chain', x);
    }
    TableChange(chains, k, chain', id);
  }

  /** Changing the node of an id changes the value of the key. */
  lemma UpdateTable(chains: seq<seq<DepNode>>, id: nat, j: nat, info: Info)
    requires WellHashed(chains) && j < |chains[Bucket(id)]| && chains[Bucket(id)][j].packetId == id
    ensures var k := Bucket(id);
      var chains' := chains[k := chains[k][j := DepNode(id, info)]];
      WellHashed(chains') && Table(chains') == Table(chains)[id := info]
  {
    hide Table, GoodChain, Lookup;
    var k := Bucket(id);
    var chain' := chains[k][j := DepNode(id, info)];
    ChainSet(chains[k], j, k, info, id);
    var got, want := Table(chains[k := chain']), Table(chains)[id := info];
    forall x ensures x in got <==> x in want
             ensures x in want ==> got[x] == want[x] {
      ChainSet(chains[k], j, k, info, x);
      TableChange(chains, k, chain', x);
    }
    TableChange(chains, k, chain', id);
  }

  // ---------- the table itself ----------

  class Dependencies {
    const chains: array<seq<DepNode>>

    ghost predicate Valid()
      reads this, chains
    {
      chains.Length == DEPENDENCY_ARRAY_SIZE && WellHashed(chains[..])
    }

    ghost function Contents(): map<nat, Info>
      requires chains.Length == DEPENDENCY_ARRAY_SIZE
      reads this, chains
    {
      Table(chains[..])
    }

    constructor ()
      ensures Valid() && fresh(chains) && Contents() == map[]
    {
      chains := new seq<DepNode>[DEPENDENCY_ARRAY_SIZE](_ => []);
    }

    /** `nt_get_dependency_node`: where the node of an id is in its chain, if it is there. */
    method Get(id: nat) returns (pos: Option<nat>)
      requires Valid()
      ensures pos.Some? <==> id in Contents()
      ensures pos.Some? ==>
        pos.value < |chains[Bucket(id)]| && chains[Bucket(id)][pos.value] == DepNode(id, Contents()[id])
    {
      var chain := chains[Bucket(id)];
      TableLookup(chains[..], id);
      var j := 0;
      while j < |chain|
        invariant 0 <= j <= |chain| && forall i :: 0 <= i < j ==> chain[i].packetId != id
      {
        if chain[j].packetId == id {
          PositionUnique(chain, id, j);
          return Some(j);
        }
        j := j + 1;
      }
      PositionUnique(chain, id, j);
      pos := None;
    }

    /** `nt_add_dependency_node`. */
    method Add(id: nat) returns (pos: nat)
      requires Valid() && id !in Contents()
      modifies chains
      ensures Valid() && Contents() == old(Contents())[id := Info(None, 0)]
      ensures pos < |chains[Bucket(id)]| && chains[Bucket(id)][pos] == DepNode(id, Info(None, 0))
    {
      hide WellHashed, Table;
      AddTable(chains[..], id, Info(None, 0));
      var k := Bucket(id);
      pos := |chains[k]|;
      ghost var before := chains[..];
      chains[k] := chains[k] + [DepNode(id, Info(None, 0))];
      assert chains[..] == before[k := chains[k]];
    }

    /** A write through the pointer to a node. */
    method Update(id: nat, pos: nat, info: Info)
      requires Valid() && pos < |chains[Bucket(id)]| && chains[Bucket(id)][pos].packetId == id
      modifies chains
      ensures Valid() && Contents() == old(Contents())[id := info]
      ensures pos < |chains[Bucket(id)]| && chains[Bucket(id)][pos] == DepNode(id, info)
    {
      hide WellHashed, Table;
      UpdateTable(chains[..], id, pos, info);
      var k := Bucket(id);
      ghost var before := chains[..];
      chains[k] := chains[k][pos := DepNode(id, info)];
      assert chains[..] == before[k := chains[k]];
    }

    /** `nt_remove_dependency_node`: the packet of the removed node; an id without node is left alone. */
    method Remove(id: nat) returns (packet: Option<nat>)
      requires Valid()
      modifies chains
      ensures Valid() && Contents() == old(Contents()) - {id}
      ensures packet == if id in old(Contents()) then old(Contents())[id].packet else None
    {
      hide WellHashed, Table;
      var pos := Get(id);
      match pos
      case None =>
        packet := None;
        assert Contents() == Contents() - {id};
      case Some(j) =>
        RemoveTable(chains[..], id, j);
        var k := Bucket(id);
        packet := chains[k][j].info.packet;
        ghost var before := chains[..];
        chains[k] := chains[k][..j] + chains[k][j + 1..];
        assert chains[..] == before[k := chains[k]];
    }
  }
}
