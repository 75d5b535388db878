/** The books kept between reliefs: slack buckets, dual and primal counters. */
module AgonyLedger {
  import opened Lists
  import opened AgonyTheory

  function DropFrom(slacks: seq<seq<int>>, t: int, e: int): (r: seq<seq<int>>)
    requires t <= |slacks|
    ensures |r| == |slacks|
  {
    if t > 0 then slacks[t - 1 := Without(slacks[t - 1], e)] else slacks
  }

  function AddTo(slacks: seq<seq<int>>, t: int, e: int): (r: seq<seq<int>>)
    requires t <= |slacks|
    ensures |r| == |slacks|
  {
    if t > 0 then slacks[t - 1 := slacks[t - 1] + [e]] else slacks
  }

  /** Unmarked edges are in no bucket, whatever slack they last recorded. */
  ghost function LevelOf(eul: seq<bool>, slk: seq<int>): (l: seq<int>)
    requires |eul| == |slk|
    ensures |l| == |eul|
  {
    seq(|eul|, e requires 0 <= e < |eul| => if eul[e] then slk[e] else 0)
  }

  ghost predicate Ledger(eul: seq<bool>, slk: seq<int>, slacks: seq<seq<int>>, dual: int, primal: int) {
    && |eul| == |slk|
    && Buckets(LevelOf(eul, slk), slacks)
    && (forall e :: 0 <= e < |eul| && eul[e] ==> 0 <= slk[e] <= |slacks|)
    && dual == Count(eul)
    && primal == dual + SlackSum(eul, slk)
  }

  lemma LedgerBounds(eul: seq<bool>, slk: seq<int>, slacks: seq<seq<int>>, dual: int, primal: int)
    requires Ledger(eul, slk, slacks, dual, primal)
    ensures forall e :: 0 <= e < |eul| && eul[e] ==> 0 <= slk[e] <= |slacks|
  {
  }

  /** The recorded slack of every marked edge is its slack under `r`. */
  ghost predicate Exact(g: Digraph, r: seq<int>, eul: seq<bool>, slk: seq<int>)
    requires g.Valid() && Ranking(g, r)
  {
    && |eul| == |slk| == g.M()
    && forall e :: 0 <= e < g.M() && eul[e] ==> slk[e] == EdgeSlack(g, r, e)
  }

  /** A marked edge leaves the Eulerian part. */
  lemma LedgerUnmark(eul: seq<bool>, slk: seq<int>, slacks: seq<seq<int>>, dual: int, primal: int, e: int)
    requires Ledger(eul, slk, slacks, dual, primal) && 0 <= e < |eul| && eul[e]
    ensures Ledger(eul[e := false], slk, DropFrom(slacks, slk[e], e), dual - 1, primal - 1 - slk[e])
    ensures SlackSum(eul[e := false], slk) == SlackSum(eul, slk) - slk[e]
    ensures 0 <= slk[e] <= |slacks|
  {
    var l, eul' := LevelOf(eul, slk), eul[e := false];
    CountFlip(eul, e, false, |eul|);
    SlackFlip(eul, slk, e, false, slk[e], |eul|);
    assert slk[e := slk[e]] == slk;
    assert LevelOf(eul', slk) == l[e := 0];
    if slk[e] > 0 { BucketDrop(l, slacks, e); } else { assert l[e := 0] == l; }
  }

  /** An unmarked edge enters it with slack `t`. */
  lemma LedgerMark(eul: seq<bool>, slk: seq<int>, slacks: seq<seq<int>>, dual: int, primal: int, e: int, t: int)
    requires Ledger(eul, slk, slacks, dual, primal) && 0 <= e < |eul| && !eul[e] && 0 <= t <= |slacks|
    ensures Ledger(eul[e := true], slk[e := t], AddTo(slacks, t, e), dual + 1, primal + 1 + t)
    ensures SlackSum(eul[e := true], slk[e := t]) == SlackSum(eul, slk) + t
  {
    var l := LevelOf(eul, slk);
    CountFlip(eul, e, true, |eul|);
    SlackFlip(eul, slk, e, true, t, |eul|);
    assert LevelOf(eul[e := true], slk[e := t]) == l[e := t];
    if t > 0 { BucketAdd(l, slacks, e, t); } else { assert l[e := t] == l; }
  }

  /** A marked edge has its recorded slack replaced by `t`. */
  lemma LedgerUpdate(eul: seq<bool>, slk: seq<int>, slacks: seq<seq<int>>, dual: int, primal: int, e: int, t: int)
    requires Ledger(eul, slk, slacks, dual, primal) && 0 <= e < |eul| && eul[e] && 0 <= t <= |slacks|
    ensures Ledger(eul, slk[e := t], AddTo(DropFrom(slacks, slk[e], e), t, e), dual, primal - slk[e] + t)
    ensures SlackSum(eul, slk[e := t]) == SlackSum(eul, slk) - slk[e] + t
    ensures 0 <= slk[e] <= |slacks|
  {
    LedgerUnmark(eul, slk, slacks, dual, primal, e);
    LedgerMark(eul[e := false], slk, DropFrom(slacks, slk[e], e), dual - 1, primal - 1 - slk[e], e, t);
    assert eul[e := false][e := true] == eul;
  }

  /** Recorded slacks that nowhere grow cannot sum to more. */
  lemma {:induction false} SlackMonotone(eul: seq<bool>, slk: seq<int>, slk': seq<int>, k: nat)
    requires k <= |eul| == |slk| == |slk'|
    requires forall e :: 0 <= e < k && eul[e] ==> slk'[e] <= slk[e]
    ensures SlackTo(eul, slk', k) <= SlackTo(eul, slk, k)
    ensures forall e :: 0 <= e < k && eul[e] ==> SlackTo(eul, slk', k) <= SlackTo(eul, slk, k) - (slk[e] - slk'[e])
  {
    if k > 0 { SlackMonotone(eul, slk, slk', k - 1); }
  }

  lemma SlackSumMonotone(eul: seq<bool>, slk: seq<int>, slk': seq<int>)
    requires |eul| == |slk| == |slk'|
    requires forall e :: 0 <= e < |eul| && eul[e] ==> slk'[e] <= slk[e]
    ensures SlackSum(eul, slk') <= SlackSum(eul, slk)
    ensures forall e :: 0 <= e < |eul| && eul[e] ==> SlackSum(eul, slk') <= SlackSum(eul, slk) - (slk[e] - slk'[e])
  {
    SlackMonotone(eul, slk, slk', |eul|);
  }

  /** If ranks only rise, only at touched nodes, and no marked edge gains slack, then the marked edges
      out of untouched nodes keep theirs exactly. */
  lemma RaisedSlacks(g: Digraph, eul: seq<bool>, r0: seq<int>, r: seq<int>, nl: seq<int>)
    requires g.Valid() && Marking(g, eul) && Ranking(g, r0) && Ranking(g, r)
    requires forall v :: 0 <= v < g.n ==> r[v] >= r0[v]
    requires forall v :: 0 <= v < g.n && v !in nl ==> r[v] == r0[v]
    requires forall e :: 0 <= e < g.M() && eul[e] ==> EdgeSlack(g, r, e) <= EdgeSlack(g, r0, e)
    ensures forall e :: 0 <= e < g.M() && eul[e] && g.src[e] !in nl ==> EdgeSlack(g, r, e) == EdgeSlack(g, r0, e)
  {
    forall e | 0 <= e < g.M() && eul[e] && g.src[e] !in nl ensures EdgeSlack(g, r, e) == EdgeSlack(g, r0, e) {
      assert EdgeSlack(g, r, e) <= EdgeSlack(g, r0, e);
    }
  }

  /** An empty top bucket may be skipped. */
  lemma EmptyTop(eul: seq<bool>, slk: seq<int>, slacks: seq<seq<int>>, dual: int, primal: int, top: int)
    requires Ledger(eul, slk, slacks, dual, primal) && 0 <= top < |slacks| && slacks[top] == []
    requires forall e :: 0 <= e < |eul| && eul[e] ==> slk[e] <= top + 1
    ensures forall e :: 0 <= e < |eul| && eul[e] ==> slk[e] <= top
  {
    forall e | 0 <= e < |eul| && eul[e] ensures slk[e] <= top {
      assert e !in slacks[top];
    }
  }

  /** The first edge of an occupied bucket is marked and has the slack of that bucket. */
  lemma TopEdge(eul: seq<bool>, slk: seq<int>, slacks: seq<seq<int>>, dual: int, primal: int, top: int)
    requires Ledger(eul, slk, slacks, dual, primal) && 0 <= top < |slacks| && slacks[top] != []
    ensures var e := slacks[top][0]; 0 <= e < |eul| && eul[e] && slk[e] == top + 1
  {
    assert slacks[top][0] in slacks[top];
  }

  lemma {:induction false} ZeroSlackTo(eul: seq<bool>, slk: seq<int>, k: nat)
    requires k <= |eul| == |slk|
    requires forall e :: 0 <= e < k && eul[e] ==> slk[e] == 0
    ensures SlackTo(eul, slk, k) == 0
  {
    if k > 0 { ZeroSlackTo(eul, slk, k - 1); }
  }

  lemma NoSlack(eul: seq<bool>, slk: seq<int>, slacks: seq<seq<int>>, dual: int, primal: int)
    requires Ledger(eul, slk, slacks, dual, primal)
    requires forall e :: 0 <= e < |eul| && eul[e] ==> slk[e] <= 0
    ensures SlackSum(eul, slk) == 0 && primal == dual == Count(eul)
  {
    ZeroSlackTo(eul, slk, |eul|);
  }

  lemma SlackSumNonNegative(eul: seq<bool>, slk: seq<int>, slacks: seq<seq<int>>, dual: int, primal: int)
    requires Ledger(eul, slk, slacks, dual, primal)
    ensures SlackSum(eul, slk) >= 0
  {
    SlackNonNegative(eul, slk, |eul|);
  }
}
