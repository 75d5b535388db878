/** Shortest ways through a generated wiring: routers by their numbers, joined by the rows of a table. */
module Wiring {

  /** The pairs of router numbers between which data can pass in one step. */
  type Wires = set<(nat, nat)>

  ghost predicate Way(wires: Wires, w: seq<nat>) {
    w != [] && forall i, j :: 0 <= i < j < |w| && j == i + 1 ==> (w[i], w[j]) in wires
  }

  ghost predicate Joins(wires: Wires, w: seq<nat>, a: nat, b: nat) {
    Way(wires, w) && w[0] == a && w[|w| - 1] == b
  }

  /** Some way from `a` to `b` passes `n` routers, both ends included, and none passes fewer. */
  ghost predicate Shortest(wires: Wires, a: nat, b: nat, n: nat) {
    (exists w :: Joins(wires, w, a, b) && |w| == n) && forall w :: Joins(wires, w, a, b) ==> |w| >= n
  }

  lemma ShortestUnique(wires: Wires, a: nat, b: nat, n: nat, m: nat)
    requires Shortest(wires, a, b, n)
    ensures Shortest(wires, a, b, m) <==> m == n
  {
    var w :| Joins(wires, w, a, b) && |w| == n;
    if Shortest(wires, a, b, m) {
      var v :| Joins(wires, v, a, b) && |v| == m;
    }
  }
}
