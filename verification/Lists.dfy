/** Duplicate-free lists of identifiers: the abstract view of the TAILQ chains. */
module Lists {

  ghost predicate Distinct<T>(s: seq<T>) {
    forall i, j :: 0 <= i < j < |s| ==> s[i] != s[j]
  }

  /** What TAILQ_REMOVE leaves: the list with every occurrence of `x` taken out. */
  function Without(s: seq<int>, x: int): (r: seq<int>)
    ensures |r| <= |s|
    ensures forall y :: y in r <==> y in s && y != x
  {
    if s == [] then []
    else if s[0] == x then Without(s[1..], x)
    else [s[0]] + Without(s[1..], x)
  }

  lemma WithoutAbsent(s: seq<int>, x: int)
    requires x !in s
    ensures Without(s, x) == s
  {
    if s != [] {
      WithoutAbsent(s[1..], x);
    }
  }

  lemma {:induction false} WithoutDistinct(s: seq<int>, x: int)
    requires Distinct(s)
    ensures Distinct(Without(s, x))
    ensures |Without(s, x)| == if x in s then |s| - 1 else |s|
  {
    if s == [] {
    } else if s[0] == x {
      assert x !in s[1..];
      WithoutAbsent(s[1..], x);
    } else {
      WithoutDistinct(s[1..], x);
      assert s[0] !in s[1..];
    }
  }

  lemma AppendDistinct(s: seq<int>, x: int)
    requires Distinct(s) && x !in s
    ensures Distinct(s + [x])
  {
  }

  /** A duplicate-free list of numbers below `n` has at most `n` entries. */
  lemma {:induction false} DistinctBounded(s: seq<int>, n: nat)
    requires Distinct(s)
    requires forall x :: x in s ==> 0 <= x < n
    ensures |s| <= n
    decreases n
  {
    if s == [] {
    } else {
      assert s[0] in s;
      WithoutDistinct(s, n - 1);
      DistinctBounded(Without(s, n - 1), n - 1);
    }
  }

  /** A duplicate-free list of numbers below `n` that misses one of them is shorter than `n`. */
  lemma DistinctMissing(s: seq<int>, n: nat, y: int)
    requires Distinct(s)
    requires forall x :: x in s ==> 0 <= x < n
    requires 0 <= y < n && y !in s
    ensures |s| < n
  {
    DistinctBounded(s + [y], n);
  }

  // ---------- bucket queues ----------

  /** Bucket `i` of queue `q` holds exactly the items of level `i + 1`; items of level 0 are in no bucket. */
  ghost predicate Buckets(level: seq<int>, q: seq<seq<int>>) {
    && (forall i :: 0 <= i < |q| ==> Distinct(q[i]))
    && (forall i, v {:trigger v in q[i]} :: 0 <= i < |q| ==> (v in q[i] <==> 0 <= v < |level| && level[v] == i + 1))
  }

  lemma BucketAdd(level: seq<int>, q: seq<seq<int>>, v: int, d: int)
    requires Buckets(level, q) && 0 <= v < |level| && level[v] == 0 && 0 < d <= |q|
    ensures Buckets(level[v := d], q[d - 1 := q[d - 1] + [v]])
  {
    assert v !in q[d - 1];
    AppendDistinct(q[d - 1], v);
  }

  lemma BucketDrop(level: seq<int>, q: seq<seq<int>>, v: int)
    requires Buckets(level, q) && 0 <= v < |level| && 0 < level[v] <= |q|
    ensures Buckets(level[v := 0], q[level[v] - 1 := Without(q[level[v] - 1], v)])
  {
    WithoutDistinct(q[level[v] - 1], v);
  }

  /** Moving `v` from its bucket (if any) to a higher one. */
  lemma BucketMove(level: seq<int>, q: seq<seq<int>>, v: int, d: int)
    requires Buckets(level, q) && 0 <= v < |level| && 0 <= level[v] < d <= |q|
    ensures
      var q1 := if level[v] > 0 then q[level[v] - 1 := Without(q[level[v] - 1], v)] else q;
      Buckets(level[v := d], q1[d - 1 := q1[d - 1] + [v]])
  {
    if level[v] > 0 {
      BucketDrop(level, q, v);
      BucketAdd(level[v := 0], q[level[v] - 1 := Without(q[level[v] - 1], v)], v, d);
      assert level[v := 0][v := d] == level[v := d];
    } else {
      BucketAdd(level, q, v, d);
    }
  }
}
