/** Bitwise operations on unsigned integers, and powers of two. */
module Bits {

  function Power2(n: nat): (p: nat)
    ensures p > 0
  {
    if n == 0 then 1 else 2 * Power2(n - 1)
  }

  /** Bitwise or. */
  function Or(a: nat, b: nat): nat
    decreases a
  {
    if a == 0 then b else 2 * Or(a / 2, b / 2) + (if a % 2 == 1 || b % 2 == 1 then 1 else 0)
  }

  /** Bitwise and. */
  function And(a: nat, b: nat): nat
    decreases a
  {
    if a == 0 then 0 else 2 * And(a / 2, b / 2) + (if a % 2 == 1 && b % 2 == 1 then 1 else 0)
  }

  lemma OrZero(a: nat)
    ensures Or(a, 0) == a
  {
  }

  lemma ZeroOr(b: nat)
    ensures Or(0, b) == b
  {
  }

  lemma OrComm(a: nat, b: nat)
    ensures Or(a, b) == Or(b, a)
  {
  }

  lemma OrDouble(a: nat, b: nat)
    ensures Or(2 * a, b) == 2 * Or(a, b / 2) + b % 2
  {
  }

  lemma {:induction false} OrBounded(a: nat, b: nat, n: nat)
    requires a < Power2(n) && b < Power2(n)
    ensures Or(a, b) < Power2(n)
    decreases n
  {
    if n > 0 && a > 0 { OrBounded(a / 2, b / 2, n - 1); }
  }

  /** A number below a power of two and a multiple of it have no bit in common. */
  lemma {:induction false} OrDisjoint(a: nat, b: nat, n: nat)
    requires a < Power2(n)
    ensures Or(a, Power2(n) * b) == a + Power2(n) * b
    decreases n
  {
    if n == 0 {
      assert Power2(n) * b == b;
    } else {
      var c := Power2(n - 1) * b;
      assert Power2(n) * b == 2 * c;
      OrDisjoint(a / 2, b, n - 1);
      assert a > 0 ==> Or(a, 2 * c) == 2 * Or(a / 2, c) + a % 2;
    }
  }

  /** The low bits of a number are its remainder. */
  lemma {:induction false} AndMask(a: nat, n: nat)
    ensures And(a, Power2(n) - 1) == a % Power2(n)
    decreases n
  {
    if n == 0 {
      AndZero(a);
    } else {
      var m := Power2(n - 1);
      AndMask(a / 2, n - 1);
      assert (Power2(n) - 1) / 2 == m - 1 && (Power2(n) - 1) % 2 == 1;
      assert a > 0 ==> And(a, 2 * m - 1) == 2 * And(a / 2, m - 1) + a % 2;
      HalfRemainder(a, m);
    }
  }

  lemma AndZero(a: nat)
    ensures And(a, 0) == 0
  {
  }

  lemma HalfRemainder(a: nat, m: nat)
    requires m > 0
    ensures a % (2 * m) == 2 * (a / 2 % m) + a % 2
  {
    var q, r := a / 2 / m, a / 2 % m;
    assert a / 2 == q * m + r;
    assert a == q * (2 * m) + (2 * r + a % 2) by { assert q * (2 * m) == 2 * (q * m); }
    RemainderUnique(a, 2 * m, q, 2 * r + a % 2);
  }

  /** Division with remainder is unique. */
  lemma RemainderUnique(a: nat, m: nat, q: nat, r: nat)
    requires m > 0 && r < m && a == q * m + r
    ensures a / m == q && a % m == r
  {
    var q', r' := a / m, a % m;
    assert a == q' * m + r';
    assert (q - q') * m == r' - r by { assert (q - q') * m == q * m - q' * m; }
    NoMultiple(q - q', m);
  }

  /** The only multiple of `m` nearer to zero than `m` is zero. */
  lemma NoMultiple(d: int, m: int)
    requires m > 0 && -m < d * m < m
    ensures d == 0
  {
    assert (-d) * m == -(d * m);
    if d > 0 {
      Multiples(d, m);
      assert false;
    } else if d < 0 {
      Multiples(-d, m);
      assert false;
    }
  }

  lemma Multiples(n: nat, m: nat)
    requires n > 0
    ensures n * m >= m
  {
    assert n * m == (n - 1) * m + m;
  }
}
