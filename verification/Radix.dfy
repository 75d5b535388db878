/** Numbers and their digits, least significant first. */
module Radix {
  import opened Bits

  // ---------- arithmetic of naturals ----------

  function Mul(a: nat, b: nat): (p: nat)
    ensures a > 0 && b > 0 ==> p >= a && p >= b
  {
    MulLarge(a, b);
    a * b
  }

  lemma MulLarge(a: nat, b: nat)
    ensures a * b >= 0 && (a > 0 && b > 0 ==> a * b >= a && a * b >= b)
  {
    if a > 0 && b > 0 {
      Multiples(a, b);
      Multiples(b, a);
      assert a * b == b * a;
    } else {
      assert a * b == 0;
    }
  }

  lemma MulComm(a: nat, b: nat)
    ensures Mul(a, b) == Mul(b, a)
  {
  }

  lemma MulAssoc(a: nat, b: nat, c: nat)
    ensures Mul(a, Mul(b, c)) == Mul(Mul(a, b), c)
  {
    assert a * (b * c) == a * b * c;
  }

  lemma MulAdd(a: nat, b: nat, c: nat)
    ensures Mul(a, b + c) == Mul(a, b) + Mul(a, c)
  {
    assert a * (b + c) == a * b + a * c;
  }

  lemma MulUnits(a: nat)
    ensures Mul(a, 0) == 0 == Mul(0, a) && Mul(a, 1) == a == Mul(1, a)
  {
  }

  function Div(x: nat, k: nat): nat
    requires k > 0
  {
    Quotient(x, k);
    x / k
  }

  function Mod(x: nat, k: nat): (r: nat)
    requires k > 0
    ensures r < k
  {
    x % k
  }

  lemma Quotient(x: nat, k: nat)
    requires k > 0
    ensures x / k >= 0 && x == k * (x / k) + x % k
  {
  }

  lemma DivMod(x: nat, k: nat)
    requires k > 0
    ensures x == Mul(k, Div(x, k)) + Mod(x, k)
  {
    Quotient(x, k);
  }

  lemma DivModUnique(x: nat, k: nat, q: nat, r: nat)
    requires r < k && x == Mul(k, q) + r
    ensures Div(x, k) == q && Mod(x, k) == r
  {
    assert k * q == q * k;
    RemainderUnique(x, k, q, r);
  }

  /** One more unit of the quotient outweighs any remainder. */
  lemma MulBelow(k: nat, a: nat, b: nat, d: nat)
    requires a < b && d < k
    ensures d + Mul(k, a) < Mul(k, b)
  {
    hide Mul;
    MulAdd(k, a, b - a);
  }

  lemma QuotientBelow(x: nat, k: nat, m: nat)
    requires k > 0 && x < Mul(k, m)
    ensures Div(x, k) < m
  {
    hide Mul, Div, Mod;
    DivMod(x, k);
    if Div(x, k) >= m {
      MulAdd(k, m, Div(x, k) - m);
      assert false;
    }
  }

  function Pow(k: nat, n: nat): (p: nat)
    ensures k > 0 ==> p > 0
  {
    if n == 0 then 1 else Mul(k, Pow(k, n - 1))
  }

  // ---------- digits ----------

  ghost predicate AreDigits(ds: seq<nat>, k: nat) {
    forall i :: 0 <= i < |ds| ==> ds[i] < k
  }

  function ToNat(ds: seq<nat>, k: nat): nat {
    if ds == [] then 0 else ds[0] + Mul(k, ToNat(ds[1..], k))
  }

  /** The `n` lowest digits of a number. */
  function Digits(x: nat, k: nat, n: nat): (ds: seq<nat>)
    requires k > 0
    ensures |ds| == n && AreDigits(ds, k)
    decreases n
  {
    if n == 0 then [] else [Mod(x, k)] + Digits(Div(x, k), k, n - 1)
  }

  /** A number is its digits. */
  lemma {:induction false} DigitsToNat(x: nat, k: nat, n: nat)
    requires k > 0 && x < Pow(k, n)
    ensures ToNat(Digits(x, k, n), k) == x
    decreases n
  {
    hide Mul, Div, Mod;
    if n > 0 {
      QuotientBelow(x, k, Pow(k, n - 1));
      DigitsToNat(Div(x, k), k, n - 1);
      assert Digits(x, k, n)[1..] == Digits(Div(x, k), k, n - 1);
      DivMod(x, k);
    }
  }

  /** Digits are read back from the number they make. */
  lemma {:induction false} ToNatDigits(ds: seq<nat>, k: nat)
    requires k > 0 && AreDigits(ds, k)
    ensures Digits(ToNat(ds, k), k, |ds|) == ds && ToNat(ds, k) < Pow(k, |ds|)
  {
    hide Mul, Div, Mod;
    if ds != [] {
      var rest := ToNat(ds[1..], k);
      ToNatDigits(ds[1..], k);
      DivModUnique(ToNat(ds, k), k, rest, ds[0]);
      MulBelow(k, rest, Pow(k, |ds| - 1), ds[0]);
      assert [ds[0]] + ds[1..] == ds;
    }
  }

  /** The value of two runs of digits. */
  lemma {:induction false} ToNatConcat(s: seq<nat>, t: seq<nat>, k: nat)
    ensures ToNat(s + t, k) == ToNat(s, k) + Mul(Pow(k, |s|), ToNat(t, k))
  {
    hide Mul;
    if s == [] {
      assert s + t == t;
      MulUnits(ToNat(t, k));
    } else {
      ToNatConcat(s[1..], t, k);
      assert (s + t)[1..] == s[1..] + t;
      var a, b, c := ToNat(s[1..], k), Pow(k, |s| - 1), ToNat(t, k);
      MulAdd(k, a, Mul(b, c));
      MulAssoc(k, b, c);
    }
  }

  lemma ToNatOne(d: nat, k: nat)
    ensures ToNat([d], k) == d
  {
    hide Mul;
    assert [d][1..] == [];
    MulUnits(k);
  }
}
