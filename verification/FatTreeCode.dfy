/** Addresses of a radix-k position: its digits, each in a field of whole bits. */
module FatTreeCode {
  import opened Bits
  import opened Radix

  /** The bits one digit takes: the least `w` with 2^w >= k, searched from `w` up. */
  function WidthFrom(k: nat, w: nat): (r: nat)
    ensures Power2(r) >= k && r >= w && forall v :: w <= v < r ==> Power2(v) < k
    decreases if Power2(w) >= k then 0 else k - Power2(w)
  {
    if Power2(w) >= k then w else WidthFrom(k, w + 1)
  }

  function Width(k: nat): nat { WidthFrom(k, 0) }

  /** The least positive number of bits for numbers below `k`. */
  ghost predicate Least(k: nat, w: nat) {
    w >= 1 && Power2(w) >= k && forall v: nat :: 1 <= v < w ==> Power2(v) < k
  }

  lemma LeastWidth(k: nat, w: nat)
    requires Least(k, w)
    ensures w == WidthFrom(k, 1) && Power2(w) >= k
  {
    hide Power2;
    assert Power2(WidthFrom(k, 1)) >= k;
  }

  /** `fattree_addrencode`: the digits of `pos`, read in radix 2^Width. */
  function Encode(pos: nat, k: nat, l: nat): nat
    requires k > 0
  {
    ToNat(Digits(pos, k, l), Power2(Width(k)))
  }

  /** `fattree_addrdecode`: the bit fields of `code`, read in radix k. */
  function Decode(code: nat, k: nat, l: nat): nat {
    ToNat(Digits(code, Power2(Width(k)), l), k)
  }

  lemma {:induction false} Power2Pow(n: nat, w: nat)
    ensures Power2(Mul(n, w)) == Pow(Power2(w), n)
  {
    if n == 0 {
      MulUnits(w);
    } else {
      Power2Pow(n - 1, w);
      MulComm(n, w);
      MulComm(n - 1, w);
      MulAdd(w, n - 1, 1);
      MulUnits(w);
      Power2Add(Mul(n - 1, w), w);
      MulComm(Power2(Mul(n - 1, w)), Power2(w));
    }
  }

  lemma {:induction false} Power2Add(m: nat, n: nat)
    ensures Power2(m + n) == Mul(Power2(m), Power2(n))
  {
    if m == 0 {
      MulUnits(Power2(n));
    } else {
      Power2Add(m - 1, n);
      MulAssoc(2, Power2(m - 1), Power2(n));
    }
  }

  lemma ModIs(x: nat, k: nat)
    requires k > 0
    ensures Mod(x, k) == x % k
  {
  }

  /** Dividing in two steps. */
  lemma DivDiv(x: nat, a: nat, b: nat)
    requires a > 0 && b > 0 && Mul(a, b) > 0
    ensures Div(Div(x, a), b) == Div(x, Mul(a, b))
  {
    hide Mul, Div, Mod;
    var q, r := Div(x, a), Mod(x, a);
    var q', r' := Div(q, b), Mod(q, b);
    DivMod(x, a);
    DivMod(q, b);
    MulAdd(a, Mul(b, q'), r');
    MulAssoc(a, b, q');
    MulBelow(a, r', b, r);
    DivModUnique(x, Mul(a, b), q', Mul(a, r') + r);
  }

  /** One digit more. */
  lemma {:induction false} DigitsLast(x: nat, k: nat, n: nat)
    requires k > 0
    ensures Digits(x, k, n + 1) == Digits(x, k, n) + [Mod(Div(x, Pow(k, n)), k)]
    decreases n
  {
    hide Mul, Mod, Div;
    if n == 0 {
      assert Div(x, 1) == x by { MulUnits(x); DivModUnique(x, 1, x, 0); }
      assert Digits(Div(x, k), k, 0) == [];
    } else {
      DigitsLast(Div(x, k), k, n - 1);
      DivDiv(x, k, Pow(k, n - 1));
    }
  }

  /** Encoding loses nothing but the digits beyond the `l` lowest. */
  lemma CodecRoundTrip(pos: nat, k: nat, l: nat)
    requires k > 0
    ensures Decode(Encode(pos, k, l), k, l) == Mod(pos, Pow(k, l))
    ensures pos < Pow(k, l) ==> Decode(Encode(pos, k, l), k, l) == pos
  {
    hide Mul, Mod, Div, Pow, Digits, ToNat;
    var ds := Digits(pos, k, l);
    assert AreDigits(ds, Power2(Width(k)));
    ToNatDigits(ds, Power2(Width(k)));
    LowDigits(pos, k, l);
    if pos < Pow(k, l) { DigitsToNat(pos, k, l); }
  }

  lemma {:induction false} DigitAt(x: nat, k: nat, n: nat, i: nat)
    requires k > 0 && i < n
    ensures Digits(x, k, n)[i] == Mod(Div(x, Pow(k, i)), k)
    decreases n
  {
    hide Mul, Mod, Div, Pow;
    DigitsLast(x, k, n - 1);
    if i < n - 1 { DigitAt(x, k, n - 1, i); }
  }

  /** Field `i` of a code, of the least number of bits that holds a digit, is digit `i` of the position. */
  lemma FieldIsDigit(pos: nat, k: nat, l: nat, i: nat, w: nat)
    requires k > 0 && i < l && Power2(w) >= k && forall v: nat :: v < w ==> Power2(v) < k
    ensures Mod(Div(Encode(pos, k, l), Power2(Mul(i, w))), Power2(w)) == Mod(Div(pos, Pow(k, i)), k)
  {
    hide Mul, Mod, Div, Pow, Digits, ToNat;
    assert w == Width(k);
    var ds := Digits(pos, k, l);
    assert AreDigits(ds, Power2(w));
    ToNatDigits(ds, Power2(w));
    DigitAt(pos, k, l, i);
    DigitAt(Encode(pos, k, l), Power2(w), l, i);
    Power2Pow(i, w);
  }

  lemma {:induction false} LowDigits(x: nat, k: nat, n: nat)
    requires k > 0
    ensures ToNat(Digits(x, k, n), k) == Mod(x, Pow(k, n))
  {
    hide Mul, Mod, Div;
    var low := ToNat(Digits(x, k, n), k);
    ToNatDigits(Digits(x, k, n), k);
    HighPart(x, k, n);
    DivModUnique(x, Pow(k, n), Div(x, Pow(k, n)), low);
  }

  lemma {:induction false} HighPart(x: nat, k: nat, n: nat)
    requires k > 0
    ensures x == Mul(Pow(k, n), Div(x, Pow(k, n))) + ToNat(Digits(x, k, n), k)
  {
    hide Mul, Mod, Div;
    if n == 0 {
      MulUnits(x);
      DivModUnique(x, 1, x, 0);
      MulUnits(Div(x, 1));
    } else {
      var p, q := Pow(k, n - 1), Div(x, Pow(k, n - 1));
      HighPart(x, k, n - 1);
      DigitsLast(x, k, n - 1);
      ToNatConcat(Digits(x, k, n - 1), [Mod(q, k)], k);
      ToNatOne(Mod(q, k), k);
      DivMod(q, k);
      MulComm(p, k);
      DivDiv(x, p, k);
      MulAdd(p, Mul(k, Div(q, k)), Mod(q, k));
      MulAssoc(p, k, Div(q, k));
    }
  }

  // ---------- the loops ----------

  method FieldWidth(k: nat) returns (kw: nat, mask: nat)
    ensures kw == Width(k) && mask == Power2(kw) - 1
  {
    kw, mask := 0, 0;
    while Power2(kw) < k
      invariant WidthFrom(k, kw) == Width(k) && mask == Power2(kw) - 1
      decreases k - Power2(kw)
    {
      kw := kw + 1;
      mask := 2 * mask;
      mask := mask + 1;
    }
  }

  method AddrEncode(pos: nat, k: nat, l: nat) returns (code: nat)
    requires k > 0
    ensures code == Encode(pos, k, l)
  {
    hide Mul, Mod, Div, WidthFrom;
    var kw, mask := FieldWidth(k);
    var pow, i := 1, 0;
    code := 0;
    while i < l
      invariant 0 <= i <= l && pow == Pow(k, i) && code == Encode(pos, k, i)
    {
      var digit := Mod(Div(pos, pow), k);
      EncodeStep(pos, k, i);
      code := Or(code, Mul(Power2(Mul(i, kw)), digit));
      MulComm(pow, k);
      pow := Mul(pow, k);
      i := i + 1;
    }
  }

  lemma EncodeStep(pos: nat, k: nat, i: nat)
    requires k > 0
    ensures var w := Width(k);
      Or(Encode(pos, k, i), Mul(Power2(Mul(i, w)), Mod(Div(pos, Pow(k, i)), k))) == Encode(pos, k, i + 1)
  {
    var w, d := Width(k), Mod(Div(pos, Pow(k, i)), k);
    hide Mod, Div, WidthFrom;
    var ds := Digits(pos, k, i);
    assert AreDigits(ds, Power2(w));
    ToNatDigits(ds, Power2(w));
    Power2Pow(i, w);
    OrDisjoint(ToNat(ds, Power2(w)), d, Mul(i, w));
    DigitsLast(pos, k, i);
    ToNatConcat(ds, [d], Power2(w));
    ToNatOne(d, Power2(w));
  }

  method AddrDecode(code: nat, k: nat, l: nat) returns (pos: nat)
    ensures pos == Decode(code, k, l)
  {
    hide Mul, Mod, Div, WidthFrom;
    var kw, mask := FieldWidth(k);
    var pow, i, rest := 1, 0, code;
    pos := 0;
    assert Div(code, 1) == code by { MulUnits(code); DivModUnique(code, 1, code, 0); }
    while i < l
      invariant 0 <= i <= l && pow == Pow(k, i) && pos == Decode(code, k, i)
      invariant rest == Div(code, Pow(Power2(kw), i))
    {
      AndMask(rest, kw);
      var field := And(rest, mask);
      ModIs(rest, Power2(kw));
      DigitsLast(code, Power2(kw), i);
      ToNatConcat(Digits(code, Power2(kw), i), [field], k);
      ToNatOne(field, k);
      pos := pos + Mul(pow, field);
      MulComm(pow, k);
      pow := Mul(pow, k);
      DivDiv(code, Pow(Power2(kw), i), Power2(kw));
      MulComm(Pow(Power2(kw), i), Power2(kw));
      rest := Div(rest, Power2(kw));
      i := i + 1;
    }
  }
}
