/** Positional notation: digits to value and back, and the powers involved. */
module Radix {

  function Pow(b: nat, e: nat): nat {
    if e == 0 then 1 else b * Pow(b, e - 1)
  }

  predicate Below(ds: seq<nat>, base: nat) {
    forall i :: 0 <= i < |ds| ==> ds[i] < base
  }

  /** Value of a little-endian digit string. */
  function FromDigits(ds: seq<nat>, base: nat): nat {
    if ds == [] then 0 else ds[0] + base * FromDigits(ds[1..], base)
  }

  /** The `len` least significant digits of v, little-endian. */
  function ToDigits(v: nat, base: nat, len: nat): (ds: seq<nat>)
    requires base > 0
    ensures |ds| == len && Below(ds, base)
    decreases len
  {
    if len == 0 then [] else [v % base] + ToDigits(v / base, base, len - 1)
  }

  // ---------------------------------------------------------------- division

  lemma MulMono(a: int, b: int, c: int)
    requires a <= b && 0 <= c
    ensures a * c <= b * c
  {
  }

  lemma Distribute(a: int, b: int, c: int)
    ensures (a + b) * c == a * c + b * c
    ensures (a - b) * c == a * c - b * c
  {
  }

  /** Quotient and remainder are determined by q * d + r with r in range. */
  lemma DivMod(q: int, r: int, d: int)
    requires 0 <= r < d
    ensures (q * d + r) / d == q && (q * d + r) % d == r
  {
    var x := q * d + r;
    var q', r' := x / d, x % d;
    assert x == d * q' + r' && 0 <= r' < d;
    Distribute(q', q, d);
    if q' > q {
      MulMono(1, q' - q, d);
    } else if q' < q {
      MulMono(q' - q, -1, d);
    }
  }

  lemma DivDiv(v: nat, a: nat, b: nat)
    requires a > 0 && b > 0
    ensures a * b > 0 && v / a / b == v / (a * b)
    ensures v % (a * b) == v % a + a * (v / a % b)
  {
    MulMono(1, a, b);
    var q, r := v / a / b, v / a % b;
    var low := v % a;
    assert v / a == q * b + r && v == (v / a) * a + low;
    calc {
      v;
      (q * b + r) * a + low;
      { Distribute(q * b, r, a); }
      q * b * a + r * a + low;
      { Assoc(q, b, a); }
      q * (a * b) + (r * a + low);
    }
    MulMono(r, b - 1, a);
    Distribute(b, 1, a);
    MulMono(0, r, a);
    DivMod(q, r * a + low, a * b);
  }

  lemma Assoc(a: int, b: int, c: int)
    ensures a * b * c == a * (b * c) == a * (c * b)
  {
  }

  // ---------------------------------------------------------------- powers

  lemma {:induction false} PowPositive(b: nat, e: nat)
    requires b > 0
    ensures Pow(b, e) > 0
  {
    if e > 0 {
      PowPositive(b, e - 1);
      MulMono(1, b, Pow(b, e - 1));
    }
  }

  lemma {:induction false} PowAdd(b: nat, m: nat, n: nat)
    ensures Pow(b, m + n) == Pow(b, m) * Pow(b, n)
  {
    if m > 0 {
      PowAdd(b, m - 1, n);
      Assoc(b, Pow(b, m - 1), Pow(b, n));
    }
  }

  lemma {:induction false} PowMul(b: nat, m: nat, n: nat)
    ensures Pow(Pow(b, m), n) == Pow(b, n * m)
  {
    if n > 0 {
      PowMul(b, m, n - 1);
      Distribute(n - 1, 1, m);
      PowAdd(b, m, (n - 1) * m);
    }
  }

  lemma {:induction false} PowMono(b: nat, m: nat, n: nat)
    requires b > 0 && m <= n
    ensures Pow(b, m) <= Pow(b, n)
  {
    PowAdd(b, m, n - m);
    PowPositive(b, n - m);
    PowPositive(b, m);
    MulMono(1, Pow(b, n - m), Pow(b, m));
  }

  lemma Pow256(k: nat)
    ensures Pow(256, k) == Pow(2, 8 * k)
  {
    assert Pow(2, 4) == 16;
    PowAdd(2, 4, 4);
    PowMul(2, 8, k);
  }

  // ---------------------------------------------------------------- digit strings

  lemma {:induction false} FromDigitsBound(ds: seq<nat>, base: nat)
    requires base > 0 && Below(ds, base)
    ensures FromDigits(ds, base) < Pow(base, |ds|)
  {
    if ds != [] {
      FromDigitsBound(ds[1..], base);
      var v := FromDigits(ds[1..], base);
      MulMono(v + 1, Pow(base, |ds| - 1), base);
      Distribute(v, 1, base);
    }
  }

  /** Reading back the digits of a value keeps its low part. */
  lemma {:induction false} DigitsValue(v: nat, base: nat, len: nat)
    requires base > 0
    ensures Pow(base, len) > 0
    ensures FromDigits(ToDigits(v, base, len), base) == v % Pow(base, len)
    decreases len
  {
    PowPositive(base, len);
    if len == 0 {
    } else {
      var rest := ToDigits(v / base, base, len - 1);
      assert ToDigits(v, base, len)[1..] == rest;
      PowPositive(base, len - 1);
      DigitsValue(v / base, base, len - 1);
      DivDiv(v, base, Pow(base, len - 1));
    }
  }

  lemma SmallMod(v: nat, m: nat)
    requires v < m
    ensures v % m == v && v / m == 0
  {
    DivMod(0, v, m);
  }

  /** A digit string is recovered from its value. */
  lemma {:induction false} ValueDigits(ds: seq<nat>, base: nat)
    requires base > 0 && Below(ds, base)
    ensures ToDigits(FromDigits(ds, base), base, |ds|) == ds
  {
    if ds != [] {
      ValueDigits(ds[1..], base);
      DivMod(FromDigits(ds[1..], base), ds[0], base);
      assert ds == [ds[0]] + ds[1..];
    }
  }

  /** The i-th digit by shifting and masking. */
  lemma {:induction false} DigitAt(v: nat, base: nat, len: nat, i: nat)
    requires base > 0 && i < len
    ensures Pow(base, i) > 0 && ToDigits(v, base, len)[i] == v / Pow(base, i) % base
    decreases i
  {
    PowPositive(base, i);
    if i == 0 {
    } else {
      PowPositive(base, i - 1);
      DigitAt(v / base, base, len - 1, i - 1);
      DivDiv(v, base, Pow(base, i - 1));
    }
  }

  /** Two values have the same low digits exactly when they agree modulo the power. */
  lemma DigitsAgree(v: nat, w: nat, base: nat, len: nat)
    requires base > 0
    ensures Pow(base, len) > 0
    ensures ToDigits(v, base, len) == ToDigits(w, base, len) <==> v % Pow(base, len) == w % Pow(base, len)
  {
    DigitsValue(v, base, len);
    DigitsValue(w, base, len);
    ValueDigits(ToDigits(v, base, len), base);
    ValueDigits(ToDigits(w, base, len), base);
  }

  lemma UpdateStep(first: nat, base: nat, rest: nat, delta: nat, p: nat)
    ensures first + base * (rest + delta * p) == first + base * rest + delta * (base * p)
  {
    Distribute(rest, delta * p, base);
    Assoc(delta, p, base);
  }

  lemma {:induction false} FromDigitsAppend(ds: seq<nat>, x: nat, base: nat)
    ensures FromDigits(ds + [x], base) == FromDigits(ds, base) + x * Pow(base, |ds|)
  {
    if ds == [] {
      assert [x][1..] == [];
    } else {
      assert (ds + [x])[1..] == ds[1..] + [x];
      FromDigitsAppend(ds[1..], x, base);
      UpdateStep(ds[0], base, FromDigits(ds[1..], base), x, Pow(base, |ds| - 1));
    }
  }

  lemma {:induction false} FromDigitsUpdate(ds: seq<nat>, k: nat, x: nat, base: nat)
    requires k < |ds| && ds[k] <= x
    ensures FromDigits(ds[k := x], base) == FromDigits(ds, base) + (x - ds[k]) * Pow(base, k)
  {
    if k == 0 {
      assert ds[0 := x][1..] == ds[1..];
    } else {
      assert ds[k := x][1..] == ds[1..][k - 1 := x];
      FromDigitsUpdate(ds[1..], k - 1, x, base);
      UpdateStep(ds[0], base, FromDigits(ds[1..], base), x - ds[k], Pow(base, k - 1));
    }
  }

  /** The digit of a string by shifting and masking its value. */
  lemma DigitOfValue(ds: seq<nat>, base: nat, i: nat)
    requires base > 0 && Below(ds, base) && i < |ds|
    ensures Pow(base, i) > 0 && ds[i] == FromDigits(ds, base) / Pow(base, i) % base
  {
    ValueDigits(ds, base);
    DigitAt(FromDigits(ds, base), base, |ds|, i);
  }
}
