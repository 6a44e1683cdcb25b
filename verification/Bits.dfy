/** Bitwise operators on naturals, digit by digit, and what they do to values
    with disjoint bits or under a low mask. */
module Bits {
  import opened Radix

  function BitOr(a: nat, b: nat): nat
    decreases a + b
  {
    if a == 0 then b
    else if b == 0 then a
    else (if a % 2 == 1 || b % 2 == 1 then 1 else 0) + 2 * BitOr(a / 2, b / 2)
  }

  function BitAnd(a: nat, b: nat): nat
    decreases a + b
  {
    if a == 0 || b == 0 then 0
    else (if a % 2 == 1 && b % 2 == 1 then 1 else 0) + 2 * BitAnd(a / 2, b / 2)
  }

  function ShiftLeft(a: nat, k: nat): nat {
    a * Pow(2, k)
  }

  function ShiftRight(a: nat, k: nat): nat {
    PowPositive(2, k);
    a / Pow(2, k)
  }

  /** Number of significant bits: 64 minus the leading zeros of a u64. */
  function BitLength(n: nat): nat {
    if n == 0 then 0 else 1 + BitLength(n / 2)
  }

  lemma {:induction false} BitLengthBounds(n: nat)
    ensures n < Pow(2, BitLength(n))
    ensures n > 0 ==> BitLength(n) > 0 && Pow(2, BitLength(n) - 1) <= n
  {
    if n > 0 {
      BitLengthBounds(n / 2);
    }
  }

  lemma OrEven(a: nat, h: nat)
    ensures BitOr(a, 2 * h) == a % 2 + 2 * BitOr(a / 2, h)
  {
  }

  /** Bit i of a number. */
  predicate Bit(x: nat, i: nat) {
    if i == 0 then x % 2 == 1 else Bit(x / 2, i - 1)
  }

  /** The operators work bit by bit. */
  lemma {:induction false} OrBit(a: nat, b: nat, i: nat)
    ensures Bit(BitOr(a, b), i) <==> Bit(a, i) || Bit(b, i)
    decreases i
  {
    if a == 0 || b == 0 {
      ZeroBit(i);
    } else {
      var low, rest := if a % 2 == 1 || b % 2 == 1 then 1 else 0, BitOr(a / 2, b / 2);
      DivMod(rest, low, 2);
      if i > 0 {
        OrBit(a / 2, b / 2, i - 1);
      }
    }
  }

  lemma {:induction false} AndBit(a: nat, b: nat, i: nat)
    ensures Bit(BitAnd(a, b), i) <==> Bit(a, i) && Bit(b, i)
    decreases i
  {
    if a == 0 || b == 0 {
      ZeroBit(i);
    } else {
      var low, rest := if a % 2 == 1 && b % 2 == 1 then 1 else 0, BitAnd(a / 2, b / 2);
      DivMod(rest, low, 2);
      if i > 0 {
        AndBit(a / 2, b / 2, i - 1);
      }
    }
  }

  lemma {:induction false} ZeroBit(i: nat)
    ensures !Bit(0, i)
    decreases i
  {
    if i > 0 {
      ZeroBit(i - 1);
    }
  }

  /** An OR of values without common bits is a sum. */
  lemma {:induction false} OrDisjoint(low: nat, high: nat, k: nat)
    requires low < Pow(2, k)
    ensures BitOr(low, high * Pow(2, k)) == low + high * Pow(2, k)
  {
    if k == 0 {
      assert low == 0;
    } else {
      var h := high * Pow(2, k - 1);
      assert high * Pow(2, k) == 2 * h by { Assoc(high, 2, Pow(2, k - 1)); }
      OrEven(low, h);
      OrDisjoint(low / 2, high, k - 1);
    }
  }

  /** Masking with k ones takes the remainder modulo 2^k. */
  lemma {:induction false} MaskIsMod(a: nat, k: nat)
    ensures Pow(2, k) > 0 && BitAnd(a, Pow(2, k) - 1) == a % Pow(2, k)
  {
    PowPositive(2, k);
    if k > 0 {
      PowPositive(2, k - 1);
      MaskIsMod(a / 2, k - 1);
      DivDiv(a, 2, Pow(2, k - 1));
      var m := Pow(2, k) - 1;
      assert m == 2 * (Pow(2, k - 1) - 1) + 1;
      assert m / 2 == Pow(2, k - 1) - 1 && m % 2 == 1;
    }
  }
}
