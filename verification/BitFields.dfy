/** Single fields in a byte buffer: what one OR writes and one shift-and-mask reads,
    in terms of the number that the buffer spells. */
module BitFields {
  import opened Common
  import opened Radix
  import opened Bits
  import opened Packed

  // ---------------------------------------------------------------- one OR into the buffer

  lemma DivLess(v: nat, a: nat, b: nat)
    requires a > 0 && v < a * b
    ensures v / a < b
  {
    if v / a >= b {
      MulMono(b, v / a, a);
    }
  }

  /** The low byte of a shifted value is a multiple of the shift. */
  lemma LowByte(raw: nat, a: nat, c: nat)
    requires a > 0 && c > 0 && a * c == 256
    ensures raw * a % 256 == raw % c * a
    ensures raw % c * a + a <= 256
  {
    DivMod(raw, 0, a);
    DivDiv(raw * a, a, c);
    Distribute(raw % c, 1, a);
    MulMono(raw % c + 1, c, a);
  }

  /** Splitting a bit offset into bytes and bits. */
  lemma OffsetPower(q: nat, t: nat)
    requires t < 8
    ensures Pow(256, q) > 0 && 1 <= Pow(2, t) <= 128
    ensures Pow(2, 8 * q + t) == Pow(256, q) * Pow(2, t)
  {
    Pow256(q);
    PowAdd(2, 8 * q, t);
    PowPositive(256, q);
    PowPositive(2, t);
    PowMono(2, t, 7);
    Pow128();
  }

  lemma Pow128()
    ensures Pow(2, 7) == 128 && Pow(2, 8) == 256 && Pow(2, 16) == 65536
  {
    assert Pow(2, 4) == 16;
    PowAdd(2, 4, 3);
    PowAdd(2, 4, 4);
    PowAdd(2, 8, 8);
  }

  /** Before the write, everything at or above the bit offset is zero. */
  lemma FreeBits(out: seq<Byte>, q: nat, t: nat)
    requires t < 8 && q < |out| && FromDigits(out, 256) < Pow(2, 8 * q + t)
    ensures out[q] < Pow(2, t)
    ensures q + 1 < |out| ==> out[q + 1] == 0
  {
    OffsetPower(q, t);
    FreeDigits(FromDigits(out, 256), Pow(256, q), Pow(2, t));
    DigitOfValue(out, 256, q);
    if q + 1 < |out| {
      ZeroAbove(out, q + 1);
    }
  }

  /** A digit the value does not reach is zero. */
  lemma ZeroAbove(out: seq<Byte>, i: nat)
    requires 1 <= i < |out| && Pow(256, i - 1) > 0 && FromDigits(out, 256) / (256 * Pow(256, i - 1)) == 0
    ensures out[i] == 0
  {
    DigitOfValue(out, 256, i);
  }

  lemma FreeDigits(v: nat, p: nat, m: nat)
    requires p > 0 && v < p * m && m <= 256
    ensures v / p % 256 < m && v / (256 * p) == 0
  {
    DivLess(v, p, m);
    MulMono(m, 256, p);
    SmallMod(v, 256 * p);
  }

  const BYTE_MASK: nat := 0xFF

  /** The two bytes written by one iteration of `pack_solution`. */
  function LowWrite(cur: nat, raw: nat, t: nat): nat {
    BitOr(cur, BitAnd(ShiftLeft(raw, t), BYTE_MASK))
  }

  function HighWrite(cur: nat, raw: nat, t: nat): nat {
    BitOr(cur, BitAnd(ShiftRight(ShiftLeft(raw, t), 8), BYTE_MASK))
  }

  lemma ByteMask(x: nat)
    ensures BitAnd(x, BYTE_MASK) == x % 256
  {
    Pow128();
    MaskIsMod(x, 8);
  }

  /** On free bits the OR into the first byte is a sum. */
  lemma LowWriteIsSum(cur: nat, raw: nat, t: nat)
    requires t < 8 && cur < Pow(2, t)
    ensures LowWrite(cur, raw, t) == cur + raw * Pow(2, t) % 256 < 256
  {
    var a, c := Pow(2, t), Pow(2, 8 - t);
    PowPositive(2, t);
    PowPositive(2, 8 - t);
    Pow128();
    PowAdd(2, t, 8 - t);
    ByteMask(raw * a);
    LowByte(raw, a, c);
    OrDisjoint(cur, raw % c, t);
  }

  /** The spill into the second byte is the rest of the shifted value; there is
      none when the field ends inside the first byte. */
  lemma HighWriteIsRest(raw: nat, b: nat, t: nat)
    requires b <= 8 && t < 8 && raw < Pow(2, b)
    ensures HighWrite(0, raw, t) == raw * Pow(2, t) / 256 < 256
    ensures b + t <= 8 ==> raw * Pow(2, t) / 256 == 0
  {
    PowPositive(2, t);
    Pow128();
    PowAdd(2, b, t);
    ShiftBound(raw, Pow(2, b), Pow(2, t));
    PowMono(2, b + t, 16);
    if b + t <= 8 {
      PowMono(2, b + t, 8);
    }
    HighByte(ShiftLeft(raw, t));
  }

  lemma ShiftBound(raw: nat, bound: nat, a: nat)
    requires raw < bound
    ensures raw * a < bound * a || a == 0
  {
    MulMono(raw + 1, bound, a);
    Distribute(raw, 1, a);
  }

  lemma HighByte(x: nat)
    requires x < 65536
    ensures BitOr(0, BitAnd(ShiftRight(x, 8), BYTE_MASK)) == x / 256 < 256
  {
    ShiftByte(x);
    ByteMask(x / 256);
    OrZero(x / 256 % 256);
    SmallMod(x / 256, 256);
  }

  lemma ShiftByte(x: nat)
    ensures ShiftRight(x, 8) == x / 256
  {
    Pow256(1);
  }

  lemma OrZero(x: nat)
    ensures BitOr(0, x) == x
  {
  }

  function Written(out: seq<nat>, q: nat, x: nat, y: nat): seq<nat>
    requires q < |out|
  {
    if q + 1 < |out| then out[q := x][q + 1 := y] else out[q := x]
  }

  /** Adding lo at byte q and hi at byte q + 1 adds (lo + 256 hi) * 256^q. */
  lemma WrittenValue(out: seq<nat>, q: nat, lo: nat, hi: nat)
    requires q < |out| && (q + 1 < |out| ==> out[q + 1] == 0) && (q + 1 == |out| ==> hi == 0)
    ensures FromDigits(Written(out, q, out[q] + lo, hi), 256) == FromDigits(out, 256) + (lo + 256 * hi) * Pow(256, q)
  {
    FromDigitsUpdate(out, q, out[q] + lo, 256);
    if q + 1 < |out| {
      FromDigitsUpdate(out[q := out[q] + lo], q + 1, hi, 256);
    }
    Distribute(lo, 256 * hi, Pow(256, q));
    Assoc(hi, 256, Pow(256, q));
  }

  /** One iteration: the buffer gains raw * 2^offset and stays a byte string. */
  lemma OrStep(out: seq<Byte>, offset: nat, b: nat, raw: nat)
    requires 1 <= b <= 8 && raw < Pow(2, b) && FromDigits(out, 256) < Pow(2, offset) && offset + b <= 8 * |out|
    ensures var q, t := offset / 8, offset % 8;
            && q < |out|
            && LowWrite(out[q], raw, t) < 256
            && (q + 1 < |out| ==> HighWrite(out[q + 1], raw, t) < 256)
            && FromDigits(Written(out, q, LowWrite(out[q], raw, t),
                                  if q + 1 < |out| then HighWrite(out[q + 1], raw, t) else 0), 256)
               == FromDigits(out, 256) + raw * Pow(2, offset)
  {
    OrStepAt(out, offset / 8, offset % 8, b, raw);
  }

  lemma OrStepAt(out: seq<Byte>, q: nat, t: nat, b: nat, raw: nat)
    requires t < 8 && 1 <= b <= 8 && raw < Pow(2, b) && FromDigits(out, 256) < Pow(2, 8 * q + t)
    requires 8 * q + t + b <= 8 * |out|
    ensures LowWrite(out[q], raw, t) < 256 && (q + 1 < |out| ==> HighWrite(out[q + 1], raw, t) < 256)
    ensures FromDigits(Written(out, q, LowWrite(out[q], raw, t),
                               if q + 1 < |out| then HighWrite(out[q + 1], raw, t) else 0), 256)
            == FromDigits(out, 256) + raw * Pow(2, 8 * q + t)
  {
    FreeBits(out, q, t);
    var lo, hi := WriteParts(out[q], raw, b, t);
    WrittenValue(out, q, lo, hi);
    ShiftedValue(raw, q, t);
  }

  /** The two parts of a shifted value as they are written. */
  lemma WriteParts(cur: nat, raw: nat, b: nat, t: nat) returns (lo: nat, hi: nat)
    requires t < 8 && b <= 8 && raw < Pow(2, b) && cur < Pow(2, t)
    ensures LowWrite(cur, raw, t) == cur + lo < 256 && HighWrite(0, raw, t) == hi < 256
    ensures lo + 256 * hi == ShiftLeft(raw, t) && (b + t <= 8 ==> hi == 0)
  {
    LowWriteIsSum(cur, raw, t);
    HighWriteIsRest(raw, b, t);
    lo, hi := SplitByte(raw * Pow(2, t));
  }

  lemma SplitByte(x: nat) returns (lo: nat, hi: nat)
    ensures lo == x % 256 && hi == x / 256 && lo + 256 * hi == x
  {
    lo, hi := x % 256, x / 256;
  }

  lemma ShiftedValue(raw: nat, q: nat, t: nat)
    requires t < 8
    ensures ShiftLeft(raw, t) * Pow(256, q) == raw * Pow(2, 8 * q + t)
  {
    OffsetPower(q, t);
    Assoc(raw, Pow(2, t), Pow(256, q));
  }

  // ---------------------------------------------------------------- one read

  lemma ModOfProduct(v: nat, m: nat, k: nat)
    requires m > 0 && k > 0
    ensures m * k > 0 && v % (m * k) % m == v % m && v % (m * k) / m == v / m % k
  {
    DivDiv(v, m, k);
    DivMod(v / m % k, v % m, m);
  }

  /** The byte at q and the one after it, zero past the end. */
  function Pair(packed: seq<Byte>, q: nat): nat
    requires q < |packed|
  {
    var b0: nat, b1: nat := packed[q], NextByte(packed, q);
    b0 + 256 * b1
  }

  function NextByte(packed: seq<Byte>, q: nat): Byte {
    if q + 1 < |packed| then packed[q + 1] else 0
  }

  /** The byte after q, also past the end, is the next digit of the value. */
  lemma NextDigit(packed: seq<Byte>, q: nat)
    requires q < |packed|
    ensures Pow(256, q) > 0
    ensures NextByte(packed, q) == FromDigits(packed, 256) / (256 * Pow(256, q)) % 256
  {
    PowPositive(256, q);
    if q + 1 < |packed| {
      DigitOfValue(packed, 256, q + 1);
    } else {
      FromDigitsBound(packed, 256);
      SmallMod(FromDigits(packed, 256), 256 * Pow(256, q));
    }
  }

  lemma LowSixteen(v: nat, p: nat)
    requires p > 0
    ensures v / p % 65536 == v / p % 256 + 256 * (v / (256 * p) % 256)
  {
    DivDiv(v / p, 256, 256);
    DivDiv(v, p, 256);
  }

  /** The two bytes at q are the low 16 bits of the value shifted by q bytes. */
  lemma TwoBytes(packed: seq<Byte>, q: nat)
    requires q < |packed|
    ensures Pow(256, q) > 0
    ensures Pair(packed, q) == FromDigits(packed, 256) / Pow(256, q) % 65536
  {
    NextDigit(packed, q);
    DigitOfValue(packed, 256, q);
    LowSixteen(FromDigits(packed, 256), Pow(256, q));
  }

  /** Shifting and masking a remainder modulo a * c with m | c. */
  lemma Window(x: nat, size: nat, a: nat, c: nat, m: nat, k: nat)
    requires a > 0 && c > 0 && m > 0 && k > 0 && c == m * k && size == a * c
    ensures size > 0 && x % size / a % m == x / a % m
  {
    ModOfProduct(x, a, c);
    ModOfProduct(x / a, m, k);
  }

  lemma SixteenBits(t: nat, b: nat)
    requires t + b <= 16
    ensures Pow(2, t) > 0 && Pow(2, b) > 0 && Pow(2, 16 - t) > 0 && Pow(2, 16 - t - b) > 0
    ensures Pow(2, t) * Pow(2, 16 - t) == 65536
    ensures Pow(2, 16 - t) == Pow(2, b) * Pow(2, 16 - t - b)
  {
    PowPositive(2, t);
    PowPositive(2, b);
    PowPositive(2, 16 - t);
    PowPositive(2, 16 - t - b);
    PowAdd(2, t, 16 - t);
    PowAdd(2, b, 16 - t - b);
    Pow128();
  }

  /** Shifting and masking 16 bits is shifting and masking the whole value. */
  lemma Window16(x: nat, t: nat, b: nat)
    requires t + b <= 16
    ensures Pow(2, t) > 0 && Pow(2, b) > 0
    ensures x % 65536 / Pow(2, t) % Pow(2, b) == x / Pow(2, t) % Pow(2, b)
  {
    SixteenBits(t, b);
    Window(x, 65536, Pow(2, t), Pow(2, 16 - t), Pow(2, b), Pow(2, 16 - t - b));
  }

  /** `((b0 | (b1 << 8)) >> intra) & mask`. */
  function ReadBits(b0: nat, b1: nat, t: nat, b: nat): nat {
    PowPositive(2, b);
    BitAnd(ShiftRight(BitOr(b0, ShiftLeft(b1, 8)), t), Pow(2, b) - 1)
  }

  lemma ReadBitsIsWindow(b0: nat, b1: nat, t: nat, b: nat)
    requires b0 < 256
    ensures Pow(2, t) > 0 && Pow(2, b) > 0
    ensures ReadBits(b0, b1, t, b) == (b0 + 256 * b1) / Pow(2, t) % Pow(2, b)
  {
    PowPositive(2, t);
    PowPositive(2, b);
    JoinBytes(b0, b1);
    MaskIsMod(ShiftRight(b0 + 256 * b1, t), b);
  }

  lemma JoinBytes(b0: nat, b1: nat)
    requires b0 < 256
    ensures BitOr(b0, ShiftLeft(b1, 8)) == b0 + 256 * b1
  {
    Pow128();
    OrDisjoint(b0, b1, 8);
  }

  /** One iteration of `decode_indexed` reads exactly the i-th field. */
  lemma ReadStep(packed: seq<Byte>, n: nat, b: nat, i: nat, offset: nat)
    requires 1 <= b <= 8 && i < n && |packed| == ByteLen(n, b) && offset == i * b
    ensures var q, t := offset / 8, offset % 8;
            q < |packed| && ReadBits(packed[q], NextByte(packed, q), t, b) == Fields(packed, n, b)[i]
  {
    FieldInside(n, b, i);
    ReadAt(packed, n, b, i, offset / 8, offset % 8);
  }

  lemma ReadAt(packed: seq<Byte>, n: nat, b: nat, i: nat, q: nat, t: nat)
    requires b <= 8 && i < n && q < |packed| && i * b == 8 * q + t && t < 8
    ensures ReadBits(packed[q], NextByte(packed, q), t, b) == Fields(packed, n, b)[i]
  {
    ReadBitsIsWindow(packed[q], NextByte(packed, q), t, b);
    PairWindow(packed, q, t, b);
    FieldValue(FromDigits(packed, 256), n, b, i, q, t);
  }

  lemma PairWindow(packed: seq<Byte>, q: nat, t: nat, b: nat)
    requires q < |packed| && t + b <= 16
    ensures Pow(2, t) > 0 && Pow(2, b) > 0 && Pow(256, q) > 0
    ensures Pair(packed, q) / Pow(2, t) % Pow(2, b) == FromDigits(packed, 256) / Pow(256, q) / Pow(2, t) % Pow(2, b)
  {
    TwoBytes(packed, q);
    Window16(FromDigits(packed, 256) / Pow(256, q), t, b);
  }

  /** The i-th base-2^b digit, found by dropping q bytes and then t bits. */
  lemma FieldValue(v: nat, n: nat, b: nat, i: nat, q: nat, t: nat)
    requires i < n && i * b == 8 * q + t && t < 8
    ensures Pow(2, b) > 0 && Pow(256, q) > 0 && Pow(2, t) > 0
    ensures ToDigits(v, Pow(2, b), n)[i] == v / Pow(256, q) / Pow(2, t) % Pow(2, b)
  {
    PowPositive(2, b);
    DigitAt(v, Pow(2, b), n, i);
    PowMul(2, b, i);
    OffsetPower(q, t);
    DivDiv(v, Pow(256, q), Pow(2, t));
  }

  /** Field i ends inside the buffer. */
  lemma FieldInside(n: nat, b: nat, i: nat)
    requires i < n && b >= 1
    ensures i * b + b <= 8 * ByteLen(n, b) && i * b / 8 < ByteLen(n, b)
  {
    Distribute(i, 1, b);
    MulMono(i + 1, n, b);
  }
}
