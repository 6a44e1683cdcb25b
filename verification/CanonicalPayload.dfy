/** Which payloads decode alike, and what re-packing a decoded payload gives. */
module CanonicalPayload {
  import opened Common
  import opened Radix
  import opened PuzzleSpec
  import opened Packed
  import opened PayloadSpec

  /** The payload with every bit at or above `bits` cleared. */
  function ClearUnused(packed: seq<Byte>, bits: nat): (r: seq<Byte>)
    ensures |r| == |packed|
  {
    PowPositive(2, bits);
    ToDigits(FromDigits(packed, 256) % Pow(2, bits), 256, |packed|)
  }

  /** When `bits` ends in the last byte, only that byte changes: it keeps its
      low bits. */
  lemma ClearUnusedBytes(packed: seq<Byte>, r: nat)
    requires |packed| >= 1 && 1 <= r <= 8
    ensures var last := |packed| - 1;
            Pow(2, r) > 0 && ClearUnused(packed, 8 * last + r) == packed[..last] + [packed[last] % Pow(2, r)]
  {
    var last := |packed| - 1;
    PowPositive(2, r);
    TopByte(packed[last], r);
    assert packed == packed[..last] + [packed[last]];
    ClearedValue(packed[..last], packed[last], r);
    ValueDigits(packed[..last] + [packed[last] % Pow(2, r)], 256);
  }

  lemma ClearedValue(low: seq<Byte>, top: Byte, r: nat)
    ensures Pow(2, r) > 0 && Pow(2, 8 * |low| + r) > 0
    ensures FromDigits(low + [top], 256) % Pow(2, 8 * |low| + r) == FromDigits(low + [top % Pow(2, r)], 256)
  {
    PowPositive(2, r);
    PowPositive(2, 8 * |low| + r);
    FromDigitsAppend(low, top, 256);
    FromDigitsAppend(low, top % Pow(2, r), 256);
    FromDigitsBound(low, 256);
    ModTop(FromDigits(low, 256), top, Pow(256, |low|), Pow(2, r));
    TopPower(|low|, r);
  }

  lemma TopPower(last: nat, r: nat)
    ensures Pow(2, 8 * last + r) == Pow(256, last) * Pow(2, r)
  {
    Pow256(last);
    PowAdd(2, 8 * last, r);
  }

  lemma TopByte(x: Byte, r: nat)
    ensures Pow(2, r) > 0 && x % Pow(2, r) < 256
  {
    PowPositive(2, r);
    ModAtMost(x, Pow(2, r));
  }

  lemma ModAtMost(v: nat, m: nat)
    requires m > 0
    ensures v % m <= v
  {
    MulMono(0, v / m, m);
  }

  /** Reducing low + x * p modulo p * m reduces only the upper part. */
  lemma ModTop(low: nat, x: nat, p: nat, m: nat)
    requires low < p && m > 0
    ensures p * m > 0 && (low + x * p) % (p * m) == low + x % m * p
  {
    DivMod(x, low, p);
    DivDiv(low + x * p, p, m);
  }

  /** Number of payload bits that carry the n values. */
  function UsedBits(n: nat, spec: Spec): nat
    requires Accepted(spec)
  {
    n * BitsPerValue(spec).value
  }

  lemma {:induction false} EncodeDecoded(raws: seq<nat>, spec: Spec)
    requires Accepted(spec) && NoDuplicates(spec) && Below(raws, 0x1_0000_0000) && DecodeAll(raws, spec).Ok?
    ensures EncodeAll(DecodeAll(raws, spec).value, spec) == Ok(raws)
  {
    if raws != [] {
      var k := |raws| - 1;
      EncodeDecoded(raws[..k], spec);
      DecodeThenEncode(spec, raws[k]);
      var values := DecodeAll(raws, spec).value;
      assert values[..k] == DecodeAll(raws[..k], spec).value;
      assert raws == raws[..k] + [raws[k]];
    }
  }

  /** Re-spelling the fields of a payload clears what lies above them. */
  lemma RespellOfFields(packed: seq<Byte>, n: nat, b: nat)
    requires |packed| == ByteLen(n, b)
    ensures Respell(Fields(packed, n, b), b) == ClearUnused(packed, n * b)
  {
    PowPositive(2, b);
    DigitsValue(FromDigits(packed, 256), Pow(2, b), n);
    PowMul(2, b, n);
  }

  lemma WordsPrefix(packed: seq<Byte>, n: nat, k: nat)
    requires |packed| == 4 * n && k <= n
    ensures Words(packed[..4 * k], k) == Words(packed, n)[..k]
  {
    forall i | 0 <= i < k ensures Words(packed[..4 * k], k)[i] == Words(packed, n)[i] {
      assert packed[..4 * k][4 * i..4 * i + 4] == packed[4 * i..4 * i + 4];
    }
  }

  ghost predicate Reinterpreted(raws: seq<nat>, values: seq<I32>) {
    Below(raws, 0x1_0000_0000) && |values| == |raws| && forall i :: 0 <= i < |raws| ==> values[i] == AsI32(raws[i])
  }

  lemma {:induction false} BigEndianOfWords(packed: seq<Byte>, n: nat, values: seq<I32>)
    requires |packed| == 4 * n && Reinterpreted(Words(packed, n), values)
    ensures BigEndianAll(values) == packed
    decreases n
  {
    if n > 0 {
      var k := n - 1;
      WordsPrefix(packed, n, k);
      BigEndianOfWords(packed[..4 * k], k, values[..k]);
      var word := packed[4 * k..4 * k + 4];
      assert values[k] == AsI32(Words(packed, n)[k]);
      WordInverse(word, values[k]);
      assert packed == packed[..4 * k] + word;
    }
  }

  lemma WordInverse(word: seq<Byte>, value: I32)
    requires |word| == 4 && value == AsI32(FromBigEndian(word))
    ensures BigEndian(AsU32(value)) == word
  {
    ReinterpretInverse(value, FromBigEndian(word));
    FromBigEndianThenBack(word);
  }

  lemma {:induction false} DecodedWords(raws: seq<nat>, spec: Spec)
    requires spec.ContinuousRange? && Below(raws, 0x1_0000_0000) && DecodeAll(raws, spec).Ok?
    ensures Reinterpreted(raws, DecodeAll(raws, spec).value)
  {
    if raws != [] {
      DecodedWords(raws[..|raws| - 1], spec);
    }
  }

  /** A payload without unused bits is already clear. */
  lemma NothingToClear(packed: seq<Byte>)
    ensures ClearUnused(packed, 8 * |packed|) == packed
  {
    FromDigitsBound(packed, 256);
    Pow256(|packed|);
    SmallMod(FromDigits(packed, 256), Pow(256, |packed|));
    ValueDigits(packed, 256);
  }

  /** Re-packing a decoded payload reproduces it with the unused bits cleared. */
  lemma CanonicalReencoding(packed: seq<Byte>, n: nat, spec: Spec, values: seq<I32>)
    requires Accepted(spec) && NoDuplicates(spec)
    ensures Unpacks(packed, n, spec, values) ==>
              PackSpec(values, spec) == Returned(Ok(ClearUnused(packed, UsedBits(n, spec))))
  {
    if Unpacks(packed, n, spec, values) {
      UnpacksFrom(packed, n, spec, values);
      if spec.ContinuousRange? {
        ReencodeContinuous(packed, n, spec);
      } else {
        var b := BitsPerValue(spec).value;
        EncodeDecoded(Fields(packed, n, b), spec);
        RespellOfFields(packed, n, b);
      }
    }
  }

  lemma ReencodeContinuous(packed: seq<Byte>, n: nat, spec: Spec)
    requires spec.ContinuousRange? && |packed| == 4 * n && DecodeAll(Words(packed, n), spec).Ok?
    ensures BigEndianAll(DecodeAll(Words(packed, n), spec).value) == ClearUnused(packed, n * 32)
  {
    DecodedWords(Words(packed, n), spec);
    BigEndianOfWords(packed, n, DecodeAll(Words(packed, n), spec).value);
    NothingToClear(packed);
  }

  /** A repeated `Set` entry breaks it: the payload naming the later copy is
      re-packed to name the first one. */
  lemma DuplicateBreaksReencoding(spec: Spec, i: nat, j: nat) returns (packed: seq<Byte>, values: seq<I32>)
    requires Accepted(spec) && spec.Set? && i < j < |spec.values| && spec.values[i] == spec.values[j]
    ensures Unpacks(packed, 1, spec, values)
    ensures PackSpec(values, spec) != Returned(Ok(ClearUnused(packed, UsedBits(1, spec))))
  {
    AcceptedIff(spec);
    WidthRange(spec);
    var b := BitsPerValue(spec).value;
    var value := spec.values[j];
    packed, values := [j], [value];
    BitsForCountCeilLog2(|spec.values|);
    FieldsFit(spec);
    UnpackExact(packed, 1, spec);
    OneField(j, b);
    var k := FirstIndex(spec.values, value);
    assert k <= i;
    OneField(k, b);
    CodeOne(spec, j, value, k);
  }

  lemma CodeOne(spec: Spec, raw: U32, value: I32, code: nat)
    requires Accepted(spec) && DecodeValue(spec, raw) == Ok(value) && EncodeValue(spec, value) == Ok(code)
    ensures DecodeAll([raw], spec) == Ok([value]) && EncodeAll([value], spec) == Ok([code])
  {
    var raws: seq<nat>, values: seq<I32> := [raw], [value];
    assert raws[..0] == [] && values[..0] == [];
    assert [] + values == values;
    var codes: seq<nat> := [code];
    assert [] + codes == codes;
    assert DecodeAll(raws, spec) == Ok([] + values) && EncodeAll(values, spec) == Ok([] + codes);
  }

  lemma OneDigit(j: nat, base: nat)
    requires j < base
    ensures ToDigits(j, base, 1) == [j] && FromDigits([j], base) == j
  {
    SmallMod(j, base);
    assert [j][1..] == [];
    assert ToDigits(j / base, base, 0) == [];
  }

  lemma OneField(j: nat, b: nat)
    requires 1 <= b <= 8 && j < 256 && j < Pow(2, b)
    ensures Fields([j], 1, b) == [j] && ClearUnused([j], b) == [j] && Respell([j], b) == [j]
  {
    OneDigit(j, Pow(2, b));
    OneDigit(j, 256);
    SmallMod(j, Pow(2, b));
    assert ByteLen(1, b) == 1;
  }

  /** Canonical re-encoding holds for every accepted payload exactly when the
      spec has no repeated entries. */
  lemma ReencodingIff(spec: Spec)
    requires Accepted(spec)
    ensures NoDuplicates(spec) <==>
              forall packed: seq<Byte>, n: nat, values: seq<I32> :: Unpacks(packed, n, spec, values) ==>
                PackSpec(values, spec) == Returned(Ok(ClearUnused(packed, UsedBits(n, spec))))
  {
    if NoDuplicates(spec) {
      forall packed: seq<Byte>, n: nat, values: seq<I32> | Unpacks(packed, n, spec, values)
        ensures PackSpec(values, spec) == Returned(Ok(ClearUnused(packed, UsedBits(n, spec))))
      {
        CanonicalReencoding(packed, n, spec, values);
      }
    } else {
      var i, j :| 0 <= i < j < |spec.values| && spec.values[i] == spec.values[j];
      var packed, values := DuplicateBreaksReencoding(spec, i, j);
    }
  }

  /** Two accepted payloads decode to the same values exactly when they agree on
      the bits that carry values. */
  lemma DecodeEqualIff(p: seq<Byte>, p': seq<Byte>, n: nat, spec: Spec, values: seq<I32>, values': seq<I32>)
    requires Accepted(spec) && NoDuplicates(spec)
    ensures Unpacks(p, n, spec, values) && Unpacks(p', n, spec, values') ==>
              (values == values' <==> ClearUnused(p, UsedBits(n, spec)) == ClearUnused(p', UsedBits(n, spec)))
  {
    if Unpacks(p, n, spec, values) && Unpacks(p', n, spec, values') {
      CanonicalReencoding(p, n, spec, values);
      CanonicalReencoding(p', n, spec, values');
      SameBitsDecodeAlike(p, p', n, spec, values, values');
    }
  }

  lemma SameBitsDecodeAlike(p: seq<Byte>, p': seq<Byte>, n: nat, spec: Spec, values: seq<I32>, values': seq<I32>)
    requires Accepted(spec)
    ensures (&& Unpacks(p, n, spec, values) && Unpacks(p', n, spec, values')
             && ClearUnused(p, UsedBits(n, spec)) == ClearUnused(p', UsedBits(n, spec))) ==> values == values'
  {
    UnpacksFrom(p, n, spec, values);
    UnpacksFrom(p', n, spec, values');
    if Unpacks(p, n, spec, values) && Unpacks(p', n, spec, values')
       && ClearUnused(p, UsedBits(n, spec)) == ClearUnused(p', UsedBits(n, spec)) {
      if spec.ContinuousRange? {
        assert UsedBits(n, spec) == 8 * |p| == 8 * |p'|;
        NothingToClear(p);
        NothingToClear(p');
      } else {
        SameFields(p, p', n, BitsPerValue(spec).value);
      }
    }
  }

  lemma SameFields(p: seq<Byte>, p': seq<Byte>, n: nat, b: nat)
    ensures ClearUnused(p, n * b) == ClearUnused(p', n * b) ==> Fields(p, n, b) == Fields(p', n, b)
  {
    ClearValue(p, n * b);
    ClearValue(p', n * b);
    PowPositive(2, b);
    PowMul(2, b, n);
    DigitsAgree(FromDigits(p, 256), FromDigits(p', 256), Pow(2, b), n);
  }

  lemma ClearValue(p: seq<Byte>, bits: nat)
    ensures Pow(2, bits) > 0 && FromDigits(ClearUnused(p, bits), 256) == FromDigits(p, 256) % Pow(2, bits)
  {
    PowPositive(2, bits);
    FromDigitsBound(p, 256);
    var v := FromDigits(p, 256) % Pow(2, bits);
    ModAtMost(FromDigits(p, 256), Pow(2, bits));
    DigitsValue(v, 256, |p|);
    SmallMod(v, Pow(256, |p|));
  }
}
