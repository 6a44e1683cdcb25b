/** Which code stands for which value: the encoding pinned down code by code, not
    only up to its inverse. */
module Codes {
  import opened Common
  import opened Radix
  import opened PuzzleSpec
  import opened Packed

  // ---------------------------------------------------------------- machine words

  /** The limits are the powers of two they are named for. */
  lemma LimitsArePowers()
    ensures U32_MAX + 1 == Pow(2, 32) && U64_MAX + 1 == Pow(2, 64) && U128_MAX + 1 == Pow(2, 128)
    ensures I32_MAX + 1 == -I32_MIN == Pow(2, 31) && I64_MAX + 1 == -I64_MIN == Pow(2, 63)
  {
    Pow32();
    PowAdd(2, 32, 32);
    PowAdd(2, 64, 64);
    assert Pow(2, 32) == 2 * Pow(2, 31) && Pow(2, 64) == 2 * Pow(2, 63);
  }

  /** Reinterpreting keeps the value modulo 2^32. */
  lemma ReinterpretModulo(value: I32, raw: U32)
    ensures (AsU32(value) - value) % 0x1_0000_0000 == 0 && (AsI32(raw) - raw) % 0x1_0000_0000 == 0
  {
  }

  /** The first byte of a word is the most significant one: the reversed bytes are
      its little-endian digits. */
  lemma BigEndianDigits(raw: U32)
    ensures |BigEndian(raw)| == 4
    ensures var b := BigEndian(raw); FromDigits([b[3], b[2], b[1], b[0]], 256) == raw
  {
    var b: seq<nat> := BigEndian(raw);
    FourDigits(b[3], b[2], b[1], b[0]);
    BigEndianThenBack(raw);
  }

  lemma FromBigEndianDigits(bytes: seq<Byte>)
    requires |bytes| == 4
    ensures FromBigEndian(bytes) == FromDigits([bytes[3], bytes[2], bytes[1], bytes[0]], 256)
  {
    FourDigits(bytes[3], bytes[2], bytes[1], bytes[0]);
  }

  lemma FourDigits(a: nat, b: nat, c: nat, d: nat)
    ensures FromDigits([a, b, c, d], 256) == a + 256 * (b + 256 * (c + 256 * d))
  {
    FirstDigit(a, [b, c, d]);
    FirstDigit(b, [c, d]);
    FirstDigit(c, [d]);
    FirstDigit(d, []);
    assert [a, b, c, d] == [a] + [b, c, d] && [b, c, d] == [b] + [c, d] && [c, d] == [c] + [d] && [d] == [d] + [];
  }

  lemma FirstDigit(x: nat, rest: seq<nat>)
    ensures FromDigits([x] + rest, 256) == x + 256 * FromDigits(rest, 256)
  {
    assert ([x] + rest)[1..] == rest;
  }

  // ---------------------------------------------------------------- widths

  /** Values a spec stands for, repeated entries counted. */
  function Count(spec: Spec): int {
    match spec
    case Set(values) => |values|
    case IntegerRange(lo, hi) => hi - lo + 1
    case ContinuousRange(min, max) => max - min + 1
  }

  /** An indexed width is the least that holds all codes; continuous values take
      32 bits. */
  lemma WidthIsLeast(spec: Spec)
    requires Accepted(spec)
    ensures var b := BitsPerValue(spec).value;
            if spec.ContinuousRange? then b == 32
            else 1 <= b <= 8 && Count(spec) <= Pow(2, b) && (b > 1 ==> Pow(2, b - 1) < Count(spec))
  {
    WidthRange(spec);
    if !spec.ContinuousRange? {
      AcceptedIff(spec);
      BitsForCountCeilLog2(Count(spec));
    }
  }

  /** Why a spec is refused: nothing to choose from, too many codes (with the width
      they would need), or scaled bounds outside 32 bits, in that order. */
  lemma RefusalReason(spec: Spec)
    requires !Accepted(spec)
    ensures var e := BitsPerValue(spec).error;
            if Count(spec) <= 0 then e == EmptyAllowedValues
            else if Count(spec) > 256
            then e.EncodingTooWide? && e.bits > 8 && Pow(2, e.bits - 1) < Count(spec) <= Pow(2, e.bits)
            else && spec.IntegerRange? && e == ArithmeticOverflow
                 && !(I32_MIN <= spec.lo * 1000 && spec.hi * 1000 <= I32_MAX)
  {
    if !spec.ContinuousRange? && Count(spec) > 0 {
      WidthFitsIff(Count(spec));
      BitsForCountCeilLog2(Count(spec));
    }
  }

  // ---------------------------------------------------------------- indexed codes

  /** Raw k stands for the k-th entry of a set, and a value is coded by the first
      entry that holds it. */
  lemma SetCode(spec: Spec, raw: U32, value: I32)
    requires Accepted(spec) && spec.Set?
    ensures DecodeValue(spec, raw)
            == if raw < |spec.values| then Ok(spec.values[raw]) else Err(InvalidEncodedValue(raw))
    ensures EncodeValue(spec, value) == Ok(raw) <==>
              raw < |spec.values| && spec.values[raw] == value && value !in spec.values[..raw]
  {
    AcceptedIff(spec);
    if raw < |spec.values| && spec.values[raw] == value && value !in spec.values[..raw] {
      FirstIsUnique(spec.values, value, raw, FirstIndex(spec.values, value));
    }
  }

  lemma FirstIsUnique(values: seq<I32>, value: I32, i: nat, k: nat)
    requires i < |values| && values[i] == value && value !in values[..i]
    requires k < |values| && values[k] == value && value !in values[..k]
    ensures i == k
  {
    assert forall j :: 0 <= j < i ==> values[j] in values[..i];
    assert forall j :: 0 <= j < k ==> values[j] in values[..k];
  }

  lemma MultipleOrNot(v: int, whole: int)
    ensures whole * 1000 <= v < whole * 1000 + 1000 ==> (v % 1000 == 0 <==> v == whole * 1000)
  {
  }

  /** Multiples of 1000 from lo * 1000 up to whole * 1000, the latter excluded. */
  lemma {:induction false} CountMultiples(lo: int, whole: int)
    requires lo <= whole
    ensures |set v | lo * 1000 <= v < whole * 1000 && v % 1000 == 0| == whole - lo
    decreases whole - lo
  {
    var all := set v | lo * 1000 <= v < whole * 1000 && v % 1000 == 0;
    if lo == whole {
      assert all == {};
    } else {
      CountMultiples(lo, whole - 1);
      var before := set v | lo * 1000 <= v < (whole - 1) * 1000 && v % 1000 == 0;
      var last := (whole - 1) * 1000;
      forall v ensures v in all <==> v in before + {last} {
        MultipleOrNot(v, whole - 1);
      }
      assert all == before + {last};
    }
  }

  /** A value of an integer range is coded by the number of allowed values below
      it. */
  lemma IntegerCode(spec: Spec, value: I32)
    requires Accepted(spec) && spec.IntegerRange? && Allowed(spec, value)
    ensures EncodeValue(spec, value) == Ok(|set v | spec.lo * 1000 <= v < value && Allowed(spec, v)|)
  {
    var whole := value / 1000;
    CountMultiples(spec.lo, whole);
    assert (set v | spec.lo * 1000 <= v < value && Allowed(spec, v))
        == set v | spec.lo * 1000 <= v < whole * 1000 && v % 1000 == 0;
  }

  /** Code 0 is the lower bound, each further code is one unit more, and the codes
      end with the upper bound. */
  lemma IntegerDecode(spec: Spec, raw: U32)
    requires Accepted(spec) && spec.IntegerRange?
    ensures DecodeValue(spec, 0) == Ok(spec.lo * 1000)
    ensures DecodeValue(spec, raw).Ok? <==> raw <= spec.hi - spec.lo
    ensures 0 < raw <= spec.hi - spec.lo ==>
              && DecodeValue(spec, raw - 1).Ok?
              && DecodeValue(spec, raw).value == DecodeValue(spec, raw - 1).value + 1000
  {
    AcceptedIff(spec);
    SpanOf(spec.lo, spec.hi);
  }

  /** A continuous value is its own code, modulo 2^32. */
  lemma ContinuousCode(spec: Spec, value: I32)
    requires Accepted(spec) && spec.ContinuousRange? && Allowed(spec, value)
    ensures EncodeValue(spec, value).Ok? && (EncodeValue(spec, value).value - value) % 0x1_0000_0000 == 0
  {
    ReinterpretModulo(value, 0);
  }

  /** A refused code or value is named in the error. */
  lemma Refusals(spec: Spec, raw: U32, value: I32)
    requires Accepted(spec)
    ensures DecodeValue(spec, raw).Err? ==> DecodeValue(spec, raw).error == InvalidEncodedValue(raw)
    ensures EncodeValue(spec, value).Err? ==>
              EncodeValue(spec, value).error.InvalidEncodedValue?
              && 0 <= EncodeValue(spec, value).error.raw <= U32_MAX
              && (EncodeValue(spec, value).error.raw - value) % 0x1_0000_0000 == 0
  {
    AcceptedIff(spec);
    ReinterpretModulo(value, raw);
    if spec.IntegerRange? {
      SpanOf(spec.lo, spec.hi);
    }
  }

  // ---------------------------------------------------------------- sampling

  /** An indexed sample is the value coded by what is left of the word after
      dividing by the number of codes. */
  lemma SampleIsDecode(spec: Spec, word: U32, q: nat, raw: U32)
    requires Accepted(spec) && !spec.ContinuousRange? && raw < Count(spec) && word == q * Count(spec) + raw
    ensures Sample(spec, word) == DecodeValue(spec, raw)
  {
    AcceptedIff(spec);
    DivMod(q, raw, Count(spec));
    if spec.IntegerRange? {
      SpanOf(spec.lo, spec.hi);
    }
  }

  /** A continuous sample counts up from the minimum, word by word, and starts over
      after the maximum. */
  lemma SampleCounts(spec: Spec, word: U32)
    requires Accepted(spec) && spec.ContinuousRange?
    ensures Count(spec) > 0 && Sample(spec, 0) == Ok(spec.min)
    ensures 0 < word < Count(spec) ==>
              Sample(spec, word - 1).Ok? && Sample(spec, word) == Ok(Sample(spec, word - 1).value + 1)
    ensures word >= Count(spec) ==> Sample(spec, word) == Sample(spec, word - Count(spec))
  {
    SpanOf(spec.min, spec.max);
    var span := Count(spec);
    SmallMod(0, span);
    if word < span {
      SmallMod(word, span);
      if word > 0 {
        SmallMod(word - 1, span);
      }
    } else {
      WrapMod(word, span);
    }
  }

  lemma WrapMod(word: nat, span: nat)
    requires 0 < span <= word
    ensures word % span == (word - span) % span
  {
    var q, r := (word - span) / span, (word - span) % span;
    DivMod(q + 1, r, span);
  }

  // ---------------------------------------------------------------- whole vectors

  /** Encoding is element by element; the error is that of the first element that
      has no code. */
  lemma {:induction false} EncodeAllMeaning(spins: seq<I32>, spec: Spec)
    requires Accepted(spec)
    ensures var r := EncodeAll(spins, spec);
            && (r.Ok? ==> |r.value| == |spins|
                          && forall i :: 0 <= i < |spins| ==> EncodeValue(spec, spins[i]) == Ok(r.value[i]))
            && (r.Err? ==> exists k :: 0 <= k < |spins| && EncodeValue(spec, spins[k]) == Err(r.error)
                                       && forall i :: 0 <= i < k ==> EncodeValue(spec, spins[i]).Ok?)
  {
    if spins != [] {
      var k := |spins| - 1;
      EncodeAllMeaning(spins[..k], spec);
      if EncodeAll(spins[..k], spec).Err? {
        var m :| 0 <= m < k && EncodeValue(spec, spins[..k][m]) == Err(EncodeAll(spins[..k], spec).error)
                 && forall i :: 0 <= i < m ==> EncodeValue(spec, spins[..k][i]).Ok?;
        assert forall i :: 0 <= i < m ==> EncodeValue(spec, spins[i]) == EncodeValue(spec, spins[..k][i]);
        assert EncodeValue(spec, spins[m]) == Err(EncodeAll(spins, spec).error);
      } else {
        assert forall i :: 0 <= i < k ==> EncodeValue(spec, spins[i]) == EncodeValue(spec, spins[..k][i]);
      }
    }
  }

  /** So is decoding. */
  lemma {:induction false} DecodeAllMeaning(raws: seq<nat>, spec: Spec)
    requires Below(raws, 0x1_0000_0000)
    ensures var r := DecodeAll(raws, spec);
            && (r.Ok? ==> |r.value| == |raws|
                          && forall i :: 0 <= i < |raws| ==> DecodeValue(spec, raws[i]) == Ok(r.value[i]))
            && (r.Err? ==> exists k :: 0 <= k < |raws| && DecodeValue(spec, raws[k]) == Err(r.error)
                                       && forall i :: 0 <= i < k ==> DecodeValue(spec, raws[i]).Ok?)
  {
    if raws != [] {
      var k := |raws| - 1;
      DecodeAllMeaning(raws[..k], spec);
      if DecodeAll(raws[..k], spec).Err? {
        var m :| 0 <= m < k && DecodeValue(spec, raws[..k][m]) == Err(DecodeAll(raws[..k], spec).error)
                 && forall i :: 0 <= i < m ==> DecodeValue(spec, raws[..k][i]).Ok?;
        assert forall i :: 0 <= i < m ==> DecodeValue(spec, raws[i]) == DecodeValue(spec, raws[..k][i]);
        assert DecodeValue(spec, raws[m]) == Err(DecodeAll(raws, spec).error);
      } else {
        assert forall i :: 0 <= i < k ==> DecodeValue(spec, raws[i]) == DecodeValue(spec, raws[..k][i]);
      }
    }
  }

  /** The bytes are as few as hold all bits. */
  lemma ByteLenLeast(n: nat, b: nat)
    ensures n * b <= 8 * ByteLen(n, b) < n * b + 8
  {
  }
}
