/** Allowed-value specs: bit widths, decoding, encoding and sampling. */
module PuzzleSpec {
  import opened Common
  import opened Radix
  import opened Bits

  type I32 = x: int | I32_MIN <= x <= I32_MAX
  type U32 = x: int | 0 <= x <= U32_MAX

  /** Widest indexed encoding; anything wider is a 32-bit continuous value. */
  const MAX_INDEXED_BITS: nat := 8

  datatype Spec =
    | Set(values: seq<I32>)
    | IntegerRange(lo: I32, hi: I32)
    | ContinuousRange(min: I32, max: I32)

  /** `value as u32`: two's complement reinterpretation. */
  function AsU32(value: I32): U32 {
    if value < 0 then value + 0x1_0000_0000 else value
  }

  /** `raw as i32`. */
  function AsI32(raw: U32): I32 {
    if raw > I32_MAX then raw - 0x1_0000_0000 else raw
  }

  lemma ReinterpretInverse(value: I32, raw: U32)
    ensures AsI32(AsU32(value)) == value && AsU32(AsI32(raw)) == raw
  {
  }

  /** Number of bits needed to index `count` values, never zero. */
  function BitsForCount(count: nat): nat {
    if count <= 1 then 1 else BitLength(count - 1)
  }

  /** The width is the ceiling of log2: the values fit, and one bit less would
      not do. */
  lemma BitsForCountCeilLog2(count: nat)
    ensures count <= Pow(2, BitsForCount(count)) && BitsForCount(count) >= 1
    ensures count >= 2 ==> Pow(2, BitsForCount(count) - 1) < count
  {
    if count >= 2 {
      BitLengthBounds(count - 1);
    } else {
      assert Pow(2, 1) == 2;
    }
  }

  /** At most eight bits exactly for at most 256 values. */
  lemma WidthFitsIff(count: nat)
    ensures BitsForCount(count) <= MAX_INDEXED_BITS <==> count <= 256
  {
    BitsForCountCeilLog2(count);
    Pow256(1);
    if BitsForCount(count) <= 8 {
      PowMono(2, BitsForCount(count), 8);
    } else {
      PowMono(2, 8, BitsForCount(count) - 1);
    }
  }

  function BitsPerValue(spec: Spec): Result<nat, ValidationError> {
    match spec
    case Set(values) =>
      if |values| == 0 then Err(EmptyAllowedValues)
      else CheckIndexedBits(BitsForCount(|values|))
    case IntegerRange(lo, hi) =>
      if hi < lo then Err(EmptyAllowedValues)
      else
        var width := CheckIndexedBits(BitsForCount(hi - lo + 1));
        if width.Err? then width
        else if lo * MILLI_SCALE < I32_MIN || hi * MILLI_SCALE > I32_MAX then Err(ArithmeticOverflow)
        else width
    case ContinuousRange(min, max) =>
      if max < min then Err(EmptyAllowedValues) else Ok(32)
  }

  function CheckIndexedBits(bits: nat): Result<nat, ValidationError> {
    if bits > MAX_INDEXED_BITS then Err(EncodingTooWide(bits)) else Ok(bits)
  }

  predicate Accepted(spec: Spec) {
    BitsPerValue(spec).Ok?
  }

  /** Registration accepts a spec exactly when it is non-empty, indexed specs
      have at most 256 values, and scaled integer bounds fit 32 bits. */
  lemma AcceptedIff(spec: Spec)
    ensures Accepted(spec) <==>
              match spec
              case Set(values) => 1 <= |values| <= 256
              case IntegerRange(lo, hi) => 1 <= hi - lo + 1 <= 256
                                           && I32_MIN <= lo * MILLI_SCALE && hi * MILLI_SCALE <= I32_MAX
              case ContinuousRange(min, max) => min <= max
  {
    match spec
    case Set(values) => WidthFitsIff(|values|);
    case IntegerRange(lo, hi) => if lo <= hi { WidthFitsIff(hi - lo + 1); }
    case ContinuousRange(min, max) =>
  }

  /** `(hi - lo + 1) as u64`, wrapping for inverted bounds. */
  function Span(lo: I32, hi: I32): nat {
    (hi - lo + 1) % 0x1_0000_0000_0000_0000
  }

  function DecodeValue(spec: Spec, raw: U32): Result<I32, ValidationError> {
    match spec
    case Set(values) =>
      if raw < |values| then Ok(values[raw]) else Err(InvalidEncodedValue(raw))
    case IntegerRange(lo, hi) =>
      if raw >= Span(lo, hi) then Err(InvalidEncodedValue(raw))
      else
        var value := (lo + raw) * MILLI_SCALE;
        if I32_MIN <= value <= I32_MAX then Ok(value) else Err(ArithmeticOverflow)
    case ContinuousRange(min, max) =>
      var value := AsI32(raw);
      if value < min || value > max then Err(InvalidEncodedValue(raw)) else Ok(value)
  }

  function EncodeValue(spec: Spec, value: I32): Result<U32, ValidationError>
    requires Accepted(spec)
  {
    AcceptedIff(spec);
    match spec
    case Set(values) =>
      if value in values then Ok(FirstIndex(values, value)) else Err(InvalidEncodedValue(AsU32(value)))
    case IntegerRange(lo, hi) =>
      if value % MILLI_SCALE != 0 then Err(InvalidEncodedValue(AsU32(value)))
      else
        var whole := value / MILLI_SCALE;
        if whole < lo || whole > hi then Err(InvalidEncodedValue(AsU32(value))) else Ok(whole - lo)
    case ContinuousRange(min, max) =>
      if value < min || value > max then Err(InvalidEncodedValue(AsU32(value))) else Ok(AsU32(value))
  }

  /** The values a spec stands for. */
  predicate Allowed(spec: Spec, value: int) {
    match spec
    case Set(values) => value in values
    case IntegerRange(lo, hi) => value % MILLI_SCALE == 0 && lo <= value / MILLI_SCALE <= hi
    case ContinuousRange(min, max) => min <= value <= max
  }

  /** Encoding succeeds exactly on allowed values, fits the width, and decoding
      takes it back. */
  lemma EncodeThenDecode(spec: Spec, value: I32)
    requires Accepted(spec)
    ensures EncodeValue(spec, value).Ok? <==> Allowed(spec, value)
    ensures EncodeValue(spec, value).Ok? ==>
              EncodeValue(spec, value).value < Pow(2, BitsPerValue(spec).value)
              && DecodeValue(spec, EncodeValue(spec, value).value) == Ok(value)
  {
    AcceptedIff(spec);
    if EncodeValue(spec, value).Ok? {
      EncodedFits(spec, value);
    }
    if spec.IntegerRange? {
      SpanOf(spec.lo, spec.hi);
    }
  }

  lemma EncodedFits(spec: Spec, value: I32)
    requires Accepted(spec) && EncodeValue(spec, value).Ok?
    ensures EncodeValue(spec, value).value < Pow(2, BitsPerValue(spec).value)
  {
    match spec
    case Set(values) => BitsForCountCeilLog2(|values|);
    case IntegerRange(lo, hi) => BitsForCountCeilLog2(hi - lo + 1);
    case ContinuousRange(min, max) => Pow32();
  }

  lemma SpanOf(lo: I32, hi: I32)
    requires lo <= hi
    ensures Span(lo, hi) == hi - lo + 1
  {
    SmallMod(hi - lo + 1, 0x1_0000_0000_0000_0000);
  }

  lemma Pow32()
    ensures Pow(2, 32) == 0x1_0000_0000
  {
    Pow256(4);
    assert Pow(256, 4) == 256 * (256 * (256 * (256 * Pow(256, 0))));
  }

  /** A `Set` without repeated entries; the other specs never repeat a value. */
  predicate NoDuplicates(spec: Spec) {
    spec.Set? ==> Distinct(spec.values)
  }

  /** What decodes is allowed, and without duplicates re-encodes to itself. */
  lemma DecodeThenEncode(spec: Spec, raw: U32)
    requires Accepted(spec) && DecodeValue(spec, raw).Ok?
    ensures Allowed(spec, DecodeValue(spec, raw).value)
    ensures NoDuplicates(spec) ==> EncodeValue(spec, DecodeValue(spec, raw).value) == Ok(raw)
  {
    AcceptedIff(spec);
    var value := DecodeValue(spec, raw).value;
    match spec
    case Set(values) =>
      assert FirstIndex(values, value) <= raw;
    case IntegerRange(lo, hi) =>
      SpanOf(lo, hi);
      DivMod(lo + raw, 0, MILLI_SCALE);
    case ContinuousRange(min, max) =>
  }

  /** `sample`, given the next word of the random stream. */
  function Sample(spec: Spec, word: U32): Result<I32, ValidationError> {
    match spec
    case Set(values) =>
      if |values| == 0 then Err(EmptyAllowedValues) else Ok(values[word % |values|])
    case IntegerRange(lo, hi) =>
      if hi < lo then Err(EmptyAllowedValues) else DecodeValue(spec, word % Span(lo, hi))
    case ContinuousRange(min, max) =>
      if max < min then Err(EmptyAllowedValues) else Ok(min + word % Span(min, max))
  }

  /** For an accepted spec every random word yields an allowed value. */
  lemma SampleAllowed(spec: Spec, word: U32)
    requires Accepted(spec)
    ensures Sample(spec, word).Ok? && Allowed(spec, Sample(spec, word).value)
  {
    AcceptedIff(spec);
    match spec
    case Set(values) =>
    case IntegerRange(lo, hi) =>
      var raw := word % Span(lo, hi);
      SpanOf(lo, hi);
      DivMod(lo + raw, 0, MILLI_SCALE);
      assert lo * MILLI_SCALE <= (lo + raw) * MILLI_SCALE <= hi * MILLI_SCALE;
    case ContinuousRange(min, max) => SpanOf(min, max);
  }

  /** And every allowed value is produced by some word. */
  lemma SampleReachesAll(spec: Spec, value: I32) returns (word: U32)
    requires Accepted(spec) && Allowed(spec, value)
    ensures Sample(spec, word) == Ok(value)
  {
    AcceptedIff(spec);
    match spec
    case Set(values) => word := FirstIndex(values, value); SmallMod(word, |values|);
    case IntegerRange(lo, hi) =>
      SpanOf(lo, hi);
      word := value / MILLI_SCALE - lo;
      SmallMod(word, Span(lo, hi));
    case ContinuousRange(min, max) =>
      SpanOf(min, max);
      word := value - min;
      SmallMod(word, Span(min, max));
  }
}
