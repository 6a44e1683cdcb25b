/** The packing and unpacking loops, and the laws that tie them together. */
module Codec {
  import opened Common
  import opened Radix
  import opened Bits
  import opened PuzzleSpec
  import opened Packed
  import opened PayloadSpec
  import opened BitFields

  // ---------------------------------------------------------------- left-to-right coding

  lemma {:induction false} EncodePrefixError(spins: seq<I32>, spec: Spec, k: nat)
    requires Accepted(spec) && k <= |spins| && EncodeAll(spins[..k], spec).Err?
    ensures EncodeAll(spins, spec) == EncodeAll(spins[..k], spec)
  {
    if k == |spins| {
      assert spins[..k] == spins;
    } else {
      var last := |spins| - 1;
      assert spins[..last][..k] == spins[..k];
      EncodePrefixError(spins[..last], spec, k);
    }
  }

  lemma {:induction false} DecodePrefixError(raws: seq<nat>, spec: Spec, k: nat)
    requires Below(raws, 0x1_0000_0000) && k <= |raws| && DecodeAll(raws[..k], spec).Err?
    ensures DecodeAll(raws, spec) == DecodeAll(raws[..k], spec)
  {
    if k == |raws| {
      assert raws[..k] == raws;
    } else {
      var last := |raws| - 1;
      assert raws[..last][..k] == raws[..k];
      DecodePrefixError(raws[..last], spec, k);
    }
  }

  lemma EncodeSnoc(spins: seq<I32>, spec: Spec, k: nat)
    requires Accepted(spec) && k < |spins| && EncodeAll(spins[..k], spec).Ok?
    ensures EncodeAll(spins[..k + 1], spec)
            == var last := EncodeValue(spec, spins[k]);
               if last.Err? then Err(last.error) else Ok(EncodeAll(spins[..k], spec).value + [last.value])
  {
    assert spins[..k + 1][..k] == spins[..k];
  }

  lemma DecodeSnoc(raws: seq<nat>, spec: Spec, k: nat)
    requires Below(raws, 0x1_0000_0000) && k < |raws| && DecodeAll(raws[..k], spec).Ok?
    ensures DecodeAll(raws[..k + 1], spec)
            == var last := DecodeValue(spec, raws[k]);
               if last.Err? then Err(last.error) else Ok(DecodeAll(raws[..k], spec).value + [last.value])
  {
    assert raws[..k + 1][..k] == raws[..k];
  }

  /** Encoded fields fit the width. */
  lemma {:induction false} EncodedBelow(spins: seq<I32>, spec: Spec)
    requires Accepted(spec) && EncodeAll(spins, spec).Ok?
    ensures Below(EncodeAll(spins, spec).value, Pow(2, BitsPerValue(spec).value))
  {
    if spins != [] {
      var k := |spins| - 1;
      EncodedBelow(spins[..k], spec);
      EncodeThenDecode(spec, spins[k]);
    }
  }

  // ---------------------------------------------------------------- packing

  /** Loop of `pack_solution` for indexed widths. */
  method PackIndexed(spins: seq<I32>, spec: Spec, b: nat, out: array<Byte>) returns (r: Result<(), ValidationError>)
    requires BitsPerValue(spec) == Ok(b) && b <= 8 && out.Length == ByteLen(|spins|, b)
    requires forall i :: 0 <= i < out.Length ==> out[i] == 0
    modifies out
    ensures r == var raws := EncodeAll(spins, spec); if raws.Err? then Err(raws.error) else Ok(())
    ensures r.Ok? ==> out[..] == Respell(EncodeAll(spins, spec).value, b)
  {
    WidthRange(spec);
    ZeroBuffer(out[..]);
    for i := 0 to |spins|
      invariant EncodeAll(spins[..i], spec).Ok?
      invariant FromDigits(out[..], 256) == PrefixValue(spins, spec, b, i)
    {
      var step := PackOne(spins, spec, b, i, out);
      if step.Err? {
        EncodePrefixError(spins, spec, i + 1);
        return step;
      }
    }
    assert spins[..|spins|] == spins;
    ValueDigits(out[..], 256);
    return Ok(());
  }

  /** One iteration: encode the i-th spin and OR it in at bit i * b. */
  method PackOne(spins: seq<I32>, spec: Spec, b: nat, i: nat, out: array<Byte>) returns (r: Result<(), ValidationError>)
    requires BitsPerValue(spec) == Ok(b) && 1 <= b <= 8 && out.Length == ByteLen(|spins|, b) && i < |spins|
    requires EncodeAll(spins[..i], spec).Ok? && FromDigits(out[..], 256) == PrefixValue(spins, spec, b, i)
    modifies out
    ensures r.Err? ==> EncodeAll(spins[..i + 1], spec) == Err(r.error)
    ensures r.Ok? ==> EncodeAll(spins[..i + 1], spec).Ok?
    ensures r.Ok? ==> FromDigits(out[..], 256) == PrefixValue(spins, spec, b, i + 1)
  {
    var raw := EncodeValue(spec, spins[i]);
    if raw.Err? {
      EncodeSnoc(spins, spec, i);
      return Err(raw.error);
    }
    var offset := i * b;
    PackStep(spins, spec, b, i, offset, raw.value);
    OrAt(out, offset, b, raw.value);
    return Ok(());
  }

  /** The number the first i encoded spins make up. */
  ghost function PrefixValue(spins: seq<I32>, spec: Spec, b: nat, i: nat): nat
    requires Accepted(spec) && i <= |spins| && EncodeAll(spins[..i], spec).Ok?
  {
    FromDigits(EncodeAll(spins[..i], spec).value, Pow(2, b))
  }

  /** Everything one iteration needs: room for the field, nothing above the
      offset yet, and the new number once the field is in. */
  lemma PackStep(spins: seq<I32>, spec: Spec, b: nat, i: nat, offset: nat, raw: nat)
    requires BitsPerValue(spec) == Ok(b) && b >= 1 && i < |spins| && offset == i * b
    requires EncodeAll(spins[..i], spec).Ok? && EncodeValue(spec, spins[i]) == Ok(raw)
    ensures offset + b <= 8 * ByteLen(|spins|, b) && raw < Pow(2, b)
    ensures PrefixValue(spins, spec, b, i) < Pow(2, offset)
    ensures EncodeAll(spins[..i + 1], spec) == Ok(EncodeAll(spins[..i], spec).value + [raw])
    ensures PrefixValue(spins, spec, b, i + 1) == PrefixValue(spins, spec, b, i) + raw * Pow(2, offset)
  {
    EncodeSnoc(spins, spec, i);
    OffsetFree(spins[..i], spec);
    FieldInside(|spins|, b, i);
    EncodedFits(spec, spins[i]);
    AppendField(EncodeAll(spins[..i], spec).value, raw, b);
  }

  /** The body of the loop: OR one shifted value across a byte boundary. The
      number spelled by the buffer gains exactly raw * 2^offset. */
  method OrAt(out: array<Byte>, offset: nat, ghost b: nat, raw: nat)
    requires 1 <= b <= 8 && raw < Pow(2, b) && offset + b <= 8 * out.Length
    requires FromDigits(out[..], 256) < Pow(2, offset)
    modifies out
    ensures FromDigits(out[..], 256) == FromDigits(old(out[..]), 256) + raw * Pow(2, offset)
  {
    var q, t := offset / 8, offset % 8;
    ghost var before := out[..];
    OrStep(before, offset, b, raw);
    var shifted := ShiftLeft(raw, t);
    out[q] := BitOr(out[q], BitAnd(shifted, BYTE_MASK));
    if q + 1 < out.Length {
      out[q + 1] := BitOr(out[q + 1], BitAnd(ShiftRight(shifted, 8), BYTE_MASK));
    }
    assert out[..] == Written(before, q, LowWrite(before[q], raw, t),
                              if q + 1 < |before| then HighWrite(before[q + 1], raw, t) else 0);
  }

  lemma {:induction false} ZeroBuffer(out: seq<nat>)
    requires forall i :: 0 <= i < |out| ==> out[i] == 0
    ensures FromDigits(out, 256) == 0
  {
    if out != [] {
      ZeroBuffer(out[1..]);
    }
  }

  /** What has been packed so far stays below the next bit offset. */
  lemma OffsetFree(spins: seq<I32>, spec: Spec)
    requires Accepted(spec) && EncodeAll(spins, spec).Ok?
    ensures var b := BitsPerValue(spec).value;
            FromDigits(EncodeAll(spins, spec).value, Pow(2, b)) < Pow(2, |spins| * b)
  {
    var b := BitsPerValue(spec).value;
    EncodedBelow(spins, spec);
    PowPositive(2, b);
    FromDigitsBound(EncodeAll(spins, spec).value, Pow(2, b));
    PowMul(2, b, |spins|);
  }

  lemma AppendField(raws: seq<nat>, raw: nat, b: nat)
    ensures FromDigits(raws + [raw], Pow(2, b)) == FromDigits(raws, Pow(2, b)) + raw * Pow(2, |raws| * b)
  {
    FromDigitsAppend(raws, raw, Pow(2, b));
    PowMul(2, b, |raws|);
  }

  /** Loop of `pack_solution` for the 32-bit width; no range check. A buffer that
      is too short panics at the first word that does not fit. */
  method PackContinuous(spins: seq<I32>, out: array<Byte>) returns (done: Outcome<()>)
    requires out.Length <= 4 * |spins|
    modifies out
    ensures done.Panicked? <==> out.Length < 4 * |spins|
    ensures done.Returned? ==> out[..] == BigEndianAll(spins)
  {
    for i := 0 to |spins|
      invariant 4 * i <= out.Length && out[..4 * i] == BigEndianAll(spins[..i])
    {
      if out.Length < 4 * i + 4 {
        return Panicked;
      }
      var bytes := BigEndian(AsU32(spins[i]));
      ghost var words := out[..4 * i];
      out[4 * i], out[4 * i + 1], out[4 * i + 2], out[4 * i + 3] := bytes[0], bytes[1], bytes[2], bytes[3];
      assert spins[..i + 1][..i] == spins[..i];
      assert out[..4 * i] == words;
      assert out[..4 * (i + 1)] == words + bytes;
    }
    assert spins[..|spins|] == spins && out[..4 * |spins|] == out[..];
    return Returned(());
  }

  /** `pack_solution`. */
  method PackSolution(spins: Spins, spec: Spec) returns (r: Outcome<Result<seq<Byte>, ValidationError>>)
    ensures r == PackSpec(spins, spec)
  {
    var bits := BitsPerValue(spec);
    if bits.Err? {
      return Returned(Err(bits.error));
    }
    WidthRange(spec);
    if Saturates(|spins|, spec) {
      ByteLenSaturated(|spins|, spec);
    } else {
      ByteLenExact(|spins|, spec);
    }
    var out := new Byte[PackedByteLen(|spins|, spec).value](_ => 0);
    if bits.value == 32 {
      var done := PackContinuous(spins, out);
      return if done.Panicked? then Panicked else Returned(Ok(out[..]));
    }
    var packed := PackIndexed(spins, spec, bits.value, out);
    if packed.Err? {
      return Returned(Err(packed.error));
    }
    return Returned(Ok(out[..]));
  }

  // ---------------------------------------------------------------- unpacking

  /** `decode_indexed`. */
  method DecodeIndexed(packed: seq<Byte>, n: nat, b: nat, spec: Spec) returns (r: Result<seq<I32>, ValidationError>)
    requires 1 <= b <= 8 && |packed| == ByteLen(n, b) && Below(Fields(packed, n, b), 0x1_0000_0000)
    ensures r == DecodeAll(Fields(packed, n, b), spec)
  {
    ghost var raws := Fields(packed, n, b);
    PowPositive(2, b);
    var out: seq<I32> := [];
    for i := 0 to n
      invariant DecodeAll(raws[..i], spec) == Ok(out)
    {
      var offset := i * b;
      ReadStep(packed, n, b, i, offset);
      var q, t := offset / 8, offset % 8;
      var raw := ReadBits(packed[q], NextByte(packed, q), t, b);
      DecodeSnoc(raws, spec, i);
      var value := DecodeValue(spec, raw);
      if value.Err? {
        DecodePrefixError(raws, spec, i + 1);
        return Err(value.error);
      }
      out := out + [value.value];
    }
    assert raws[..n] == raws;
    return Ok(out);
  }

  lemma WordOfPrefix(packed: seq<Byte>, whole: nat, i: nat)
    requires i < whole && 4 * whole <= |packed|
    ensures Words(packed[..4 * whole], whole)[i] == FromBigEndian(packed[4 * i..4 * i + 4])
  {
    assert packed[..4 * whole][4 * i..4 * i + 4] == packed[4 * i..4 * i + 4];
  }

  /** One more word decoded, or the error it gives. */
  method DecodeWord(packed: seq<Byte>, i: nat, spec: Spec, out: seq<I32>, ghost whole: nat)
    returns (r: Result<seq<I32>, ValidationError>)
    requires i < whole && 4 * whole <= |packed|
    requires DecodeAll(Words(packed[..4 * whole], whole)[..i], spec) == Ok(out)
    ensures r.Ok? ==> DecodeAll(Words(packed[..4 * whole], whole)[..i + 1], spec) == r
    ensures r.Err? ==> DecodeAll(Words(packed[..4 * whole], whole), spec) == r
  {
    ghost var raws := Words(packed[..4 * whole], whole);
    WordOfPrefix(packed, whole, i);
    DecodeSnoc(raws, spec, i);
    var value := DecodeValue(spec, FromBigEndian(packed[4 * i..4 * i + 4]));
    if value.Err? {
      DecodePrefixError(raws, spec, i + 1);
      return Err(value.error);
    }
    return Ok(out + [value.value]);
  }

  /** `decode_continuous`; a saturated length check lets a payload through that
      runs out of words. */
  method DecodeContinuous(packed: seq<Byte>, n: nat, spec: Spec) returns (r: Result<seq<I32>, ValidationError>)
    requires |packed| <= 4 * n
    ensures r == if |packed| == 4 * n then DecodeAll(Words(packed, n), spec) else DecodeShort(packed, n, spec)
  {
    ghost var whole := |packed| / 4;
    ghost var raws := Words(packed[..4 * whole], whole);
    assert |packed| == 4 * n ==> whole == n && packed[..4 * whole] == packed;
    var out: seq<I32> := [];
    for i := 0 to n
      invariant i <= whole && DecodeAll(raws[..i], spec) == Ok(out)
    {
      if 4 * i + 4 > |packed| {
        assert raws[..i] == raws;
        return Err(PackedSolutionLengthMismatch(4 * n, |packed|));
      }
      var next := DecodeWord(packed, i, spec, out, whole);
      if next.Err? {
        return next;
      }
      out := next.value;
    }
    assert raws[..n] == raws;
    return Ok(out);
  }

  /** `unpack_solution`. */
  method UnpackSolution(packed: seq<Byte>, n: nat, spec: Spec) returns (r: Outcome<Result<seq<I32>, ValidationError>>)
    ensures r == UnpackSpec(packed, n, spec)
  {
    var bits := BitsPerValue(spec);
    if bits.Err? {
      return Returned(Err(bits.error));
    }
    var expected := PackedByteLen(n, spec).value;
    if |packed| != expected {
      return Returned(Err(PackedSolutionLengthMismatch(expected, |packed|)));
    }
    if !Allocatable(n) {
      return Panicked;
    }
    WidthRange(spec);
    FieldsFit(spec);
    if Saturates(n, spec) {
      ByteLenSaturated(n, spec);
    } else {
      ByteLenExact(n, spec);
    }
    var values;
    if bits.value == 32 {
      values := DecodeContinuous(packed, n, spec);
    } else {
      values := DecodeIndexed(packed, n, bits.value, spec);
    }
    return Returned(values);
  }

  // ---------------------------------------------------------------- round trip

  predicate AllAllowed(spins: seq<I32>, spec: Spec) {
    forall i :: 0 <= i < |spins| ==> Allowed(spec, spins[i])
  }

  lemma {:induction false} EncodeAllIff(spins: seq<I32>, spec: Spec)
    requires Accepted(spec)
    ensures EncodeAll(spins, spec).Ok? <==> AllAllowed(spins, spec)
  {
    if spins != [] {
      var k := |spins| - 1;
      EncodeAllIff(spins[..k], spec);
      EncodeThenDecode(spec, spins[k]);
    }
  }

  lemma {:induction false} DecodeEncoded(spins: seq<I32>, spec: Spec)
    requires Accepted(spec) && EncodeAll(spins, spec).Ok?
    ensures Below(EncodeAll(spins, spec).value, 0x1_0000_0000)
    ensures DecodeAll(EncodeAll(spins, spec).value, spec) == Ok(spins)
  {
    if spins != [] {
      var k := |spins| - 1;
      DecodeEncoded(spins[..k], spec);
      EncodeThenDecode(spec, spins[k]);
      assert EncodeAll(spins, spec).value[..k] == EncodeAll(spins[..k], spec).value;
      assert spins == spins[..k] + [spins[k]];
    }
  }

  /** The buffer of an indexed packing, read as a little-endian integer, is the
      sum of raw_i * 2^(b * i), and its fields are the encoded values again. */
  lemma RespellFields(raws: seq<nat>, b: nat)
    requires b >= 1 && Below(raws, Pow(2, b))
    ensures FromDigits(Respell(raws, b), 256) == FromDigits(raws, Pow(2, b))
    ensures Fields(Respell(raws, b), |raws|, b) == raws
  {
    var v, len := FromDigits(raws, Pow(2, b)), ByteLen(|raws|, b);
    PowPositive(2, b);
    FitsBytes(raws, b);
    DigitsValue(v, 256, len);
    SmallMod(v, Pow(256, len));
    ValueDigits(raws, Pow(2, b));
  }

  lemma FitsBytes(raws: seq<nat>, b: nat)
    requires Below(raws, Pow(2, b))
    ensures FromDigits(raws, Pow(2, b)) < Pow(256, ByteLen(|raws|, b))
  {
    var len := ByteLen(|raws|, b);
    PowPositive(2, b);
    FromDigitsBound(raws, Pow(2, b));
    var bits := |raws| * b;
    PowMul(2, b, |raws|);
    Pow256(len);
    assert bits <= 8 * len;
    PowMono(2, bits, 8 * len);
  }

  /** The words of a 32-bit packing are the spins reinterpreted as u32. */
  lemma WordsOfBigEndian(spins: seq<I32>)
    ensures Words(BigEndianAll(spins), |spins|) == seq(|spins|, i requires 0 <= i < |spins| => AsU32(spins[i]))
  {
    var packed := BigEndianAll(spins);
    var codes: seq<nat> := seq(|spins|, i requires 0 <= i < |spins| => AsU32(spins[i]));
    forall i | 0 <= i < |codes| ensures WordIs(packed, codes, i) {
      WordAt(spins, i);
    }
    WordsAre(packed, codes);
  }

  ghost predicate WordIs(packed: seq<Byte>, codes: seq<nat>, i: nat)
    requires |packed| == 4 * |codes| && i < |codes|
  {
    FromBigEndian(packed[4 * i..4 * i + 4]) == codes[i]
  }

  lemma WordsAre(packed: seq<Byte>, codes: seq<nat>)
    requires |packed| == 4 * |codes| && forall i :: 0 <= i < |codes| ==> WordIs(packed, codes, i)
    ensures Words(packed, |codes|) == codes
  {
    forall i | 0 <= i < |codes| ensures Words(packed, |codes|)[i] == codes[i] {
      assert WordIs(packed, codes, i);
    }
  }

  lemma WordAt(spins: seq<I32>, i: nat)
    requires i < |spins|
    ensures FromBigEndian(BigEndianAll(spins)[4 * i..4 * i + 4]) == AsU32(spins[i])
  {
    BigEndianSlice(spins, i);
    BigEndianThenBack(AsU32(spins[i]));
  }

  lemma {:induction false} BigEndianSlice(spins: seq<I32>, i: nat)
    requires i < |spins|
    ensures BigEndianAll(spins)[4 * i..4 * i + 4] == BigEndian(AsU32(spins[i]))
  {
    var k := |spins| - 1;
    if i < k {
      BigEndianSlice(spins[..k], i);
      assert BigEndianAll(spins)[4 * i..4 * i + 4] == BigEndianAll(spins[..k])[4 * i..4 * i + 4];
    }
  }

  /** Reinterpreted words decode to the spins exactly when all are in range. */
  lemma {:induction false} DecodeReinterpreted(spins: seq<I32>, spec: Spec)
    requires Accepted(spec) && spec.ContinuousRange?
    ensures var raws := seq(|spins|, i requires 0 <= i < |spins| => AsU32(spins[i]));
            DecodeAll(raws, spec) == Ok(spins) <==> AllAllowed(spins, spec)
    ensures var raws := seq(|spins|, i requires 0 <= i < |spins| => AsU32(spins[i]));
            DecodeAll(raws, spec).Ok? ==> DecodeAll(raws, spec).value == spins
  {
    if spins != [] {
      var k := |spins| - 1;
      var raws := seq(|spins|, i requires 0 <= i < |spins| => AsU32(spins[i]));
      DecodeReinterpreted(spins[..k], spec);
      assert raws[..k] == seq(k, i requires 0 <= i < k => AsU32(spins[..k][i]));
      assert spins == spins[..k] + [spins[k]];
    }
  }

  /** Round trip. Indexed packing succeeds exactly on allowed spins; 32-bit
      packing succeeds unchecked, unless the bit count saturates. Whenever packing
      succeeds, unpacking the result succeeds exactly when all spins are allowed,
      and then yields them back. */
  lemma RoundTrip(spins: Spins, spec: Spec)
    requires Accepted(spec)
    ensures PackSpec(spins, spec).Panicked? <==> Saturates(|spins|, spec)
    ensures PackSpec(spins, spec).Returned? ==>
              (PackSpec(spins, spec).value.Ok? <==> spec.ContinuousRange? || AllAllowed(spins, spec))
    ensures PackSpec(spins, spec).Returned? && PackSpec(spins, spec).value.Ok? ==>
              var unpacked := UnpackSpec(PackSpec(spins, spec).value.value, |spins|, spec);
              unpacked.Returned? && if AllAllowed(spins, spec) then unpacked.value == Ok(spins) else unpacked.value.Err?
  {
    WidthRange(spec);
    if spec.ContinuousRange? {
      if !Saturates(|spins|, spec) {
        RoundTripContinuous(spins, spec);
      }
    } else {
      EncodeAllIff(spins, spec);
      if EncodeAll(spins, spec).Ok? {
        RoundTripIndexed(spins, spec);
      }
    }
  }

  lemma RoundTripContinuous(spins: Spins, spec: Spec)
    requires Accepted(spec) && spec.ContinuousRange? && !Saturates(|spins|, spec)
    ensures var unpacked := UnpackSpec(BigEndianAll(spins), |spins|, spec);
            unpacked.Returned? && if AllAllowed(spins, spec) then unpacked.value == Ok(spins) else unpacked.value.Err?
  {
    ByteLenExact(|spins|, spec);
    UnpackExact(BigEndianAll(spins), |spins|, spec);
    WordsOfBigEndian(spins);
    DecodeReinterpreted(spins, spec);
  }

  lemma RoundTripIndexed(spins: Spins, spec: Spec)
    requires Accepted(spec) && !spec.ContinuousRange? && EncodeAll(spins, spec).Ok?
    ensures Unpacks(Respell(EncodeAll(spins, spec).value, BitsPerValue(spec).value), |spins|, spec, spins)
  {
    var raws, b := EncodeAll(spins, spec).value, BitsPerValue(spec).value;
    UnpackExact(Respell(raws, b), |spins|, spec);
    EncodedBelow(spins, spec);
    RespellFields(raws, b);
    DecodeEncoded(spins, spec);
  }

  /** The unchecked 32-bit path: a spin just outside the range packs, and the
      payload is then refused. */
  lemma OutOfRangeIsPackedButRefused()
    ensures var spec := ContinuousRange(0, 10);
            && PackSpec([11], spec).Returned? && PackSpec([11], spec).value.Ok?
            && var unpacked := UnpackSpec(PackSpec([11], spec).value.value, 1, spec);
               unpacked.Returned? && unpacked.value.Err?
  {
    var spins: Spins := [11];
    RoundTrip(spins, ContinuousRange(0, 10));
    assert !Allowed(ContinuousRange(0, 10), spins[0]);
  }
}
