/** What packing and unpacking a solution return, panics included. */
module PayloadSpec {
  import opened Common
  import opened Radix
  import opened PuzzleSpec
  import opened Packed

  /** `pack_solution`: a saturated buffer is too short to index. */
  function PackSpec(spins: seq<I32>, spec: Spec): Outcome<Result<seq<Byte>, ValidationError>> {
    var bits := BitsPerValue(spec);
    if bits.Err? then Returned(Err(bits.error))
    else if bits.value == 32 then
      if Saturates(|spins|, spec) then Panicked else Returned(Ok(BigEndianAll(spins)))
    else
      var raws := EncodeAll(spins, spec);
      Returned(if raws.Err? then Err(raws.error) else Ok(Respell(raws.value, bits.value)))
  }

  /** As many whole words as there are, and then the complaint that one is
      missing. */
  function DecodeShort(packed: seq<Byte>, n: nat, spec: Spec): Result<seq<I32>, ValidationError> {
    var whole := |packed| / 4;
    var words := DecodeAll(Words(packed[..4 * whole], whole), spec);
    if words.Err? then words else Err(PackedSolutionLengthMismatch(4 * n, |packed|))
  }

  /** `unpack_solution`: reserving room for the values may fail once the length
      check has passed. */
  function UnpackSpec(packed: seq<Byte>, n: nat, spec: Spec): Outcome<Result<seq<I32>, ValidationError>> {
    var bits := BitsPerValue(spec);
    if bits.Err? then Returned(Err(bits.error))
    else
      var expected := PackedByteLen(n, spec).value;
      if |packed| != expected then Returned(Err(PackedSolutionLengthMismatch(expected, |packed|)))
      else if !Allocatable(n) then Panicked
      else if bits.value == 32 then
        Returned(if |packed| == 4 * n then DecodeAll(Words(packed, n), spec) else DecodeShort(packed, n, spec))
      else
        FieldsFit(spec);
        Returned(DecodeAll(Fields(packed, n, bits.value), spec))
  }

  /** The payload is accepted and holds these values. */
  predicate Unpacks(packed: seq<Byte>, n: nat, spec: Spec, values: seq<I32>) {
    UnpackSpec(packed, n, spec) == Returned(Ok(values))
  }

  /** What an accepted payload looks like: the exact length, and its words or
      fields decode to the values. */
  lemma UnpacksFrom(packed: seq<Byte>, n: nat, spec: Spec, values: seq<I32>)
    ensures Unpacks(packed, n, spec, values) ==>
              && Accepted(spec) && Allocatable(n) && !Saturates(n, spec) && |values| == n
              && var b := BitsPerValue(spec).value;
                 && |packed| == ByteLen(n, b)
                 && if spec.ContinuousRange?
                    then b == 32 && |packed| == 4 * n && DecodeAll(Words(packed, n), spec) == Ok(values)
                    else 1 <= b <= 8 && Below(Fields(packed, n, b), 0x1_0000_0000)
                         && DecodeAll(Fields(packed, n, b), spec) == Ok(values)
  {
    if Unpacks(packed, n, spec, values) {
      WidthRange(spec);
      FieldsFit(spec);
      if Saturates(n, spec) {
        ByteLenSaturated(n, spec);
      } else {
        ByteLenExact(n, spec);
      }
    }
  }

  /** A payload of the exact length is decoded word by word or field by field. */
  lemma UnpackExact(packed: seq<Byte>, n: nat, spec: Spec)
    requires Accepted(spec)
    ensures Allocatable(n) && !Saturates(n, spec) && |packed| == ByteLen(n, BitsPerValue(spec).value) ==>
              var b := BitsPerValue(spec).value;
              if spec.ContinuousRange?
              then |packed| == 4 * n && UnpackSpec(packed, n, spec) == Returned(DecodeAll(Words(packed, n), spec))
              else && 1 <= b <= 8 && Below(Fields(packed, n, b), 0x1_0000_0000)
                   && UnpackSpec(packed, n, spec) == Returned(DecodeAll(Fields(packed, n, b), spec))
  {
    ByteLenExact(n, spec);
    WidthRange(spec);
    FieldsFit(spec);
  }

  /** Any other length is refused, and the error says what was expected and what
      came. */
  lemma UnpackRefusesLength(packed: seq<Byte>, n: nat, spec: Spec)
    requires Accepted(spec)
    ensures var expected := if Saturates(n, spec) then USIZE_MAX / 8 else ByteLen(n, BitsPerValue(spec).value);
            Allocatable(n) && |packed| != expected ==>
              UnpackSpec(packed, n, spec)
              == Returned(Err(PackedSolutionLengthMismatch(expectedBytes := expected, actualBytes := |packed|)))
  {
    ByteLenExact(n, spec);
    ByteLenSaturated(n, spec);
  }

  lemma FieldsFit(spec: Spec)
    requires Accepted(spec)
    ensures Pow(2, BitsPerValue(spec).value) <= 0x1_0000_0000
  {
    WidthRange(spec);
    PowMono(2, BitsPerValue(spec).value, 32);
    Pow32();
  }
}
