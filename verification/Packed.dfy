/** Bit-packed solution payloads.

    A payload of n indexed values of b bits is the base-256 spelling of the
    number whose base-2^b digits are the encoded values, so packing and
    unpacking are conversions between two radices. The methods do it with
    shifts, masks and ORs on a byte buffer. */
module Packed {
  import opened Common
  import opened Radix
  import opened PuzzleSpec

  /** Bytes needed for n values of b bits. */
  function ByteLen(n: nat, b: nat): nat {
    (n * b + 7) / 8
  }

  /** `packed_solution_byte_len`, with both operations saturating. */
  function PackedByteLen(n: nat, spec: Spec): Result<nat, ValidationError> {
    var bits := BitsPerValue(spec);
    if bits.Err? then Err(bits.error)
    else Ok(Min(Min(n * bits.value, USIZE_MAX) + 7, USIZE_MAX) / 8)
  }

  lemma WidthRange(spec: Spec)
    requires Accepted(spec)
    ensures spec.ContinuousRange? <==> BitsPerValue(spec).value == 32
    ensures 1 <= BitsPerValue(spec).value <= 32
    ensures !spec.ContinuousRange? ==> BitsPerValue(spec).value <= 8
  {
    match spec
    case Set(values) => BitsForCountCeilLog2(|values|);
    case IntegerRange(lo, hi) => BitsForCountCeilLog2(hi - lo + 1);
    case ContinuousRange(min, max) =>
  }

  /** A vector of n 32-bit values can exist: no allocation exceeds `isize::MAX`
      bytes. */
  predicate Allocatable(n: nat) {
    4 * n <= USIZE_MAX / 2
  }

  /** A slice of spins. */
  type Spins = s: seq<I32> | Allocatable(|s|)

  /** The bit count of n values saturates; only 32-bit values can get there. */
  predicate Saturates(n: nat, spec: Spec) {
    spec.ContinuousRange? && 32 * n > USIZE_MAX
  }

  /** Below saturation the length is exact. */
  lemma ByteLenExact(n: nat, spec: Spec)
    requires Accepted(spec)
    ensures Allocatable(n) && !Saturates(n, spec) ==>
              && PackedByteLen(n, spec) == Ok(ByteLen(n, BitsPerValue(spec).value))
              && (spec.ContinuousRange? ==> ByteLen(n, BitsPerValue(spec).value) == 4 * n)
  {
    WidthRange(spec);
    var b := BitsPerValue(spec).value;
    if !spec.ContinuousRange? {
      MulMono(b, 8, n);
    }
  }

  /** A saturated length is too short for the values. */
  lemma ByteLenSaturated(n: nat, spec: Spec)
    requires Accepted(spec)
    ensures Saturates(n, spec) ==> PackedByteLen(n, spec) == Ok(USIZE_MAX / 8) && USIZE_MAX / 8 < 4 * n
  {
    WidthRange(spec);
  }

  // ---------------------------------------------------------------- specification

  /** Encode from left to right, stopping at the first error. */
  function EncodeAll(spins: seq<I32>, spec: Spec): (r: Result<seq<nat>, ValidationError>)
    requires Accepted(spec)
    ensures r.Ok? ==> |r.value| == |spins|
  {
    if spins == [] then Ok([])
    else
      var k := |spins| - 1;
      var init := EncodeAll(spins[..k], spec);
      if init.Err? then init
      else
        var last := EncodeValue(spec, spins[k]);
        if last.Err? then Err(last.error) else Ok(init.value + [last.value])
  }

  /** Decode from left to right, stopping at the first error. */
  function DecodeAll(raws: seq<nat>, spec: Spec): (r: Result<seq<I32>, ValidationError>)
    requires Below(raws, 0x1_0000_0000)
    ensures r.Ok? ==> |r.value| == |raws|
  {
    if raws == [] then Ok([])
    else
      var k := |raws| - 1;
      var init := DecodeAll(raws[..k], spec);
      if init.Err? then init
      else
        var last := DecodeValue(spec, raws[k]);
        if last.Err? then Err(last.error) else Ok(init.value + [last.value])
  }

  /** `u32::to_be_bytes`. */
  function BigEndian(raw: U32): seq<Byte> {
    [raw / 0x100_0000, raw / 0x1_0000 % 256, raw / 0x100 % 256, raw % 256]
  }

  /** `u32::from_be_bytes`. */
  function FromBigEndian(bytes: seq<Byte>): U32
    requires |bytes| == 4
  {
    var b0: int, b1: int, b2: int, b3: int := bytes[0], bytes[1], bytes[2], bytes[3];
    ((b0 * 256 + b1) * 256 + b2) * 256 + b3
  }

  lemma BigEndianThenBack(raw: U32)
    ensures FromBigEndian(BigEndian(raw)) == raw
  {
    DivDiv(raw, 0x100, 0x100);
    DivDiv(raw, 0x1_0000, 0x100);
  }

  lemma FromBigEndianThenBack(bytes: seq<Byte>)
    requires |bytes| == 4
    ensures BigEndian(FromBigEndian(bytes)) == bytes
  {
    var b0: nat, b1: nat, b2: nat, b3: nat := bytes[0], bytes[1], bytes[2], bytes[3];
    var x := b0 * 256 + b1;
    var y := x * 256 + b2;
    var z := y * 256 + b3;
    DivMod(b0, b1, 256);
    DivMod(x, b2, 256);
    DivMod(y, b3, 256);
    DivDiv(z, 0x100, 0x100);
    DivDiv(z, 0x1_0000, 0x100);
  }

  function BigEndianAll(spins: seq<I32>): (bytes: seq<Byte>)
    ensures |bytes| == 4 * |spins|
  {
    if spins == [] then []
    else BigEndianAll(spins[..|spins| - 1]) + BigEndian(AsU32(spins[|spins| - 1]))
  }

  /** The n big-endian words of a payload. */
  function Words(packed: seq<Byte>, n: nat): (raws: seq<nat>)
    requires |packed| == 4 * n
    ensures |raws| == n && Below(raws, 0x1_0000_0000)
  {
    seq(n, i requires 0 <= i < n => FromBigEndian(packed[4 * i..4 * i + 4]))
  }

  /** Base-256 spelling of the number with the given base-2^b digits. */
  function Respell(raws: seq<nat>, b: nat): (bytes: seq<Byte>)
    ensures |bytes| == ByteLen(|raws|, b)
  {
    ToDigits(FromDigits(raws, Pow(2, b)), 256, ByteLen(|raws|, b))
  }

  /** The first n base-2^b digits of the number a payload spells in base 256. */
  function Fields(packed: seq<Byte>, n: nat, b: nat): (raws: seq<nat>)
    ensures |raws| == n && Below(raws, Pow(2, b))
  {
    PowPositive(2, b);
    ToDigits(FromDigits(packed, 256), Pow(2, b), n)
  }
}
