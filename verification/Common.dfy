/** Vocabulary shared by every component: options, results, machine limits and
    the validation errors of the quantum-validation crate. */
module Common {
  datatype Option<+T> = None | Some(value: T)

  datatype Result<+T, +E> = Ok(value: T) | Err(error: E)

  /** What a call that may panic ends in. */
  datatype Outcome<+T> = Panicked | Returned(value: T)

  const I32_MIN: int := -0x8000_0000
  const I32_MAX: int := 0x7FFF_FFFF
  const U32_MAX: int := 0xFFFF_FFFF
  const I64_MIN: int := -0x8000_0000_0000_0000
  const I64_MAX: int := 0x7FFF_FFFF_FFFF_FFFF
  const U64_MAX: int := 0xFFFF_FFFF_FFFF_FFFF
  const U128_MAX: int := 0xFFFF_FFFF_FFFF_FFFF_FFFF_FFFF_FFFF_FFFF

  /** The largest `usize`: a native node has 64 bits, the wasm runtime 32. Nothing
      is assumed about which of the two it is. */
  type UsizeMax = m: int | m == U32_MAX || m == U64_MAX witness U32_MAX
  const USIZE_MAX: UsizeMax

  /** Fixed-point scale: 1000 means 1.0. */
  const MILLI_SCALE: int := 1000

  type Byte = b: nat | b < 256

  datatype ValidationError =
    | EmptyNodes
    | EmptyFieldValues
    | EmptyAllowedValues
    | InvalidEncodedValue(raw: int)
    | EncodingTooWide(bits: nat)
    | PackedSolutionLengthMismatch(expectedBytes: nat, actualBytes: nat)
    | SolutionLengthMismatch(expected: nat, actual: nat)
    | FieldLengthMismatch(expectedFields: nat, actualFields: nat)
    | EdgeWeightLengthMismatch(edges: nat, weights: nat)
    | InvalidSpinValue(index: nat, value: int)
    | DuplicateNode(node: int)
    | UnknownNodeInEdge(endpoint: int)
    | ArithmeticOverflow

  function Min(a: int, b: int): int {
    if a <= b then a else b
  }

  function Max(a: int, b: int): int {
    if a <= b then b else a
  }

  /** No element twice. */
  predicate Distinct<T(==)>(s: seq<T>) {
    forall i, j :: 0 <= i < j < |s| ==> s[i] != s[j]
  }

  /** Position of the first occurrence, as a linear scan finds it. */
  function FirstIndex<T(==)>(s: seq<T>, x: T): (k: nat)
    requires x in s
    ensures k < |s| && s[k] == x && x !in s[..k]
  {
    if s[0] == x then 0
    else
      assert s == [s[0]] + s[1..];
      var k := 1 + FirstIndex(s[1..], x);
      assert s[..k] == [s[0]] + s[1..][..k - 1];
      k
  }
}
