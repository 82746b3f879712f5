/**
 * Header-level vocabulary of the point-cloud format: the eight value kinds,
 * their byte widths and value ranges, field descriptors and schemas.
 * (The crate defines these in its `metas` module, which is not part of this
 * model; only their shape as consumed by the record codec and the writer is.)
 */
module Metas {
  import opened Wrappers

  /** The eight primitive element kinds (`ValueKind`). */
  datatype ValueKind = I8 | I16 | I32 | U8 | U16 | U32 | F32 | F64

  type Int8 = x: int | -0x80 <= x < 0x80
  type Int16 = x: int | -0x8000 <= x < 0x8000
  type Int32 = x: int | -0x8000_0000 <= x < 0x8000_0000
  type UInt8 = x: int | 0 <= x < 0x100
  type UInt16 = x: int | 0 <= x < 0x1_0000
  type UInt32 = x: int | 0 <= x < 0x1_0000_0000
  /** An `f32` is carried as its IEEE-754 bit pattern; the model never interprets it. */
  type F32Bits = x: int | 0 <= x < 0x1_0000_0000
  /** An `f64` is carried as its IEEE-754 bit pattern; the model never interprets it. */
  type F64Bits = x: int | 0 <= x < 0x1_0000_0000_0000_0000

  type Byte = UInt8

  /** Largest value of a 64-bit `usize`. */
  const UsizeMax: nat := 0xFFFF_FFFF_FFFF_FFFF

  /** Number of bytes one value of kind `k` occupies in a binary chunk. */
  function Width(k: ValueKind): nat
  {
    match k
    case I8 | U8 => 1
    case I16 | U16 => 2
    case I32 | U32 | F32 => 4
    case F64 => 8
  }

  predicate IsSigned(k: ValueKind)
  {
    k == I8 || k == I16 || k == I32
  }

  predicate IsFloat(k: ValueKind)
  {
    k == F32 || k == F64
  }

  /** Number of distinct bit patterns of kind `k`, that is 2^(8 * Width(k)). */
  function Bound(k: ValueKind): nat
  {
    match k
    case I8 | U8 => 0x100
    case I16 | U16 => 0x1_0000
    case I32 | U32 | F32 => 0x1_0000_0000
    case F64 => 0x1_0000_0000_0000_0000
  }

  function MinValue(k: ValueKind): int
  {
    if IsSigned(k) then -(Bound(k) / 2) else 0
  }

  function MaxValue(k: ValueKind): int
  {
    if IsSigned(k) then Bound(k) / 2 - 1 else Bound(k) - 1
  }

  /** `v` is a value of kind `k` (a bit pattern, for the float kinds). */
  predicate InRange(k: ValueKind, v: int)
  {
    MinValue(k) <= v <= MaxValue(k)
  }

  predicate AllInRange(k: ValueKind, vs: seq<int>)
  {
    forall i :: 0 <= i < |vs| ==> InRange(k, vs[i])
  }

  /** One column group of a point: name, element kind and element count. */
  datatype FieldDef = FieldDef(name: string, kind: ValueKind, count: nat)

  /** Ordered field descriptors; order is the physical layout of a point. */
  type Schema = seq<FieldDef>

  /** An entry of `read_spec`: optional name, kind, optional count. */
  datatype ReadSpecEntry = ReadSpecEntry(name: Option<string>, kind: ValueKind, count: Option<nat>)

  /** Sum of all element counts of a schema: the number of tokens on an ASCII line. */
  function TotalCount(schema: Schema): nat
  {
    if |schema| == 0 then 0 else schema[0].count + TotalCount(schema[1..])
  }

  /** Bytes taken by `count` values of kind `k` laid end to end. */
  function Span(k: ValueKind, count: nat): nat
  {
    if count == 0 then 0 else Width(k) + Span(k, count - 1)
  }

  lemma {:induction false} SpanIsProduct(k: ValueKind, count: nat)
    ensures Span(k, count) == count * Width(k)
  {
    if count > 0 {
      SpanIsProduct(k, count - 1);
    }
  }

  /** Sum of `count * width` over a schema: the size of one binary chunk. */
  function ChunkSize(schema: Schema): nat
  {
    if |schema| == 0 then 0 else Span(schema[0].kind, schema[0].count) + ChunkSize(schema[1..])
  }

  /** Whether the body holds ASCII lines or binary chunks. */
  datatype DataKind = Ascii | Binary

  /** Sensor pose written verbatim in the header: translation then quaternion. */
  datatype ViewPoint = ViewPoint(tx: F64Bits, ty: F64Bits, tz: F64Bits,
                                 qw: F64Bits, qx: F64Bits, qy: F64Bits, qz: F64Bits)
}
