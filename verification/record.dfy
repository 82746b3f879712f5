/**
 * The runtime record types: `Field`, a tagged union of typed element
 * vectors, and `DynRecord`, an ordered list of fields; schema consistency,
 * coordinate extraction, and the static record facts (`is_dynamic`,
 * `read_spec`) of the primitive types.
 */
module Record {
  import opened Wrappers
  import opened Metas

  /** One field of a point: the values of one kind, in order. */
  datatype Field =
    | I8(i8s: seq<Int8>)
    | I16(i16s: seq<Int16>)
    | I32(i32s: seq<Int32>)
    | U8(u8s: seq<UInt8>)
    | U16(u16s: seq<UInt16>)
    | U32(u32s: seq<UInt32>)
    | F32(f32s: seq<F32Bits>)
    | F64(f64s: seq<F64Bits>)
  {
    /** `Field::kind`: the kind tag of the variant. */
    function Kind(): ValueKind
    {
      match this
      case I8(_) => ValueKind.I8
      case I16(_) => ValueKind.I16
      case I32(_) => ValueKind.I32
      case U8(_) => ValueKind.U8
      case U16(_) => ValueKind.U16
      case U32(_) => ValueKind.U32
      case F32(_) => ValueKind.F32
      case F64(_) => ValueKind.F64
    }

    /** The contained values, each as a number of the field's kind. */
    function Values(): (vs: seq<int>)
      ensures AllInRange(Kind(), vs)
    {
      match this
      case I8(xs) => xs
      case I16(xs) => xs
      case I32(xs) => xs
      case U8(xs) => xs
      case U16(xs) => xs
      case U32(xs) => xs
      case F32(xs) => xs
      case F64(xs) => xs
    }

    /** `Field::count`: the length of the contained vector. */
    function Count(): (n: nat)
      ensures n == |Values()|
    {
      match this
      case I8(xs) => |xs|
      case I16(xs) => |xs|
      case I32(xs) => |xs|
      case U8(xs) => |xs|
      case U16(xs) => |xs|
      case U32(xs) => |xs|
      case F32(xs) => |xs|
      case F64(xs) => |xs|
    }
  }

  /** The field of kind `k` holding `vs`: the variant a decoder builds. */
  function MakeField(k: ValueKind, vs: seq<int>): (f: Field)
    requires AllInRange(k, vs)
    ensures f.Kind() == k && f.Values() == vs && f.Count() == |vs|
  {
    match k
    case I8 => Field.I8(vs)
    case I16 => Field.I16(vs)
    case I32 => Field.I32(vs)
    case U8 => Field.U8(vs)
    case U16 => Field.U16(vs)
    case U32 => Field.U32(vs)
    case F32 => Field.F32(vs)
    case F64 => Field.F64(vs)
  }

  /** A field is determined by its kind and its values. */
  lemma MakeFieldOfParts(f: Field)
    ensures MakeField(f.Kind(), f.Values()) == f
  {
  }

  /** `DynRecord`: one point as an ordered list of fields. */
  datatype DynRecord = DynRecord(fields: seq<Field>)

  /** The per-position test of `is_schema_consistent`: count first, then the variant/kind pair. */
  predicate FieldMatches(f: Field, def: FieldDef)
  {
    if f.Count() != def.count then false
    else
      match (f, def.kind)
      case (I8(_), I8) => true
      case (I16(_), I16) => true
      case (I32(_), I32) => true
      case (U8(_), U8) => true
      case (U16(_), U16) => true
      case (U32(_), U32) => true
      case (F32(_), F32) => true
      case (F64(_), F64) => true
      case _ => false
  }

  /** `zip(..).all(..)` over fields and descriptors of equal length. */
  predicate AllMatch(fields: seq<Field>, schema: Schema)
    requires |fields| == |schema|
  {
    |fields| == 0 || (FieldMatches(fields[0], schema[0]) && AllMatch(fields[1..], schema[1..]))
  }

  /** `DynRecord::is_schema_consistent`. */
  predicate IsSchemaConsistent(r: DynRecord, schema: Schema)
  {
    |r.fields| == |schema| && AllMatch(r.fields, schema)
  }

  /** Consistency position by position: same kind and same count everywhere. */
  predicate Conforms(fields: seq<Field>, schema: Schema)
  {
    && |fields| == |schema|
    && forall i :: 0 <= i < |fields| ==> fields[i].Kind() == schema[i].kind && fields[i].Count() == schema[i].count
  }

  lemma FieldMatchesIff(f: Field, def: FieldDef)
    ensures FieldMatches(f, def) <==> f.Kind() == def.kind && f.Count() == def.count
  {
  }

  lemma {:induction false} AllMatchIff(fields: seq<Field>, schema: Schema)
    requires |fields| == |schema|
    ensures AllMatch(fields, schema) <==> Conforms(fields, schema)
  {
    if |fields| > 0 {
      AllMatchIff(fields[1..], schema[1..]);
      FieldMatchesIff(fields[0], schema[0]);
      if Conforms(fields, schema) {
        assert Conforms(fields[1..], schema[1..]) by {
          forall i | 0 <= i < |fields| - 1
            ensures fields[1..][i].Kind() == schema[1..][i].kind && fields[1..][i].Count() == schema[1..][i].count
          {
            assert fields[1..][i] == fields[i + 1];
          }
        }
      }
      if AllMatch(fields, schema) {
        forall i | 0 <= i < |fields|
          ensures fields[i].Kind() == schema[i].kind && fields[i].Count() == schema[i].count
        {
          if i > 0 {
            assert fields[i] == fields[1..][i - 1];
          }
        }
      }
    }
  }

  /**
   * `is_schema_consistent` holds exactly when the record has one field per
   * descriptor and each field has the descriptor's kind and count.
   */
  lemma SchemaConsistentIff(r: DynRecord, schema: Schema)
    ensures IsSchemaConsistent(r, schema) <==> Conforms(r.fields, schema)
  {
    if |r.fields| == |schema| {
      AllMatchIff(r.fields, schema);
    }
  }

  /** A numeric conversion such as `FromPrimitive::from_i32`: the target value, or none. */
  type Conversion<T> = (ValueKind, int) -> Option<T>

  /** The first three fields share a kind and each holds a value, so `xyz` does not panic. */
  predicate HasXyz(r: DynRecord)
  {
    && |r.fields| >= 3
    && r.fields[0].Kind() == r.fields[1].Kind() == r.fields[2].Kind()
    && r.fields[0].Count() > 0 && r.fields[1].Count() > 0 && r.fields[2].Count() > 0
  }

  /**
   * `DynRecord::xyz`: the first element of each of the first three fields,
   * converted; all three conversions must succeed, otherwise there is no value.
   */
  function Xyz<T>(r: DynRecord, convert: Conversion<T>): (res: Option<seq<T>>)
    requires HasXyz(r)
    ensures var k := r.fields[0].Kind();
            res.Some? <==> (forall j :: 0 <= j < 3 ==> convert(k, r.fields[j].Values()[0]).Some?)
    ensures res.Some? ==> |res.value| == 3
    ensures res.Some? ==>
              forall j :: 0 <= j < 3 ==> res.value[j] == convert(r.fields[0].Kind(), r.fields[j].Values()[0]).value
  {
    var k := r.fields[0].Kind();
    var x := convert(k, r.fields[0].Values()[0]);
    var y := convert(k, r.fields[1].Values()[0]);
    var z := convert(k, r.fields[2].Values()[0]);
    if x.Some? && y.Some? && z.Some? then Some([x.value, y.value, z.value]) else None
  }

  /** `FromPrimitive` into an integer kind: the same number when it fits, else nothing. */
  function ExactInto(target: ValueKind): Conversion<int>
    requires !IsFloat(target)
  {
    (k: ValueKind, v: int) => if InRange(target, v) then Some(v) else None
  }

  /**
   * Converting integer coordinates into an integer type yields a value exactly
   * when all three fit, and then the very numbers stored.
   */
  lemma XyzExactInto(r: DynRecord, target: ValueKind)
    requires HasXyz(r) && !IsFloat(r.fields[0].Kind()) && !IsFloat(target)
    ensures Xyz(r, ExactInto(target)).Some?
            <==> forall j :: 0 <= j < 3 ==> InRange(target, r.fields[j].Values()[0])
    ensures Xyz(r, ExactInto(target)).Some? ==>
            Xyz(r, ExactInto(target)).value == [r.fields[0].Values()[0], r.fields[1].Values()[0], r.fields[2].Values()[0]]
  {
  }

  // ------------------------------------------------- static record facts

  /** `is_dynamic` of a primitive numeric type. */
  function PrimitiveIsDynamic(k: ValueKind): (dynamic: bool)
    ensures !dynamic
  {
    false
  }

  /** `is_dynamic` of `DynRecord`. */
  function DynRecordIsDynamic(): (dynamic: bool)
    ensures dynamic
  {
    true
  }

  /** `read_spec` of a primitive numeric type: one unnamed descriptor of its own kind, count 1. */
  function PrimitiveReadSpec(k: ValueKind): (spec: seq<ReadSpecEntry>)
    ensures |spec| == 1
    ensures spec[0].name.None? && spec[0].kind == k && spec[0].count == Some(1)
  {
    [ReadSpecEntry(None, k, Some(1))]
  }

  /** The schema a primitive's `read_spec` describes, with the name a file gives it. */
  function PrimitiveSchema(k: ValueKind, name: string): (schema: Schema)
    ensures |schema| == 1 && schema[0].kind == PrimitiveReadSpec(k)[0].kind
    ensures Some(schema[0].count) == PrimitiveReadSpec(k)[0].count
  {
    [FieldDef(name, k, 1)]
  }
}
