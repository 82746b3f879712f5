/**
 * Binary form of a record (`write_chunk` / `read_chunk`): the values of
 * every field, in schema order, each as `Width(kind)` little-endian bytes,
 * with no padding.
 */
module RecordBinary {
  import opened Wrappers
  import opened Metas
  import opened Errors
  import opened LittleEndian
  import opened Record

  /** What `write_chunk` and `write_line` bail with on a schema-inconsistent record. */
  const InconsistentRecordMessage: string := "The content of record does not match the writer schema."

  /** The values of one field, one after the other. */
  function EncodeValues(k: ValueKind, vs: seq<int>): (bs: seq<Byte>)
    requires AllInRange(k, vs)
    ensures |bs| == Span(k, |vs|)
  {
    if |vs| == 0 then [] else EncodeScalar(k, vs[0]) + EncodeValues(k, vs[1..])
  }

  /** Value `i` of a field occupies bytes `Span(k, i)` up to `Span(k, i + 1)`, in the order of the values. */
  lemma {:induction false} EncodeValuesAt(k: ValueKind, vs: seq<int>, i: nat)
    requires AllInRange(k, vs) && i < |vs|
    ensures Span(k, i + 1) <= |EncodeValues(k, vs)|
    ensures EncodeValues(k, vs)[Span(k, i)..Span(k, i + 1)] == EncodeScalar(k, vs[i])
  {
    var head := EncodeScalar(k, vs[0]);
    var tail := EncodeValues(k, vs[1..]);
    assert EncodeValues(k, vs) == head + tail;
    if i > 0 {
      EncodeValuesAt(k, vs[1..], i - 1);
      assert vs[1..][i - 1] == vs[i];
      SliceAfter(head, tail, Span(k, i), Span(k, i + 1));
    }
  }

  /** A slice lying past the end of `a` is a slice of `b`. */
  lemma SliceAfter<T>(a: seq<T>, b: seq<T>, lo: nat, hi: nat)
    requires |a| <= lo <= hi <= |a| + |b|
    ensures (a + b)[lo..hi] == b[lo - |a|..hi - |a|]
  {
  }

  /** The fields one after the other, in order. */
  function EncodeFields(fields: seq<Field>): seq<Byte>
  {
    if |fields| == 0 then []
    else EncodeValues(fields[0].Kind(), fields[0].Values()) + EncodeFields(fields[1..])
  }

  lemma {:induction false} EncodeFieldsLength(fields: seq<Field>, schema: Schema)
    requires Conforms(fields, schema)
    ensures |EncodeFields(fields)| == ChunkSize(schema)
  {
    if |fields| > 0 {
      assert Conforms(fields[1..], schema[1..]) by {
        forall i | 0 <= i < |fields| - 1
          ensures fields[1..][i].Kind() == schema[1..][i].kind && fields[1..][i].Count() == schema[1..][i].count
        {
          assert fields[1..][i] == fields[i + 1];
        }
      }
      EncodeFieldsLength(fields[1..], schema[1..]);
    }
  }

  /**
   * `DynRecord::write_chunk`: nothing but an error when the record does not
   * conform to the schema; otherwise exactly `ChunkSize(schema)` bytes.
   */
  function WriteChunk(r: DynRecord, schema: Schema): (res: Result<seq<Byte>, Error>)
    ensures res.Success? <==> IsSchemaConsistent(r, schema)
    ensures res.Failure? ==> res.error == Bail(InconsistentRecordMessage)
    ensures res.Success? ==> |res.value| == ChunkSize(schema)
  {
    if !IsSchemaConsistent(r, schema) then Failure(Bail(InconsistentRecordMessage))
    else
      SchemaConsistentIff(r, schema);
      EncodeFieldsLength(r.fields, schema);
      Success(EncodeFields(r.fields))
  }

  /**
   * `read_<kind>::<LittleEndian>()`: one value from the front of the input, or
   * an early end of input when fewer than `Width(k)` bytes remain. This is
   * also the whole of a primitive type's `read_chunk`.
   */
  function ReadScalar(k: ValueKind, input: seq<Byte>): (res: Result<(int, seq<Byte>), Error>)
    ensures res.Success? <==> |input| >= Width(k)
    ensures res.Failure? ==> res.error == UnexpectedEof
    ensures res.Success? ==> InRange(k, res.value.0) && res.value.1 == input[Width(k)..]
    ensures res.Success? ==> EncodeScalar(k, res.value.0) == input[..Width(k)]
  {
    if |input| < Width(k) then Failure(UnexpectedEof)
    else
      EncodeDecodeScalar(k, input[..Width(k)]);
      Success((DecodeScalar(k, input[..Width(k)]), input[Width(k)..]))
  }

  /** `count` values of kind `k` from the front of the input. */
  function ReadValues(k: ValueKind, count: nat, input: seq<Byte>): (res: Result<(seq<int>, seq<Byte>), Error>)
    ensures res.Success? <==> |input| >= Span(k, count)
    ensures res.Failure? ==> res.error == UnexpectedEof
    ensures res.Success? ==> |res.value.0| == count && AllInRange(k, res.value.0)
    ensures res.Success? ==> res.value.1 == input[Span(k, count)..]
  {
    if count == 0 then Success(([], input))
    else
      match ReadScalar(k, input)
      case Failure(e) => Failure(e)
      case Success((v, rest)) =>
        match ReadValues(k, count - 1, rest)
        case Failure(e) => Failure(e)
        case Success((vs, rest')) => Success(([v] + vs, rest'))
  }

  /** The fields of a schema, in order, from the front of the input. */
  function ReadFields(schema: Schema, input: seq<Byte>): (res: Result<(seq<Field>, seq<Byte>), Error>)
    ensures res.Success? <==> |input| >= ChunkSize(schema)
    ensures res.Failure? ==> res.error == UnexpectedEof
    ensures res.Success? ==> Conforms(res.value.0, schema) && res.value.1 == input[ChunkSize(schema)..]
  {
    if |schema| == 0 then Success(([], input))
    else
      var def := schema[0];
      var m := Span(def.kind, def.count);
      assert ChunkSize(schema) == m + ChunkSize(schema[1..]);
      match ReadValues(def.kind, def.count, input)
      case Failure(e) => Failure(e)
      case Success((vs, rest)) =>
        assert rest == input[m..];
        match ReadFields(schema[1..], rest)
        case Failure(e) => Failure(e)
        case Success((fs, rest')) =>
          var f := MakeField(def.kind, vs);
          ConformsCons(f, fs, schema);
          DropDrop(input, m, ChunkSize(schema[1..]));
          Success(([f] + fs, rest'))
  }

  lemma DropDrop<T>(s: seq<T>, a: nat, b: nat)
    requires a + b <= |s|
    ensures s[a..][b..] == s[a + b..]
  {
  }

  lemma TakeSplit<T>(s: seq<T>, a: nat, b: nat)
    requires a + b <= |s|
    ensures s[..a + b] == s[..a] + s[a..][..b]
  {
  }

  lemma ConformsCons(f: Field, fs: seq<Field>, schema: Schema)
    requires |schema| > 0
    requires f.Kind() == schema[0].kind && f.Count() == schema[0].count
    requires Conforms(fs, schema[1..])
    ensures Conforms([f] + fs, schema)
  {
    forall i | 0 <= i < |schema|
      ensures ([f] + fs)[i].Kind() == schema[i].kind && ([f] + fs)[i].Count() == schema[i].count
    {
      if i > 0 {
        assert ([f] + fs)[i] == fs[i - 1];
        assert schema[i] == schema[1..][i - 1];
      }
    }
  }

  lemma ConformsTail(fs: seq<Field>, schema: Schema)
    requires |schema| > 0
    requires Conforms(fs, schema)
    ensures Conforms(fs[1..], schema[1..])
  {
    forall i | 0 <= i < |fs| - 1
      ensures fs[1..][i].Kind() == schema[1..][i].kind && fs[1..][i].Count() == schema[1..][i].count
    {
      assert fs[1..][i] == fs[i + 1];
    }
  }

  /**
   * `DynRecord::read_chunk`: succeeds exactly when the input holds a whole
   * chunk, consumes exactly that chunk, and yields a record consistent with
   * the schema.
   */
  function ReadChunk(input: seq<Byte>, schema: Schema): (res: Result<(DynRecord, seq<Byte>), Error>)
    ensures res.Success? <==> |input| >= ChunkSize(schema)
    ensures res.Failure? ==> res.error == UnexpectedEof
    ensures res.Success? ==> IsSchemaConsistent(res.value.0, schema)
    ensures res.Success? ==> res.value.1 == input[ChunkSize(schema)..]
  {
    match ReadFields(schema, input)
    case Failure(e) => Failure(e)
    case Success((fs, rest)) =>
      SchemaConsistentIff(DynRecord(fs), schema);
      Success((DynRecord(fs), rest))
  }

  // ------------------------------------------------------------ round trips

  lemma {:induction false} ReadValuesOfEncoded(k: ValueKind, vs: seq<int>, rest: seq<Byte>)
    requires AllInRange(k, vs)
    ensures ReadValues(k, |vs|, EncodeValues(k, vs) + rest) == Success((vs, rest))
  {
    if |vs| > 0 {
      var input := EncodeValues(k, vs) + rest;
      var tail := EncodeValues(k, vs[1..]) + rest;
      assert input == EncodeScalar(k, vs[0]) + tail;
      assert input[..Width(k)] == EncodeScalar(k, vs[0]);
      assert input[Width(k)..] == tail;
      DecodeEncodeScalar(k, vs[0]);
      ReadValuesOfEncoded(k, vs[1..], rest);
      assert [vs[0]] + vs[1..] == vs;
    }
  }

  /** One step of `ReadFields`: the first field's values, then the rest of the schema. */
  lemma ReadFieldsCons(schema: Schema, input: seq<Byte>, vs: seq<int>, mid: seq<Byte>, fs: seq<Field>, rest: seq<Byte>)
    requires |schema| > 0
    requires ReadValues(schema[0].kind, schema[0].count, input) == Success((vs, mid))
    requires ReadFields(schema[1..], mid) == Success((fs, rest))
    ensures ReadFields(schema, input) == Success(([MakeField(schema[0].kind, vs)] + fs, rest))
  {
  }

  lemma {:induction false} ReadFieldsOfEncoded(fields: seq<Field>, schema: Schema, rest: seq<Byte>)
    requires Conforms(fields, schema)
    ensures ReadFields(schema, EncodeFields(fields) + rest) == Success((fields, rest))
  {
    if |fields| > 0 {
      var f := fields[0];
      var input := EncodeFields(fields) + rest;
      var tail := EncodeFields(fields[1..]) + rest;
      assert input == EncodeValues(f.Kind(), f.Values()) + tail;
      ReadValuesOfEncoded(f.Kind(), f.Values(), tail);
      ConformsTail(fields, schema);
      ReadFieldsOfEncoded(fields[1..], schema[1..], rest);
      ReadFieldsCons(schema, input, f.Values(), tail, fields[1..], rest);
      MakeFieldOfParts(f);
      assert [f] + fields[1..] == fields;
    }
  }

  /**
   * Binary round trip: reading back what `write_chunk` wrote yields the same
   * record and leaves exactly the bytes that followed the chunk.
   */
  lemma ChunkRoundTrip(r: DynRecord, schema: Schema, rest: seq<Byte>)
    requires WriteChunk(r, schema).Success?
    ensures ReadChunk(WriteChunk(r, schema).value + rest, schema) == Success((r, rest))
  {
    SchemaConsistentIff(r, schema);
    ReadFieldsOfEncoded(r.fields, schema, rest);
  }

  /**
   * The other direction: every chunk is the encoding of the record read from
   * it, so the binary form of a schema is one-to-one.
   */
  lemma ChunkReencode(input: seq<Byte>, schema: Schema)
    requires |input| >= ChunkSize(schema)
    ensures WriteChunk(ReadChunk(input, schema).value.0, schema) == Success(input[..ChunkSize(schema)])
  {
    EncodeOfReadFields(schema, input);
  }

  /** One step of `ReadValues`: a scalar from the front, then the remaining values. */
  lemma ReadValuesCons(k: ValueKind, count: nat, input: seq<Byte>)
    requires count > 0 && |input| >= Span(k, count)
    ensures ReadValues(k, count, input).value.0
            == [ReadScalar(k, input).value.0] + ReadValues(k, count - 1, input[Width(k)..]).value.0
  {
  }

  lemma {:induction false} EncodeOfReadValues(k: ValueKind, count: nat, input: seq<Byte>)
    requires |input| >= Span(k, count)
    ensures EncodeValues(k, ReadValues(k, count, input).value.0) == input[..Span(k, count)]
  {
    if count > 0 {
      var w := Width(k);
      var n := Span(k, count - 1);
      var rest := input[w..];
      var v := ReadScalar(k, input).value.0;
      var vs := ReadValues(k, count - 1, rest).value.0;
      assert ReadValues(k, count, input).value.0 == [v] + vs by {
        ReadValuesCons(k, count, input);
      }
      assert EncodeValues(k, vs) == rest[..n] by {
        assert |rest| >= n;
        EncodeOfReadValues(k, count - 1, rest);
      }
      assert EncodeValues(k, [v] + vs) == EncodeScalar(k, v) + EncodeValues(k, vs) by {
        assert ([v] + vs)[1..] == vs;
      }
      TakeSplit(input, w, n);
    }
  }

  lemma {:induction false} EncodeOfReadFields(schema: Schema, input: seq<Byte>)
    requires |input| >= ChunkSize(schema)
    ensures EncodeFields(ReadFields(schema, input).value.0) == input[..ChunkSize(schema)]
  {
    if |schema| > 0 {
      var def := schema[0];
      var m := Span(def.kind, def.count);
      var rv := ReadValues(def.kind, def.count, input).value;
      var rf := ReadFields(schema[1..], rv.1).value;
      var f := MakeField(def.kind, rv.0);
      assert ReadFields(schema, input).value.0 == [f] + rf.0;
      EncodeOfReadValues(def.kind, def.count, input);
      EncodeOfReadFields(schema[1..], rv.1);
      EncodeFieldsCons(f, rf.0);
      TakeConcat(input, m, ChunkSize(schema));
    }
  }

  lemma EncodeFieldsCons(f: Field, fs: seq<Field>)
    ensures EncodeFields([f] + fs) == EncodeValues(f.Kind(), f.Values()) + EncodeFields(fs)
  {
    assert ([f] + fs)[1..] == fs;
  }

  lemma TakeConcat<T>(s: seq<T>, a: nat, b: nat)
    requires a <= b <= |s|
    ensures s[..a] + s[a..][..b - a] == s[..b]
  {
  }

  /**
   * A primitive type reads like a record with the one field its `read_spec`
   * describes: the same success condition, value and remaining input.
   */
  lemma PrimitiveChunkIsSingleField(k: ValueKind, name: string, input: seq<Byte>)
    ensures var schema := PrimitiveSchema(k, name);
            ReadScalar(k, input).Success? <==> ReadChunk(input, schema).Success?
    ensures var schema := PrimitiveSchema(k, name);
            ReadScalar(k, input).Success? ==>
              ReadChunk(input, schema).value == (DynRecord([MakeField(k, [ReadScalar(k, input).value.0])]), ReadScalar(k, input).value.1)
  {
    var schema := PrimitiveSchema(k, name);
    assert schema == [FieldDef(name, k, 1)];
    assert ChunkSize(schema) == Width(k) by {
      assert schema[1..] == [];
    }
    if |input| >= Width(k) {
      var rest := input[Width(k)..];
      var v := ReadScalar(k, input).value.0;
      assert ReadScalar(k, input) == Success((v, rest));
      assert ReadValues(k, 0, rest) == Success(([], rest));
      assert [v] + [] == [v];
      assert ReadValues(k, 1, input) == Success(([v], rest));
      assert schema[1..] == [];
      assert ReadFields(schema[1..], rest) == Success(([], rest));
      assert [MakeField(k, [v])] + [] == [MakeField(k, [v])];
      assert ReadFields(schema, input) == Success(([MakeField(k, [v])], rest));
    }
  }
}
