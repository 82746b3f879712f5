/**
 * An adapter that drives the sequential writer with `DynRecord`'s encoders:
 * binary pushes go through `write_chunk` and ASCII pushes through
 * `write_line`, both against the schema a caller-supplied `record_spec`
 * describes. The crate cannot build such a writer itself, because its
 * builder asks the record type for the spec and `DynRecord::write_spec`
 * panics; here the spec is a parameter.
 */
module DynWriter {
  import opened Wrappers
  import opened Metas
  import opened Errors
  import opened Text
  import opened Record
  import RecordBinary
  import RecordText
  import opened SeqWriter

  /** The schema a `record_spec` describes, entry by entry. */
  function SpecSchema(spec: seq<RecordSpecEntry>): (schema: Schema)
    ensures |schema| == |spec|
    ensures forall i :: 0 <= i < |spec| ==>
              schema[i] == FieldDef(spec[i].0, spec[i].1, spec[i].2)
  {
    seq(|spec|, i requires 0 <= i < |spec| => FieldDef(spec[i].0, spec[i].1, spec[i].2))
  }

  /** The UTF-8 bytes of a text encoding, or its error. */
  function TextBytes(t: Result<string, Error>): (r: Result<seq<Byte>, Error>)
    ensures r.Success? <==> t.Success?
    ensures t.Failure? ==> r.error == t.error
    ensures t.Success? ==> r.value == Utf8(t.value)
  {
    match t
    case Success(s) => Success(Utf8(s))
    case Failure(e) => Failure(e)
  }

  /** The encoder for `DynRecord`s under the builder's spec. */
  function DynEncoder(spec: seq<RecordSpecEntry>, ff: RecordText.FloatFormat): Encoder<DynRecord, Error>
  {
    var schema := SpecSchema(spec);
    Encoder(
      (r: DynRecord) => RecordBinary.WriteChunk(r, schema),
      (r: DynRecord) => TextBytes(RecordText.WriteLine(r, schema, ff)))
  }

  /**
   * A record that does not fit the spec is refused whichever the data kind:
   * the writer is left exactly as it was and the error is the bail message.
   */
  lemma DynPushRejectsInconsistent(w: SeqWriter, ff: RecordText.FloatFormat, rec: DynRecord)
    requires Valid(w) && w.numRecords < UsizeMax
    requires !IsSchemaConsistent(rec, SpecSchema(w.builder.recordSpec))
    ensures Push(w, DynEncoder(w.builder.recordSpec, ff), rec)
            == Pushed(w, Fail(Bail(RecordBinary.InconsistentRecordMessage)))
  {
    var enc := DynEncoder(w.builder.recordSpec, ff);
    var schema := SpecSchema(w.builder.recordSpec);
    assert Encode(enc, w.builder.dataKind, rec).Failure?;
  }

  /**
   * A consistent record pushed to a binary writer lands as one chunk that
   * `read_chunk` decodes back to the same record, consuming all of it.
   */
  lemma DynBinaryPushReadsBack(w: SeqWriter, ff: RecordText.FloatFormat, rec: DynRecord)
    requires Valid(w) && w.numRecords < UsizeMax && w.builder.dataKind == Binary
    requires IsSchemaConsistent(rec, SpecSchema(w.builder.recordSpec))
    ensures var r := Push(w, DynEncoder(w.builder.recordSpec, ff), rec).writer;
            && r.numRecords == w.numRecords + 1
            && r.sink.pos == w.sink.pos + ChunkSize(SpecSchema(w.builder.recordSpec))
            && RecordBinary.ReadChunk(r.sink.buf[w.sink.pos..r.sink.pos], SpecSchema(w.builder.recordSpec))
               == Success((rec, []))
  {
    var schema := SpecSchema(w.builder.recordSpec);
    var bytes := RecordBinary.WriteChunk(rec, schema).value;
    RecordBinary.ChunkRoundTrip(rec, schema, []);
    assert bytes + [] == bytes;
  }

  /**
   * A consistent record pushed to an ASCII writer lands as the UTF-8 bytes
   * of one line that `read_line` parses back to the same record, provided
   * the float rendering of the spec's float kinds is lossless.
   */
  lemma DynAsciiPushReadsBack(w: SeqWriter, ff: RecordText.FloatFormat, rec: DynRecord)
    requires Valid(w) && w.numRecords < UsizeMax && w.builder.dataKind == Ascii
    requires IsSchemaConsistent(rec, SpecSchema(w.builder.recordSpec))
    requires RecordText.TextLossless(SpecSchema(w.builder.recordSpec), ff)
    ensures var r := Push(w, DynEncoder(w.builder.recordSpec, ff), rec).writer;
            var line := RecordText.WriteLine(rec, SpecSchema(w.builder.recordSpec), ff).value;
            && r.numRecords == w.numRecords + 1
            && r.sink.buf[w.sink.pos..r.sink.pos] == Utf8(line)
            && RecordText.ReadLine(line, SpecSchema(w.builder.recordSpec), ff) == Success((rec, ""))
  {
    var schema := SpecSchema(w.builder.recordSpec);
    var line := RecordText.WriteLine(rec, schema, ff).value;
    RecordText.LineRoundTrip(rec, schema, ff, "");
    assert line + "" == line;
  }
}
