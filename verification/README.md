# pcd-rs record codec and sequential writer, in Dafny

This project models the core of `pcd-rs`, a reader and writer for the PCD
point-cloud format. A PCD file is a text header followed by a body. The body
is either one ASCII line per point or one packed little-endian chunk per point.
Three parts of the crate are modelled:

- **The dynamic record codec** (`src/record.rs`). A `Field` is a tagged vector
  of one of eight numeric kinds, and a `DynRecord` is a list of fields. The
  codec covers the schema-consistency check, binary `write_chunk`/`read_chunk`,
  text `write_line`/`read_line`, `xyz`, and the single-field specs of the
  primitive types.
- **The sequential writer** (`src/seq_writer.rs`). `write_meta` emits the
  header and reserves a blank `POINTS` slot. `push` appends an encoded record,
  counts it, overwrites the slot with the running count and seeks back to the
  end.
- **The error taxonomy** (`src/error.rs`): the five `PCDError` variants and
  their `new_*` constructors.

Modules, one per file:

| module | file | contents |
|---|---|---|
| `Wrappers` | wrappers.dfy | `Option`, `Result`, `Outcome` |
| `Metas` | metas.dfy | `ValueKind`, scalar ranges, `FieldDef`/`Schema`, widths, chunk size, `DataKind`, `ViewPoint` |
| `Errors` | error.dfy | `PcdError` and the crate-level `Error` |
| `LittleEndian` | little_endian.dfy | two's-complement little-endian scalar encoding and decoding |
| `Text` | text.dfy | decimal numerals, Rust integer parsing, `split_ascii_whitespace`, `join(" ")`, `read_line`, `{:<w$}` padding, UTF-8 |
| `Record` | record.dfy | `Field`, `DynRecord`, `is_schema_consistent`, `xyz`, primitive specs |
| `RecordBinary` | record_binary.dfy | `write_chunk` / `read_chunk` |
| `RecordText` | record_text.dfy | `write_line` / `read_line`, primitive `read_line` |
| `SeqWriter` | seq_writer.dfy | byte sink, header, `write_meta`, `push` |
| `DynWriter` | dyn_writer.dfy | an adapter: `DynRecord`'s `write_chunk`/`write_line` as the writer's encoder, under a caller-supplied `record_spec` |

Modelling choices:

- The sink is a byte sequence plus a cursor. A write replaces bytes at the
  cursor and grows the buffer when needed. A seek moves the cursor.
- The writer is parameterised by an `Encoder`: a pair of functions giving a
  record's chunk bytes and line bytes, or an error. `seq_writer.rs` is written
  against a record trait whose `write_chunk` takes no schema. `DynWriter`
  supplies one encoder for `DynRecord`, built from the builder's `record_spec`.
  The crate itself provides no such writer: `SeqWriterBuilder::new` takes the
  spec from `T::write_spec()` (src/seq_writer.rs:64), which is `unreachable!()`
  for `DynRecord` (src/record.rs:214-216). `DynWriter` takes the spec as a
  parameter instead.
- Floats are opaque IEEE bit patterns, so binary round trips hold for every
  kind. Decimal rendering and parsing of floats is a `FloatFormat` parameter.
  Text round trips need that format to be lossless for the schema's float
  kinds; integer kinds need nothing.
- Integers are unbounded, and each scalar kind is a subset type bounded by its
  Rust range.

The error enum has `SchemaMismatchError`, `ParseError` and `InvalidArgumentError` variants, but these operations do not return them:

- `write_chunk` and `write_line` on a record that does not fit the schema fail
  with an `anyhow` `bail!` message. They do not fail with
  `SchemaMismatchError`. This is modelled as `Error.Bail` with that message.
- A token that does not parse in `read_line` fails with the standard library's
  parse error. It does not fail with `PCDError::ParseError`. This is modelled
  as `Error.InvalidToken(token, kind)`, naming the token that fails to parse
  and the kind it was read as; the standard library's error value itself is
  not modelled.
- `SeqWriterBuilder::new` does not check `is_dynamic`, so building a writer
  never fails with `InvalidArgumentError`.

## Model

| member | source | states |
|---|---|---|
| Record.Field.Values | src/record.rs:91-100 | every value of a field lies in the Rust range of the field's kind |
| Record.Field.Count | src/record.rs:119-132 | `count()` is the number of values the variant holds |
| Record.MakeField | src/record.rs:103-117 | a field built from a kind and values reports exactly that kind, those values and that count |
| Record.MakeFieldOfParts | src/record.rs:103-132 | a field is determined by its `kind()` and its values, so `kind()` returns the variant's own tag |
| Record.FieldMatchesIff | src/record.rs:152-166 | one field matches a schema entry iff its count equals the entry's count and its variant is the entry's kind |
| Record.AllMatchIff | src/record.rs:145-167 | the zip-and-all over fields holds iff every position matches |
| Record.SchemaConsistentIff | src/record.rs:140-168 | a record is schema-consistent iff it has as many fields as the schema and field i has kind and count of entry i, for every i |
| Record.Xyz | src/record.rs:170-206 | with three same-kind leading fields, the result is `Some` iff all three first-value conversions succeed, and then it holds the three converted values in order |
| Record.XyzExactInto | src/record.rs:170-206 | with an exact conversion into an integer kind, `xyz` of integer coordinates is `Some` iff all three fit the target kind, and then it returns the stored coordinates unchanged |
| Record.DynRecordIsDynamic | src/record.rs:209-212 | `DynRecord` reports itself dynamic |
| Record.PrimitiveIsDynamic | src/record.rs:496-499 | a primitive type reports itself not dynamic |
| Record.PrimitiveReadSpec | src/record.rs:501-503 | a primitive's read spec is one entry: no name, its own kind, count 1 |
| Record.PrimitiveSchema | src/record.rs:540-547 | the schema a primitive reads has one entry with the read spec's kind and count |
| Errors.NewParseError | src/error.rs:37-42 | `ParseError` with line and description copied verbatim |
| Errors.NewSchemaMismatchError | src/error.rs:44-60 | `expect` is the record's spec unchanged; `found` has one `(name, kind, count)` entry per file field, in order |
| Errors.NewFieldSizeMismatchError | src/error.rs:62-72 | field name, expected and found sizes stored unchanged |
| Errors.NewTextTokenMismatchError | src/error.rs:74-76 | expected and found token counts stored unchanged |
| Errors.NewInvalidArgumentError | src/error.rs:78-82 | description stored unchanged |
| LittleEndian.FromLeToLe | src/record.rs:239-264 | reading back n little-endian bytes of a value below 256^n gives the value |
| LittleEndian.ToLeDigit | src/record.rs:239-264 | byte i of the n-byte encoding of v is (v / 256^i) % 256: the least significant byte comes first |
| LittleEndian.ToLeFromLe | src/record.rs:365-392 | re-encoding the value read from bytes gives the same bytes |
| LittleEndian.DecodeEncodeScalar | src/record.rs:230-277 | a scalar's `write_*::<LittleEndian>` bytes read back as the same scalar, signed kinds via two's complement |
| LittleEndian.EncodeDecodeScalar | src/record.rs:357-404 | a scalar read from `Width(k)` bytes re-encodes to those bytes |
| LittleEndian.EncodeScalar | src/record.rs:230-277 | one value of kind k is written as exactly `Width(k)` bytes |
| LittleEndian.DecodeScalar | src/record.rs:357-404 | the value read from `Width(k)` bytes lies in the range of kind k |
| LittleEndian.FromBitsToBits | src/record.rs:232-252 | the two's-complement bit pattern of a signed value maps back to the value |
| Text.NatToDecimal | src/record.rs:299 | `to_string` of a number is a non-empty run of digits with no leading zero |
| Text.DigitsValueOfDecimal | src/record.rs:299 | the digits `to_string` prints denote the number printed |
| Text.ParseInteger | src/record.rs:438 | `parse` succeeds iff the text is non-empty digits, or `+` then non-empty digits, or (for a signed kind) `-` then non-empty digits; the value is the digits' value, negated after `-` |
| Text.IntToDecimalIsToken | src/record.rs:299 | what `to_string` prints for an integer is one whitespace-free token |
| Text.ParseIntegerOfDecimal | src/record.rs:438 | parsing what `to_string` printed gives the value back, for every value of a signed kind and every non-negative one |
| Text.SplitAsciiWhitespace | src/record.rs:417 | every token `split_ascii_whitespace` yields is non-empty and free of ASCII whitespace |
| Text.SplitJoin | src/record.rs:333 | splitting a `join(" ")` of tokens, with any whitespace after it, yields exactly those tokens |
| Text.TakeLine | src/record.rs:416 | `read_line` splits the input into a line and the rest with nothing lost, the line holding no line feed except a final one |
| Text.TakeLineOf | src/record.rs:416 | `read_line` on a line-feed-free line followed by `\n` returns that line with its line feed and leaves the rest |
| Text.PadRight | src/seq_writer.rs:188 | `{:width$}` keeps the text and pads it with spaces to the width, never truncating |
| Text.Utf8Append | src/seq_writer.rs:176-193 | the bytes of two texts written one after the other are the bytes of their concatenation |
| Text.Utf8Ascii | src/seq_writer.rs:186-188 | ASCII text is written one byte per character, each byte the character's code |
| Metas.SpanIsProduct | src/record.rs:226-281 | the bytes of `count` values of kind k are `count * width(k)`, with widths 1/2/4/1/2/4/4/8 |
| RecordBinary.EncodeFieldsLength | src/record.rs:226-281 | a conforming record's chunk is exactly the schema's chunk size |
| RecordBinary.EncodeValues | src/record.rs:226-277 | a field's values are written one after another, `Width(k)` bytes each, so count values take `Span(k, count)` bytes |
| RecordBinary.EncodeValuesAt | src/record.rs:226-277 | value i of a field is written, as its own little-endian bytes, at bytes `Span(k, i)` up to `Span(k, i + 1)` of the field's encoding |
| RecordBinary.WriteChunk | src/record.rs:218-282 | succeeds iff the record is schema-consistent; otherwise fails with the bail message and gives no bytes; on success the chunk has the schema's chunk size |
| RecordBinary.ReadScalar | src/record.rs:357-404 | succeeds iff a full value's bytes remain; otherwise fails with end of input; the value is in range and re-encodes to the bytes consumed |
| RecordBinary.ReadValues | src/record.rs:354-404 | reads `count` values iff `count * width` bytes remain, consuming exactly those |
| RecordBinary.ReadFields | src/record.rs:349-409 | reads one field per schema entry iff the chunk size is available; the fields conform to the schema and exactly the chunk is consumed |
| RecordBinary.ReadChunk | src/record.rs:348-412 | succeeds iff at least the chunk size remains; the record is schema-consistent and the rest follows the chunk |
| RecordBinary.ReadValuesOfEncoded | src/record.rs:230-277 | the values of one field, encoded then read, come back with the rest untouched |
| RecordBinary.ReadFieldsOfEncoded | src/record.rs:226-281 | a conforming record's encoded fields read back field by field |
| RecordBinary.ChunkRoundTrip | src/record.rs:218-412 | `read_chunk` of `write_chunk(r)` followed by anything returns r and leaves exactly what followed |
| RecordBinary.ChunkReencode | src/record.rs:218-412 | writing the record read from a chunk gives back that chunk's bytes |
| RecordBinary.EncodeOfReadValues | src/record.rs:354-404 | encoding the values read gives back the bytes read |
| RecordBinary.EncodeOfReadFields | src/record.rs:349-409 | encoding the fields read gives back the chunk read |
| RecordBinary.EncodeFieldsCons | src/record.rs:226-279 | fields are encoded one after another, in record order |
| RecordBinary.PrimitiveChunkIsSingleField | src/record.rs:505-508 | a primitive's `read_chunk` reads the same value as a one-field dynamic record of its kind |
| RecordText.ScalarTokenRoundTrip | src/record.rs:298-329 | a value's `to_string` is one whitespace-free token that parses back to the value |
| RecordText.ParseScalar | src/record.rs:438-480 | `token.parse::<T>()` for the kind: a parsed value always lies in the kind's range |
| RecordText.ParseScalarInteger | src/record.rs:438-480 | for an integer kind, a token parses iff it is an integer literal of the kind's signedness whose value fits the kind, and then to that value |
| RecordText.ParseScalarRejectsOutOfRange | src/record.rs:438-480 | the decimal text of a number outside an integer kind's range does not parse as that kind, as `"256".parse::<u8>()` fails |
| RecordText.ValueTokens | src/record.rs:298-329 | one token per value of a field |
| RecordText.RecordTokensCount | src/record.rs:292-331 | a conforming record has exactly as many tokens as the schema's counts sum to |
| RecordText.WriteLine | src/record.rs:284-336 | succeeds iff the record is schema-consistent; otherwise fails with the bail message; on success the line is the sum-of-counts tokens in field order, joined by single spaces, then one line feed |
| RecordText.ParseValues | src/record.rs:436-483 | succeeds iff every token parses as the kind; the values are the parses in order; a failure is `InvalidToken` for the first token, in order, that does not parse as the kind, every token before it parsing |
| RecordText.ParseFields | src/record.rs:427-488 | on success the fields conform to the schema and, in line order, value i is the parse of token i as the kind of its position (`ParsesAs`); a failure is `InvalidToken` for the first token, in line order, that does not parse as the kind of its position, with that kind (`Blames`) |
| RecordText.ReadLine | src/record.rs:414-491 | a line whose token count differs from the schema's count total fails with `TextTokenMismatchError(total, found)`; with the right count a failure is `InvalidToken` for the line's first token that does not parse as the kind of its position, with that kind; on success the record is schema-consistent, its values in order are the parses of the line's tokens, and exactly one line is consumed |
| RecordText.AllParseSplit | src/record.rs:427-488 | all tokens parse iff the tokens of each part do |
| RecordText.ParsedCons | src/record.rs:427-488 | the first field's parses followed by the remaining fields' parses are the parses of all of the line's tokens |
| RecordText.ParsesAsConcat | src/record.rs:427-488 | parsing token by token composes over concatenated kinds, tokens and values |
| RecordText.ParseFieldsBlamesExample | src/record.rs:436-483 | with an `i8` then a `u8` field, the tokens `-1 x` fail on `x` read as `u8`; `-1`, which parses as `i8`, is not blamed |
| RecordText.BlamesInHead | src/record.rs:436-483 | a bad token inside the first field is the line's first bad token, blamed with the first field's kind |
| RecordText.BlamesInTail | src/record.rs:436-483 | when the first field's tokens all parse, the first bad token of the remaining fields is the line's first bad token |
| RecordText.ParseFieldsSucceedsIff | src/record.rs:427-488 | with the right token count, parsing succeeds iff every token parses as the kind its position has in the schema |
| RecordText.ReadLineSucceedsIff | src/record.rs:414-491 | `read_line` succeeds iff the token count matches and every token parses; any single bad token aborts the whole record |
| RecordText.ParseValuesOfTokens | src/record.rs:298-329 | a field's tokens parse back to its values |
| RecordText.RecordTokensAreTokens | src/record.rs:292-331 | every token of a record is non-empty and whitespace-free |
| RecordText.ParseFieldsOfTokens | src/record.rs:292-331 | a record's tokens parse back to its fields |
| RecordText.WrittenLineSplits | src/record.rs:284-336 | a written line, with anything after it, reads back as exactly one line, and splitting it at whitespace gives the record's rendered values in field order, as many as the schema's count total (float tokens need a format that renders them as tokens) |
| RecordText.LineRoundTrip | src/record.rs:284-491 | `read_line` of `write_line(r)` followed by anything returns r and leaves what followed, for integer kinds or a lossless float format |
| RecordText.PrimitiveReadLineAsWritten | src/record.rs:510-514 | as written: succeeds iff the whole line, line feed included, parses as the kind |
| RecordText.PrimitiveReadLineAsWrittenRejects | src/record.rs:510-514 | as written: a line holding an integer value and its line feed is always rejected |
| RecordText.PrimitiveReadLineAsWrittenExample | src/record.rs:510-514 | as written: the line `5\n` does not read as a `u8` |
| RecordText.PrimitiveReadLine | src/record.rs:554-558 | corrected: the line's whitespace-separated tokens are read as the one-field record; it succeeds iff there is exactly one token and it parses as the kind, and then returns that parse and consumes one line; more or fewer tokens fail with `TextTokenMismatchError(1, found)`, and a single bad token is blamed with the kind |
| RecordText.PrimitiveLineRoundTrip | src/record.rs:554-558 | corrected: a value's token and a line feed read back as the value, and the rest is left |
| RecordText.SingleFieldRead | src/record.rs:414-491 | `read_line` against a one-entry schema of count 1: a token count other than 1 fails with the mismatch, a bad single token is blamed with the kind, and success holds exactly the one parsed value, whatever the field's name |
| RecordText.PrimitiveLineIsSingleField | src/record.rs:501-503 | the corrected primitive `read_line` reads like a record with the one field its `read_spec` describes: the same success condition, value, rest and error |
| RecordText.PrimitiveReadLineCrlfExample | src/record.rs:554-558 | corrected: the line `5\r\n` reads as the `u8` 5, as the one-field record read does |
| SeqWriter.Overwrite | src/seq_writer.rs:208-212 | a write replaces bytes at the offset, keeps the bytes before it and after it, and grows the buffer only past its end |
| SeqWriter.WriteBytes | src/seq_writer.rs:179-193 | a write leaves the cursor after the written bytes |
| SeqWriter.SeekTo | src/seq_writer.rs:206-213 | a seek changes only the cursor |
| SeqWriter.WriteBytesTwice | src/seq_writer.rs:176-193 | two consecutive writes leave the same sink as one write of both |
| SeqWriter.OverwriteAt | src/seq_writer.rs:208-212 | each byte of an overwritten buffer comes from the data inside the written range and from the old buffer outside it |
| SeqWriter.HeaderSize | src/seq_writer.rs:124-137 | the `SIZE` entry of a kind is `Width(k)`, the number of bytes `LittleEndian.EncodeScalar` writes for each value of that kind |
| SeqWriter.TypeArg | src/seq_writer.rs:139-150 | `TYPE` is `I` iff the kind is signed, `F` iff floating point, `U` iff neither; among integer kinds `I` iff the minimum is negative |
| SeqWriter.HeaderLines | src/seq_writer.rs:176-193 | the header has one line per keyword |
| SeqWriter.LinesAppend | src/seq_writer.rs:176-193 | the text of consecutive lines is the concatenation of their texts |
| SeqWriter.HeaderTextSplit | src/seq_writer.rs:176-193 | the header is the prefix up to `POINTS `, the blank slot with its line feed, and the `DATA` line |
| SeqWriter.HeaderLineWords | src/seq_writer.rs:176-193 | header line i splits into words with keyword i first, in the order `#`, VERSION, FIELDS, SIZE, TYPE, COUNT, WIDTH, HEIGHT, VIEWPOINT, POINTS, DATA |
| SeqWriter.KeywordLine | src/seq_writer.rs:178-184 | a keyword line whose arguments are words splits back into the keyword and the arguments |
| SeqWriter.SpecArgs | src/seq_writer.rs:124-156 | each `SIZE`/`TYPE`/`COUNT` entry is one word; `SIZE` reads back as the width and `COUNT` as the spec count |
| SeqWriter.SizeTypeCountLines | src/seq_writer.rs:122-156 | the `SIZE`, `TYPE` and `COUNT` lines list one entry per spec entry, in spec order |
| SeqWriter.SlotText | src/seq_writer.rs:186-188 | the slot text is exactly the reserved width, in ASCII |
| SeqWriter.PointsLineWords | src/seq_writer.rs:206-212 | the `POINTS` line after n records reads as the keyword and the decimal n; before any record it holds no count |
| SeqWriter.WriteReserved | src/seq_writer.rs:185-193 | after the prefix come exactly `width` spaces and a line feed, then the rest; bytes before the old cursor are kept |
| SeqWriter.WriteMeta | src/seq_writer.rs:117-196 | `HeaderWritten`: the bytes between the old and the new cursor are exactly the header text's bytes; the slot begins right after the prefix ending in `POINTS `, holds `width` spaces and is followed by a line feed; bytes before the old cursor are kept |
| SeqWriter.ReservedWritesHeader | src/seq_writer.rs:176-193 | writing the prefix, the blank slot line and the `DATA` line writes the whole header with its slot in place |
| SeqWriter.HeaderBytes | src/seq_writer.rs:176-193 | the header's bytes split into prefix, slot line and `DATA` line |
| SeqWriter.PointsSuffix | src/seq_writer.rs:185-186 | the last seven bytes before the slot are `POINTS ` |
| SeqWriter.PointsTail | src/seq_writer.rs:185-186 | any text followed by `POINTS ` ends in the seven bytes of `POINTS ` |
| SeqWriter.Create | src/seq_writer.rs:104-115 | a new writer has written the header, counts zero records and satisfies the writer invariant |
| SeqWriter.FreshWriterValid | src/seq_writer.rs:104-115 | a written header whose slot is blank makes a valid writer with count zero |
| SeqWriter.BlankSlotIsZero | src/seq_writer.rs:188 | a blank reserved slot is the slot text of count zero |
| SeqWriter.Append | src/seq_writer.rs:199-217 | a successful push satisfies the writer invariant with the new count in the slot, extends the writer by the bytes and one record (`Extends`: same builder and slot, bytes at the old cursor, cursor after them, header outside the slot kept), and changes nothing but the slot compared with a plain write of the bytes |
| SeqWriter.AppendValid | src/seq_writer.rs:206-214 | after the count patch the slot holds the new count and the writer invariant holds again |
| SeqWriter.AppendExtends | src/seq_writer.rs:199-217 | the written bytes follow the old cursor, the cursor ends after them and every byte outside the slot is what a plain write leaves |
| SeqWriter.ExtendsTrans | src/seq_writer.rs:199-217 | two appends in a row are one append of both pieces, counting both numbers of records |
| SeqWriter.Push | src/seq_writer.rs:199-217 | a failed encode returns its error with the writer unchanged; a successful one appends and counts one more record |
| SeqWriter.KeepOutside | src/seq_writer.rs:206-214 | bytes that agree outside the slot agree before it and between it and the old end |
| SeqWriter.PatchSlot | src/seq_writer.rs:206-212 | rewriting the slot before the cursor puts the new text in the slot and keeps the line feed after it |
| SeqWriter.PatchKeeps | src/seq_writer.rs:206-214 | writing the record and then rewriting the slot keeps the record's bytes after the old cursor and every header byte outside the slot |
| SeqWriter.OverwriteOutside | src/seq_writer.rs:208-212 | overwriting inside a buffer changes nothing outside the overwritten range |
| SeqWriter.PushAll | src/seq_writer.rs:199-217 | after pushing a sequence the writer invariant holds and the writer is extended (`Extends`) by the successful encodings in push order, counting one record per success; failures write nothing |
| SeqWriter.PushAllStep | src/seq_writer.rs:199-217 | one push followed by further pushes extends the writer by the first record's bytes, if it encoded, followed by the rest |
| SeqWriter.SliceOfSlice | src/seq_writer.rs:206-214 | agreement on a range is agreement on every sub-range |
| DynWriter.SpecSchema | src/seq_writer.rs:51 | the schema of a `record_spec` has the spec's names, kinds and counts, entry by entry |
| DynWriter.TextBytes | src/record.rs:333 | a written line becomes its UTF-8 bytes; an error is passed through |
| DynWriter.DynPushRejectsInconsistent | src/seq_writer.rs:199-204 | pushing a record that does not fit the spec fails with the bail message and leaves the writer exactly as it was |
| DynWriter.DynBinaryPushReadsBack | src/seq_writer.rs:199-204 | a consistent record pushed to a binary writer lands as one chunk that `read_chunk` decodes back to the record |
| DynWriter.DynAsciiPushReadsBack | src/seq_writer.rs:199-204 | a consistent record pushed to an ASCII writer lands as the bytes of one line that `read_line` parses back to the record |

## Left out

- Decimal rendering and parsing of `f32`/`f64` values are not modelled. This covers record tokens and the `VIEWPOINT` numbers. They are the `FloatFormat` and `showF64` parameters.
- IEEE 754 layouts are not modelled. A float is its bit pattern.
- `points_arg_width` is not computed with `f64` `log10`. It is the constant 20, the digit count of the largest 64-bit `usize`.
- `FromPrimitive` conversions in `xyz` are an abstract partial `Conversion` parameter.
- `xyz` on fewer than three fields, on mixed kinds or on an empty field panics in the source. That case is a precondition (`HasXyz`).
- `SeqWriterBuilder::create` (file creation and `BufWriter`) and the `dbg!` call are not modelled. They are I/O and logging.
- I/O failures in the middle of a write are not modelled. The sink never fails, so the partial output such failures can leave is not modelled either.
- `SeqWriterBuilder::new` and `from_writer` are not separate members. `new` stores its arguments together with `record_spec = T::write_spec()` (src/seq_writer.rs:64); the model's `Builder` holds that spec as a given value, and `Create` starts from the stored `Builder`.
- A writer whose record type is `DynRecord` is not something the crate can build: `new` would call `DynRecord::write_spec`, which is `unreachable!()` and panics. `DynWriter` is an adapter that takes the spec from its caller, and its lemmas are about that adapter.
- `write_spec` and `read_spec` of `DynRecord` are not modelled. They are `unreachable!()` and panic if called.
- The derive macros that generate record impls for user structs are not modelled. They are compile-time code, and `Encoder` stands for any record type they would produce.
- SeqWriter.Push: requires fewer than `usize::MAX` records so far. The source's `num_records += 1` would overflow there, which panics in debug builds and wraps in release builds.
- SeqWriter.PushAll: requires room in `usize` for one more count per record pushed, for the same reason as `Push`.
- SeqWriter.Builder: `width` and `height` are unbounded naturals, not `u64`. They are only printed.
- Record.Field.Count: counts are unbounded naturals, not `usize`.
- UTF-8 decoding is not modelled. Input read by `read_line` is taken as characters, so an invalid UTF-8 line fails in the source but has no counterpart here.
- RecordText.FloatFormatLossless: asks every float bit pattern to survive rendering and parsing. Rust prints every NaN as `NaN` and parses it back as one canonical NaN, so no real format meets it. The float side of `LineRoundTrip`, `PrimitiveLineRoundTrip` and `DynAsciiPushReadsBack` therefore covers no actual format; for integer kinds those lemmas need nothing.
- RecordText.PrimitiveReadLineAsWrittenRejects: stated for integer kinds only. Rust's float parsing also rejects the trailing line feed, but float parsing is a parameter here.

## Findings

| source | as written | input that shows it | evidently intended | confidence | as-written member | corrected member |
|---|---|---|---|---|---|---|
| src/record.rs:510-514 (same at 531-535 and 554-558) | a primitive type's `read_line` parses the line returned by `BufRead::read_line`, which still ends in its line feed | the line `5\n` read as `u8`: `"5\n".parse::<u8>()` fails, and so does any line `write_line` produces | read the line as a record with the one field the type's `read_spec` describes, as `DynRecord::read_line` does: split at whitespace, so the line feed, a carriage return or padding does not reach `parse` | not executed | RecordText.PrimitiveReadLineAsWritten, RecordText.PrimitiveReadLineAsWrittenRejects | RecordText.PrimitiveReadLine, RecordText.PrimitiveLineRoundTrip |
