/**
 * The crate's error taxonomy (`PCDError` and its constructor functions), and
 * the error value that the record codec returns, which besides a `PCDError`
 * may carry a plain message (`bail!`), an early end of input from a binary
 * read, or a token that does not parse as its kind.
 */
module Errors {
  import opened Metas

  /** One `(name, kind, count)` entry of a file's field list, as the errors report it. */
  type FieldTriple = (string, ValueKind, nat)

  datatype PcdError =
    | ParseError(line: nat, desc: string)
    | SchemaMismatchError(expectSpec: seq<ReadSpecEntry>, foundFields: seq<FieldTriple>)
    | FieldSizeMismatchError(fieldName: string, expected: nat, found: nat)
    | TextTokenMismatchError(expected: nat, found: nat)
    | InvalidArgumentError(desc: string)

  /** The error a codec call returns. */
  datatype Error =
    | Pcd(pcd: PcdError)
    | Bail(message: string)
    | UnexpectedEof
    | InvalidToken(token: string, kind: ValueKind)

  function NewParseError(line: nat, desc: string): (e: PcdError)
    ensures e.ParseError?
    ensures e.line == line && e.desc == desc
  {
    ParseError(line, desc)
  }

  /** The triple a file field is reported as. */
  function Triple(def: FieldDef): FieldTriple
  {
    (def.name, def.kind, def.count)
  }

  function NewSchemaMismatchError(recordFields: seq<ReadSpecEntry>, fileFields: seq<FieldDef>): (e: PcdError)
    ensures e.SchemaMismatchError?
    ensures e.expectSpec == recordFields
    ensures |e.foundFields| == |fileFields|
    ensures forall i :: 0 <= i < |fileFields| ==>
              e.foundFields[i].0 == fileFields[i].name
              && e.foundFields[i].1 == fileFields[i].kind
              && e.foundFields[i].2 == fileFields[i].count
  {
    SchemaMismatchError(recordFields, seq(|fileFields|, i requires 0 <= i < |fileFields| => Triple(fileFields[i])))
  }

  function NewFieldSizeMismatchError(fieldName: string, expected: nat, found: nat): (e: PcdError)
    ensures e.FieldSizeMismatchError?
    ensures e.fieldName == fieldName && e.expected == expected && e.found == found
  {
    FieldSizeMismatchError(fieldName, expected, found)
  }

  function NewTextTokenMismatchError(expected: nat, found: nat): (e: PcdError)
    ensures e.TextTokenMismatchError?
    ensures e.expected == expected && e.found == found
  {
    TextTokenMismatchError(expected, found)
  }

  function NewInvalidArgumentError(desc: string): (e: PcdError)
    ensures e.InvalidArgumentError?
    ensures e.desc == desc
  {
    InvalidArgumentError(desc)
  }
}
