/**
 * ASCII form of a record (`write_line` / `read_line`): one line of
 * space-separated decimal tokens, in schema order, ended by a line feed.
 * Float rendering and parsing are left to a `FloatFormat` given by the caller.
 */
module RecordText {
  import opened Wrappers
  import opened Metas
  import opened Errors
  import opened Text
  import opened Record
  import RecordBinary

  /**
   * How float bit patterns are written and read as text (Rust's `Display`
   * and `FromStr` for `f32`/`f64`), which the model does not interpret.
   */
  datatype FloatFormat = FloatFormat(
    showF32: F32Bits -> string,
    showF64: F64Bits -> string,
    parseF32: string -> Option<F32Bits>,
    parseF64: string -> Option<F64Bits>)

  /**
   * Every float renders as one token that parses back to the same bit
   * pattern. Rust's own `Display`/`FromStr` pair does not meet this: it
   * collapses NaN payloads into one canonical NaN.
   */
  predicate FloatFormatLossless(ff: FloatFormat)
  {
    && (forall b: F32Bits :: IsToken(ff.showF32(b)) && ff.parseF32(ff.showF32(b)) == Some(b))
    && (forall b: F64Bits :: IsToken(ff.showF64(b)) && ff.parseF64(ff.showF64(b)) == Some(b))
  }

  /** Values of kind `k` survive the text form: integers always, floats when the format is lossless. */
  predicate KindLossless(k: ValueKind, ff: FloatFormat)
  {
    !IsFloat(k) || FloatFormatLossless(ff)
  }

  predicate TextLossless(schema: Schema, ff: FloatFormat)
  {
    forall i :: 0 <= i < |schema| ==> KindLossless(schema[i].kind, ff)
  }

  /** `val.to_string()` for a value of kind `k`. */
  function ScalarToken(k: ValueKind, v: int, ff: FloatFormat): string
    requires InRange(k, v)
  {
    match k
    case F32 => ff.showF32(v)
    case F64 => ff.showF64(v)
    case _ => IntToDecimal(v)
  }

  /** `token.parse()` into kind `k`: an integer out of the kind's range does not parse. */
  function ParseScalar(k: ValueKind, token: string, ff: FloatFormat): (r: Option<int>)
    ensures r.Some? ==> InRange(k, r.value)
  {
    match k
    case F32 => (match ff.parseF32(token) case Some(b) => Some(b) case None => None)
    case F64 => (match ff.parseF64(token) case Some(b) => Some(b) case None => None)
    case _ =>
      match ParseInteger(token, IsSigned(k))
      case Some(v) => if InRange(k, v) then Some(v) else None
      case None => None
  }

  /**
   * An integer token parses as an integer kind exactly when it is an integer
   * literal of the kind's signedness whose value fits the kind, and then to
   * that value; a float token is left to the format.
   */
  lemma ParseScalarInteger(k: ValueKind, token: string, ff: FloatFormat)
    requires !IsFloat(k)
    ensures ParseScalar(k, token, ff).Some? <==>
              ParseInteger(token, IsSigned(k)).Some? && InRange(k, ParseInteger(token, IsSigned(k)).value)
    ensures ParseScalar(k, token, ff).Some? ==> ParseScalar(k, token, ff) == ParseInteger(token, IsSigned(k))
  {
  }

  /**
   * A number printed in decimal that lies outside an integer kind's range
   * does not parse as that kind: `"256".parse::<u8>()` fails.
   */
  lemma ParseScalarRejectsOutOfRange(k: ValueKind, v: int, ff: FloatFormat)
    requires !IsFloat(k) && !InRange(k, v)
    ensures ParseScalar(k, IntToDecimal(v), ff).None?
  {
    if v >= 0 || IsSigned(k) {
      ParseIntegerOfDecimal(v, IsSigned(k));
    }
  }

  /** A value's token is a single whitespace-free token that parses back to the value. */
  lemma ScalarTokenRoundTrip(k: ValueKind, v: int, ff: FloatFormat)
    requires InRange(k, v) && KindLossless(k, ff)
    ensures IsToken(ScalarToken(k, v, ff))
    ensures ParseScalar(k, ScalarToken(k, v, ff), ff) == Some(v)
  {
    if !IsFloat(k) {
      ParseIntegerOfDecimal(v, IsSigned(k));
      IntToDecimalIsToken(v);
    }
  }

  // ---------------------------------------------------------------- writing

  function ValueTokens(k: ValueKind, vs: seq<int>, ff: FloatFormat): (ts: seq<string>)
    requires AllInRange(k, vs)
    ensures |ts| == |vs|
  {
    seq(|vs|, i requires 0 <= i < |vs| => ScalarToken(k, vs[i], ff))
  }

  /** The tokens of all fields, field after field. */
  function RecordTokens(fields: seq<Field>, ff: FloatFormat): seq<string>
  {
    if |fields| == 0 then []
    else ValueTokens(fields[0].Kind(), fields[0].Values(), ff) + RecordTokens(fields[1..], ff)
  }

  lemma {:induction false} RecordTokensCount(fields: seq<Field>, schema: Schema, ff: FloatFormat)
    requires Conforms(fields, schema)
    ensures |RecordTokens(fields, ff)| == TotalCount(schema)
  {
    if |fields| > 0 {
      RecordBinary.ConformsTail(fields, schema);
      RecordTokensCount(fields[1..], schema[1..], ff);
    }
  }

  /**
   * `DynRecord::write_line`: nothing but an error when the record does not
   * conform to the schema; otherwise one token per element of the schema,
   * joined by single spaces, ending in one line feed.
   */
  function WriteLine(r: DynRecord, schema: Schema, ff: FloatFormat): (res: Result<string, Error>)
    ensures res.Success? <==> IsSchemaConsistent(r, schema)
    ensures res.Failure? ==> res.error == Bail(RecordBinary.InconsistentRecordMessage)
    ensures res.Success? ==> |RecordTokens(r.fields, ff)| == TotalCount(schema)
    ensures res.Success? ==> res.value == JoinSpaces(RecordTokens(r.fields, ff)) + "\n"
  {
    if !IsSchemaConsistent(r, schema) then Failure(Bail(RecordBinary.InconsistentRecordMessage))
    else
      SchemaConsistentIff(r, schema);
      RecordTokensCount(r.fields, schema, ff);
      Success(JoinSpaces(RecordTokens(r.fields, ff)) + "\n")
  }

  // ---------------------------------------------------------------- reading

  /** The tokens of one field, parsed in order; the first bad token stops everything. */
  function ParseValues(k: ValueKind, tokens: seq<string>, ff: FloatFormat): (res: Result<seq<int>, Error>)
    ensures res.Success? <==> forall i :: 0 <= i < |tokens| ==> ParseScalar(k, tokens[i], ff).Some?
    ensures res.Success? ==> |res.value| == |tokens| && AllInRange(k, res.value)
    ensures res.Success? ==> forall i :: 0 <= i < |tokens| ==> ParseScalar(k, tokens[i], ff) == Some(res.value[i])
    ensures res.Failure? ==> res.error.InvalidToken? && res.error.kind == k && res.error.token in tokens
    ensures res.Failure? ==> ParseScalar(k, res.error.token, ff).None?
    ensures res.Failure? ==> Blames(Repeat(k, |tokens|), tokens, res.error, ff)
  {
    if |tokens| == 0 then Success([])
    else
      match ParseScalar(k, tokens[0], ff)
      case None =>
        BlamesFirst(k, tokens, ff);
        Failure(InvalidToken(tokens[0], k))
      case Some(v) =>
        match ParseValues(k, tokens[1..], ff)
        case Failure(e) =>
          BlamesLater(k, tokens, e, ff);
          Failure(e)
        case Success(vs) =>
          assert forall i :: 1 <= i < |tokens| ==> tokens[i] == tokens[1..][i - 1];
          Success([v] + vs)
  }

  /** A first token that does not parse is the first bad token of a field. */
  lemma BlamesFirst(k: ValueKind, tokens: seq<string>, ff: FloatFormat)
    requires |tokens| > 0 && ParseScalar(k, tokens[0], ff).None?
    ensures Blames(Repeat(k, |tokens|), tokens, InvalidToken(tokens[0], k), ff)
  {
    assert FirstBadAt(Repeat(k, |tokens|), tokens, 0, ff);
  }

  /** After a first token that parses, the first bad token of the others is the field's. */
  lemma BlamesLater(k: ValueKind, tokens: seq<string>, e: Error, ff: FloatFormat)
    requires |tokens| > 0 && ParseScalar(k, tokens[0], ff).Some?
    requires Blames(Repeat(k, |tokens| - 1), tokens[1..], e, ff)
    ensures Blames(Repeat(k, |tokens|), tokens, e, ff)
  {
    assert AllParse([k], [tokens[0]], ff);
    BlamesAfter([k], [tokens[0]], Repeat(k, |tokens| - 1), tokens[1..], e, ff);
    assert [k] + Repeat(k, |tokens| - 1) == Repeat(k, |tokens|);
    assert [tokens[0]] + tokens[1..] == tokens;
  }

  /** The values of all fields, field after field: the order of a line's tokens. */
  function FlatValues(fields: seq<Field>): seq<int>
  {
    if |fields| == 0 then [] else fields[0].Values() + FlatValues(fields[1..])
  }

  lemma FlatValuesCons(f: Field, fs: seq<Field>)
    ensures FlatValues([f] + fs) == f.Values() + FlatValues(fs)
  {
    assert ([f] + fs)[1..] == fs;
  }

  /**
   * The fields of a schema from exactly as many tokens as the schema has
   * elements: on success the fields conform and value i is the parse of token
   * i as the kind of its position; on failure the error names the first
   * token, in line order, that does not parse as the kind of its position.
   */
  function ParseFields(schema: Schema, tokens: seq<string>, ff: FloatFormat): (res: Result<seq<Field>, Error>)
    requires |tokens| == TotalCount(schema)
    ensures res.Success? ==> Conforms(res.value, schema)
    ensures res.Success? ==> ParsesAs(TokenKinds(schema), tokens, FlatValues(res.value), ff)
    ensures res.Failure? ==>
              res.error.InvalidToken? && res.error.token in tokens && ParseScalar(res.error.kind, res.error.token, ff).None?
    ensures res.Failure? ==> Blames(TokenKinds(schema), tokens, res.error, ff)
  {
    if |schema| == 0 then Success([])
    else
      var def := schema[0];
      match ParseValues(def.kind, tokens[..def.count], ff)
      case Failure(e) =>
        BlamesInHead(schema, tokens, e, ff);
        Failure(e)
      case Success(vs) =>
        match ParseFields(schema[1..], tokens[def.count..], ff)
        case Failure(e) =>
          BlamesInTail(schema, tokens, e, ff);
          Failure(e)
        case Success(fs) =>
          var f := MakeField(def.kind, vs);
          RecordBinary.ConformsCons(f, fs, schema);
          ParsedCons(schema, tokens, vs, fs, ff);
          Success([f] + fs)
  }

  /** Token `i` parses as kind `ks[i]` to the value `vs[i]`, for every position `i`. */
  predicate ParsesAs(ks: seq<ValueKind>, tokens: seq<string>, vs: seq<int>, ff: FloatFormat)
  {
    && |ks| == |tokens| == |vs|
    && forall i :: 0 <= i < |tokens| ==> ParseScalar(ks[i], tokens[i], ff) == Some(vs[i])
  }

  /**
   * Position `i` holds the first token, in order, that does not parse as the
   * kind of its position: every token before it parses.
   */
  predicate FirstBadAt(ks: seq<ValueKind>, tokens: seq<string>, i: int, ff: FloatFormat)
  {
    && |ks| == |tokens|
    && 0 <= i < |tokens|
    && ParseScalar(ks[i], tokens[i], ff).None?
    && forall j :: 0 <= j < i ==> ParseScalar(ks[j], tokens[j], ff).Some?
  }

  /** The error is `InvalidToken` for the first bad token and the kind of its position. */
  predicate Blames(ks: seq<ValueKind>, tokens: seq<string>, e: Error, ff: FloatFormat)
  {
    e.InvalidToken? && exists i :: 0 <= i < |tokens| && FirstBadAt(ks, tokens, i, ff) && tokens[i] == e.token && ks[i] == e.kind
  }

  /** A first bad token in a prefix stays the first bad token of the whole. */
  lemma BlamesBefore(ks1: seq<ValueKind>, t1: seq<string>, ks2: seq<ValueKind>, t2: seq<string>, e: Error, ff: FloatFormat)
    requires Blames(ks1, t1, e, ff) && |ks2| == |t2|
    ensures Blames(ks1 + ks2, t1 + t2, e, ff)
  {
    var i :| 0 <= i < |t1| && FirstBadAt(ks1, t1, i, ff) && t1[i] == e.token && ks1[i] == e.kind;
    forall j | 0 <= j <= i
      ensures (ks1 + ks2)[j] == ks1[j] && (t1 + t2)[j] == t1[j]
    {
    }
    assert FirstBadAt(ks1 + ks2, t1 + t2, i, ff);
  }

  /** After a prefix whose tokens all parse, the first bad token of the rest is the first of the whole. */
  lemma BlamesAfter(ks1: seq<ValueKind>, t1: seq<string>, ks2: seq<ValueKind>, t2: seq<string>, e: Error, ff: FloatFormat)
    requires |ks1| == |t1| && AllParse(ks1, t1, ff) && Blames(ks2, t2, e, ff)
    ensures Blames(ks1 + ks2, t1 + t2, e, ff)
  {
    var i :| 0 <= i < |t2| && FirstBadAt(ks2, t2, i, ff) && t2[i] == e.token && ks2[i] == e.kind;
    var n := |t1|;
    ParsesBeforeAfter(ks1, t1, ks2, t2, i, ff);
    assert (ks1 + ks2)[n + i] == ks2[i] && (t1 + t2)[n + i] == t2[i];
    assert FirstBadAt(ks1 + ks2, t1 + t2, n + i, ff);
  }

  /** Tokens that all parse, followed by tokens whose first `i` parse, give `|t1| + i` tokens that parse. */
  lemma ParsesBeforeAfter(ks1: seq<ValueKind>, t1: seq<string>, ks2: seq<ValueKind>, t2: seq<string>, i: nat, ff: FloatFormat)
    requires |ks1| == |t1| && AllParse(ks1, t1, ff)
    requires |ks2| == |t2| && i <= |t2|
    requires forall j :: 0 <= j < i ==> ParseScalar(ks2[j], t2[j], ff).Some?
    ensures forall j :: 0 <= j < |t1| + i ==> ParseScalar((ks1 + ks2)[j], (t1 + t2)[j], ff).Some?
  {
    var n := |t1|;
    forall j | 0 <= j < n + i
      ensures ParseScalar((ks1 + ks2)[j], (t1 + t2)[j], ff).Some?
    {
      if j < n {
        assert (ks1 + ks2)[j] == ks1[j] && (t1 + t2)[j] == t1[j];
      } else {
        assert (ks1 + ks2)[j] == ks2[j - n] && (t1 + t2)[j] == t2[j - n];
      }
    }
  }

  /** A line's kinds and tokens split at the end of the first field. */
  lemma SplitAtFirstField(schema: Schema, tokens: seq<string>)
    requires |schema| > 0 && |tokens| == TotalCount(schema)
    ensures schema[0].count <= |tokens|
    ensures TokenKinds(schema) == Repeat(schema[0].kind, schema[0].count) + TokenKinds(schema[1..])
    ensures tokens == tokens[..schema[0].count] + tokens[schema[0].count..]
    ensures |tokens[schema[0].count..]| == TotalCount(schema[1..])
  {
  }

  /** A bad token in the first field is the first bad token of the line. */
  lemma BlamesInHead(schema: Schema, tokens: seq<string>, e: Error, ff: FloatFormat)
    requires |schema| > 0 && |tokens| == TotalCount(schema)
    requires ParseValues(schema[0].kind, tokens[..schema[0].count], ff) == Failure(e)
    ensures Blames(TokenKinds(schema), tokens, e, ff)
  {
    SplitAtFirstField(schema, tokens);
    var n := schema[0].count;
    BlamesBefore(Repeat(schema[0].kind, n), tokens[..n], TokenKinds(schema[1..]), tokens[n..], e, ff);
  }

  /** When the first field parses, the first bad token of the rest is the first bad token of the line. */
  lemma BlamesInTail(schema: Schema, tokens: seq<string>, e: Error, ff: FloatFormat)
    requires |schema| > 0 && |tokens| == TotalCount(schema)
    requires ParseValues(schema[0].kind, tokens[..schema[0].count], ff).Success?
    requires Blames(TokenKinds(schema[1..]), tokens[schema[0].count..], e, ff)
    ensures Blames(TokenKinds(schema), tokens, e, ff)
  {
    SplitAtFirstField(schema, tokens);
    var n := schema[0].count;
    var k := schema[0].kind;
    assert AllParse(Repeat(k, n), tokens[..n], ff);
    BlamesAfter(Repeat(k, n), tokens[..n], TokenKinds(schema[1..]), tokens[n..], e, ff);
  }

  /**
   * The error names the token that actually failed: with an `i8` field and
   * then a `u8` field, the tokens `-1 x` fail on `x` read as `u8`, not on
   * `-1`, which parses as `i8` although it would not parse as `u8`.
   */
  lemma ParseFieldsBlamesExample(ff: FloatFormat)
    ensures ParseFields([FieldDef("a", ValueKind.I8, 1), FieldDef("b", ValueKind.U8, 1)], ["-1", "x"], ff)
            == Failure(InvalidToken("x", ValueKind.U8))
  {
    var schema := [FieldDef("a", ValueKind.I8, 1), FieldDef("b", ValueKind.U8, 1)];
    var tokens := ["-1", "x"];
    assert ParseScalar(ValueKind.I8, "-1", ff) == Some(-1) by {
      ParseIntegerOfDecimal(-1, true);
      assert IntToDecimal(-1) == "-1";
    }
    assert ParseScalar(ValueKind.U8, "x", ff).None?;
    assert tokens[..1] == ["-1"] && tokens[1..] == ["x"];
    assert schema[1..] == [FieldDef("b", ValueKind.U8, 1)];
  }

  /** Parsing position by position composes over concatenation. */
  lemma ParsesAsConcat(ks1: seq<ValueKind>, t1: seq<string>, v1: seq<int>,
                       ks2: seq<ValueKind>, t2: seq<string>, v2: seq<int>, ff: FloatFormat)
    requires ParsesAs(ks1, t1, v1, ff) && ParsesAs(ks2, t2, v2, ff)
    ensures ParsesAs(ks1 + ks2, t1 + t2, v1 + v2, ff)
  {
    forall i | 0 <= i < |t1 + t2|
      ensures ParseScalar((ks1 + ks2)[i], (t1 + t2)[i], ff) == Some((v1 + v2)[i])
    {
      if i >= |t1| {
        var j := i - |t1|;
        assert (ks1 + ks2)[i] == ks2[j] && (t1 + t2)[i] == t2[j] && (v1 + v2)[i] == v2[j];
      }
    }
  }

  /** The values of one field are the parses of its tokens as the field's kind. */
  lemma ParseValuesParses(k: ValueKind, tokens: seq<string>, vs: seq<int>, ff: FloatFormat)
    requires ParseValues(k, tokens, ff) == Success(vs)
    ensures ParsesAs(Repeat(k, |tokens|), tokens, vs, ff)
  {
  }

  /** The first field's parses followed by the rest's are the parses of all the tokens. */
  lemma ParsedCons(schema: Schema, tokens: seq<string>, vs: seq<int>, fs: seq<Field>, ff: FloatFormat)
    requires |schema| > 0 && |tokens| == TotalCount(schema)
    requires ParseValues(schema[0].kind, tokens[..schema[0].count], ff) == Success(vs)
    requires ParsesAs(TokenKinds(schema[1..]), tokens[schema[0].count..], FlatValues(fs), ff)
    ensures ParsesAs(TokenKinds(schema), tokens, FlatValues([MakeField(schema[0].kind, vs)] + fs), ff)
  {
    var k := schema[0].kind;
    var n := schema[0].count;
    SplitAtFirstField(schema, tokens);
    FlatValuesCons(MakeField(k, vs), fs);
    ParseValuesParses(k, tokens[..n], vs, ff);
    ParsesAsConcat(Repeat(k, n), tokens[..n], vs, TokenKinds(schema[1..]), tokens[n..], FlatValues(fs), ff);
  }

  /**
   * `DynRecord::read_line`: reads one line; when its token count differs
   * from the schema's total element count it fails with that mismatch and
   * yields no record; otherwise the tokens are parsed in schema order.
   */
  function ReadLine(input: string, schema: Schema, ff: FloatFormat): (res: Result<(DynRecord, string), Error>)
    ensures var found := |SplitAsciiWhitespace(TakeLine(input).0)|;
            found != TotalCount(schema) ==> res == Failure(Pcd(TextTokenMismatchError(TotalCount(schema), found)))
    ensures var tokens := SplitAsciiWhitespace(TakeLine(input).0);
            |tokens| == TotalCount(schema) && res.Failure? ==>
              res.error.InvalidToken? && res.error.token in tokens && ParseScalar(res.error.kind, res.error.token, ff).None?
    ensures var tokens := SplitAsciiWhitespace(TakeLine(input).0);
            |tokens| == TotalCount(schema) && res.Failure? ==> Blames(TokenKinds(schema), tokens, res.error, ff)
    ensures res.Success? ==> IsSchemaConsistent(res.value.0, schema)
    ensures res.Success? ==> res.value.1 == TakeLine(input).1
    ensures res.Success? ==>
              ParsesAs(TokenKinds(schema), SplitAsciiWhitespace(TakeLine(input).0), FlatValues(res.value.0.fields), ff)
  {
    var (line, rest) := TakeLine(input);
    var tokens := SplitAsciiWhitespace(line);
    var expected := TotalCount(schema);
    if |tokens| != expected then Failure(Pcd(NewTextTokenMismatchError(expected, |tokens|)))
    else
      match ParseFields(schema, tokens, ff)
      case Failure(e) => Failure(e)
      case Success(fs) =>
        SchemaConsistentIff(DynRecord(fs), schema);
        Success((DynRecord(fs), rest))
  }

  /** `n` copies of the kind `k`: the kinds of one field's token positions. */
  function Repeat(k: ValueKind, n: nat): (ks: seq<ValueKind>)
    ensures |ks| == n
    ensures forall i :: 0 <= i < n ==> ks[i] == k
  {
    if n == 0 then [] else [k] + Repeat(k, n - 1)
  }

  /** The kind each token position of a line must parse as. */
  function TokenKinds(schema: Schema): (ks: seq<ValueKind>)
    ensures |ks| == TotalCount(schema)
  {
    if |schema| == 0 then [] else Repeat(schema[0].kind, schema[0].count) + TokenKinds(schema[1..])
  }

  /** Every token parses as the kind at its position. */
  predicate AllParse(ks: seq<ValueKind>, tokens: seq<string>, ff: FloatFormat)
    requires |ks| == |tokens|
  {
    forall i :: 0 <= i < |tokens| ==> ParseScalar(ks[i], tokens[i], ff).Some?
  }

  lemma AllParseSplit(ks: seq<ValueKind>, tokens: seq<string>, n: nat, ff: FloatFormat)
    requires |ks| == |tokens| && n <= |tokens|
    ensures AllParse(ks, tokens, ff) <==> AllParse(ks[..n], tokens[..n], ff) && AllParse(ks[n..], tokens[n..], ff)
  {
    if AllParse(ks[..n], tokens[..n], ff) && AllParse(ks[n..], tokens[n..], ff) {
      forall i | 0 <= i < |tokens|
        ensures ParseScalar(ks[i], tokens[i], ff).Some?
      {
        if i < n {
          assert ks[..n][i] == ks[i] && tokens[..n][i] == tokens[i];
        } else {
          assert ks[n..][i - n] == ks[i] && tokens[n..][i - n] == tokens[i];
        }
      }
    }
  }

  lemma {:induction false} ParseFieldsSucceedsIff(schema: Schema, tokens: seq<string>, ff: FloatFormat)
    requires |tokens| == TotalCount(schema)
    ensures ParseFields(schema, tokens, ff).Success? <==> AllParse(TokenKinds(schema), tokens, ff)
  {
    if |schema| > 0 {
      var def := schema[0];
      var n := def.count;
      var ks := TokenKinds(schema);
      assert ks[..n] == Repeat(def.kind, n);
      assert ks[n..] == TokenKinds(schema[1..]);
      AllParseSplit(ks, tokens, n, ff);
      ParseFieldsSucceedsIff(schema[1..], tokens[n..], ff);
      assert ParseValues(def.kind, tokens[..n], ff).Success? <==> AllParse(ks[..n], tokens[..n], ff);
    }
  }

  /**
   * With the right number of tokens, `read_line` yields a record exactly when
   * every token parses as the kind of its schema position: a single bad token
   * fails the whole record.
   */
  lemma ReadLineSucceedsIff(input: string, schema: Schema, ff: FloatFormat)
    requires |SplitAsciiWhitespace(TakeLine(input).0)| == TotalCount(schema)
    ensures var tokens := SplitAsciiWhitespace(TakeLine(input).0);
            ReadLine(input, schema, ff).Success?
            <==> forall i :: 0 <= i < |tokens| ==> ParseScalar(TokenKinds(schema)[i], tokens[i], ff).Some?
  {
    ParseFieldsSucceedsIff(schema, SplitAsciiWhitespace(TakeLine(input).0), ff);
  }

  // ------------------------------------------------------------ round trip

  lemma {:induction false} ParseValuesOfTokens(k: ValueKind, vs: seq<int>, ff: FloatFormat)
    requires AllInRange(k, vs) && KindLossless(k, ff)
    ensures ParseValues(k, ValueTokens(k, vs, ff), ff) == Success(vs)
  {
    var ts := ValueTokens(k, vs, ff);
    forall i | 0 <= i < |vs|
      ensures ParseScalar(k, ts[i], ff) == Some(vs[i])
    {
      ScalarTokenRoundTrip(k, vs[i], ff);
    }
    var res := ParseValues(k, ts, ff);
    assert res.Success?;
    assert forall i :: 0 <= i < |vs| ==> res.value[i] == vs[i];
    assert res.value == vs;
  }

  lemma {:induction false} RecordTokensAreTokens(fields: seq<Field>, schema: Schema, ff: FloatFormat)
    requires Conforms(fields, schema) && TextLossless(schema, ff)
    ensures forall i :: 0 <= i < |RecordTokens(fields, ff)| ==> IsToken(RecordTokens(fields, ff)[i])
  {
    if |fields| > 0 {
      var f := fields[0];
      var head := ValueTokens(f.Kind(), f.Values(), ff);
      forall i | 0 <= i < |head|
        ensures IsToken(head[i])
      {
        ScalarTokenRoundTrip(f.Kind(), f.Values()[i], ff);
      }
      RecordBinary.ConformsTail(fields, schema);
      RecordTokensAreTokens(fields[1..], schema[1..], ff);
    }
  }

  lemma {:induction false} ParseFieldsOfTokens(fields: seq<Field>, schema: Schema, ff: FloatFormat)
    requires Conforms(fields, schema) && TextLossless(schema, ff)
    ensures |RecordTokens(fields, ff)| == TotalCount(schema)
    ensures ParseFields(schema, RecordTokens(fields, ff), ff) == Success(fields)
  {
    RecordTokensCount(fields, schema, ff);
    if |fields| > 0 {
      var f := fields[0];
      var tokens := RecordTokens(fields, ff);
      var head := ValueTokens(f.Kind(), f.Values(), ff);
      var n := schema[0].count;
      assert tokens[..n] == head;
      assert tokens[n..] == RecordTokens(fields[1..], ff);
      ParseValuesOfTokens(f.Kind(), f.Values(), ff);
      RecordBinary.ConformsTail(fields, schema);
      ParseFieldsOfTokens(fields[1..], schema[1..], ff);
      MakeFieldOfParts(f);
      assert [f] + fields[1..] == fields;
    }
  }

  /**
   * The layout of a written line, stated through the reader's own splitting:
   * it is exactly one line, whatever follows it, and its whitespace-separated
   * tokens are the record's rendered values in field order. Float tokens
   * come from the `FloatFormat` parameter, so the format must render them
   * as tokens (`TextLossless`).
   */
  lemma WrittenLineSplits(r: DynRecord, schema: Schema, ff: FloatFormat, rest: string)
    requires WriteLine(r, schema, ff).Success?
    requires TextLossless(schema, ff)
    ensures TakeLine(WriteLine(r, schema, ff).value + rest) == (WriteLine(r, schema, ff).value, rest)
    ensures SplitAsciiWhitespace(WriteLine(r, schema, ff).value) == RecordTokens(r.fields, ff)
    ensures |SplitAsciiWhitespace(WriteLine(r, schema, ff).value)| == TotalCount(schema)
  {
    SchemaConsistentIff(r, schema);
    var tokens := RecordTokens(r.fields, ff);
    var joined := JoinSpaces(tokens);
    RecordTokensAreTokens(r.fields, schema, ff);
    JoinNoNewline(tokens);
    TakeLineOf(joined, rest);
    assert WriteLine(r, schema, ff).value == joined + "\n";
    SplitJoin(tokens, "\n");
  }

  /**
   * ASCII round trip: reading back the line `write_line` wrote yields the
   * same record and leaves exactly the text after that line (for integer
   * kinds always, for float kinds when the float format is lossless).
   */
  lemma LineRoundTrip(r: DynRecord, schema: Schema, ff: FloatFormat, rest: string)
    requires WriteLine(r, schema, ff).Success?
    requires TextLossless(schema, ff)
    ensures ReadLine(WriteLine(r, schema, ff).value + rest, schema, ff) == Success((r, rest))
  {
    SchemaConsistentIff(r, schema);
    var tokens := RecordTokens(r.fields, ff);
    var joined := JoinSpaces(tokens);
    RecordTokensAreTokens(r.fields, schema, ff);
    JoinNoNewline(tokens);
    TakeLineOf(joined, rest);
    assert WriteLine(r, schema, ff).value + rest == joined + "\n" + rest;
    SplitJoin(tokens, "\n");
    ParseFieldsOfTokens(r.fields, schema, ff);
  }

  // ------------------------------------------------------ primitive types

  /**
   * A primitive type's `read_line` as written: it parses the line exactly as
   * `BufRead::read_line` returned it, line feed included.
   */
  function PrimitiveReadLineAsWritten(k: ValueKind, input: string, ff: FloatFormat): (res: Result<(int, string), Error>)
    ensures res.Success? ==> InRange(k, res.value.0) && res.value.1 == TakeLine(input).1
    ensures res.Success? <==> ParseScalar(k, TakeLine(input).0, ff).Some?
  {
    var (line, rest) := TakeLine(input);
    match ParseScalar(k, line, ff)
    case None => Failure(InvalidToken(line, k))
    case Some(v) => Success((v, rest))
  }

  /** The line feed `read_line` keeps makes every terminated integer line fail to parse. */
  lemma PrimitiveReadLineAsWrittenRejects(k: ValueKind, v: int, rest: string, ff: FloatFormat)
    requires InRange(k, v) && !IsFloat(k)
    ensures PrimitiveReadLineAsWritten(k, ScalarToken(k, v, ff) + "\n" + rest, ff).Failure?
  {
    var t := ScalarToken(k, v, ff);
    ScalarTokenRoundTrip(k, v, ff);
    NoNewlineInToken(t);
    TakeLineOf(t, rest);
    var line := t + "\n";
    assert line[|line| - 1] == '\n';
    assert !IsDigit(line[|line| - 1]);
  }

  lemma NoNewlineInToken(t: string)
    requires IsToken(t)
    ensures forall i :: 0 <= i < |t| ==> t[i] != '\n'
  {
  }

  /** Concretely: the line "5\n" does not read as the `u8` 5. */
  lemma PrimitiveReadLineAsWrittenExample(ff: FloatFormat)
    ensures PrimitiveReadLineAsWritten(ValueKind.U8, "5\n", ff).Failure?
  {
    PrimitiveReadLineAsWrittenRejects(ValueKind.U8, 5, "", ff);
    assert ScalarToken(ValueKind.U8, 5, ff) == "5";
  }

  /**
   * What `read_line` on the one-field schema of a primitive gives: a line
   * with a token count other than 1 fails with that mismatch, a single
   * token that does not parse is blamed, and otherwise the record holds the
   * one parsed value and exactly one line is consumed. Names play no part.
   */
  lemma SingleFieldRead(k: ValueKind, name: string, input: string, ff: FloatFormat)
    ensures var tokens := SplitAsciiWhitespace(TakeLine(input).0);
            |tokens| != 1 ==> ReadLine(input, PrimitiveSchema(k, name), ff) == Failure(Pcd(TextTokenMismatchError(1, |tokens|)))
    ensures var tokens := SplitAsciiWhitespace(TakeLine(input).0);
            |tokens| == 1 && ReadLine(input, PrimitiveSchema(k, name), ff).Failure? ==>
              ReadLine(input, PrimitiveSchema(k, name), ff).error == InvalidToken(tokens[0], k)
    ensures var tokens := SplitAsciiWhitespace(TakeLine(input).0);
            ReadLine(input, PrimitiveSchema(k, name), ff).Success? <==> |tokens| == 1 && ParseScalar(k, tokens[0], ff).Some?
    ensures var tokens := SplitAsciiWhitespace(TakeLine(input).0);
            ReadLine(input, PrimitiveSchema(k, name), ff).Success? ==>
              ReadLine(input, PrimitiveSchema(k, name), ff).value
              == (DynRecord([MakeField(k, [ParseScalar(k, tokens[0], ff).value])]), TakeLine(input).1)
  {
    var schema := PrimitiveSchema(k, name);
    var tokens := SplitAsciiWhitespace(TakeLine(input).0);
    var res := ReadLine(input, schema, ff);
    assert schema[1..] == [];
    assert TotalCount(schema) == 1;
    assert TokenKinds(schema) == [k];
    if |tokens| == 1 {
      ReadLineSucceedsIff(input, schema, ff);
      if res.Success? {
        var fields := res.value.0.fields;
        SchemaConsistentIff(res.value.0, schema);
        assert fields[1..] == [];
        assert FlatValues(fields) == fields[0].Values();
        MakeFieldOfParts(fields[0]);
        var vs := FlatValues(fields);
        assert |vs| == 1 && ParseScalar(k, tokens[0], ff) == Some(vs[0]);
        assert fields[0].Values() == [vs[0]];
        assert fields == [MakeField(k, [vs[0]])];
      } else {
        var i :| 0 <= i < |tokens| && FirstBadAt(TokenKinds(schema), tokens, i, ff)
                 && tokens[i] == res.error.token && TokenKinds(schema)[i] == res.error.kind;
        assert i == 0;
      }
    }
  }

  /**
   * A primitive type's `read_line` as evidently intended: the one-field
   * record read of its `read_spec`, projected to the value. The line is
   * split at whitespace, so a line feed, a carriage return or padding
   * around the literal is not part of it.
   */
  function PrimitiveReadLine(k: ValueKind, input: string, ff: FloatFormat): (res: Result<(int, string), Error>)
    ensures var tokens := SplitAsciiWhitespace(TakeLine(input).0);
            res.Success? <==> |tokens| == 1 && ParseScalar(k, tokens[0], ff).Some?
    ensures var tokens := SplitAsciiWhitespace(TakeLine(input).0);
            res.Success? ==> |tokens| == 1 && ParseScalar(k, tokens[0], ff) == Some(res.value.0) && res.value.1 == TakeLine(input).1
    ensures var tokens := SplitAsciiWhitespace(TakeLine(input).0);
            |tokens| != 1 ==> res == Failure(Pcd(TextTokenMismatchError(1, |tokens|)))
    ensures var tokens := SplitAsciiWhitespace(TakeLine(input).0);
            |tokens| == 1 && res.Failure? ==> res.error == InvalidToken(tokens[0], k)
  {
    SingleFieldRead(k, "", input, ff);
    match ReadLine(input, PrimitiveSchema(k, ""), ff)
    case Failure(e) => Failure(e)
    case Success((r, rest)) => Success((r.fields[0].Values()[0], rest))
  }

  /**
   * A primitive type reads a line like a record with the one field its
   * `read_spec` describes, whatever the field is called: the same success
   * condition, value, remaining input and error.
   */
  lemma PrimitiveLineIsSingleField(k: ValueKind, name: string, input: string, ff: FloatFormat)
    ensures PrimitiveReadLine(k, input, ff).Success? <==> ReadLine(input, PrimitiveSchema(k, name), ff).Success?
    ensures PrimitiveReadLine(k, input, ff).Success? ==>
              ReadLine(input, PrimitiveSchema(k, name), ff).value
              == (DynRecord([MakeField(k, [PrimitiveReadLine(k, input, ff).value.0])]), PrimitiveReadLine(k, input, ff).value.1)
    ensures PrimitiveReadLine(k, input, ff).Failure? ==>
              ReadLine(input, PrimitiveSchema(k, name), ff) == Failure(PrimitiveReadLine(k, input, ff).error)
  {
    SingleFieldRead(k, name, input, ff);
  }

  /** The corrected `read_line` reads back a value written as one terminated line. */
  lemma PrimitiveLineRoundTrip(k: ValueKind, v: int, rest: string, ff: FloatFormat)
    requires InRange(k, v) && KindLossless(k, ff)
    ensures PrimitiveReadLine(k, ScalarToken(k, v, ff) + "\n" + rest, ff) == Success((v, rest))
  {
    var t := ScalarToken(k, v, ff);
    ScalarTokenRoundTrip(k, v, ff);
    NoNewlineInToken(t);
    TakeLineOf(t, rest);
    assert JoinSpaces([t]) == t;
    SplitJoin([t], "\n");
  }

  /** Concretely: the corrected read takes "5\r\n" as the `u8` 5, as the one-field record read does. */
  lemma PrimitiveReadLineCrlfExample(ff: FloatFormat)
    ensures PrimitiveReadLine(ValueKind.U8, "5\r\n", ff) == Success((5, ""))
  {
    assert forall i :: 0 <= i < |"5\r"| ==> "5\r"[i] != '\n';
    TakeLineOf("5\r", "");
    assert "5\r" + "\n" == "5\r\n" && "5\r" + "\n" + "" == "5\r\n";
    assert JoinSpaces(["5"]) + "\r\n" == "5\r\n";
    SplitJoin(["5"], "\r\n");
    assert ParseScalar(ValueKind.U8, "5", ff) == Some(5) by {
      ParseIntegerOfDecimal(5, false);
      assert IntToDecimal(5) == "5";
    }
  }
}
