/**
 * The sequential writer: emits the header, reserves a fixed-width `POINTS`
 * slot, appends one encoded record per `push`, and after each successful
 * push rewrites the slot with the running count and returns the cursor to
 * the end of the data.
 */
module SeqWriter {
  import opened Wrappers
  import opened Metas
  import opened Text

  // ------------------------------------------------------------------ sink

  /** A seekable byte sink: its contents and its cursor. */
  datatype Sink = Sink(buf: seq<Byte>, pos: nat) {
    predicate Valid()
    {
      pos <= |buf|
    }
  }

  /** `buf` after `data` is written at offset `at`: bytes are replaced, and the buffer grows if needed. */
  function Overwrite(buf: seq<Byte>, at: nat, data: seq<Byte>): (r: seq<Byte>)
    requires at <= |buf|
    ensures |r| == if at + |data| <= |buf| then |buf| else at + |data|
    ensures r[..at] == buf[..at]
    ensures r[at..at + |data|] == data
    ensures at + |data| <= |buf| ==> r[at + |data|..] == buf[at + |data|..]
  {
    if at + |data| <= |buf| then buf[..at] + data + buf[at + |data|..] else buf[..at] + data
  }

  /** `Write::write_all` at the cursor, which then sits after the written bytes. */
  function WriteBytes(s: Sink, data: seq<Byte>): (r: Sink)
    requires s.Valid()
    ensures r.Valid() && r.pos == s.pos + |data|
  {
    Sink(Overwrite(s.buf, s.pos, data), s.pos + |data|)
  }

  /** `Seek::seek(SeekFrom::Start(p))` within the written bytes. */
  function SeekTo(s: Sink, p: nat): (r: Sink)
    requires p <= |s.buf|
    ensures r.Valid() && r.buf == s.buf && r.pos == p
  {
    Sink(s.buf, p)
  }

  /** Two writes in a row leave the same sink as one write of both. */
  lemma WriteBytesTwice(s: Sink, a: seq<Byte>, b: seq<Byte>)
    requires s.Valid()
    ensures WriteBytes(WriteBytes(s, a), b) == WriteBytes(s, a + b)
  {
    var p := s.pos;
    var once := WriteBytes(s, a + b).buf;
    var first := WriteBytes(s, a).buf;
    var twice := WriteBytes(WriteBytes(s, a), b).buf;
    assert |once| == |twice|;
    forall i | 0 <= i < |once|
      ensures once[i] == twice[i]
    {
      OverwriteAt(s.buf, p, a + b, i);
      OverwriteAt(first, p + |a|, b, i);
      if i < p + |a| {
        OverwriteAt(s.buf, p, a, i);
        if p <= i {
          assert (a + b)[i - p] == a[i - p];
        }
      } else if i < p + |a| + |b| {
        assert (a + b)[i - p] == b[i - p - |a|];
      } else {
        OverwriteAt(s.buf, p, a, i);
      }
    }
  }

  /** One byte of an overwritten buffer: from the data inside its range, from the old buffer elsewhere. */
  lemma OverwriteAt(buf: seq<Byte>, at: nat, data: seq<Byte>, i: nat)
    requires at <= |buf| && i < |Overwrite(buf, at, data)|
    ensures Overwrite(buf, at, data)[i] == if at <= i < at + |data| then data[i - at] else buf[i]
  {
    var r := Overwrite(buf, at, data);
    if i < at {
      assert r[i] == r[..at][i];
    } else if i < at + |data| {
      assert r[i] == r[at..at + |data|][i - at];
    } else {
      assert r[i] == r[at + |data|..][i - at - |data|];
    }
  }

  // ---------------------------------------------------------------- header

  /** A `record_spec` entry: field name, kind and element count. */
  type RecordSpecEntry = (string, ValueKind, nat)

  /**
   * What `SeqWriterBuilder::new` stores; `recordSpec` stands for the value
   * `T::write_spec()` returned. `new` validates nothing.
   */
  datatype Builder = Builder(
    width: nat,
    height: nat,
    viewpoint: ViewPoint,
    dataKind: DataKind,
    recordSpec: seq<RecordSpecEntry>)

  /**
   * Characters reserved after `POINTS `: the decimal digits of the largest
   * `usize`, `floor(log10(usize::MAX)) + 1`, which is 20 on a 64-bit target.
   */
  const PointsArgWidth: nat := 20

  /** The `SIZE` entry of a kind: the bytes one value takes in a binary chunk. */
  function HeaderSize(k: ValueKind): (n: nat)
    ensures n == Width(k)
  {
    match k
    case U8 | I8 => 1
    case U16 | I16 => 2
    case U32 | I32 | F32 => 4
    case F64 => 8
  }

  /** The `TYPE` entry of a kind: `I` for signed, `F` for floating point, `U` otherwise. */
  function TypeArg(k: ValueKind): (t: string)
    ensures t == "I" <==> IsSigned(k)
    ensures t == "F" <==> IsFloat(k)
    ensures t == "U" <==> !IsSigned(k) && !IsFloat(k)
    ensures (t == "I" || t == "U") ==> (MinValue(k) < 0 <==> t == "I")
  {
    match k
    case U8 | U16 | U32 => "U"
    case I8 | I16 | I32 => "I"
    case F32 | F64 => "F"
  }

  function FieldsArgs(spec: seq<RecordSpecEntry>): seq<string>
  {
    seq(|spec|, i requires 0 <= i < |spec| => spec[i].0)
  }

  function SizeArgs(spec: seq<RecordSpecEntry>): seq<string>
  {
    seq(|spec|, i requires 0 <= i < |spec| => NatToDecimal(HeaderSize(spec[i].1)))
  }

  function TypeArgs(spec: seq<RecordSpecEntry>): seq<string>
  {
    seq(|spec|, i requires 0 <= i < |spec| => TypeArg(spec[i].1))
  }

  function CountArgs(spec: seq<RecordSpecEntry>): seq<string>
  {
    seq(|spec|, i requires 0 <= i < |spec| => NatToDecimal(spec[i].2))
  }

  /** The seven viewpoint numbers, in the order tx ty tz qw qx qy qz. */
  function ViewpointArgs(vp: ViewPoint, showF64: F64Bits -> string): seq<string>
  {
    [showF64(vp.tx), showF64(vp.ty), showF64(vp.tz), showF64(vp.qw), showF64(vp.qx), showF64(vp.qy), showF64(vp.qz)]
  }

  /** The leading word of each header line, in the order the lines are written. */
  const Keywords: seq<string> :=
    ["#", "VERSION", "FIELDS", "SIZE", "TYPE", "COUNT", "WIDTH", "HEIGHT", "VIEWPOINT", "POINTS", "DATA"]

  /** The text of the comment line that opens every file. */
  const Banner: string := ".PCD v.7 - Point Cloud Data file format"

  /** A header line: its keyword, a space and the rest. */
  function HeaderLine(key: string, arg: string): string
  {
    key + " " + arg
  }

  function DataArg(kind: DataKind): string
  {
    match kind
    case Binary => "binary"
    case Ascii => "ascii"
  }

  function DataLine(kind: DataKind): string
  {
    HeaderLine("DATA", DataArg(kind))
  }

  /** `{:width$}` of `" "`: a space padded to the reserved width. */
  function EmptySlot(): string
  {
    PadRight(" ", PointsArgWidth)
  }

  /** What follows the keyword on each header line, in order. */
  function HeaderArgs(b: Builder, showF64: F64Bits -> string): (args: seq<string>)
    ensures |args| == |Keywords|
  {
    [ Banner,
      ".7",
      JoinSpaces(FieldsArgs(b.recordSpec)),
      JoinSpaces(SizeArgs(b.recordSpec)),
      JoinSpaces(TypeArgs(b.recordSpec)),
      JoinSpaces(CountArgs(b.recordSpec)),
      NatToDecimal(b.width),
      NatToDecimal(b.height),
      JoinSpaces(ViewpointArgs(b.viewpoint, showF64)),
      EmptySlot(),
      DataArg(b.dataKind) ]
  }

  /** The header lines `write_meta` emits, in order, without their line feeds. */
  function HeaderLines(b: Builder, showF64: F64Bits -> string): (ls: seq<string>)
    ensures |ls| == |Keywords|
  {
    var args := HeaderArgs(b, showF64);
    seq(|Keywords|, i requires 0 <= i < |Keywords| => HeaderLine(Keywords[i], args[i]))
  }

  /** Each line followed by a line feed. */
  function Lines(ls: seq<string>): string
  {
    if |ls| == 0 then "" else ls[0] + "\n" + Lines(ls[1..])
  }

  lemma {:induction false} LinesAppend(a: seq<string>, b: seq<string>)
    ensures Lines(a + b) == Lines(a) + Lines(b)
  {
    if |a| > 0 {
      assert (a + b)[1..] == a[1..] + b;
      LinesAppend(a[1..], b);
    } else {
      assert a + b == b;
    }
  }

  /** The header up to and including `POINTS `: where the count slot begins. */
  function HeaderPrefix(b: Builder, showF64: F64Bits -> string): string
  {
    Lines(HeaderLines(b, showF64)[..9]) + "POINTS "
  }

  function HeaderText(b: Builder, showF64: F64Bits -> string): string
  {
    Lines(HeaderLines(b, showF64))
  }

  lemma HeaderTextSplit(b: Builder, showF64: F64Bits -> string)
    ensures HeaderText(b, showF64) == HeaderPrefix(b, showF64) + (EmptySlot() + "\n") + (DataLine(b.dataKind) + "\n")
  {
    var ls := HeaderLines(b, showF64);
    assert ls == ls[..9] + [ls[9]] + [ls[10]];
    LinesAppend(ls[..9] + [ls[9]], [ls[10]]);
    LinesAppend(ls[..9], [ls[9]]);
    assert Lines([ls[9]]) == "POINTS " + EmptySlot() + "\n";
    assert Lines([ls[10]]) == DataLine(b.dataKind) + "\n";
  }

  /** `line` is `key`, a space, and then anything. */
  predicate StartsWithKeyword(line: string, key: string)
  {
    |key| < |line| && line[..|key| + 1] == key + " "
  }

  /** A line that starts with a keyword and a space splits into words with the keyword first. */
  lemma KeywordFirstWord(line: string, key: string)
    requires IsToken(key) && StartsWithKeyword(line, key)
    ensures var ts := SplitAsciiWhitespace(line);
            |ts| > 0 && ts[0] == key
  {
    var rest := line[|key| + 1..];
    assert line == key + (" " + rest) by {
      assert line == line[..|key| + 1] + rest;
    }
    SplitToken(key, " " + rest);
  }

  /** Hence splitting any header line into words gives its keyword first. */
  lemma HeaderLineWords(b: Builder, showF64: F64Bits -> string, i: nat)
    requires i < |Keywords|
    ensures var ts := SplitAsciiWhitespace(HeaderLines(b, showF64)[i]);
            |ts| > 0 && ts[0] == Keywords[i]
  {
    var key := Keywords[i];
    var line := HeaderLines(b, showF64)[i];
    assert line == key + " " + HeaderArgs(b, showF64)[i];
    assert line[..|key| + 1] == key + " ";
    assert IsToken(key);
    KeywordFirstWord(line, key);
  }

  /** A keyword followed by space-joined arguments splits back into the keyword and the arguments. */
  lemma KeywordLine(key: string, args: seq<string>)
    requires IsToken(key)
    requires forall i :: 0 <= i < |args| ==> IsToken(args[i])
    ensures SplitAsciiWhitespace(key + " " + JoinSpaces(args)) == [key] + args
  {
    if |args| == 0 {
      assert key + " " + JoinSpaces(args) == key + " ";
      SplitToken(key, " ");
      SplitAllWhitespace(" ");
    } else {
      assert key + " " + JoinSpaces(args) == JoinSpaces([key] + args) + "" by {
        assert ([key] + args)[1..] == args;
      }
      SplitJoin([key] + args, "");
    }
  }

  /** A decimal numeral is a token. */
  lemma DecimalIsToken(n: nat)
    ensures IsToken(NatToDecimal(n))
  {
    var s := NatToDecimal(n);
    assert forall i :: 0 <= i < |s| ==> IsDigit(s[i]);
  }

  /** Each `SIZE`, `TYPE` and `COUNT` entry is one word; the numbers read back as the width and the count. */
  lemma SpecArgs(spec: seq<RecordSpecEntry>, i: nat)
    requires i < |spec|
    ensures IsToken(SizeArgs(spec)[i]) && IsToken(TypeArgs(spec)[i]) && IsToken(CountArgs(spec)[i])
    ensures DigitsValue(SizeArgs(spec)[i]) == Width(spec[i].1)
    ensures DigitsValue(CountArgs(spec)[i]) == spec[i].2
  {
    DecimalIsToken(HeaderSize(spec[i].1));
    DecimalIsToken(spec[i].2);
    DigitsValueOfDecimal(HeaderSize(spec[i].1));
    DigitsValueOfDecimal(spec[i].2);
  }

  /** Every `SIZE`, `TYPE` and `COUNT` entry is one word. */
  lemma SpecTokens(spec: seq<RecordSpecEntry>)
    ensures forall i :: 0 <= i < |spec| ==> IsToken(SizeArgs(spec)[i])
    ensures forall i :: 0 <= i < |spec| ==> IsToken(TypeArgs(spec)[i])
    ensures forall i :: 0 <= i < |spec| ==> IsToken(CountArgs(spec)[i])
  {
    forall i | 0 <= i < |spec|
      ensures IsToken(SizeArgs(spec)[i]) && IsToken(TypeArgs(spec)[i]) && IsToken(CountArgs(spec)[i])
    {
      SpecArgs(spec, i);
    }
  }

  lemma SizeLine(b: Builder, showF64: F64Bits -> string)
    ensures SplitAsciiWhitespace(HeaderLines(b, showF64)[3]) == ["SIZE"] + SizeArgs(b.recordSpec)
  {
    var args := SizeArgs(b.recordSpec);
    SpecTokens(b.recordSpec);
    assert HeaderLines(b, showF64)[3] == HeaderLine("SIZE", JoinSpaces(args));
    KeywordLine("SIZE", args);
  }

  lemma TypeLine(b: Builder, showF64: F64Bits -> string)
    ensures SplitAsciiWhitespace(HeaderLines(b, showF64)[4]) == ["TYPE"] + TypeArgs(b.recordSpec)
  {
    var args := TypeArgs(b.recordSpec);
    SpecTokens(b.recordSpec);
    assert HeaderLines(b, showF64)[4] == HeaderLine("TYPE", JoinSpaces(args));
    KeywordLine("TYPE", args);
  }

  lemma CountLine(b: Builder, showF64: F64Bits -> string)
    ensures SplitAsciiWhitespace(HeaderLines(b, showF64)[5]) == ["COUNT"] + CountArgs(b.recordSpec)
  {
    var args := CountArgs(b.recordSpec);
    SpecTokens(b.recordSpec);
    assert HeaderLines(b, showF64)[5] == HeaderLine("COUNT", JoinSpaces(args));
    KeywordLine("COUNT", args);
  }

  /**
   * The `SIZE`, `TYPE` and `COUNT` lines split into their keyword and then
   * one word per spec entry, in spec order.
   */
  lemma SizeTypeCountLines(b: Builder, showF64: F64Bits -> string)
    ensures var ls := HeaderLines(b, showF64);
            && SplitAsciiWhitespace(ls[3]) == ["SIZE"] + SizeArgs(b.recordSpec)
            && SplitAsciiWhitespace(ls[4]) == ["TYPE"] + TypeArgs(b.recordSpec)
            && SplitAsciiWhitespace(ls[5]) == ["COUNT"] + CountArgs(b.recordSpec)
  {
    SizeLine(b, showF64);
    TypeLine(b, showF64);
    CountLine(b, showF64);
  }

  // ---------------------------------------------------------------- writer

  /** `SeqWriter`: the sink, the builder's data, the running count and the slot. */
  datatype SeqWriter = SeqWriter(
    sink: Sink,
    builder: Builder,
    numRecords: nat,
    pointsArgBegin: nat,
    pointsArgWidth: nat)

  /** The text in the slot after `n` records: `{:<width$}` of `n`, or the blank reservation. */
  function SlotText(n: nat): (s: string)
    requires n <= UsizeMax
    ensures |s| == PointsArgWidth && IsAscii(s)
  {
    var digits := if n == 0 then " " else NatToDecimal(n);
    assert |digits| <= PointsArgWidth by {
      if n > 0 {
        Pow10Twenty();
        DecimalLength(n, 20);
      }
    }
    var s := PadRight(digits, PointsArgWidth);
    assert forall i :: 0 <= i < |digits| ==> s[i] == digits[i];
    s
  }

  lemma Pow10Twenty()
    ensures UsizeMax < Pow10(20)
  {
    assert Pow10(5) == 100000;
    assert Pow10(10) == 100000 * Pow10(5) by {
      assert Pow10(10) == 100000 * Pow10(5);
    }
    assert Pow10(15) == 100000 * Pow10(10);
    assert Pow10(20) == 100000 * Pow10(15);
  }

  /** The slot holds the count's digits (a blank space while there is none), then spaces. */
  lemma SlotLayout(n: nat)
    requires n <= UsizeMax
    ensures var digits := if n == 0 then " " else NatToDecimal(n);
            && |digits| <= PointsArgWidth
            && SlotText(n) == digits + SlotText(n)[|digits|..]
            && AllWhitespace(SlotText(n)[|digits|..])
  {
    var digits := if n == 0 then " " else NatToDecimal(n);
    var slot := SlotText(n);
    assert slot == PadRight(digits, PointsArgWidth);
    assert slot == slot[..|digits|] + slot[|digits|..];
  }

  /** The words of the slot: none while it is blank, otherwise the decimal count alone. */
  lemma SlotWords(n: nat)
    requires n <= UsizeMax
    ensures SplitAsciiWhitespace(SlotText(n)) == if n == 0 then [] else [NatToDecimal(n)]
  {
    var digits := if n == 0 then " " else NatToDecimal(n);
    var slot := SlotText(n);
    var pad := slot[|digits|..];
    SlotLayout(n);
    SplitAllWhitespace(pad);
    if n == 0 {
      assert AllWhitespace(slot) by {
        assert forall i :: 0 <= i < |slot| ==> slot[i] == (digits + pad)[i];
      }
      SplitAllWhitespace(slot);
    } else {
      DecimalIsToken(n);
      SplitToken(digits, pad);
    }
  }

  /** A `POINTS` line splits into the keyword followed by the words of its argument. */
  lemma PointsLineHead(arg: string)
    ensures SplitAsciiWhitespace(HeaderLine("POINTS", arg)) == ["POINTS"] + SplitAsciiWhitespace(arg)
  {
    assert HeaderLine("POINTS", arg) == "POINTS" + (" " + arg);
    SplitToken("POINTS", " " + arg);
    SplitLeadingWhitespace(" ", arg);
  }

  /**
   * The `POINTS` line after `n` records splits into the keyword and the
   * decimal count, which reads back as `n`; while nothing has been counted
   * the slot is blank and the line has no count word.
   */
  lemma PointsLineWords(n: nat)
    requires n <= UsizeMax
    ensures SplitAsciiWhitespace(HeaderLine("POINTS", SlotText(n)))
            == ["POINTS"] + (if n == 0 then [] else [NatToDecimal(n)])
    ensures n > 0 ==> DigitsValue(NatToDecimal(n)) == n
  {
    PointsLineHead(SlotText(n));
    SlotWords(n);
    DigitsValueOfDecimal(n);
  }

  /**
   * The writer's invariant: the slot and the line feed after it lie before
   * the cursor, the slot holds the current count, and the count fits a `usize`.
   */
  predicate Valid(w: SeqWriter)
  {
    && w.sink.Valid()
    && w.pointsArgWidth == PointsArgWidth
    && w.numRecords <= UsizeMax
    && w.pointsArgBegin + w.pointsArgWidth < w.sink.pos
    && w.sink.buf[w.pointsArgBegin..w.pointsArgBegin + w.pointsArgWidth] == Utf8(SlotText(w.numRecords))
    && w.sink.buf[w.pointsArgBegin + w.pointsArgWidth] == '\n' as int
  }

  /**
   * Writes `p`, a slot of `PointsArgWidth` blanks and a line feed, then `d`;
   * gives the sink, the slot's offset and its width.
   */
  function WriteReserved(sink: Sink, p: seq<Byte>, d: seq<Byte>): (r: (Sink, nat, nat))
    requires sink.Valid()
    ensures r.0.Valid() && r.2 == PointsArgWidth && r.1 == sink.pos + |p|
    ensures r.0.pos == sink.pos + |p| + PointsArgWidth + 1 + |d|
    ensures r.0.buf[..sink.pos] == sink.buf[..sink.pos]
    ensures r.0.buf[sink.pos..r.1] == p
    ensures forall i :: r.1 <= i < r.1 + r.2 ==> r.0.buf[i] == ' ' as int
    ensures r.0.buf[r.1 + r.2] == '\n' as int
    ensures r.0.buf[r.1 + r.2 + 1..r.0.pos] == d
  {
    ReservedParts(sink, p, d);
    ReservedSlot(sink, p, d);
    (WriteBytes(sink, p + Utf8(EmptySlot() + "\n") + d), sink.pos + |p|, PointsArgWidth)
  }

  /** The prefix and the suffix of a reserved write, and the bytes before it. */
  lemma ReservedParts(sink: Sink, p: seq<Byte>, d: seq<Byte>)
    requires sink.Valid()
    ensures var s := WriteBytes(sink, p + Utf8(EmptySlot() + "\n") + d);
            && s.pos == sink.pos + |p| + PointsArgWidth + 1 + |d|
            && s.buf[..sink.pos] == sink.buf[..sink.pos]
            && s.buf[sink.pos..sink.pos + |p|] == p
            && s.buf[sink.pos + |p| + PointsArgWidth + 1..s.pos] == d
  {
    SlotLineBytes();
    WriteBytesSlices(sink, p, Utf8(EmptySlot() + "\n"), d);
  }

  /** The slot of a reserved write: blanks, then a line feed. */
  lemma ReservedSlot(sink: Sink, p: seq<Byte>, d: seq<Byte>)
    requires sink.Valid()
    ensures var s := WriteBytes(sink, p + Utf8(EmptySlot() + "\n") + d);
            && sink.pos + |p| + PointsArgWidth < s.pos
            && (forall i :: sink.pos + |p| <= i < sink.pos + |p| + PointsArgWidth ==> s.buf[i] == ' ' as int)
            && s.buf[sink.pos + |p| + PointsArgWidth] == '\n' as int
  {
    var m := Utf8(EmptySlot() + "\n");
    SlotLineBytes();
    WriteBytesSlices(sink, p, m, d);
    BlankSlotAt(WriteBytes(sink, p + m + d).buf, sink.pos + |p|);
  }

  /** Where the blank slot line was written there are the slot's spaces and its line feed. */
  lemma BlankSlotAt(buf: seq<Byte>, begin: nat)
    requires begin + PointsArgWidth + 1 <= |buf|
    requires buf[begin..begin + PointsArgWidth + 1] == Utf8(EmptySlot() + "\n")
    ensures forall i :: begin <= i < begin + PointsArgWidth ==> buf[i] == ' ' as int
    ensures buf[begin + PointsArgWidth] == '\n' as int
  {
    SlotLineBytes();
    var line := buf[begin..begin + PointsArgWidth + 1];
    assert forall i :: begin <= i <= begin + PointsArgWidth ==> buf[i] == line[i - begin];
  }

  /**
   * `r` is the sink, slot offset and slot width after `header` was written at
   * `sink`'s cursor with the slot reserved right after its first `|prefix|`
   * bytes: blanks and then a line feed, and every byte before the old cursor kept.
   */
  predicate HeaderWritten(sink: Sink, r: (Sink, nat, nat), prefix: seq<Byte>, header: seq<Byte>)
  {
    && r.0.Valid() && r.2 == PointsArgWidth
    && r.1 == sink.pos + |prefix| && r.1 + r.2 < r.0.pos
    && (forall i :: r.1 <= i < r.1 + r.2 ==> r.0.buf[i] == ' ' as int)
    && r.0.buf[r.1 + r.2] == '\n' as int
    && sink.pos <= |sink.buf|
    && r.0.buf[..sink.pos] == sink.buf[..sink.pos]
    && r.0.pos == sink.pos + |header|
    && r.0.buf[sink.pos..r.0.pos] == header
  }

  /**
   * `SeqWriter::write_meta`: writes the header at the cursor and returns the
   * new sink with the offset and the width of the reserved `POINTS` slot.
   */
  function WriteMeta(b: Builder, sink: Sink, showF64: F64Bits -> string): (r: (Sink, nat, nat))
    requires sink.Valid()
    ensures HeaderWritten(sink, r, Utf8(HeaderPrefix(b, showF64)), Utf8(HeaderText(b, showF64)))
  {
    var p := Utf8(HeaderPrefix(b, showF64));
    var d := Utf8(DataLine(b.dataKind) + "\n");
    HeaderBytes(b, showF64);
    ReservedWritesHeader(sink, p, d, Utf8(HeaderText(b, showF64)));
    WriteReserved(sink, p, d)
  }

  /** A reserved write of `p`, the blank slot line and `d` writes the header `t` when `t` is the three together. */
  lemma ReservedWritesHeader(sink: Sink, p: seq<Byte>, d: seq<Byte>, t: seq<Byte>)
    requires sink.Valid() && t == p + Utf8(EmptySlot() + "\n") + d
    ensures HeaderWritten(sink, WriteReserved(sink, p, d), p, t)
  {
    ReservedBytes(sink, p, d);
  }

  /** `WriteReserved` writes the prefix, the blank slot line and the suffix, in that order. */
  lemma ReservedBytes(sink: Sink, p: seq<Byte>, d: seq<Byte>)
    requires sink.Valid()
    ensures var s := WriteReserved(sink, p, d).0;
            s.buf[sink.pos..s.pos] == p + Utf8(EmptySlot() + "\n") + d
  {
    var s := WriteReserved(sink, p, d).0;
    SlotLineBytes();
    ReservedLayout(s.buf, sink.pos, p, Utf8(EmptySlot() + "\n"), d, s.pos);
  }

  /** Reading back the three parts of a reserved header as one range. */
  lemma ReservedLayout(buf: seq<Byte>, at: nat, p: seq<Byte>, m: seq<Byte>, d: seq<Byte>, end: nat)
    requires |m| == PointsArgWidth + 1 && end == at + |p| + |m| + |d| <= |buf|
    requires buf[at..at + |p|] == p && buf[at + |p| + |m|..end] == d
    requires m[PointsArgWidth] == '\n' as int
    requires forall i :: 0 <= i < PointsArgWidth ==> m[i] == ' ' as int
    requires forall i :: at + |p| <= i < at + |p| + PointsArgWidth ==> buf[i] == ' ' as int
    requires buf[at + |p| + PointsArgWidth] == '\n' as int
    ensures buf[at..end] == p + m + d
  {
    var begin := at + |p|;
    assert buf[begin..begin + |m|] == m by {
      forall i | 0 <= i < |m|
        ensures buf[begin..begin + |m|][i] == m[i]
      {
      }
    }
    assert buf[at..end] == buf[at..begin] + buf[begin..begin + |m|] + buf[begin + |m|..end];
  }

  /** The header's bytes are the prefix, the reserved slot line and the `DATA` line. */
  lemma HeaderBytes(b: Builder, showF64: F64Bits -> string)
    ensures Utf8(HeaderText(b, showF64))
            == Utf8(HeaderPrefix(b, showF64)) + Utf8(EmptySlot() + "\n") + Utf8(DataLine(b.dataKind) + "\n")
  {
    var prefixText := HeaderPrefix(b, showF64);
    var slotText := EmptySlot() + "\n";
    HeaderTextSplit(b, showF64);
    Utf8Append(prefixText + slotText, DataLine(b.dataKind) + "\n");
    Utf8Append(prefixText, slotText);
  }

  /** The reserved slot line is twenty spaces and a line feed, one byte each. */
  lemma SlotLineBytes()
    ensures |Utf8(EmptySlot() + "\n")| == PointsArgWidth + 1
    ensures forall i :: 0 <= i < PointsArgWidth ==> Utf8(EmptySlot() + "\n")[i] == ' ' as int
    ensures Utf8(EmptySlot() + "\n")[PointsArgWidth] == '\n' as int
  {
    var slotText := EmptySlot() + "\n";
    assert forall i :: 0 <= i < PointsArgWidth ==> slotText[i] == ' ';
    assert slotText[PointsArgWidth] == '\n';
    assert IsAscii(slotText);
    Utf8Ascii(slotText);
  }

  /** Where the three parts of one write land in the sink. */
  lemma WriteBytesSlices(s: Sink, p: seq<Byte>, m: seq<Byte>, d: seq<Byte>)
    requires s.Valid()
    ensures var r := WriteBytes(s, p + m + d);
            var begin := s.pos + |p|;
            && r.buf[..s.pos] == s.buf[..s.pos]
            && r.buf[s.pos..r.pos] == p + m + d
            && r.buf[s.pos..begin] == p
            && r.buf[begin..begin + |m|] == m
            && r.buf[begin + |m|..r.pos] == d
  {
    var r := WriteBytes(s, p + m + d);
    var all := p + m + d;
    assert r.buf[s.pos..r.pos] == all;
    assert r.buf[s.pos..s.pos + |p|] == all[..|p|];
    assert r.buf[s.pos + |p|..s.pos + |p| + |m|] == all[|p|..|p| + |m|];
    assert r.buf[s.pos + |p| + |m|..r.pos] == all[|p| + |m|..];
  }

  /** The last seven bytes before the slot are `POINTS `. */
  lemma PointsSuffix(b: Builder, showF64: F64Bits -> string)
    ensures |Utf8(HeaderPrefix(b, showF64))| >= 7
    ensures Utf8(HeaderPrefix(b, showF64))[|Utf8(HeaderPrefix(b, showF64))| - 7..] == Utf8("POINTS ")
  {
    PointsTail(Lines(HeaderLines(b, showF64)[..9]));
  }

  /** Any text followed by `POINTS ` ends in the seven bytes of `POINTS `. */
  lemma PointsTail(a: string)
    ensures |Utf8(a + "POINTS ")| >= 7
    ensures Utf8(a + "POINTS ")[|Utf8(a + "POINTS ")| - 7..] == Utf8("POINTS ")
  {
    Utf8Suffix(a, "POINTS ");
    PointsWordBytes();
  }

  /** The bytes of `a + t` end with the bytes of `t`. */
  lemma Utf8Suffix(a: string, t: string)
    ensures |Utf8(a + t)| >= |Utf8(t)|
    ensures Utf8(a + t)[|Utf8(a + t)| - |Utf8(t)|..] == Utf8(t)
  {
    Utf8Append(a, t);
  }

  lemma PointsWordBytes()
    ensures |Utf8("POINTS ")| == 7
  {
    Utf8Ascii("POINTS ");
  }

  /**
   * `SeqWriterBuilder::from_writer` / `SeqWriter::new`: the header is written
   * and no record has been counted yet.
   */
  function Create(b: Builder, sink: Sink, showF64: F64Bits -> string): (w: SeqWriter)
    requires sink.Valid()
    ensures Valid(w) && w.numRecords == 0 && w.builder == b
    ensures (w.sink, w.pointsArgBegin, w.pointsArgWidth) == WriteMeta(b, sink, showF64)
  {
    var r := WriteMeta(b, sink, showF64);
    FreshWriterValid(sink, r, Utf8(HeaderPrefix(b, showF64)), Utf8(HeaderText(b, showF64)), b, 0);
    SeqWriter(r.0, b, 0, r.1, r.2)
  }

  /**
   * A freshly written header with a blank slot is a valid writer that has
   * counted nothing; the count is a parameter so that the slot's text is
   * unfolded only as far as the proof needs.
   */
  lemma FreshWriterValid(sink: Sink, r: (Sink, nat, nat), prefix: seq<Byte>, header: seq<Byte>, b: Builder, n: nat)
    requires HeaderWritten(sink, r, prefix, header) && n == 0
    ensures Valid(SeqWriter(r.0, b, n, r.1, r.2))
  {
    BlankSlotIsZero(r.0.buf, r.1, n);
  }

  /** Twenty blank bytes are the slot's text for a count of zero. */
  lemma BlankSlotIsZero(buf: seq<Byte>, begin: nat, n: nat)
    requires begin + PointsArgWidth <= |buf| && n == 0
    requires forall i :: begin <= i < begin + PointsArgWidth ==> buf[i] == ' ' as int
    ensures buf[begin..begin + PointsArgWidth] == Utf8(SlotText(n))
  {
    Utf8Ascii(SlotText(n));
    assert SlotText(n) == EmptySlot();
    assert forall i :: 0 <= i < PointsArgWidth ==> Utf8(SlotText(n))[i] == ' ' as int;
  }

  // ------------------------------------------------------------------ push

  /**
   * A record encoder: `write_chunk` for binary data and `write_line` for
   * ASCII data, each giving the bytes for one record or an error.
   */
  datatype Encoder<!R, E> = Encoder(chunk: R -> Result<seq<Byte>, E>, line: R -> Result<seq<Byte>, E>)

  /** The encoder the data kind selects. */
  function Encode<R, E>(enc: Encoder<R, E>, kind: DataKind, rec: R): Result<seq<Byte>, E>
  {
    match kind
    case Binary => enc.chunk(rec)
    case Ascii => enc.line(rec)
  }

  /** The writer after a `push`, and whether the push succeeded. */
  datatype Pushed<E> = Pushed(writer: SeqWriter, status: Outcome<E>)

  /**
   * `r` is `w` with `data` appended at the cursor and `count` more records
   * counted: the same builder and slot, the cursor after `data`, and the
   * header outside the slot as it was.
   */
  predicate Extends(w: SeqWriter, r: SeqWriter, data: seq<Byte>, count: nat)
  {
    && r.numRecords == w.numRecords + count
    && r.builder == w.builder
    && r.pointsArgBegin == w.pointsArgBegin && r.pointsArgWidth == w.pointsArgWidth
    && SinkExtends(w.sink, r.sink, data, w.pointsArgBegin, w.pointsArgWidth)
  }

  /**
   * `s` is `s0` with `data` written at the cursor, which moved past it, and
   * every byte before the old cursor kept except those of `[begin, begin + width)`.
   */
  predicate SinkExtends(s0: Sink, s: Sink, data: seq<Byte>, begin: nat, width: nat)
  {
    && begin + width <= s0.pos <= |s0.buf|
    && s.pos == s0.pos + |data| <= |s.buf|
    && s.buf[s0.pos..s.pos] == data
    && s.buf[..begin] == s0.buf[..begin]
    && s.buf[begin + width..s0.pos] == s0.buf[begin + width..s0.pos]
  }

  /** Two appends in a row are one append of both pieces. */
  lemma ExtendsTrans(w: SeqWriter, w1: SeqWriter, r: SeqWriter, d1: seq<Byte>, d2: seq<Byte>, c1: nat, c2: nat)
    requires Extends(w, w1, d1, c1) && Extends(w1, r, d2, c2)
    ensures Extends(w, r, d1 + d2, c1 + c2)
  {
    SinkExtendsTrans(w.sink, w1.sink, r.sink, d1, d2, w.pointsArgBegin, w.pointsArgWidth);
  }

  lemma SinkExtendsTrans(s0: Sink, s1: Sink, s: Sink, d1: seq<Byte>, d2: seq<Byte>, begin: nat, width: nat)
    requires SinkExtends(s0, s1, d1, begin, width) && SinkExtends(s1, s, d2, begin, width)
    ensures SinkExtends(s0, s, d1 + d2, begin, width)
  {
    var lo := begin + width;
    SliceOfSlice(s.buf, s1.buf, lo, s1.pos, lo, s0.pos);
    SliceOfSlice(s.buf, s1.buf, lo, s1.pos, s0.pos, s1.pos);
    SliceJoin(s.buf, s0.pos, s1.pos, s.pos);
  }

  /**
   * The successful half of `SeqWriter::push`: append the encoded bytes, count
   * the record, rewrite the slot with the new count, and seek back to the end
   * of the appended bytes.
   */
  function Append(w: SeqWriter, bytes: seq<Byte>): (r: SeqWriter)
    requires Valid(w) && w.numRecords < UsizeMax
    ensures Valid(r) && Extends(w, r, bytes, 1)
    ensures SameOutsideSlot(r.sink.buf, Overwrite(w.sink.buf, w.sink.pos, bytes), w.pointsArgBegin, w.pointsArgWidth)
  {
    AppendValid(w, bytes);
    AppendExtends(w, bytes);
    w.(sink := AppendSink(w, bytes), numRecords := w.numRecords + 1)
  }

  /**
   * What rewriting the slot needs of a writer: the slot and the line feed
   * after it lie before the cursor, and one more record can be counted.
   */
  predicate Patchable(w: SeqWriter)
  {
    && w.sink.Valid()
    && w.pointsArgWidth == PointsArgWidth
    && w.numRecords < UsizeMax
    && w.pointsArgBegin + w.pointsArgWidth < w.sink.pos
    && w.sink.buf[w.pointsArgBegin + w.pointsArgWidth] == '\n' as int
  }

  /** The sink after `Append`: the bytes written at the cursor, the slot rewritten, the cursor back after the bytes. */
  function AppendSink(w: SeqWriter, bytes: seq<Byte>): Sink
    requires Patchable(w)
  {
    var s1 := WriteBytes(w.sink, bytes);
    Utf8Ascii(SlotText(w.numRecords + 1));
    var s3 := WriteBytes(SeekTo(s1, w.pointsArgBegin), Utf8(SlotText(w.numRecords + 1)));
    SeekTo(s3, s1.pos)
  }

  /** `AppendSink` writes the bytes at the cursor, then the new count over the slot. */
  lemma AppendSinkIsPatch(w: SeqWriter, bytes: seq<Byte>)
    requires Patchable(w)
    ensures var s1 := WriteBytes(w.sink, bytes);
            AppendSink(w, bytes) == Sink(Overwrite(s1.buf, w.pointsArgBegin, Utf8(SlotText(w.numRecords + 1))), s1.pos)
  {
  }

  /** The writer `Append` returns is valid: its slot holds the new count. */
  lemma AppendValid(w: SeqWriter, bytes: seq<Byte>)
    requires Valid(w) && w.numRecords < UsizeMax
    ensures Valid(w.(sink := AppendSink(w, bytes), numRecords := w.numRecords + 1))
  {
    AppendSinkSlot(w, bytes);
  }

  /** After `AppendSink` the slot holds the new count and the line feed still follows it. */
  lemma AppendSinkSlot(w: SeqWriter, bytes: seq<Byte>)
    requires Patchable(w)
    ensures var s := AppendSink(w, bytes);
            && s.Valid() && w.pointsArgBegin + w.pointsArgWidth < s.pos
            && s.buf[w.pointsArgBegin..w.pointsArgBegin + w.pointsArgWidth] == Utf8(SlotText(w.numRecords + 1))
            && s.buf[w.pointsArgBegin + w.pointsArgWidth] == '\n' as int
  {
    var slot := Utf8(SlotText(w.numRecords + 1));
    Utf8Ascii(SlotText(w.numRecords + 1));
    AppendSinkIsPatch(w, bytes);
    PatchSlot(w.sink, bytes, w.pointsArgBegin, w.pointsArgWidth, slot);
  }

  /** The writer `Append` returns extends `w` by the bytes and one record, and changes nothing else outside the slot. */
  lemma AppendExtends(w: SeqWriter, bytes: seq<Byte>)
    requires Patchable(w)
    ensures var r := w.(sink := AppendSink(w, bytes), numRecords := w.numRecords + 1);
            && Extends(w, r, bytes, 1)
            && SameOutsideSlot(r.sink.buf, Overwrite(w.sink.buf, w.sink.pos, bytes), w.pointsArgBegin, w.pointsArgWidth)
  {
    var slot := Utf8(SlotText(w.numRecords + 1));
    Utf8Ascii(SlotText(w.numRecords + 1));
    AppendSinkIsPatch(w, bytes);
    PatchKeeps(w.sink, bytes, w.pointsArgBegin, slot);
  }

  /**
   * Writing `bytes` at the cursor and then `slot` at `begin`, before the old
   * cursor: the slot holds `slot` and the byte after it is as it was.
   */
  lemma PatchSlot(s0: Sink, bytes: seq<Byte>, begin: nat, width: nat, slot: seq<Byte>)
    requires s0.Valid() && |slot| == width && begin + width < s0.pos
    ensures var s1 := WriteBytes(s0, bytes);
            var s := Sink(Overwrite(s1.buf, begin, slot), s1.pos);
            && s.Valid() && begin + width < s.pos
            && s.buf[begin..begin + width] == slot
            && s.buf[begin + width] == s0.buf[begin + width]
  {
    var s1 := WriteBytes(s0, bytes);
    var buf := Overwrite(s1.buf, begin, slot);
    var end := begin + width;
    assert buf[end] == buf[end..][0] == s1.buf[end..][0];
    assert s1.buf[end] == s1.buf[..s0.pos][end] == s0.buf[end];
  }

  /**
   * The same two writes: the bytes follow the old cursor, and outside the slot
   * the buffer is the one the first write left, which kept everything before
   * the old cursor.
   */
  lemma PatchKeeps(s0: Sink, bytes: seq<Byte>, begin: nat, slot: seq<Byte>)
    requires s0.Valid() && begin + |slot| < s0.pos
    ensures var s1 := WriteBytes(s0, bytes);
            var buf := Overwrite(s1.buf, begin, slot);
            && SinkExtends(s0, Sink(buf, s1.pos), bytes, begin, |slot|)
            && SameOutsideSlot(buf, s1.buf, begin, |slot|)
  {
    var s1 := WriteBytes(s0, bytes);
    var buf := Overwrite(s1.buf, begin, slot);
    var width := |slot|;
    OverwriteOutside(s1.buf, begin, slot);
    SameOutsideRange(buf, s1.buf, begin, width, s0.pos, s1.pos);
    KeepOutside(buf, s1.buf, begin, width, s0.pos);
    KeepBefore(s0.buf, s1.buf, begin, width, s0.pos);
  }

  /** Overwriting inside a buffer changes nothing outside the overwritten range. */
  lemma OverwriteOutside(a: seq<Byte>, at: nat, data: seq<Byte>)
    requires at + |data| <= |a|
    ensures SameOutsideSlot(Overwrite(a, at, data), a, at, |data|)
  {
    var b := Overwrite(a, at, data);
    forall i | 0 <= i < |b| && !(at <= i < at + |data|)
      ensures b[i] == a[i]
    {
      if i < at {
        assert b[i] == b[..at][i];
        assert a[i] == a[..at][i];
      } else {
        assert b[i] == b[at + |data|..][i - at - |data|];
        assert a[i] == a[at + |data|..][i - at - |data|];
      }
    }
  }

  /** Buffers that agree outside the slot agree on every range after it. */
  lemma SameOutsideRange(a: seq<Byte>, b: seq<Byte>, begin: nat, width: nat, i: nat, j: nat)
    requires SameOutsideSlot(a, b, begin, width) && begin + width <= i <= j <= |b|
    ensures a[i..j] == b[i..j]
  {
    forall k | 0 <= k < j - i
      ensures a[i..j][k] == b[i..j][k]
    {
      assert a[i..j][k] == a[i + k] && b[i..j][k] == b[i + k];
    }
  }

  /** Bytes before `pos` that two buffers share, restricted to what lies outside the slot. */
  lemma KeepBefore(a: seq<Byte>, b: seq<Byte>, begin: nat, width: nat, pos: nat)
    requires begin + width <= pos <= |a| && pos <= |b|
    requires b[..pos] == a[..pos]
    ensures b[..begin] == a[..begin]
    ensures b[begin + width..pos] == a[begin + width..pos]
  {
    assert b[..begin] == b[..pos][..begin];
    assert a[..begin] == a[..pos][..begin];
    assert b[begin + width..pos] == b[..pos][begin + width..];
    assert a[begin + width..pos] == a[..pos][begin + width..];
  }

  /**
   * `SeqWriter::push`: encode the record; on failure return the encoder's
   * error with nothing written and the count unchanged; on success `Append`.
   */
  function Push<R, E>(w: SeqWriter, enc: Encoder<R, E>, rec: R): (r: Pushed<E>)
    requires Valid(w) && w.numRecords < UsizeMax
    ensures Valid(r.writer)
    ensures Encode(enc, w.builder.dataKind, rec).Failure? ==>
              r.status == Fail(Encode(enc, w.builder.dataKind, rec).error) && r.writer == w
    ensures Encode(enc, w.builder.dataKind, rec).Success? ==>
              r.status.Pass? && r.writer == Append(w, Encode(enc, w.builder.dataKind, rec).value)
  {
    match Encode(enc, w.builder.dataKind, rec)
    case Failure(e) => Pushed(w, Fail(e))
    case Success(bytes) => Pushed(Append(w, bytes), Pass)
  }

  /** `a` and `b` have the same length and differ at most inside `[begin, begin + width)`. */
  predicate SameOutsideSlot(a: seq<Byte>, b: seq<Byte>, begin: nat, width: nat)
  {
    && |a| == |b|
    && forall i :: 0 <= i < |a| && !(begin <= i < begin + width) ==> a[i] == b[i]
  }

  /** Outside the slot, the bytes before `pos` are the same in `a` and `b`. */
  lemma KeepOutside(a: seq<Byte>, b: seq<Byte>, begin: nat, width: nat, pos: nat)
    requires SameOutsideSlot(a, b, begin, width) && begin + width <= pos <= |b|
    ensures a[..begin] == b[..begin]
    ensures a[begin + width..pos] == b[begin + width..pos]
  {
    assert forall i :: 0 <= i < begin ==> a[..begin][i] == a[i];
    assert forall i :: begin + width <= i < pos ==> a[begin + width..pos][i - begin - width] == a[i];
  }

  /** The successful encodings of `recs`, in push order. */
  function Successes<R, E>(enc: Encoder<R, E>, kind: DataKind, recs: seq<R>): seq<seq<Byte>>
  {
    if |recs| == 0 then []
    else
      var rest := Successes(enc, kind, recs[1..]);
      match Encode(enc, kind, recs[0])
      case Success(bytes) => [bytes] + rest
      case Failure(_) => rest
  }

  function Flatten(chunks: seq<seq<Byte>>): seq<Byte>
  {
    if |chunks| == 0 then [] else chunks[0] + Flatten(chunks[1..])
  }

  /**
   * The writer after pushing `recs` one after another, failures included:
   * the successful encodings follow each other from the old cursor, the
   * count grows by their number, and the header outside the slot is kept.
   */
  function PushAll<R, E>(w: SeqWriter, enc: Encoder<R, E>, recs: seq<R>): (r: SeqWriter)
    requires Valid(w) && w.numRecords + |recs| <= UsizeMax
    ensures Valid(r)
    ensures Extends(w, r, Flatten(Successes(enc, w.builder.dataKind, recs)), |Successes(enc, w.builder.dataKind, recs)|)
    decreases |recs|
  {
    if |recs| == 0 then w
    else
      var p := Push(w, enc, recs[0]);
      var r := PushAll(p.writer, enc, recs[1..]);
      PushAllStep(w, p.writer, r, enc, recs);
      r
  }

  /** One push followed by the rest: the pieces written compose. */
  lemma PushAllStep<R, E>(w: SeqWriter, w1: SeqWriter, r: SeqWriter, enc: Encoder<R, E>, recs: seq<R>)
    requires Valid(w) && w.numRecords < UsizeMax && |recs| > 0
    requires w1 == Push(w, enc, recs[0]).writer
    requires var more := Successes(enc, w.builder.dataKind, recs[1..]);
             Extends(w1, r, Flatten(more), |more|)
    ensures var all := Successes(enc, w.builder.dataKind, recs);
            Extends(w, r, Flatten(all), |all|)
  {
    var kind := w.builder.dataKind;
    var more := Successes(enc, kind, recs[1..]);
    match Encode(enc, kind, recs[0])
    case Failure(_) =>
      assert w1 == w;
      assert Successes(enc, kind, recs) == more;
    case Success(bytes) =>
      assert Successes(enc, kind, recs) == [bytes] + more;
      assert Flatten([bytes] + more) == bytes + Flatten(more) by {
        assert ([bytes] + more)[1..] == more;
      }
      ExtendsTrans(w, w1, r, bytes, Flatten(more), 1, |more|);
  }

  /** Agreement on `[i, j)` is agreement on every range inside it. */
  lemma SliceOfSlice(a: seq<Byte>, b: seq<Byte>, i: nat, j: nat, k: nat, l: nat)
    requires i <= k <= l <= j <= |a| && j <= |b| && a[i..j] == b[i..j]
    ensures a[k..l] == b[k..l]
  {
    forall n | k <= n < l
      ensures a[n] == b[n]
    {
      assert a[n] == a[i..j][n - i] && b[n] == b[i..j][n - i];
    }
  }

  /** Adjacent ranges concatenate. */
  lemma SliceJoin(a: seq<Byte>, i: nat, k: nat, j: nat)
    requires i <= k <= j <= |a|
    ensures a[i..j] == a[i..k] + a[k..j]
  {
  }
}
