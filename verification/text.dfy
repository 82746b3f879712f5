/**
 * Text primitives the record codec and the writer rely on: decimal rendering
 * and parsing of integers (`to_string` / `str::parse`), ASCII-whitespace
 * tokenisation (`split_ascii_whitespace`), space joining (`join(" ")`),
 * line reading (`BufRead::read_line`), left-aligned padding (`{:<w$}`) and
 * the UTF-8 bytes a string is written as.
 */
module Text {
  import opened Wrappers
  import opened Metas

  // ---------------------------------------------------------------- decimal

  predicate IsDigit(c: char)
  {
    '0' <= c <= '9'
  }

  predicate AllDigits(s: string)
  {
    forall i :: 0 <= i < |s| ==> IsDigit(s[i])
  }

  function DigitChar(d: nat): (c: char)
    requires d < 10
    ensures IsDigit(c) && c as int - '0' as int == d
  {
    (d + '0' as int) as char
  }

  /** Decimal digits of `n`, no sign and no leading zero (Rust's `to_string`). */
  function NatToDecimal(n: nat): (s: string)
    ensures |s| >= 1 && AllDigits(s)
    ensures s[0] == '0' ==> n == 0
  {
    if n < 10 then [DigitChar(n)] else NatToDecimal(n / 10) + [DigitChar(n % 10)]
  }

  /** `to_string` of a signed integer: a minus sign before the magnitude when negative. */
  function IntToDecimal(v: int): string
  {
    if v < 0 then "-" + NatToDecimal(-v) else NatToDecimal(v)
  }

  /** The number a string of decimal digits denotes. */
  function DigitsValue(s: string): nat
    requires AllDigits(s)
  {
    if |s| == 0 then 0 else 10 * DigitsValue(s[..|s| - 1]) + (s[|s| - 1] as int - '0' as int)
  }

  lemma {:induction false} DigitsValueOfDecimal(n: nat)
    ensures DigitsValue(NatToDecimal(n)) == n
  {
    if n >= 10 {
      var s := NatToDecimal(n);
      assert s[..|s| - 1] == NatToDecimal(n / 10);
      DigitsValueOfDecimal(n / 10);
    }
  }

  function Pow10(k: nat): (p: nat)
    ensures p > 0
  {
    if k == 0 then 1 else 10 * Pow10(k - 1)
  }

  /** A number below 10^k has at most k digits. */
  lemma {:induction false} DecimalLength(n: nat, k: nat)
    requires 1 <= k && n < Pow10(k)
    ensures |NatToDecimal(n)| <= k
  {
    if n >= 10 {
      assert k >= 2;
      DecimalLength(n / 10, k - 1);
    }
  }

  /**
   * Rust's `str::parse` for an integer type, before the range check: an
   * optional `+`, or a `-` when the type is signed, then one or more decimal
   * digits and nothing else.
   */
  function ParseInteger(s: string, signed: bool): (r: Option<int>)
    ensures r.Some? <==> |s| > 0 && (AllDigits(s) || (|s| > 1 && (s[0] == '+' || (s[0] == '-' && signed)) && AllDigits(s[1..])))
    ensures r.Some? && AllDigits(s) ==> r.value == DigitsValue(s)
    ensures r.Some? && |s| > 0 && s[0] == '+' ==> AllDigits(s[1..]) && r.value == DigitsValue(s[1..])
    ensures r.Some? && |s| > 0 && s[0] == '-' ==> signed && AllDigits(s[1..]) && r.value == -(DigitsValue(s[1..]) as int)
  {
    if |s| == 0 then None
    else if (s[0] == '+' || s[0] == '-') && |s| == 1 then None
    else
      var negative := s[0] == '-' && signed;
      var digits := if s[0] == '+' || negative then s[1..] else s;
      if AllDigits(digits) then
        var magnitude: int := DigitsValue(digits);
        Some(if negative then -magnitude else magnitude)
      else None
  }

  /** Parsing what `to_string` printed gives the number back. */
  lemma ParseIntegerOfDecimal(v: int, signed: bool)
    requires v >= 0 || signed
    ensures ParseInteger(IntToDecimal(v), signed) == Some(v)
  {
    if v < 0 {
      var d := NatToDecimal(-v);
      var s := "-" + d;
      assert IntToDecimal(v) == s;
      assert s[0] == '-' && |s| > 1 && s[1..] == d;
      DigitsValueOfDecimal(-v);
    } else {
      var d := NatToDecimal(v);
      assert IntToDecimal(v) == d && IsDigit(d[0]);
      DigitsValueOfDecimal(v);
    }
  }

  /** What `to_string` prints for an integer is a single whitespace-free token. */
  lemma IntToDecimalIsToken(v: int)
    ensures IsToken(IntToDecimal(v))
  {
    var d := NatToDecimal(if v < 0 then -v else v);
    if v < 0 {
      var t := "-" + d;
      assert forall i :: 1 <= i < |t| ==> t[i] == d[i - 1];
    }
  }

  // ---------------------------------------------------------- tokenisation

  /** Rust's `u8::is_ascii_whitespace`: space, tab, line feed, form feed, carriage return. */
  predicate IsAsciiWhitespace(c: char)
  {
    c == ' ' || c == '\t' || c == '\n' || c as int == 0x0C || c == '\r'
  }

  predicate NoWhitespace(s: string)
  {
    forall i :: 0 <= i < |s| ==> !IsAsciiWhitespace(s[i])
  }

  predicate AllWhitespace(s: string)
  {
    forall i :: 0 <= i < |s| ==> IsAsciiWhitespace(s[i])
  }

  /** A non-empty run of non-whitespace characters. */
  predicate IsToken(s: string)
  {
    |s| > 0 && NoWhitespace(s)
  }

  /** Length of the run of non-whitespace characters `s` starts with. */
  function TokenPrefixLength(s: string): (n: nat)
    ensures n <= |s|
    ensures NoWhitespace(s[..n])
    ensures n < |s| ==> IsAsciiWhitespace(s[n])
  {
    if |s| == 0 || IsAsciiWhitespace(s[0]) then 0
    else
      var m := TokenPrefixLength(s[1..]);
      assert s[..m + 1] == [s[0]] + s[1..][..m];
      m + 1
  }

  /** `split_ascii_whitespace`: the maximal non-whitespace runs of `s`, in order. */
  function SplitAsciiWhitespace(s: string): (ts: seq<string>)
    ensures forall i :: 0 <= i < |ts| ==> IsToken(ts[i])
    decreases |s|
  {
    if |s| == 0 then []
    else if IsAsciiWhitespace(s[0]) then SplitAsciiWhitespace(s[1..])
    else
      var n := TokenPrefixLength(s);
      [s[..n]] + SplitAsciiWhitespace(s[n..])
  }

  /** `join(" ")`: the tokens separated by single spaces. */
  function JoinSpaces(ts: seq<string>): string
  {
    if |ts| == 0 then "" else if |ts| == 1 then ts[0] else ts[0] + " " + JoinSpaces(ts[1..])
  }

  lemma {:induction false} SplitAllWhitespace(w: string)
    requires AllWhitespace(w)
    ensures SplitAsciiWhitespace(w) == []
  {
    if |w| > 0 {
      SplitAllWhitespace(w[1..]);
    }
  }

  lemma {:induction false} SplitLeadingWhitespace(w: string, s: string)
    requires AllWhitespace(w)
    ensures SplitAsciiWhitespace(w + s) == SplitAsciiWhitespace(s)
  {
    if |w| > 0 {
      assert (w + s)[0] == w[0];
      assert (w + s)[1..] == w[1..] + s;
      SplitLeadingWhitespace(w[1..], s);
    } else {
      assert w + s == s;
    }
  }

  lemma {:induction false} TokenPrefixOfToken(t: string, rest: string)
    requires NoWhitespace(t)
    requires |rest| == 0 || IsAsciiWhitespace(rest[0])
    ensures TokenPrefixLength(t + rest) == |t|
  {
    if |t| > 0 {
      assert (t + rest)[1..] == t[1..] + rest;
      TokenPrefixOfToken(t[1..], rest);
    }
  }

  /** A token followed by whitespace (or nothing) is split off first. */
  lemma SplitToken(t: string, rest: string)
    requires IsToken(t)
    requires |rest| == 0 || IsAsciiWhitespace(rest[0])
    ensures SplitAsciiWhitespace(t + rest) == [t] + SplitAsciiWhitespace(rest)
  {
    TokenPrefixOfToken(t, rest);
    assert (t + rest)[..|t|] == t;
    assert (t + rest)[|t|..] == rest;
  }

  /** Splitting a space-joined line (with any whitespace after it) gives the tokens back. */
  lemma {:induction false} SplitJoin(ts: seq<string>, w: string)
    requires forall i :: 0 <= i < |ts| ==> IsToken(ts[i])
    requires AllWhitespace(w)
    ensures SplitAsciiWhitespace(JoinSpaces(ts) + w) == ts
  {
    if |ts| == 0 {
      assert JoinSpaces(ts) + w == w;
      SplitAllWhitespace(w);
    } else if |ts| == 1 {
      SplitToken(ts[0], w);
      SplitAllWhitespace(w);
    } else {
      var inner := JoinSpaces(ts[1..]) + w;
      var tail := " " + inner;
      assert JoinSpaces(ts) + w == ts[0] + tail;
      SplitToken(ts[0], tail);
      SplitLeadingWhitespace(" ", inner);
      SplitJoin(ts[1..], w);
    }
  }

  lemma {:induction false} JoinNoNewline(ts: seq<string>)
    requires forall i :: 0 <= i < |ts| ==> IsToken(ts[i])
    ensures forall i :: 0 <= i < |JoinSpaces(ts)| ==> JoinSpaces(ts)[i] != '\n'
  {
    if |ts| > 1 {
      JoinNoNewline(ts[1..]);
      assert JoinSpaces(ts) == ts[0] + " " + JoinSpaces(ts[1..]);
      forall i | 0 <= i < |JoinSpaces(ts)|
        ensures JoinSpaces(ts)[i] != '\n'
      {
        if i < |ts[0]| {
          assert JoinSpaces(ts)[i] == ts[0][i];
        } else if i > |ts[0]| {
          assert JoinSpaces(ts)[i] == JoinSpaces(ts[1..])[i - |ts[0]| - 1];
        }
      }
    }
  }

  // ----------------------------------------------------------------- lines

  /**
   * `BufRead::read_line`: the characters up to and including the first line
   * feed (all of them when there is none), and what follows.
   */
  function TakeLine(s: string): (r: (string, string))
    ensures r.0 + r.1 == s
    ensures forall i :: 0 <= i < |r.0| - 1 ==> r.0[i] != '\n'
    ensures |r.1| > 0 ==> |r.0| > 0 && r.0[|r.0| - 1] == '\n'
  {
    if |s| == 0 then ("", "")
    else if s[0] == '\n' then ("\n", s[1..])
    else
      var (line, rest) := TakeLine(s[1..]);
      assert s == [s[0]] + s[1..];
      ([s[0]] + line, rest)
  }

  lemma {:induction false} TakeLineOf(line: string, rest: string)
    requires forall i :: 0 <= i < |line| ==> line[i] != '\n'
    ensures TakeLine(line + "\n" + rest) == (line + "\n", rest)
  {
    if |line| > 0 {
      var s := line + "\n" + rest;
      assert s[0] == line[0];
      assert s[1..] == line[1..] + "\n" + rest;
      TakeLineOf(line[1..], rest);
      assert [s[0]] + (line[1..] + "\n") == line + "\n";
    } else {
      assert line + "\n" + rest == "\n" + rest;
    }
  }

  // --------------------------------------------------------------- padding

  function Spaces(n: nat): (s: string)
    ensures |s| == n
    ensures forall i :: 0 <= i < n ==> s[i] == ' '
  {
    if n == 0 then "" else " " + Spaces(n - 1)
  }

  /** `{:<w$}`: `s` followed by spaces up to `w` characters; never truncated. */
  function PadRight(s: string, w: nat): (r: string)
    ensures |r| == if |s| < w then w else |s|
    ensures r[..|s|] == s
    ensures forall i :: |s| <= i < |r| ==> r[i] == ' '
  {
    s + Spaces(if |s| < w then w - |s| else 0)
  }

  // ----------------------------------------------------------------- UTF-8

  predicate IsAscii(s: string)
  {
    forall i :: 0 <= i < |s| ==> s[i] as int < 0x80
  }

  /** The UTF-8 encoding of one Unicode scalar value. */
  function EncodeChar(c: char): (bs: seq<Byte>)
    ensures 1 <= |bs| <= 4
    ensures c as int < 0x80 <==> |bs| == 1
    ensures c as int < 0x80 ==> bs[0] == c as int
  {
    var cp := c as int;
    if cp < 0x80 then [cp]
    else if cp < 0x800 then [0xC0 + cp / 0x40, 0x80 + cp % 0x40]
    else if cp < 0x1_0000 then [0xE0 + cp / 0x1000, 0x80 + (cp / 0x40) % 0x40, 0x80 + cp % 0x40]
    else [0xF0 + cp / 0x4_0000, 0x80 + (cp / 0x1000) % 0x40, 0x80 + (cp / 0x40) % 0x40, 0x80 + cp % 0x40]
  }

  /** The bytes a Rust `String` holds for `s`. */
  function Utf8(s: string): (bs: seq<Byte>)
    ensures |bs| >= |s|
  {
    if |s| == 0 then [] else EncodeChar(s[0]) + Utf8(s[1..])
  }

  lemma {:induction false} Utf8Append(a: string, b: string)
    ensures Utf8(a + b) == Utf8(a) + Utf8(b)
  {
    if |a| > 0 {
      assert (a + b)[0] == a[0];
      assert (a + b)[1..] == a[1..] + b;
      Utf8Append(a[1..], b);
    } else {
      assert a + b == b;
    }
  }

  /** ASCII text is written one byte per character, each byte the character's code. */
  lemma {:induction false} Utf8Ascii(s: string)
    requires IsAscii(s)
    ensures |Utf8(s)| == |s|
    ensures forall i :: 0 <= i < |s| ==> Utf8(s)[i] == s[i] as int
  {
    if |s| > 0 {
      Utf8Ascii(s[1..]);
    }
  }
}
