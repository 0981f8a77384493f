/** The pieces of Rust's `str` API that the puzzles use to read their input:
    `lines`, `split`, `split_whitespace`, `trim`, `char::to_digit` and the
    integer `parse` of the primitive integer types. */
module Text {
  import opened Wrappers

  const USIZE_MAX: nat := 0xFFFF_FFFF_FFFF_FFFF
  const ISIZE_MIN: int := -0x8000_0000_0000_0000
  const ISIZE_MAX: int := 0x7FFF_FFFF_FFFF_FFFF
  const I32_MIN: int := -0x8000_0000
  const I32_MAX: int := 0x7FFF_FFFF

  predicate IsDigit(c: char) { '0' <= c <= '9' }

  /** ASCII white space (Unicode spaces beyond ASCII are not modelled). */
  predicate IsWhitespace(c: char) {
    c == ' ' || c == '\t' || c == '\n' || c == '\r' || c as int == 11 || c as int == 12
  }

  function DigitValue(c: char): (d: nat)
    requires IsDigit(c)
    ensures d < 10
  {
    c as int - '0' as int
  }

  function DigitChar(d: nat): (c: char)
    requires d < 10
    ensures IsDigit(c) && DigitValue(c) == d
  {
    ('0' as int + d) as char
  }

  /** `char::to_digit(10)`. */
  function ToDigit(c: char): (r: Option<nat>)
    ensures r.Some? <==> IsDigit(c)
    ensures r.Some? ==> r.value < 10 && DigitChar(r.value) == c
  {
    if IsDigit(c) then Some(DigitValue(c)) else None
  }

  predicate AllDigits(s: string) {
    forall i :: 0 <= i < |s| ==> IsDigit(s[i])
  }

  /** The number a string of decimal digits denotes. */
  function DigitsValue(s: string): nat
    requires AllDigits(s)
  {
    if |s| == 0 then 0 else DigitsValue(s[..|s| - 1]) * 10 + DigitValue(s[|s| - 1])
  }

  /** Decimal notation of a natural number, without leading zeros. */
  function NatToString(n: nat): (s: string)
    ensures |s| > 0 && AllDigits(s)
    ensures |s| > 1 ==> s[0] != '0'
  {
    if n < 10 then [DigitChar(n)] else NatToString(n / 10) + [DigitChar(n % 10)]
  }

  lemma {:induction false} NatToStringValue(n: nat)
    ensures DigitsValue(NatToString(n)) == n
  {
    if n >= 10 {
      NatToStringValue(n / 10);
      var s := NatToString(n);
      assert s[..|s| - 1] == NatToString(n / 10);
    }
  }

  /** `str::parse` of an unsigned integer type whose largest value is `max`:
      an optional `+`, then at least one decimal digit, and no overflow. */
  function ParseUnsigned(s: string, max: nat): (r: Option<nat>)
    ensures r.Some? ==> r.value <= max
    ensures r.None? <==> |s| == 0 || (s[0] == '+' && |s| == 1)
                         || !AllDigits(if s[0] == '+' then s[1..] else s)
                         || DigitsValue(if s[0] == '+' then s[1..] else s) > max
  {
    if |s| == 0 then None
    else
      var digits := if s[0] == '+' then s[1..] else s;
      if |digits| > 0 && AllDigits(digits) && DigitsValue(digits) <= max
      then Some(DigitsValue(digits)) else None
  }

  /** Parsing what `NatToString` prints gives the number back, with or without a `+`. */
  lemma ParseUnsignedRoundTrip(n: nat, max: nat)
    requires n <= max
    ensures ParseUnsigned(NatToString(n), max) == Some(n)
    ensures ParseUnsigned("+" + NatToString(n), max) == Some(n)
  {
    NatToStringValue(n);
    assert ("+" + NatToString(n))[1..] == NatToString(n);
  }

  /** `str::parse` of a signed integer type with range `[min, max]`:
      an optional `+` or `-`, then at least one decimal digit, and no overflow. */
  function ParseSigned(s: string, min: int, max: int): (r: Option<int>)
    ensures r.Some? ==> min <= r.value <= max
    ensures r.Some? ==> |s| > 0 && (r.value < 0 ==> s[0] == '-')
  {
    if |s| == 0 then None
    else
      var negative := s[0] == '-';
      var digits := if s[0] == '+' || s[0] == '-' then s[1..] else s;
      if |digits| > 0 && AllDigits(digits) then
        var v: int := if negative then -(DigitsValue(digits) as int) else DigitsValue(digits);
        if min <= v <= max then Some(v) else None
      else None
  }

  /** Decimal notation of an integer, with a `-` for negative numbers. */
  function IntToString(i: int): (s: string)
    ensures |s| > 0 && !IsWhitespace(s[0]) && !IsWhitespace(s[|s| - 1])
    ensures forall k :: 0 <= k < |s| ==> s[k] == '-' || IsDigit(s[k])
  {
    if i < 0 then "-" + NatToString(-i) else NatToString(i)
  }

  lemma ParseSignedRoundTrip(i: int, min: int, max: int)
    requires min <= i <= max
    ensures ParseSigned(IntToString(i), min, max) == Some(i)
  {
    if i < 0 {
      NatToStringValue(-i);
      assert IntToString(i)[1..] == NatToString(-i);
    } else {
      NatToStringValue(i);
    }
  }

  /** The pieces joined back with the separator between them. */
  function Join(pieces: seq<string>, sep: string): string
    requires |pieces| > 0
  {
    if |pieces| == 1 then pieces[0] else pieces[0] + sep + Join(pieces[1..], sep)
  }

  /** `str::split` with a string pattern: cut at every leftmost non-overlapping
      occurrence of `sep`, keeping empty pieces. */
  function Split(s: string, sep: string): (r: seq<string>)
    requires |sep| > 0
    ensures |r| > 0
    ensures Join(r, sep) == s
    decreases |s|
  {
    if |s| < |sep| then [s]
    else if s[..|sep|] == sep then
      var rest := Split(s[|sep|..], sep);
      assert sep + s[|sep|..] == s;
      [""] + rest
    else
      var rest := Split(s[1..], sep);
      assert [s[0]] + s[1..] == s;
      JoinPrepend(rest, sep, [s[0]]);
      [[s[0]] + rest[0]] + rest[1..]
  }

  /** Splitting at one character gives a second piece exactly when the
      character occurs. */
  lemma {:induction false} SplitAtChar(s: string, c: char)
    ensures |Split(s, [c])| > 1 <==> c in s
    decreases |s|
  {
    if |s| >= 1 {
      SplitAtChar(s[1..], c);
      assert s == [s[0]] + s[1..];
    }
  }

  /** Without the separator there is nothing to cut. */
  lemma {:induction false} SplitWithout(s: string, c: char)
    requires c !in s
    ensures Split(s, [c]) == [s]
    decreases |s|
  {
    if |s| >= 1 {
      SplitWithout(s[1..], c);
      assert [s[0]] + s[1..] == s;
    }
  }

  /** The first separator ends the first piece. */
  lemma {:induction false} SplitAfter(x: string, y: string, c: char)
    requires c !in x
    ensures Split(x + [c] + y, [c]) == [x] + Split(y, [c])
    decreases |x|
  {
    var s := x + [c] + y;
    if |x| == 0 {
      assert s[..1] == [c] && s[1..] == y;
    } else {
      assert s[1..] == x[1..] + [c] + y;
      SplitAfter(x[1..], y, c);
      assert [s[0]] + x[1..] == x;
    }
  }

  /** Splitting undoes joining when no piece holds the separator. */
  lemma {:induction false} SplitJoin(pieces: seq<string>, c: char)
    requires |pieces| > 0 && forall k :: 0 <= k < |pieces| ==> c !in pieces[k]
    ensures Split(Join(pieces, [c]), [c]) == pieces
  {
    if |pieces| == 1 {
      SplitWithout(pieces[0], c);
    } else {
      SplitJoin(pieces[1..], c);
      SplitAfter(pieces[0], Join(pieces[1..], [c]), c);
    }
  }

  /** `str::contains` with a string pattern. */
  predicate Contains(s: string, pattern: string)
    decreases |s|
  {
    |s| >= |pattern| && (s[..|pattern|] == pattern || Contains(s[1..], pattern))
  }

  /** Without an occurrence of the separator there is nothing to cut. */
  lemma {:induction false} SplitAbsent(s: string, sep: string)
    requires |sep| > 0 && !Contains(s, sep)
    ensures Split(s, sep) == [s]
    decreases |s|
  {
    if |s| >= |sep| {
      SplitAbsent(s[1..], sep);
      assert [s[0]] + s[1..] == s;
    }
  }

  /** A character of a joined string comes from the separator or a piece. */
  lemma {:induction false} JoinHas(pieces: seq<string>, sep: string, ch: char)
    requires |pieces| > 0 && ch in Join(pieces, sep)
    ensures ch in sep || exists k :: 0 <= k < |pieces| && ch in pieces[k]
  {
    if |pieces| > 1 && ch !in pieces[0] && ch !in sep {
      JoinHas(pieces[1..], sep, ch);
      var k :| 0 <= k < |pieces[1..]| && ch in pieces[1..][k];
      assert pieces[k + 1] == pieces[1..][k];
    }
  }

  lemma JoinPrepend(pieces: seq<string>, sep: string, x: string)
    requires |pieces| > 0
    ensures Join([x + pieces[0]] + pieces[1..], sep) == x + Join(pieces, sep)
  {
    var p := [x + pieces[0]] + pieces[1..];
    if |pieces| > 1 {
      assert p[1..] == pieces[1..];
    }
  }

  /** Every line read with `parse`, in order; `None` when one of them does
      not parse (the `unwrap` of a `map(..).collect()` over the lines). */
  function ParseEach<T>(parse: string -> Option<T>, lines: seq<string>): (r: Option<seq<T>>)
    ensures r.Some? <==> forall k :: 0 <= k < |lines| ==> parse(lines[k]).Some?
    ensures r.Some? ==> |r.value| == |lines|
    ensures r.Some? ==> forall k :: 0 <= k < |lines| ==> parse(lines[k]) == Some(r.value[k])
  {
    if |lines| == 0 then Some([])
    else
      var n := |lines| - 1;
      assert forall k :: 0 <= k < n ==> lines[..n][k] == lines[k];
      match (ParseEach(parse, lines[..n]), parse(lines[n]))
      case (Some(values), Some(value)) => Some(values + [value])
      case _ => None
  }

  /** Reading one more line appends its value. */
  lemma ParseEachPrefix<T>(parse: string -> Option<T>, lines: seq<string>, i: nat, values: seq<T>, value: T)
    requires i < |lines| && ParseEach(parse, lines[..i]) == Some(values) && parse(lines[i]) == Some(value)
    ensures ParseEach(parse, lines[..i + 1]) == Some(values + [value])
  {
    var prefix := lines[..i + 1];
    assert prefix[..i] == lines[..i] && prefix[i] == lines[i];
  }

  /** `str::lines`: split at `\n`, drop a `\r` before it, and ignore one final
      line ending. */
  function Lines(s: string): (r: seq<string>)
    ensures forall i :: 0 <= i < |r| ==> '\n' !in r[i]
  {
    var pieces := Split(s, "\n");
    NoNewlineInPieces(s);
    var last := pieces[|pieces| - 1];
    var ended := StripCarriageReturns(pieces[..|pieces| - 1]);
    if last == "" then ended else ended + [last]
  }

  function StripCarriageReturns(pieces: seq<string>): (r: seq<string>)
    ensures |r| == |pieces|
    ensures forall i :: 0 <= i < |r| ==> r[i] == StripCarriageReturn(pieces[i])
  {
    if |pieces| == 0 then [] else [StripCarriageReturn(pieces[0])] + StripCarriageReturns(pieces[1..])
  }

  function StripCarriageReturn(line: string): (r: string)
    ensures r <= line
  {
    if |line| > 0 && line[|line| - 1] == '\r' then line[..|line| - 1] else line
  }

  lemma {:induction false} NoNewlineInPieces(s: string)
    ensures forall i :: 0 <= i < |Split(s, "\n")| ==> '\n' !in Split(s, "\n")[i]
    decreases |s|
  {
    if |s| >= 1 {
      if s[..1] == "\n" {
        NoNewlineInPieces(s[1..]);
      } else {
        NoNewlineInPieces(s[1..]);
        assert s[0] != '\n';
      }
    }
  }

  /** Lines joined with `\n` read back as the same lines, provided none
      holds a line break or ends in `\r` and the last one is not empty. */
  lemma LinesJoin(rows: seq<string>)
    requires |rows| > 0 && |rows[|rows| - 1]| > 0
    requires forall k :: 0 <= k < |rows| ==> '\n' !in rows[k]
    requires forall k :: 0 <= k < |rows| && |rows[k]| > 0 ==> rows[k][|rows[k]| - 1] != '\r'
    ensures Lines(Join(rows, "\n")) == rows
  {
    var s := Join(rows, "\n");
    assert "\n" == ['\n'];
    SplitJoin(rows, '\n');
    LinesOfPieces(s, rows);
  }

  /** When the pieces between line breaks neither end in `\r` nor end the
      text empty, they are the lines. */
  lemma LinesOfPieces(s: string, pieces: seq<string>)
    requires Split(s, "\n") == pieces
    requires |pieces| > 0 && |pieces[|pieces| - 1]| > 0
    requires forall k :: 0 <= k < |pieces| && |pieces[k]| > 0 ==> pieces[k][|pieces[k]| - 1] != '\r'
    ensures Lines(s) == pieces
  {
    var n := |pieces|;
    KeepCarriageReturns(pieces[..n - 1]);
    assert pieces[..n - 1] + [pieces[n - 1]] == pieces;
  }

  lemma KeepCarriageReturns(pieces: seq<string>)
    requires forall k :: 0 <= k < |pieces| && |pieces[k]| > 0 ==> pieces[k][|pieces[k]| - 1] != '\r'
    ensures StripCarriageReturns(pieces) == pieces
  {
    var r := StripCarriageReturns(pieces);
    assert forall k :: 0 <= k < |pieces| ==> r[k] == pieces[k];
  }

  /** Length of the run of non-white-space characters that starts `s`. */
  function TokenLength(s: string): (n: nat)
    ensures n <= |s|
    ensures forall i :: 0 <= i < n ==> !IsWhitespace(s[i])
    ensures n == |s| || IsWhitespace(s[n])
  {
    if |s| == 0 || IsWhitespace(s[0]) then 0 else 1 + TokenLength(s[1..])
  }

  /** `str::split_whitespace`: the maximal runs of non-white-space characters. */
  function SplitWhitespace(s: string): (r: seq<string>)
    ensures forall i :: 0 <= i < |r| ==> |r[i]| > 0
    ensures forall i, j :: 0 <= i < |r| && 0 <= j < |r[i]| ==> !IsWhitespace(r[i][j])
    decreases |s|
  {
    if |s| == 0 then []
    else if IsWhitespace(s[0]) then SplitWhitespace(s[1..])
    else
      var n := TokenLength(s);
      [s[..n]] + SplitWhitespace(s[n..])
  }

  /** A token followed by nothing or by white space is measured whole. */
  lemma {:induction false} TokenLengthOf(token: string, rest: string)
    requires forall i :: 0 <= i < |token| ==> !IsWhitespace(token[i])
    requires |rest| == 0 || IsWhitespace(rest[0])
    ensures TokenLength(token + rest) == |token|
    decreases |token|
  {
    if |token| > 0 {
      assert (token + rest)[1..] == token[1..] + rest;
      TokenLengthOf(token[1..], rest);
    } else {
      assert token + rest == rest;
    }
  }

  /** Tokens joined by single spaces split back into the same tokens. */
  lemma {:induction false} SplitWhitespaceJoin(tokens: seq<string>)
    requires |tokens| > 0
    requires forall k :: 0 <= k < |tokens| ==> |tokens[k]| > 0
    requires forall k, i :: 0 <= k < |tokens| && 0 <= i < |tokens[k]| ==> !IsWhitespace(tokens[k][i])
    ensures SplitWhitespace(Join(tokens, " ")) == tokens
    decreases |tokens|
  {
    var token := tokens[0];
    if |tokens| == 1 {
      TokenLengthOf(token, "");
      assert token + "" == token;
      assert token[|token|..] == "";
    } else {
      var rest := Join(tokens[1..], " ");
      var s := token + " " + rest;
      TokenLengthOf(token, " " + rest);
      assert s == token + (" " + rest);
      assert s[..|token|] == token;
      assert s[|token|..] == " " + rest;
      assert (" " + rest)[1..] == rest;
      SplitWhitespaceJoin(tokens[1..]);
      assert SplitWhitespace(s[|token|..]) == tokens[1..];
      assert [token] + tokens[1..] == tokens;
    }
  }

  /** `str::trim`: drop leading and trailing white space. */
  function Trim(s: string): (r: string)
    ensures |r| > 0 ==> !IsWhitespace(r[0]) && !IsWhitespace(r[|r| - 1])
    ensures forall i :: 0 <= i < |s| && !IsWhitespace(s[i]) ==> |r| > 0
    decreases |s|
  {
    if |s| == 0 then s
    else if IsWhitespace(s[0]) then Trim(s[1..])
    else if IsWhitespace(s[|s| - 1]) then Trim(s[..|s| - 1])
    else s
  }

  /** A leading space goes; a string with no white space at either end stays. */
  lemma TrimPadded(s: string)
    requires |s| > 0 && !IsWhitespace(s[0]) && !IsWhitespace(s[|s| - 1])
    ensures Trim(" " + s) == s
  {
    assert (" " + s)[1..] == s;
  }
}
