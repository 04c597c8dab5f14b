/** The two pieces of Rust's `{:?}` formatting the `Debug` impls of `User`
    and `Credentials` rely on: an `i64` printed in decimal, and a `&str`
    printed between double quotes with `char::escape_debug` escapes.
    `ReadInt` and `ReadQuoted` read each printed form back. */
module DebugFmt {
  import opened Wrappers

  predicate IsDigit(c: char) {
    '0' <= c <= '9'
  }

  function DigitChar(d: nat): (c: char)
    requires d < 10
    ensures IsDigit(c) && DigitValue(c) == d
  {
    ('0' as int + d) as char
  }

  function DigitValue(c: char): nat
    requires IsDigit(c)
  {
    c as int - '0' as int
  }

  /** The decimal digits of `n`, most significant first, without leading zeros. */
  function Digits(n: nat): (r: string)
    ensures |r| >= 1
    ensures forall i | 0 <= i < |r| :: IsDigit(r[i])
    decreases n
  {
    if n < 10 then [DigitChar(n)] else Digits(n / 10) + [DigitChar(n % 10)]
  }

  /** The value of a run of decimal digits. */
  function DigitsValue(ds: string): nat
    requires forall i | 0 <= i < |ds| :: IsDigit(ds[i])
  {
    if |ds| == 0 then 0 else DigitsValue(ds[..|ds| - 1]) * 10 + DigitValue(ds[|ds| - 1])
  }

  /** `{:?}` of an integer: decimal, with a leading `-` when negative; the
      text reads back as the integer. */
  function ShowInt(i: int): (r: string)
    ensures |r| >= 1
    ensures r[0] == '-' <==> i < 0
    ensures ReadInt(r) == Some((i, []))
  {
    var n: nat := if i < 0 then -i else i;
    var ds := Digits(n);
    DigitRunOfDigits(ds, []);
    DigitsValueOfDigits(n);
    assert ds + [] == ds;
    if i < 0 then
      assert ("-" + ds)[1..] == ds;
      "-" + ds
    else
      assert ds[0] != '-';
      ds
  }

  /** The length of the run of digits at the front of `s`. */
  function DigitRun(s: string): (k: nat)
    ensures k <= |s|
    ensures forall i | 0 <= i < k :: IsDigit(s[i])
    ensures k == |s| || !IsDigit(s[k])
  {
    if |s| > 0 && IsDigit(s[0]) then 1 + DigitRun(s[1..]) else 0
  }

  /** Reads an optionally negative decimal integer off the front of `s`,
      returning it with what follows. */
  function ReadInt(s: string): Option<(int, string)>
  {
    if |s| > 0 && s[0] == '-' then
      var t := s[1..];
      var k := DigitRun(t);
      if k == 0 then None else var v := 0 - DigitsValue(t[..k]) as int; Some((v, t[k..]))
    else
      var k := DigitRun(s);
      if k == 0 then None else Some((DigitsValue(s[..k]), s[k..]))
  }

  lemma {:induction false} DigitsValueOfDigits(n: nat)
    ensures DigitsValue(Digits(n)) == n
    decreases n
  {
    if n >= 10 {
      var ds := Digits(n);
      assert ds[..|ds| - 1] == Digits(n / 10);
      DigitsValueOfDigits(n / 10);
    }
  }

  lemma {:induction false} DigitRunOfDigits(ds: string, rest: string)
    requires forall i | 0 <= i < |ds| :: IsDigit(ds[i])
    requires |rest| == 0 || !IsDigit(rest[0])
    ensures DigitRun(ds + rest) == |ds|
    decreases |ds|
  {
    if |ds| > 0 {
      assert (ds + rest)[1..] == ds[1..] + rest;
      DigitRunOfDigits(ds[1..], rest);
    } else {
      assert ds + rest == rest;
    }
  }

  /** Reading back a printed integer gives the integer and leaves the rest,
      provided the rest does not itself start with a digit. */
  lemma ReadShowInt(i: int, rest: string)
    requires |rest| == 0 || !IsDigit(rest[0])
    ensures ReadInt(ShowInt(i) + rest) == Some((i, rest))
  {
    var n: nat := if i < 0 then -i else i;
    var ds := Digits(n);
    DigitRunOfDigits(ds, rest);
    DigitsValueOfDigits(n);
    assert (ds + rest)[..|ds|] == ds;
    assert (ds + rest)[|ds|..] == rest;
    if i < 0 {
      assert ("-" + ds + rest)[1..] == ds + rest;
    } else {
      assert ds[0] != '-';
    }
  }

  predicate IsHexDigit(c: char) {
    IsDigit(c) || 'a' <= c <= 'f'
  }

  function HexDigit(d: nat): (c: char)
    requires d < 16
    ensures IsHexDigit(c) && HexValue(c) == d
  {
    if d < 10 then DigitChar(d) else ('a' as int + d - 10) as char
  }

  function HexValue(c: char): nat
    requires IsHexDigit(c)
  {
    if IsDigit(c) then DigitValue(c) else c as int - 'a' as int + 10
  }

  /** The control characters below U+0080 that `escape_debug` does not
      print as they are. */
  predicate IsAsciiControl(c: char) {
    c as int < 0x20 || c as int == 0x7F
  }

  /** `char::escape_debug` as `<str as Debug>` applies it, for the ASCII
      range: quote, backslash, newline, carriage return, tab and NUL get a
      backslash escape, other control characters a `\u{..}` escape in
      lower-case hex, and everything else stands for itself. */
  function EscapeChar(c: char): (r: string)
    ensures |r| >= 1
    ensures r[0] == '\\' <==> (c == '"' || c == '\\' || IsAsciiControl(c))
    ensures r[0] != '\\' ==> r == [c]
  {
    if c == '"' then "\\\""
    else if c == '\\' then "\\\\"
    else if c == '\n' then "\\n"
    else if c == '\r' then "\\r"
    else if c == '\t' then "\\t"
    else if c == '\0' then "\\0"
    else if IsAsciiControl(c) then
      var n := c as int;
      if n < 16 then "\\u{" + [HexDigit(n)] + "}"
      else "\\u{" + [HexDigit(n / 16), HexDigit(n % 16)] + "}"
    else [c]
  }

  function Escape(s: string): string
  {
    if |s| == 0 then [] else EscapeChar(s[0]) + Escape(s[1..])
  }

  /** `{:?}` of a string slice; the text reads back as the string. */
  function Quote(s: string): (r: string)
    ensures ReadQuoted(r) == Some((s, []))
  {
    var r := "\"" + Escape(s) + "\"";
    ReadEscapedBody(s, []);
    assert r[1..] == Escape(s) + "\"" + [];
    r
  }

  /** Reads the escape that follows a backslash: the character it stands for
      and how many characters after the backslash it used. */
  function ReadEscape(t: string): (r: Option<(char, nat)>)
    ensures r.Some? ==> 1 <= r.value.1 <= |t|
  {
    if |t| == 0 then None
    else if t[0] == '"' then Some(('"', 1))
    else if t[0] == '\\' then Some(('\\', 1))
    else if t[0] == 'n' then Some(('\n', 1))
    else if t[0] == 'r' then Some(('\r', 1))
    else if t[0] == 't' then Some(('\t', 1))
    else if t[0] == '0' then Some(('\0', 1))
    else if t[0] == 'u' && |t| >= 4 && t[1] == '{' && IsHexDigit(t[2]) && t[3] == '}' then
      Some((HexValue(t[2]) as char, 4))
    else if t[0] == 'u' && |t| >= 5 && t[1] == '{' && IsHexDigit(t[2]) && IsHexDigit(t[3])
            && t[4] == '}' then
      Some(((HexValue(t[2]) * 16 + HexValue(t[3])) as char, 5))
    else None
  }

  /** Reads the body of a quoted string up to its closing quote, returning
      the unescaped contents and what follows the quote. */
  function ReadQuotedBody(s: string): Option<(string, string)>
    decreases |s|
  {
    if |s| == 0 then None
    else if s[0] == '"' then Some(([], s[1..]))
    else if s[0] == '\\' then
      match ReadEscape(s[1..])
      case None => None
      case Some((c, k)) =>
        match ReadQuotedBody(s[1 + k..])
        case None => None
        case Some((body, rest)) => Some(([c] + body, rest))
    else
      match ReadQuotedBody(s[1..])
      case None => None
      case Some((body, rest)) => Some(([s[0]] + body, rest))
  }

  /** Reads a quoted string off the front of `s`. */
  function ReadQuoted(s: string): Option<(string, string)>
  {
    if |s| > 0 && s[0] == '"' then ReadQuotedBody(s[1..]) else None
  }

  /** An escape reads back as the character it was made from. */
  lemma ReadEscapeChar(c: char, rest: string)
    requires EscapeChar(c)[0] == '\\'
    ensures ReadEscape(EscapeChar(c)[1..] + rest) == Some((c, |EscapeChar(c)| - 1))
  {
    var e := EscapeChar(c);
    var t := e[1..] + rest;
    var n := c as int;
    if c == '"' || c == '\\' || c == '\n' || c == '\r' || c == '\t' || c == '\0' {
      assert t[0] == e[1];
    } else if n < 16 {
      assert t[..4] == e[1..];
    } else {
      assert t[..5] == e[1..];
      assert (n / 16) * 16 + n % 16 == n;
    }
  }

  /** Reading the body of a printed string gives the string back and leaves
      what follows the closing quote. */
  lemma {:induction false} ReadEscapedBody(s: string, rest: string)
    ensures ReadQuotedBody(Escape(s) + "\"" + rest) == Some((s, rest))
  {
    if |s| == 0 {
      assert Escape(s) + "\"" + rest == "\"" + rest;
    } else {
      var e := EscapeChar(s[0]);
      var tail := Escape(s[1..]) + "\"" + rest;
      assert Escape(s) + "\"" + rest == e + tail;
      ReadEscapedBody(s[1..], rest);
      if e[0] == '\\' {
        ReadEscapeChar(s[0], tail);
        assert (e + tail)[1..] == e[1..] + tail;
        assert (e + tail)[1 + (|e| - 1)..] == tail;
      } else {
        assert (e + tail)[1..] == tail;
      }
      assert [s[0]] + s[1..] == s;
    }
  }

  /** The round trip for `{:?}` of a string slice. */
  lemma ReadQuoteRoundTrip(s: string, rest: string)
    ensures ReadQuoted(Quote(s) + rest) == Some((s, rest))
  {
    assert (Quote(s) + rest)[1..] == Escape(s) + "\"" + rest;
    ReadEscapedBody(s, rest);
  }

  /** What follows the literal `p` at the front of `s`, if `s` starts with it. */
  function StripPrefix(p: string, s: string): (r: Option<string>)
    ensures r.Some? <==> |p| <= |s| && s[..|p|] == p
    ensures r.Some? ==> s == p + r.value
  {
    if |p| <= |s| && s[..|p|] == p then Some(s[|p|..]) else None
  }

  lemma StripOwnPrefix(p: string, rest: string)
    ensures StripPrefix(p, p + rest) == Some(rest)
  {
    assert (p + rest)[..|p|] == p;
    assert (p + rest)[|p|..] == rest;
  }
}
