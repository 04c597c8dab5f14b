/** UTF-8, the byte encoding `String::as_bytes` exposes, following section 3
    of RFC 3629.  `Decode` inverts `Encode`. */
module Utf8 {
  import opened Wrappers

  newtype byte = x: int | 0 <= x < 256

  predicate IsContinuation(b: byte) {
    0x80 <= b < 0xC0
  }

  /** The one to four bytes that encode one Unicode scalar value. */
  function EncodeChar(c: char): (r: seq<byte>)
    ensures 1 <= |r| <= 4
    ensures |r| == 1 <==> c as int < 0x80
    ensures forall i | 1 <= i < |r| :: IsContinuation(r[i])
  {
    var n := c as int;
    if n < 0x80 then
      [n as byte]
    else if n < 0x800 then
      [(0xC0 + n / 64) as byte, (0x80 + n % 64) as byte]
    else if n < 0x10000 then
      var r := n % 4096;
      [(0xE0 + n / 4096) as byte, (0x80 + r / 64) as byte, (0x80 + r % 64) as byte]
    else
      var r := n % 262144;
      var r' := r % 4096;
      [(0xF0 + n / 262144) as byte, (0x80 + r / 4096) as byte,
       (0x80 + r' / 64) as byte, (0x80 + r' % 64) as byte]
  }

  /** The bytes of a string, character after character; decoding them
      gives the string back. */
  function Encode(s: string): (r: seq<byte>)
    ensures |r| >= |s|
    ensures Decode(r) == Some(s)
  {
    if |s| == 0 then []
    else
      var e := EncodeChar(s[0]);
      var tail := Encode(s[1..]);
      DecodeEncodeChar(s[0], tail);
      assert (e + tail)[|e|..] == tail;
      assert [s[0]] + s[1..] == s;
      e + tail
  }

  /** Reads the character at the front of `b`, with the number of bytes it
      took; `None` for a malformed, overlong, surrogate or out-of-range
      sequence. */
  function DecodeChar(b: seq<byte>): (r: Option<(char, nat)>)
    ensures r.Some? ==> 1 <= r.value.1 <= |b| && r.value.1 <= 4
  {
    if |b| == 0 then None
    else
      var b0 := b[0] as int;
      if b0 < 0x80 then
        Some((b0 as char, 1))
      else if 0xC0 <= b0 < 0xE0 && |b| >= 2 && IsContinuation(b[1]) then
        var n := (b0 - 0xC0) * 64 + (b[1] as int - 0x80);
        if n < 0x80 then None else Some((n as char, 2))
      else if 0xE0 <= b0 < 0xF0 && |b| >= 3 && IsContinuation(b[1]) && IsContinuation(b[2]) then
        var n := (b0 - 0xE0) * 4096 + (b[1] as int - 0x80) * 64 + (b[2] as int - 0x80);
        if n < 0x800 || (0xD800 <= n < 0xE000) then None else Some((n as char, 3))
      else if 0xF0 <= b0 < 0xF8 && |b| >= 4
              && IsContinuation(b[1]) && IsContinuation(b[2]) && IsContinuation(b[3]) then
        var n := (b0 - 0xF0) * 262144 + (b[1] as int - 0x80) * 4096
                 + (b[2] as int - 0x80) * 64 + (b[3] as int - 0x80);
        if n < 0x10000 || n >= 0x110000 then None else Some((n as char, 4))
      else
        None
  }

  /** Decodes a whole byte string, or `None` if any part is malformed. */
  function Decode(b: seq<byte>): (r: Option<string>)
    ensures r.Some? ==> |r.value| <= |b|
    decreases |b|
  {
    if |b| == 0 then Some([])
    else
      match DecodeChar(b)
      case None => None
      case Some((c, k)) =>
        match Decode(b[k..])
        case None => None
        case Some(rest) => Some([c] + rest)
  }

  lemma DecodeEncodeTwo(c: char, rest: seq<byte>)
    requires 0x80 <= c as int < 0x800
    ensures DecodeChar(EncodeChar(c) + rest) == Some((c, 2))
  {
    var e := EncodeChar(c);
    var b := e + rest;
    var n := c as int;
    assert b[0] == e[0] && b[1] == e[1];
    assert (n / 64) * 64 + n % 64 == n;
  }

  lemma DecodeEncodeThree(c: char, rest: seq<byte>)
    requires 0x800 <= c as int < 0x10000
    ensures DecodeChar(EncodeChar(c) + rest) == Some((c, 3))
  {
    var e := EncodeChar(c);
    var b := e + rest;
    var n := c as int;
    assert b[0] == e[0] && b[1] == e[1] && b[2] == e[2];
    var r := n % 4096;
    assert n == (n / 4096) * 4096 + r;
    assert r == (r / 64) * 64 + r % 64;
  }

  lemma DecodeEncodeFour(c: char, rest: seq<byte>)
    requires 0x10000 <= c as int
    ensures DecodeChar(EncodeChar(c) + rest) == Some((c, 4))
  {
    var e := EncodeChar(c);
    var b := e + rest;
    var n := c as int;
    assert b[0] == e[0] && b[1] == e[1] && b[2] == e[2] && b[3] == e[3];
    assert n / 262144 < 8;
    var r := n % 262144;
    var r' := r % 4096;
    assert n == (n / 262144) * 262144 + r;
    assert r == (r / 4096) * 4096 + r';
    assert r' == (r' / 64) * 64 + r' % 64;
  }

  /** Decoding reads back exactly the character that was encoded, whatever
      follows it. */
  lemma DecodeEncodeChar(c: char, rest: seq<byte>)
    ensures DecodeChar(EncodeChar(c) + rest) == Some((c, |EncodeChar(c)|))
  {
    var n := c as int;
    if n < 0x80 {
      assert (EncodeChar(c) + rest)[0] == EncodeChar(c)[0];
    } else if n < 0x800 {
      DecodeEncodeTwo(c, rest);
    } else if n < 0x10000 {
      DecodeEncodeThree(c, rest);
    } else {
      DecodeEncodeFour(c, rest);
    }
  }

  /** Distinct strings have distinct bytes. */
  lemma EncodeInjective(s: string, t: string)
    requires Encode(s) == Encode(t)
    ensures s == t
  {
    assert Decode(Encode(s)) == Some(s);
    assert Decode(Encode(t)) == Some(t);
  }

  /** On ASCII text the bytes are the character codes, one for one. */
  lemma {:induction false} EncodeAscii(s: string)
    requires forall i | 0 <= i < |s| :: s[i] as int < 0x80
    ensures |Encode(s)| == |s|
    ensures forall i | 0 <= i < |s| :: Encode(s)[i] as int == s[i] as int
  {
    if |s| > 0 {
      EncodeAscii(s[1..]);
    }
  }
}
