/** The username normalisation `sign_up` applies: `trim()` then
    `to_lowercase()`.  Trimming strips every character with the Unicode
    White_Space property, exactly as `char::is_whitespace` does; lower-casing
    is modelled on ASCII letters only. */
module Text {

  /** The Unicode White_Space characters, the set `str::trim` strips. */
  predicate IsWhitespace(c: char) {
    var n := c as int;
    || (0x09 <= n <= 0x0D) || n == 0x20 || n == 0x85 || n == 0xA0 || n == 0x1680
    || (0x2000 <= n <= 0x200A) || n == 0x2028 || n == 0x2029 || n == 0x202F
    || n == 0x205F || n == 0x3000
  }

  predicate AllWhitespace(s: string) {
    forall i | 0 <= i < |s| :: IsWhitespace(s[i])
  }

  /** Neither end of `s` is white space: what `trim` leaves behind. */
  predicate Trimmed(s: string) {
    |s| == 0 || (!IsWhitespace(s[0]) && !IsWhitespace(s[|s| - 1]))
  }

  predicate IsAsciiUpper(c: char) {
    'A' <= c <= 'Z'
  }

  predicate NoAsciiUpper(s: string) {
    forall i | 0 <= i < |s| :: !IsAsciiUpper(s[i])
  }

  /** The shape of every username `sign_up` stores. */
  predicate Normalized(s: string) {
    Trimmed(s) && NoAsciiUpper(s)
  }

  /** The scan of `trim_start`: from `i`, the index of the first character
      that is not white space, or `|s|`. */
  function SkipStart(s: string, i: nat): (j: nat)
    requires i <= |s|
    ensures i <= j <= |s|
    ensures forall k | i <= k < j :: IsWhitespace(s[k])
    ensures j == |s| || !IsWhitespace(s[j])
    decreases |s| - i
  {
    if i < |s| && IsWhitespace(s[i]) then SkipStart(s, i + 1) else i
  }

  /** The scan of `trim_end`: moving left from `j` but not past `lo`, the end
      of the last character that is not white space, or `lo`. */
  function SkipEnd(s: string, lo: nat, j: nat): (k: nat)
    requires lo <= j <= |s|
    ensures lo <= k <= j
    ensures forall m | k <= m < j :: IsWhitespace(s[m])
    ensures k == lo || !IsWhitespace(s[k - 1])
    decreases j
  {
    if j > lo && IsWhitespace(s[j - 1]) then SkipEnd(s, lo, j - 1) else j
  }

  /** `str::trim`: the middle slice of `s` left after both scans. */
  function Trim(s: string): (r: string)
    ensures Trimmed(r)
    ensures |r| <= |s|
  {
    var a := SkipStart(s, 0);
    var b := SkipEnd(s, a, |s|);
    assert b > a ==> !IsWhitespace(s[a]);
    s[a..b]
  }

  /** Every string is white space, its trim, and white space. */
  lemma TrimSplit(s: string) returns (p: string, q: string)
    ensures s == p + Trim(s) + q
    ensures AllWhitespace(p) && AllWhitespace(q)
  {
    var a := SkipStart(s, 0);
    var b := SkipEnd(s, a, |s|);
    p, q := s[..a], s[b..];
    assert AllWhitespace(p) by {
      forall k | 0 <= k < |p| ensures IsWhitespace(p[k]) {
        assert p[k] == s[k];
      }
    }
    assert AllWhitespace(q) by {
      forall k | 0 <= k < |q| ensures IsWhitespace(q[k]) {
        assert q[k] == s[b + k];
      }
    }
    assert Trim(s) == s[a..b];
    assert s == s[..a] + s[a..b] + s[b..];
  }

  /** Lower-cases one ASCII letter and leaves every other character alone. */
  function LowerChar(c: char): (r: char)
    ensures !IsAsciiUpper(r)
    ensures IsWhitespace(r) <==> IsWhitespace(c)
    ensures !IsAsciiUpper(c) ==> r == c
    ensures IsAsciiUpper(c) ==> 'a' <= r <= 'z' && r as int - c as int == 'a' as int - 'A' as int
  {
    if IsAsciiUpper(c) then (c as int + 32) as char else c
  }

  /** `to_lowercase`, restricted to ASCII letters. */
  function Lower(s: string): (r: string)
    ensures |r| == |s|
    ensures NoAsciiUpper(r)
    ensures forall i | 0 <= i < |s| :: r[i] == LowerChar(s[i])
  {
    if |s| == 0 then [] else [LowerChar(s[0])] + Lower(s[1..])
  }

  /** The username as `sign_up` stores and looks it up. */
  function Normalize(s: string): (r: string)
    ensures Normalized(r)
  {
    Lower(Trim(s))
  }

  /** `Trim` is determined by its three properties: any way of writing `s` as
      white space, a trimmed middle and white space yields that middle. */
  lemma TrimUnique(s: string, p: string, m: string, q: string)
    requires s == p + m + q
    requires AllWhitespace(p) && AllWhitespace(q) && Trimmed(m)
    ensures Trim(s) == m
  {
    var a := SkipStart(s, 0);
    var e := |p| + |m|;
    assert forall k | 0 <= k < |p| :: s[k] == p[k];
    assert forall k | e <= k < |s| :: s[k] == q[k - e];
    if |m| == 0 {
      assert forall k | 0 <= k < |s| :: IsWhitespace(s[k]);
      assert a == |s|;
    } else {
      assert s[|p|] == m[0];
      assert s[e - 1] == m[|m| - 1];
      assert a == |p|;
      var b := SkipEnd(s, a, |s|);
      assert b == e;
      assert s[a..b] == m;
    }
  }

  /** A string that is already trimmed is its own trim. */
  lemma TrimOfTrimmed(s: string)
    requires Trimmed(s)
    ensures Trim(s) == s
  {
    TrimUnique(s, [], s, []);
  }

  /** Lower-casing is the identity exactly on strings without ASCII capitals. */
  lemma LowerFixes(s: string)
    ensures Lower(s) == s <==> NoAsciiUpper(s)
  {
    if NoAsciiUpper(s) {
      assert forall i | 0 <= i < |s| :: Lower(s)[i] == s[i];
    }
  }

  lemma LowerConcat(a: string, b: string)
    ensures Lower(a + b) == Lower(a) + Lower(b)
  {
    var l, r := Lower(a + b), Lower(a) + Lower(b);
    forall i | 0 <= i < |a + b| ensures l[i] == r[i] {
      if i < |a| {
        assert (a + b)[i] == a[i];
      } else {
        assert (a + b)[i] == b[i - |a|];
      }
    }
    assert l == r;
  }

  /** Trimming and lower-casing commute, so `trim().to_lowercase()` and
      `to_lowercase().trim()` store the same name. */
  lemma TrimLowerCommute(s: string)
    ensures Trim(Lower(s)) == Lower(Trim(s))
  {
    var m := Trim(s);
    var p, q := TrimSplit(s);
    LowerConcat(p + m, q);
    LowerConcat(p, m);
    var lm := Lower(m);
    assert Trimmed(lm) by {
      if |m| > 0 {
        assert lm[0] == LowerChar(m[0]);
        assert lm[|lm| - 1] == LowerChar(m[|m| - 1]);
      }
    }
    TrimUnique(Lower(s), Lower(p), lm, Lower(q));
  }

  /** The characterisation of the fixed points of `Normalize`. */
  lemma NormalizeFixes(s: string)
    ensures Normalize(s) == s <==> Normalized(s)
  {
    if Normalized(s) {
      TrimOfTrimmed(s);
      LowerFixes(s);
    }
  }

  /** Normalising twice is normalising once. */
  lemma NormalizeIdempotent(s: string)
    ensures Normalize(Normalize(s)) == Normalize(s)
  {
    NormalizeFixes(Normalize(s));
  }

  /** Surrounding white space does not change the stored name. */
  lemma NormalizeIgnoresPadding(p: string, s: string, q: string)
    requires AllWhitespace(p) && AllWhitespace(q)
    ensures Normalize(p + s + q) == Normalize(s)
  {
    TrimIgnoresPadding(p, s, q);
  }

  lemma AllWhitespaceConcat(a: string, b: string)
    requires AllWhitespace(a) && AllWhitespace(b)
    ensures AllWhitespace(a + b)
  {
    forall k | 0 <= k < |a + b| ensures IsWhitespace((a + b)[k]) {
      if k < |a| { assert (a + b)[k] == a[k]; } else { assert (a + b)[k] == b[k - |a|]; }
    }
  }

  lemma TrimIgnoresPadding(p: string, s: string, q: string)
    requires AllWhitespace(p) && AllWhitespace(q)
    ensures Trim(p + s + q) == Trim(s)
  {
    var m := Trim(s);
    var p', q' := TrimSplit(s);
    AllWhitespaceConcat(p, p');
    AllWhitespaceConcat(q', q);
    assert p + s + q == (p + p') + m + (q' + q);
    TrimUnique(p + s + q, p + p', m, q' + q);
  }

  /** Names that differ only in the case of ASCII letters collide. */
  lemma NormalizeIgnoresCase(s: string, t: string)
    requires Lower(s) == Lower(t)
    ensures Normalize(s) == Normalize(t)
  {
    TrimLowerCommute(s);
    TrimLowerCommute(t);
  }
}
