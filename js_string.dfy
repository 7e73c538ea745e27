/** The ECMAScript string operations the roster script relies on: the
    whitespace class shared by `\s` and `String.prototype.trim`, `trim`
    itself, and `toLowerCase`. */
module JsString {

  /** A WhiteSpace or LineTerminator code point of ECMAScript: what `\s`
      matches in a regular expression and what `trim` strips. */
  predicate IsWhitespace(c: char) {
    || c == '\t' || c == '\n' || c == '\U{000B}' || c == '\U{000C}' || c == '\r'
    || c == ' ' || c == '\U{00A0}' || c == '\U{1680}'
    || ('\U{2000}' <= c <= '\U{200A}')
    || c == '\U{2028}' || c == '\U{2029}' || c == '\U{202F}' || c == '\U{205F}'
    || c == '\U{3000}' || c == '\U{FEFF}'
  }

  /** Every character of `s` from position `lo` up to `hi` is whitespace. */
  predicate WhitespaceIn(s: string, lo: nat, hi: nat)
    requires lo <= hi <= |s|
  {
    forall i | lo <= i < hi :: IsWhitespace(s[i])
  }

  /** A string with no whitespace at either end. */
  predicate Clean(s: string) {
    s == [] || (!IsWhitespace(s[0]) && !IsWhitespace(s[|s| - 1]))
  }

  /** The position of the first non-whitespace character at or after `i`
      (or `|s|`). */
  function SkipSpace(s: string, i: nat): (k: nat)
    requires i <= |s|
    ensures i <= k <= |s| && WhitespaceIn(s, i, k)
    ensures k < |s| ==> !IsWhitespace(s[k])
    decreases |s| - i
  {
    if i < |s| && IsWhitespace(s[i]) then SkipSpace(s, i + 1) else i
  }

  /** The end of the last non-whitespace character before `j` and not before
      `lo` (or `lo`). */
  function BackSpace(s: string, lo: nat, j: nat): (k: nat)
    requires lo <= j <= |s|
    ensures lo <= k <= j && WhitespaceIn(s, k, j)
    ensures k > lo ==> !IsWhitespace(s[k - 1])
  {
    if j > lo && IsWhitespace(s[j - 1]) then BackSpace(s, lo, j - 1) else j
  }

  /** `String.prototype.trim`: the part of `s` between its leading and its
      trailing whitespace. */
  function Trim(s: string): (r: string)
    ensures Clean(r)
  {
    var a := SkipSpace(s, 0);
    var b := BackSpace(s, a, |s|);
    assert a < b ==> s[a..b][0] == s[a] && s[a..b][b - a - 1] == s[b - 1];
    s[a..b]
  }

  /** Trim removes exactly a whitespace prefix and a whitespace suffix. */
  lemma TrimDecomposes(s: string)
    ensures exists a, b | 0 <= a <= b <= |s| ::
      Trim(s) == s[a..b] && WhitespaceIn(s, 0, a) && WhitespaceIn(s, b, |s|)
  {
    var a := SkipSpace(s, 0);
    var b := BackSpace(s, a, |s|);
    assert Trim(s) == s[a..b] && WhitespaceIn(s, 0, a) && WhitespaceIn(s, b, |s|);
  }

  /** A string with no whitespace at either end is left alone by Trim. */
  lemma TrimClean(s: string)
    requires Clean(s)
    ensures Trim(s) == s
  {
    assert SkipSpace(s, 0) == 0;
    assert BackSpace(s, 0, |s|) == |s|;
    assert s[0..|s|] == s;
  }

  /** Trim is idempotent. */
  lemma TrimIdempotent(s: string)
    ensures Trim(Trim(s)) == Trim(s)
  {
    TrimClean(Trim(s));
  }

  /** The upper-case letters whose lower-case form is modelled: ASCII A-Z and
      the Latin-1 letters U+00C0-U+00DE except the multiplication sign. */
  predicate IsUpper(c: char) {
    ('A' <= c <= 'Z') || ('\U{00C0}' <= c <= '\U{00DE}' && c != '\U{00D7}')
  }

  function LowerChar(c: char): (d: char)
    ensures !IsUpper(d)
    ensures IsUpper(c) || d == c
    ensures IsWhitespace(d) <==> IsWhitespace(c)
  {
    if IsUpper(c) then (c as int + 32) as char else c
  }

  /** `String.prototype.toLowerCase`, restricted to the letters IsUpper names. */
  function ToLower(s: string): (r: string)
    ensures |r| == |s|
    ensures forall i | 0 <= i < |r| :: !IsUpper(r[i])
    ensures forall i | 0 <= i < |s| :: IsUpper(s[i]) || r[i] == s[i]
  {
    seq(|s|, i requires 0 <= i < |s| => LowerChar(s[i]))
  }

  /** Each modelled capital becomes its own small letter: the 26 ASCII letters
      and the 30 Latin-1 letters, listed in the same order in both tables. */
  const AsciiCapitals: string := "ABCDEFGHIJKLMNOPQRSTUVWXYZ"
  const AsciiSmall: string := "abcdefghijklmnopqrstuvwxyz"
  const LatinCapitals: string := "\U{00C0}\U{00C1}\U{00C2}\U{00C3}\U{00C4}\U{00C5}\U{00C6}\U{00C7}\U{00C8}\U{00C9}\U{00CA}\U{00CB}\U{00CC}\U{00CD}\U{00CE}\U{00CF}\U{00D0}\U{00D1}\U{00D2}\U{00D3}\U{00D4}\U{00D5}\U{00D6}\U{00D8}\U{00D9}\U{00DA}\U{00DB}\U{00DC}\U{00DD}\U{00DE}"
  const LatinSmall: string := "\U{00E0}\U{00E1}\U{00E2}\U{00E3}\U{00E4}\U{00E5}\U{00E6}\U{00E7}\U{00E8}\U{00E9}\U{00EA}\U{00EB}\U{00EC}\U{00ED}\U{00EE}\U{00EF}\U{00F0}\U{00F1}\U{00F2}\U{00F3}\U{00F4}\U{00F5}\U{00F6}\U{00F8}\U{00F9}\U{00FA}\U{00FB}\U{00FC}\U{00FD}\U{00FE}"

  lemma LowerCharAscii()
    ensures forall i | 0 <= i < |AsciiCapitals| :: LowerChar(AsciiCapitals[i]) == AsciiSmall[i]
  {
  }

  lemma LowerCharLatin()
    ensures forall i | 0 <= i < |LatinCapitals| :: LowerChar(LatinCapitals[i]) == LatinSmall[i]
  {
  }

  /** Lower-casing does not move whitespace, so trimming skips the same
      prefix and suffix before and after it. */
  lemma {:induction false} SkipSpaceToLower(s: string, i: nat)
    requires i <= |s|
    ensures SkipSpace(ToLower(s), i) == SkipSpace(s, i)
    decreases |s| - i
  {
    if i < |s| {
      assert IsWhitespace(ToLower(s)[i]) <==> IsWhitespace(s[i]);
      SkipSpaceToLower(s, i + 1);
    }
  }

  lemma {:induction false} BackSpaceToLower(s: string, lo: nat, j: nat)
    requires lo <= j <= |s|
    ensures BackSpace(ToLower(s), lo, j) == BackSpace(s, lo, j)
  {
    if j > lo {
      assert IsWhitespace(ToLower(s)[j - 1]) <==> IsWhitespace(s[j - 1]);
      BackSpaceToLower(s, lo, j - 1);
    }
  }

  /** Trimming and lower-casing commute. */
  lemma TrimToLower(s: string)
    ensures Trim(ToLower(s)) == ToLower(Trim(s))
  {
    SkipSpaceToLower(s, 0);
    var a := SkipSpace(s, 0);
    BackSpaceToLower(s, a, |s|);
    var b := BackSpace(s, a, |s|);
    LowerSlice(s, a, b);
  }

  lemma LowerSlice(s: string, a: nat, b: nat)
    requires a <= b <= |s|
    ensures ToLower(s)[a..b] == ToLower(s[a..b])
  {
    assert forall i | 0 <= i < b - a :: ToLower(s)[a..b][i] == LowerChar(s[a + i]) == ToLower(s[a..b])[i];
  }

  /** Lower-casing twice is lower-casing once. */
  lemma ToLowerIdempotent(s: string)
    ensures ToLower(ToLower(s)) == ToLower(s)
  {
  }
}
