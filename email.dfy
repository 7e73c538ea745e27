/** How the signup form reads an email address: normalisation (trim, then
    lower-case) and `validateEmail`, the pattern `^[^\s@]+@[^\s@]+\.[^\s@]+$`
    written as a predicate over characters. */
module Email {
  import opened JsString

  /** The address as the form handler uses it: trimmed, then lower-cased. */
  function Normalise(raw: string): (e: string)
    ensures Clean(e)
    ensures forall i | 0 <= i < |e| :: !IsUpper(e[i])
  {
    var t := Trim(raw);
    assert t != [] ==> ToLower(t)[0] == LowerChar(t[0]) && ToLower(t)[|t| - 1] == LowerChar(t[|t| - 1]);
    ToLower(t)
  }

  /** Normalising an address that is already normalised changes nothing, so
      the value stored on signup is its own normal form. */
  lemma NormaliseIdempotent(raw: string)
    ensures Normalise(Normalise(raw)) == Normalise(raw)
  {
    var e := Normalise(raw);
    TrimClean(e);
    ToLowerIdempotent(Trim(raw));
  }

  /** Normalising is trimming after lower-casing. */
  lemma NormaliseLowerFirst(raw: string)
    ensures Normalise(raw) == Trim(ToLower(raw))
  {
    TrimToLower(raw);
  }

  /** Addresses that differ only in the case of their letters have the same
      normal form, so the duplicate check compares them case-insensitively. */
  lemma NormaliseIgnoresCase(a: string, b: string)
    requires ToLower(a) == ToLower(b)
    ensures Normalise(a) == Normalise(b)
  {
    NormaliseLowerFirst(a);
    NormaliseLowerFirst(b);
  }

  /** `[^\s@]`: a character allowed in each of the three runs of the pattern. */
  predicate IsAddressChar(c: char) {
    !IsWhitespace(c) && c != '@'
  }

  /** Every character of `s` from `lo` up to `hi` is an address character. */
  predicate AddressIn(s: string, lo: nat, hi: nat)
    requires lo <= hi <= |s|
  {
    forall i | lo <= i < hi :: IsAddressChar(s[i])
  }

  /** Where a greedy `[^\s@]*` started at `i` stops. */
  function RunEnd(s: string, i: nat): (k: nat)
    requires i <= |s|
    ensures i <= k <= |s| && AddressIn(s, i, k)
    ensures k < |s| ==> !IsAddressChar(s[k])
    decreases |s| - i
  {
    if i < |s| && IsAddressChar(s[i]) then RunEnd(s, i + 1) else i
  }

  /** `validateEmail`, as the pattern is matched: a non-empty run of address
      characters, then `@`, then a remainder made only of address characters
      with a `.` that is neither its first nor its last character (the
      domain and suffix runs may themselves hold dots). */
  predicate ValidateEmail(e: string) {
    var n := RunEnd(e, 0);
    && 0 < n < |e| && e[n] == '@'
    && RunEnd(e, n + 1) == |e|
    && exists j | n + 1 < j < |e| - 1 :: e[j] == '.'
  }

  /** The pattern read literally: `e` splits as local `@` domain `.` suffix,
      each of the three runs non-empty and made of address characters. */
  ghost predicate MatchesPattern(e: string) {
    exists at, dot | 0 < at && at + 1 < dot && dot + 1 < |e| ::
      && e[at] == '@' && e[dot] == '.'
      && AddressIn(e, 0, at) && AddressIn(e, at + 1, dot) && AddressIn(e, dot + 1, |e|)
  }

  /** The pattern's meaning in words: no whitespace, exactly one `@`, a
      non-empty local part, and a `.` after the `@` with at least one
      character on each side of it. */
  ghost predicate AddressShape(e: string) {
    && (forall i | 0 <= i < |e| :: !IsWhitespace(e[i]))
    && multiset(e)['@'] == 1
    && exists at, dot | 0 < at && at + 1 < dot && dot + 1 < |e| :: e[at] == '@' && e[dot] == '.'
  }

  /** A run of address characters ended by another character (or by the end)
      is exactly what RunEnd finds. */
  lemma {:induction false} RunEndOf(s: string, i: nat, k: nat)
    requires i <= k <= |s| && AddressIn(s, i, k)
    requires k < |s| ==> !IsAddressChar(s[k])
    ensures RunEnd(s, i) == k
    decreases k - i
  {
    if i < k {
      RunEndOf(s, i + 1, k);
    }
  }

  /** What the scanner accepts, the pattern matches. */
  lemma ScannerSound(e: string)
    requires ValidateEmail(e)
    ensures MatchesPattern(e)
  {
    var n := RunEnd(e, 0);
    var j :| n + 1 < j < |e| - 1 && e[j] == '.';
    assert AddressIn(e, n + 1, j) && AddressIn(e, j + 1, |e|);
  }

  /** What the pattern matches, the scanner accepts. */
  lemma ScannerComplete(e: string)
    requires MatchesPattern(e)
    ensures ValidateEmail(e)
  {
    var at, dot :| 0 < at && at + 1 < dot && dot + 1 < |e|
      && e[at] == '@' && e[dot] == '.'
      && AddressIn(e, 0, at) && AddressIn(e, at + 1, dot) && AddressIn(e, dot + 1, |e|);
    RunEndOf(e, 0, at);
    assert AddressIn(e, at + 1, |e|);
    RunEndOf(e, at + 1, |e|);
  }

  /** The scanner accepts exactly the strings the pattern matches. */
  lemma ValidateEmailMatches(e: string)
    ensures ValidateEmail(e) <==> MatchesPattern(e)
  {
    if ValidateEmail(e) { ScannerSound(e); }
    if MatchesPattern(e) { ScannerComplete(e); }
  }

  /** A character found at exactly one position occurs once. */
  lemma OneOccurrence(e: string, c: char, at: nat)
    requires at < |e| && e[at] == c
    requires forall i | 0 <= i < |e| && i != at :: e[i] != c
    ensures multiset(e)[c] == 1
  {
    var a, b := e[..at], e[at + 1..];
    assert c !in a && c !in b;
    assert e == a + [c] + b;
  }

  lemma TwoOccurrences(e: string, c: char, i: nat, j: nat)
    requires i < j < |e| && e[i] == c && e[j] == c
    ensures multiset(e)[c] >= 2
  {
    assert e == e[..i] + [e[i]] + e[i + 1..j] + [e[j]] + e[j + 1..];
  }

  /** Every string the pattern matches has the shape above. */
  lemma PatternSound(e: string)
    requires MatchesPattern(e)
    ensures AddressShape(e)
  {
    var at, dot :| 0 < at && at + 1 < dot && dot + 1 < |e|
      && e[at] == '@' && e[dot] == '.'
      && AddressIn(e, 0, at) && AddressIn(e, at + 1, dot) && AddressIn(e, dot + 1, |e|);
    assert forall i | 0 <= i < |e| && i != at && i != dot :: IsAddressChar(e[i]);
    OneOccurrence(e, '@', at);
  }

  /** Every string of the shape above matches the pattern. */
  lemma PatternComplete(e: string)
    requires AddressShape(e)
    ensures MatchesPattern(e)
  {
    var at, dot :| 0 < at && at + 1 < dot && dot + 1 < |e| && e[at] == '@' && e[dot] == '.';
    forall j | 0 <= j < |e| && j != at ensures IsAddressChar(e[j]) {
      if e[j] == '@' {
        if j < at { TwoOccurrences(e, '@', j, at); } else { TwoOccurrences(e, '@', at, j); }
      }
    }
  }

  /** validateEmail accepts a string exactly when it has the shape above. */
  lemma ValidateEmailShape(e: string)
    ensures ValidateEmail(e) <==> AddressShape(e)
  {
    ValidateEmailMatches(e);
    if MatchesPattern(e) { PatternSound(e); }
    if AddressShape(e) { PatternComplete(e); }
  }

  /** Three runs of lower-case letters joined by `@` and `.` form a valid address. */
  lemma ValidateEmailOfLetters(local: string, domain: string, suffix: string)
    requires local != [] && domain != [] && suffix != []
    requires forall i | 0 <= i < |local| :: 'a' <= local[i] <= 'z'
    requires forall i | 0 <= i < |domain| :: 'a' <= domain[i] <= 'z'
    requires forall i | 0 <= i < |suffix| :: 'a' <= suffix[i] <= 'z'
    ensures ValidateEmail(local + "@" + domain + "." + suffix)
  {
    LettersMatch(local, domain, suffix);
    ScannerComplete(local + "@" + domain + "." + suffix);
  }

  lemma LettersMatch(local: string, domain: string, suffix: string)
    requires local != [] && domain != [] && suffix != []
    requires forall i | 0 <= i < |local| :: 'a' <= local[i] <= 'z'
    requires forall i | 0 <= i < |domain| :: 'a' <= domain[i] <= 'z'
    requires forall i | 0 <= i < |suffix| :: 'a' <= suffix[i] <= 'z'
    ensures MatchesPattern(local + "@" + domain + "." + suffix)
  {
    var e := local + "@" + domain + "." + suffix;
    var at, dot := |local|, |local| + 1 + |domain|;
    assert forall i | 0 <= i < at :: e[i] == local[i];
    assert forall i | at < i < dot :: e[i] == domain[i - at - 1];
    assert forall i | dot < i < |e| :: e[i] == suffix[i - dot - 1];
    assert e[at] == '@' && e[dot] == '.';
  }

  /** An address made of lower-case letters, `@` and `.` is its own normal form. */
  lemma NormaliseFixes(e: string)
    requires forall i | 0 <= i < |e| :: 'a' <= e[i] <= 'z' || e[i] == '@' || e[i] == '.'
    ensures Normalise(e) == e
  {
    if e != [] { TrimClean(e); }
    assert ToLower(e) == e;
  }

  /** An address of the sample data is accepted. */
  lemma ValidateEmailExample()
    ensures ValidateEmail("carol@mergington.edu")
  {
    ValidateEmailOfLetters("carol", "mergington", "edu");
    assert "carol" + "@" + "mergington" + "." + "edu" == "carol@mergington.edu";
  }

  /** An address with whitespace anywhere in it fails. */
  lemma ValidateEmailRejectsWhitespace(e: string, i: nat)
    requires i < |e| && IsWhitespace(e[i])
    ensures !ValidateEmail(e)
  {
    ValidateEmailShape(e);
  }

  /** An address with a second `@` fails. */
  lemma ValidateEmailRejectsTwoAts(e: string, i: nat, j: nat)
    requires i < j < |e| && e[i] == '@' && e[j] == '@'
    ensures !ValidateEmail(e)
  {
    ValidateEmailShape(e);
    TwoOccurrences(e, '@', i, j);
  }

  /** An address without a dot fails. */
  lemma ValidateEmailRejectsNoDot(e: string)
    requires '.' !in e
    ensures !ValidateEmail(e)
  {
  }
}
