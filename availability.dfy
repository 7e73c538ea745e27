/** What an activity card shows about its capacity: the spots left, the
    availability badge's class and its text. */
module Availability {

  /** `Math.max(0, capacity - taken)`. */
  function SpotsLeft(capacity: int, taken: nat): (r: nat)
    ensures r >= capacity - taken
    ensures r == 0 || r == capacity - taken
    ensures r == 0 <==> capacity - taken <= 0
  {
    if capacity - taken > 0 then capacity - taken else 0
  }

  predicate IsDigit(c: char) {
    '0' <= c <= '9'
  }

  predicate AllDigits(s: string) {
    forall i | 0 <= i < |s| :: IsDigit(s[i])
  }

  function DigitChar(d: nat): (c: char)
    requires d < 10
    ensures IsDigit(c) && c as int - '0' as int == d
  {
    ('0' as int + d) as char
  }

  /** A natural number in decimal digits with no leading zero, which is how
      JavaScript writes an integer below 10^21 as a string. */
  function DecimalString(n: nat): (r: string)
    ensures |r| >= 1 && AllDigits(r)
    ensures r[0] == '0' ==> n == 0
    decreases n
  {
    if n < 10 then [DigitChar(n)] else DecimalString(n / 10) + [DigitChar(n % 10)]
  }

  /** The value of a string of decimal digits. */
  function DigitsValue(s: string): nat
    requires AllDigits(s)
  {
    if s == [] then 0 else DigitsValue(s[..|s| - 1]) * 10 + (s[|s| - 1] as int - '0' as int)
  }

  /** Reading the decimal form back gives the number. */
  lemma {:induction false} DecimalRoundTrip(n: nat)
    ensures DigitsValue(DecimalString(n)) == n
    decreases n
  {
    if n >= 10 {
      DecimalRoundTrip(n / 10);
      var s := DecimalString(n);
      assert s[..|s| - 1] == DecimalString(n / 10);
    }
  }

  /** The longest prefix of `s` made of digits. */
  function LeadingDigits(s: string): (r: string)
    ensures AllDigits(r) && r <= s
  {
    if s != [] && IsDigit(s[0]) then [s[0]] + LeadingDigits(s[1..]) else []
  }

  lemma {:induction false} LeadingDigitsOf(d: string, t: string)
    requires AllDigits(d)
    requires t == [] || !IsDigit(t[0])
    ensures LeadingDigits(d + t) == d
  {
    if d == [] {
      assert d + t == t;
    } else {
      assert (d + t)[0] == d[0];
      assert (d + t)[1..] == d[1..] + t;
      LeadingDigitsOf(d[1..], t);
    }
  }

  /** `s` ends with `suffix`. */
  predicate EndsWith(s: string, suffix: string) {
    |suffix| <= |s| && s[|s| - |suffix|..] == suffix
  }

  /** The class of the availability badge. */
  function BadgeClass(spots: nat): (r: string)
    ensures r == "availability-full" <==> spots == 0
  {
    if spots == 0 then "availability-full" else "availability-open"
  }

  /** The words after the number on a badge that is not "Full". */
  function SpotsUnit(spots: nat): string {
    if spots > 1 then " spots left" else " spot left"
  }

  /** The text of the availability badge: "Full", or the number of spots
      left followed by its unit. */
  function BadgeText(spots: nat): (r: string)
    ensures r == "Full" <==> spots == 0
  {
    if spots == 0 then "Full"
    else
      var d := DecimalString(spots);
      assert (d + SpotsUnit(spots))[0] == d[0] != 'F';
      d + SpotsUnit(spots)
  }

  lemma EndsWithConcat(a: string, b: string)
    ensures EndsWith(a + b, b)
  {
    assert (a + b)[|a|..] == b;
  }

  /** The unit is plural exactly when more than one spot is left. */
  lemma BadgePlural(spots: nat)
    ensures EndsWith(BadgeText(spots), " spots left") <==> spots > 1
  {
    if spots > 1 {
      EndsWithConcat(DecimalString(spots), " spots left");
    } else if spots == 1 {
      assert DecimalString(1) == ['1'];
      var r := BadgeText(1);
      assert r[0] == '1' && |r| == |" spots left"|;
      assert r[|r| - |" spots left"|..] == r;
    }
  }

  /** One spot left reads "1 spot left". */
  lemma BadgeSingular()
    ensures BadgeText(1) == "1 spot left"
  {
    assert DecimalString(1) == ['1'];
  }

  /** A badge that is not "Full" starts with the number of spots left. */
  lemma BadgeShowsSpots(spots: nat)
    requires spots > 0
    ensures DigitsValue(LeadingDigits(BadgeText(spots))) == spots
  {
    assert BadgeText(spots) == DecimalString(spots) + SpotsUnit(spots);
    LeadingDigitsOf(DecimalString(spots), SpotsUnit(spots));
    DecimalRoundTrip(spots);
  }

  /** With two to nine spots left the badge is the digit and " spots left". */
  lemma BadgeOfDigit(d: nat)
    requires 1 < d < 10
    ensures BadgeText(d) == [DigitChar(d)] + " spots left"
  {
  }

  /** The chess club of the fixture: capacity 8 with two participants, then three. */
  lemma ChessBadges()
    ensures BadgeText(SpotsLeft(8, 2)) == "6 spots left"
    ensures BadgeText(SpotsLeft(8, 3)) == "5 spots left"
    ensures BadgeText(SpotsLeft(8, 9)) == "Full"
  {
    BadgeOfDigit(6);
    BadgeOfDigit(5);
  }
}
