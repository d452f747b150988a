/**
 * The pure helpers of the browser script: the e-mail, password and
 * password-confirmation validators, the toast icon choice, and the text and
 * overflow rule of the character counter under a text area. Strings are
 * sequences of Unicode characters; where the script measures a string in
 * UTF-16 code units (`.length`) the model does so explicitly.
 */
module FormUtils {
  import opened Results

  // ---------------------------------------------------------------------
  // String length as the script sees it.

  /** The number of UTF-16 code units of one character: two for a character
      outside the Basic Multilingual Plane (a surrogate pair), one otherwise. */
  function CodeUnits(c: char): nat {
    if c as int >= 0x1_0000 then 2 else 1
  }

  /** `s.length`: the number of UTF-16 code units of `s`. */
  function JsLength(s: string): (n: nat)
    ensures |s| <= n <= 2 * |s|
    ensures n == 0 <==> s == []
  {
    if s == [] then 0 else CodeUnits(s[0]) + JsLength(s[1..])
  }

  /** One character counts as its code units: two outside the Basic
      Multilingual Plane, one inside it. */
  lemma JsLengthOne(c: char)
    ensures JsLength([c]) == CodeUnits(c)
  {
  }

  /** A string of characters outside the Basic Multilingual Plane is twice as
      long in code units as in characters. */
  lemma {:induction false} AstralLength(s: string)
    requires forall i :: 0 <= i < |s| ==> CodeUnits(s[i]) == 2
    ensures JsLength(s) == 2 * |s|
  {
    if s != [] {
      AstralLength(s[1..]);
    }
  }

  /** The length of a concatenation is the sum of the lengths. */
  lemma {:induction false} JsLengthAppend(a: string, b: string)
    ensures JsLength(a + b) == JsLength(a) + JsLength(b)
  {
    if a == [] {
      assert a + b == b;
    } else {
      assert (a + b)[1..] == a[1..] + b;
      JsLengthAppend(a[1..], b);
    }
  }

  // ---------------------------------------------------------------------
  // validateEmail: /^[^\s@]+@[^\s@]+\.[^\s@]+$/

  /** Membership in the regular-expression class `\s`: the ECMAScript white
      space and line terminator characters. */
  predicate IsJsSpace(c: char) {
    || ('\t' <= c <= '\r')
    || c == ' '
    || c == '\U{A0}'
    || c == '\U{1680}'
    || ('\U{2000}' <= c <= '\U{200A}')
    || c == '\U{2028}'
    || c == '\U{2029}'
    || c == '\U{202F}'
    || c == '\U{205F}'
    || c == '\U{3000}'
    || c == '\U{FEFF}'
  }

  /** No white space anywhere in `s`. */
  predicate NoSpace(s: string) {
    forall i :: 0 <= i < |s| ==> !IsJsSpace(s[i])
  }

  /** Every character of `t` is in the class `[^\s@]`. */
  predicate Plain(t: string) {
    forall i :: 0 <= i < |t| ==> !IsJsSpace(t[i]) && t[i] != '@'
  }

  /** One way for the pattern to match `s`: the '@' at `at`, the literal '.'
      at `dot`, and the three runs around them non-empty and plain. */
  predicate EmailSplit(s: string, at: nat, dot: nat)
    requires at < dot < |s|
  {
    && 0 < at && at + 1 < dot && dot + 1 < |s|
    && s[at] == '@' && s[dot] == '.'
    && Plain(s[..at]) && Plain(s[at + 1..dot]) && Plain(s[dot + 1..])
  }

  /** `validateEmail`: the anchored pattern matches the whole string. */
  predicate ValidateEmail(s: string) {
    exists at: nat, dot: nat | at < dot < |s| :: EmailSplit(s, at, dot)
  }

  /** The only '@' of `s` sits at `at`. */
  predicate OnlyAtSignAt(s: string, at: nat) {
    at < |s| && s[at] == '@' && forall i :: 0 <= i < |s| && i != at ==> s[i] != '@'
  }

  /** `d` has a '.' with at least one character on each side. */
  predicate HasInnerDot(d: string) {
    exists p :: 0 < p < |d| - 1 && d[p] == '.'
  }

  /** The pattern, said without a pattern: no white space, exactly one '@'
      with something before it, and a '.' strictly inside the part after it. */
  lemma ValidateEmailCharacterized(s: string)
    ensures ValidateEmail(s) <==>
      NoSpace(s) && exists at: nat :: OnlyAtSignAt(s, at) && 0 < at && HasInnerDot(s[at + 1..])
  {
    if ValidateEmail(s) {
      var at: nat, dot: nat :| at < dot < |s| && EmailSplit(s, at, dot);
      ValidSplitFacts(s, at, dot);
    }
    if NoSpace(s) && exists at: nat :: OnlyAtSignAt(s, at) && 0 < at && HasInnerDot(s[at + 1..]) {
      var at: nat :| OnlyAtSignAt(s, at) && 0 < at && HasInnerDot(s[at + 1..]);
      SplitFromFacts(s, at);
    }
  }

  /** The facts of the characterization give a match of the pattern. */
  lemma SplitFromFacts(s: string, at: nat)
    requires NoSpace(s) && OnlyAtSignAt(s, at) && 0 < at && HasInnerDot(s[at + 1..])
    ensures ValidateEmail(s)
  {
    var d := s[at + 1..];
    var p :| 0 < p < |d| - 1 && d[p] == '.';
    var dot := at + 1 + p;
    assert s[dot] == '.' by {
      assert s[dot] == d[p];
    }
    assert Plain(s[..at]) by {
      forall i | 0 <= i < at ensures !IsJsSpace(s[..at][i]) && s[..at][i] != '@' {
        assert s[..at][i] == s[i];
      }
    }
    var host, tld := s[at + 1..dot], s[dot + 1..];
    assert Plain(host) by {
      forall i | 0 <= i < |host| ensures !IsJsSpace(host[i]) && host[i] != '@' {
        assert host[i] == s[at + 1 + i];
      }
    }
    assert Plain(tld) by {
      forall i | 0 <= i < |tld| ensures !IsJsSpace(tld[i]) && tld[i] != '@' {
        assert tld[i] == s[dot + 1 + i];
      }
    }
    assert EmailSplit(s, at, dot);
  }

  /** What one match tells about the whole string. */
  lemma ValidSplitFacts(s: string, at: nat, dot: nat)
    requires at < dot < |s| && EmailSplit(s, at, dot)
    ensures NoSpace(s) && OnlyAtSignAt(s, at) && 0 < at && HasInnerDot(s[at + 1..])
  {
    forall i | 0 <= i < |s| && i != at ensures !IsJsSpace(s[i]) && s[i] != '@' {
      if i < at {
        assert s[i] == s[..at][i];
      } else if i < dot {
        assert s[i] == s[at + 1..dot][i - (at + 1)];
      } else if i > dot {
        assert s[i] == s[dot + 1..][i - (dot + 1)];
      }
    }
    assert s[at + 1..][dot - (at + 1)] == '.';
  }

  /** Any white space, a missing '@' or a second '@' makes the address invalid. */
  lemma ValidateEmailRejects(s: string)
    ensures (exists i :: 0 <= i < |s| && IsJsSpace(s[i])) ==> !ValidateEmail(s)
    ensures (forall i :: 0 <= i < |s| ==> s[i] != '@') ==> !ValidateEmail(s)
    ensures (exists i, j :: 0 <= i < j < |s| && s[i] == '@' && s[j] == '@') ==> !ValidateEmail(s)
  {
    if ValidateEmail(s) {
      var at: nat, dot: nat :| at < dot < |s| && EmailSplit(s, at, dot);
      ValidSplitFacts(s, at, dot);
    }
  }

  // ---------------------------------------------------------------------
  // validatePassword and validatePasswordMatch

  /** `validatePassword`: at least eight UTF-16 code units. */
  predicate ValidatePassword(password: string) {
    JsLength(password) >= 8
  }

  /** Eight characters always pass, fewer than four never do, and between
      those it depends on how many lie outside the Basic Multilingual Plane. */
  lemma ValidatePasswordBounds(password: string)
    ensures |password| >= 8 ==> ValidatePassword(password)
    ensures |password| < 4 ==> !ValidatePassword(password)
    ensures (forall i :: 0 <= i < |password| ==> CodeUnits(password[i]) == 1) ==>
      (ValidatePassword(password) <==> |password| >= 8)
  {
    if forall i :: 0 <= i < |password| ==> CodeUnits(password[i]) == 1 {
      BmpLength(password);
    }
  }

  /** A string of Basic Multilingual Plane characters has one code unit each. */
  lemma {:induction false} BmpLength(s: string)
    requires forall i :: 0 <= i < |s| ==> CodeUnits(s[i]) == 1
    ensures JsLength(s) == |s|
  {
    if s != [] {
      BmpLength(s[1..]);
    }
  }

  /** Lengthening an accepted password keeps it accepted. */
  lemma ValidatePasswordExtends(password: string, more: string)
    requires ValidatePassword(password)
    ensures ValidatePassword(password + more)
  {
    JsLengthAppend(password, more);
  }

  /** `validatePasswordMatch`: strict equality of the two strings. */
  predicate ValidatePasswordMatch(password: string, confirmPassword: string) {
    password == confirmPassword
  }

  /** The check is an equivalence: reflexive, symmetric and transitive. */
  lemma PasswordMatchEquivalence(a: string, b: string, c: string)
    ensures ValidatePasswordMatch(a, a)
    ensures ValidatePasswordMatch(a, b) ==> ValidatePasswordMatch(b, a)
    ensures ValidatePasswordMatch(a, b) && ValidatePasswordMatch(b, c) ==> ValidatePasswordMatch(a, c)
  {
  }

  // ---------------------------------------------------------------------
  // getToastIcon

  const SuccessIcon := "check-circle"
  const WarningIcon := "exclamation-triangle"
  const InfoIcon := "info-circle"

  /** `getToastIcon`: success, error/warning, and everything else. */
  function GetToastIcon(kind: string): (icon: string)
    ensures icon == SuccessIcon <==> kind == "success"
    ensures icon == WarningIcon <==> kind == "error" || kind == "warning"
    ensures icon == InfoIcon <==> kind != "success" && kind != "error" && kind != "warning"
  {
    if kind == "success" then SuccessIcon
    else if kind == "error" || kind == "warning" then WarningIcon
    else InfoIcon
  }

  // ---------------------------------------------------------------------
  // The character counter of setupCharacterCount

  predicate IsDigit(c: char) {
    '0' <= c <= '9'
  }

  function DigitChar(d: nat): (c: char)
    requires d < 10
    ensures IsDigit(c)
  {
    "0123456789"[d]
  }

  function DigitValue(c: char): (d: nat)
    requires IsDigit(c)
    ensures d < 10 && DigitChar(d) == c
  {
    (c as int - '0' as int) as nat
  }

  /** Number-to-string conversion of a non-negative integer: its decimal digits,
      without leading zeros. */
  function Decimal(n: nat): (s: string)
    ensures s != [] && forall i :: 0 <= i < |s| ==> IsDigit(s[i])
    ensures s[0] == '0' ==> n == 0 && s == "0"
  {
    if n < 10 then [DigitChar(n)] else Decimal(n / 10) + [DigitChar(n % 10)]
  }

  /** The value of a string of decimal digits. */
  function ParseDecimal(s: string): nat
    requires forall i :: 0 <= i < |s| ==> IsDigit(s[i])
  {
    if s == [] then 0 else 10 * ParseDecimal(s[..|s| - 1]) + DigitValue(s[|s| - 1])
  }

  /** Reading the rendered digits back gives the number. */
  lemma {:induction false} DecimalRoundTrip(n: nat)
    ensures ParseDecimal(Decimal(n)) == n
  {
    var s := Decimal(n);
    if n >= 10 {
      DecimalRoundTrip(n / 10);
      assert s[..|s| - 1] == Decimal(n / 10);
    }
  }

  /** Digits, possibly after one leading '-'. */
  predicate IntText(t: string) {
    forall i :: 0 <= i < |t| ==> IsDigit(t[i]) || (i == 0 && t[i] == '-')
  }

  /** How JavaScript writes an integer: no leading zero, except in "0" itself,
      and none right after a '-'. */
  predicate CanonicalInt(t: string) {
    && t != [] && IntText(t)
    && (t[0] == '0' ==> t == "0")
    && (t[0] == '-' ==> |t| > 1 && t[1] != '0')
  }

  /** The value of an optionally signed string of decimal digits. */
  function ParseInt(t: string): int
    requires IntText(t)
  {
    if t != [] && t[0] == '-' then -(ParseDecimal(t[1..]) as int) else ParseDecimal(t)
  }

  /** Number-to-string conversion of any integer: a '-' before the digits of a
      negative one. */
  function JsInt(n: int): (s: string)
    ensures s != [] && (n >= 0 <==> s[0] != '-')
    ensures IntText(s)
    ensures n > 0 ==> s[0] != '0'
    ensures n < 0 ==> |s| > 1 && s[1] != '0'
  {
    if n >= 0 then Decimal(n) else "-" + Decimal(-n)
  }

  /** Reading the rendered integer back gives the number. */
  lemma JsIntRoundTrip(n: int)
    ensures ParseInt(JsInt(n)) == n
  {
    if n >= 0 {
      DecimalRoundTrip(n);
    } else {
      DecimalRoundTrip(-n);
      assert JsInt(n)[1..] == Decimal(-n);
    }
  }

  /** The longest run of digits at the start of `s`. */
  function LeadingDigits(s: string): (d: string)
    ensures |d| <= |s| && d == s[..|d|]
    ensures forall i :: 0 <= i < |d| ==> IsDigit(d[i])
    ensures |d| < |s| ==> !IsDigit(s[|d|])
  {
    if s != [] && IsDigit(s[0]) then [s[0]] + LeadingDigits(s[1..]) else []
  }

  /** A digit string followed by a non-digit is exactly the leading digit run. */
  lemma {:induction false} LeadingDigitsOf(d: string, rest: string)
    requires forall i :: 0 <= i < |d| ==> IsDigit(d[i])
    requires rest != [] && !IsDigit(rest[0])
    ensures LeadingDigits(d + rest) == d
  {
    if d == [] {
      assert d + rest == rest;
    } else {
      assert (d + rest)[1..] == d[1..] + rest;
      LeadingDigitsOf(d[1..], rest);
    }
  }

  /** The `maxLength` argument: absent (`null`), or a number. */
  type MaxLength = Option<int>

  /** JavaScript truthiness of `maxLength`: given and not zero. */
  predicate Truthy(maxLength: MaxLength) {
    maxLength.Some? && maxLength.value != 0
  }

  const Suffix := " characters"

  /** The counter text for the text area's current `value`. */
  function CounterLabel(value: string, maxLength: MaxLength): string {
    Decimal(JsLength(value)) + (if Truthy(maxLength) then " / " + JsInt(maxLength.value) else "") + Suffix
  }

  /** Whether the counter turns red and the text area is marked invalid. */
  predicate MarkedInvalid(value: string, maxLength: MaxLength) {
    Truthy(maxLength) && JsLength(value) > maxLength.value
  }

  /** The text starts with the count, which reads back as the length of the
      value, and ends with " characters". */
  lemma CounterLabelShape(value: string, maxLength: MaxLength)
    ensures ParseDecimal(LeadingDigits(CounterLabel(value, maxLength))) == JsLength(value)
    ensures |CounterLabel(value, maxLength)| >= |Suffix|
    ensures CounterLabel(value, maxLength)[|CounterLabel(value, maxLength)| - |Suffix|..] == Suffix
  {
    var text := CounterLabel(value, maxLength);
    var digits := Decimal(JsLength(value));
    var middle := if Truthy(maxLength) then " / " + JsInt(maxLength.value) else "";
    assert text == digits + (middle + Suffix);
    assert (middle + Suffix)[0] == ' ';
    LeadingDigitsOf(digits, middle + Suffix);
    DecimalRoundTrip(JsLength(value));
    assert text[|text| - |Suffix|..] == Suffix;
  }

  /** Without a truthy maximum the text is the count and " characters";
      with one, the count, " / ", the maximum written out, and " characters". */
  lemma CounterLabelParts(value: string, maxLength: MaxLength)
    ensures !Truthy(maxLength) ==> CounterLabel(value, maxLength) == Decimal(JsLength(value)) + Suffix
    ensures Truthy(maxLength) ==>
      exists t :: CanonicalInt(t) && ParseInt(t) == maxLength.value
        && CounterLabel(value, maxLength) == Decimal(JsLength(value)) + " / " + t + Suffix
  {
    if Truthy(maxLength) {
      var t := JsInt(maxLength.value);
      JsIntRoundTrip(maxLength.value);
      assert CounterLabel(value, maxLength) == Decimal(JsLength(value)) + " / " + t + Suffix;
    }
  }

  /** The " / max" part appears exactly when a truthy maximum is given. */
  lemma CounterShowsLimitIff(value: string, maxLength: MaxLength)
    ensures '/' in CounterLabel(value, maxLength) <==> Truthy(maxLength)
  {
    var digits := Decimal(JsLength(value));
    var text := CounterLabel(value, maxLength);
    assert '/' !in digits;
    assert '/' !in Suffix;
    if Truthy(maxLength) {
      assert text[|digits| + 1] == '/';
    } else {
      assert text == digits + Suffix;
    }
  }

  /** A field is marked invalid only when the limit is part of the text, and
      more characters than a truthy limit always mark it. */
  lemma MarkedInvalidShowsLimit(value: string, maxLength: MaxLength)
    ensures MarkedInvalid(value, maxLength) ==> '/' in CounterLabel(value, maxLength)
    ensures Truthy(maxLength) && |value| > maxLength.value ==> MarkedInvalid(value, maxLength)
  {
    CounterShowsLimitIff(value, maxLength);
  }

  /** For text inside the Basic Multilingual Plane the overflow rule counts
      characters: marked exactly when a truthy limit is exceeded. */
  lemma MarkedInvalidInBmp(value: string, maxLength: MaxLength)
    requires forall i :: 0 <= i < |value| ==> CodeUnits(value[i]) == 1
    ensures MarkedInvalid(value, maxLength) <==> Truthy(maxLength) && |value| > maxLength.value
  {
    BmpLength(value);
  }
}
