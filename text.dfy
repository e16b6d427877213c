/**
 * Character and string tests the validators apply to single cells: the
 * non-ASCII search, the two allow-list patterns, the digit test used for
 * Countries and Languages, the two date patterns and the closed value sets.
 *
 * Python's `\d`, `\s`, `str.isdigit` and `str.isnumeric` also accept
 * non-ASCII digits, spaces and numerals; here they are restricted to ASCII.
 */
module Text {

  /** A code point in 0x00 .. 0x7F (`[\x00-\x7F]`). */
  predicate IsAsciiChar(ch: char)
  {
    ch as int < 0x80
  }

  /** `re.search(r"[^\x00-\x7F]", s)` finds a match. */
  predicate HasNonAscii(s: string)
  {
    exists k :: 0 <= k < |s| && !IsAsciiChar(s[k])
  }

  /** `''.join(re.findall(r'[^\x00-\x7F]', s))`: the characters above 0x7F, in order. */
  function NonAsciiChars(s: string): string
  {
    if s == [] then []
    else NonAsciiChars(s[..|s| - 1]) + (if IsAsciiChar(s[|s| - 1]) then [] else [s[|s| - 1]])
  }

  /** The extracted characters are exactly the non-ASCII characters of s. */
  lemma {:induction false} NonAsciiCharsMember(s: string, ch: char)
    ensures ch in NonAsciiChars(s) <==> ch in s && !IsAsciiChar(ch)
  {
    if s != [] {
      var init := s[..|s| - 1];
      NonAsciiCharsMember(init, ch);
      assert s == init + [s[|s| - 1]];
    }
  }

  /** Nothing is extracted exactly when the search finds nothing. */
  lemma {:induction false} NonAsciiCharsEmpty(s: string)
    ensures NonAsciiChars(s) == [] <==> !HasNonAscii(s)
  {
    if s != [] {
      var init := s[..|s| - 1];
      NonAsciiCharsEmpty(init);
      assert forall k :: 0 <= k < |init| ==> init[k] == s[k];
    }
  }

  /** Extraction distributes over concatenation. */
  lemma {:induction false} NonAsciiCharsAppend(a: string, b: string)
    ensures NonAsciiChars(a + b) == NonAsciiChars(a) + NonAsciiChars(b)
    decreases |b|
  {
    if b == [] {
      assert a + b == a;
    } else {
      var binit := b[..|b| - 1];
      assert (a + b)[..|a + b| - 1] == a + binit;
      NonAsciiCharsAppend(a, binit);
    }
  }

  predicate IsAsciiDigit(ch: char)
  {
    '0' <= ch <= '9'
  }

  predicate IsAsciiLetter(ch: char)
  {
    'a' <= ch <= 'z' || 'A' <= ch <= 'Z'
  }

  /** `\s` on ASCII: space, \t \n \v \f \r (9 .. 13) and the separators 0x1C .. 0x1F. */
  predicate IsAsciiSpace(ch: char)
  {
    ch == ' ' || 9 <= ch as int <= 13 || 28 <= ch as int <= 31
  }

  /** `str.isdigit()` / `str.isnumeric()`: non-empty and made of digits only. */
  predicate IsDigitString(s: string)
  {
    |s| > 0 && forall k :: 0 <= k < |s| ==> IsAsciiDigit(s[k])
  }

  /** An absent cell stringified as "nan" is no digit string. */
  lemma NanIsNotDigits()
    ensures !IsDigitString("nan")
  {
    assert !IsAsciiDigit("nan"[0]);
  }

  /** One character of App.py's class `[a-zA-Z0-9\s.,&()\'"-]`. */
  predicate AppAllowedChar(ch: char)
  {
    IsAsciiLetter(ch) || IsAsciiDigit(ch) || IsAsciiSpace(ch)
    || ch in {'.', ',', '&', '(', ')', '\'', '"', '-'}
  }

  /** One character of app1.py's class `[A-Za-z0-9\s.,!?;:\'"-]`. */
  predicate App1AllowedChar(ch: char)
  {
    IsAsciiLetter(ch) || IsAsciiDigit(ch) || IsAsciiSpace(ch)
    || ch in {'.', ',', '!', '?', ';', ':', '\'', '"', '-'}
  }

  /** `re.match(r'^[...]*$', s)` for App.py's class. A final newline that `$`
      may skip is itself in `\s`, so the match is "every character allowed". */
  predicate MatchesAppText(s: string)
  {
    forall k :: 0 <= k < |s| ==> AppAllowedChar(s[k])
  }

  /** The same for app1.py's class. */
  predicate MatchesApp1Text(s: string)
  {
    forall k :: 0 <= k < |s| ==> App1AllowedChar(s[k])
  }

  /** Both allow-lists are ASCII-only, `\s` read as ASCII whitespace: a value
      with a character above 0x7F never passes either of them. */
  lemma AllowListsRejectNonAscii(s: string)
    requires HasNonAscii(s)
    ensures !MatchesAppText(s) && !MatchesApp1Text(s)
  {
    var k :| 0 <= k < |s| && !IsAsciiChar(s[k]);
    assert !AppAllowedChar(s[k]) && !App1AllowedChar(s[k]);
  }

  /** The two allow-lists differ: `&`, `(` and `)` pass App.py's class and
      fail app1.py's; `!`, `?`, `;` and `:` the other way round. Everything
      else is allowed by both or by neither. */
  lemma AllowListsDiffer()
    ensures forall ch :: ch in "&()" ==> AppAllowedChar(ch) && !App1AllowedChar(ch)
    ensures forall ch :: ch in "!?;:" ==> App1AllowedChar(ch) && !AppAllowedChar(ch)
    ensures forall ch :: ch !in "&()!?;:" ==> (AppAllowedChar(ch) <==> App1AllowedChar(ch))
  {
    forall ch | ch !in "&()!?;:"
      ensures AppAllowedChar(ch) <==> App1AllowedChar(ch)
    {
      assert ch != '&' && ch != '(' && ch != ')' && ch != '!' && ch != '?' && ch != ';' && ch != ':' by {
        assert "&()!?;:"[0] == '&' && "&()!?;:"[1] == '(' && "&()!?;:"[2] == ')';
        assert "&()!?;:"[3] == '!' && "&()!?;:"[4] == '?' && "&()!?;:"[5] == ';' && "&()!?;:"[6] == ':';
      }
    }
  }

  /** Hence a title with `&` or parentheses passes App.py and fails app1.py,
      and an exclamation passes only app1.py. */
  lemma AllowListExamples()
    ensures MatchesAppText("Tom & Jerry (1940)") && !MatchesApp1Text("Tom & Jerry (1940)")
    ensures !MatchesAppText("Hello!") && MatchesApp1Text("Hello!")
  {
    var a := "Tom & Jerry (1940)";
    assert !App1AllowedChar(a[4]);
    var b := "Hello!";
    assert !AppAllowedChar(b[5]);
  }

  /** `\d{2}/\d{2}/\d{4}` covering the whole of s. */
  predicate LooseDateShape(s: string)
  {
    && |s| == 10
    && IsAsciiDigit(s[0]) && IsAsciiDigit(s[1]) && s[2] == '/'
    && IsAsciiDigit(s[3]) && IsAsciiDigit(s[4]) && s[5] == '/'
    && IsAsciiDigit(s[6]) && IsAsciiDigit(s[7]) && IsAsciiDigit(s[8]) && IsAsciiDigit(s[9])
  }

  /** `re.match(r"^\d{2}/\d{2}/\d{4}$", s)`: `$` matches at the end or just
      before a final newline. */
  predicate MatchesLooseDate(s: string)
  {
    LooseDateShape(s) || (|s| == 11 && s[10] == '\n' && LooseDateShape(s[..10]))
  }

  /** `(0[1-9]|1[0-2])` */
  predicate MonthField(a: char, b: char)
  {
    (a == '0' && '1' <= b <= '9') || (a == '1' && '0' <= b <= '2')
  }

  /** `(0[1-9]|[12][0-9]|3[01])` */
  predicate DayField(a: char, b: char)
  {
    (a == '0' && '1' <= b <= '9') || ((a == '1' || a == '2') && IsAsciiDigit(b)) || (a == '3' && (b == '0' || b == '1'))
  }

  /** `(0[1-9]|1[0-2])/(0[1-9]|[12][0-9]|3[01])/\d{4}` covering the whole of s. */
  predicate StrictDateShape(s: string)
  {
    && |s| == 10
    && MonthField(s[0], s[1]) && s[2] == '/'
    && DayField(s[3], s[4]) && s[5] == '/'
    && IsAsciiDigit(s[6]) && IsAsciiDigit(s[7]) && IsAsciiDigit(s[8]) && IsAsciiDigit(s[9])
  }

  /** App.py's `str.match(r"^(0[1-9]|1[0-2])/(0[1-9]|[12][0-9]|3[01])/\d{4}$")`. */
  predicate MatchesStrictDate(s: string)
  {
    StrictDateShape(s) || (|s| == 11 && s[10] == '\n' && StrictDateShape(s[..10]))
  }

  function DigitValue(ch: char): int
  {
    ch as int - '0' as int
  }

  /** The number written by the two characters a, b. */
  function TwoDigits(a: char, b: char): int
  {
    10 * DigitValue(a) + DigitValue(b)
  }

  /** The strict pattern is the loose one with the month in 1 .. 12 and the
      day in 1 .. 31; the day is not checked against the month. */
  lemma StrictDateIsRangedLooseDate(s: string)
    ensures StrictDateShape(s) <==>
      LooseDateShape(s) && 1 <= TwoDigits(s[0], s[1]) <= 12 && 1 <= TwoDigits(s[3], s[4]) <= 31
  {
    if LooseDateShape(s) {
      MonthRange(s[0], s[1]);
      DayRange(s[3], s[4]);
    }
  }

  lemma MonthRange(a: char, b: char)
    requires IsAsciiDigit(a) && IsAsciiDigit(b)
    ensures MonthField(a, b) <==> 1 <= TwoDigits(a, b) <= 12
  {
  }

  lemma DayRange(a: char, b: char)
    requires IsAsciiDigit(a) && IsAsciiDigit(b)
    ensures DayField(a, b) <==> 1 <= TwoDigits(a, b) <= 31
  {
  }

  /** Every strict date is a loose date. */
  lemma StrictDateIsLooseDate(s: string)
    ensures MatchesStrictDate(s) ==> MatchesLooseDate(s)
  {
  }

  /** The documented examples: the loose pattern takes any two digits, the
      strict one takes 02/30 but not month 13 or a year-first date. */
  lemma DateExamples()
    ensures MatchesLooseDate("13/45/2024") && !MatchesStrictDate("13/45/2024")
    ensures MatchesStrictDate("02/30/2024")
    ensures !MatchesStrictDate("13/01/2024") && MatchesLooseDate("13/01/2024")
    ensures !MatchesStrictDate("2024/02/01") && !MatchesLooseDate("2024/02/01")
    ensures !MatchesLooseDate("nan") && !MatchesStrictDate("")
  {
  }

  /** The closed Age Rating ID set, compared as text. */
  const AgeRatingTexts: set<string> := {"2", "9", "154", "147"}

  /** The closed Age Rating ID set, compared as integers (Flask4.py). */
  const AgeRatingNumbers: set<int> := {2, 9, 154, 147}

  /** The values allowed in an impact column (App.py), compared case-sensitively. */
  const ImpactLevels: set<string> := {"None", "Low", "Medium", "High"}
}
