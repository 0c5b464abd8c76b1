/** `sanitizeColor`: a user-supplied colour is trimmed and kept only when it
    has one of three shapes (hex, `rgb(...)`/`rgba(...)`, a bare colour name);
    anything else becomes the empty string, meaning "emit no declaration". */
module Color {
  import opened Text

  predicate IsHexDigit(c: char) {
    ('0' <= c <= '9') || ('a' <= c <= 'f') || ('A' <= c <= 'F')
  }

  predicate IsAsciiLetter(c: char) {
    ('a' <= c <= 'z') || ('A' <= c <= 'Z')
  }

  /** PCRE `\d` without the `u` modifier. */
  predicate IsDigit(c: char) {
    '0' <= c <= '9'
  }

  /** PCRE `\s`: space, tab, line feed, vertical tab, form feed, carriage return. */
  predicate IsRegexSpace(c: char) {
    c == ' ' || c == '\t' || c == '\n' || c == '\U{0B}' || c == '\U{0C}' || c == '\r'
  }

  /** The character class `[\d.,\s%]`. */
  predicate IsRgbBodyChar(c: char) {
    IsDigit(c) || c == '.' || c == ',' || IsRegexSpace(c) || c == '%'
  }

  /** `^#[0-9a-fA-F]{3,8}$` */
  predicate IsHexColor(s: string) {
    4 <= |s| <= 9 && s[0] == '#' && forall i :: 1 <= i < |s| ==> IsHexDigit(s[i])
  }

  /** `opener`, then one or more `[\d.,\s%]`, then `)` closing the string. */
  predicate IsFunctionalWith(s: string, opener: string) {
    && |s| >= |opener| + 2
    && s[..|opener|] == opener
    && s[|s| - 1] == ')'
    && forall i :: |opener| <= i < |s| - 1 ==> IsRgbBodyChar(s[i])
  }

  /** `^rgba?\([\d.,\s%]+\)$`, the pattern with its redundant `\s*` dropped
      (see `FunctionalPatternSimplifies`). */
  predicate IsFunctionalColor(s: string) {
    IsFunctionalWith(s, "rgb(") || IsFunctionalWith(s, "rgba(")
  }

  /** `^[a-zA-Z]{2,30}$` */
  predicate IsNamedColor(s: string) {
    2 <= |s| <= 30 && forall i :: 0 <= i < |s| ==> IsAsciiLetter(s[i])
  }

  predicate IsColor(s: string) {
    IsHexColor(s) || IsFunctionalColor(s) || IsNamedColor(s)
  }

  /** Every character any accepted colour can contain. */
  predicate IsColorAlphabet(c: char) {
    IsHexDigit(c) || IsAsciiLetter(c) || IsRgbBodyChar(c) || c == '#' || c == '(' || c == ')'
  }

  /** Characters that would let a value end its declaration, open another
      property, a block or a quoted string, or leave the HTML attribute. */
  predicate IsDangerous(c: char) {
    c == ';' || c == ':' || c == '"' || c == '\'' || c == '<' || c == '>'
    || c == '{' || c == '}' || c == '\\' || c == '/' || c == '&'
  }

  /** A value that cannot break out of its CSS declaration or the attribute. */
  predicate IsInert(s: string) {
    forall i :: 0 <= i < |s| ==> !IsDangerous(s[i])
  }

  /** After `opener`, positions up to `k` are `\s` and positions from `k` up
      to the closing parenthesis are `[\d.,\s%]`. */
  predicate SpacesThenBody(s: string, opener: string, k: int) {
    && |opener| <= k < |s| - 1
    && (forall i :: |opener| <= i < k ==> IsRegexSpace(s[i]))
    && (forall i :: k <= i < |s| - 1 ==> IsRgbBodyChar(s[i]))
  }

  /** The pattern `^rgba?\(\s*[\d.,\s%]+\)$` literally: after the opener comes
      a run of `\s` ending at `k`, then a non-empty run of the class. */
  predicate MatchesFunctionalPatternWith(s: string, opener: string) {
    && |s| >= |opener| + 2
    && s[..|opener|] == opener
    && s[|s| - 1] == ')'
    && exists k :: |opener| <= k < |s| - 1 && SpacesThenBody(s, opener, k)
  }

  /** Because `\s` is inside `[\d.,\s%]`, the leading `\s*` adds nothing:
      the literal pattern and the class-only form accept the same strings. */
  lemma FunctionalPatternSimplifies(s: string, opener: string)
    ensures MatchesFunctionalPatternWith(s, opener) <==> IsFunctionalWith(s, opener)
  {
    if IsFunctionalWith(s, opener) {
      assert SpacesThenBody(s, opener, |opener|);
    }
    if MatchesFunctionalPatternWith(s, opener) {
      var k :| |opener| <= k < |s| - 1 && SpacesThenBody(s, opener, k);
      forall i | |opener| <= i < |s| - 1
        ensures IsRgbBodyChar(s[i])
      {
        if i < k {
          assert IsRegexSpace(s[i]);
        }
      }
    }
  }

  /** `sanitizeColor`: the trimmed input when it is a colour, else `""`. */
  function SanitizeColor(raw: string): (r: string)
    ensures r == "" || r == Trim(raw)
    ensures r != "" <==> IsColor(Trim(raw))
  {
    var color := Trim(raw);
    if IsColor(color) then
      ColorAlphabet(color);
      color
    else ""
  }

  /** Only characters of the colour alphabet survive the sanitiser. */
  lemma SanitizedAlphabet(raw: string)
    ensures forall i :: 0 <= i < |SanitizeColor(raw)| ==> IsColorAlphabet(SanitizeColor(raw)[i])
  {
    var color := Trim(raw);
    if IsColor(color) {
      ColorAlphabet(color);
    }
  }

  /** Every accepted colour is non-empty and written in the colour alphabet. */
  lemma ColorAlphabet(s: string)
    requires IsColor(s)
    ensures s != ""
    ensures forall i :: 0 <= i < |s| ==> IsColorAlphabet(s[i])
  {
    if IsHexColor(s) {
      forall i | 0 <= i < |s|
        ensures IsColorAlphabet(s[i])
      {
        if i > 0 {
          assert IsHexDigit(s[i]);
        }
      }
    } else if IsFunctionalColor(s) {
      ColorAlphabetOfFunctional(s);
    } else {
      forall i | 0 <= i < |s|
        ensures IsColorAlphabet(s[i])
      {
        assert IsAsciiLetter(s[i]);
      }
    }
  }

  lemma ColorAlphabetOfFunctional(s: string)
    requires IsFunctionalColor(s)
    ensures forall i :: 0 <= i < |s| ==> IsColorAlphabet(s[i])
  {
    var n := if IsFunctionalWith(s, "rgb(") then 4 else 5;
    assert s[..n] == "rgb(" || s[..n] == "rgba(";
    forall i | 0 <= i < |s|
      ensures IsColorAlphabet(s[i])
    {
      if i < n {
        assert s[i] == s[..n][i];
      }
    }
  }

  lemma AlphabetIsSafe(c: char)
    requires IsColorAlphabet(c)
    ensures !IsDangerous(c)
  {
  }

  /** No accepted colour can inject CSS or markup: a non-empty result holds
      none of `; : " ' < > { } \ / &`. */
  lemma SanitizedColorIsInert(raw: string)
    ensures IsInert(SanitizeColor(raw))
  {
    var r := SanitizeColor(raw);
    SanitizedAlphabet(raw);
    forall i | 0 <= i < |r|
      ensures !IsDangerous(r[i])
    {
      AlphabetIsSafe(r[i]);
    }
  }

  /** Sanitising an already sanitised colour changes nothing. */
  lemma SanitizeColorIdempotent(raw: string)
    ensures SanitizeColor(SanitizeColor(raw)) == SanitizeColor(raw)
  {
    var r := SanitizeColor(raw);
    if r != "" {
      TrimIdempotent(raw);
    }
  }

  /** Surrounding whitespace never decides acceptance: padding the input with
      trim characters yields the same result. */
  lemma SanitizeColorIgnoresPadding(w1: string, raw: string, w2: string)
    requires AllTrimChars(w1) && AllTrimChars(w2)
    ensures SanitizeColor(w1 + raw + w2) == SanitizeColor(raw)
  {
    TrimIgnoresPadding(w1, raw, w2);
  }

  /** On an already trimmed string the sanitiser is exactly the colour test. */
  lemma SanitizeTrimmed(s: string)
    requires IsTrimmed(s)
    ensures SanitizeColor(s) == if IsColor(s) then s else ""
  {
    TrimOfTrimmed(s);
  }

  /** One character outside the hex digits after `#` rules out a hex colour. */
  lemma NotHexAt(s: string, i: nat)
    requires 1 <= i < |s| && !IsHexDigit(s[i])
    ensures !IsHexColor(s)
  {
  }

  /** One non-letter rules out a named colour. */
  lemma NotNamedAt(s: string, i: nat)
    requires i < |s| && !IsAsciiLetter(s[i])
    ensures !IsNamedColor(s)
  {
  }

  /** A mismatch inside the opener rules out that functional form. */
  lemma NotFunctionalAt(s: string, opener: string, i: nat)
    requires i < |opener| && i < |s| && s[i] != opener[i]
    ensures !IsFunctionalWith(s, opener)
  {
    if |s| >= |opener| {
      assert s[..|opener|][i] == s[i];
    }
  }

  /** A string that starts with `opener` and continues in the body class up to
      a closing parenthesis is that functional form. */
  lemma FunctionalFrom(s: string, opener: string)
    requires |s| >= |opener| + 2
    requires forall i :: 0 <= i < |opener| ==> s[i] == opener[i]
    requires s[|s| - 1] == ')'
    requires forall i :: |opener| <= i < |s| - 1 ==> IsRgbBodyChar(s[i])
    ensures IsFunctionalWith(s, opener)
  {
    assert s[..|opener|] == opener;
  }

  /** Worked cases: hex, functional and named colours pass; a non-hex digit,
      an upper-case function name and an attempted second declaration fail. */
  lemma SanitizeHexExample()
    ensures SanitizeColor("#fff") == "#fff"
  {
    var hex := "#fff";
    assert IsHexColor(hex);
    SanitizeTrimmed(hex);
  }

  lemma BadHexIsNoColor()
    ensures !IsColor("#ggg")
  {
    var bad := "#ggg";
    NotHexAt(bad, 1);
    NotNamedAt(bad, 0);
    assert !IsFunctionalColor(bad) by { assert |bad| < 6; }
  }

  lemma SanitizeRejectsBadHex()
    ensures SanitizeColor("#ggg") == ""
  {
    BadHexIsNoColor();
    SanitizeTrimmed("#ggg");
  }

  lemma SanitizeRgbExample()
    ensures SanitizeColor("rgb(10, 20, 30)") == "rgb(10, 20, 30)"
  {
    var rgb := "rgb(10, 20, 30)";
    FunctionalFrom(rgb, "rgb(");
    SanitizeTrimmed(rgb);
  }

  lemma SanitizeRgbaExample()
    ensures SanitizeColor("rgba(0,0,0,50%)") == "rgba(0,0,0,50%)"
  {
    var alpha := "rgba(0,0,0,50%)";
    FunctionalFrom(alpha, "rgba(");
    SanitizeTrimmed(alpha);
  }

  lemma UpperCaseFunctionIsNoColor()
    ensures !IsColor("RGB(1,2,3)")
  {
    var upper := "RGB(1,2,3)";
    NotHexAt(upper, 1);
    NotFunctionalAt(upper, "rgb(", 0);
    NotFunctionalAt(upper, "rgba(", 0);
    NotNamedAt(upper, 3);
  }

  lemma SanitizeRejectsUpperCaseFunction()
    ensures SanitizeColor("RGB(1,2,3)") == ""
  {
    UpperCaseFunctionIsNoColor();
    SanitizeTrimmed("RGB(1,2,3)");
  }

  lemma SanitizeNamedExample()
    ensures SanitizeColor("red") == "red"
  {
    var red := "red";
    assert IsNamedColor(red);
    SanitizeTrimmed(red);
  }

  lemma InjectionIsNoColor()
    ensures !IsColor("red;background:url(x)")
  {
    var injected := "red;background:url(x)";
    NotHexAt(injected, 3);
    NotFunctionalAt(injected, "rgb(", 1);
    NotFunctionalAt(injected, "rgba(", 1);
    NotNamedAt(injected, 3);
  }

  lemma SanitizeRejectsInjection()
    ensures SanitizeColor("red;background:url(x)") == ""
  {
    InjectionIsNoColor();
    SanitizeTrimmed("red;background:url(x)");
  }

  /** The `{3,8}` repetition also admits five and seven hex digits, which are
      not CSS colour lengths; such a value is still inert. */
  lemma HexLengthFiveAndSevenAccepted()
    ensures SanitizeColor("#12345") == "#12345"
    ensures SanitizeColor("#1234567") == "#1234567"
  {
    var five, seven := "#12345", "#1234567";
    assert IsHexColor(five);
    SanitizeTrimmed(five);
    assert IsHexColor(seven);
    SanitizeTrimmed(seven);
  }
}
