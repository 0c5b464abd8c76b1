/** String helpers shared by the colour sanitiser, the style builder and the
    renderer: PHP's `trim`, the `[^a-zA-Z0-9.%]` strip used for sizes, and
    single-character replacement (`str_replace` with one-character needles). */
module Text {

  /** The characters PHP's `trim()` removes by default:
      space, tab, line feed, carriage return, NUL and vertical tab. */
  predicate IsTrimChar(c: char) {
    c == ' ' || c == '\t' || c == '\n' || c == '\r' || c == '\0' || c == '\U{0B}'
  }

  predicate AllTrimChars(s: string) {
    forall i :: 0 <= i < |s| ==> IsTrimChar(s[i])
  }

  /** A string `trim()` leaves alone: empty, or neither end is a trim character. */
  predicate IsTrimmed(s: string) {
    s == [] || (!IsTrimChar(s[0]) && !IsTrimChar(s[|s| - 1]))
  }

  /** `ltrim()`: drop the longest prefix of trim characters
      (`TrimStartIsSuffix` says what is dropped). */
  function TrimStart(s: string): (r: string)
    ensures |r| <= |s|
    ensures r == [] || !IsTrimChar(r[0])
    decreases |s|
  {
    if |s| > 0 && IsTrimChar(s[0]) then TrimStart(s[1..]) else s
  }

  /** `rtrim()`: drop the longest suffix of trim characters
      (`TrimEndIsPrefix` says what is dropped). */
  function TrimEnd(s: string): (r: string)
    ensures |r| <= |s|
    ensures r == [] || !IsTrimChar(r[|r| - 1])
    decreases |s|
  {
    if |s| > 0 && IsTrimChar(s[|s| - 1]) then TrimEnd(s[..|s| - 1]) else s
  }

  /** `ltrim()` keeps a suffix of its input and drops only trim characters. */
  lemma {:induction false} TrimStartIsSuffix(s: string)
    ensures TrimStart(s) == s[|s| - |TrimStart(s)|..]
    ensures AllTrimChars(s[..|s| - |TrimStart(s)|])
    decreases |s|
  {
    if |s| > 0 && IsTrimChar(s[0]) {
      var r := TrimStart(s[1..]);
      TrimStartIsSuffix(s[1..]);
      assert s[1..][|s| - 1 - |r|..] == s[|s| - |r|..];
      assert s[..|s| - |r|] == [s[0]] + s[1..][..|s| - 1 - |r|];
    }
  }

  /** `rtrim()` keeps a prefix of its input and drops only trim characters. */
  lemma {:induction false} TrimEndIsPrefix(s: string)
    ensures TrimEnd(s) == s[..|TrimEnd(s)|]
    ensures AllTrimChars(s[|TrimEnd(s)|..])
    decreases |s|
  {
    if |s| > 0 && IsTrimChar(s[|s| - 1]) {
      var t := s[..|s| - 1];
      var r := TrimEnd(t);
      TrimEndIsPrefix(t);
      assert t[..|r|] == s[..|r|];
      assert s[|r|..] == t[|r|..] + [s[|s| - 1]];
    }
  }

  /** PHP `trim()` with its default character list. */
  function Trim(s: string): (r: string)
    ensures IsTrimmed(r)
    ensures |r| <= |s|
  {
    var u := TrimStart(s);
    TrimEndIsPrefix(u);
    TrimEnd(u)
  }

  /** `trim()` cuts `s` into trim-character padding around its result;
      `i` is where the result starts. */
  lemma TrimSplitsInput(s: string) returns (i: nat)
    ensures i + |Trim(s)| <= |s|
    ensures s == s[..i] + Trim(s) + s[i + |Trim(s)|..]
    ensures AllTrimChars(s[..i]) && AllTrimChars(s[i + |Trim(s)|..])
  {
    var u := TrimStart(s);
    var t := TrimEnd(u);
    TrimStartIsSuffix(s);
    TrimEndIsPrefix(u);
    i := |s| - |u|;
    var j := i + |t|;
    assert Trim(s) == t;
    assert t == s[i..j] by { assert u == s[i..]; assert t == u[..|t|]; }
    assert AllTrimChars(s[j..]) by { assert s[j..] == u[|t|..]; }
    assert s == s[..i] + s[i..j] + s[j..] by { SliceSplit(s, i, j); }
  }

  lemma SliceSplit<T>(s: seq<T>, i: nat, j: nat)
    requires i <= j <= |s|
    ensures s == s[..i] + s[i..j] + s[j..]
  {
  }

  lemma {:induction false} TrimStartPadded(w: string, t: string)
    requires AllTrimChars(w)
    requires t == [] || !IsTrimChar(t[0])
    ensures TrimStart(w + t) == t
    decreases |w|
  {
    if w != [] {
      assert (w + t)[1..] == w[1..] + t;
      TrimStartPadded(w[1..], t);
    }
  }

  lemma {:induction false} TrimEndPadded(t: string, w: string)
    requires AllTrimChars(w)
    requires t == [] || !IsTrimChar(t[|t| - 1])
    ensures TrimEnd(t + w) == t
    decreases |w|
  {
    if w != [] {
      assert (t + w)[..|t + w| - 1] == t + w[..|w| - 1];
      TrimEndPadded(t, w[..|w| - 1]);
    }
  }

  /** Uniqueness: a trimmed string padded on both sides with trim characters
      trims back to itself. With `TrimSplitsInput` this pins `Trim` down. */
  lemma TrimPadded(w1: string, t: string, w2: string)
    requires AllTrimChars(w1) && AllTrimChars(w2)
    requires IsTrimmed(t)
    ensures Trim(w1 + t + w2) == t
  {
    if t == [] {
      assert w1 + t + w2 == w1 + w2;
      AllTrimCharsConcat(w1, w2);
      TrimStartPadded(w1 + w2, []);
      assert w1 + w2 + [] == w1 + w2;
    } else {
      assert w1 + t + w2 == w1 + (t + w2);
      TrimStartPadded(w1, t + w2);
      TrimEndPadded(t, w2);
    }
  }

  lemma AllTrimCharsConcat(a: string, b: string)
    requires AllTrimChars(a) && AllTrimChars(b)
    ensures AllTrimChars(a + b)
  {
    assert forall i :: 0 <= i < |a + b| ==> (a + b)[i] == (if i < |a| then a[i] else b[i - |a|]);
  }

  /** Padding the input with trim characters does not change what `trim()` returns. */
  lemma TrimIgnoresPadding(w1: string, s: string, w2: string)
    requires AllTrimChars(w1) && AllTrimChars(w2)
    ensures Trim(w1 + s + w2) == Trim(s)
  {
    var t := Trim(s);
    var i := TrimSplitsInput(s);
    var a, b := s[..i], s[i + |t|..];
    assert AllTrimChars(w1 + a) by { AllTrimCharsConcat(w1, a); }
    assert AllTrimChars(b + w2) by { AllTrimCharsConcat(b, w2); }
    assert s == a + t + b;
    Regroup(w1, a, t, b, w2);
    TrimPadded(w1 + a, t, b + w2);
  }

  lemma Regroup<T>(w1: seq<T>, a: seq<T>, t: seq<T>, b: seq<T>, w2: seq<T>)
    ensures w1 + (a + t + b) + w2 == (w1 + a) + t + (b + w2)
  {
  }

  /** `trim()` leaves a trimmed string unchanged. */
  lemma TrimOfTrimmed(t: string)
    requires IsTrimmed(t)
    ensures Trim(t) == t
  {
    TrimPadded([], t, []);
    assert [] + t + [] == t;
  }

  /** `trim()` is idempotent. */
  lemma TrimIdempotent(s: string)
    ensures Trim(Trim(s)) == Trim(s)
  {
    TrimOfTrimmed(Trim(s));
  }

  /** The characters kept by `preg_replace('/[^a-zA-Z0-9.%]/', '', ...)`. */
  predicate IsCssSafe(c: char) {
    ('a' <= c <= 'z') || ('A' <= c <= 'Z') || ('0' <= c <= '9') || c == '.' || c == '%'
  }

  /** Remove every character outside `[A-Za-z0-9.%]`, keeping the order of the rest. */
  function KeepCssSafe(s: string): (r: string)
    ensures |r| <= |s|
    ensures forall i :: 0 <= i < |r| ==> IsCssSafe(r[i])
    decreases |s|
  {
    if s == [] then []
    else (if IsCssSafe(s[0]) then [s[0]] else []) + KeepCssSafe(s[1..])
  }

  /** Nothing safe is lost: each safe character occurs in the result as often
      as in the input. */
  lemma {:induction false} KeepCssSafeKeepsSafe(s: string)
    ensures forall c :: IsCssSafe(c) ==> multiset(KeepCssSafe(s))[c] == multiset(s)[c]
    decreases |s|
  {
    if s != [] {
      KeepCssSafeKeepsSafe(s[1..]);
      assert s == [s[0]] + s[1..];
    }
  }

  /** The strip works character by character, so it distributes over concatenation
      (it keeps the relative order of the characters it keeps). */
  lemma {:induction false} KeepCssSafeConcat(a: string, b: string)
    ensures KeepCssSafe(a + b) == KeepCssSafe(a) + KeepCssSafe(b)
    decreases |a|
  {
    if a == [] {
      assert a + b == b;
    } else {
      assert (a + b)[0] == a[0];
      assert (a + b)[1..] == a[1..] + b;
      KeepCssSafeConcat(a[1..], b);
    }
  }

  /** A string made of safe characters only passes through unchanged. */
  lemma {:induction false} KeepCssSafeOfSafe(s: string)
    requires forall i :: 0 <= i < |s| ==> IsCssSafe(s[i])
    ensures KeepCssSafe(s) == s
    decreases |s|
  {
    if s != [] {
      KeepCssSafeOfSafe(s[1..]);
    }
  }

  /** Stripping twice is stripping once. */
  lemma KeepCssSafeIdempotent(s: string)
    ensures KeepCssSafe(KeepCssSafe(s)) == KeepCssSafe(s)
  {
    KeepCssSafeOfSafe(KeepCssSafe(s));
  }

  /** `str_replace(a, b, s)` for single-character `a` and `b`. */
  function ReplaceChar(s: string, a: char, b: char): (r: string)
    ensures |r| == |s|
    ensures forall i :: 0 <= i < |s| ==> r[i] == (if s[i] == a then b else s[i])
  {
    seq(|s|, i requires 0 <= i < |s| => if s[i] == a then b else s[i])
  }

  /** After replacing `a` by a different `b`, no `a` is left. */
  lemma ReplaceCharRemoves(s: string, a: char, b: char)
    requires a != b
    ensures a !in ReplaceChar(s, a, b)
  {
    var r := ReplaceChar(s, a, b);
    assert forall i :: 0 <= i < |r| ==> r[i] != a;
  }

  /** Replacing `a` by `b` and then `b` by `a` restores any string that had no `b`. */
  lemma ReplaceCharRoundTrip(s: string, a: char, b: char)
    requires b !in s
    ensures ReplaceChar(ReplaceChar(s, a, b), b, a) == s
  {
    var r := ReplaceChar(ReplaceChar(s, a, b), b, a);
    forall i | 0 <= i < |s|
      ensures r[i] == s[i]
    {
      assert s[i] != b;
    }
  }
}
