/** The string operations of java.lang.String and commons-lang StringUtils
    that the proxy logic relies on. */
module Text {
  import opened Wrappers

  // ---------------------------------------------------------------- case

  /** ASCII lower-casing; the letters of method names and header names. */
  function ToLower(c: char): char {
    if 'A' <= c <= 'Z' then (c as int + 32) as char else c
  }

  /** String.equalsIgnoreCase, restricted to ASCII case folding. */
  predicate EqualsIgnoreCase(a: string, b: string) {
    |a| == |b| && forall i :: 0 <= i < |a| ==> ToLower(a[i]) == ToLower(b[i])
  }

  /** The ASCII lower-case form of a string. */
  function Lower(s: string): (r: string)
    ensures |r| == |s| && forall i :: 0 <= i < |s| ==> r[i] == ToLower(s[i])
  {
    if s == [] then [] else [ToLower(s[0])] + Lower(s[1..])
  }

  /** Two strings are equal ignoring case exactly when their lower-case
      forms are equal. */
  lemma EqualsIgnoreCaseLower(a: string, b: string)
    ensures EqualsIgnoreCase(a, b) <==> Lower(a) == Lower(b)
  {
    if Lower(a) == Lower(b) {
      forall i | 0 <= i < |a| ensures ToLower(a[i]) == ToLower(b[i]) {
        assert Lower(a)[i] == Lower(b)[i];
      }
    }
  }

  /** A string equals `u` ignoring case exactly when its lower-case form
      is `l`, the lower-case form of `u`. */
  lemma EqualsLowerForm(u: string, l: string, s: string)
    requires |u| == |l| && forall i :: 0 <= i < |u| ==> ToLower(u[i]) == l[i]
    ensures EqualsIgnoreCase(u, s) <==> Lower(s) == l
  {
    EqualsIgnoreCaseLower(u, s);
    assert Lower(u) == l;
  }

  lemma EqualsIgnoreCaseSymmetric(a: string, b: string)
    ensures EqualsIgnoreCase(a, b) == EqualsIgnoreCase(b, a)
  {
  }

  lemma EqualsIgnoreCaseTransitive(a: string, b: string, c: string)
    requires EqualsIgnoreCase(a, b) && EqualsIgnoreCase(b, c)
    ensures EqualsIgnoreCase(a, c)
  {
  }

  // ---------------------------------------------------------------- blank

  /** Character.isWhitespace: the ASCII controls TAB..CR and FS..US, the
      space, and the Unicode space, line and paragraph separators other
      than the non-breaking ones (U+00A0, U+2007, U+202F). */
  predicate IsWhitespace(c: char) {
    || '\t' <= c <= '\r'
    || '\U{1C}' <= c <= ' '
    || c == '\U{1680}'
    || '\U{2000}' <= c <= '\U{2006}'
    || '\U{2008}' <= c <= '\U{200A}'
    || c == '\U{2028}' || c == '\U{2029}' || c == '\U{205F}' || c == '\U{3000}'
  }

  /** StringUtils.isBlank: null, empty or whitespace only. */
  predicate IsBlank(s: Option<string>) {
    s.None? || forall i :: 0 <= i < |s.value| ==> IsWhitespace(s.value[i])
  }

  /** Blank means null, or nothing left once the leading whitespace is
      stripped. */
  lemma IsBlankStripped(s: Option<string>)
    ensures IsBlank(s) <==> s.None? || StripStart(s.value) == []
  {
    if s.Some? { StripStartEmpty(s.value); }
  }

  /** StringUtils.stripStart(s, null): `s` without its leading whitespace. */
  function StripStart(s: string): (r: string)
    ensures |r| <= |s| && r == s[|s| - |r|..]
    ensures r == [] || !IsWhitespace(r[0])
  {
    if s == [] || !IsWhitespace(s[0]) then s else StripStart(s[1..])
  }

  lemma {:induction false} StripStartEmpty(s: string)
    ensures StripStart(s) == [] <==> forall i :: 0 <= i < |s| ==> IsWhitespace(s[i])
  {
    if s != [] && IsWhitespace(s[0]) {
      StripStartEmpty(s[1..]);
      assert forall i :: 1 <= i < |s| ==> s[i] == s[1..][i - 1];
    }
  }

  // ---------------------------------------------------------------- search

  predicate StartsWith(s: string, prefix: string) {
    |prefix| <= |s| && s[..|prefix|] == prefix
  }

  /** String.indexOf(String.valueOf(c), from): the first position at or
      after `from` holding `c`, or -1. */
  function IndexOf(s: string, c: char, from: nat): (r: int)
    requires from <= |s|
    ensures r == -1 || from <= r < |s|
    ensures r == -1 ==> forall i :: from <= i < |s| ==> s[i] != c
    ensures r != -1 ==> s[r] == c && forall i :: from <= i < r ==> s[i] != c
    decreases |s| - from
  {
    if from == |s| then -1
    else if s[from] == c then from
    else IndexOf(s, c, from + 1)
  }

  /** `pattern` occurs in `s` at position `i`. */
  predicate OccursAt(s: string, pattern: string, i: nat) {
    i + |pattern| <= |s| && s[i..i + |pattern|] == pattern
  }

  /** String.indexOf(pattern, from) for a non-empty pattern: the first
      occurrence at or after `from`, or -1. */
  function IndexOfString(s: string, pattern: string, from: nat): (r: int)
    requires from <= |s| && pattern != []
    ensures r == -1 || from <= r < |s|
    ensures r == -1 ==> forall i :: from <= i <= |s| ==> !OccursAt(s, pattern, i)
    ensures r != -1 ==> OccursAt(s, pattern, r) && forall i :: from <= i < r ==> !OccursAt(s, pattern, i)
    decreases |s| - from
  {
    if from + |pattern| > |s| then -1
    else if s[from..from + |pattern|] == pattern then from
    else IndexOfString(s, pattern, from + 1)
  }

  /** StringUtils.replaceOnce: the first occurrence of `search` replaced by
      `replacement`; the text is returned unchanged when it or `search` is
      empty or when `search` does not occur. */
  function ReplaceOnce(text: string, search: string, replacement: string): (r: string)
    ensures text == [] || search == [] ==> r == text
    ensures (forall i :: 0 <= i <= |text| ==> !OccursAt(text, search, i)) ==> r == text
  {
    if text == [] || search == [] then text
    else
      var i := IndexOfString(text, search, 0);
      if i == -1 then text
      else text[..i] + replacement + text[i + |search|..]
  }

  /** ReplaceOnce rewrites exactly the occurrence at `k` when none occurs
      before it. */
  lemma ReplaceOnceAt(text: string, search: string, replacement: string, k: nat)
    requires search != []
    requires OccursAt(text, search, k)
    requires forall i :: 0 <= i < k ==> !OccursAt(text, search, i)
    ensures ReplaceOnce(text, search, replacement) == text[..k] + replacement + text[k + |search|..]
  {
    var i := IndexOfString(text, search, 0);
    assert i != -1;
  }

  // ---------------------------------------------------------------- numbers

  predicate IsDigit(c: char) {
    '0' <= c <= '9'
  }

  function DigitChar(d: nat): (c: char)
    requires d < 10
    ensures IsDigit(c)
  {
    ('0' as int + d) as char
  }

  /** Decimal digits of `n`, most significant first, without leading zeros. */
  function NatToString(n: nat): (s: string)
    ensures |s| >= 1
    ensures forall i :: 0 <= i < |s| ==> IsDigit(s[i])
    ensures |s| > 1 ==> s[0] != '0'
    decreases n
  {
    if n < 10 then [DigitChar(n)] else NatToString(n / 10) + [DigitChar(n % 10)]
  }

  /** Integer.toString / string concatenation of an int. */
  function IntToString(n: int): (s: string)
    ensures |s| >= 1
  {
    if n < 0 then "-" + NatToString(-n) else NatToString(n)
  }

  function DigitValue(c: char): (d: nat)
    requires IsDigit(c)
    ensures d < 10
  {
    c as int - '0' as int
  }

  /** The value of a string of decimal digits. */
  function ParseDigits(s: string): nat
    requires forall i :: 0 <= i < |s| ==> IsDigit(s[i])
  {
    if s == [] then 0
    else ParseDigits(s[..|s| - 1]) * 10 + DigitValue(s[|s| - 1])
  }

  /** Reading the decimal text of a number gives the number back. */
  lemma {:induction false} ParseNatToString(n: nat)
    ensures ParseDigits(NatToString(n)) == n
    decreases n
  {
    var s := NatToString(n);
    if n >= 10 {
      ParseNatToString(n / 10);
      assert s[..|s| - 1] == NatToString(n / 10);
    }
  }

  /** The digits at the head of `s`. */
  function LeadingDigits(s: string): (d: string)
    ensures |d| <= |s| && d == s[..|d|]
    ensures forall i :: 0 <= i < |d| ==> IsDigit(d[i])
  {
    if s == [] || !IsDigit(s[0]) then [] else [s[0]] + LeadingDigits(s[1..])
  }

  /** A number printed after a prefix, followed by text that does not
      start with a digit, reads back from the digits after the prefix. */
  lemma NumberAfterPrefix(prefix: string, n: nat, rest: string)
    requires rest == [] || !IsDigit(rest[0])
    ensures var u := prefix + (NatToString(n) + rest);
      && StartsWith(u, prefix)
      && ParseDigits(LeadingDigits(u[|prefix|..])) == n
  {
    var digits := NatToString(n);
    var u := prefix + (digits + rest);
    assert u[..|prefix|] == prefix;
    assert u[|prefix|..] == digits + rest;
    LeadingDigitsOf(digits, rest);
    ParseNatToString(n);
  }

  lemma {:induction false} LeadingDigitsOf(d: string, rest: string)
    requires forall i :: 0 <= i < |d| ==> IsDigit(d[i])
    requires rest == [] || !IsDigit(rest[0])
    ensures LeadingDigits(d + rest) == d
  {
    if d == [] {
      assert d + rest == rest;
    } else {
      assert (d + rest)[0] == d[0];
      assert (d + rest)[1..] == d[1..] + rest;
      LeadingDigitsOf(d[1..], rest);
      assert [d[0]] + d[1..] == d;
    }
  }
}
