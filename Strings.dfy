/** Python string helpers the handlers rely on: `str.isspace`, `str.strip`,
    truthiness of an optional string, and the slices `s[:n]` and `s[-n:]`. */
module Strings {

  import opened Common

  /** Python's `str.isspace` for one character: the characters `str.strip()`
      removes when it is called without arguments. */
  predicate IsSpace(c: char)
  {
    || c == ' ' || c == '\t' || c == '\n' || c == '\r' || c == '\U{B}' || c == '\U{C}'
    || ('\U{1C}' <= c <= '\U{1F}') || c == '\U{85}' || c == '\U{A0}' || c == '\U{1680}'
    || ('\U{2000}' <= c <= '\U{200A}') || c == '\U{2028}' || c == '\U{2029}'
    || c == '\U{202F}' || c == '\U{205F}' || c == '\U{3000}'
  }

  predicate AllSpace(s: string)
  {
    forall i | 0 <= i < |s| :: IsSpace(s[i])
  }

  /** Number of leading whitespace characters. */
  function LeadingSpace(s: string): (n: nat)
    ensures n <= |s|
    ensures forall i | 0 <= i < n :: IsSpace(s[i])
    ensures n < |s| ==> !IsSpace(s[n])
  {
    if |s| == 0 || !IsSpace(s[0]) then 0 else 1 + LeadingSpace(s[1..])
  }

  /** Number of trailing whitespace characters. */
  function TrailingSpace(s: string): (n: nat)
    ensures n <= |s|
    ensures forall i | |s| - n <= i < |s| :: IsSpace(s[i])
    ensures n < |s| ==> !IsSpace(s[|s| - n - 1])
  {
    if |s| == 0 || !IsSpace(s[|s| - 1]) then 0 else 1 + TrailingSpace(s[..|s| - 1])
  }

  /** `s.strip()`: drops the leading and then the trailing whitespace. */
  function Strip(s: string): (r: string)
    ensures |r| <= |s|
  {
    var t := s[LeadingSpace(s)..];
    t[..|t| - TrailingSpace(t)]
  }

  /** What `strip` promises: the result is the slice of `s` that starts at the
      first non-whitespace character, only whitespace lies outside it, it
      neither starts nor ends with whitespace, and it is empty exactly when
      `s` is all whitespace. */
  lemma StripTrimsWhitespace(s: string)
    ensures var r, lo := Strip(s), LeadingSpace(s);
      && lo + |r| <= |s| && r == s[lo..lo + |r|]
      && AllSpace(s[..lo]) && AllSpace(s[lo + |r|..])
      && (r != "" ==> !IsSpace(r[0]) && !IsSpace(r[|r| - 1]))
      && (r == "" <==> AllSpace(s))
  {
    StripSlice(s);
    StripBlank(s);
  }

  /** The slice half of `StripTrimsWhitespace`. */
  lemma StripSlice(s: string)
    ensures var r, lo := Strip(s), LeadingSpace(s);
      && lo + |r| <= |s| && r == s[lo..lo + |r|]
      && AllSpace(s[..lo]) && AllSpace(s[lo + |r|..])
      && (r != "" ==> !IsSpace(r[0]) && !IsSpace(r[|r| - 1]))
  {
    var lo := LeadingSpace(s);
    var t := s[lo..];
    var n := TrailingSpace(t);
    var r := t[..|t| - n];
    assert r == Strip(s);
    assert r == s[lo..lo + |r|];
    assert AllSpace(s[..lo]);
    assert s[lo + |r|..] == t[|t| - n..];
    assert AllSpace(s[lo + |r|..]);
    if r != "" {
      assert r[0] == s[lo];
      assert r[|r| - 1] == t[|t| - n - 1];
    }
  }

  /** The blank half of `StripTrimsWhitespace`. */
  lemma StripBlank(s: string)
    ensures Strip(s) == "" <==> AllSpace(s)
  {
    var lo := LeadingSpace(s);
    var t := s[lo..];
    var n := TrailingSpace(t);
    assert t[..|t| - n] == Strip(s);
    if Strip(s) == "" {
      if lo < |s| {
        assert false;
      }
    } else {
      assert !IsSpace(s[lo]);
    }
  }

  /** Stripping is idempotent: `s.strip().strip() == s.strip()`. */
  lemma StripIdempotent(s: string)
    ensures Strip(Strip(s)) == Strip(s)
  {
    var r := Strip(s);
    if r != "" {
      var lo := LeadingSpace(r);
      assert lo == 0;
      var n := TrailingSpace(r);
      assert n == 0;
    }
  }

  /** Python truthiness of an optional string: `None` and `""` are falsy. */
  predicate Truthy(s: Option<string>)
  {
    s.Some? && s.value != ""
  }

  /** `s or fallback` for an optional string. */
  function OrElse(s: Option<string>, fallback: string): (r: string)
    ensures Truthy(s) ==> r == s.value
    ensures !Truthy(s) ==> r == fallback
  {
    if Truthy(s) then s.value else fallback
  }

  /** Python's `s[:n]` for `n >= 0`. */
  function Head(s: string, n: nat): (r: string)
    ensures |r| == if |s| < n then |s| else n
    ensures r <= s
  {
    if |s| < n then s else s[..n]
  }

  /** Python's `s[-n:]` for `n >= 1`. */
  function Tail(s: string, n: nat): (r: string)
    requires n >= 1
    ensures |r| == if |s| < n then |s| else n
    ensures r == s[|s| - |r|..]
  {
    if |s| < n then s else s[|s| - n..]
  }

  /** The number a string of decimal digits denotes, as `int(s)` reads it. */
  function DigitsValue(s: string): nat
    requires forall i | 0 <= i < |s| :: '0' <= s[i] <= '9'
  {
    if |s| == 0 then 0
    else DigitsValue(s[..|s| - 1]) * 10 + (s[|s| - 1] as int - '0' as int)
  }

  /** Python's `str(n)` for a non-negative integer: the digits of `n`, with
      no leading zero. */
  function DecimalString(n: nat): (s: string)
    ensures |s| >= 1
    ensures forall i | 0 <= i < |s| :: '0' <= s[i] <= '9'
    ensures DigitsValue(s) == n
    ensures |s| > 1 ==> s[0] != '0'
  {
    var digit := ['0', '1', '2', '3', '4', '5', '6', '7', '8', '9'][n % 10];
    if n < 10 then [digit]
    else
      var rest := DecimalString(n / 10);
      assert (rest + [digit])[..|rest|] == rest;
      rest + [digit]
  }
}
