/** The slice of ECMAScript string behaviour the handlers depend on:
    `String.prototype.trim`, `toLowerCase` / `toUpperCase` (on ASCII letters),
    `substring` with its index clamping, and the decimal rendering of a
    non-negative integer inside a template literal. */
module Text {

  /** The WhiteSpace and LineTerminator code points of ECMAScript, which
      `trim` strips from both ends of a string. */
  predicate IsJsWhitespace(c: char) {
    || c == '\t' || c == '\n' || c == '\U{000B}' || c == '\U{000C}' || c == '\r'
    || c == ' ' || c == '\U{00A0}' || c == '\U{1680}'
    || ('\U{2000}' <= c <= '\U{200A}')
    || c == '\U{2028}' || c == '\U{2029}' || c == '\U{202F}' || c == '\U{205F}'
    || c == '\U{3000}' || c == '\U{FEFF}'
  }

  predicate AllWhitespace(s: string) {
    forall i :: 0 <= i < |s| ==> IsJsWhitespace(s[i])
  }

  /** Drops the leading whitespace: the result is the suffix that starts at
      the first non-whitespace character. */
  function TrimStart(s: string): (r: string)
    ensures |r| <= |s| && r == s[|s| - |r|..]
    ensures forall i :: 0 <= i < |s| - |r| ==> IsJsWhitespace(s[i])
    ensures |r| > 0 ==> !IsJsWhitespace(r[0])
    decreases |s|
  {
    if |s| > 0 && IsJsWhitespace(s[0]) then TrimStart(s[1..]) else s
  }

  /** Drops the trailing whitespace: the result is the prefix that ends at
      the last non-whitespace character. */
  function TrimEnd(s: string): (r: string)
    ensures |r| <= |s| && r == s[..|r|]
    ensures forall i :: |r| <= i < |s| ==> IsJsWhitespace(s[i])
    ensures |r| > 0 ==> !IsJsWhitespace(r[|r| - 1])
    decreases |s|
  {
    if |s| > 0 && IsJsWhitespace(s[|s| - 1]) then TrimEnd(s[..|s| - 1]) else s
  }

  /** Everything before index `i` and from index `j` on is whitespace. */
  predicate OuterWhitespace(s: string, i: int, j: int) {
    && 0 <= i <= j <= |s|
    && (forall k :: 0 <= k < i ==> IsJsWhitespace(s[k]))
    && (forall k :: j <= k < |s| ==> IsJsWhitespace(s[k]))
  }

  /** `s.trim()`. The result is empty exactly when `s` is all whitespace. */
  function Trim(s: string): (r: string)
    ensures |r| <= |s|
    ensures |r| == 0 <==> AllWhitespace(s)
    ensures |r| > 0 ==> !IsJsWhitespace(r[0]) && !IsJsWhitespace(r[|r| - 1])
    ensures exists i, j :: OuterWhitespace(s, i, j) && r == s[i..j]
  {
    TrimIsSlice(s);
    TrimEnd(TrimStart(s))
  }

  /** Trimming keeps the part of `s` between its leading and its trailing
      whitespace. */
  lemma TrimIsSlice(s: string)
    ensures exists i, j :: OuterWhitespace(s, i, j) && TrimEnd(TrimStart(s)) == s[i..j]
  {
    var front := TrimStart(s);
    var i := |s| - |front|;
    var r := TrimEnd(front);
    var j := i + |r|;
    assert front == s[i..];
    assert r == front[..|r|];
    PrefixOfSuffix(s, i, |r|);
    WhitespaceTailOfSuffix(s, i, |r|);
    assert OuterWhitespace(s, i, j);
  }

  lemma PrefixOfSuffix(s: string, i: nat, n: nat)
    requires i + n <= |s|
    ensures s[i..][..n] == s[i..i + n]
  {
  }

  lemma WhitespaceTailOfSuffix(s: string, i: nat, n: nat)
    requires i + n <= |s|
    requires forall x :: n <= x < |s| - i ==> IsJsWhitespace(s[i..][x])
    ensures forall k :: i + n <= k < |s| ==> IsJsWhitespace(s[k])
  {
    forall k | i + n <= k < |s| ensures IsJsWhitespace(s[k]) {
      assert s[k] == s[i..][k - i];
    }
  }

  function LowerChar(c: char): char {
    if 'A' <= c <= 'Z' then (c as int + 32) as char else c
  }

  function UpperChar(c: char): char {
    if 'a' <= c <= 'z' then (c as int - 32) as char else c
  }

  /** `s.toLowerCase()`, restricted to the ASCII letters. */
  function ToLower(s: string): (r: string)
    ensures |r| == |s|
    ensures forall i :: 0 <= i < |s| ==> r[i] == LowerChar(s[i])
    decreases |s|
  {
    if |s| == 0 then "" else [LowerChar(s[0])] + ToLower(s[1..])
  }

  /** `s.toUpperCase()`, restricted to the ASCII letters. */
  function ToUpper(s: string): (r: string)
    ensures |r| == |s|
    ensures forall i :: 0 <= i < |s| ==> r[i] == UpperChar(s[i])
    decreases |s|
  {
    if |s| == 0 then "" else [UpperChar(s[0])] + ToUpper(s[1..])
  }

  /** Lower-casing twice is lower-casing once. */
  lemma LowerIdempotent(s: string)
    ensures ToLower(ToLower(s)) == ToLower(s)
  {
  }

  /** Upper-casing forgets any earlier lower-casing. */
  lemma UpperOfLower(s: string)
    ensures ToUpper(ToLower(s)) == ToUpper(s)
  {
  }

  /** Case mapping neither creates nor removes whitespace. */
  lemma LowerKeepsWhitespace(c: char)
    ensures IsJsWhitespace(LowerChar(c)) == IsJsWhitespace(c)
  {
  }

  lemma {:induction false} TrimStartCommutesWithLower(s: string)
    ensures TrimStart(ToLower(s)) == ToLower(TrimStart(s))
    decreases |s|
  {
    if |s| > 0 {
      LowerKeepsWhitespace(s[0]);
      assert ToLower(s)[0] == LowerChar(s[0]);
      assert ToLower(s)[1..] == ToLower(s[1..]);
      if IsJsWhitespace(s[0]) {
        TrimStartCommutesWithLower(s[1..]);
      }
    }
  }

  lemma {:induction false} TrimEndCommutesWithLower(s: string)
    ensures TrimEnd(ToLower(s)) == ToLower(TrimEnd(s))
    decreases |s|
  {
    if |s| > 0 {
      LowerKeepsWhitespace(s[|s| - 1]);
      assert ToLower(s)[|s| - 1] == LowerChar(s[|s| - 1]);
      assert ToLower(s)[..|s| - 1] == ToLower(s[..|s| - 1]);
      if IsJsWhitespace(s[|s| - 1]) {
        TrimEndCommutesWithLower(s[..|s| - 1]);
      }
    }
  }

  /** Lower-casing never creates or removes whitespace, so it commutes with `trim`. */
  lemma TrimCommutesWithLower(s: string)
    ensures Trim(ToLower(s)) == ToLower(Trim(s))
  {
    TrimStartCommutesWithLower(s);
    TrimEndCommutesWithLower(TrimStart(s));
  }

  /** ECMAScript's ToIntegerOrInfinity clamp of a `substring` index into [0, len]. */
  function ClampIndex(x: int, len: nat): (r: nat)
    ensures r <= len
    ensures 0 <= x <= len ==> r == x
  {
    if x < 0 then 0 else if x > len then len else x
  }

  /** `s.substring(start, end)`: both indices are clamped into the string,
      and the smaller one is used as the start. */
  function JsSubstring(s: string, start: int, end: int): (r: string)
    ensures |r| <= |s|
    ensures 0 <= start <= end ==> |r| <= end - start
    ensures 0 <= start <= end <= |s| ==> r == s[start..end]
    ensures 0 <= start <= |s| <= end ==> r == s[start..]
    ensures 0 <= |s| <= start <= end ==> r == ""
  {
    var a := ClampIndex(start, |s|);
    var b := ClampIndex(end, |s|);
    if a <= b then s[a..b] else s[b..a]
  }

  predicate IsDigit(c: char) {
    '0' <= c <= '9'
  }

  predicate AllDigits(s: string) {
    forall i :: 0 <= i < |s| ==> IsDigit(s[i])
  }

  function DigitChar(d: nat): (c: char)
    requires d < 10
    ensures IsDigit(c)
  {
    ('0' as int + d) as char
  }

  /** The decimal digits of `n`, most significant first, as a template
      literal renders a non-negative integer. */
  function NatToDecimal(n: nat): (r: string)
    ensures |r| > 0
    ensures AllDigits(r)
    decreases n
  {
    if n < 10 then [DigitChar(n)] else NatToDecimal(n / 10) + [DigitChar(n % 10)]
  }

  /** The number a string of decimal digits denotes. */
  function DecimalValue(s: string): nat
    requires AllDigits(s)
    decreases |s|
  {
    if |s| == 0 then 0
    else DecimalValue(s[..|s| - 1]) * 10 + (s[|s| - 1] as int - '0' as int)
  }

  /** Reading back the digits gives the number again. */
  lemma {:induction false} DecimalRoundTrip(n: nat)
    ensures DecimalValue(NatToDecimal(n)) == n
    decreases n
  {
    if n >= 10 {
      var r := NatToDecimal(n);
      assert r[..|r| - 1] == NatToDecimal(n / 10);
      DecimalRoundTrip(n / 10);
    }
  }

  /** Distinct numbers render as distinct digit strings. */
  lemma NatToDecimalInjective(a: nat, b: nat)
    ensures NatToDecimal(a) == NatToDecimal(b) ==> a == b
  {
    DecimalRoundTrip(a);
    DecimalRoundTrip(b);
  }
}
