/** `escapeHtml` (script.js), the escaping applied to every user-supplied
    string before it is spliced into generated HTML.

    The source writes it as five global replacements applied one after the
    other, `&` first. `EscapeHtmlAsWritten` models that chain literally;
    `EscapeHtml` is the character-wise reading, and `ChainIsCharwise` proves
    the two agree on every input. The order matters: because `&` goes first,
    the `&` of an entity introduced by a later pass is never escaped again. */
module Escape {

  /** The characters that could open a tag or close an attribute value. */
  predicate IsMarkup(c: char) {
    c == '<' || c == '>' || c == '"' || c == '\''
  }

  predicate IsSpecial(c: char) {
    c == '&' || IsMarkup(c)
  }

  /** Output that cannot start a tag or leave a quoted attribute value. */
  predicate MarkupFree(s: string) {
    forall i :: 0 <= i < |s| ==> !IsMarkup(s[i])
  }

  function EscapeChar(c: char): string {
    if c == '&' then "&amp;"
    else if c == '"' then "&quot;"
    else if c == '\'' then "&#39;"
    else if c == '<' then "&lt;"
    else if c == '>' then "&gt;"
    else [c]
  }

  /** The character-wise reading of `escapeHtml`. */
  function EscapeHtml(s: string): (r: string)
    ensures |s| == 0 ==> r == ""
    ensures |r| >= |s|
    ensures MarkupFree(r)
    decreases |s|
  {
    if |s| == 0 then "" else EscapeChar(s[0]) + EscapeHtml(s[1..])
  }

  /** `str.replace(/c/g, rep)` for a single-character pattern. */
  function ReplaceAll(s: string, c: char, rep: string): string
    decreases |s|
  {
    if |s| == 0 then "" else (if s[0] == c then rep else [s[0]]) + ReplaceAll(s[1..], c, rep)
  }

  /** The five chained replacements of the source, in the source's order,
      after the `if (!str) return ''` guard. */
  function EscapeHtmlAsWritten(s: string): string {
    if |s| == 0 then ""
    else
      var amp := ReplaceAll(s, '&', "&amp;");
      var quot := ReplaceAll(amp, '"', "&quot;");
      var apos := ReplaceAll(quot, '\'', "&#39;");
      var lt := ReplaceAll(apos, '<', "&lt;");
      ReplaceAll(lt, '>', "&gt;")
  }

  lemma {:induction false} ReplaceAllConcat(a: string, b: string, c: char, rep: string)
    ensures ReplaceAll(a + b, c, rep) == ReplaceAll(a, c, rep) + ReplaceAll(b, c, rep)
    decreases |a|
  {
    if |a| > 0 {
      assert (a + b)[1..] == a[1..] + b;
      ReplaceAllConcat(a[1..], b, c, rep);
    } else {
      assert a + b == b;
    }
  }

  lemma {:induction false} ReplaceAllAbsent(s: string, c: char, rep: string)
    requires c !in s
    ensures ReplaceAll(s, c, rep) == s
    decreases |s|
  {
    if |s| > 0 {
      ReplaceAllAbsent(s[1..], c, rep);
    }
  }

  /** The five passes without the empty-string guard. */
  function Chain(s: string): string {
    ReplaceAll(ReplaceAll(ReplaceAll(ReplaceAll(ReplaceAll(s, '&', "&amp;"), '"', "&quot;"), '\'', "&#39;"), '<', "&lt;"), '>', "&gt;")
  }

  lemma ChainConcat(a: string, b: string)
    ensures Chain(a + b) == Chain(a) + Chain(b)
  {
    var a1, b1 := ReplaceAll(a, '&', "&amp;"), ReplaceAll(b, '&', "&amp;");
    ReplaceAllConcat(a, b, '&', "&amp;");
    var a2, b2 := ReplaceAll(a1, '"', "&quot;"), ReplaceAll(b1, '"', "&quot;");
    ReplaceAllConcat(a1, b1, '"', "&quot;");
    var a3, b3 := ReplaceAll(a2, '\'', "&#39;"), ReplaceAll(b2, '\'', "&#39;");
    ReplaceAllConcat(a2, b2, '\'', "&#39;");
    var a4, b4 := ReplaceAll(a3, '<', "&lt;"), ReplaceAll(b3, '<', "&lt;");
    ReplaceAllConcat(a3, b3, '<', "&lt;");
    ReplaceAllConcat(a4, b4, '>', "&gt;");
  }

  lemma ReplaceOne(x: char, c: char, rep: string)
    ensures ReplaceAll([x], c, rep) == if x == c then rep else [x]
  {
    assert [x][1..] == "";
  }

  /** A character that none of the remaining patterns matches passes through them. */
  lemma PlainChar(c: char)
    requires !IsSpecial(c)
    ensures Chain([c]) == [c]
  {
    ReplaceOne(c, '&', "&amp;");
    ReplaceOne(c, '"', "&quot;");
    ReplaceOne(c, '\'', "&#39;");
    ReplaceOne(c, '<', "&lt;");
    ReplaceOne(c, '>', "&gt;");
  }

  /** The last three passes leave a string without `'`, `<` and `>` alone. */
  lemma LastThreeAbsent(e: string)
    requires '\'' !in e && '<' !in e && '>' !in e
    ensures ReplaceAll(ReplaceAll(ReplaceAll(e, '\'', "&#39;"), '<', "&lt;"), '>', "&gt;") == e
  {
    ReplaceAllAbsent(e, '\'', "&#39;");
    ReplaceAllAbsent(e, '<', "&lt;");
    ReplaceAllAbsent(e, '>', "&gt;");
  }

  // The per-character lemmas below take the character as a parameter pinned
  // by `requires` rather than as a literal: with all-literal arguments the
  // verifier evaluates the passes on literal strings, which is far costlier.

  /** The first two passes turn `&` into its entity. */
  lemma ChainAmp(c: char)
    requires c == '&'
    ensures Chain([c]) == EscapeChar(c)
  {
    var e := EscapeChar(c);
    ReplaceOne(c, '&', e);
    ReplaceAllAbsent(e, '"', "&quot;");
    LastThreeAbsent(e);
  }

  lemma ChainQuot(c: char)
    requires c == '"'
    ensures Chain([c]) == EscapeChar(c)
  {
    var e := EscapeChar(c);
    ReplaceOne(c, '&', "&amp;");
    ReplaceOne(c, '"', e);
    LastThreeAbsent(e);
  }

  lemma ChainApos(c: char)
    requires c == '\''
    ensures Chain([c]) == EscapeChar(c)
  {
    var e := EscapeChar(c);
    ReplaceOne(c, '&', "&amp;");
    ReplaceOne(c, '"', "&quot;");
    ReplaceOne(c, '\'', e);
    ReplaceAllAbsent(e, '<', "&lt;");
    ReplaceAllAbsent(e, '>', "&gt;");
  }

  lemma ChainLt(c: char)
    requires c == '<'
    ensures Chain([c]) == EscapeChar(c)
  {
    var e := EscapeChar(c);
    ReplaceOne(c, '&', "&amp;");
    ReplaceOne(c, '"', "&quot;");
    ReplaceOne(c, '\'', "&#39;");
    ReplaceOne(c, '<', e);
    ReplaceAllAbsent(e, '>', "&gt;");
  }

  lemma ChainGt(c: char)
    requires c == '>'
    ensures Chain([c]) == EscapeChar(c)
  {
    ReplaceOne(c, '&', "&amp;");
    ReplaceOne(c, '"', "&quot;");
    ReplaceOne(c, '\'', "&#39;");
    ReplaceOne(c, '<', "&lt;");
    ReplaceOne(c, '>', EscapeChar(c));
  }

  /** On one character the five passes produce exactly that character's
      entity: no later pass touches an entity an earlier pass introduced. */
  lemma ChainOneChar(c: char)
    ensures Chain([c]) == EscapeChar(c)
  {
    if !IsSpecial(c) {
      PlainChar(c);
    } else if c == '&' {
      ChainAmp(c);
    } else if c == '"' {
      ChainQuot(c);
    } else if c == '\'' {
      ChainApos(c);
    } else if c == '<' {
      ChainLt(c);
    } else {
      ChainGt(c);
    }
  }

  /** The source's chain of replacements is the character-wise escape. */
  lemma {:induction false} ChainIsCharwise(s: string)
    ensures EscapeHtmlAsWritten(s) == EscapeHtml(s)
    decreases |s|
  {
    if |s| > 0 {
      assert s == [s[0]] + s[1..];
      ChainConcat([s[0]], s[1..]);
      ChainOneChar(s[0]);
      ChainIsCharwise(s[1..]);
      if |s[1..]| == 0 {
        assert Chain(s[1..]) == "";
      }
    }
  }

  /** Escaping distributes over concatenation: each character is escaped
      independently of its neighbours. */
  lemma {:induction false} EscapeConcat(a: string, b: string)
    ensures EscapeHtml(a + b) == EscapeHtml(a) + EscapeHtml(b)
    decreases |a|
  {
    if |a| > 0 {
      assert (a + b)[0] == a[0] && (a + b)[1..] == a[1..] + b;
      EscapeConcat(a[1..], b);
    } else {
      assert a + b == b;
    }
  }

  /** A string with none of the five special characters is returned as is. */
  lemma {:induction false} EscapeIdentity(s: string)
    requires forall i :: 0 <= i < |s| ==> !IsSpecial(s[i])
    ensures EscapeHtml(s) == s
    decreases |s|
  {
    if |s| > 0 {
      EscapeIdentity(s[1..]);
    }
  }

  /** Decodes the five entities `escapeHtml` produces, left to right. */
  function Unescape(s: string): string
    decreases |s|
  {
    if |s| == 0 then ""
    else if "&amp;" <= s then "&" + Unescape(s[5..])
    else if "&quot;" <= s then "\"" + Unescape(s[6..])
    else if "&#39;" <= s then "'" + Unescape(s[5..])
    else if "&lt;" <= s then "<" + Unescape(s[4..])
    else if "&gt;" <= s then ">" + Unescape(s[4..])
    else [s[0]] + Unescape(s[1..])
  }

  /** Each entity is recognised by its distinct second character. As with
      the chain lemmas above, the character is a pinned parameter. */
  lemma UnescapeAmp(c: char, rest: string)
    requires c == '&'
    ensures Unescape(EscapeChar(c) + rest) == [c] + Unescape(rest)
  {
    var e := EscapeChar(c) + rest;
    assert e[..5] == EscapeChar(c) && e[5..] == rest;
  }

  lemma UnescapeQuot(c: char, rest: string)
    requires c == '"'
    ensures Unescape(EscapeChar(c) + rest) == [c] + Unescape(rest)
  {
    var e := EscapeChar(c) + rest;
    assert e[..6] == EscapeChar(c) && e[6..] == rest && e[1] == 'q';
  }

  lemma UnescapeApos(c: char, rest: string)
    requires c == '\''
    ensures Unescape(EscapeChar(c) + rest) == [c] + Unescape(rest)
  {
    var e := EscapeChar(c) + rest;
    assert e[..5] == EscapeChar(c) && e[5..] == rest && e[1] == '#';
  }

  lemma UnescapeLt(c: char, rest: string)
    requires c == '<'
    ensures Unescape(EscapeChar(c) + rest) == [c] + Unescape(rest)
  {
    var e := EscapeChar(c) + rest;
    assert e[..4] == EscapeChar(c) && e[4..] == rest && e[1] == 'l';
  }

  lemma UnescapeGt(c: char, rest: string)
    requires c == '>'
    ensures Unescape(EscapeChar(c) + rest) == [c] + Unescape(rest)
  {
    var e := EscapeChar(c) + rest;
    assert e[..4] == EscapeChar(c) && e[4..] == rest && e[1] == 'g';
  }

  lemma UnescapeOneChar(c: char, rest: string)
    ensures Unescape(EscapeChar(c) + rest) == [c] + Unescape(rest)
  {
    if c == '&' {
      UnescapeAmp(c, rest);
    } else if c == '"' {
      UnescapeQuot(c, rest);
    } else if c == '\'' {
      UnescapeApos(c, rest);
    } else if c == '<' {
      UnescapeLt(c, rest);
    } else if c == '>' {
      UnescapeGt(c, rest);
    } else {
      var e := EscapeChar(c) + rest;
      assert e[0] == c && e[1..] == rest;
    }
  }

  /** Escaping loses nothing: decoding the entities gives back the input. */
  lemma {:induction false} UnescapeEscape(s: string)
    ensures Unescape(EscapeHtml(s)) == s
    decreases |s|
  {
    if |s| > 0 {
      UnescapeOneChar(s[0], EscapeHtml(s[1..]));
      UnescapeEscape(s[1..]);
    }
  }
}
