/** The glossary's text search: a LIKE pattern built from escaped user text
    (backend/repositories/ai_glossary_repository.py). */
module LikeSearch {
  import opened Common
  import opened Text

  const ESCAPE := '\\'

  /** `_escape_like`: three replacements, one after the other. */
  function EscapeLike(text: string): string {
    Replace(Replace(Replace(text, "\\", "\\\\"), "%", "\\%"), "_", "\\_")
  }

  /** What the escaping is meant to do to one character. */
  function EscapeChar(c: char): string {
    if c == ESCAPE || c == '%' || c == '_' then [ESCAPE, c] else [c]
  }

  function EscapeEach(text: string): string {
    if text == "" then "" else EscapeChar(text[0]) + EscapeEach(text[1..])
  }

  /** SQL LIKE with backslash as escape character (section 8.5 of ISO/IEC 9075-2); a
      pattern that ends in a lone escape character matches nothing. */
  predicate Like(pattern: string, s: string)
    decreases |pattern| + |s|
  {
    if pattern == "" then s == ""
    else if pattern[0] == ESCAPE then
      |pattern| > 1 && s != "" && s[0] == pattern[1] && Like(pattern[2..], s[1..])
    else if pattern[0] == '%' then
      Like(pattern[1..], s) || (s != "" && Like(pattern, s[1..]))
    else
      s != "" && (pattern[0] == '_' || s[0] == pattern[0]) && Like(pattern[1..], s[1..])
  }

  predicate Contains(s: string, t: string) {
    exists k | 0 <= k <= |s| :: t <= s[k..]
  }

  // ----- The chained replacements escape character by character -----

  lemma EscapeConcat(a: string, b: string)
    ensures EscapeLike(a + b) == EscapeLike(a) + EscapeLike(b)
  {
    ReplaceCharConcat(a, b, '\\', "\\\\");
    var a1, b1 := Replace(a, "\\", "\\\\"), Replace(b, "\\", "\\\\");
    ReplaceCharConcat(a1, b1, '%', "\\%");
    var a2, b2 := Replace(a1, "%", "\\%"), Replace(b1, "%", "\\%");
    ReplaceCharConcat(a2, b2, '_', "\\_");
  }

  /** No later replacement touches what an earlier one inserted. */
  lemma EscapeOne(c: char)
    ensures EscapeLike([c]) == EscapeChar(c)
  {
    assert Replace("", "\\", "\\\\") == "" && Replace("", "%", "\\%") == "" && Replace("", "_", "\\_") == "";
    var one := Replace([c], "\\", "\\\\");
    if c == ESCAPE {
      assert one == [ESCAPE] + [ESCAPE];
      assert Replace([ESCAPE], "%", "\\%") == [ESCAPE] && Replace([ESCAPE], "_", "\\_") == [ESCAPE];
      ReplaceCharConcat([ESCAPE], [ESCAPE], '%', "\\%");
      ReplaceCharConcat([ESCAPE], [ESCAPE], '_', "\\_");
    } else if c == '%' {
      assert one == [c] && Replace([c], "%", "\\%") == [ESCAPE] + ['%'];
      assert Replace([ESCAPE], "_", "\\_") == [ESCAPE] && Replace(['%'], "_", "\\_") == ['%'];
      ReplaceCharConcat([ESCAPE], ['%'], '_', "\\_");
    } else {
      assert one == [c] && Replace([c], "%", "\\%") == [c];
    }
  }

  lemma {:induction false} ChainedReplacesEscapeEach(text: string)
    ensures EscapeLike(text) == EscapeEach(text)
  {
    if text == "" {
    } else {
      assert text == [text[0]] + text[1..];
      EscapeConcat([text[0]], text[1..]);
      EscapeOne(text[0]);
      ChainedReplacesEscapeEach(text[1..]);
    }
  }

  // ----- The pattern means "contains" -----

  lemma EscapedCharIsLiteral(c: char, rest: string, s: string)
    ensures Like(EscapeChar(c) + rest, s) <==> s != "" && s[0] == c && Like(rest, s[1..])
  {
    var pattern := EscapeChar(c) + rest;
    assert pattern[|EscapeChar(c)|..] == rest;
  }

  /** Escaped text matches itself and nothing else. */
  lemma {:induction false} EscapedTextIsLiteral(text: string, rest: string, s: string)
    ensures Like(EscapeEach(text) + rest, s) <==> text <= s && Like(rest, s[|text|..])
  {
    if text == "" {
      assert EscapeEach(text) + rest == rest;
    } else {
      var tail := EscapeEach(text[1..]) + rest;
      assert EscapeEach(text) + rest == EscapeChar(text[0]) + tail;
      EscapedCharIsLiteral(text[0], tail, s);
      if s != "" && s[0] == text[0] {
        EscapedTextIsLiteral(text[1..], rest, s[1..]);
        assert text <= s <==> text[1..] <= s[1..] by {
          assert text == [text[0]] + text[1..] && s == [s[0]] + s[1..];
        }
        assert text <= s ==> s[1..][|text| - 1..] == s[|text|..];
      }
    }
  }

  /** A leading `%` skips any number of characters. */
  lemma {:induction false} PercentSkips(rest: string, s: string)
    ensures Like("%" + rest, s) <==> exists k | 0 <= k <= |s| :: Like(rest, s[k..])
  {
    assert ("%" + rest)[1..] == rest;
    assert s[0..] == s;
    if s != "" {
      PercentSkips(rest, s[1..]);
      forall k | 0 <= k <= |s[1..]|
        ensures s[1..][k..] == s[k + 1..]
      {
      }
      if k :| 0 < k <= |s| && Like(rest, s[k..]) {
        assert s[1..][k - 1..] == s[k..];
      }
    }
  }

  lemma {:induction false} PercentMatchesAll(s: string)
    ensures Like("%", s)
  {
    if s != "" {
      PercentMatchesAll(s[1..]);
    }
  }

  /** Main result: for every search text and every stored text, the pattern matches exactly
      when the stored text contains the search text. */
  lemma LikeMeansContains(text: string, s: string)
    ensures Like("%" + EscapeLike(text) + "%", s) <==> Contains(s, text)
  {
    ChainedReplacesEscapeEach(text);
    var rest := EscapeEach(text) + "%";
    assert "%" + EscapeLike(text) + "%" == "%" + rest;
    PercentSkips(rest, s);
    forall k | 0 <= k <= |s|
      ensures Like(rest, s[k..]) <==> text <= s[k..]
    {
      EscapedTextIsLiteral(text, "%", s[k..]);
      if text <= s[k..] {
        PercentMatchesAll(s[k..][|text|..]);
      }
    }
  }

  /** `_filtered`: is a stored text among the results? `lower` stands for `str.lower`. */
  predicate Selected(query: Option<string>, stored: string, lower: string -> string) {
    var text := lower(Strip(if query.Some? then query.value else ""));
    text == "" || Like("%" + EscapeLike(text) + "%", stored)
  }

  /** The search keeps the terms that contain the folded query; an empty query, which is
      contained in everything, keeps all. */
  lemma SearchSelectsContaining(query: Option<string>, stored: string, lower: string -> string)
    ensures Selected(query, stored, lower)
            <==> Contains(stored, lower(Strip(if query.Some? then query.value else "")))
  {
    var text := lower(Strip(if query.Some? then query.value else ""));
    LikeMeansContains(text, stored);
    if text == "" {
      assert text <= stored[0..];
    }
  }
}
