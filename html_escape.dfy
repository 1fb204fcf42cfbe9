/**
  `escapeHtml` of the browser client: one global regular-expression replace
  of the class `[&<>"']` through a five-entry table of HTML entities, used to
  keep catalogue text from being read as markup. The replacement callback
  sees each matched character once and its output is never rescanned, so the
  whole replace is the character-by-character substitution below.
 */
module HtmlEscape {

  /** The characters of the class `[&<>"']`. */
  predicate IsSpecial(c: char) {
    c == '&' || c == '<' || c == '>' || c == '"' || c == '\''
  }

  /** The characters that could open a tag or end an attribute value. */
  predicate IsMarkup(c: char) {
    c == '<' || c == '>' || c == '"' || c == '\''
  }

  /** The replacement table; every entity starts with '&' and holds no markup character. */
  function Entity(c: char): (e: string)
    requires IsSpecial(c)
    ensures |e| >= 4 && e[0] == '&'
    ensures forall k :: 0 <= k < |e| ==> !IsMarkup(e[k])
  {
    if c == '&' then "&amp;"
    else if c == '<' then "&lt;"
    else if c == '>' then "&gt;"
    else if c == '"' then "&quot;"
    else "&#039;"
  }

  /** What the replace puts in place of one input character. */
  function Replacement(c: char): string {
    if IsSpecial(c) then Entity(c) else [c]
  }

  function EscapeHtml(text: string): (r: string)
    ensures |r| >= |text|
    ensures forall k :: 0 <= k < |r| ==> !IsMarkup(r[k])
    decreases |text|
  {
    if text == [] then []
    else Replacement(text[0]) + EscapeHtml(text[1..])
  }

  /** The `/g` flag: every occurrence is replaced, so escaping distributes over concatenation. */
  lemma {:induction false} EscapeConcat(a: string, b: string)
    ensures EscapeHtml(a + b) == EscapeHtml(a) + EscapeHtml(b)
    decreases |a|
  {
    if a != [] {
      assert (a + b)[0] == a[0];
      assert (a + b)[1..] == a[1..] + b;
      EscapeConcat(a[1..], b);
    } else {
      assert a + b == b;
    }
  }

  /** Escaping changes nothing exactly when none of the five characters occurs. */
  lemma {:induction false} EscapeUnchanged(text: string)
    ensures EscapeHtml(text) == text <==> forall k :: 0 <= k < |text| ==> !IsSpecial(text[k])
    ensures |EscapeHtml(text)| == |text| <==> forall k :: 0 <= k < |text| ==> !IsSpecial(text[k])
    decreases |text|
  {
    if text != [] {
      EscapeUnchanged(text[1..]);
      if IsSpecial(text[0]) {
        assert |EscapeHtml(text)| > |text|;
      } else {
        assert EscapeHtml(text) == [text[0]] + EscapeHtml(text[1..]);
        assert forall k :: 1 <= k < |text| ==> text[k] == text[1..][k - 1];
      }
    }
  }

  predicate StartsWith(s: string, prefix: string) {
    |prefix| <= |s| && s[..|prefix|] == prefix
  }

  /** True when `s` begins with one of the five entities. */
  predicate BeginsEntity(s: string) {
    StartsWith(s, "&amp;") || StartsWith(s, "&lt;") || StartsWith(s, "&gt;")
    || StartsWith(s, "&quot;") || StartsWith(s, "&#039;")
  }

  /** Decodes the five entities, scanning left to right; anything else is copied. */
  function Unescape(s: string): (r: string)
    ensures |r| <= |s|
    decreases |s|
  {
    if s == [] then []
    else if s[0] != '&' then [s[0]] + Unescape(s[1..])
    else if StartsWith(s, "&amp;") then "&" + Unescape(s[5..])
    else if StartsWith(s, "&lt;") then "<" + Unescape(s[4..])
    else if StartsWith(s, "&gt;") then ">" + Unescape(s[4..])
    else if StartsWith(s, "&quot;") then "\"" + Unescape(s[6..])
    else if StartsWith(s, "&#039;") then "'" + Unescape(s[6..])
    else [s[0]] + Unescape(s[1..])
  }

  /** Decoding the entity `e` for `c` followed by more text gives back `c`. */
  lemma UnescapeEntity(c: char, e: string, rest: string)
    requires IsSpecial(c) && e == Entity(c)
    ensures Unescape(e + rest) == [c] + Unescape(rest)
  {
    var s := e + rest;
    assert s[0] == '&' && s[..|e|] == e && s[|e|..] == rest;
    if c != '&' {
      assert s[1] != 'a';
      if c != '<' {
        assert s[1] != 'l';
        if c != '>' {
          assert s[1] != 'g';
          if c != '"' {
            assert s[1] != 'q';
          }
        }
      }
    }
  }

  /** Decoding consumes one replacement and gives back the character it stood for. */
  lemma UnescapeReplacement(c: char, rest: string)
    ensures Unescape(Replacement(c) + rest) == [c] + Unescape(rest)
  {
    if IsSpecial(c) {
      UnescapeEntity(c, Entity(c), rest);
    } else {
      var s := Replacement(c) + rest;
      assert s[0] == c && s[1..] == rest;
    }
  }

  /** Round trip: decoding the entities recovers the original text. */
  lemma {:induction false} UnescapeEscape(text: string)
    ensures Unescape(EscapeHtml(text)) == text
    decreases |text|
  {
    if text != [] {
      UnescapeReplacement(text[0], EscapeHtml(text[1..]));
      UnescapeEscape(text[1..]);
    }
  }

  /** Every '&' in the output opens one of the five entities. */
  lemma {:induction false} AmpersandBeginsEntity(text: string)
    ensures forall k :: 0 <= k < |EscapeHtml(text)| && EscapeHtml(text)[k] == '&' ==>
              BeginsEntity(EscapeHtml(text)[k..])
    decreases |text|
  {
    if text != [] {
      AmpersandBeginsEntity(text[1..]);
      var head, tail := Replacement(text[0]), EscapeHtml(text[1..]);
      var r := EscapeHtml(text);
      assert r == head + tail;
      forall k | 0 <= k < |r| && r[k] == '&' ensures BeginsEntity(r[k..]) {
        if k < |head| {
          assert IsSpecial(text[0]) && k == 0;
          assert r[..|head|] == head;
        } else {
          assert r[k..] == tail[k - |head|..];
        }
      }
    }
  }
}
