/**
  The text normaliser of the question-answering handler (`cleanText` in
  server.js): it strips Markdown emphasis markers and surrounding whitespace.
 */
module TextNormalizer {
  import opened JsStrings

  /** `cleanText(text)`: a falsy text gives ""; otherwise every "**", then
      every remaining "*" is deleted (two global regular-expression
      replacements), and the result is trimmed. The only falsy string is "". */
  function CleanText(text: string): (r: string)
    ensures '*' !in r
    ensures Trimmed(r)
    ensures |r| <= |text|
  {
    if text == "" then ""
    else
      var stripped := DeleteAll(DeleteAll(text, "**"), "*");
      DeleteAllChar(DeleteAll(text, "**"), '*');
      NoStarSurvivesTrim(stripped);
      Trim(stripped)
  }

  lemma NoStarSurvivesTrim(s: string)
    requires '*' !in s
    ensures '*' !in Trim(s)
  {
    var r := Trim(s);
    var i := LeadingWs(s);
    TrimSlice(s);
    forall k | 0 <= k < |r| ensures r[k] != '*' {
      assert r[k] == s[i + k];
    }
  }

  /** What `cleanText` computes, stated without the two-pass deletion: the
      text with every `*` removed (all other characters kept, in order), then
      trimmed. */
  lemma CleanTextIsTrimWithoutStars(text: string)
    ensures CleanText(text) == Trim(Without(text, '*'))
  {
    if text != "" {
      assert "**" == ['*', '*'] && "*" == ['*'];
      DeletePairThenChar(text, '*');
    }
  }

  /** `cleanText` keeps a contiguous slice of the star-free text: the one
      that starts after its leading whitespace. */
  lemma CleanTextKeepsTheRest(text: string)
    ensures var w := Without(text, '*'); var r := CleanText(text); var i := LeadingWs(w);
      i + |r| <= |w| && r == w[i..i + |r|]
  {
    CleanTextIsTrimWithoutStars(text);
    TrimSlice(Without(text, '*'));
  }

  /** What `cleanText` drops from the star-free text, before and after the
      slice it keeps, is whitespace only. */
  lemma CleanTextDropsOnlyWs(text: string)
    ensures var w := Without(text, '*'); var r := CleanText(text); var i := LeadingWs(w);
      i + |r| <= |w| && AllWs(w[..i]) && AllWs(w[i + |r|..])
  {
    CleanTextIsTrimWithoutStars(text);
    TrimDropsOnlyWs(Without(text, '*'));
  }

  /** Conversely, whatever whitespace surrounds a trimmed text in the star-free
      input, `cleanText` returns exactly that text. */
  lemma CleanTextUnique(text: string, a: string, m: string, b: string)
    requires Without(text, '*') == a + m + b
    requires AllWs(a) && AllWs(b) && Trimmed(m)
    ensures CleanText(text) == m
  {
    CleanTextIsTrimWithoutStars(text);
    TrimUnique(a, m, b);
  }

  /** A star-free text is cleaned by trimming alone. */
  lemma CleanTextStarFree(a: string, m: string, b: string)
    requires '*' !in a + m + b && AllWs(a) && AllWs(b) && Trimmed(m)
    ensures CleanText(a + m + b) == m
  {
    WithoutAbsent(a + m + b, '*');
    CleanTextUnique(a + m + b, a, m, b);
  }

  /** A `*` inserted anywhere makes no difference to `cleanText`. */
  lemma CleanTextIgnoresStar(x: string, y: string)
    ensures CleanText(x + "*" + y) == CleanText(x + y)
  {
    WithoutIgnoresChar(x, y, '*');
    CleanTextIsTrimWithoutStars(x + "*" + y);
    CleanTextIsTrimWithoutStars(x + y);
  }

  /** Markdown bold markers around a span vanish. */
  lemma CleanTextDropsBold(x: string, m: string, y: string)
    ensures CleanText(x + "**" + m + "**" + y) == CleanText(x + m + y)
  {
    WithoutDropsBold(x, m, y);
    CleanTextIsTrimWithoutStars(x + "**" + m + "**" + y);
    CleanTextIsTrimWithoutStars(x + m + y);
  }

  lemma WithoutDropsBold(x: string, m: string, y: string)
    ensures Without(x + "**" + m + "**" + y, '*') == Without(x + m + y, '*')
  {
    var rest := m + "**" + y;
    assert x + "**" + m + "**" + y == x + "**" + rest;
    WithoutDropsPair(x, rest);
    assert x + rest == (x + m) + "**" + y;
    WithoutDropsPair(x + m, y);
  }

  lemma WithoutDropsPair(x: string, y: string)
    ensures Without(x + "**" + y, '*') == Without(x + y, '*')
  {
    var s := ['*'];
    assert x + "**" + y == x + s + (s + y);
    WithoutIgnoresChar(x, s + y, '*');
    assert x + (s + y) == x + s + y;
    WithoutIgnoresChar(x, y, '*');
  }

  /** A text that is already star-free and trimmed is left unchanged. */
  lemma CleanTextFixesCleanText(text: string)
    requires '*' !in text && Trimmed(text)
    ensures CleanText(text) == text
  {
    CleanTextIsTrimWithoutStars(text);
    WithoutAbsent(text, '*');
    assert [] + text + [] == text;
    TrimUnique([], text, []);
  }

  /** `cleanText` is idempotent. */
  lemma CleanTextIdempotent(text: string)
    ensures CleanText(CleanText(text)) == CleanText(text)
  {
    CleanTextFixesCleanText(CleanText(text));
  }

  /** The empty text and a whitespace-only or star-only text all give "". */
  lemma CleanTextBlank(text: string)
    requires forall i :: 0 <= i < |text| ==> text[i] == '*' || IsWs(text[i])
    ensures CleanText(text) == ""
  {
    CleanTextIsTrimWithoutStars(text);
    var w := Without(text, '*');
    WithoutOnlyWs(text);
    assert [] + [] + w == w;
    TrimUnique([], [], w);
  }

  lemma {:induction false} WithoutOnlyWs(text: string)
    requires forall i :: 0 <= i < |text| ==> text[i] == '*' || IsWs(text[i])
    ensures AllWs(Without(text, '*'))
  {
    if text != [] {
      WithoutOnlyWs(text[1..]);
      assert Without(text, '*') == (if text[0] == '*' then [] else [text[0]]) + Without(text[1..], '*');
    }
  }
}
