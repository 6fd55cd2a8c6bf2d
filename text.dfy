/**
 * The tag slug normaliser of src/services/text.ts: lower-case the text,
 * turn every single space into `-`, then delete every character outside
 * the regular-expression class `[\w-]` (ASCII letters, digits, `_`, `-`).
 *
 * The three stages are modelled one by one (`ToLower`, `ReplaceSpaces`,
 * `StripNonWord`), and `Slug` is their composition. `SlugByChar` is an
 * independent character-by-character reference definition, and
 * `SlugMatchesReference` connects the two.
 */
module Text {
  import opened Seqs

  predicate IsUpperAscii(c: char) { 'A' <= c <= 'Z' }

  /** The class `\w` of a JavaScript regular expression without the `u` flag. */
  predicate IsWordChar(c: char) {
    'A' <= c <= 'Z' || 'a' <= c <= 'z' || '0' <= c <= '9' || c == '_'
  }

  /** The characters that `.replace(/[^\w-]+/g, '')` keeps. */
  predicate IsWordOrHyphen(c: char) { IsWordChar(c) || c == '-' }

  /** The characters a slug is made of. */
  predicate IsSlugChar(c: char) {
    'a' <= c <= 'z' || '0' <= c <= '9' || c == '_' || c == '-'
  }

  /** KELVIN SIGN, whose lower case is the ASCII letter `k`. */
  const Kelvin: char := '\U{212A}'
  /** LATIN CAPITAL LETTER I WITH DOT ABOVE, whose lower case is `i` followed by U+0307. */
  const CapitalIDot: char := '\U{0130}'
  const CombiningDotAbove: char := '\U{0307}'

  /**
   * `toLowerCase` of one character, for the characters whose lower case
   * matters to a slug: every ASCII capital and the two non-ASCII capitals
   * whose lower case contains an ASCII letter. Every other character is
   * kept as it is; all of them are outside `[\w-]` both before and after
   * lower-casing, so the strip stage removes them either way.
   */
  function LowerChar(c: char): (r: seq<char>)
    ensures forall d | d in r :: !IsUpperAscii(d)
    ensures !IsUpperAscii(c) && c != Kelvin && c != CapitalIDot ==> r == [c]
  {
    if IsUpperAscii(c) then [(c as int + 32) as char]
    else if c == Kelvin then ['k']
    else if c == CapitalIDot then ['i', CombiningDotAbove]
    else [c]
  }

  /** `text.toLowerCase()`. */
  function ToLower(s: string): (r: string)
    ensures forall c | c in r :: !IsUpperAscii(c)
    ensures (forall c | c in s :: !IsUpperAscii(c) && c != Kelvin && c != CapitalIDot) ==> r == s
  {
    if s == [] then []
    else
      var init, last := s[..|s| - 1], s[|s| - 1];
      assert s == init + [last];
      assert forall c | c in init :: c in s;
      var r := ToLower(init) + LowerChar(last);
      assert forall c | c in r :: c in ToLower(init) || c in LowerChar(last);
      r
  }

  /** `.replace(/ /g, '-')`: each space becomes one hyphen, nothing is collapsed. */
  function ReplaceSpaces(s: string): (r: string)
    ensures |r| == |s|
    ensures forall i | 0 <= i < |s| :: r[i] == if s[i] == ' ' then '-' else s[i]
    ensures forall c | c in r :: c != ' ' && (c in s || c == '-')
  {
    if s == [] then []
    else ReplaceSpaces(s[..|s| - 1]) + [if s[|s| - 1] == ' ' then '-' else s[|s| - 1]]
  }

  /** `.replace(/[^\w-]+/g, '')`: every character outside `[\w-]` is deleted. */
  function StripNonWord(s: string): (r: string)
    ensures |r| <= |s|
    ensures forall c | c in r :: c in s && IsWordOrHyphen(c)
    ensures (forall c | c in s :: IsWordOrHyphen(c)) ==> r == s
  {
    if s == [] then []
    else
      var init, last := s[..|s| - 1], s[|s| - 1];
      assert forall c | c in init :: c in s;
      var r := StripNonWord(init);
      if IsWordOrHyphen(last) then
        assert (r + [last])[..|r|] == r;
        r + [last]
      else r
  }

  /** `slug(text)` of src/services/text.ts. */
  function Slug(text: string): (r: string)
    ensures ' ' !in r
    ensures forall c | c in r :: IsSlugChar(c)
  {
    StripNonWord(ReplaceSpaces(ToLower(text)))
  }

  /** What a single input character contributes to a slug. */
  function SlugOfChar(c: char): (r: seq<char>)
    ensures |r| <= 1
  {
    if IsUpperAscii(c) then [(c as int + 32) as char]
    else if c == Kelvin then ['k']
    else if c == CapitalIDot then ['i']
    else if c == ' ' then ['-']
    else if IsWordOrHyphen(c) then [c]
    else []
  }

  /** Reference definition: the slug assembled character by character. */
  function SlugByChar(text: string): string {
    if text == [] then [] else SlugByChar(text[..|text| - 1]) + SlugOfChar(text[|text| - 1])
  }

  lemma {:induction false} ToLowerAppend(a: string, b: string)
    ensures ToLower(a + b) == ToLower(a) + ToLower(b)
    decreases |b|
  {
    if b == [] {
      assert a + b == a;
    } else {
      var init, c := b[..|b| - 1], b[|b| - 1];
      assert b == init + [c];
      AppendAssoc(a, init, [c]);
      assert (a + init + [c])[..|a + init|] == a + init;
      assert (init + [c])[..|init|] == init;
      ToLowerAppend(a, init);
      AppendAssoc(ToLower(a), ToLower(init), LowerChar(c));
    }
  }

  lemma {:induction false} ReplaceSpacesAppend(a: string, b: string)
    ensures ReplaceSpaces(a + b) == ReplaceSpaces(a) + ReplaceSpaces(b)
  {
  }

  lemma {:induction false} StripNonWordAppend(a: string, b: string)
    ensures StripNonWord(a + b) == StripNonWord(a) + StripNonWord(b)
    decreases |b|
  {
    if b == [] {
      assert a + b == a;
    } else {
      var init, c := b[..|b| - 1], b[|b| - 1];
      assert b == init + [c];
      AppendAssoc(a, init, [c]);
      assert (a + init + [c])[..|a + init|] == a + init;
      assert (init + [c])[..|init|] == init;
      StripNonWordAppend(a, init);
      AppendAssoc(StripNonWord(a), StripNonWord(init), if IsWordOrHyphen(c) then [c] else []);
    }
  }

  /** The three-stage pipeline agrees with the character-wise reference. */
  lemma {:induction false} SlugMatchesReference(text: string)
    ensures Slug(text) == SlugByChar(text)
    decreases |text|
  {
    if text != [] {
      var init, c := text[..|text| - 1], text[|text| - 1];
      assert text == init + [c];
      SlugMatchesReference(init);
      ToLowerAppend(init, [c]);
      ReplaceSpacesAppend(ToLower(init), ToLower([c]));
      StripNonWordAppend(ReplaceSpaces(ToLower(init)), ReplaceSpaces(ToLower([c])));
      SlugOfOneChar(c);
    }
  }

  lemma ToLowerOne(c: char)
    ensures ToLower([c]) == LowerChar(c)
  {
    assert [c][..0] == [];
  }

  lemma ReplaceSpacesOne(d: char)
    ensures ReplaceSpaces([d]) == [if d == ' ' then '-' else d]
  {
  }

  lemma StripNonWordOne(e: char)
    ensures StripNonWord([e]) == if IsWordOrHyphen(e) then [e] else []
  {
    assert [e][..0] == [];
  }

  /** The pipeline applied to a single character. */
  lemma SlugOfOneChar(c: char)
    ensures StripNonWord(ReplaceSpaces(ToLower([c]))) == SlugOfChar(c)
  {
    ToLowerOne(c);
    if c == CapitalIDot {
      var l := ['i', CombiningDotAbove];
      ReplaceSpacesAppend(['i'], [CombiningDotAbove]);
      ReplaceSpacesOne('i');
      ReplaceSpacesOne(CombiningDotAbove);
      assert ReplaceSpaces(l) == l by { assert l == ['i'] + [CombiningDotAbove]; }
      StripNonWordAppend(['i'], [CombiningDotAbove]);
      StripNonWordOne('i');
      StripNonWordOne(CombiningDotAbove);
      assert l == ['i'] + [CombiningDotAbove];
    } else {
      var d := LowerChar(c)[0];
      ReplaceSpacesOne(d);
      StripNonWordOne(if d == ' ' then '-' else d);
    }
  }

  lemma {:induction false} SlugByCharAppend(a: string, b: string)
    ensures SlugByChar(a + b) == SlugByChar(a) + SlugByChar(b)
    decreases |b|
  {
    if b == [] {
      assert a + b == a;
    } else {
      var init, c := b[..|b| - 1], b[|b| - 1];
      SlugByCharAppend(a, init);
      assert b == init + [c];
      AppendAssoc(a, init, [c]);
      SlugByCharSnoc(a + init, c);
      SlugByCharSnoc(init, c);
      AppendAssoc(SlugByChar(a), SlugByChar(init), SlugOfChar(c));
    }
  }

  lemma SlugByCharSnoc(s: string, c: char)
    ensures SlugByChar(s + [c]) == SlugByChar(s) + SlugOfChar(c)
  {
    assert (s + [c])[..|s|] == s;
  }

  /** A slug of a concatenation is the concatenation of the slugs. */
  lemma SlugAppend(a: string, b: string)
    ensures Slug(a + b) == Slug(a) + Slug(b)
  {
    SlugMatchesReference(a);
    SlugMatchesReference(b);
    SlugMatchesReference(a + b);
    SlugByCharAppend(a, b);
  }

  lemma {:induction false} SlugByCharFixesSlugText(text: string)
    requires forall c | c in text :: IsSlugChar(c)
    ensures SlugByChar(text) == text
    decreases |text|
  {
    if text != [] {
      var init, c := text[..|text| - 1], text[|text| - 1];
      assert c in text;
      assert SlugOfChar(c) == [c];
      assert forall d | d in init :: d in text;
      SlugByCharFixesSlugText(init);
      assert text == init + [c];
    }
  }

  /** Text already made of slug characters is its own slug. */
  lemma SlugFixesSlugText(text: string)
    requires forall c | c in text :: IsSlugChar(c)
    ensures Slug(text) == text
  {
    SlugMatchesReference(text);
    SlugByCharFixesSlugText(text);
  }

  /** `slug(slug(t)) == slug(t)`. */
  lemma SlugIdempotent(text: string)
    ensures Slug(Slug(text)) == Slug(text)
  {
    SlugFixesSlugText(Slug(text));
  }

  /** A slug is never longer than its text. */
  lemma {:induction false} SlugNoLonger(text: string)
    ensures |Slug(text)| <= |text|
    decreases |text|
  {
    SlugMatchesReference(text);
    if text != [] {
      SlugNoLonger(text[..|text| - 1]);
      SlugMatchesReference(text[..|text| - 1]);
    }
  }

  /**
   * Spaces are not collapsed and existing hyphens are kept: the slug holds
   * one hyphen per space and per hyphen of the text.
   */
  lemma {:induction false} SlugHyphens(text: string)
    ensures Count(Slug(text), '-') == Count(text, ' ') + Count(text, '-')
    decreases |text|
  {
    SlugMatchesReference(text);
    if text != [] {
      var init, c := text[..|text| - 1], text[|text| - 1];
      SlugHyphens(init);
      SlugMatchesReference(init);
      CountAppend(SlugByChar(init), SlugOfChar(c), '-');
      SlugOfCharHyphens(c);
    }
  }

  /** One character gives a hyphen exactly when it is a space or a hyphen. */
  lemma SlugOfCharHyphens(c: char)
    ensures Count(SlugOfChar(c), '-') == if c == ' ' || c == '-' then 1 else 0
  {
    if SlugOfChar(c) != [] {
      assert SlugOfChar(c)[..0] == [];
    }
  }

  /** The reference slug of a four-character text, one character at a time. */
  lemma SlugByCharOfFour(a: char, b: char, c: char, d: char)
    ensures SlugByChar([a, b, c, d]) == SlugOfChar(a) + SlugOfChar(b) + SlugOfChar(c) + SlugOfChar(d)
  {
    assert [a][..0] == [];
    assert SlugByChar([a]) == SlugOfChar(a);
    assert [a, b][..1] == [a];
    assert SlugByChar([a, b]) == SlugOfChar(a) + SlugOfChar(b);
    assert [a, b, c][..2] == [a, b];
    assert SlugByChar([a, b, c]) == SlugOfChar(a) + SlugOfChar(b) + SlugOfChar(c);
    assert [a, b, c, d][..3] == [a, b, c];
  }

  lemma SlugByCharOfThree(a: string, b: string, c: string)
    ensures SlugByChar(a + b + c) == SlugByChar(a) + SlugByChar(b) + SlugByChar(c)
  {
    SlugByCharAppend(a, b);
    SlugByCharAppend(a + b, c);
  }

  lemma HelloWorldReference()
    ensures SlugByChar("Hello World!") == "hello-world"
  {
    HelloChunks();
    SlugByCharOfThree("Hell", "o Wo", "rld!");
    assert "Hell" + "o Wo" + "rld!" == "Hello World!";
    assert "hell" + "o-wo" + "rld" == "hello-world";
  }

  lemma HelloChunks()
    ensures SlugByChar("Hell") == "hell" && SlugByChar("o Wo") == "o-wo" && SlugByChar("rld!") == "rld"
  {
    SlugByCharOfFour('H', 'e', 'l', 'l');
    SlugByCharOfFour('o', ' ', 'W', 'o');
    SlugByCharOfFour('r', 'l', 'd', '!');
  }

  lemma TipsReference()
    ensures SlugByChar("C++ Tips") == "c-tips"
  {
    TipsChunks();
    SlugByCharAppend("C++ ", "Tips");
    assert "C++ " + "Tips" == "C++ Tips";
  }

  lemma TipsChunks()
    ensures SlugByChar("C++ ") == "c-" && SlugByChar("Tips") == "tips"
  {
    SlugByCharOfFour('C', '+', '+', ' ');
    SlugByCharOfFour('T', 'i', 'p', 's');
  }

  lemma DoubleSpaceReference()
    ensures SlugByChar("a  b") == "a--b"
  {
    SlugByCharOfFour('a', ' ', ' ', 'b');
  }

  /**
   * The cases `slug("Hello World!") == "hello-world"` and
   * `slug("C++ Tips") == "c-tips"`: punctuation disappears and each space
   * gives one hyphen, so two spaces give two; the empty text gives the
   * empty slug.
   */
  lemma SlugExamples()
    ensures Slug("Hello World!") == "hello-world"
    ensures Slug("C++ Tips") == "c-tips"
    ensures Slug("a  b") == "a--b"
    ensures Slug("") == ""
  {
    HelloWorldReference();
    TipsReference();
    DoubleSpaceReference();
    SlugMatchesReference("Hello World!");
    SlugMatchesReference("C++ Tips");
    SlugMatchesReference("a  b");
  }
}
