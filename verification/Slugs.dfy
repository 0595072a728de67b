/**
 The readable part of an article's file name. A slug is meant to be the title's alphanumeric words in
 lower case, joined by single dashes and cut to a fixed length; `SafeSlug` produces it in one pass.
 */
module Slugs {
  import opened Prefixes

  const MAX_SLUG := 64

  // ---------------------------------------------------------------- Specification

  predicate IsAlphanumeric(c: char) { '0' <= c <= '9' || 'A' <= c <= 'Z' || 'a' <= c <= 'z' }

  function Lower(c: char): char {
    if 'A' <= c <= 'Z' then c - 'A' + 'a' else c
  }

  /** The maximal alphanumeric runs of a title, in lower case. */
  function Words(title: string): (words: seq<string>)
    ensures title != "" && IsAlphanumeric(title[|title| - 1]) ==> words != []
    ensures forall i | 0 <= i < |words| :: words[i] != ""
  {
    if title == "" then []
    else
      var last := |title| - 1;
      var before := Words(title[..last]);
      if !IsAlphanumeric(title[last]) then before
      else if last > 0 && IsAlphanumeric(title[last - 1]) then
        before[..|before| - 1] + [before[|before| - 1] + [Lower(title[last])]]
      else before + [[Lower(title[last])]]
  }

  function Dashed(words: seq<string>): string {
    if words == [] then ""
    else if |words| == 1 then words[0]
    else Dashed(words[..|words| - 1]) + "-" + words[|words| - 1]
  }

  function Text(title: string): string { Dashed(Words(title)) }

  function Cut(text: string): string { if |text| <= MAX_SLUG then text else text[..MAX_SLUG] }

  function Slug(title: string): string {
    if Text(title) == "" then "article" else Cut(Text(title))
  }

  // ---------------------------------------------------------------- One more character

  predicate AfterGap(title: string) { title == "" || !IsAlphanumeric(title[|title| - 1]) }

  lemma DashedSnoc(front: seq<string>, word: string)
    ensures Dashed(front + [word]) == if front == [] then word else Dashed(front) + "-" + word
  {
    var words := front + [word];
    assert words[..|front|] == front && words[|front|] == word;
  }

  lemma JoinAgain(a: string, word: string, c: char)
    ensures a + "-" + (word + [c]) == a + "-" + word + [c]
  {
  }

  lemma DashedExtended(words: seq<string>, c: char)
    requires words != []
    ensures Dashed(words[..|words| - 1] + [words[|words| - 1] + [c]]) == Dashed(words) + [c]
  {
    var front, word := words[..|words| - 1], words[|words| - 1];
    assert words == front + [word];
    DashedSnoc(front, word);
    DashedSnoc(front, word + [c]);
    JoinAgain(Dashed(front), word, c);
  }

  lemma DashedIsEmpty(words: seq<string>)
    requires forall i | 0 <= i < |words| :: words[i] != ""
    ensures Dashed(words) == "" <==> words == []
  {
    assert words != [] ==> words[|words| - 1] != "";
  }

  lemma TextStep(title: string, c: char)
    ensures Text(title + [c]) ==
            if !IsAlphanumeric(c) then Text(title)
            else if AfterGap(title) && Text(title) != "" then Text(title) + "-" + [Lower(c)]
            else Text(title) + [Lower(c)]
  {
    var longer := title + [c];
    assert longer[..|title|] == title;
    var words := Words(title);
    DashedIsEmpty(words);
    if IsAlphanumeric(c) {
      if AfterGap(title) {
        var more := words + [[Lower(c)]];
        assert Words(longer) == more && more[..|words|] == words;
      } else {
        DashedExtended(words, Lower(c));
      }
    }
  }

  lemma {:induction false} TextGrows(title: string, i: nat)
    requires i <= |title|
    ensures Text(title[..i]) <= Text(title)
  {
    if i == |title| {
      assert title[..i] == title;
    } else {
      var last := |title| - 1;
      var before := title[..last];
      TextGrows(before, i);
      assert before[..i] == title[..i];
      TextStep(before, title[last]);
      assert title == before + [title[last]];
    }
  }

  // ---------------------------------------------------------------- The loop

  method SafeSlug(title: string) returns (slug: string)
    ensures slug == Slug(title)
  {
    slug := "";
    var separator := false;
    var i := 0;
    while i < |title| && |slug| < MAX_SLUG
      invariant i <= |title|
      invariant slug == Cut(Text(title[..i]))
      invariant separator == (title[..i] != "" && AfterGap(title[..i]))
    {
      TakeOneMore(title, i);
      slug, separator := TakeCharacter(slug, separator, title[i], title[..i]);
      i := i + 1;
    }
    TextGrows(title, i);
    CutIsFinal(Text(title[..i]), Text(title));
    TakeAll(title);
    if slug == "" {
      slug := "article";
    }
  }

  /** One turn of the loop. */
  method TakeCharacter(slug: string, separator: bool, character: char, ghost before: string)
    returns (longer: string, gap: bool)
    requires |slug| < MAX_SLUG && slug == Cut(Text(before))
    requires separator == (before != "" && AfterGap(before))
    ensures longer == Cut(Text(before + [character]))
    ensures gap == AfterGap(before + [character])
  {
    TextStep(before, character);
    longer, gap := slug, true;
    if IsAlphanumeric(character) {
      if separator && slug != "" {
        longer := longer + "-";
      }
      if |longer| < MAX_SLUG {
        longer := longer + [Lower(character)];
      }
      gap := false;
    }
  }

  // A text cut at its full length is not changed by what follows.
  lemma CutIsFinal(text: string, longer: string)
    requires text <= longer
    ensures |Cut(text)| == MAX_SLUG ==> Cut(longer) == Cut(text)
  {
  }

  // ---------------------------------------------------------------- What a slug looks like

  predicate IsSlugChar(c: char) { '0' <= c <= '9' || 'a' <= c <= 'z' || c == '-' }

  /** A safe path component: no separators, dots, capitals, leading dash or doubled dash. */
  predicate Shaped(s: string) {
    && s != "" && s[0] != '-'
    && (forall i | 0 <= i < |s| :: IsSlugChar(s[i]))
    && forall i | 0 < i < |s| :: s[i - 1] == '-' ==> s[i] != '-'
  }

  predicate EndsInDash(s: string) { s != "" && s[|s| - 1] == '-' }

  lemma ShapedExtended(s: string, c: char)
    requires IsAlphanumeric(c) && (s == "" || Shaped(s))
    ensures Shaped(s + [Lower(c)]) && !EndsInDash(s + [Lower(c)])
    ensures s != "" && !EndsInDash(s) ==> Shaped(s + "-" + [Lower(c)]) && !EndsInDash(s + "-" + [Lower(c)])
  {
  }

  lemma {:induction false} TextIsShaped(title: string)
    ensures Text(title) != "" ==> Shaped(Text(title)) && !EndsInDash(Text(title))
  {
    if title != "" {
      var last := |title| - 1;
      var before := title[..last];
      var c := title[last];
      TextIsShaped(before);
      TextStep(before, c);
      assert title == before + [c];
      if IsAlphanumeric(c) {
        ShapedExtended(Text(before), c);
      }
    }
  }

  // Every slug is a safe component of bounded length.
  lemma SlugIsSafe(title: string)
    ensures Shaped(Slug(title)) && |Slug(title)| <= MAX_SLUG
  {
    TextIsShaped(title);
  }

  // A slug ends in a dash exactly when the cut fell right after one.
  lemma SlugEndsInDash(title: string)
    ensures EndsInDash(Slug(title)) <==> |Text(title)| > MAX_SLUG && Text(title)[MAX_SLUG - 1] == '-'
    ensures EndsInDash(Slug(title)) ==> |Slug(title)| == MAX_SLUG
  {
    TextIsShaped(title);
  }

  lemma ShapedPrefix(s: string, n: nat)
    requires Shaped(s) && 0 < n <= |s|
    ensures Shaped(s[..n]) && Lower(s[n - 1]) == s[n - 1]
    ensures EndsInDash(s[..n]) <==> AfterGap(s[..n])
    ensures EndsInDash(s[..n]) ==> n > 1 && s[n - 2] != '-'
  {
  }

  lemma {:induction false} TextOfShaped(s: string)
    requires Shaped(s)
    ensures Text(s) == if EndsInDash(s) then s[..|s| - 1] else s
  {
    var last := |s| - 1;
    var before := s[..last];
    var c := s[last];
    assert s == before + [c];
    TextStep(before, c);
    ShapedPrefix(s, |s|);
    assert s[..|s|] == s;
    if last > 0 {
      ShapedPrefix(s, last);
      TextOfShaped(before);
      if EndsInDash(before) {
        assert before == before[..last - 1] + "-";
      }
    }
  }

  // Slugging a slug again keeps it, except that a trailing dash is lost.
  lemma SlugOfSlug(title: string)
    ensures Slug(Slug(title)) == Slug(title) <==> !EndsInDash(Slug(title))
  {
    SlugIsSafe(title);
    TextOfShaped(Slug(title));
  }

  // ---------------------------------------------------------------- What a slug keeps

  const CAPITALS := "ABCDEFGHIJKLMNOPQRSTUVWXYZ"
  const SMALL := "abcdefghijklmnopqrstuvwxyz"

  /** The letters and digits of a text, in order, capitals as small letters. */
  function Kept(text: string): string {
    if text == "" then ""
    else
      var last := text[|text| - 1];
      var before := Kept(text[..|text| - 1]);
      if '0' <= last <= '9' || 'a' <= last <= 'z' then before + [last]
      else if 'A' <= last <= 'Z' then before + [SMALL[last as int - 'A' as int]]
      else before
  }

  lemma SmallOfCapital(i: nat)
    requires i < 26
    ensures |SMALL| == |CAPITALS| == 26 && CAPITALS[i] == 'A' + i as char && SMALL[i] == Lower(CAPITALS[i])
  {
  }

  lemma KeptOneMore(text: string, c: char)
    ensures Kept(text + [c]) == if IsAlphanumeric(c) then Kept(text) + [Lower(c)] else Kept(text)
  {
    assert (text + [c])[..|text|] == text;
    if 'A' <= c <= 'Z' {
      SmallOfCapital(c as int - 'A' as int);
    }
  }

  // The words joined by dashes spell exactly the letters and digits of the title.
  lemma {:induction false} TextKeepsLetters(title: string)
    ensures Kept(Text(title)) == Kept(title)
  {
    if title != "" {
      var before, c := title[..|title| - 1], title[|title| - 1];
      assert title == before + [c];
      TextKeepsLetters(before);
      TextStep(before, c);
      KeptOneMore(before, c);
      if IsAlphanumeric(c) {
        KeptOneMore(Text(before), '-');
        assert Text(before) + "-" + [Lower(c)] == (Text(before) + ['-']) + [Lower(c)];
        KeptOneMore(Text(before), Lower(c));
        KeptOneMore(Text(before) + ['-'], Lower(c));
      }
    }
  }

  // A slug spells the letters and digits of the title from the first on, all of them unless it is cut.
  lemma SlugKeepsLetters(title: string)
    ensures Kept(title) != "" ==> Kept(Slug(title)) <= Kept(title)
    ensures Kept(title) != "" && |Slug(title)| < 64 ==> Kept(Slug(title)) == Kept(title)
    ensures Kept(title) == "" ==> Slug(title) == "article"
  {
    TextKeepsLetters(title);
    TextIsShaped(title);
    if Text(title) != "" {
      KeptGrows(Text(title), |Cut(Text(title))|);
      FirstIsKept(Text(title));
    }
  }

  lemma {:induction false} KeptGrows(text: string, n: nat)
    requires n <= |text|
    ensures Kept(text[..n]) <= Kept(text)
    ensures text[..|text|] == text
  {
    assert text[..|text|] == text;
    if n < |text| {
      var before, c := text[..|text| - 1], text[|text| - 1];
      KeptGrows(before, n);
      assert before[..n] == text[..n] && text == before + [c];
      KeptOneMore(before, c);
    }
  }

  lemma FirstIsKept(text: string)
    requires text != "" && IsAlphanumeric(text[0])
    ensures Kept(text) != ""
  {
    KeptOneMore("", text[0]);
    KeptGrows(text, 1);
    assert text[..1] == "" + [text[0]];
  }
}
