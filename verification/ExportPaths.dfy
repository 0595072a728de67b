/**
 The file names inside an export. An article is named after its page and slug; when that name is taken,
 the wiki's number is added. Captured media are named after their content.
 */
module ExportPaths {
  import opened Names
  import opened Slugs
  import opened Wrappers

  /** A selected page; the selection holds each (wiki, id) once. */
  datatype Page = Page(wiki: nat, id: nat, title: string)

  ghost predicate DistinctKeys(pages: seq<Page>) {
    forall i, j | 0 <= i < j < |pages| :: pages[i].wiki != pages[j].wiki || pages[i].id != pages[j].id
  }

  // ---------------------------------------------------------------- First of two names

  /** The name to use for an article, and the one to use if that is taken. */
  datatype Choice = Choice(plain: string, qualified: string)

  /** The names given so far, in order and as a set. */
  datatype Naming = Naming(names: seq<string>, used: set<string>)
  {
    function Add(name: string): Naming { Naming(names + [name], used + {name}) }
  }

  /** The names given in order, unless someone finds both choices taken. */
  function Assign(choices: seq<Choice>): (r: Option<Naming>)
    ensures r.Some? ==> |r.value.names| == |choices|
  {
    if choices == [] then Some(Naming([], {}))
    else
      var last := choices[|choices| - 1];
      var earlier := Assign(choices[..|choices| - 1]);
      if earlier.None? then None
      else if last.plain !in earlier.value.used then Some(earlier.value.Add(last.plain))
      else if last.qualified !in earlier.value.used then Some(earlier.value.Add(last.qualified))
      else None
  }

  /** The plain name was given before: to someone with the same plain name, or to someone who had to take
      a qualified name that reads the same. */
  ghost predicate Taken(choices: seq<Choice>, k: nat)
    requires k < |choices|
    decreases k
  {
    exists i: nat | i < k :: TakenBy(choices[i], Taken(choices, i), choices[k])
  }

  predicate TakenBy(earlier: Choice, qualified: bool, choice: Choice) {
    earlier.plain == choice.plain || (qualified && earlier.qualified == choice.plain)
  }

  /** An earlier plain name is this qualified name. */
  ghost predicate Blocked(choices: seq<Choice>, k: nat)
    requires k < |choices|
  {
    exists j: nat | j < k :: BlockedBy(choices, j, k)
  }

  predicate BlockedBy(choices: seq<Choice>, j: nat, k: nat)
    requires j < k < |choices|
  {
    choices[j].plain == choices[k].qualified
  }

  ghost predicate Stuck(choices: seq<Choice>, k: nat)
    requires k < |choices|
  {
    Taken(choices, k) && Blocked(choices, k)
  }

  ghost predicate DistinctQualified(choices: seq<Choice>) {
    forall i, j | 0 <= i < j < |choices| :: choices[i].qualified != choices[j].qualified
  }

  /** The name given to k: qualified exactly where the plain name was taken. */
  ghost function NameOf(choices: seq<Choice>, k: nat): string
    requires k < |choices|
  {
    if Taken(choices, k) then choices[k].qualified else choices[k].plain
  }

  /** Names as they are given to the first choices. */
  ghost predicate Assigned(choices: seq<Choice>, naming: Naming) {
    && |naming.names| <= |choices|
    && (forall j: nat | j < |naming.names| :: naming.names[j] == NameOf(choices, j))
    && (forall j: nat | j < |naming.names| :: naming.names[j] in naming.used)
    && (forall j: nat | j < |naming.names| :: choices[j].plain in naming.used)
    && (forall name <- naming.used :: name in naming.names)
  }

  lemma PlainIsUsed(choices: seq<Choice>, naming: Naming, k: nat)
    requires Assigned(choices, naming) && k == |naming.names| < |choices|
    ensures choices[k].plain in naming.used <==> Taken(choices, k)
  {
    if choices[k].plain in naming.used {
      var i: nat :| i < k && naming.names[i] == choices[k].plain;
      assert TakenBy(choices[i], Taken(choices, i), choices[k]);
    }
    if Taken(choices, k) {
      var i: nat :| i < k && TakenBy(choices[i], Taken(choices, i), choices[k]);
      assert naming.names[i] == NameOf(choices, i);
    }
  }

  lemma QualifiedIsUsed(choices: seq<Choice>, naming: Naming, k: nat)
    requires Assigned(choices, naming) && DistinctQualified(choices) && k == |naming.names| < |choices|
    ensures choices[k].qualified in naming.used <==> Blocked(choices, k)
  {
    if choices[k].qualified in naming.used {
      var j: nat :| j < k && naming.names[j] == choices[k].qualified;
      assert BlockedBy(choices, j, k);
    }
  }

  lemma {:induction false} StuckInPrefix(choices: seq<Choice>, n: nat, k: nat)
    requires k < n <= |choices|
    ensures Taken(choices[..n], k) == Taken(choices, k)
    ensures Blocked(choices[..n], k) == Blocked(choices, k)
    decreases k
  {
    forall i: nat | i < k
      ensures Taken(choices[..n], i) == Taken(choices, i) && choices[..n][i] == choices[i]
      ensures BlockedBy(choices[..n], i, k) == BlockedBy(choices, i, k)
    {
      StuckInPrefix(choices, n, i);
    }
  }

  lemma AssignedInPrefix(choices: seq<Choice>, n: nat, naming: Naming)
    requires |naming.names| <= n <= |choices| && Assigned(choices[..n], naming)
    ensures Assigned(choices, naming)
  {
    forall j: nat | j < |naming.names|
      ensures naming.names[j] == NameOf(choices, j) && choices[j] == choices[..n][j]
    {
      StuckInPrefix(choices, n, j);
    }
  }

  lemma AssignedExtended(choices: seq<Choice>, naming: Naming, k: nat)
    requires Assigned(choices, naming) && k == |naming.names| < |choices|
    requires Taken(choices, k) ==> choices[k].plain in naming.used
    ensures Assigned(choices, naming.Add(NameOf(choices, k)))
  {
    var longer := naming.Add(NameOf(choices, k));
    forall name <- longer.used
      ensures name in longer.names
    {
      assert longer.names[k] == NameOf(choices, k);
    }
  }

  lemma {:induction false} AssignGivesNames(choices: seq<Choice>)
    requires Assign(choices).Some?
    ensures Assigned(choices, Assign(choices).value)
  {
    if choices != [] {
      var last := |choices| - 1;
      var earlier := Assign(choices[..last]).value;
      AssignGivesNames(choices[..last]);
      AssignedInPrefix(choices, last, earlier);
      PlainIsUsed(choices, earlier, last);
      AssignedExtended(choices, earlier, last);
    }
  }

  lemma AssignLast(choices: seq<Choice>)
    requires DistinctQualified(choices) && choices != [] && Assign(choices[..|choices| - 1]).Some?
    ensures Assign(choices).None? <==> Stuck(choices, |choices| - 1)
  {
    var last := |choices| - 1;
    var earlier := Assign(choices[..last]).value;
    AssignGivesNames(choices[..last]);
    AssignedInPrefix(choices, last, earlier);
    PlainIsUsed(choices, earlier, last);
    QualifiedIsUsed(choices, earlier, last);
  }

  // Naming fails exactly when someone's plain name is taken and an earlier plain name is their
  // qualified name.
  lemma {:induction false} AssignFailsExactly(choices: seq<Choice>)
    requires DistinctQualified(choices)
    ensures Assign(choices).None? <==> exists k: nat | k < |choices| :: Stuck(choices, k)
  {
    if choices != [] {
      var last := |choices| - 1;
      var before := choices[..last];
      AssignFailsExactly(before);
      forall k: nat | k < last
        ensures Stuck(before, k) == Stuck(choices, k)
      {
        StuckInPrefix(choices, last, k);
      }
      if Assign(before).Some? {
        AssignLast(choices);
      }
    }
  }

  lemma {:induction false} NamesAreUsed(choices: seq<Choice>)
    requires Assign(choices).Some?
    ensures forall j | 0 <= j < |choices| :: Assign(choices).value.names[j] in Assign(choices).value.used
  {
    if choices != [] {
      NamesAreUsed(choices[..|choices| - 1]);
    }
  }

  // Assigned names are pairwise distinct.
  lemma {:induction false} NamesAreDistinct(choices: seq<Choice>, i: nat, j: nat)
    requires Assign(choices).Some? && i < j < |choices|
    ensures Assign(choices).value.names[i] != Assign(choices).value.names[j]
  {
    var last := |choices| - 1;
    if j < last {
      NamesAreDistinct(choices[..last], i, j);
    } else {
      NamesAreUsed(choices[..last]);
    }
  }

  // ---------------------------------------------------------------- Articles

  function Plain(page: Page): string { NatText(page.id) + "-" + Slug(page.title) }

  function Suffix(wiki: nat): string { "-wiki-" + NatText(wiki) }

  function Qualified(page: Page): string { Plain(page) + Suffix(page.wiki) }

  function Choices(pages: seq<Page>): seq<Choice> {
    seq(|pages|, i requires 0 <= i < |pages| => Choice(Plain(pages[i]), Qualified(pages[i])))
  }

  function ArticlePath(stem: string, extension: string): string { "articles/" + stem + "." + extension }

  predicate IsComponent(s: string) {
    s != "" && s[0] != '-' && forall i | 0 <= i < |s| :: IsSlugChar(s[i])
  }

  // Both names are single, safe path components.
  lemma StemIsComponent(page: Page)
    ensures IsComponent(Plain(page)) && IsComponent(Qualified(page))
  {
    SlugIsSafe(page.title);
    DigitsAreSlugChars(page.id);
    DigitsAreSlugChars(page.wiki);
  }

  lemma DigitsAreSlugChars(n: nat)
    ensures forall i | 0 <= i < |NatText(n)| :: IsSlugChar(NatText(n)[i]) && NatText(n)[i] != '-'
    ensures '-' !in NatText(n)
  {
    forall i | 0 <= i < |NatText(n)|
      ensures IsDecimalDigit(NatText(n)[i])
    {
      assert NatText(n)[i] in NatText(n);
    }
  }

  lemma StemsMatch(p: nat, a: string, q: nat, b: string)
    ensures NatText(p) + "-" + a == NatText(q) + "-" + b <==> p == q && a == b
  {
    DigitsAreSlugChars(p);
    DigitsAreSlugChars(q);
    if NatText(p) + "-" + a == NatText(q) + "-" + b {
      FirstPartIsUnique(NatText(p), a, NatText(q), b, '-');
      NatTextIsInjective(p, q);
    }
  }

  lemma QualifiedIsPlain(p: Page, q: Page)
    ensures Qualified(p) == Plain(q) <==> p.id == q.id && Slug(p.title) + Suffix(p.wiki) == Slug(q.title)
  {
    StemsMatch(p.id, Slug(p.title) + Suffix(p.wiki), q.id, Slug(q.title));
    assert Qualified(p) == NatText(p.id) + "-" + (Slug(p.title) + Suffix(p.wiki));
  }

  lemma SuffixedMatch(a: string, v: nat, b: string, w: nat)
    requires a + Suffix(v) == b + Suffix(w)
    ensures a == b && v == w
  {
    DigitsAreSlugChars(v);
    DigitsAreSlugChars(w);
    assert a + Suffix(v) == (a + "-wiki") + "-" + NatText(v);
    assert b + Suffix(w) == (b + "-wiki") + "-" + NatText(w);
    LastPartIsUnique(a + "-wiki", NatText(v), b + "-wiki", NatText(w), '-');
    NatTextIsInjective(v, w);
    assert a == (a + "-wiki")[..|a|] && b == (b + "-wiki")[..|b|];
  }

  // Qualified names of distinct pages never coincide.
  lemma QualifiedNamesAreDistinct(pages: seq<Page>)
    requires DistinctKeys(pages)
    ensures DistinctQualified(Choices(pages))
  {
    forall i, j | 0 <= i < j < |pages|
      ensures Qualified(pages[i]) != Qualified(pages[j])
    {
      if Qualified(pages[i]) == Qualified(pages[j]) {
        SuffixedMatch(Plain(pages[i]), pages[i].wiki, Plain(pages[j]), pages[j].wiki);
        StemsMatch(pages[i].id, Slug(pages[i].title), pages[j].id, Slug(pages[j].title));
      }
    }
  }

  // ---------------------------------------------------------------- Collisions, in terms of titles

  /** An earlier page of the same number has this slug, or has it once its wiki is added because its own
      slug was repeated. */
  ghost predicate RepeatsSlug(pages: seq<Page>, k: nat)
    requires k < |pages|
    decreases k
  {
    exists i: nat | i < k :: RepeatsSlugOf(pages[i], RepeatsSlug(pages, i), pages[k])
  }

  predicate RepeatsSlugOf(earlier: Page, qualified: bool, page: Page) {
    earlier.id == page.id
    && (Slug(earlier.title) == Slug(page.title)
        || (qualified && Slug(earlier.title) + Suffix(earlier.wiki) == Slug(page.title)))
  }

  /** An earlier title of the same number already spells this slug and this wiki. */
  ghost predicate SpeltBefore(pages: seq<Page>, k: nat)
    requires k < |pages|
  {
    exists j: nat | j < k :: SpeltBy(pages, j, k)
  }

  predicate SpeltBy(pages: seq<Page>, j: nat, k: nat)
    requires j < k < |pages|
  {
    pages[j].id == pages[k].id && Slug(pages[j].title) == Slug(pages[k].title) + Suffix(pages[k].wiki)
  }

  lemma {:induction false} TakenIsRepeated(pages: seq<Page>, k: nat)
    requires k < |pages|
    ensures Taken(Choices(pages), k) == RepeatsSlug(pages, k)
    decreases k
  {
    forall i: nat | i < k
      ensures TakenBy(Choices(pages)[i], Taken(Choices(pages), i), Choices(pages)[k]) ==
              RepeatsSlugOf(pages[i], RepeatsSlug(pages, i), pages[k])
    {
      StemsMatch(pages[i].id, Slug(pages[i].title), pages[k].id, Slug(pages[k].title));
      QualifiedIsPlain(pages[i], pages[k]);
      TakenIsRepeated(pages, i);
    }
  }

  lemma BlockedIsSpelt(pages: seq<Page>, k: nat)
    requires k < |pages|
    ensures Blocked(Choices(pages), k) == SpeltBefore(pages, k)
  {
    forall j: nat | j < k
      ensures BlockedBy(Choices(pages), j, k) == SpeltBy(pages, j, k)
    {
      QualifiedIsPlain(pages[k], pages[j]);
    }
  }

  ghost predicate Collides(pages: seq<Page>, k: nat)
    requires k < |pages|
  {
    RepeatsSlug(pages, k) && SpeltBefore(pages, k)
  }

  // An export cannot name its articles exactly when some page repeats a slug of its number and an
  // earlier title of that number already spells the page's slug and wiki.
  lemma NamingFailsExactly(pages: seq<Page>)
    requires DistinctKeys(pages)
    ensures Assign(Choices(pages)).None? <==> exists k: nat | k < |pages| :: Collides(pages, k)
  {
    QualifiedNamesAreDistinct(pages);
    AssignFailsExactly(Choices(pages));
    forall k: nat | k < |pages|
      ensures Stuck(Choices(pages), k) == Collides(pages, k)
    {
      TakenIsRepeated(pages, k);
      BlockedIsSpelt(pages, k);
    }
  }

  // Within one wiki naming never fails, and every article keeps its plain name.
  lemma OneWikiNeverCollides(pages: seq<Page>)
    requires DistinctKeys(pages) && forall i, j | 0 <= i < j < |pages| :: pages[i].wiki == pages[j].wiki
    ensures Assign(Choices(pages)).Some?
    ensures forall i: nat | i < |pages| :: Assign(Choices(pages)).value.names[i] == Plain(pages[i])
  {
    NamingFailsExactly(pages);
    forall k: nat | k < |pages|
      ensures !RepeatsSlug(pages, k)
    {
      assert forall i: nat | i < k :: pages[i].id != pages[k].id;
    }
    AssignGivesNames(Choices(pages));
    forall i: nat | i < |pages|
      ensures Assign(Choices(pages)).value.names[i] == Plain(pages[i])
    {
      TakenIsRepeated(pages, i);
    }
  }

  lemma CollisionOfThree(pages: seq<Page>)
    requires |pages| == 3 && DistinctKeys(pages) && pages[0].id == pages[1].id == pages[2].id
    requires Slug(pages[0].title) == Slug(pages[2].title)
    requires Slug(pages[1].title) == Slug(pages[2].title) + Suffix(pages[2].wiki)
    ensures Assign(Choices(pages)).None?
  {
    assert RepeatsSlugOf(pages[0], RepeatsSlug(pages, 0), pages[2]) && SpeltBy(pages, 1, 2);
    NamingFailsExactly(pages);
    assert Collides(pages, 2);
  }

  lemma ShortSlugIsKept(title: string)
    requires Shaped(title) && !EndsInDash(title) && |title| <= MAX_SLUG
    ensures Slug(title) == title
  {
    TextOfShaped(title);
  }

  lemma SpeltSlugIsKept(title: string, wiki: nat)
    requires Shaped(title) && !EndsInDash(title) && |title + Suffix(wiki)| <= MAX_SLUG
    ensures Slug(title + Suffix(wiki)) == title + Suffix(wiki)
  {
    DigitsAreSlugChars(wiki);
    ShortSlugIsKept(title + Suffix(wiki));
  }

  // Naming does fail: page 5 of three wikis, titled "a", "a-wiki-3" and "a".
  lemma NamingCanFail() returns (pages: seq<Page>)
    ensures pages == [Page(1, 5, "a"), Page(2, 5, "a" + "-wiki-" + "3"), Page(3, 5, "a")]
    ensures DistinctKeys(pages) && Assign(Choices(pages)).None?
  {
    var title := "a";
    assert NatText(3) == "3";
    ShortSlugIsKept(title);
    SpeltSlugIsKept(title, 3);
    pages := [Page(1, 5, title), Page(2, 5, title + Suffix(3)), Page(3, 5, title)];
    CollisionOfThree(pages);
    assert title + Suffix(3) == title + "-wiki-" + "3";
  }

  // ---------------------------------------------------------------- Media

  const DIGEST_LENGTH := 32

  type Digest = digest: seq<byte> | |digest| == DIGEST_LENGTH witness seq(DIGEST_LENGTH, _ => 0)

  /** The identity of captured content; its text is "b3:" and the digest in hexadecimal. */
  datatype ObjectId = ObjectId(digest: Digest)

  datatype Mime = Jpeg | Png

  function HexDigit(d: nat): (c: char)
    requires d < 16
    ensures IsSlugChar(c) && c != '-'
  {
    if d < 10 then '0' + d as char else 'a' + (d - 10) as char
  }

  function Hex(bytes: seq<byte>): (text: string)
    ensures |text| == 2 * |bytes|
    ensures forall i | 0 <= i < |text| :: IsSlugChar(text[i]) && text[i] != '-'
  {
    if bytes == [] then "" else [HexDigit(bytes[0] / 16), HexDigit(bytes[0] % 16)] + Hex(bytes[1..])
  }

  function ObjectText(id: ObjectId): string { "b3:" + Hex(id.digest) }

  function Replaced(text: string, from: char, to: char): (r: string)
    ensures |r| == |text| && forall i | 0 <= i < |r| :: r[i] == if text[i] == from then to else text[i]
  {
    if text == "" then ""
    else [if text[0] == from then to else text[0]] + Replaced(text[1..], from, to)
  }

  function Extension(mime: Mime): string { if mime.Jpeg? then "jpg" else "png" }

  function MediaPath(id: ObjectId, mime: Mime): string {
    "media/" + Replaced(ObjectText(id), ':', '-') + "." + Extension(mime)
  }

  lemma {:induction false} HexIsInjective(a: seq<byte>, b: seq<byte>)
    requires |a| == |b| && Hex(a) == Hex(b)
    ensures a == b
  {
    if a != [] {
      assert Hex(a)[0] == HexDigit(a[0] / 16) && Hex(b)[0] == HexDigit(b[0] / 16);
      assert Hex(a)[1] == HexDigit(a[0] % 16) && Hex(b)[1] == HexDigit(b[0] % 16);
      assert a[0] == b[0];
      assert Hex(a)[2..] == Hex(a[1..]) && Hex(b)[2..] == Hex(b[1..]);
      HexIsInjective(a[1..], b[1..]);
    }
  }

  lemma ReplacedText(id: ObjectId)
    ensures Replaced(ObjectText(id), ':', '-') == "b3-" + Hex(id.digest)
  {
    assert ObjectText(id)[3..] == Hex(id.digest);
  }

  lemma SameMiddle(before: string, a: string, b: string, x: string, y: string)
    requires |a| == |b| && before + a + x == before + b + y
    ensures a == b && x == y
  {
    var whole := before + a + x;
    assert a == whole[|before|..|before| + |a|] == b;
    assert x == whole[|before| + |a|..] == y;
  }

  // Different objects, or different types, never share a media path.
  lemma MediaPathsAreDistinct(a: ObjectId, b: ObjectId, m: Mime, n: Mime)
    requires MediaPath(a, m) == MediaPath(b, n)
    ensures a == b && m == n
  {
    var x := Replaced(ObjectText(a), ':', '-');
    var y := Replaced(ObjectText(b), ':', '-');
    assert MediaPath(a, m) == "media/" + x + ("." + Extension(m));
    assert MediaPath(b, n) == "media/" + y + ("." + Extension(n));
    SameMiddle("media/", x, y, "." + Extension(m), "." + Extension(n));
    ReplacedText(a);
    ReplacedText(b);
    SameMiddle("b3-", Hex(a.digest), Hex(b.digest), "", "");
    HexIsInjective(a.digest, b.digest);
    assert ("." + Extension(m))[1] == ("." + Extension(n))[1];
  }
}
