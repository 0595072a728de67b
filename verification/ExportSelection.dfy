/**
 Selecting what an export holds: one article for each selected page that has a revision, a path for each
 article, and one path for each captured object however often it is placed.
 */
module ExportSelection {
  import opened ExportPaths
  import opened Slugs
  import opened Names
  import opened Prefixes
  import opened Wrappers

  const MAX_EXPORT_ARTICLES := 10_000
  const MAX_THUMBNAILS_PER_REVISION := 256
  const MAX_EXPORT_CANONICAL_BYTES := 512 * 1024 * 1024
  const MAX_EXPORT_MEDIA_PLACEMENTS := MAX_EXPORT_ARTICLES * MAX_THUMBNAILS_PER_REVISION

  datatype Revision = Revision(id: nat, page: nat, size: nat)

  /** A captured image where one revision places it. */
  datatype Stored = Stored(content: ObjectId, mime: Mime, placement: nat)

  /** The library's answers; `revisionOf` is the current revision or the one at the cutoff. */
  datatype Library = Library(revisionOf: Page -> Result<Option<Revision>, string>,
                             wikis: Result<map<nat, string>, string>,
                             isSafeEndpoint: string -> bool, mediaOf: (nat, nat) -> Result<seq<Stored>, string>)

  datatype Placed = Placed(stored: Stored, path: string)

  datatype Article = Article(page: Page, revision: Revision, path: string, media: seq<Placed>)

  datatype Selection = Selection(articles: seq<Article>, uncaptured: nat, canonicalBytes: nat)

  // ---------------------------------------------------------------- Specification

  predicate HasRevision(library: Library, page: Page) {
    library.revisionOf(page).Ok? && library.revisionOf(page).value.Some?
  }

  function RevisionOf(library: Library, page: Page): Revision
    requires HasRevision(library, page)
  {
    library.revisionOf(page).value.value
  }

  predicate HasMedia(library: Library, page: Page)
    requires HasRevision(library, page)
  {
    library.mediaOf(page.wiki, RevisionOf(library, page).id).Ok?
  }

  predicate HasSafeWiki(library: Library, wiki: nat) {
    library.wikis.Ok? && wiki in library.wikis.value && library.isSafeEndpoint(library.wikis.value[wiki])
  }

  /** Nothing the library says about the page is corrupt or unsafe. */
  predicate Sound(library: Library, page: Page) {
    && library.revisionOf(page).Ok?
    && (HasRevision(library, page) ==>
          && RevisionOf(library, page).page == page.id
          && HasSafeWiki(library, page.wiki)
          && HasMedia(library, page))
  }

  function Captured(library: Library, pages: seq<Page>): (captured: seq<Page>)
    ensures |captured| <= |pages| && forall k | 0 <= k < |captured| :: HasRevision(library, captured[k])
  {
    if pages == [] then []
    else
      var earlier := Captured(library, pages[..|pages| - 1]);
      var last := pages[|pages| - 1];
      if HasRevision(library, last) then earlier + [last] else earlier
  }

  function SizeOf(library: Library, page: Page): nat {
    if HasRevision(library, page) then RevisionOf(library, page).size else 0
  }

  function MediaOf(library: Library, page: Page): seq<Stored> {
    if HasRevision(library, page) && HasMedia(library, page)
    then library.mediaOf(page.wiki, RevisionOf(library, page).id).value else []
  }

  function Bytes(library: Library, pages: seq<Page>): nat {
    if pages == [] then 0
    else Bytes(library, pages[..|pages| - 1]) + SizeOf(library, pages[|pages| - 1])
  }

  function Placements(library: Library, pages: seq<Page>): seq<Stored> {
    if pages == [] then []
    else Placements(library, pages[..|pages| - 1]) + MediaOf(library, pages[|pages| - 1])
  }

  /** When the selection can be exported. */
  ghost predicate Exportable(library: Library, pages: seq<Page>) {
    && |pages| <= MAX_EXPORT_ARTICLES && library.wikis.Ok?
    && (forall i | 0 <= i < |pages| :: Sound(library, pages[i]))
    && Bytes(library, pages) <= MAX_EXPORT_CANONICAL_BYTES
    && |Placements(library, pages)| <= MAX_EXPORT_MEDIA_PLACEMENTS
    && Assign(Choices(Captured(library, pages))).Some?
  }

  ghost predicate Seen(placements: seq<Stored>, id: ObjectId) {
    exists i | 0 <= i < |placements| :: placements[i].content == id
  }

  /** The placement that names an object's file. */
  ghost function FirstOf(placements: seq<Stored>, id: ObjectId): (first: Stored)
    requires Seen(placements, id)
    ensures first.content == id
  {
    if placements[0].content == id then placements[0] else FirstOf(placements[1..], id)
  }

  ghost function PathOf(placements: seq<Stored>, id: ObjectId): string
    requires Seen(placements, id)
  {
    MediaPath(id, FirstOf(placements, id).mime)
  }

  /** A map from objects to the paths of their first placements. */
  ghost predicate NamesObjects(paths: map<ObjectId, string>, placements: seq<Stored>) {
    && (forall id: ObjectId :: id in paths <==> Seen(placements, id))
    && (forall id: ObjectId | id in paths :: paths[id] == PathOf(placements, id))
  }

  /** Each placement, in order, with its object's path. */
  ghost predicate PlacedAt(media: seq<Placed>, stored: seq<Stored>, paths: map<ObjectId, string>) {
    && |media| == |stored|
    && forall m | 0 <= m < |media| ::
         media[m].stored == stored[m] && stored[m].content in paths && media[m].path == paths[stored[m].content]
  }

  ghost predicate ArticleFor(article: Article, library: Library, page: Page, name: string, extension: string,
                             paths: map<ObjectId, string>)
    requires HasRevision(library, page)
  {
    && article.page == page && article.revision == RevisionOf(library, page)
    && article.path == ArticlePath(name, extension)
    && PlacedAt(article.media, MediaOf(library, page), paths)
  }

  ghost predicate ArticlesFor(articles: seq<Article>, library: Library, captured: seq<Page>, names: seq<string>,
                              extension: string, paths: map<ObjectId, string>)
    requires forall k | 0 <= k < |captured| :: HasRevision(library, captured[k])
  {
    && |articles| == |captured| == |names|
    && forall k | 0 <= k < |articles| :: ArticleFor(articles[k], library, captured[k], names[k], extension, paths)
  }

  /** The selection holds exactly the captured pages, under their names, with exact totals. */
  ghost predicate Faithful(s: Selection, library: Library, pages: seq<Page>, extension: string,
                           paths: map<ObjectId, string>) {
    var captured := Captured(library, pages);
    var naming := Assign(Choices(captured));
    && naming.Some? && ArticlesFor(s.articles, library, captured, naming.value.names, extension, paths)
    && NamesObjects(paths, Placements(library, pages))
    && s.uncaptured + |s.articles| == |pages|
    && s.canonicalBytes == Bytes(library, pages)
  }

  // ---------------------------------------------------------------- Growing prefixes

  lemma FirstOfExtended(placements: seq<Stored>, next: Stored, id: ObjectId)
    requires Seen(placements + [next], id)
    ensures !Seen(placements, id) ==> id == next.content && FirstOf(placements + [next], id) == next
    ensures Seen(placements, id) ==> FirstOf(placements + [next], id) == FirstOf(placements, id)
  {
    var longer := placements + [next];
    if placements != [] && placements[0].content != id {
      assert longer[1..] == placements[1..] + [next];
      assert placements == [placements[0]] + placements[1..];
      assert Seen(placements, id) <==> Seen(placements[1..], id) by {
        if Seen(placements, id) {
          var i :| 0 <= i < |placements| && placements[i].content == id;
          assert placements[1..][i - 1].content == id;
        }
      }
      FirstOfExtended(placements[1..], next, id);
    } else if placements == [] {
      assert longer == [next];
    } else {
      assert longer[0] == placements[0];
    }
  }

  lemma NamesOneMore(paths: map<ObjectId, string>, placements: seq<Stored>, next: Stored)
    requires NamesObjects(paths, placements)
    ensures next.content in paths ==> NamesObjects(paths, placements + [next])
    ensures next.content !in paths ==>
              NamesObjects(paths[next.content := MediaPath(next.content, next.mime)], placements + [next])
  {
    var longer := placements + [next];
    forall id: ObjectId
      ensures Seen(longer, id) <==> Seen(placements, id) || id == next.content
      ensures Seen(longer, id) && Seen(placements, id) ==> PathOf(longer, id) == PathOf(placements, id)
      ensures Seen(longer, id) && !Seen(placements, id) ==> PathOf(longer, id) == MediaPath(next.content, next.mime)
    {
      if Seen(placements, id) {
        var i :| 0 <= i < |placements| && placements[i].content == id;
        assert longer[i].content == id;
      }
      assert longer[|placements|] == next;
      if Seen(longer, id) {
        FirstOfExtended(placements, next, id);
      }
    }
  }

  lemma ChoicesExtended(pages: seq<Page>, page: Page)
    ensures Choices(pages + [page]) == Choices(pages) + [Choice(Plain(page), Qualified(page))]
    ensures Choices(pages + [page])[..|pages|] == Choices(pages)
  {
    assert Choices(pages + [page]) == Choices(pages) + [Choice(Plain(page), Qualified(page))];
  }

  // ---------------------------------------------------------------- The selection loop

  /** The loop's variables. */
  datatype Progress = Progress(articles: seq<Article>, uncaptured: nat, canonicalBytes: nat, used: set<string>,
                               paths: map<ObjectId, string>, placementCount: nat)

  /** Their values once the pages of `part` have been dealt with. */
  ghost predicate Reached(p: Progress, library: Library, part: seq<Page>, extension: string) {
    var captured := Captured(library, part);
    var naming := Assign(Choices(captured));
    && p.canonicalBytes == Bytes(library, part) <= MAX_EXPORT_CANONICAL_BYTES
    && p.placementCount == |Placements(library, part)| <= MAX_EXPORT_MEDIA_PLACEMENTS
    && p.uncaptured + |p.articles| == |part|
    && naming.Some? && p.used == naming.value.used
    && ArticlesFor(p.articles, library, captured, naming.value.names, extension, p.paths)
    && NamesObjects(p.paths, Placements(library, part))
  }

  /** The selection up to `part` keeps within the limits and can be named. */
  ghost predicate Permissible(library: Library, part: seq<Page>) {
    && Bytes(library, part) <= MAX_EXPORT_CANONICAL_BYTES
    && |Placements(library, part)| <= MAX_EXPORT_MEDIA_PLACEMENTS
    && Assign(Choices(Captured(library, part))).Some?
  }

  lemma SkippedPage(library: Library, part: seq<Page>, page: Page)
    requires !HasRevision(library, page)
    ensures Captured(library, part + [page]) == Captured(library, part)
    ensures Bytes(library, part + [page]) == Bytes(library, part)
    ensures Placements(library, part + [page]) == Placements(library, part)
  {
    assert (part + [page])[..|part|] == part;
  }

  lemma CapturedPage(library: Library, part: seq<Page>, page: Page)
    requires HasRevision(library, page)
    ensures Captured(library, part + [page]) == Captured(library, part) + [page]
    ensures Bytes(library, part + [page]) == Bytes(library, part) + RevisionOf(library, page).size
    ensures Placements(library, part + [page]) == Placements(library, part) + MediaOf(library, page)
  {
    assert (part + [page])[..|part|] == part;
  }

  /** The stem a page receives when the names in `used` are gone. */
  function StemFor(page: Page, used: set<string>): Option<string> {
    if Plain(page) !in used then Some(Plain(page))
    else if Qualified(page) !in used then Some(Qualified(page)) else None
  }

  lemma NamingExtended(captured: seq<Page>, page: Page)
    requires Assign(Choices(captured)).Some?
    ensures var naming := Assign(Choices(captured)).value;
            var stem := StemFor(page, naming.used);
            Assign(Choices(captured + [page])) == if stem.Some? then Some(naming.Add(stem.value)) else None
  {
    ChoicesExtended(captured, page);
  }

  lemma ArticlesExtended(articles: seq<Article>, library: Library, captured: seq<Page>, names: seq<string>,
                         extension: string, paths: map<ObjectId, string>, more: map<ObjectId, string>,
                         article: Article, page: Page, name: string)
    requires forall k | 0 <= k < |captured| :: HasRevision(library, captured[k])
    requires ArticlesFor(articles, library, captured, names, extension, paths)
    requires forall id <- paths :: id in more && more[id] == paths[id]
    requires HasRevision(library, page) && ArticleFor(article, library, page, name, extension, more)
    ensures ArticlesFor(articles + [article], library, captured + [page], names + [name], extension, more)
  {
    forall k | 0 <= k < |articles|
      ensures ArticleFor(articles[k], library, captured[k], names[k], extension, more)
    {
      assert ArticleFor(articles[k], library, captured[k], names[k], extension, paths);
    }
  }

  method ChooseStem(page: Page, used: set<string>) returns (stem: Option<string>)
    ensures stem == StemFor(page, used)
  {
    var slug := SafeSlug(page.title);
    var plain := NatText(page.id) + "-" + slug;
    if plain !in used {
      return Some(plain);
    }
    var qualified := plain + "-wiki-" + NatText(page.wiki);
    assert qualified == Qualified(page);
    return if qualified !in used then Some(qualified) else None;
  }

  lemma PermissibleBefore(library: Library, part: seq<Page>, page: Page)
    requires Permissible(library, part + [page])
    ensures Permissible(library, part)
  {
    if HasRevision(library, page) {
      CapturedPage(library, part, page);
      ChoicesExtended(Captured(library, part), page);
    } else {
      SkippedPage(library, part, page);
    }
  }

  lemma {:induction false} PermissiblePrefix(library: Library, pages: seq<Page>, n: nat)
    requires n <= |pages| && Permissible(library, pages)
    ensures Permissible(library, pages[..n])
    decreases |pages| - n
  {
    if n == |pages| {
      TakeAll(pages);
    } else {
      PermissiblePrefix(library, pages, n + 1);
      TakeOneMore(pages, n);
      PermissibleBefore(library, pages[..n], pages[n]);
    }
  }

  method RunSelected(library: Library, pages: seq<Page>, extension: string)
    returns (r: Result<Selection, string>, ghost paths: map<ObjectId, string>)
    requires DistinctKeys(pages)
    ensures r.Ok? <==> Exportable(library, pages)
    ensures r.Ok? ==> Faithful(r.value, library, pages, extension, paths)
  {
    paths := map[];
    if |pages| > MAX_EXPORT_ARTICLES {
      return Err("too many pages"), paths;
    }
    if library.wikis.Err? {
      return Err("unreadable wikis"), paths;
    }
    var p := Progress([], 0, 0, {}, map[], 0);
    for i := 0 to |pages|
      invariant forall j | 0 <= j < i :: Sound(library, pages[j])
      invariant Reached(p, library, pages[..i], extension)
    {
      TakeOneMore(pages, i);
      var next := TakePage(library, library.wikis.value, pages[i], extension, p, pages[..i]);
      if next.Err? {
        if Permissible(library, pages) {
          PermissiblePrefix(library, pages, i + 1);
        }
        return Err(next.error), paths;
      }
      p := next.value;
    }
    TakeAll(pages);
    paths := p.paths;
    return Ok(Selection(p.articles, p.uncaptured, p.canonicalBytes)), paths;
  }

  /** One turn of the loop. */
  method TakePage(library: Library, wikis: map<nat, string>, page: Page, extension: string, p: Progress,
                  ghost part: seq<Page>)
    returns (r: Result<Progress, string>)
    requires library.wikis == Ok(wikis) && Reached(p, library, part, extension)
    ensures r.Ok? <==> Sound(library, page) && Permissible(library, part + [page])
    ensures r.Ok? ==> Reached(r.value, library, part + [page], extension)
  {
    var found := library.revisionOf(page);
    if found.Err? {
      return Err("unreadable revision");
    }
    if found.value.None? {
      SkippedPage(library, part, page);
      return Ok(p.(uncaptured := p.uncaptured + 1));
    }
    CapturedPage(library, part, page);
    var revision := found.value.value;
    if revision.page != page.id {
      return Err("revision of another page");
    }
    var canonicalBytes := p.canonicalBytes + revision.size;
    if canonicalBytes > MAX_EXPORT_CANONICAL_BYTES {
      return Err("too many canonical bytes");
    }
    if page.wiki !in wikis || !library.isSafeEndpoint(wikis[page.wiki]) {
      return Err("missing or unsafe wiki");
    }
    r := AddArticle(library, page, revision, extension, p.(canonicalBytes := canonicalBytes), part);
  }

  lemma ArticleIsReached(library: Library, page: Page, revision: Revision, extension: string, p: Progress,
                         part: seq<Page>, article: Article, stem: string, paths: map<ObjectId, string>)
    requires revision.size <= p.canonicalBytes <= MAX_EXPORT_CANONICAL_BYTES
    requires Reached(p.(canonicalBytes := p.canonicalBytes - revision.size), library, part, extension)
    requires HasRevision(library, page) && revision == RevisionOf(library, page)
    requires StemFor(page, p.used) == Some(stem)
    requires ArticleFor(article, library, page, stem, extension, paths)
    requires forall id <- p.paths :: id in paths && paths[id] == p.paths[id]
    requires NamesObjects(paths, Placements(library, part) + MediaOf(library, page))
    requires p.placementCount + |MediaOf(library, page)| <= MAX_EXPORT_MEDIA_PLACEMENTS
    ensures Reached(Progress(p.articles + [article], p.uncaptured, p.canonicalBytes, p.used + {stem}, paths,
                             p.placementCount + |MediaOf(library, page)|), library, part + [page], extension)
  {
    var captured := Captured(library, part);
    CapturedPage(library, part, page);
    NamingExtended(captured, page);
    ArticlesExtended(p.articles, library, captured, Assign(Choices(captured)).value.names, extension, p.paths, paths,
                     article, page, stem);
  }

  /** Names a captured page and its images, and adds it to the selection. */
  method AddArticle(library: Library, page: Page, revision: Revision, extension: string, p: Progress,
                    ghost part: seq<Page>)
    returns (r: Result<Progress, string>)
    requires revision.size <= p.canonicalBytes
    requires Reached(p.(canonicalBytes := p.canonicalBytes - revision.size), library, part, extension)
    requires HasRevision(library, page) && revision == RevisionOf(library, page)
    requires p.canonicalBytes <= MAX_EXPORT_CANONICAL_BYTES
    ensures r.Ok? <==> HasMedia(library, page) && Permissible(library, part + [page])
    ensures r.Ok? ==> Reached(r.value, library, part + [page], extension)
  {
    CapturedPage(library, part, page);
    ghost var captured := Captured(library, part);
    NamingExtended(captured, page);
    var stem := ChooseStem(page, p.used);
    if stem.None? {
      return Err("no unique safe path");
    }
    var stored := library.mediaOf(page.wiki, revision.id);
    if stored.Err? {
      return Err("unreadable media");
    }
    var placed, paths := PlaceMedia(stored.value, p.paths, p.placementCount, Placements(library, part));
    if placed.Err? {
      return Err("too many media placements");
    }
    var article := Article(page, revision, ArticlePath(stem.value, extension), placed.value);
    ArticleIsReached(library, page, revision, extension, p, part, article, stem.value, paths);
    r := Ok(Progress(p.articles + [article], p.uncaptured, p.canonicalBytes, p.used + {stem.value}, paths,
                     p.placementCount + |stored.value|));
  }

  method PlaceMedia(stored: seq<Stored>, known: map<ObjectId, string>, count: nat, ghost before: seq<Stored>)
    returns (placed: Result<seq<Placed>, string>, paths: map<ObjectId, string>)
    requires NamesObjects(known, before) && count == |before| <= MAX_EXPORT_MEDIA_PLACEMENTS
    ensures placed.Ok? <==> count + |stored| <= MAX_EXPORT_MEDIA_PLACEMENTS
    ensures placed.Ok? ==> NamesObjects(paths, before + stored) && PlacedAt(placed.value, stored, paths)
    ensures forall id <- known :: id in paths && paths[id] == known[id]
  {
    paths := known;
    var media: seq<Placed> := [];
    assert before + stored[..0] == before;
    for i := 0 to |stored|
      invariant count + i <= MAX_EXPORT_MEDIA_PLACEMENTS
      invariant NamesObjects(paths, before + stored[..i])
      invariant PlacedAt(media, stored[..i], paths)
      invariant forall id <- known :: id in paths && paths[id] == known[id]
    {
      if count + i + 1 > MAX_EXPORT_MEDIA_PLACEMENTS {
        return Err("too many media placements"), paths;
      }
      TakeOneMore(stored, i);
      media, paths := PlaceOne(stored[i], media, paths, before, stored[..i]);
    }
    TakeAll(stored);
    placed := Ok(media);
  }

  /** One turn of that loop: the first placement of an object names its file. */
  method PlaceOne(next: Stored, media: seq<Placed>, known: map<ObjectId, string>, ghost before: seq<Stored>,
                  ghost done: seq<Stored>)
    returns (more: seq<Placed>, paths: map<ObjectId, string>)
    requires NamesObjects(known, before + done) && PlacedAt(media, done, known)
    ensures NamesObjects(paths, before + (done + [next])) && PlacedAt(more, done + [next], paths)
    ensures forall id <- known :: id in paths && paths[id] == known[id]
  {
    NamesOneMore(known, before + done, next);
    assert before + (done + [next]) == before + done + [next];
    paths := known;
    if next.content !in paths {
      paths := paths[next.content := MediaPath(next.content, next.mime)];
    }
    PlacedExtended(media, done, known, paths, next);
    more := media + [Placed(next, paths[next.content])];
  }

  lemma PlacedExtended(media: seq<Placed>, stored: seq<Stored>, paths: map<ObjectId, string>,
                       more: map<ObjectId, string>, next: Stored)
    requires PlacedAt(media, stored, paths) && next.content in more
    requires forall id <- paths :: id in more && more[id] == paths[id]
    ensures PlacedAt(media + [Placed(next, more[next.content])], stored + [next], more)
  {
  }

  // ---------------------------------------------------------------- Theorems

  // In a finished selection every article has a path of its own: one safe component under articles/.
  lemma ArticlePathsAreDistinct(s: Selection, library: Library, pages: seq<Page>, extension: string,
                                paths: map<ObjectId, string>, i: nat, j: nat)
    requires DistinctKeys(pages) && Faithful(s, library, pages, extension, paths) && i < j < |s.articles|
    ensures s.articles[i].path != s.articles[j].path
  {
    var choices := Choices(Captured(library, pages));
    var names := Assign(choices).value.names;
    NamesAreDistinct(choices, i, j);
    if s.articles[i].path == s.articles[j].path {
      SameArticlePath(names[i], names[j], extension);
    }
  }

  lemma SameArticlePath(a: string, b: string, extension: string)
    requires ArticlePath(a, extension) == ArticlePath(b, extension)
    ensures a == b
  {
    var path := ArticlePath(a, extension);
    assert |path| == 9 + |a| + 1 + |extension| == 9 + |b| + 1 + |extension|;
    assert a == path[9..9 + |a|] == b;
  }

  lemma ArticleNamesAreSafe(s: Selection, library: Library, pages: seq<Page>, extension: string,
                            paths: map<ObjectId, string>, k: nat)
    requires Faithful(s, library, pages, extension, paths) && k < |s.articles|
    ensures exists name :: IsComponent(name) && s.articles[k].path == ArticlePath(name, extension)
  {
    var captured := Captured(library, pages);
    AssignGivesNames(Choices(captured));
    var name := Assign(Choices(captured)).value.names[k];
    assert name == NameOf(Choices(captured), k);
    StemIsComponent(captured[k]);
  }

  // Two placements share a file exactly when they show the same object.
  lemma OneFilePerObject(s: Selection, library: Library, pages: seq<Page>, extension: string,
                         paths: map<ObjectId, string>, i: nat, m: nat, j: nat, n: nat)
    requires Faithful(s, library, pages, extension, paths)
    requires i < |s.articles| && m < |s.articles[i].media| && j < |s.articles| && n < |s.articles[j].media|
    ensures s.articles[i].media[m].path == s.articles[j].media[n].path <==>
            s.articles[i].media[m].stored.content == s.articles[j].media[n].stored.content
  {
    var a := s.articles[i].media[m];
    var b := s.articles[j].media[n];
    var placements := Placements(library, pages);
    assert a.path == PathOf(placements, a.stored.content) && b.path == PathOf(placements, b.stored.content);
    if a.path == b.path {
      MediaPathsAreDistinct(a.stored.content, b.stored.content, FirstOf(placements, a.stored.content).mime,
                            FirstOf(placements, b.stored.content).mime);
    }
  }

  lemma {:induction false} CapturedKeysAreDistinct(library: Library, pages: seq<Page>)
    requires DistinctKeys(pages)
    ensures DistinctKeys(Captured(library, pages))
    ensures forall page <- Captured(library, pages) :: page in pages
  {
    if pages != [] {
      var last := |pages| - 1;
      CapturedKeysAreDistinct(library, pages[..last]);
      forall page <- pages[..last]
        ensures page.wiki != pages[last].wiki || page.id != pages[last].id
      {
        var i :| 0 <= i < last && pages[i] == page;
      }
      forall k | 0 <= k < |Captured(library, pages[..last])|
        ensures Captured(library, pages[..last])[k] in pages[..last]
      {
      }
    }
  }

  lemma CapturedNamesFail(library: Library, pages: seq<Page>, captured: seq<Page>)
    requires DistinctKeys(pages) && captured == Captured(library, pages)
    ensures Assign(Choices(captured)).None? <==> exists k: nat | k < |captured| :: Collides(captured, k)
  {
    CapturedKeysAreDistinct(library, pages);
    NamingFailsExactly(captured);
  }

  // A sound selection within the limits is refused exactly when two of its captured titles collide.
  lemma SoundSelectionsFailOnlyOnCollision(library: Library, pages: seq<Page>, captured: seq<Page>)
    requires DistinctKeys(pages) && |pages| <= MAX_EXPORT_ARTICLES
    requires library.wikis.Ok? && forall i | 0 <= i < |pages| :: Sound(library, pages[i])
    requires Bytes(library, pages) <= MAX_EXPORT_CANONICAL_BYTES
    requires |Placements(library, pages)| <= MAX_EXPORT_MEDIA_PLACEMENTS
    requires captured == Captured(library, pages)
    ensures !Exportable(library, pages) <==> exists k: nat | k < |captured| :: Collides(captured, k)
  {
    CapturedNamesFail(library, pages, captured);
  }

  /** The page's revision, if there is one, is known as a revision of that page, on a safe wiki, with its media. */
  predicate Answered(library: Library, page: Page) {
    match library.revisionOf(page)
    case Err(_) => false
    case Ok(None) => true
    case Ok(Some(revision)) =>
      && revision.page == page.id && library.wikis.Ok? && page.wiki in library.wikis.value
      && library.isSafeEndpoint(library.wikis.value[page.wiki]) && library.mediaOf(page.wiki, revision.id).Ok?
  }

  // An export is refused exactly when it has more than 10,000 pages, more than 512 MiB of sources or more than
  // 2,560,000 placements, when the library fails or contradicts itself, or when captured titles collide.
  lemma ExportableExactly(library: Library, pages: seq<Page>, captured: seq<Page>)
    requires DistinctKeys(pages) && captured == Captured(library, pages)
    ensures Exportable(library, pages) <==>
            && |pages| <= 10_000 && library.wikis.Ok? && (forall i | 0 <= i < |pages| :: Answered(library, pages[i]))
            && Bytes(library, pages) <= 536_870_912 && |Placements(library, pages)| <= 2_560_000
            && forall k: nat | k < |captured| :: !Collides(captured, k)
  {
    CapturedNamesFail(library, pages, captured);
    forall i | 0 <= i < |pages|
      ensures Sound(library, pages[i]) <==> Answered(library, pages[i])
    {
    }
  }
}
