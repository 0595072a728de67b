/**
 Writing a selection into a new staging directory. Every file is created new, so a name used twice
 would fail the export; it never is, and each captured object is written once.
 */
module StagedExport {
  import opened ExportPaths
  import opened ExportSelection
  import opened Prefixes
  import opened Wrappers

  const MAX_EXPORT_OUTPUT_BYTES := 1024 * 1024 * 1024

  const INDEX := "index.jsonl"
  const MANIFEST := "manifest.json"

  /** What is written, by where it came from: a verified image, a rendered article, one index line for each
      article, and the closing totals. `Part` is what a failed write leaves. */
  datatype Content =
    | Image(stored: Stored)
    | Rendered(article: Article)
    | Index(lines: seq<Article>)
    | Part
    | Manifest(articleCount: nat, uncaptured: nat, canonicalBytes: nat, objects: nat, placements: nat, mediaBytes: nat)

  /** The size of what an object or an article yields, unless it cannot be read, verified or rendered. */
  datatype Sources = Sources(image: Stored -> Option<nat>, render: Article -> Option<nat>)

  datatype Creation = Created | Taken | Unwritten

  /** How a step of the export ends: refused because something cannot be read, verified or rendered or the
      output grows too large, or failed because a file operation did. */
  datatype StepResult<T> = Done(value: T) | Refused | Failed

  class StagingDirectory {
    var files: map<string, Content>
    ghost var collisions: nat   // creations that met an existing file
    ghost var failures: nat     // file operations that failed

    constructor ()
      ensures files == map[] && collisions == 0 && failures == 0
    {
      files, collisions, failures := map[], 0, 0;
    }

    /** Creates a file that must not exist yet, and writes it; a failure may leave a part of it. */
    method CreateNew(path: string, content: Content) returns (r: Creation)
      modifies this
      ensures r == Taken <==> path in old(files)
      ensures r == Created ==> files == old(files)[path := content]
      ensures r == Taken ==> files == old(files)
      ensures r == Unwritten ==> files == old(files) || files == old(files)[path := Part]
      ensures collisions == old(collisions) + if r == Taken then 1 else 0
      ensures failures == old(failures) + if r == Unwritten then 1 else 0
    {
      if path in files {
        collisions := collisions + 1;
        return Taken;
      }
      if * {
        failures := failures + 1;
        return Unwritten;
      }
      if * {
        failures := failures + 1;
        files := files[path := Part];
        return Unwritten;
      }
      files := files[path := content];
      return Created;
    }

    /** Adds a line to the index. */
    method AppendLine(article: Article) returns (ok: bool)
      requires INDEX in files && files[INDEX].Index?
      modifies this
      ensures ok ==> files == old(files)[INDEX := Index(old(files)[INDEX].lines + [article])]
      ensures collisions == old(collisions) && failures == old(failures) + if ok then 0 else 1
    {
      if * {
        failures := failures + 1;
        files := files[INDEX := Part];
        return false;
      }
      files := files[INDEX := Index(files[INDEX].lines + [article])];
      return true;
    }

    /** Makes a subdirectory, or synchronizes a file or directory. */
    method Operate() returns (ok: bool)
      modifies this`failures
      ensures failures == old(failures) + if ok then 0 else 1
    {
      ok := true;
      if * {
        ok := false;
        failures := failures + 1;
      }
    }
  }

  // ---------------------------------------------------------------- Specification

  function AllMedia(articles: seq<Article>): seq<Placed> {
    if articles == [] then []
    else AllMedia(articles[..|articles| - 1]) + articles[|articles| - 1].media
  }

  function Contents(media: seq<Placed>): set<ObjectId> {
    if media == [] then {} else Contents(media[..|media| - 1]) + {media[|media| - 1].stored.content}
  }

  /** The files of the objects: each under its path, from its first placement. */
  function ImageFiles(media: seq<Placed>): map<string, Content> {
    if media == [] then map[]
    else
      var earlier := ImageFiles(media[..|media| - 1]);
      var last := media[|media| - 1];
      if last.stored.content in Contents(media[..|media| - 1]) then earlier
      else earlier[last.path := Image(last.stored)]
  }

  /** The bytes of the objects, each counted once; none if some first placement cannot be verified. */
  function ImageBytes(sources: Sources, media: seq<Placed>): Option<nat> {
    if media == [] then Some(0)
    else
      var earlier := ImageBytes(sources, media[..|media| - 1]);
      var last := media[|media| - 1].stored;
      if last.content in Contents(media[..|media| - 1]) then earlier else Sum(earlier, sources.image(last))
  }

  function Sum(a: Option<nat>, b: Option<nat>): Option<nat> {
    if a.None? || b.None? then None else Some(a.value + b.value)
  }

  function ArticleFiles(articles: seq<Article>): map<string, Content> {
    if articles == [] then map[]
    else
      var last := articles[|articles| - 1];
      ArticleFiles(articles[..|articles| - 1])[last.path := Rendered(last)]
  }

  function ArticleBytes(sources: Sources, articles: seq<Article>): Option<nat> {
    if articles == [] then Some(0)
    else Sum(ArticleBytes(sources, articles[..|articles| - 1]), sources.render(articles[|articles| - 1]))
  }

  /** Everything reads, and the output keeps within its limit. */
  predicate Fits(sources: Sources, media: seq<Placed>, articles: seq<Article>) {
    var bytes := Sum(ImageBytes(sources, media), ArticleBytes(sources, articles));
    bytes.Some? && bytes.value <= MAX_EXPORT_OUTPUT_BYTES
  }

  /** The staging directory once these placements and articles have been dealt with. */
  function Written(media: seq<Placed>, articles: seq<Article>): map<string, Content> {
    ImageFiles(media) + ArticleFiles(articles) + map[INDEX := Index(articles)]
  }

  /** One path for each object. */
  ghost predicate PathPerObject(media: seq<Placed>) {
    forall m, n | 0 <= m < |media| && 0 <= n < |media| ::
      media[m].path == media[n].path <==> media[m].stored.content == media[n].stored.content
  }

  /** No name serves two purposes. */
  ghost predicate Apart(media: seq<Placed>, articles: seq<Article>) {
    && PathPerObject(media)
    && (forall i, j | 0 <= i < j < |articles| :: articles[i].path != articles[j].path)
    && (forall m, k | 0 <= m < |media| && 0 <= k < |articles| :: media[m].path != articles[k].path)
    && (forall m | 0 <= m < |media| :: media[m].path != INDEX && media[m].path != MANIFEST)
    && (forall k | 0 <= k < |articles| :: articles[k].path != INDEX && articles[k].path != MANIFEST)
  }

  // ---------------------------------------------------------------- Names in use

  lemma {:induction false} ContentsAreShown(media: seq<Placed>, id: ObjectId)
    ensures id in Contents(media) <==> exists m | 0 <= m < |media| :: media[m].stored.content == id
  {
    if media != [] {
      ContentsAreShown(media[..|media| - 1], id);
    }
  }

  lemma {:induction false} ImagesAreShown(media: seq<Placed>, path: string)
    requires path in ImageFiles(media)
    ensures exists m | 0 <= m < |media| :: media[m].path == path
  {
    if media != [] && path in ImageFiles(media[..|media| - 1]) {
      ImagesAreShown(media[..|media| - 1], path);
    }
  }

  lemma {:induction false} ArticlesAreListed(articles: seq<Article>, path: string)
    requires path in ArticleFiles(articles)
    ensures exists k | 0 <= k < |articles| :: articles[k].path == path
  {
    if articles != [] && path in ArticleFiles(articles[..|articles| - 1]) {
      ArticlesAreListed(articles[..|articles| - 1], path);
    }
  }

  lemma NewImageIsNew(all: seq<Placed>, articles: seq<Article>, shown: seq<Placed>, next: Placed, k: nat)
    requires Apart(all, articles) && shown + [next] <= all && k <= |articles|
    ensures next.stored.content !in Contents(shown) ==> next.path !in Written(shown, articles[..k])
  {
    assert all[|shown|] == (shown + [next])[|shown|] == next;
    assert forall m | 0 <= m < |shown| :: all[m] == (shown + [next])[m] == shown[m];
    ContentsAreShown(shown, next.stored.content);
    if next.path in ImageFiles(shown) {
      ImagesAreShown(shown, next.path);
    }
    if next.path in ArticleFiles(articles[..k]) {
      ArticlesAreListed(articles[..k], next.path);
    }
  }

  lemma NewArticleIsNew(all: seq<Placed>, articles: seq<Article>, shown: seq<Placed>, k: nat)
    requires Apart(all, articles) && shown <= all && k < |articles|
    ensures articles[k].path !in Written(shown, articles[..k])
  {
    if articles[k].path in ImageFiles(shown) {
      ImagesAreShown(shown, articles[k].path);
    }
    if articles[k].path in ArticleFiles(articles[..k]) {
      ArticlesAreListed(articles[..k], articles[k].path);
    }
  }

  lemma ManifestIsNew(all: seq<Placed>, articles: seq<Article>)
    requires Apart(all, articles)
    ensures MANIFEST !in Written(all, articles)
  {
    if MANIFEST in ImageFiles(all) {
      ImagesAreShown(all, MANIFEST);
    }
    if MANIFEST in ArticleFiles(articles) {
      ArticlesAreListed(articles, MANIFEST);
    }
    assert INDEX[0] != MANIFEST[0];
  }

  // ---------------------------------------------------------------- Part of what fits fits

  lemma ImageAdded(sources: Sources, media: seq<Placed>, next: Placed)
    ensures Contents(media + [next]) == Contents(media) + {next.stored.content}
    ensures next.stored.content in Contents(media) ==>
              ImageFiles(media + [next]) == ImageFiles(media)
              && ImageBytes(sources, media + [next]) == ImageBytes(sources, media)
    ensures next.stored.content !in Contents(media) ==>
              ImageFiles(media + [next]) == ImageFiles(media)[next.path := Image(next.stored)]
              && ImageBytes(sources, media + [next]) == Sum(ImageBytes(sources, media), sources.image(next.stored))
  {
    assert (media + [next])[..|media|] == media;
  }

  lemma ArticleAdded(sources: Sources, articles: seq<Article>, next: Article)
    ensures ArticleFiles(articles + [next]) == ArticleFiles(articles)[next.path := Rendered(next)]
    ensures ArticleBytes(sources, articles + [next]) == Sum(ArticleBytes(sources, articles), sources.render(next))
    ensures AllMedia(articles + [next]) == AllMedia(articles) + next.media
  {
    assert (articles + [next])[..|articles|] == articles;
  }

  lemma {:induction false} FewerImagesFit(sources: Sources, media: seq<Placed>, articles: seq<Article>, n: nat)
    requires n <= |media| && Fits(sources, media, articles)
    ensures Fits(sources, media[..n], articles)
    decreases |media| - n
  {
    if n == |media| {
      TakeAll(media);
    } else {
      FewerImagesFit(sources, media, articles, n + 1);
      TakeOneMore(media, n);
      OneImageFewerFits(sources, media[..n], media[n], articles);
    }
  }

  lemma OneImageFewerFits(sources: Sources, media: seq<Placed>, next: Placed, articles: seq<Article>)
    requires Fits(sources, media + [next], articles)
    ensures Fits(sources, media, articles)
  {
    ImageAdded(sources, media, next);
  }

  lemma FitsWithout(sources: Sources, before: seq<Article>, article: Article)
    requires Fits(sources, AllMedia(before + [article]), before + [article])
    ensures Fits(sources, AllMedia(before), before)
  {
    var media := AllMedia(before);
    ArticleAdded(sources, before, article);
    FewerImagesFit(sources, media + article.media, before + [article], |media|);
    assert (media + article.media)[..|media|] == media;
  }

  lemma {:induction false} EarlierArticlesFit(sources: Sources, articles: seq<Article>, k: nat)
    requires k <= |articles| && Fits(sources, AllMedia(articles), articles)
    ensures Fits(sources, AllMedia(articles[..k]), articles[..k])
    decreases |articles| - k
  {
    if k == |articles| {
      TakeAll(articles);
    } else {
      EarlierArticlesFit(sources, articles, k + 1);
      TakeOneMore(articles, k);
      FitsWithout(sources, articles[..k], articles[k]);
    }
  }

  // ---------------------------------------------------------------- Writing

  datatype Tally = Tally(written: set<ObjectId>, mediaBytes: nat, outputBytes: nat, placements: nat)

  ghost predicate Wrote(files: map<string, Content>, t: Tally, sources: Sources, media: seq<Placed>,
                          articles: seq<Article>) {
    && files == Written(media, articles) && t.written == Contents(media) && t.placements == |media|
    && ImageBytes(sources, media) == Some(t.mediaBytes)
    && ArticleBytes(sources, articles).Some?
    && t.outputBytes == t.mediaBytes + ArticleBytes(sources, articles).value <= MAX_EXPORT_OUTPUT_BYTES
  }

  lemma WrittenWithImage(sources: Sources, media: seq<Placed>, articles: seq<Article>, next: Placed)
    requires next.stored.content !in Contents(media) && next.path !in Written(media, articles)
    ensures Written(media + [next], articles) == Written(media, articles)[next.path := Image(next.stored)]
  {
    ImageAdded(sources, media, next);
  }

  /** Writes an image the first time its object is placed. */
  method WriteImage(dir: StagingDirectory, next: Placed, t: Tally, sources: Sources, ghost media: seq<Placed>,
                    ghost articles: seq<Article>)
    returns (r: StepResult<Tally>)
    requires Wrote(dir.files, t, sources, media, articles)
    requires next.stored.content !in Contents(media) ==> next.path !in dir.files
    modifies dir
    ensures r.Done? ==> Wrote(dir.files, r.value, sources, media + [next], articles)
    ensures r.Refused? ==> !Fits(sources, media + [next], articles)
    ensures dir.collisions == old(dir.collisions)
    ensures dir.failures == old(dir.failures) + if r.Failed? then 1 else 0
  {
    ImageAdded(sources, media, next);
    if next.stored.content in t.written {
      return Done(t.(placements := t.placements + 1));
    }
    var length := sources.image(next.stored);
    if length.None? || t.outputBytes + length.value > MAX_EXPORT_OUTPUT_BYTES {
      return Refused;
    }
    var created := dir.CreateNew(next.path, Image(next.stored));
    if created != Created {
      return Failed;
    }
    WrittenWithImage(sources, media, articles, next);
    return Done(Tally(t.written + {next.stored.content}, t.mediaBytes + length.value, t.outputBytes + length.value,
                      t.placements + 1));
  }

  /** The paths of these images, and of the article after them, are still free when their turn comes. */
  ghost predicate Free(media: seq<Placed>, article: Article, before: seq<Article>) {
    && (forall m {:trigger article.media[m]} | 0 <= m < |article.media| ::
          article.media[m].stored.content !in Contents(media + article.media[..m]) ==>
            article.media[m].path !in Written(media + article.media[..m], before))
    && article.path !in Written(media + article.media, before)
  }

  lemma ImageIsFree(articles: seq<Article>, k: nat, m: nat)
    requires k < |articles| && m < |articles[k].media| && Apart(AllMedia(articles), articles)
    ensures var shown := AllMedia(articles[..k]) + articles[k].media[..m];
            articles[k].media[m].stored.content !in Contents(shown) ==>
              articles[k].media[m].path !in Written(shown, articles[..k])
  {
    ImagesBefore(articles, k, m + 1);
    OneImageMore(AllMedia(articles[..k]), articles[k].media, m);
    NewImageIsNew(AllMedia(articles), articles, AllMedia(articles[..k]) + articles[k].media[..m],
                  articles[k].media[m], k);
  }

  lemma ArticleIsFree(articles: seq<Article>, k: nat)
    requires k < |articles| && Apart(AllMedia(articles), articles)
    ensures articles[k].path !in Written(AllMedia(articles[..k]) + articles[k].media, articles[..k])
  {
    ImagesBefore(articles, k, |articles[k].media|);
    TakeAll(articles[k].media);
    NewArticleIsNew(AllMedia(articles), articles, AllMedia(articles[..k]) + articles[k].media, k);
  }

  lemma NamesAreFree(articles: seq<Article>, k: nat)
    requires k < |articles| && Apart(AllMedia(articles), articles)
    ensures Free(AllMedia(articles[..k]), articles[k], articles[..k])
  {
    forall m | 0 <= m < |articles[k].media|
      ensures articles[k].media[m].stored.content !in Contents(AllMedia(articles[..k]) + articles[k].media[..m]) ==>
                articles[k].media[m].path !in
                Written(AllMedia(articles[..k]) + articles[k].media[..m], articles[..k])
    {
      ImageIsFree(articles, k, m);
    }
    ArticleIsFree(articles, k);
  }

  /** Writes one article's images, the article, and its index line. */
  method WriteArticle(dir: StagingDirectory, article: Article, t: Tally, sources: Sources, ghost media: seq<Placed>,
                      ghost before: seq<Article>)
    returns (r: StepResult<Tally>)
    requires Free(media, article, before) && Wrote(dir.files, t, sources, media, before)
    modifies dir
    ensures r.Done? ==> Wrote(dir.files, r.value, sources, media + article.media, before + [article])
    ensures r.Refused? ==> !Fits(sources, media + article.media, before + [article])
    ensures dir.collisions == old(dir.collisions)
    ensures dir.failures == old(dir.failures) + if r.Failed? then 1 else 0
  {
    var length := sources.render(article);
    if length.None? {
      ArticleAdded(sources, before, article);
      return Refused;
    }
    r := WriteImages(dir, article, t, sources, media, before);
    if r.Refused? {
      NoRoomForArticle(sources, media + article.media, before, article);
    }
    if r.Done? {
      r := WriteText(dir, article, length.value, r.value, sources, media + article.media, before);
    }
  }

  method WriteImages(dir: StagingDirectory, article: Article, t: Tally, sources: Sources, ghost media: seq<Placed>,
                     ghost before: seq<Article>)
    returns (r: StepResult<Tally>)
    requires Free(media, article, before) && Wrote(dir.files, t, sources, media, before)
    modifies dir
    ensures r.Done? ==> Wrote(dir.files, r.value, sources, media + article.media, before)
    ensures r.Refused? ==> !Fits(sources, media + article.media, before)
    ensures dir.collisions == old(dir.collisions)
    ensures dir.failures == old(dir.failures) + if r.Failed? then 1 else 0
  {
    var images := article.media;
    r := Done(t);
    assert media + images[..0] == media;
    for m := 0 to |images|
      invariant r.Done? && Wrote(dir.files, r.value, sources, media + images[..m], before)
      invariant dir.collisions == old(dir.collisions) && dir.failures == old(dir.failures)
    {
      OneImageMore(media, images, m);
      r := WriteImage(dir, images[m], r.value, sources, media + images[..m], before);
      if r.Refused? {
        NoRoomForImages(sources, media, images, before, m + 1);
      }
      if !r.Done? {
        return;
      }
    }
    TakeAll(images);
  }

  lemma OneImageMore(media: seq<Placed>, images: seq<Placed>, m: nat)
    requires m < |images|
    ensures media + images[..m + 1] == media + images[..m] + [images[m]]
  {
  }

  lemma NoRoomForImages(sources: Sources, media: seq<Placed>, images: seq<Placed>, articles: seq<Article>, m: nat)
    requires m <= |images| && !Fits(sources, media + images[..m], articles)
    ensures !Fits(sources, media + images, articles)
  {
    assert (media + images)[..|media| + m] == media + images[..m];
    if Fits(sources, media + images, articles) {
      FewerImagesFit(sources, media + images, articles, |media| + m);
    }
  }

  lemma WrittenWithArticle(media: seq<Placed>, before: seq<Article>, article: Article)
    requires article.path !in Written(media, before)
    ensures Written(media, before + [article]) ==
            Written(media, before)[article.path := Rendered(article)][INDEX := Index(before + [article])]
  {
    assert (before + [article])[..|before|] == before;
  }

  method WriteText(dir: StagingDirectory, article: Article, length: nat, t: Tally, sources: Sources,
                   ghost media: seq<Placed>, ghost before: seq<Article>)
    returns (r: StepResult<Tally>)
    requires Wrote(dir.files, t, sources, media, before) && article.path !in dir.files
    requires sources.render(article) == Some(length)
    modifies dir
    ensures r.Done? ==> Wrote(dir.files, r.value, sources, media, before + [article])
    ensures r.Refused? ==> !Fits(sources, media, before + [article])
    ensures dir.collisions == old(dir.collisions)
    ensures dir.failures == old(dir.failures) + if r.Failed? then 1 else 0
  {
    ArticleAdded(sources, before, article);
    if t.outputBytes + length > MAX_EXPORT_OUTPUT_BYTES {
      return Refused;
    }
    var created := dir.CreateNew(article.path, Rendered(article));
    if created != Created {
      return Failed;
    }
    var appended := dir.AppendLine(article);
    if !appended {
      return Failed;
    }
    WrittenWithArticle(media, before, article);
    return Done(t.(outputBytes := t.outputBytes + length));
  }

  lemma NoRoomForArticle(sources: Sources, media: seq<Placed>, before: seq<Article>, article: Article)
    requires !Fits(sources, media, before)
    ensures !Fits(sources, media, before + [article])
  {
    ArticleAdded(sources, before, article);
  }

  lemma {:induction false} ImagesUpTo(articles: seq<Article>, k: nat)
    requires k <= |articles|
    ensures AllMedia(articles[..k]) <= AllMedia(articles)
    decreases |articles| - k
  {
    if k == |articles| {
      TakeAll(articles);
    } else {
      ImagesUpTo(articles, k + 1);
      TakeOneMore(articles, k);
      assert articles[..k + 1][..k] == articles[..k];
    }
  }

  lemma ImagesBefore(articles: seq<Article>, k: nat, m: nat)
    requires k < |articles| && m <= |articles[k].media|
    ensures AllMedia(articles[..k]) + articles[k].media[..m] <= AllMedia(articles)
  {
    ImagesUpTo(articles, k + 1);
    assert articles[..k + 1][..k] == articles[..k];
  }

  function ManifestOf(s: Selection, mediaBytes: nat): Content {
    var media := AllMedia(s.articles);
    Manifest(|s.articles|, s.uncaptured, s.canonicalBytes, |Contents(media)|, |media|, mediaBytes)
  }

  /** The files of a finished export. */
  function Finished(s: Selection, sources: Sources): map<string, Content>
    requires Fits(sources, AllMedia(s.articles), s.articles)
  {
    var media := AllMedia(s.articles);
    Written(media, s.articles)[MANIFEST := ManifestOf(s, ImageBytes(sources, media).value)]
  }

  // As long as no file operation fails, the export is written exactly when everything can be read and the
  // output fits; and whatever fails, no file is ever refused for existing already.
  method BuildStagedExport(dir: StagingDirectory, s: Selection, sources: Sources) returns (r: StepResult<()>)
    requires dir.files == map[] && Apart(AllMedia(s.articles), s.articles)
    modifies dir
    ensures r.Done? ==> Fits(sources, AllMedia(s.articles), s.articles) && dir.files == Finished(s, sources)
    ensures r.Refused? ==> !Fits(sources, AllMedia(s.articles), s.articles)
    ensures r.Failed? <==> dir.failures > old(dir.failures)
    ensures dir.collisions == old(dir.collisions)
  {
    var ok := dir.Operate();
    if ok && exists k | 0 <= k < |s.articles| :: s.articles[k].media != [] {
      ok := dir.Operate();
    }
    if !ok {
      return Failed;
    }
    var created := dir.CreateNew(INDEX, Index([]));
    if created != Created {
      return Failed;
    }
    var written := WriteArticles(dir, s.articles, sources);
    if written.Refused? {
      return Refused;
    }
    if written.Failed? {
      return Failed;
    }
    r := WriteManifest(dir, s, written.value, sources);
  }

  method WriteArticles(dir: StagingDirectory, articles: seq<Article>, sources: Sources) returns (r: StepResult<Tally>)
    requires dir.files == map[INDEX := Index([])] && Apart(AllMedia(articles), articles)
    modifies dir
    ensures r.Done? ==> Wrote(dir.files, r.value, sources, AllMedia(articles), articles)
    ensures r.Refused? ==> !Fits(sources, AllMedia(articles), articles)
    ensures dir.collisions == old(dir.collisions)
    ensures dir.failures == old(dir.failures) + if r.Failed? then 1 else 0
  {
    r := Done(Tally({}, 0, 0, 0));
    for k := 0 to |articles|
      invariant r.Done? && Wrote(dir.files, r.value, sources, AllMedia(articles[..k]), articles[..k])
      invariant dir.collisions == old(dir.collisions) && dir.failures == old(dir.failures)
    {
      TakeOneMore(articles, k);
      ArticleAdded(sources, articles[..k], articles[k]);
      NamesAreFree(articles, k);
      r := WriteArticle(dir, articles[k], r.value, sources, AllMedia(articles[..k]), articles[..k]);
      if r.Refused? && Fits(sources, AllMedia(articles), articles) {
        EarlierArticlesFit(sources, articles, k + 1);
      }
      if !r.Done? {
        return;
      }
    }
    TakeAll(articles);
  }

  method WriteManifest(dir: StagingDirectory, s: Selection, t: Tally, sources: Sources) returns (r: StepResult<()>)
    requires Apart(AllMedia(s.articles), s.articles)
    requires Wrote(dir.files, t, sources, AllMedia(s.articles), s.articles)
    modifies dir
    ensures r.Done? ==> Fits(sources, AllMedia(s.articles), s.articles) && dir.files == Finished(s, sources)
    ensures !r.Refused? && dir.collisions == old(dir.collisions)
    ensures r.Failed? <==> dir.failures > old(dir.failures)
  {
    ManifestIsNew(AllMedia(s.articles), s.articles);
    var ok := dir.Operate();
    if !ok {
      return Failed;
    }
    var created := dir.CreateNew(MANIFEST, Manifest(|s.articles|, s.uncaptured, s.canonicalBytes, |t.written|,
                                                    t.placements, t.mediaBytes));
    if created != Created {
      return Failed;
    }
    ok := dir.Operate();   // the directories, one after the other
    return if ok then Done(()) else Failed;
  }

  // ---------------------------------------------------------------- Selections are written apart

  lemma {:induction false} PlacedByArticle(articles: seq<Article>, m: nat)
    requires m < |AllMedia(articles)|
    ensures exists k, n | 0 <= k < |articles| && 0 <= n < |articles[k].media| ::
              articles[k].media[n] == AllMedia(articles)[m]
  {
    var last := |articles| - 1;
    var before := AllMedia(articles[..last]);
    if m < |before| {
      PlacedByArticle(articles[..last], m);
      var k, n :| 0 <= k < last && 0 <= n < |articles[..last][k].media| && articles[..last][k].media[n] == before[m];
      assert articles[k].media[n] == AllMedia(articles)[m];
    } else {
      assert articles[last].media[m - |before|] == AllMedia(articles)[m];
    }
  }

  /** Enough of a path to tell images and articles from each other and from the two fixed files. */
  predicate StartsLike(path: string, a: char, b: char) { |path| > 1 && path[0] == a && path[1] == b }

  lemma MediaPathStart(id: ObjectId, mime: Mime)
    ensures StartsLike(MediaPath(id, mime), 'm', 'e')
  {
  }

  lemma ArticlePathStart(name: string, extension: string)
    ensures StartsLike(ArticlePath(name, extension), 'a', 'r')
  {
  }

  lemma ImageStart(s: Selection, library: Library, pages: seq<Page>, extension: string,
                   paths: map<ObjectId, string>, m: nat)
    requires Faithful(s, library, pages, extension, paths) && m < |AllMedia(s.articles)|
    ensures StartsLike(AllMedia(s.articles)[m].path, 'm', 'e')
  {
    PlacedByArticle(s.articles, m);
    var k, n :| 0 <= k < |s.articles| && 0 <= n < |s.articles[k].media|
                && s.articles[k].media[n] == AllMedia(s.articles)[m];
    PlacedStart(s, library, pages, extension, paths, k, n);
  }

  lemma PlacedStart(s: Selection, library: Library, pages: seq<Page>, extension: string,
                    paths: map<ObjectId, string>, k: nat, n: nat)
    requires Faithful(s, library, pages, extension, paths) && k < |s.articles| && n < |s.articles[k].media|
    ensures StartsLike(s.articles[k].media[n].path, 'm', 'e')
  {
    var id := s.articles[k].media[n].stored.content;
    assert paths[id] == PathOf(Placements(library, pages), id);
    MediaPathStart(id, FirstOf(Placements(library, pages), id).mime);
  }

  lemma ArticleStart(s: Selection, library: Library, pages: seq<Page>, extension: string,
                     paths: map<ObjectId, string>, k: nat)
    requires Faithful(s, library, pages, extension, paths) && k < |s.articles|
    ensures StartsLike(s.articles[k].path, 'a', 'r')
  {
    ArticlePathStart(Assign(Choices(Captured(library, pages))).value.names[k], extension);
  }

  lemma ApartFromFixed(media: seq<Placed>, articles: seq<Article>)
    requires forall m | 0 <= m < |media| :: StartsLike(media[m].path, 'm', 'e')
    requires forall k | 0 <= k < |articles| :: StartsLike(articles[k].path, 'a', 'r')
    ensures forall m, k | 0 <= m < |media| && 0 <= k < |articles| :: media[m].path != articles[k].path
    ensures forall m | 0 <= m < |media| :: media[m].path != INDEX && media[m].path != MANIFEST
    ensures forall k | 0 <= k < |articles| :: articles[k].path != INDEX && articles[k].path != MANIFEST
  {
    assert INDEX[0] == 'i' && MANIFEST[1] == 'a';
  }

  // What the selection loop produces can always be written without a name being used twice.
  lemma SelectionsAreApart(s: Selection, library: Library, pages: seq<Page>, extension: string,
                           paths: map<ObjectId, string>)
    requires DistinctKeys(pages) && Faithful(s, library, pages, extension, paths)
    ensures Apart(AllMedia(s.articles), s.articles)
  {
    var media := AllMedia(s.articles);
    forall m, n | 0 <= m < |media| && 0 <= n < |media|
      ensures media[m].path == media[n].path <==> media[m].stored.content == media[n].stored.content
    {
      SameFileSameObject(s, library, pages, extension, paths, m, n);
    }
    forall i, j | 0 <= i < j < |s.articles|
      ensures s.articles[i].path != s.articles[j].path
    {
      ArticlePathsAreDistinct(s, library, pages, extension, paths, i, j);
    }
    forall m | 0 <= m < |media|
      ensures StartsLike(media[m].path, 'm', 'e')
    {
      ImageStart(s, library, pages, extension, paths, m);
    }
    forall k | 0 <= k < |s.articles|
      ensures StartsLike(s.articles[k].path, 'a', 'r')
    {
      ArticleStart(s, library, pages, extension, paths, k);
    }
    ApartFromFixed(media, s.articles);
  }

  lemma SameFileSameObject(s: Selection, library: Library, pages: seq<Page>, extension: string,
                           paths: map<ObjectId, string>, m: nat, n: nat)
    requires Faithful(s, library, pages, extension, paths) && m < |AllMedia(s.articles)| && n < |AllMedia(s.articles)|
    ensures AllMedia(s.articles)[m].path == AllMedia(s.articles)[n].path <==>
            AllMedia(s.articles)[m].stored.content == AllMedia(s.articles)[n].stored.content
  {
    PlacedByArticle(s.articles, m);
    PlacedByArticle(s.articles, n);
    var i, a :| 0 <= i < |s.articles| && 0 <= a < |s.articles[i].media|
                && s.articles[i].media[a] == AllMedia(s.articles)[m];
    var j, b :| 0 <= j < |s.articles| && 0 <= b < |s.articles[j].media|
                && s.articles[j].media[b] == AllMedia(s.articles)[n];
    OneFilePerObject(s, library, pages, extension, paths, i, a, j, b);
  }

  lemma NewObjectHasNewPath(media: seq<Placed>, n: nat)
    requires PathPerObject(media) && n < |media| && media[n].stored.content !in Contents(media[..n])
    ensures media[n].path !in ImageFiles(media[..n])
  {
    ContentsAreShown(media[..n], media[n].stored.content);
    if media[n].path in ImageFiles(media[..n]) {
      ImagesAreShown(media[..n], media[n].path);
    }
  }

  // Each object is written exactly once.
  lemma {:induction false} OneImageFileEach(media: seq<Placed>)
    requires PathPerObject(media)
    ensures |ImageFiles(media)| == |Contents(media)|
  {
    if media != [] {
      var last := |media| - 1;
      var before := media[..last];
      OneImageFileEach(before);
      if media[last].stored.content in Contents(before) {
        assert Contents(media) == Contents(before);
      } else {
        NewObjectHasNewPath(media, last);
      }
    }
  }

  // From the selected pages to the staged files: nothing but the library, the limits, colliding titles and
  // failing file operations can keep an export from being written.
  method SelectAndBuild(dir: StagingDirectory, library: Library, pages: seq<Page>, extension: string, sources: Sources)
    returns (s: Result<Selection, string>, r: StepResult<()>, ghost paths: map<ObjectId, string>)
    requires dir.files == map[] && DistinctKeys(pages)
    modifies dir
    ensures s.Ok? <==> Exportable(library, pages)
    ensures s.Ok? ==> Faithful(s.value, library, pages, extension, paths)
    ensures r.Done? ==>
              s.Ok? && Fits(sources, AllMedia(s.value.articles), s.value.articles)
              && dir.files == Finished(s.value, sources)
    ensures r.Refused? ==> s.Err? || !Fits(sources, AllMedia(s.value.articles), s.value.articles)
    ensures r.Failed? <==> dir.failures > old(dir.failures)
    ensures dir.collisions == old(dir.collisions)
  {
    s, paths := RunSelected(library, pages, extension);
    r := Refused;
    if s.Ok? {
      SelectionsAreApart(s.value, library, pages, extension, paths);
      r := BuildStagedExport(dir, s.value, sources);
    }
  }

  // ---------------------------------------------------------------- What is in the directory

  /** Placement `m` shows an object that no earlier placement shows. */
  predicate IsFirst(media: seq<Placed>, m: nat)
    requires m < |media|
  {
    forall n | 0 <= n < m :: media[n].stored.content != media[m].stored.content
  }

  lemma {:induction false} ImageFileOf(media: seq<Placed>, m: nat)
    requires PathPerObject(media) && m < |media| && IsFirst(media, m)
    ensures media[m].path in ImageFiles(media) && ImageFiles(media)[media[m].path] == Image(media[m].stored)
  {
    var last := |media| - 1;
    if m < last {
      assert media[..last][m] == media[m];
      ImageFileOf(media[..last], m);
      LaterImagesKeep(media, m);
    } else {
      ContentsAreShown(media[..last], media[last].stored.content);
    }
  }

  lemma LaterImagesKeep(media: seq<Placed>, m: nat)
    requires PathPerObject(media) && m < |media| - 1 && media[m].path in ImageFiles(media[..|media| - 1])
    ensures media[m].path in ImageFiles(media)
    ensures ImageFiles(media)[media[m].path] == ImageFiles(media[..|media| - 1])[media[m].path]
  {
    var last := |media| - 1;
    ContentsAreShown(media[..last], media[last].stored.content);
    assert media[..last][m] == media[m];
  }

  lemma {:induction false} ArticleFileOf(articles: seq<Article>, k: nat)
    requires k < |articles| && forall i, j | 0 <= i < j < |articles| :: articles[i].path != articles[j].path
    ensures articles[k].path in ArticleFiles(articles)
    ensures ArticleFiles(articles)[articles[k].path] == Rendered(articles[k])
  {
    var last := |articles| - 1;
    if k < last {
      ArticleFileOf(articles[..last], k);
    }
  }

  lemma ArticleInFinished(s: Selection, sources: Sources, k: nat)
    requires Apart(AllMedia(s.articles), s.articles) && Fits(sources, AllMedia(s.articles), s.articles)
    requires k < |s.articles|
    ensures var files := Finished(s, sources);
            s.articles[k].path in files && files[s.articles[k].path] == Rendered(s.articles[k])
  {
    ArticleFileOf(s.articles, k);
  }

  lemma ImageInFinished(s: Selection, sources: Sources, m: nat)
    requires Apart(AllMedia(s.articles), s.articles) && Fits(sources, AllMedia(s.articles), s.articles)
    requires m < |AllMedia(s.articles)| && IsFirst(AllMedia(s.articles), m)
    ensures var files, media := Finished(s, sources), AllMedia(s.articles);
            media[m].path in files && files[media[m].path] == Image(media[m].stored)
  {
    var media := AllMedia(s.articles);
    ImageFileOf(media, m);
    if media[m].path in ArticleFiles(s.articles) {
      ArticlesAreListed(s.articles, media[m].path);
    }
  }

  lemma NothingElseInFinished(s: Selection, sources: Sources, path: string)
    requires Fits(sources, AllMedia(s.articles), s.articles) && path in Finished(s, sources)
    ensures || path == INDEX || path == MANIFEST || (exists k | 0 <= k < |s.articles| :: s.articles[k].path == path)
            || exists m | 0 <= m < |AllMedia(s.articles)| :: AllMedia(s.articles)[m].path == path
  {
    var media := AllMedia(s.articles);
    if path in ImageFiles(media) {
      ImagesAreShown(media, path);
      var m :| 0 <= m < |media| && media[m].path == path;
      assert AllMedia(s.articles)[m].path == path;
    } else if path in ArticleFiles(s.articles) {
      ArticlesAreListed(s.articles, path);
    }
  }

  // A finished export holds each article under its path, each object under its path as its first placement gives
  // it, the index of all articles in order and the manifest with the totals, and nothing else.
  lemma FinishedFiles(s: Selection, sources: Sources, k: nat, m: nat, path: string)
    requires Apart(AllMedia(s.articles), s.articles) && Fits(sources, AllMedia(s.articles), s.articles)
    ensures var files, media := Finished(s, sources), AllMedia(s.articles);
            && (k < |s.articles| ==>
                  s.articles[k].path in files && files[s.articles[k].path] == Rendered(s.articles[k]))
            && (m < |media| && IsFirst(media, m) ==>
                  media[m].path in files && files[media[m].path] == Image(media[m].stored))
            && INDEX in files && files[INDEX] == Index(s.articles)
            && MANIFEST in files && files[MANIFEST] == Manifest(|s.articles|, s.uncaptured, s.canonicalBytes,
                 |Contents(media)|, |media|, ImageBytes(sources, media).value)
            && (path in files ==>
                  || path == INDEX || path == MANIFEST
                  || (exists i | 0 <= i < |s.articles| :: s.articles[i].path == path)
                  || exists i | 0 <= i < |media| :: media[i].path == path)
  {
    var media := AllMedia(s.articles);
    if k < |s.articles| {
      ArticleInFinished(s, sources, k);
    }
    if m < |media| && IsFirst(media, m) {
      ImageInFinished(s, sources, m);
    }
    if path in Finished(s, sources) {
      NothingElseInFinished(s, sources, path);
    }
    assert INDEX[0] != MANIFEST[0];
  }

  /** Each object's first placement reads and verifies. */
  ghost predicate AllRead(sources: Sources, media: seq<Placed>) {
    forall m | 0 <= m < |media| && IsFirst(media, m) :: sources.image(media[m].stored).Some?
  }

  lemma FirstAmongMore(media: seq<Placed>, m: nat)
    requires m < |media|
    ensures m < |media| - 1 ==> (IsFirst(media, m) <==> IsFirst(media[..|media| - 1], m))
    ensures m == |media| - 1 ==> (IsFirst(media, m) <==> media[m].stored.content !in Contents(media[..m]))
  {
    if m == |media| - 1 {
      ContentsAreShown(media[..m], media[m].stored.content);
    }
  }

  lemma OneMoreRead(sources: Sources, media: seq<Placed>)
    requires media != []
    ensures var before, last := media[..|media| - 1], media[|media| - 1].stored;
            AllRead(sources, media) <==>
            AllRead(sources, before) && (last.content in Contents(before) || sources.image(last).Some?)
  {
    var before := media[..|media| - 1];
    forall m | 0 <= m < |media|
      ensures m < |before| ==> (IsFirst(media, m) <==> IsFirst(before, m)) && before[m] == media[m]
      ensures m == |before| ==> (IsFirst(media, m) <==> media[m].stored.content !in Contents(before))
    {
      FirstAmongMore(media, m);
    }
  }

  lemma {:induction false} ImagesRead(sources: Sources, media: seq<Placed>)
    ensures ImageBytes(sources, media).Some? <==> AllRead(sources, media)
  {
    if media != [] {
      ImagesRead(sources, media[..|media| - 1]);
      OneMoreRead(sources, media);
    }
  }

  lemma {:induction false} ArticlesRender(sources: Sources, articles: seq<Article>)
    ensures ArticleBytes(sources, articles).Some? <==>
            forall k | 0 <= k < |articles| :: sources.render(articles[k]).Some?
  {
    if articles != [] {
      ArticlesRender(sources, articles[..|articles| - 1]);
    }
  }

  // Everything fits exactly when each object's first placement reads, each article renders, and together they
  // take at most 1 GiB.
  lemma FitsExactly(sources: Sources, media: seq<Placed>, articles: seq<Article>)
    ensures Fits(sources, media, articles) <==>
            && AllRead(sources, media) && (forall k | 0 <= k < |articles| :: sources.render(articles[k]).Some?)
            && var images, texts := ImageBytes(sources, media), ArticleBytes(sources, articles);
               images.Some? && texts.Some? && images.value + texts.value <= 1_073_741_824
  {
    ImagesRead(sources, media);
    ArticlesRender(sources, articles);
  }
}
