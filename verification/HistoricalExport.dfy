/**
 The historical export as a whole: from the text of a timestamp, through the cutoff, to the articles of the
 selection. A finished selection is proved to be the selected pages as they were at the instant.
 */
module HistoricalExport {
  import opened ExportPaths
  import opened ExportSelection
  import opened TimestampText
  import opened TimestampTheorems
  import opened Wrappers
  import H = HistoricalCutoff

  /** The captured revisions of each page, and for each wiki and revision its page and its size. */
  datatype History = History(rows: Page -> seq<H.Revision>, pageOf: (nat, nat) -> nat, sizeOf: (nat, nat) -> nat)

  function AsRevision(history: History, page: Page, row: H.Revision): Revision {
    Revision(row.id, history.pageOf(page.wiki, row.id), history.sizeOf(page.wiki, row.id))
  }

  /** The store's answer for a page at a cutoff. */
  function RevisionOfPage(history: History, cutoff: ParsedTimestamp, page: Page): Result<Option<Revision>, string> {
    match H.RevisionAt(history.rows(page), cutoff)
    case Err(_) => Err("outside the calendar")
    case Ok(None) => Ok(None)
    case Ok(Some(row)) => Ok(Some(AsRevision(history, page, row)))
  }

  /** The library as the export sees it at a cutoff. */
  function LibraryAt(history: History, library: Library, cutoff: ParsedTimestamp): Library {
    library.(revisionOf := page => RevisionOfPage(history, cutoff, page))
  }

  /** Captured revisions of the selected pages carry canonical timestamps. */
  ghost predicate CanonicalHistory(history: History, pages: seq<Page>) {
    forall p, i | 0 <= p < |pages| && 0 <= i < |history.rows(pages[p])| :: H.CanonicalRow(history.rows(pages[p])[i])
  }

  /** The page is shown by an article, in its revision current at the instant. */
  ghost predicate ShownAsOf(s: Selection, history: History, page: Page, cutoff: ParsedTimestamp) {
    exists k, row | 0 <= k < |s.articles| && row in history.rows(page) ::
      s.articles[k].page == page && s.articles[k].revision == AsRevision(history, page, row)
      && H.CurrentAt(history.rows(page), cutoff, Some(row))
  }

  /** No article shows the page, and nothing of it had been captured by the instant. */
  ghost predicate AbsentAsOf(s: Selection, history: History, page: Page, cutoff: ParsedTimestamp) {
    && (forall k | 0 <= k < |s.articles| :: s.articles[k].page != page)
    && H.CurrentAt(history.rows(page), cutoff, None)
  }

  lemma PageAtCutoff(history: History, page: Page, text: seq<byte>)
    requires Parse(text).Ok? && RevisionOfPage(history, Parse(text).value, page).Ok?
    requires forall i | 0 <= i < |history.rows(page)| :: H.CanonicalRow(history.rows(page)[i])
    ensures var cutoff := Parse(text).value;
            H.RevisionAt(history.rows(page), cutoff).Ok?
            && H.CurrentAt(history.rows(page), cutoff, H.RevisionAt(history.rows(page), cutoff).value)
  {
    H.CutoffSelectsByTime(text, history.rows(page));
  }

  lemma {:induction false} CapturedHas(library: Library, pages: seq<Page>, page: Page)
    ensures page in Captured(library, pages) <==> page in pages && HasRevision(library, page)
  {
    if pages != [] {
      var last := |pages| - 1;
      CapturedHas(library, pages[..last], page);
      assert pages == pages[..last] + [pages[last]];
    }
  }

  // In a finished selection a selected page is shown exactly as it was at the instant, or absent exactly
  // because nothing of it had been captured by then.
  lemma PageIsAsOf(s: Selection, history: History, library: Library, pages: seq<Page>, extension: string,
                   paths: map<ObjectId, string>, text: seq<byte>, page: Page)
    requires Parse(text).Ok? && page in pages && CanonicalHistory(history, pages)
    requires Exportable(LibraryAt(history, library, Parse(text).value), pages)
    requires Faithful(s, LibraryAt(history, library, Parse(text).value), pages, extension, paths)
    ensures ShownAsOf(s, history, page, Parse(text).value) || AbsentAsOf(s, history, page, Parse(text).value)
  {
    var cutoff := Parse(text).value;
    var at := LibraryAt(history, library, cutoff);
    var i :| 0 <= i < |pages| && pages[i] == page;
    assert Sound(at, pages[i]);
    PageAtCutoff(history, page, text);
    CapturedHas(at, pages, page);
    var captured := Captured(at, pages);
    var row := H.RevisionAt(history.rows(page), cutoff).value;
    if row.Some? {
      var k :| 0 <= k < |captured| && captured[k] == page;
      assert s.articles[k].page == page && s.articles[k].revision == AsRevision(history, page, row.value);
      assert row.value in history.rows(page);
    } else {
      forall k | 0 <= k < |s.articles|
        ensures s.articles[k].page != page
      {
        assert s.articles[k].page == captured[k];
      }
    }
  }

  // A selection at an accepted timestamp shows every selected page exactly as it was at that instant, and
  // it is refused outright when the instant cannot be printed.
  method SelectAt(history: History, library: Library, text: seq<byte>, pages: seq<Page>, extension: string)
    returns (r: Result<Selection, string>, ghost paths: map<ObjectId, string>)
    requires DistinctKeys(pages) && CanonicalHistory(history, pages)
    ensures r.Ok? <==> Parse(text).Ok? && Exportable(LibraryAt(history, library, Parse(text).value), pages)
    ensures r.Ok? ==> Faithful(r.value, LibraryAt(history, library, Parse(text).value), pages, extension, paths)
    ensures r.Ok? ==>
              forall page <- pages ::
                ShownAsOf(r.value, history, page, Parse(text).value)
                || AbsentAsOf(r.value, history, page, Parse(text).value)
    ensures r.Ok? && pages != [] ==> FIRST_PRINTABLE <= UnixSeconds(Reading(text)) <= LAST_PRINTABLE
  {
    paths := map[];
    var cutoff := ParseRfc3339(text);
    if cutoff.Err? {
      return Err("invalid timestamp"), paths;
    }
    r, paths := RunSelected(LibraryAt(history, library, cutoff.value), pages, extension);
    if r.Ok? {
      forall page <- pages
        ensures ShownAsOf(r.value, history, page, cutoff.value) || AbsentAsOf(r.value, history, page, cutoff.value)
      {
        PageIsAsOf(r.value, history, library, pages, extension, paths, text, page);
      }
      if pages != [] {
        assert Sound(LibraryAt(history, library, cutoff.value), pages[0]);
        H.CutoffSelectsByTime(text, history.rows(pages[0]));
      }
    }
  }
}
