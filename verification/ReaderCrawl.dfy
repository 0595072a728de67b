/**
 The audit's crawl of the local reader: a worklist search that fetches at most 64 pages. The links a
 page yields are a function of its path; what fetching and parsing do is outside the model.
 */
module ReaderCrawl {
  import opened Sets
  import opened Wrappers

  const LIMIT := 64
  const START := "/"
  const STYLESHEET := "/assets/reader.css"

  /** What fetching a path yields: the local links it pushes in order, or a failed audit. */
  type Site = string -> Option<seq<string>>

  predicate Links(site: Site, from: string, to: string) {
    site(from).Some? && to in site(from).value
  }

  /** `trail` leads by links from the start page to `path`. */
  predicate LeadsTo(site: Site, trail: seq<string>, path: string) {
    && trail != [] && trail[0] == START && trail[|trail| - 1] == path
    && forall i | 0 <= i < |trail| - 1 :: Links(site, trail[i], trail[i + 1])
  }

  ghost predicate Reachable(site: Site, path: string) {
    exists trail :: LeadsTo(site, trail, path)
  }

  lemma StartIsReachable(site: Site)
    ensures Reachable(site, START)
  {
    assert LeadsTo(site, [START], START);
  }

  lemma LinkIsReachable(site: Site, from: string, to: string)
    requires Reachable(site, from) && Links(site, from, to)
    ensures Reachable(site, to)
  {
    var trail :| LeadsTo(site, trail, from);
    var longer := trail + [to];
    forall i | 0 <= i < |longer| - 1
      ensures Links(site, longer[i], longer[i + 1])
    {
      if i < |trail| - 1 {
        assert Links(site, trail[i], trail[i + 1]);
      }
    }
    assert LeadsTo(site, longer, to);
  }

  // A set that holds the start page and every link of its pages holds every reachable page.
  lemma {:induction false} ClosedHoldsTrail(site: Site, closed: set<string>, trail: seq<string>, path: string)
    requires START in closed && forall from <- closed, to | Links(site, from, to) :: to in closed
    requires LeadsTo(site, trail, path)
    ensures path in closed
    decreases |trail|
  {
    if |trail| > 1 {
      var shorter := trail[..|trail| - 1];
      var previous := shorter[|shorter| - 1];
      forall i | 0 <= i < |shorter| - 1
        ensures Links(site, shorter[i], shorter[i + 1])
      {
        assert Links(site, trail[i], trail[i + 1]);
      }
      ClosedHoldsTrail(site, closed, shorter, previous);
      assert Links(site, trail[|trail| - 2], trail[|trail| - 2 + 1]);
    }
  }

  /** Everything the worklist promises: pages seen or pending are reachable, and the links of a seen
      page are seen or pending unless the limit has been reached. */
  ghost predicate Crawling(site: Site, pending: seq<string>, visited: set<string>, fetched: seq<string>) {
    && (forall p <- visited :: Reachable(site, p)) && (forall p <- pending :: Reachable(site, p))
    && |visited| <= LIMIT && |fetched| == |visited|
    && (forall p :: p in visited <==> p in fetched)
    && (forall p <- visited :: site(p).Some?)
    && (START in visited || (visited == {} && pending == [START]))
    && (|visited| < LIMIT ==> forall from <- visited, to | Links(site, from, to) :: to in visited || to in pending)
  }

  /** What a finished crawl has visited: reachable pages, and all of them if it stayed below the limit. */
  ghost predicate Visits(site: Site, visited: set<string>) {
    && |visited| <= LIMIT && (forall p <- visited :: Reachable(site, p))
    && (|visited| < LIMIT ==> forall p :: p in visited <==> Reachable(site, p))
  }

  lemma CrawledOut(site: Site, visited: set<string>, fetched: seq<string>)
    requires Crawling(site, [], visited, fetched)
    ensures Visits(site, visited) && visited == set p | p in fetched
  {
    if |visited| < LIMIT {
      forall p | Reachable(site, p)
        ensures p in visited
      {
        var trail :| LeadsTo(site, trail, p);
        ClosedHoldsTrail(site, visited, trail, p);
      }
    }
  }

  /** What a crawl promises of its result and of `fetched`, the requests it made, in order. */
  ghost predicate Crawled(site: Site, result: Option<set<string>>, fetched: seq<string>) {
    && |fetched| <= LIMIT && (forall i, j | 0 <= i < j < |fetched| :: fetched[i] != fetched[j])
    && (forall p <- fetched :: Reachable(site, p))
    // It succeeds exactly when every page it fetched could be read and the stylesheet was among them.
    && (result.Some? <==> (forall p <- fetched :: site(p).Some?) && STYLESHEET in fetched)
    && (result.Some? ==> forall p :: p in result.value <==> p in fetched)
    // It goes on until it meets a failing page.
    && ((forall p <- fetched :: site(p).Some?) ==> Visits(site, set p | p in fetched))
  }

  method CrawlReader(site: Site) returns (result: Option<set<string>>, fetched: seq<string>)
    ensures Crawled(site, result, fetched)
  {
    var pending, visited: set<string> := [START], {};
    fetched := [];
    StartIsReachable(site);
    while pending != []
      invariant Crawling(site, pending, visited, fetched)
      invariant forall i, j | 0 <= i < j < |fetched| :: fetched[i] != fetched[j]
      decreases LIMIT - |visited|, |pending|
    {
      var path := pending[|pending| - 1];
      ghost var before := pending;
      pending := pending[..|pending| - 1];
      assert before == pending + [path];
      if path in visited || |visited| >= LIMIT {
        continue;
      }
      visited := visited + {path};
      fetched := fetched + [path];
      match site(path)
      case None =>
        return None, fetched;
      case Some(links) =>
        forall to <- links
          ensures Reachable(site, to)
        {
          LinkIsReachable(site, path, to);
        }
        pending := pending + links;
    }
    CrawledOut(site, visited, fetched);
    return if STYLESHEET in visited then Some(visited) else None, fetched;
  }

  lemma SameLinksReachTheSame(a: Site, b: Site, p: string)
    requires forall from, to :: Links(a, from, to) <==> Links(b, from, to)
    ensures Reachable(a, p) <==> Reachable(b, p)
  {
    forall trail: seq<string>
      ensures LeadsTo(a, trail, p) <==> LeadsTo(b, trail, p)
    {
    }
  }

  // The order in which links are pushed does not matter: if one crawl stays below the limit, every
  // crawl of the same links visits the same pages.
  lemma OrderDoesNotMatter(a: Site, b: Site, visited: set<string>, others: set<string>)
    requires forall from, to :: Links(a, from, to) <==> Links(b, from, to)
    requires Visits(a, visited) && |visited| < LIMIT && Visits(b, others)
    ensures others == visited
  {
    forall p
      ensures Reachable(a, p) <==> Reachable(b, p)
    {
      SameLinksReachTheSame(a, b, p);
    }
    SubsetSize(others, visited);
  }

  // A site of at most 64 reachable pages passes exactly when all of them can be read and the
  // stylesheet is one of them.
  lemma SmallSitesPassExactly(site: Site, pages: set<string>, result: Option<set<string>>, fetched: seq<string>)
    requires Crawled(site, result, fetched)
    requires |pages| <= LIMIT && forall p :: p in pages <==> Reachable(site, p)
    ensures result.Some? <==> STYLESHEET in pages && forall p <- pages :: site(p).Some?
    ensures result.Some? ==> result.value == pages
  {
    var visited := set p | p in fetched;
    SubsetSize(visited, pages);
    if forall p <- fetched :: site(p).Some? {
      if |visited| == LIMIT {
        SameSize(visited, pages);
      }
      assert visited == pages;
    }
  }
}
