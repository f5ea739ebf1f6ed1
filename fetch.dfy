/** The bounded fetch loops of LookupProcessor.cs against an abstract network: DoWebQuery's
    retries, SearchGoodreads' result pages and ProcessGoodreadsBookEntry's page attempts.
    A load is numbered by a clock that counts every HtmlWeb.Load of the run; the network
    says what the load with that number returns, or None when it throws. */
module Fetch {
  import opened Wrappers
  import opened Text
  import opened Results
  import opened Store
  import opened Normalize
  import opened Matching
  import opened LookupParsers

  /** What scraping one loaded page yields: the rows and next-page link of a search page,
      whether a book page has its left and right containers, and the book details parsed
      from it. The HTML itself is not modelled. */
  datatype Page = Page(
    rows: seq<QueryResult>,
    nextLink: Option<string>,
    leftContainer: bool,
    rightContainer: bool,
    details: BookDetails)

  /** The page the load numbered t of an address returns, or None when the load throws. */
  type Net = (string, nat) -> Option<Page>

  /** One HtmlWeb.Load; loading a null address throws. */
  function Load(net: Net, request: Option<string>, t: nat): Option<Page> {
    if request.None? then None else net(request.value, t)
  }

  /** A page, or null, and the clock after the loads that produced it. */
  datatype Fetched = Fetched(page: Option<Page>, clock: nat)

  // ---------------------------------------------------------------- DoWebQuery

  /** Up to `tries` loads of one address, stopping at the first that does not throw. */
  function WebQuery(net: Net, request: Option<string>, t: nat, tries: nat): (f: Fetched)
    ensures t <= f.clock <= t + tries
    decreases tries
  {
    if tries == 0 then Fetched(None, t)
    else if Load(net, request, t).Some? then Fetched(Load(net, request, t), t + 1)
    else WebQuery(net, request, t + 1, tries - 1)
  }

  /** The query returns the first load that does not throw, after every earlier one threw;
      it returns null only when all of its loads threw. */
  lemma {:induction false} WebQueryMeaning(net: Net, request: Option<string>, t: nat, tries: nat)
    ensures var f := WebQuery(net, request, t, tries);
      && (f.page.Some? ==> t < f.clock && f.page == Load(net, request, f.clock - 1))
      && (forall u :: t <= u < f.clock - 1 ==> Load(net, request, u).None?)
      && (f.page.None? ==> f.clock == t + tries && forall u :: t <= u < t + tries ==> Load(net, request, u).None?)
    decreases tries
  {
    if tries > 0 && Load(net, request, t).None? {
      WebQueryMeaning(net, request, t + 1, tries - 1);
    }
  }

  /** A null address is never fetched. */
  lemma NullRequestFails(net: Net, t: nat, tries: nat)
    ensures WebQuery(net, None, t, tries) == Fetched(None, t + tries)
  {
    WebQueryMeaning(net, None, t, tries);
  }

  /** DoWebQuery: at most five loads, the first one that does not throw wins. The delay
      before the first load is left out. */
  method DoWebQuery(net: Net, request: Option<string>, clock: nat) returns (result: Option<Page>, after: nat)
    ensures Fetched(result, after) == WebQuery(net, request, clock, 5)
    ensures clock < after <= clock + 5
  {
    after := clock;
    for i := 0 to 5
      invariant after == clock + i
      invariant WebQuery(net, request, after, 5 - i) == WebQuery(net, request, clock, 5)
    {
      var loaded := Load(net, request, after);
      after := after + 1;
      if loaded.Some? {
        return loaded, after;
      }
    }
    return None, after;
  }

  // ---------------------------------------------------------------- SearchGoodreads

  /** How the paging loop of SearchGoodreads ends: the process crashes, the search returns
      null, or the rows of the pages read are collected. */
  datatype Pass = Crashed(clock: nat) | GaveUp(clock: nat) | Collected(rows: seq<QueryResult>, clock: nat)

  /** The paging loop, as written: the null test after each query is on the address, not
      on the page, and a page that could not be loaded is handed on to be scraped. */
  function Paging(net: Net, request: Option<string>, t: nat, pages: nat, rows: seq<QueryResult>): Pass
    decreases pages
  {
    if pages == 0 then Collected(rows, t)
    else
      var f := WebQuery(net, request, t, 5);
      if request.None? then GaveUp(f.clock)
      else if f.page.None? then Crashed(f.clock)
      else
        var more := rows + f.page.value.rows;
        var next := f.page.value.nextLink;
        if next.None? then Collected(more, f.clock) else Paging(net, next, f.clock, pages - 1, more)
  }

  /** The null test on the address never fires: the loop only goes on with a next link. */
  lemma {:induction false} PagingNeverGivesUp(net: Net, request: string, t: nat, pages: nat, rows: seq<QueryResult>)
    ensures !Paging(net, Some(request), t, pages, rows).GaveUp?
    decreases pages
  {
    if pages > 0 {
      var f := WebQuery(net, Some(request), t, 5);
      if f.page.Some? && f.page.value.nextLink.Some? {
        PagingNeverGivesUp(net, f.page.value.nextLink.value, f.clock, pages - 1, rows + f.page.value.rows);
      }
    }
  }

  /** A result page that cannot be loaded in five tries ends the run with a null reference. */
  lemma FailedPageCrashes(net: Net, request: string, t: nat, pages: nat, rows: seq<QueryResult>)
    requires pages > 0
    requires forall u :: t <= u < t + 5 ==> net(request, u).None?
    ensures Paging(net, Some(request), t, pages, rows) == Crashed(t + 5)
  {
    WebQueryMeaning(net, Some(request), t, 5);
  }

  /** At most `pages` result pages are read, each with at most five loads, and the rows
      already collected are kept in front. */
  lemma {:induction false} PagingBounds(net: Net, request: Option<string>, t: nat, pages: nat, rows: seq<QueryResult>)
    ensures var p := Paging(net, request, t, pages, rows);
      && t <= p.clock <= t + 5 * pages
      && (p.Collected? ==> rows <= p.rows)
    decreases pages
  {
    if pages > 0 {
      var f := WebQuery(net, request, t, 5);
      if request.Some? && f.page.Some? && f.page.value.nextLink.Some? {
        PagingBounds(net, f.page.value.nextLink, f.clock, pages - 1, rows + f.page.value.rows);
      }
    }
  }

  /** The whole search: its result, or the crash, and the clock after it. */
  datatype Searched = Searched(result: Result<Option<QueryResult>>, clock: nat)

  /** SearchGoodreads: the author query's pages are matched; when nothing matches, one
      more query with the normalised title and the authors is matched on its own. */
  function Search(net: Net, decode: string -> string, overlap: (seq<string>, seq<string>) -> nat,
                  bookTitle: string, authorNames: seq<string>, t: nat): Searched
  {
    AfterPaging(net, decode, overlap, bookTitle, authorNames,
                Paging(net, Some(QueryFromAuthors(authorNames)), t, 5, []),
                QueryFromTitleAuthor(NormalizeTitle(bookTitle), authorNames))
  }

  /** What SearchGoodreads does with the outcome of the paging loop; `titleQuery` is the
      fallback query it sends when no row of the pages matches. */
  function AfterPaging(net: Net, decode: string -> string, overlap: (seq<string>, seq<string>) -> nat,
                       bookTitle: string, authorNames: seq<string>, p: Pass, titleQuery: string): (s: Searched)
    ensures p.clock <= s.clock <= p.clock + 5
  {
    match p
    case Crashed(c) => Searched(Err(NullReference), c)
    case GaveUp(c) => Searched(Ok(None), c)
    case Collected(rows, c) =>
      var m := Selected(decode, overlap, bookTitle, authorNames, rows);
      if m.Some? then Searched(Ok(m), c)
      else
        var f := WebQuery(net, Some(titleQuery), c, 5);
        if f.page.None? then Searched(Ok(None), f.clock)
        else Searched(Ok(Selected(decode, overlap, bookTitle, authorNames, f.page.value.rows)), f.clock)
  }

  /** A search makes at most six queries, five result pages and the title query, so at
      most thirty loads. */
  lemma SearchBounds(net: Net, decode: string -> string, overlap: (seq<string>, seq<string>) -> nat,
                     bookTitle: string, authorNames: seq<string>, t: nat)
    ensures t <= Search(net, decode, overlap, bookTitle, authorNames, t).clock <= t + 30
  {
    PagingBounds(net, Some(QueryFromAuthors(authorNames)), t, 5, []);
  }

  /** A search that finds a row found it by the title agreement of the matcher. */
  lemma SearchFindsAgreeingTitle(net: Net, decode: string -> string, overlap: (seq<string>, seq<string>) -> nat,
                                 bookTitle: string, authorNames: seq<string>, t: nat)
    ensures var s := Search(net, decode, overlap, bookTitle, authorNames, t);
      s.result.Ok? && s.result.value.Some? ==>
        TitlesAgree(NormalizeTitle(decode(bookTitle)), NormalizeTitle(s.result.value.value.title))
  {
    var p := Paging(net, Some(QueryFromAuthors(authorNames)), t, 5, []);
    if p.Collected? {
      SelectedAgrees(decode, overlap, bookTitle, authorNames, p.rows);
      var f := WebQuery(net, Some(QueryFromTitleAuthor(NormalizeTitle(bookTitle), authorNames)), p.clock, 5);
      if f.page.Some? {
        SelectedAgrees(decode, overlap, bookTitle, authorNames, f.page.value.rows);
      }
    }
  }

  lemma SelectedAgrees(decode: string -> string, overlap: (seq<string>, seq<string>) -> nat,
                       bookTitle: string, authorNames: seq<string>, rows: seq<QueryResult>)
    ensures var m := Selected(decode, overlap, bookTitle, authorNames, rows);
      m.Some? ==> TitlesAgree(NormalizeTitle(decode(bookTitle)), NormalizeTitle(m.value.title))
  {
    var key := NormalizeTitle(decode(bookTitle));
    var vs := Views(decode, authorNames, rows);
    PickMeaning(overlap, key, vs);
  }

  /** The paging loop of SearchGoodreads. */
  method CollectPages(net: Net, first: string, clock: nat) returns (pass: Pass)
    ensures pass == Paging(net, Some(first), clock, 5, [])
  {
    var searchRequest: Option<string> := Some(first);
    var bookResults: seq<QueryResult> := [];
    var now := clock;
    var i := 0;
    while i < 5
      invariant 0 <= i <= 5
      invariant Paging(net, searchRequest, now, 5 - i, bookResults) == Paging(net, Some(first), clock, 5, [])
    {
      var searchResult;
      searchResult, now := DoWebQuery(net, searchRequest, now);
      if searchRequest.None? {
        return GaveUp(now);
      }
      if searchResult.None? {
        return Crashed(now);   // ProcessSearchQueryToList(null)
      }
      bookResults := bookResults + searchResult.value.rows;
      searchRequest := searchResult.value.nextLink;
      if searchRequest.None? {
        return Collected(bookResults, now);
      }
      i := i + 1;
    }
    return Collected(bookResults, now);
  }

  /** SearchGoodreads(book, authors). */
  method SearchGoodreads(net: Net, decode: string -> string, overlap: (seq<string>, seq<string>) -> nat,
                         bookTitle: string, authorNames: seq<string>, clock: nat)
    returns (r: Result<Option<QueryResult>>, after: nat)
    ensures Searched(r, after) == Search(net, decode, overlap, bookTitle, authorNames, clock)
  {
    var pass := CollectPages(net, QueryFromAuthors(authorNames), clock);
    if pass.Crashed? {
      return Err(NullReference), pass.clock;
    }
    if pass.GaveUp? {
      return Ok(None), pass.clock;
    }
    after := pass.clock;
    var bookMatch := MatchBookResults(decode, overlap, bookTitle, authorNames, pass.rows);
    if bookMatch.None? {
      var title := NormalizeTitle(bookTitle);
      var searchRequest := QueryFromTitleAuthor(title, authorNames);
      var searchResult;
      searchResult, after := DoWebQuery(net, Some(searchRequest), after);
      if searchResult.None? {
        return Ok(None), after;
      }
      bookMatch := MatchBookResults(decode, overlap, bookTitle, authorNames, searchResult.value.rows);
    }
    return Ok(bookMatch), after;
  }

  // ---------------------------------------------------------------- ProcessGoodreadsBookEntry

  /** The page attempts of ProcessGoodreadsBookEntry: each attempt is one DoWebQuery; a
      loaded page replaces the two container flags, a failed one leaves them; the loop
      stops at the first attempt after which both are set. */
  function BookPage(net: Net, link: Option<string>, t: nat, tries: nat, left: bool, right: bool): Fetched
    requires !(left && right)
    decreases tries
  {
    if tries == 0 then Fetched(None, t)
    else
      var q := WebQuery(net, link, t, 5);
      var l := if q.page.Some? then q.page.value.leftContainer else left;
      var r := if q.page.Some? then q.page.value.rightContainer else right;
      if l && r then q else BookPage(net, link, q.clock, tries - 1, l, r)
  }

  /** The attempts use at most five loads each, and a page is only ever returned for a
      non-null link, with both containers. */
  lemma {:induction false} BookPageFacts(net: Net, link: Option<string>, t: nat, tries: nat, left: bool, right: bool)
    requires !(left && right)
    ensures var f := BookPage(net, link, t, tries, left, right);
      && t <= f.clock <= t + 5 * tries
      && (f.page.Some? ==> link.Some? && f.page.value.leftContainer && f.page.value.rightContainer)
    decreases tries
  {
    if tries > 0 {
      var q := WebQuery(net, link, t, 5);
      var l := if q.page.Some? then q.page.value.leftContainer else left;
      var r := if q.page.Some? then q.page.value.rightContainer else right;
      if link.None? {
        NullRequestFails(net, t, 5);
      }
      if !(l && r) {
        BookPageFacts(net, link, q.clock, tries - 1, l, r);
      }
    }
  }

  /** A loaded book page with both containers. */
  predicate Usable(p: Option<Page>) {
    p.Some? && p.value.leftContainer && p.value.rightContainer
  }

  /** The page used is the first load with both containers: the stale flags of a failed
      attempt never complete a pair. */
  lemma {:induction false} BookPageFirstUsable(net: Net, link: Option<string>, t: nat, tries: nat, left: bool, right: bool)
    requires !(left && right)
    ensures var f := BookPage(net, link, t, tries, left, right);
      && (f.page.Some? ==> t < f.clock && f.page == Load(net, link, f.clock - 1))
      && (forall u :: t <= u < f.clock - 1 ==> !Usable(Load(net, link, u)))
      && (f.page.None? ==> forall u :: t <= u < f.clock ==> !Usable(Load(net, link, u)))
    decreases tries
  {
    if tries > 0 {
      var q := WebQuery(net, link, t, 5);
      WebQueryMeaning(net, link, t, 5);
      var l := if q.page.Some? then q.page.value.leftContainer else left;
      var r := if q.page.Some? then q.page.value.rightContainer else right;
      BookPageStep(net, link, t, tries, left, right, q, l, r);
      if !(l && r) {
        BookPageFirstUsable(net, link, q.clock, tries - 1, l, r);
        assert !Usable(Load(net, link, q.clock - 1));
      }
    }
  }

  /** ProcessGoodreadsBookEntry's result: the details of the page found, with the book
      link cut at its first `?` and trimmed. */
  function BookEntry(net: Net, goodreadsEntry: QueryResult, t: nat): (e: (Option<BookDetails>, nat))
    ensures t <= e.1 <= t + 100
  {
    var f := BookPage(net, goodreadsEntry.link, t, 20, false, false);
    BookPageFacts(net, goodreadsEntry.link, t, 20, false, false);
    if f.page.None? then (None, f.clock)
    else (Some(f.page.value.details.(bookLink := Trim(Split(goodreadsEntry.link.value, '?')[0]))), f.clock)
  }

  /** One attempt of the page loop. */
  lemma BookPageStep(net: Net, link: Option<string>, t: nat, tries: nat, left: bool, right: bool,
                     q: Fetched, left2: bool, right2: bool)
    requires tries > 0 && !(left && right) && q == WebQuery(net, link, t, 5)
    requires left2 == (if q.page.Some? then q.page.value.leftContainer else left)
    requires right2 == (if q.page.Some? then q.page.value.rightContainer else right)
    ensures left2 && right2 ==> BookPage(net, link, t, tries, left, right) == q
    ensures !(left2 && right2) ==> BookPage(net, link, t, tries, left, right) == BookPage(net, link, q.clock, tries - 1, left2, right2)
  {
  }

  /** The attempt loop of ProcessGoodreadsBookEntry: up to twenty queries, stopping once
      both containers are found; the page is null when the loop runs out. */
  method FindBookPage(net: Net, link: Option<string>, clock: nat) returns (page: Option<Page>, after: nat)
    ensures Fetched(page, after) == BookPage(net, link, clock, 20, false, false)
  {
    var leftNode := false;
    var rightNode := false;
    var bookResult: Option<Page> := None;
    after := clock;
    ghost var left := 20;
    var i := 0;
    while i < 20
      invariant 0 <= i <= 20 && left == 20 - i
      invariant !(leftNode && rightNode)
      invariant BookPage(net, link, after, left, leftNode, rightNode) == BookPage(net, link, clock, 20, false, false)
    {
      ghost var before := after;
      ghost var l0, r0 := leftNode, rightNode;
      bookResult, after := DoWebQuery(net, link, after);
      if bookResult.Some? {
        leftNode := bookResult.value.leftContainer;
        rightNode := bookResult.value.rightContainer;
      }
      BookPageStep(net, link, before, left, l0, r0, Fetched(bookResult, after), leftNode, rightNode);
      if leftNode && rightNode {
        return bookResult, after;
      }
      i := i + 1;
      left := left - 1;
    }
    return None, after;
  }

  /** ProcessGoodreadsBookEntry: the details of the page found, or null. */
  method ProcessGoodreadsBookEntry(net: Net, goodreadsEntry: QueryResult, clock: nat)
    returns (entry: Option<BookDetails>, after: nat)
    ensures (entry, after) == BookEntry(net, goodreadsEntry, clock)
    ensures clock <= after <= clock + 100
  {
    var bookResult;
    bookResult, after := FindBookPage(net, goodreadsEntry.link, clock);
    BookPageFacts(net, goodreadsEntry.link, clock, 20, false, false);
    if bookResult.None? {
      return None, after;
    }
    var bookDetails := bookResult.value.details.(bookLink := Trim(Split(goodreadsEntry.link.value, '?')[0]));
    return Some(bookDetails), after;
  }
}
