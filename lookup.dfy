/** One turn of LookupProcessor.Execute's book loops: search GoodReads for a book (or
    follow a hint link), read the book page, and merge it into the store. The in-memory
    book is marked GoodReadsFetchTried before the result is inspected, but the mark is
    only saved by a store write, so a turn whose book page cannot be read saves nothing. */
module Lookup {
  import opened Wrappers
  import opened Results
  import opened Store
  import opened Fetch

  /** How a turn ends: the run crashes, the search finds nothing, the found page cannot be
      read, or the store is updated from the page. */
  datatype Turn = Aborted | NotFound | NoEntry | Updated(entry: BookDetails)

  /** The outcome of a search turn (LookupProcessor.cs:109-128). */
  function SearchTurn(net: Net, decode: string -> string, overlap: (seq<string>, seq<string>) -> nat,
                      book: Book, authorNames: seq<string>, t: nat): Turn
  {
    var s := Search(net, decode, overlap, book.bookTitle, authorNames, t);
    if s.result.Err? then Aborted
    else if s.result.value.None? then NotFound
    else
      var e := BookEntry(net, s.result.value.value, s.clock).0;
      if e.None? then NoEntry else Updated(e.value)
  }

  /** A search turn that finds a row reads that row's page and nothing else. */
  lemma SearchTurnReadsFoundRow(net: Net, decode: string -> string, overlap: (seq<string>, seq<string>) -> nat,
                                book: Book, authorNames: seq<string>, t: nat)
    ensures var s := Search(net, decode, overlap, book.bookTitle, authorNames, t);
      SearchTurn(net, decode, overlap, book, authorNames, t).NoEntry? <==>
        s.result.Ok? && s.result.value.Some? && BookPage(net, s.result.value.value.link, s.clock, 20, false, false).page.None?
  {
  }

  /** The store after the four upserts of a found page, in source order: the genres, the
      series, the authors, then the book row with the page's details. */
  function Merged(t: Tables, keys: Keys, entry: BookDetails, book: Book): Tables
  {
    var g := t.(genres := WithGenres(t.genres, keys.genreKey, entry.genres),
                genreLinks := t.genreLinks + GenreLinks(book.bookId, keys.genreKey, entry.genres));
    var s := WithSeries(g, keys.seriesKey, entry, book.bookId);
    var a := s.(authors := WithAuthors(s.authors, keys.authorKey, entry.authors),
                authorLinks := s.authorLinks + AuthorLinks(book.bookId, keys.authorKey, entry.authors));
    a.(books := a.books[book.bookId := WithDetails(book, entry)])
  }

  /** Merging the same page into the store a second time changes nothing. */
  lemma MergedIdempotent(t: Tables, keys: Keys, entry: BookDetails, book: Book)
    ensures Merged(Merged(t, keys, entry, book), keys, entry, book) == Merged(t, keys, entry, book)
  {
    WithGenresIdempotent(t.genres, keys.genreKey, entry.genres);
    WithAuthorsIdempotent(t.authors, keys.authorKey, entry.authors);
  }

  /** Merging a page into a consistent store, for a stored book, keeps it consistent. */
  lemma MergedLinked(t: Tables, keys: Keys, entry: BookDetails, book: Book)
    requires Linked(t) && book.bookId in t.books
    ensures Linked(Merged(t, keys, entry, book))
  {
    GenreLinksMeaning(book.bookId, keys.genreKey, entry.genres);
    WithGenresKeys(t.genres, keys.genreKey, entry.genres);
    AuthorLinksMeaning(book.bookId, keys.authorKey, entry.authors);
    WithAuthorsKeys(t.authors, keys.authorKey, entry.authors);
  }

  /** The four upserts of a found page, in source order. */
  method MergeEntry(lib: Library, keys: Keys, entry: BookDetails, book: Book)
    requires lib.Valid() && book.bookId in lib.books
    modifies lib
    ensures lib.Valid()
    ensures lib.State() == Merged(old(lib.State()), keys, entry, book)
  {
    lib.UpdateGenres(keys, entry, book);
    lib.UpdateSeries(keys, entry, book);
    lib.UpdateAuthors(keys, entry, book);
    var updated := lib.UpdateBook(entry, book);
  }

  /** A search turn of the book loop. */
  method LookupBook(lib: Library, keys: Keys, net: Net, decode: string -> string,
                    overlap: (seq<string>, seq<string>) -> nat, book: Book, authorNames: seq<string>, clock: nat)
    returns (turn: Turn, after: nat)
    requires lib.Valid() && book.bookId in lib.books
    modifies lib
    ensures lib.Valid()
    ensures turn == SearchTurn(net, decode, overlap, book, authorNames, clock)
    ensures clock <= after <= clock + 130
    ensures turn.Aborted? || turn.NoEntry? ==> lib.State() == old(lib.State())
    ensures turn.NotFound? ==>
      lib.State() == old(lib.State()).(books := old(lib.books)[book.bookId := book.(goodReadsFetchTried := true)])
    ensures turn.Updated? ==>
      lib.State() == Merged(old(lib.State()), keys, turn.entry, book.(goodReadsFetchTried := true))
    ensures turn.NotFound? || turn.Updated? ==> lib.books[book.bookId].goodReadsFetchTried
  {
    SearchBounds(net, decode, overlap, book.bookTitle, authorNames, clock);
    var searchResult;
    searchResult, after := SearchGoodreads(net, decode, overlap, book.bookTitle, authorNames, clock);
    if searchResult.Err? {
      return Aborted, after;
    }
    var tried := book.(goodReadsFetchTried := true);
    if searchResult.value.Some? {
      var entry;
      entry, after := ProcessGoodreadsBookEntry(net, searchResult.value.value, after);
      if entry.Some? {
        MergeEntry(lib, keys, entry.value, tried);
        return Updated(entry.value), after;
      }
      return NoEntry, after;
    } else {
      lib.SaveBook(tried);
      return NotFound, after;
    }
  }

  /** A hint-file turn (LookupProcessor.cs:67-81): the hint's link is read as a bare
      search row; when the hint's book is not stored, marking it throws after the loads. */
  function HintTurn(net: Net, stored: bool, link: Option<string>, t: nat): Turn
  {
    var row := QueryResult([], "", None, None, link);
    var e := BookEntry(net, row, t).0;
    if !stored then Aborted else if e.None? then NoEntry else Updated(e.value)
  }

  /** The row built from a hint link has no title, no authors and the hint's link. */
  lemma HintRow(link: Option<string>)
    ensures NewQueryResult(None, None, link) == Ok(QueryResult([], "", None, None, link))
  {
  }

  /** A hint-file turn for the stored book with the hint's id: a page that cannot be read,
      or a book id that is not stored, saves nothing, not even the mark. */
  method LookupHint(lib: Library, keys: Keys, net: Net, bookId: string, link: Option<string>, clock: nat)
    returns (turn: Turn, after: nat)
    requires lib.Valid()
    modifies lib
    ensures lib.Valid()
    ensures turn == HintTurn(net, bookId in old(lib.books), link, clock)
    ensures clock <= after <= clock + 100
    ensures turn.Aborted? || turn.NoEntry? ==> lib.State() == old(lib.State())
    ensures turn.Updated? ==>
      && bookId in old(lib.books)
      && lib.State() == Merged(old(lib.State()), keys, turn.entry, old(lib.books)[bookId].(goodReadsFetchTried := true))
  {
    var book := if bookId in lib.books then Some(lib.books[bookId]) else None;
    HintRow(link);
    var bookLookup := NewQueryResult(None, None, link);
    var entry;
    entry, after := ProcessGoodreadsBookEntry(net, bookLookup.value, clock);
    if book.None? {
      return Aborted, after;
    }
    var tried := book.value.(goodReadsFetchTried := true);
    if entry.Some? {
      MergeEntry(lib, keys, entry.value, tried);
      return Updated(entry.value), after;
    }
    return NoEntry, after;
  }
}
