/** CleanProcessor.Execute: drop every book whose folder is gone, with all the rows that
    refer to it, then every author and every series left without a book. Each pass walks
    a list read from the store before the pass starts. */
module Clean {
  import opened Wrappers
  import opened Store

  /** The books whose folder exists. */
  function OnDisk(onDisk: string -> bool, books: map<string, Book>): set<string>
  {
    set id | id in books && onDisk(books[id].bookLocation)
  }

  /** The books whose folder does not exist. */
  function MissingIds(onDisk: string -> bool, books: map<string, Book>): set<string>
  {
    books.Keys - OnDisk(onDisk, books)
  }

  lemma MissingIdsMeaning(onDisk: string -> bool, books: map<string, Book>)
    ensures MissingIds(onDisk, books) <= books.Keys
    ensures forall id :: id in books ==> (id in MissingIds(onDisk, books) <==> !onDisk(books[id].bookLocation))
  {
  }

  /** The authors some link refers to. */
  function LinkedAuthors(links: set<AuthorLink>): set<string>
  {
    set l | l in links :: l.authorId
  }

  /** The series some link refers to. */
  function LinkedSeries(links: map<(string, string), Option<string>>): set<string>
  {
    set p | p in links :: p.1
  }

  /** GetBooksByAuthorId: the books an author is linked to. */
  function AuthorBooks(links: set<AuthorLink>, authorId: string): set<string>
  {
    set l | l in links && l.authorId == authorId :: l.bookId
  }

  /** An author has no books exactly when no link names it. */
  lemma AuthorBooksEmpty(links: set<AuthorLink>, authorId: string)
    ensures |AuthorBooks(links, authorId)| == 0 <==> authorId !in LinkedAuthors(links)
  {
    var ids := AuthorBooks(links, authorId);
    if authorId in LinkedAuthors(links) {
      var l :| l in links && l.authorId == authorId;
      assert l.bookId in ids;
    }
  }

  /** GetSeriesBooks: the books a series is linked to. */
  function SeriesBooks(links: map<(string, string), Option<string>>, seriesId: string): set<string>
  {
    set p | p in links && p.1 == seriesId :: p.0
  }

  /** A series has no books exactly when no link names it. */
  lemma SeriesBooksEmpty(links: map<(string, string), Option<string>>, seriesId: string)
    ensures |SeriesBooks(links, seriesId)| == 0 <==> seriesId !in LinkedSeries(links)
  {
    var ids := SeriesBooks(links, seriesId);
    if seriesId in LinkedSeries(links) {
      var p :| p in links && p.1 == seriesId;
      assert p.0 in ids;
    }
  }

  /** The authors no link refers to. */
  function OrphanAuthors(authors: map<string, Author>, links: set<AuthorLink>): set<string>
  {
    authors.Keys - LinkedAuthors(links)
  }

  lemma OrphanAuthorsMeaning(authors: map<string, Author>, links: set<AuthorLink>)
    ensures OrphanAuthors(authors, links) <= authors.Keys
    ensures forall a :: a in authors ==> (a in OrphanAuthors(authors, links) <==> forall l :: l in links ==> l.authorId != a)
  {
    forall a | a in authors && a !in OrphanAuthors(authors, links)
      ensures exists l :: l in links && l.authorId == a
    {
      var l :| l in links && l.authorId == a;
    }
  }

  /** The series no link refers to. */
  function OrphanSeries(series: map<string, Series>, links: map<(string, string), Option<string>>): set<string>
  {
    series.Keys - LinkedSeries(links)
  }

  lemma OrphanSeriesMeaning(series: map<string, Series>, links: map<(string, string), Option<string>>)
    ensures OrphanSeries(series, links) <= series.Keys
    ensures forall s :: s in series ==> (s in OrphanSeries(series, links) <==> forall p :: p in links ==> p.1 != s)
  {
    forall s | s in series && s !in OrphanSeries(series, links)
      ensures exists p :: p in links && p.1 == s
    {
      var p :| p in links && p.1 == s;
    }
  }

  // ------------------------------------------------------------------ the sweep on values

  /** RemoveBookToSeriesLinksByBook, ...ToAuthorLinks..., ...ToGenreLinks...,
      ...ToAudioLinksAndAudioFiles... and RemoveBook for each of the given books. */
  function DropBooks(t: Tables, gone: set<string>): Tables
  {
    t.(books := t.books - gone,
       authorLinks := (set l | l in t.authorLinks && l.bookId !in gone),
       seriesLinks := (map p | p in t.seriesLinks && p.0 !in gone :: t.seriesLinks[p]),
       genreLinks := (set p | p in t.genreLinks && p.0 !in gone),
       audioLinks := (set p | p in t.audioLinks && p.0 !in gone))
  }

  /** RemoveAuthor for each of the given authors. */
  function DropAuthors(t: Tables, gone: set<string>): Tables
  {
    t.(authors := t.authors - gone)
  }

  /** RemoveSeries for each of the given series. */
  function DropSeries(t: Tables, gone: set<string>): Tables
  {
    t.(series := t.series - gone)
  }

  /** What CleanProcessor.Execute does to the store: the missing books and everything
      linked to them, then the authors and the series no remaining link names. */
  function Sweep(t: Tables, onDisk: string -> bool): Tables
  {
    var t1 := DropBooks(t, MissingIds(onDisk, t.books));
    var t2 := DropAuthors(t1, OrphanAuthors(t1.authors, t1.authorLinks));
    DropSeries(t2, OrphanSeries(t2.series, t2.seriesLinks))
  }

  /** Taking keys off a map one at a time takes them all off. */
  lemma MinusStep<V>(m: map<string, V>, gone: set<string>, k: string)
    ensures (m - gone) - {k} == m - (gone + {k})
  {
  }

  /** Dropping the authors, or the series, one at a time drops them all. */
  lemma DropOneStep(t: Tables, gone: set<string>, k: string)
    ensures DropAuthors(t, gone).(authors := DropAuthors(t, gone).authors - {k}) == DropAuthors(t, gone + {k})
    ensures DropSeries(t, gone).(series := DropSeries(t, gone).series - {k}) == DropSeries(t, gone + {k})
  {
    MinusStep(t.authors, gone, k);
    MinusStep(t.series, gone, k);
  }

  /** Dropping the books one at a time drops them all. */
  lemma DropBooksStep(t: Tables, gone: set<string>, k: string)
    ensures DropBooks(DropBooks(t, gone), {k}) == DropBooks(t, gone + {k})
  {
    var once, twice := DropBooks(t, gone + {k}), DropBooks(DropBooks(t, gone), {k});
    assert twice.books == once.books;
    assert twice.authorLinks == once.authorLinks;
    assert twice.seriesLinks == once.seriesLinks;
    assert twice.genreLinks == once.genreLinks;
    assert twice.audioLinks == once.audioLinks;
  }

  /** Dropping the links of a book with the book keeps every link pointing at stored rows;
      so does dropping authors or series that no remaining link names. */
  lemma DropKeepsLinked(t: Tables, books: set<string>, authors: set<string>, series: set<string>)
    requires Linked(t)
    requires forall l :: l in DropBooks(t, books).authorLinks ==> l.authorId !in authors
    requires forall p :: p in DropBooks(t, books).seriesLinks ==> p.1 !in series
    ensures Linked(DropSeries(DropAuthors(DropBooks(t, books), authors), series))
  {
  }

  /** The sweep keeps every link pointing at stored rows. */
  lemma SweepKeepsLinked(t: Tables, onDisk: string -> bool)
    requires Linked(t)
    ensures Linked(Sweep(t, onDisk))
  {
    var t1 := DropBooks(t, MissingIds(onDisk, t.books));
    OrphanAuthorsMeaning(t1.authors, t1.authorLinks);
    OrphanSeriesMeaning(t1.series, t1.seriesLinks);
    DropKeepsLinked(t, MissingIds(onDisk, t.books), OrphanAuthors(t1.authors, t1.authorLinks),
                    OrphanSeries(t1.series, t1.seriesLinks));
  }

  /** After a sweep every book has its folder and every author and series is named by a
      link, so a second sweep changes nothing. */
  lemma {:induction false} SweepIdempotent(t: Tables, onDisk: string -> bool)
    ensures MissingIds(onDisk, Sweep(t, onDisk).books) == {}
    ensures OrphanAuthors(Sweep(t, onDisk).authors, Sweep(t, onDisk).authorLinks) == {}
    ensures OrphanSeries(Sweep(t, onDisk).series, Sweep(t, onDisk).seriesLinks) == {}
    ensures Sweep(Sweep(t, onDisk), onDisk) == Sweep(t, onDisk)
  {
    var s := Sweep(t, onDisk);
    SweepLeavesNoMissing(t, onDisk);
    SweepLeavesNoOrphans(t, onDisk);
    DropNothing(s);
    var t1 := DropBooks(s, MissingIds(onDisk, s.books));
    assert t1 == s;
    var t2 := DropAuthors(t1, OrphanAuthors(t1.authors, t1.authorLinks));
    assert t2 == s;
  }

  lemma SweepLeavesNoMissing(t: Tables, onDisk: string -> bool)
    ensures MissingIds(onDisk, Sweep(t, onDisk).books) == {}
  {
    var s := Sweep(t, onDisk);
    MissingIdsMeaning(onDisk, t.books);
    forall id | id in s.books
      ensures id !in MissingIds(onDisk, s.books)
    {
      assert s.books[id] == t.books[id];
    }
  }

  lemma SweepLeavesNoOrphans(t: Tables, onDisk: string -> bool)
    ensures OrphanAuthors(Sweep(t, onDisk).authors, Sweep(t, onDisk).authorLinks) == {}
    ensures OrphanSeries(Sweep(t, onDisk).series, Sweep(t, onDisk).seriesLinks) == {}
  {
  }

  /** Dropping no rows changes nothing. */
  lemma DropNothing(t: Tables)
    ensures DropBooks(t, {}) == t && DropAuthors(t, {}) == t && DropSeries(t, {}) == t
  {
    var s1 := DropBooks(t, {});
    assert s1.authorLinks == t.authorLinks;
    assert s1.seriesLinks == t.seriesLinks;
    assert s1.genreLinks == t.genreLinks;
    assert s1.audioLinks == t.audioLinks;
    assert t.authors - {} == t.authors && t.series - {} == t.series;
  }

  // ------------------------------------------------------------------ the passes

  /** Taking one more key off the still-to-visit set adds it to what has been removed
      exactly when it is to be removed. */
  lemma VisitStep(remove: set<string>, todo: set<string>, k: string)
    requires k in todo
    ensures k !in remove - todo
    ensures remove - (todo - {k}) == (remove - todo) + (if k in remove then {k} else {})
    ensures |remove - (todo - {k})| == |remove - todo| + (if k in remove then 1 else 0)
  {
    if k in remove {
      assert remove - (todo - {k}) == (remove - todo) + {k};
    } else {
      assert remove - (todo - {k}) == remove - todo;
    }
  }

  /** Once nothing is left to visit, everything to be removed has been. */
  lemma NoneLeft(remove: set<string>, todo: set<string>)
    requires todo == {}
    ensures remove - todo == remove
  {
  }

  /** Lines 32-36: the book's links first, then the book, so the store never holds a link
      to a missing book. */
  method RemoveBookEverywhere(lib: Library, bookId: string)
    requires lib.Valid()
    modifies lib
    ensures lib.Valid()
    ensures lib.State() == DropBooks(old(lib.State()), {bookId})
  {
    lib.RemoveBookToSeriesLinksByBook(bookId);
    lib.RemoveBookToAuthorLinksByBook(bookId);
    lib.RemoveBookToGenreLinksByBook(bookId);
    lib.RemoveBookToAudioLinksAndAudioFilesByBook(bookId);
    lib.RemoveBook(bookId);
  }

  /** Lines 27-40: the book pass, over the books held when it starts. */
  method RemoveMissingBooks(lib: Library, onDisk: string -> bool) returns (removed: nat)
    requires lib.Valid()
    modifies lib
    ensures lib.Valid()
    ensures lib.State() == DropBooks(old(lib.State()), MissingIds(onDisk, old(lib.books)))
    ensures removed == |MissingIds(onDisk, old(lib.books))|
  {
    ghost var start := lib.State();
    ghost var missing := MissingIds(onDisk, lib.books);
    ghost var gone: set<string> := {};
    var todo := lib.books.Keys;
    removed := 0;
    MissingIdsMeaning(onDisk, lib.books);
    assert DropBooks(start, {}) == start by { DropBooksStep(start, {}, ""); }
    while todo != {}
      invariant lib.Valid()
      invariant todo <= start.books.Keys
      invariant gone == missing - todo
      invariant lib.State() == DropBooks(start, gone)
      invariant removed == |gone|
      decreases todo
    {
      var id :| id in todo;
      VisitStep(missing, todo, id);
      var book := lib.books[id];
      todo := todo - {id};
      if !onDisk(book.bookLocation) {
        DropBooksStep(start, gone, id);
        RemoveBookEverywhere(lib, id);
        gone := gone + {id};
        removed := removed + 1;
      }
    }
    NoneLeft(missing, todo);
  }

  /** Lines 45-52: one author of the pass, on a store that has lost the authors in gone so far; the
      Author is removed exactly when it was an orphan when the pass started. */
  method VisitAuthor(lib: Library, authorId: string, ghost start: Tables, ghost gone: set<string>) returns (dropped: bool)
    requires lib.Valid()
    requires lib.State() == DropAuthors(start, gone)
    requires authorId in start.authors
    modifies lib
    ensures lib.Valid()
    ensures dropped <==> authorId in OrphanAuthors(start.authors, start.authorLinks)
    ensures lib.State() == DropAuthors(start, if dropped then gone + {authorId} else gone)
  {
    AuthorBooksEmpty(lib.authorLinks, authorId);
    DropOneStep(start, gone, authorId);
    assert lib.authorLinks == start.authorLinks;
    var bookCount := |AuthorBooks(lib.authorLinks, authorId)|;
    dropped := bookCount == 0;
    if dropped {
      lib.RemoveAuthor(authorId);
    }
  }

  /** Lines 42-54: the author pass, over the authors held when it starts. */
  method RemoveOrphanAuthors(lib: Library) returns (removed: nat)
    requires lib.Valid()
    modifies lib
    ensures lib.Valid()
    ensures lib.State() == DropAuthors(old(lib.State()), OrphanAuthors(old(lib.authors), old(lib.authorLinks)))
    ensures removed == |OrphanAuthors(old(lib.authors), old(lib.authorLinks))|
  {
    ghost var start := lib.State();
    ghost var orphans := OrphanAuthors(lib.authors, lib.authorLinks);
    ghost var gone: set<string> := {};
    var todo := lib.authors.Keys;
    removed := 0;
    while todo != {}
      invariant lib.Valid()
      invariant todo <= start.authors.Keys
      invariant gone == orphans - todo
      invariant lib.State() == DropAuthors(start, gone)
      invariant removed == |gone|
      decreases todo
    {
      var authorId :| authorId in todo;
      VisitStep(orphans, todo, authorId);
      todo := todo - {authorId};
      var dropped := VisitAuthor(lib, authorId, start, gone);
      if dropped {
        gone := gone + {authorId};
        removed := removed + 1;
      }
    }
    NoneLeft(orphans, todo);
  }

  /** Lines 59-66: one series of the pass, on a store that has lost the series in gone so far; the
      Series is removed exactly when it was an orphan when the pass started. */
  method VisitSeries(lib: Library, seriesId: string, ghost start: Tables, ghost gone: set<string>) returns (dropped: bool)
    requires lib.Valid()
    requires lib.State() == DropSeries(start, gone)
    requires seriesId in start.series
    modifies lib
    ensures lib.Valid()
    ensures dropped <==> seriesId in OrphanSeries(start.series, start.seriesLinks)
    ensures lib.State() == DropSeries(start, if dropped then gone + {seriesId} else gone)
  {
    SeriesBooksEmpty(lib.seriesLinks, seriesId);
    DropOneStep(start, gone, seriesId);
    assert lib.seriesLinks == start.seriesLinks;
    var bookCount := |SeriesBooks(lib.seriesLinks, seriesId)|;
    dropped := bookCount == 0;
    if dropped {
      lib.RemoveSeries(seriesId);
    }
  }

  /** Lines 56-68: the series pass, over the series held when it starts. */
  method RemoveOrphanSeries(lib: Library) returns (removed: nat)
    requires lib.Valid()
    modifies lib
    ensures lib.Valid()
    ensures lib.State() == DropSeries(old(lib.State()), OrphanSeries(old(lib.series), old(lib.seriesLinks)))
    ensures removed == |OrphanSeries(old(lib.series), old(lib.seriesLinks))|
  {
    ghost var start := lib.State();
    ghost var orphans := OrphanSeries(lib.series, lib.seriesLinks);
    ghost var gone: set<string> := {};
    var todo := lib.series.Keys;
    removed := 0;
    while todo != {}
      invariant lib.Valid()
      invariant todo <= start.series.Keys
      invariant gone == orphans - todo
      invariant lib.State() == DropSeries(start, gone)
      invariant removed == |gone|
      decreases todo
    {
      var seriesId :| seriesId in todo;
      VisitStep(orphans, todo, seriesId);
      todo := todo - {seriesId};
      var dropped := VisitSeries(lib, seriesId, start, gone);
      if dropped {
        gone := gone + {seriesId};
        removed := removed + 1;
      }
    }
    NoneLeft(orphans, todo);
  }

  /** The keys a map loses when some of its keys are removed. */
  lemma RemovedKeys<V>(m: map<string, V>, gone: set<string>)
    requires gone <= m.Keys
    ensures m.Keys - (m - gone).Keys == gone
  {
  }

  /** CleanProcessor.Execute: the three passes in order. Each count is the number of rows
      its pass removed. */
  method Execute(lib: Library, onDisk: string -> bool) returns (removedBooks: nat, removedAuthors: nat, removedSeries: nat)
    requires lib.Valid()
    modifies lib
    ensures lib.Valid()
    ensures lib.State() == Sweep(old(lib.State()), onDisk)
    ensures removedBooks == |old(lib.books).Keys - lib.books.Keys|
    ensures removedAuthors == |old(lib.authors).Keys - lib.authors.Keys|
    ensures removedSeries == |old(lib.series).Keys - lib.series.Keys|
  {
    ghost var t0 := lib.State();
    removedBooks := RemoveMissingBooks(lib, onDisk);
    MissingIdsMeaning(onDisk, t0.books);
    RemovedKeys(t0.books, MissingIds(onDisk, t0.books));
    ghost var t1 := lib.State();
    removedAuthors := RemoveOrphanAuthors(lib);
    OrphanAuthorsMeaning(t1.authors, t1.authorLinks);
    RemovedKeys(t1.authors, OrphanAuthors(t1.authors, t1.authorLinks));
    ghost var t2 := lib.State();
    removedSeries := RemoveOrphanSeries(lib);
    OrphanSeriesMeaning(t2.series, t2.seriesLinks);
    RemovedKeys(t2.series, OrphanSeries(t2.series, t2.seriesLinks));
  }
}
