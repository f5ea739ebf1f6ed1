/** The library database as the lookup step sees it: book, author, series and genre
    records keyed by the KeyMaker keys, and the link tables between books and the rest.
    The upserts of LookupProcessor.cs (UpdateGenres, UpdateSeries, UpdateAuthors,
    UpdateBook) merge one scraped GoodReads page into it. */
module Store {
  import opened Wrappers
  import opened LookupParsers

  /** A book row; the GoodReads fields stay null until a lookup fills them. */
  datatype Book = Book(
    bookId: string,
    bookTitle: string,
    bookLocation: string,
    goodReadsTitle: Option<string>,
    goodReadsDescription: Option<string>,
    goodReadsLink: Option<string>,
    goodReadsCoverImage: Option<string>,
    goodReadsFetchTried: bool)

  datatype Author = Author(
    authorName: string,
    goodReadsAuthor: bool,
    goodReadsAuthorLink: Option<string>,
    authorType: AuthorType)

  datatype Series = Series(seriesName: string, seriesLink: Option<string>)

  datatype Genre = Genre(genreName: string)

  /** BookDetails.cs: what one GoodReads book page yields. */
  datatype BookDetails = BookDetails(
    bookTitle: Option<string>,
    seriesTitle: Option<string>,
    seriesVolume: Option<string>,
    bookDescription: Option<string>,
    genres: seq<string>,
    authors: seq<AuthorDetails>,
    bookLink: string,
    seriesLink: Option<string>,
    goodReadsCoverImageLink: Option<string>)

  /** The KeyMaker keys, which this model does not see. */
  datatype Keys = Keys(authorKey: string -> string, seriesKey: string -> string, genreKey: string -> string)

  /** A row of the book-to-author link table. */
  datatype AuthorLink = AuthorLink(bookId: string, authorId: string, authorType: AuthorType)

  // ------------------------------------------------------------------ genres

  /** One genre of UpdateGenres: inserted only when its key is absent. */
  function AddGenre(m: map<string, Genre>, key: string -> string, g: string): map<string, Genre>
  {
    if key(g) in m then m else m[key(g) := Genre(g)]
  }

  /** The genre table after inserting each genre of the list, in order. */
  function WithGenres(genres: map<string, Genre>, key: string -> string, gs: seq<string>): map<string, Genre>
    decreases |gs|
  {
    if gs == [] then genres else AddGenre(WithGenres(genres, key, gs[..|gs| - 1]), key, gs[|gs| - 1])
  }

  /** The genre links a book gets from a genre list. */
  function GenreLinks(bookId: string, key: string -> string, gs: seq<string>): set<(string, string)>
    decreases |gs|
  {
    if gs == [] then {} else GenreLinks(bookId, key, gs[..|gs| - 1]) + {(bookId, key(gs[|gs| - 1]))}
  }

  /** A stored genre is never modified. */
  lemma {:induction false} WithGenresKeeps(genres: map<string, Genre>, key: string -> string, gs: seq<string>)
    ensures forall k :: k in genres ==> k in WithGenres(genres, key, gs) && WithGenres(genres, key, gs)[k] == genres[k]
    decreases |gs|
  {
    if gs != [] {
      WithGenresKeeps(genres, key, gs[..|gs| - 1]);
    }
  }

  /** The keys added are exactly the keys of the listed genres. */
  lemma {:induction false} WithGenresKeys(genres: map<string, Genre>, key: string -> string, gs: seq<string>)
    ensures forall k :: k in WithGenres(genres, key, gs) <==> k in genres || exists i :: 0 <= i < |gs| && key(gs[i]) == k
    decreases |gs|
  {
    if gs != [] {
      var n := |gs| - 1;
      WithGenresKeys(genres, key, gs[..n]);
      assert forall i :: 0 <= i < n ==> gs[..n][i] == gs[i];
      forall k | k in WithGenres(genres, key, gs) && k !in genres
        ensures exists i :: 0 <= i < |gs| && key(gs[i]) == k
      {
        if k != key(gs[n]) {
          var i :| 0 <= i < n && key(gs[..n][i]) == k;
          assert key(gs[i]) == k;
        }
      }
    }
  }

  /** A genre first named by the list is stored under the name of its first mention. */
  lemma {:induction false} WithGenresFirstName(genres: map<string, Genre>, key: string -> string, gs: seq<string>, i: nat)
    requires i < |gs| && key(gs[i]) !in genres
    requires forall j :: 0 <= j < i ==> key(gs[j]) != key(gs[i])
    ensures key(gs[i]) in WithGenres(genres, key, gs) && WithGenres(genres, key, gs)[key(gs[i])] == Genre(gs[i])
    decreases |gs|
  {
    var n := |gs| - 1;
    var k := key(gs[i]);
    if i < n {
      assert gs[..n][i] == gs[i];
      assert forall j :: 0 <= j < i ==> gs[..n][j] == gs[j];
      WithGenresFirstName(genres, key, gs[..n], i);
    } else {
      WithGenresKeys(genres, key, gs[..n]);
      assert forall j :: 0 <= j < n ==> gs[..n][j] == gs[j];
      assert k !in WithGenres(genres, key, gs[..n]);
    }
  }

  lemma {:induction false} GenreLinksMeaning(bookId: string, key: string -> string, gs: seq<string>)
    ensures forall l :: l in GenreLinks(bookId, key, gs) <==> exists i :: 0 <= i < |gs| && l == (bookId, key(gs[i]))
    decreases |gs|
  {
    if gs != [] {
      var n := |gs| - 1;
      GenreLinksMeaning(bookId, key, gs[..n]);
      assert forall i :: 0 <= i < n ==> gs[..n][i] == gs[i];
      forall l | l in GenreLinks(bookId, key, gs)
        ensures exists i :: 0 <= i < |gs| && l == (bookId, key(gs[i]))
      {
        if l != (bookId, key(gs[n])) {
          assert l in GenreLinks(bookId, key, gs[..n]);
          var i :| 0 <= i < n && l == (bookId, key(gs[..n][i]));
          assert l == (bookId, key(gs[i]));
        }
      }
    }
  }

  // ------------------------------------------------------------------ authors

  /** The author table after UpdateAuthors' merge of one credit. */
  function MergeAuthor(m: map<string, Author>, key: string -> string, a: AuthorDetails): map<string, Author>
  {
    var k := key(a.name);
    if k in m then m[k := m[k].(goodReadsAuthor := true, goodReadsAuthorLink := a.link, authorType := a.authorType)]
    else m[k := Author.Author(a.name, true, a.link, a.authorType)]
  }

  /** The author table after merging every credit, in order. */
  function WithAuthors(m: map<string, Author>, key: string -> string, ds: seq<AuthorDetails>): map<string, Author>
    decreases |ds|
  {
    if ds == [] then m else MergeAuthor(WithAuthors(m, key, ds[..|ds| - 1]), key, ds[|ds| - 1])
  }

  function AuthorLinks(bookId: string, key: string -> string, ds: seq<AuthorDetails>): set<AuthorLink>
    decreases |ds|
  {
    if ds == [] then {}
    else AuthorLinks(bookId, key, ds[..|ds| - 1]) + {AuthorLink(bookId, key(ds[|ds| - 1].name), ds[|ds| - 1].authorType)}
  }

  /** A stored author keeps its stored name; one the credits do not mention is untouched. */
  lemma {:induction false} WithAuthorsKeepsNames(m: map<string, Author>, key: string -> string, ds: seq<AuthorDetails>)
    ensures forall k :: k in m ==> k in WithAuthors(m, key, ds) && WithAuthors(m, key, ds)[k].authorName == m[k].authorName
    ensures forall k :: k in m && (forall i :: 0 <= i < |ds| ==> key(ds[i].name) != k) ==> WithAuthors(m, key, ds)[k] == m[k]
    decreases |ds|
  {
    if ds != [] {
      var n := |ds| - 1;
      WithAuthorsKeepsNames(m, key, ds[..n]);
      assert forall i :: 0 <= i < n ==> ds[..n][i] == ds[i];
    }
  }

  /** The keys added are exactly the keys of the credited names. */
  lemma {:induction false} WithAuthorsKeys(m: map<string, Author>, key: string -> string, ds: seq<AuthorDetails>)
    ensures forall k :: k in WithAuthors(m, key, ds) <==> k in m || exists i :: 0 <= i < |ds| && key(ds[i].name) == k
    decreases |ds|
  {
    if ds != [] {
      var n := |ds| - 1;
      WithAuthorsKeys(m, key, ds[..n]);
      assert forall i :: 0 <= i < n ==> ds[..n][i] == ds[i];
      forall k | k in WithAuthors(m, key, ds) && k !in m
        ensures exists i :: 0 <= i < |ds| && key(ds[i].name) == k
      {
        if k != key(ds[n].name) {
          var i :| 0 <= i < n && key(ds[..n][i].name) == k;
          assert key(ds[i].name) == k;
        }
      }
    }
  }

  /** The last credit in the list with author key k. */
  predicate LastWithKey(key: string -> string, ds: seq<AuthorDetails>, i: int) {
    0 <= i < |ds| && forall j :: i < j < |ds| ==> key(ds[j].name) != key(ds[i].name)
  }

  /** Every credited author ends up a GoodReads author with the link and role of its
      last credit. */
  lemma {:induction false} WithAuthorsLastCredit(m: map<string, Author>, key: string -> string, ds: seq<AuthorDetails>, i: nat)
    requires LastWithKey(key, ds, i)
    ensures var r := WithAuthors(m, key, ds);
      && key(ds[i].name) in r
      && r[key(ds[i].name)].goodReadsAuthor
      && r[key(ds[i].name)].goodReadsAuthorLink == ds[i].link
      && r[key(ds[i].name)].authorType == ds[i].authorType
    decreases |ds|
  {
    var n := |ds| - 1;
    if i < n {
      assert LastWithKey(key, ds[..n], i);
      WithAuthorsLastCredit(m, key, ds[..n], i);
    }
  }

  lemma {:induction false} AuthorLinksMeaning(bookId: string, key: string -> string, ds: seq<AuthorDetails>)
    ensures forall l :: l in AuthorLinks(bookId, key, ds) <==>
      exists i :: 0 <= i < |ds| && l == AuthorLink(bookId, key(ds[i].name), ds[i].authorType)
    decreases |ds|
  {
    if ds != [] {
      var n := |ds| - 1;
      AuthorLinksMeaning(bookId, key, ds[..n]);
      assert forall i :: 0 <= i < n ==> ds[..n][i] == ds[i];
      forall l | l in AuthorLinks(bookId, key, ds)
        ensures exists i :: 0 <= i < |ds| && l == AuthorLink(bookId, key(ds[i].name), ds[i].authorType)
      {
        if l != AuthorLink(bookId, key(ds[n].name), ds[n].authorType) {
          assert l in AuthorLinks(bookId, key, ds[..n]);
          var i :| 0 <= i < n && l == AuthorLink(bookId, key(ds[..n][i].name), ds[..n][i].authorType);
          assert l == AuthorLink(bookId, key(ds[i].name), ds[i].authorType);
        }
      }
    }
  }

  /** A genre list whose keys are all stored leaves the genre table as it is. */
  lemma {:induction false} WithGenresStored(genres: map<string, Genre>, key: string -> string, gs: seq<string>)
    requires forall i :: 0 <= i < |gs| ==> key(gs[i]) in genres
    ensures WithGenres(genres, key, gs) == genres
    decreases |gs|
  {
    if gs != [] {
      var n := |gs| - 1;
      assert forall i :: 0 <= i < n ==> gs[..n][i] == gs[i];
      WithGenresStored(genres, key, gs[..n]);
    }
  }

  /** Inserting the same genre list a second time changes nothing. */
  lemma WithGenresIdempotent(genres: map<string, Genre>, key: string -> string, gs: seq<string>)
    ensures WithGenres(WithGenres(genres, key, gs), key, gs) == WithGenres(genres, key, gs)
  {
    WithGenresKeys(genres, key, gs);
    WithGenresStored(WithGenres(genres, key, gs), key, gs);
  }

  /** Every credited key has a last credit in the list. */
  lemma {:induction false} LastCreditExists(key: string -> string, ds: seq<AuthorDetails>, j: nat) returns (i: nat)
    requires j < |ds|
    ensures LastWithKey(key, ds, i) && key(ds[i].name) == key(ds[j].name)
    decreases |ds| - j
  {
    if forall k :: j < k < |ds| ==> key(ds[k].name) != key(ds[j].name) {
      i := j;
    } else {
      var k :| j < k < |ds| && key(ds[k].name) == key(ds[j].name);
      i := LastCreditExists(key, ds, k);
    }
  }

  /** Merging the same credits a second time changes nothing: every credited author
      already carries the flag, link and role of its last credit. */
  lemma WithAuthorsIdempotent(m: map<string, Author>, key: string -> string, ds: seq<AuthorDetails>)
    ensures WithAuthors(WithAuthors(m, key, ds), key, ds) == WithAuthors(m, key, ds)
  {
    var m1 := WithAuthors(m, key, ds);
    var m2 := WithAuthors(m1, key, ds);
    WithAuthorsKeys(m1, key, ds);
    WithAuthorsKeys(m, key, ds);
    WithAuthorsKeepsNames(m1, key, ds);
    forall k | k in m1
      ensures m2[k] == m1[k]
    {
      if j :| 0 <= j < |ds| && key(ds[j].name) == k {
        var i := LastCreditExists(key, ds, j);
        WithAuthorsLastCredit(m, key, ds, i);
        WithAuthorsLastCredit(m1, key, ds, i);
      }
    }
  }

  // ------------------------------------------------------------------ books

  /** UpdateBook: the four GoodReads fields of the page replace the book's; the rest of
      the in-memory book, GoodReadsFetchTried included, is written as it stands. */
  function WithDetails(book: Book, entry: BookDetails): (b: Book)
    ensures b.bookId == book.bookId && b.bookTitle == book.bookTitle && b.bookLocation == book.bookLocation
    ensures b.goodReadsFetchTried == book.goodReadsFetchTried
    ensures b.goodReadsDescription == entry.bookDescription && b.goodReadsTitle == entry.bookTitle
    ensures b.goodReadsLink == Some(entry.bookLink) && b.goodReadsCoverImage == entry.goodReadsCoverImageLink
  {
    book.(goodReadsDescription := entry.bookDescription, goodReadsTitle := entry.bookTitle,
          goodReadsLink := Some(entry.bookLink), goodReadsCoverImage := entry.goodReadsCoverImageLink)
  }

  /** A series title that UpdateSeries acts on: neither null nor empty. */
  predicate HasSeries(entry: BookDetails) {
    entry.seriesTitle.Some? && entry.seriesTitle.value != ""
  }

  // ------------------------------------------------------------------ the store

  /** UpdateSeries on the tables: nothing without a series title; otherwise the series is
      inserted when its key is absent, and the book linked to it unless a link exists. */
  function WithSeries(t: Tables, key: string -> string, entry: BookDetails, bookId: string): Tables
  {
    if !HasSeries(entry) then t
    else
      var id := key(entry.seriesTitle.value);
      t.(series := if id in t.series then t.series else t.series[id := Series(entry.seriesTitle.value, entry.seriesLink)],
         seriesLinks := if (bookId, id) in t.seriesLinks then t.seriesLinks else t.seriesLinks[(bookId, id) := entry.seriesVolume])
  }


  /** All the tables of the store, as one value. */
  datatype Tables = Tables(
    books: map<string, Book>,
    authors: map<string, Author>,
    series: map<string, Series>,
    genres: map<string, Genre>,
    authorLinks: set<AuthorLink>,
    seriesLinks: map<(string, string), Option<string>>,
    genreLinks: set<(string, string)>,
    audioLinks: set<(string, string)>)

  /** Every book is stored under its own id, and every link of the tables joins a stored
      book to a stored record. */
  predicate Linked(t: Tables)
  {
    && (forall id :: id in t.books ==> t.books[id].bookId == id)
    && (forall l :: l in t.authorLinks ==> l.bookId in t.books && l.authorId in t.authors)
    && (forall p :: p in t.seriesLinks ==> p.0 in t.books && p.1 in t.series)
    && (forall p :: p in t.genreLinks ==> p.0 in t.books && p.1 in t.genres)
    && (forall p :: p in t.audioLinks ==> p.0 in t.books)
  }

  /** The database behind BookCommands: tables keyed by id, and link tables. */
  class Library {
    var books: map<string, Book>
    var authors: map<string, Author>
    var series: map<string, Series>
    var genres: map<string, Genre>
    var authorLinks: set<AuthorLink>
    /** (book id, series id) to the series volume of the link. */
    var seriesLinks: map<(string, string), Option<string>>
    /** (book id, genre id). */
    var genreLinks: set<(string, string)>
    /** (book id, audio file) rows. */
    var audioLinks: set<(string, string)>

    /** The store as a value. */
    function State(): Tables
      reads this
    {
      Tables(books, authors, series, genres, authorLinks, seriesLinks, genreLinks, audioLinks)
    }

    /** Every book is stored under its own id, and every link joins a stored book to a
        stored record. */
    predicate Valid()
      reads this
    {
      Linked(State())
    }

    constructor ()
      ensures Valid()
      ensures books == map[] && authors == map[] && series == map[] && genres == map[]
      ensures authorLinks == {} && seriesLinks == map[] && genreLinks == {} && audioLinks == {}
    {
      books, authors, series, genres := map[], map[], map[], map[];
      authorLinks, seriesLinks, genreLinks, audioLinks := {}, map[], {}, {};
    }

    /** BookCommands.UpdateBook: the stored row is replaced by the given one. */
    method SaveBook(book: Book)
      requires Valid() && book.bookId in books
      modifies this
      ensures Valid()
      ensures books == old(books)[book.bookId := book]
      ensures authors == old(authors) && series == old(series) && genres == old(genres)
      ensures authorLinks == old(authorLinks) && seriesLinks == old(seriesLinks)
      ensures genreLinks == old(genreLinks) && audioLinks == old(audioLinks)
    {
      books := books[book.bookId := book];
    }

    /** One turn of UpdateGenres' loop. */
    method InsertGenre(keys: Keys, g: string, book: Book)
      requires Valid() && book.bookId in books
      modifies this
      ensures Valid()
      ensures genres == AddGenre(old(genres), keys.genreKey, g)
      ensures genreLinks == old(genreLinks) + {(book.bookId, keys.genreKey(g))}
      ensures books == old(books) && authors == old(authors) && series == old(series)
      ensures authorLinks == old(authorLinks) && seriesLinks == old(seriesLinks) && audioLinks == old(audioLinks)
    {
      var genreId := keys.genreKey(g);
      if genreId !in genres {
        genres := genres[genreId := Genre(g)];
      }
      genreLinks := genreLinks + {(book.bookId, genreId)};
    }

    /** One turn of UpdateAuthors' loop. */
    method MergeCredit(keys: Keys, a: AuthorDetails, book: Book)
      requires Valid() && book.bookId in books
      modifies this
      ensures Valid()
      ensures authors == MergeAuthor(old(authors), keys.authorKey, a)
      ensures authorLinks == old(authorLinks) + {AuthorLink(book.bookId, keys.authorKey(a.name), a.authorType)}
      ensures books == old(books) && series == old(series) && genres == old(genres)
      ensures seriesLinks == old(seriesLinks) && genreLinks == old(genreLinks) && audioLinks == old(audioLinks)
    {
      var authorKey := keys.authorKey(a.name);
      if authorKey !in authors {
        authors := authors[authorKey := Author.Author(a.name, true, a.link, a.authorType)];
      } else {
        var author := authors[authorKey];
        authors := authors[authorKey := author.(goodReadsAuthor := true, goodReadsAuthorLink := a.link,
                                                authorType := a.authorType)];
      }
      authorLinks := authorLinks + {AuthorLink(book.bookId, authorKey, a.authorType)};
    }

    /** UpdateGenres: each genre of the page is inserted when its key is absent and linked
        to the book. */
    method UpdateGenres(keys: Keys, entry: BookDetails, book: Book)
      requires Valid() && book.bookId in books
      modifies this
      ensures Valid()
      ensures genres == WithGenres(old(genres), keys.genreKey, entry.genres)
      ensures genreLinks == old(genreLinks) + GenreLinks(book.bookId, keys.genreKey, entry.genres)
      ensures books == old(books) && authors == old(authors) && series == old(series)
      ensures authorLinks == old(authorLinks) && seriesLinks == old(seriesLinks) && audioLinks == old(audioLinks)
    {
      var gs := entry.genres;
      for i := 0 to |gs|
        invariant Valid()
        invariant genres == WithGenres(old(genres), keys.genreKey, gs[..i])
        invariant genreLinks == old(genreLinks) + GenreLinks(book.bookId, keys.genreKey, gs[..i])
        invariant books == old(books) && authors == old(authors) && series == old(series)
        invariant authorLinks == old(authorLinks) && seriesLinks == old(seriesLinks) && audioLinks == old(audioLinks)
      {
        InsertGenre(keys, gs[i], book);
        assert gs[..i + 1][..i] == gs[..i];
      }
      assert gs[..|gs|] == gs;
    }

    /** UpdateSeries: nothing without a series title; otherwise the series is inserted
        when its key is absent, and the book is linked to it unless a link exists. */
    method UpdateSeries(keys: Keys, entry: BookDetails, book: Book)
      requires Valid() && book.bookId in books
      modifies this
      ensures Valid()
      ensures !HasSeries(entry) ==> series == old(series) && seriesLinks == old(seriesLinks)
      ensures HasSeries(entry) ==>
        var id := keys.seriesKey(entry.seriesTitle.value);
        && series == (if id in old(series) then old(series) else old(series)[id := Series(entry.seriesTitle.value, entry.seriesLink)])
        && seriesLinks == (if (book.bookId, id) in old(seriesLinks) then old(seriesLinks)
                           else old(seriesLinks)[(book.bookId, id) := entry.seriesVolume])
      ensures books == old(books) && authors == old(authors) && genres == old(genres)
      ensures authorLinks == old(authorLinks) && genreLinks == old(genreLinks) && audioLinks == old(audioLinks)
    {
      if entry.seriesTitle.None? || entry.seriesTitle.value == "" {
        return;
      }
      var seriesId := keys.seriesKey(entry.seriesTitle.value);
      if seriesId !in series {
        series := series[seriesId := Series(entry.seriesTitle.value, entry.seriesLink)];
      }
      if (book.bookId, seriesId) !in seriesLinks {
        seriesLinks := seriesLinks[(book.bookId, seriesId) := entry.seriesVolume];
      }
    }

    /** UpdateAuthors: each credited author is inserted or updated, then linked to the
        book with its role. */
    method UpdateAuthors(keys: Keys, entry: BookDetails, book: Book)
      requires Valid() && book.bookId in books
      modifies this
      ensures Valid()
      ensures authors == WithAuthors(old(authors), keys.authorKey, entry.authors)
      ensures authorLinks == old(authorLinks) + AuthorLinks(book.bookId, keys.authorKey, entry.authors)
      ensures books == old(books) && series == old(series) && genres == old(genres)
      ensures seriesLinks == old(seriesLinks) && genreLinks == old(genreLinks) && audioLinks == old(audioLinks)
    {
      var ds := entry.authors;
      for i := 0 to |ds|
        invariant Valid()
        invariant authors == WithAuthors(old(authors), keys.authorKey, ds[..i])
        invariant authorLinks == old(authorLinks) + AuthorLinks(book.bookId, keys.authorKey, ds[..i])
        invariant books == old(books) && series == old(series) && genres == old(genres)
        invariant seriesLinks == old(seriesLinks) && genreLinks == old(genreLinks) && audioLinks == old(audioLinks)
      {
        MergeCredit(keys, ds[i], book);
        assert ds[..i + 1][..i] == ds[..i];
      }
      assert ds[..|ds|] == ds;
    }

    // The deletions CleanProcessor uses. Each removes one book's rows from one table; the
    // book row itself can only go once nothing refers to it.

    method RemoveBookToSeriesLinksByBook(bookId: string)
      requires Valid()
      modifies this`seriesLinks
      ensures Valid()
      ensures State() == old(State()).(seriesLinks := map p | p in old(seriesLinks) && p.0 != bookId :: old(seriesLinks)[p])
    {
      seriesLinks := map p | p in seriesLinks && p.0 != bookId :: seriesLinks[p];
    }

    method RemoveBookToAuthorLinksByBook(bookId: string)
      requires Valid()
      modifies this`authorLinks
      ensures Valid()
      ensures State() == old(State()).(authorLinks := set l | l in old(authorLinks) && l.bookId != bookId)
    {
      authorLinks := set l | l in authorLinks && l.bookId != bookId;
    }

    method RemoveBookToGenreLinksByBook(bookId: string)
      requires Valid()
      modifies this`genreLinks
      ensures Valid()
      ensures State() == old(State()).(genreLinks := set p | p in old(genreLinks) && p.0 != bookId)
    {
      genreLinks := set p | p in genreLinks && p.0 != bookId;
    }

    method RemoveBookToAudioLinksAndAudioFilesByBook(bookId: string)
      requires Valid()
      modifies this`audioLinks
      ensures Valid()
      ensures State() == old(State()).(audioLinks := set p | p in old(audioLinks) && p.0 != bookId)
    {
      audioLinks := set p | p in audioLinks && p.0 != bookId;
    }

    /** Nothing links to the book. */
    predicate Unreferenced(bookId: string)
      reads this
    {
      && (forall l :: l in authorLinks ==> l.bookId != bookId)
      && (forall p :: p in seriesLinks ==> p.0 != bookId)
      && (forall p :: p in genreLinks ==> p.0 != bookId)
      && (forall p :: p in audioLinks ==> p.0 != bookId)
    }

    method RemoveBook(bookId: string)
      requires Valid() && Unreferenced(bookId)
      modifies this`books
      ensures Valid()
      ensures State() == old(State()).(books := old(books) - {bookId})
    {
      books := books - {bookId};
    }

    method RemoveAuthor(authorId: string)
      requires Valid() && forall l :: l in authorLinks ==> l.authorId != authorId
      modifies this`authors
      ensures Valid()
      ensures State() == old(State()).(authors := old(authors) - {authorId})
    {
      authors := authors - {authorId};
    }

    method RemoveSeries(seriesId: string)
      requires Valid() && forall p :: p in seriesLinks ==> p.1 != seriesId
      modifies this`series
      ensures Valid()
      ensures State() == old(State()).(series := old(series) - {seriesId})
    {
      series := series - {seriesId};
    }

    /** UpdateBook: the page's description, title, link and cover are copied into the
        book, and the book is saved. */
    method UpdateBook(entry: BookDetails, book: Book) returns (updated: Book)
      requires Valid() && book.bookId in books
      modifies this
      ensures Valid()
      ensures updated == WithDetails(book, entry)
      ensures books == old(books)[book.bookId := updated]
      ensures authors == old(authors) && series == old(series) && genres == old(genres)
      ensures authorLinks == old(authorLinks) && seriesLinks == old(seriesLinks)
      ensures genreLinks == old(genreLinks) && audioLinks == old(audioLinks)
    {
      updated := book.(goodReadsDescription := entry.bookDescription, goodReadsTitle := entry.bookTitle,
                       goodReadsLink := Some(entry.bookLink), goodReadsCoverImage := entry.goodReadsCoverImageLink);
      SaveBook(updated);
    }
  }
}
