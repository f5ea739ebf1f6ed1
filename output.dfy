/** OutputProcessor: the option check, the order in which the folder trees are written, the
    names the book folders get, which authors get a folder, and the suspect-book report. */
module Output {
  import opened Wrappers
  import opened Text
  import opened Normalize
  import opened Store
  import opened Selection

  /** The command-line options OutputProcessor reads. */
  datatype OutputOptions = OutputOptions(
    outputFolder: string,
    topLevelOverride: Option<string>,
    writeAuthors: bool,
    writeGenre: bool,
    writeSeries: bool,
    writeDescriptions: bool,
    writeBooks: bool,
    writeFailBooks: bool,
    writeReports: bool)

  /** A top-level override names one folder, so at most one of the three trees may go there. */
  predicate Conflicting(o: OutputOptions) {
    && !NullOrEmpty(o.topLevelOverride)
    && ((o.writeAuthors && o.writeGenre) || (o.writeAuthors && o.writeSeries) || (o.writeGenre && o.writeSeries))
  }

  /** The Books, FailBooks, Reports and Descriptions flags never make options conflict. */
  lemma ConflictIgnoresOtherFlags(o: OutputOptions, books: bool, failBooks: bool, reports: bool, descriptions: bool)
    ensures Conflicting(o) == Conflicting(o.(writeBooks := books, writeFailBooks := failBooks,
                                              writeReports := reports, writeDescriptions := descriptions))
  {
  }

  /** The writers Execute can run, in the order it runs them. */
  datatype Writer = AuthorsTree | GenresTree | SeriesTree | BooksTree | FailBooksTree | Reports

  function Rank(w: Writer): nat {
    match w
    case AuthorsTree => 0
    case GenresTree => 1
    case SeriesTree => 2
    case BooksTree => 3
    case FailBooksTree => 4
    case Reports => 5
  }

  /** The writers in the order Execute tests their flags; a writer's rank is its place here. */
  const Order: seq<Writer> := [AuthorsTree, GenresTree, SeriesTree, BooksTree, FailBooksTree, Reports]

  class OutputProcessor {
    var rootDir: string
    var topLevelFolder: Option<string>
    var writeAuthors: bool
    var writeSeries: bool
    var writeGenres: bool
    var writeDescriptions: bool
    var writeBooks: bool
    var writeFailBooks: bool
    var writeReports: bool

    /** Initialize: every option is stored first; then a top-level override with more than
        one of the authors, genres and series trees is rejected. */
    method Initialize(o: OutputOptions) returns (r: Result<bool>)
      modifies this
      ensures rootDir == o.outputFolder && topLevelFolder == o.topLevelOverride
      ensures writeAuthors == o.writeAuthors && writeGenres == o.writeGenre && writeSeries == o.writeSeries
      ensures writeDescriptions == o.writeDescriptions && writeBooks == o.writeBooks
      ensures writeFailBooks == o.writeFailBooks && writeReports == o.writeReports
      ensures r == if Conflicting(o) then Err(InvalidOption) else Ok(true)
      ensures Options() == o
    {
      rootDir := o.outputFolder;
      topLevelFolder := o.topLevelOverride;
      writeAuthors := o.writeAuthors;
      writeGenres := o.writeGenre;
      writeSeries := o.writeSeries;
      writeDescriptions := o.writeDescriptions;
      writeBooks := o.writeBooks;
      writeFailBooks := o.writeFailBooks;
      writeReports := o.writeReports;
      if !NullOrEmpty(topLevelFolder) {
        var opCount := (if writeAuthors then 1 else 0) + (if writeGenres then 1 else 0) + (if writeSeries then 1 else 0);
        if opCount > 1 {
          return Err(InvalidOption);
        }
      }
      return Ok(true);
    }

    /** The stored options. */
    function Options(): OutputOptions
      reads this
    {
      OutputOptions(rootDir, topLevelFolder, writeAuthors, writeGenres, writeSeries,
                    writeDescriptions, writeBooks, writeFailBooks, writeReports)
    }

    /** The folder a writer's tree goes under, below the root folder. */
    function TreeDir(w: Writer): (d: string)
      reads this
      ensures d != ""
    {
      TopLevelDir(topLevelFolder, OwnFolder(w))
    }

    /** The writer flags, in the order Execute tests them. */
    function Flags(): (f: seq<bool>)
      reads this
      ensures |f| == |Order|
    {
      [writeAuthors, writeGenres, writeSeries, writeBooks, writeFailBooks, writeReports]
    }

    /** Execute: the writers whose flag is set, in the order it tests the flags. */
    function Plan(): seq<Writer>
      reads this
    {
      Keep(Order, Flags())
    }
  }

  /** Execute runs exactly the writers whose flag is set, each once, in the fixed order. */
  lemma PlanMeaning(op: OutputProcessor)
    ensures AuthorsTree in op.Plan() <==> op.writeAuthors
    ensures GenresTree in op.Plan() <==> op.writeGenres
    ensures SeriesTree in op.Plan() <==> op.writeSeries
    ensures BooksTree in op.Plan() <==> op.writeBooks
    ensures FailBooksTree in op.Plan() <==> op.writeFailBooks
    ensures Reports in op.Plan() <==> op.writeReports
    ensures Rising(op.Plan(), Rank)
  {
    var f := op.Flags();
    KeepByRank(Order, f, Rank);
    assert Order[0] == AuthorsTree && f[0] == op.writeAuthors;
    assert Order[1] == GenresTree && f[1] == op.writeGenres;
    assert Order[2] == SeriesTree && f[2] == op.writeSeries;
    assert Order[3] == BooksTree && f[3] == op.writeBooks;
    assert Order[4] == FailBooksTree && f[4] == op.writeFailBooks;
    assert Order[5] == Reports && f[5] == op.writeReports;
  }

  /** The folder a tree is written under: the override when one is given, else the tree's own. */
  function TopLevelDir(topLevelFolder: Option<string>, fallback: string): (d: string)
    ensures NullOrEmpty(topLevelFolder) ==> d == fallback
    ensures !NullOrEmpty(topLevelFolder) ==> d == topLevelFolder.value
    ensures fallback != "" ==> d != ""
  {
    if NullOrEmpty(topLevelFolder) then fallback else topLevelFolder.value
  }

  /** The folder a writer's tree goes under when no override is given. */
  function OwnFolder(w: Writer): string {
    match w
    case AuthorsTree => "Authors"
    case GenresTree => "Genres"
    case SeriesTree => "Series"
    case BooksTree => "Books"
    case FailBooksTree => "FailedBooks"
    case Reports => "Reports"
  }

  /** Once Initialize has accepted the options, no two of the authors, genres and series
      trees that run are written under the same folder. */
  lemma TreesApart(op: OutputProcessor, v: Writer, w: Writer)
    requires !Conflicting(op.Options())
    requires v in op.Plan() && w in op.Plan() && v != w
    requires Rank(v) <= 2 && Rank(w) <= 2
    ensures op.TreeDir(v) != op.TreeDir(w)
  {
    PlanMeaning(op);
  }

  // ------------------------------------------------------------------ names

  /** CleanTitle: "(Unabridged)" goes, each colon becomes " -", apostrophes go, then trimmed. */
  function CleanTitle(title: string): (r: string)
    ensures ':' !in r && '\'' !in r
    ensures Trimmed(r)
  {
    var a := ReplaceAll(title, "(Unabridged)", "");
    var b := ReplaceAll(a, ":", " -");
    ReplaceAllCharGone(a, ':', " -");
    var c := RemoveChars(b, {'\''});
    Trim(c)
  }

  /** A trimmed title without brackets, colons or apostrophes is its own folder name. */
  lemma CleanTitlePlain(s: string)
    requires Trimmed(s)
    requires '(' !in s && ':' !in s && '\'' !in s
    ensures CleanTitle(s) == s
  {
    ReplaceAllAbsent(s, "(Unabridged)", "");
    ReplaceAllAbsent(s, ":", " -");
    RemoveCharsAbsent(s, {'\''});
    TrimTrimmed(s);
  }

  /** The audiobook marker is dropped from a title. */
  lemma CleanTitleDropsUnabridged(w: string)
    requires Word(w) && w != ""
    ensures CleanTitle(w + " (Unabridged)") == w
  {
    var t := w + " ";
    assert forall i :: 0 <= i < |t| ==> t[i] != '(' && t[i] != ':' && t[i] != '\'';
    assert w + " (Unabridged)" == t + "(Unabridged)";
    MarkerGone(t);
    ReplaceAllAbsent(t, ":", " -");
    RemoveCharsAbsent(t, {'\''});
    TrimOneSpace(w);
  }

  lemma MarkerGone(t: string)
    requires '(' !in t
    ensures ReplaceAll(t + "(Unabridged)", "(Unabridged)", "") == t
  {
    ReplaceAllAfter(t, "(Unabridged)", "(Unabridged)", "");
    assert "(Unabridged)"[|"(Unabridged)"|..] == [];
    assert t + "" == t;
  }

  lemma TrimOneSpace(w: string)
    requires Word(w) && w != ""
    ensures Trim(w + " ") == w
  {
    assert Lead(w + " ") == 0;
    assert Trail(w + " ") >= 1;
    assert Trail((w + " ")[..|w|]) == 0 by { assert (w + " ")[..|w|] == w; }
  }

  /** SafeSubstring: a progress-line field exactly `length + 4` characters wide: the text padded
      with spaces, or its first `length` characters and " ...". Calling it on `null` throws. */
  function SafeSubstring(input: Option<string>, length: nat): (r: Result<string>)
    ensures r.Ok? <==> input.Some?
    ensures r.Ok? ==> |r.value| == length + 4
    ensures r.Ok? && |input.value| < length ==>
              r.value[..|input.value|] == input.value && forall i :: |input.value| <= i < |r.value| ==> r.value[i] == ' '
    ensures r.Ok? && |input.value| >= length ==> r.value[..length] == input.value[..length] && r.value[length..] == " ..."
  {
    if input.None? then Err(NullReference)
    else if |input.value| < length then Ok(PadRight(input.value, length + 4))
    else Ok(input.value[..length] + " ...")
  }

  /** The title a book is filed under: its GoodReads title unless that is null. */
  function ChosenTitle(b: Book): string {
    if b.goodReadsTitle.None? then b.bookTitle else b.goodReadsTitle.value
  }

  /** WriteGenres, one book: the progress line shows the GoodReads title, so a book without one
      throws before its folder is named, and the fallback to the local title is never used. */
  function GenreBookFolder(b: Book): (r: Result<string>)
    ensures r.Ok? <==> b.goodReadsTitle.Some?
    ensures r.Ok? ==> r.value == CleanTitle(b.goodReadsTitle.value)
  {
    var shown := SafeSubstring(b.goodReadsTitle, 40);
    if shown.Err? then Err(shown.failure) else Ok(CleanTitle(ChosenTitle(b)))
  }

  /** The prefix a series book folder gets: "Book {v}, " for a non-empty volume, else nothing. */
  function VolumePrefix(volume: Option<string>): string {
    if NullOrEmpty(volume) then "" else "Book " + volume.value + ", "
  }

  /** WriterSeries, one book: the volume prefix and the cleaned GoodReads title. */
  function SeriesBookFolder(b: Book, volume: Option<string>): (r: Result<string>)
    ensures r.Ok? <==> b.goodReadsTitle.Some?
    ensures r.Ok? && NullOrEmpty(volume) ==> r.value == CleanTitle(b.goodReadsTitle.value)
    ensures r.Ok? && !NullOrEmpty(volume) ==> r.value == "Book " + volume.value + ", " + CleanTitle(b.goodReadsTitle.value)
  {
    var shown := SafeSubstring(b.goodReadsTitle, 40);
    if shown.Err? then Err(shown.failure) else Ok(VolumePrefix(volume) + CleanTitle(ChosenTitle(b)))
  }

  /** An empty GoodReads title is kept, not replaced by the local title: the book's folder
      name is empty and the book lands in the genre folder itself. */
  lemma EmptyGoodReadsTitleKept(b: Book)
    requires b.goodReadsTitle == Some("")
    ensures GenreBookFolder(b) == Ok("")
    ensures SeriesBookFolder(b, None) == Ok("")
  {
    assert ReplaceAll("", "(Unabridged)", "") == "";
    assert ReplaceAll("", ":", " -") == "";
    assert Trim("") == "" by { TrimTrimmed(""); }
  }

  // ------------------------------------------------------------------ authors

  /** `Where(a => a.GoodReadsAuthor)`, in order. */
  function GoodReadsAuthors(authors: seq<Author>): seq<Author> {
    if authors == [] then []
    else (if authors[0].goodReadsAuthor then [authors[0]] else []) + GoodReadsAuthors(authors[1..])
  }

  lemma {:induction false} GoodReadsAuthorsMeaning(authors: seq<Author>)
    ensures forall a :: a in GoodReadsAuthors(authors) <==> a in authors && a.goodReadsAuthor
    ensures |GoodReadsAuthors(authors)| == 0 <==> forall a :: a in authors ==> !a.goodReadsAuthor
  {
    if authors != [] {
      GoodReadsAuthorsMeaning(authors[1..]);
      assert forall a :: a in authors <==> a == authors[0] || a in authors[1..];
    }
  }

  /** WriteAuthors: the authors a book is filed under. When any of them came from GoodReads only
      those do; otherwise all of them. */
  function FolderAuthors(authors: seq<Author>): (r: seq<Author>)
    ensures (exists a :: a in authors && a.goodReadsAuthor) ==> forall a :: a in r <==> a in authors && a.goodReadsAuthor
    ensures (forall a :: a in authors ==> !a.goodReadsAuthor) ==> r == authors
    ensures |r| == 0 <==> |authors| == 0
  {
    GoodReadsAuthorsMeaning(authors);
    var grAuthors := GoodReadsAuthors(authors);
    if |grAuthors| != 0 then grAuthors else authors
  }

  /** WriteAuthors: the folder of one book under one author, with every double quote in the
      whole path turned into a space. `combine` is `Path.Combine`. */
  function AuthorBookDir(combine: (string, string) -> string, topDir: string, authorName: string, bookTitle: string): (d: string)
    ensures '"' !in d
    ensures '"' !in combine(combine(topDir, DisplayTitle(authorName)), CleanTitle(bookTitle)) ==>
              d == combine(combine(topDir, DisplayTitle(authorName)), CleanTitle(bookTitle))
  {
    var bookDir := combine(combine(topDir, DisplayTitle(authorName)), CleanTitle(bookTitle));
    if '"' in bookDir then ReplaceChar(bookDir, '"', ' ') else bookDir
  }

  /** WriteAuthors, one book: one folder per chosen author, in order. */
  function AuthorBookDirs(combine: (string, string) -> string, topDir: string, b: Book, authors: seq<Author>): (ds: seq<string>)
    ensures |ds| == |FolderAuthors(authors)|
    ensures forall i :: 0 <= i < |ds| ==> ds[i] == AuthorBookDir(combine, topDir, FolderAuthors(authors)[i].authorName, b.bookTitle)
    ensures forall d :: d in ds ==> '"' !in d
  {
    var chosen := FolderAuthors(authors);
    seq(|chosen|, i requires 0 <= i < |chosen| => AuthorBookDir(combine, topDir, chosen[i].authorName, b.bookTitle))
  }

  // ------------------------------------------------------------------ suspect books

  datatype SuspectHint = SuspectHint(title: string, goodReadsTitle: string, goodreadsLink: Option<string>, bookId: string)

  function HintOf(b: Book): SuspectHint
    requires b.goodReadsTitle.Some?
  {
    SuspectHint(b.bookTitle, b.goodReadsTitle.value, b.goodReadsLink, b.bookId)
  }

  /** A book is suspect when its cleaned local title does not contain its cleaned GoodReads
      title (CleanForMatchTitle is the lookup's title key). */
  predicate Suspect(b: Book)
    requires b.goodReadsTitle.Some?
  {
    !Contains(NormalizeTitle(b.bookTitle), NormalizeTitle(b.goodReadsTitle.value))
  }

  /** The suspect list of WriteReports over the books in order; the first book without a
      GoodReads title throws (CleanForMatchTitle calls ToLower on it). */
  function Suspects(books: seq<Book>): Result<seq<SuspectHint>>
    decreases |books|
  {
    if books == [] then Ok([])
    else
      var rest := Suspects(books[..|books| - 1]);
      var b := books[|books| - 1];
      if rest.Err? then rest
      else if b.goodReadsTitle.None? then Err(NullReference)
      else Ok(rest.value + (if Suspect(b) then [HintOf(b)] else []))
  }

  /** WriteReports, the suspect loop. */
  method SuspectBooks(books: seq<Book>) returns (r: Result<seq<SuspectHint>>)
    ensures r == Suspects(books)
  {
    var suspectList: seq<SuspectHint> := [];
    for i := 0 to |books|
      invariant Suspects(books[..i]) == Ok(suspectList)
    {
      var s := books[i];
      if s.goodReadsTitle.None? {
        SuspectsStop(books, i, suspectList);
        return Err(NullReference);
      }
      SuspectsNext(books, i, suspectList);
      if Suspect(s) {
        suspectList := suspectList + [HintOf(s)];
      }
    }
    assert books[..|books|] == books;
    r := Ok(suspectList);
  }

  /** A book with a GoodReads title extends the list by its hint when it is suspect. */
  lemma SuspectsNext(books: seq<Book>, i: nat, hints: seq<SuspectHint>)
    requires i < |books| && books[i].goodReadsTitle.Some?
    requires Suspects(books[..i]) == Ok(hints)
    ensures Suspects(books[..i + 1]) == Ok(if Suspect(books[i]) then hints + [HintOf(books[i])] else hints)
  {
    assert books[..i + 1][..i] == books[..i];
    assert hints + [] == hints;
  }

  /** A book without one ends the loop by throwing. */
  lemma SuspectsStop(books: seq<Book>, i: nat, hints: seq<SuspectHint>)
    requires i < |books| && books[i].goodReadsTitle.None?
    requires Suspects(books[..i]) == Ok(hints)
    ensures Suspects(books) == Err(NullReference)
  {
    SuspectsOk(books);
    SuspectsErrKind(books);
  }

  /** The only failure of the suspect loop is the null reference. */
  lemma {:induction false} SuspectsErrKind(books: seq<Book>)
    ensures Suspects(books).Err? ==> Suspects(books) == Err(NullReference)
    decreases |books|
  {
    if books != [] {
      SuspectsErrKind(books[..|books| - 1]);
    }
  }

  /** The report is written exactly when every book has a GoodReads title. */
  lemma {:induction false} SuspectsOk(books: seq<Book>)
    ensures Suspects(books).Ok? <==> forall i :: 0 <= i < |books| ==> books[i].goodReadsTitle.Some?
    decreases |books|
  {
    if books != [] {
      var front := books[..|books| - 1];
      SuspectsOk(front);
      assert Suspects(books).Ok? <==> Suspects(front).Ok? && books[|books| - 1].goodReadsTitle.Some?;
      if forall i :: 0 <= i < |books| ==> books[i].goodReadsTitle.Some? {
        forall i | 0 <= i < |front| ensures front[i].goodReadsTitle.Some? {
          assert front[i] == books[i];
        }
        assert Suspects(books).Ok?;
      } else {
        var k :| 0 <= k < |books| && books[k].goodReadsTitle.None?;
        if k < |front| {
          assert front[k] == books[k];
          assert !Suspects(front).Ok?;
        } else {
          assert k == |books| - 1;
        }
      }
    }
  }

  /** A written report holds the hint of every suspect book ... */
  lemma {:induction false} SuspectsComplete(books: seq<Book>)
    requires Suspects(books).Ok?
    ensures forall i :: 0 <= i < |books| && books[i].goodReadsTitle.Some? && Suspect(books[i]) ==>
              HintOf(books[i]) in Suspects(books).value
    decreases |books|
  {
    if books != [] {
      var front := books[..|books| - 1];
      var b := books[|books| - 1];
      SuspectsComplete(front);
      var hs := Suspects(front).value;
      assert Suspects(books).value == hs + (if Suspect(b) then [HintOf(b)] else []);
      forall i | 0 <= i < |books| && books[i].goodReadsTitle.Some? && Suspect(books[i])
        ensures HintOf(books[i]) in Suspects(books).value
      {
        if i < |front| {
          assert front[i] == books[i];
          assert HintOf(books[i]) in hs;
        } else {
          assert i == |books| - 1;
          assert HintOf(b) in hs + [HintOf(b)];
        }
      }
    }
  }

  /** ... and of no other. */
  lemma {:induction false} SuspectsSound(books: seq<Book>)
    requires Suspects(books).Ok?
    ensures forall h :: h in Suspects(books).value ==>
              exists b :: b in books && b.goodReadsTitle.Some? && Suspect(b) && h == HintOf(b)
    decreases |books|
  {
    if books != [] {
      var front := books[..|books| - 1];
      var last := books[|books| - 1];
      SuspectsSound(front);
      var hs := Suspects(front).value;
      assert Suspects(books).value == hs + (if Suspect(last) then [HintOf(last)] else []);
      forall h | h in Suspects(books).value
        ensures exists b :: b in books && b.goodReadsTitle.Some? && Suspect(b) && h == HintOf(b)
      {
        if h in hs {
          var b :| b in front && b.goodReadsTitle.Some? && Suspect(b) && h == HintOf(b);
          assert b in books;
        } else {
          assert h == HintOf(last) && Suspect(last) && last in books;
        }
      }
    }
  }

  /** A book whose GoodReads title is empty, or equal to its own title, is never suspect. */
  lemma NeverSuspect(b: Book)
    requires b.goodReadsTitle == Some("") || b.goodReadsTitle == Some(b.bookTitle)
    ensures !Suspect(b)
  {
    if b.goodReadsTitle == Some("") {
      assert NormalizeTitle("") == "";
      ContainsEmpty(NormalizeTitle(b.bookTitle));
    }
  }
}
