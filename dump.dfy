/** DumpProcessor: the console listing of the library. Each enabled section writes its
    lines in a fixed order; the listing is modelled as the sequence of lines Execute writes,
    and the BookCommands queries it makes as a `Catalogue` value. */
module Dump {
  import opened Wrappers
  import opened LookupParsers
  import opened Store
  import opened Selection

  /** The options DumpProcessor.Initialize reads. */
  datatype DumpOptions = DumpOptions(
    databaseFile: string,
    authors: bool,
    books: bool,
    failedLookups: bool,
    genres: bool,
    series: bool,
    stats: bool,
    duplicates: bool)

  /** What the BookCommands queries return while Execute runs; every GetBooks call sees `books`. */
  datatype Catalogue = Catalogue(
    authors: seq<Author>,
    books: seq<Book>,
    failedLookups: seq<Book>,     // GetBooksFailedGoodReads
    genres: seq<Genre>,
    series: seq<Series>,
    missingGoodReads: seq<Book>)  // GetBooksMissingGoodReads

  /** One console line. The miss percentage is a formatted double, kept as its two operands. */
  datatype Line = Plain(text: string) | MissPercentage(missed: nat, total: nat)

  // ------------------------------------------------------------------ one line per item

  /** A `foreach` that writes one line per item. */
  function LinesOf<T>(xs: seq<T>, f: T -> string): (ls: seq<Line>)
    ensures |ls| == |xs|
    ensures forall i :: 0 <= i < |xs| ==> ls[i] == Plain(f(xs[i]))
  {
    if xs == [] then [] else LinesOf(xs[..|xs| - 1], f) + [Plain(f(xs[|xs| - 1]))]
  }

  lemma LinesOfSnoc<T>(xs: seq<T>, x: T, f: T -> string)
    ensures LinesOf(xs + [x], f) == LinesOf(xs, f) + [Plain(f(x))]
  {
    assert (xs + [x])[..|xs|] == xs;
  }

  method WriteLines<T>(xs: seq<T>, f: T -> string) returns (ls: seq<Line>)
    ensures ls == LinesOf(xs, f)
  {
    ls := [];
    for i := 0 to |xs|
      invariant ls == LinesOf(xs[..i], f)
    {
      assert xs[..i + 1] == xs[..i] + [xs[i]];
      LinesOfSnoc(xs[..i], xs[i], f);
      ls := ls + [Plain(f(xs[i]))];
    }
    assert xs[..|xs|] == xs;
  }

  predicate EndsWith(s: string, suffix: string) {
    |suffix| <= |s| && s[|s| - |suffix|..] == suffix
  }

  // ------------------------------------------------------------------ authors and books

  /** `AuthorType.ToString()`: the enum member's name. */
  function TypeName(t: AuthorType): string {
    match t
    case Author => "Author"
    case Editor => "Editor"
    case Translator => "Translator"
    case Foreword => "Foreword"
    case Contributor => "Contributor"
    case Illustrator => "Illustrator"
    case Narrator => "Narrator"
    case Unknown => "Unknown"
  }

  const GoodReadsMarker := " - GR"

  /** An author's line: the " - GR" marker is computed and then overwritten by the role. */
  function AuthorLine(a: Author): string {
    a.authorName + "- " + TypeName(a.authorType)
  }

  /** The author line is the name followed by "- " and the role, whether or not the author
      came from GoodReads, and it never carries the GoodReads marker. */
  lemma AuthorLineShape(a: Author, fromGoodReads: bool)
    ensures AuthorLine(a.(goodReadsAuthor := fromGoodReads)) == AuthorLine(a)
    ensures AuthorLine(a)[..|a.authorName|] == a.authorName
    ensures EndsWith(AuthorLine(a), "- " + TypeName(a.authorType))
    ensures !EndsWith(AuthorLine(a), GoodReadsMarker)
  {
    var r := AuthorLine(a);
    var t := TypeName(a.authorType);
    assert r[|r| - 1] == t[|t| - 1] != 'R';
    assert r[|r| - |"- " + t|..] == "- " + t;
  }

  function BookTitle(b: Book): string { b.bookTitle }

  /** A book's line: the title, marked " - GR" when it has no GoodReads description. */
  function BookLine(b: Book): (r: string)
    ensures |r| >= |b.bookTitle| && r[..|b.bookTitle|] == b.bookTitle
    ensures |r| > |b.bookTitle| <==> NullOrEmpty(b.goodReadsDescription)
    ensures |r| > |b.bookTitle| ==> r[|b.bookTitle|..] == GoodReadsMarker
  {
    b.bookTitle + (if NullOrEmpty(b.goodReadsDescription) then GoodReadsMarker else "")
  }

  function GenreName(g: Genre): string { g.genreName }

  function SeriesName(s: Series): string { s.seriesName }

  // ------------------------------------------------------------------ duplicate titles

  /** How many books carry exactly this title. */
  function Matches(books: seq<Book>, title: string): (n: nat)
    ensures n <= |books|
  {
    if books == [] then 0
    else Matches(books[..|books| - 1], title) + (if books[|books| - 1].bookTitle == title then 1 else 0)
  }

  /** The inner loop: counts the books whose title equals `title`. */
  method CountMatches(books: seq<Book>, title: string) returns (matchCount: nat)
    ensures matchCount == Matches(books, title)
  {
    matchCount := 0;
    for i := 0 to |books|
      invariant matchCount == Matches(books[..i], title)
    {
      assert books[..i + 1][..i] == books[..i];
      if books[i].bookTitle == title {
        matchCount := matchCount + 1;
      }
    }
    assert books[..|books|] == books;
  }

  lemma {:induction false} MatchesAppend(a: seq<Book>, b: seq<Book>, title: string)
    ensures Matches(a + b, title) == Matches(a, title) + Matches(b, title)
  {
    if b == [] {
      assert a + b == a;
    } else {
      assert (a + b)[..|a + b| - 1] == a + b[..|b| - 1];
      MatchesAppend(a, b[..|b| - 1], title);
    }
  }

  lemma {:induction false} MatchesNone(books: seq<Book>, title: string)
    ensures Matches(books, title) == 0 <==> forall i :: 0 <= i < |books| ==> books[i].bookTitle != title
  {
    if books != [] {
      var front := books[..|books| - 1];
      MatchesNone(front, title);
      assert forall i :: 0 <= i < |front| ==> front[i] == books[i];
    }
  }

  lemma MatchesOne(b: Book, title: string)
    ensures Matches([b], title) == if b.bookTitle == title then 1 else 0
  {
    assert [b][..0] == [];
  }

  /** A book's title counts more than once exactly when some other book has the same title. */
  lemma MatchesOther(books: seq<Book>, i: nat)
    requires i < |books|
    ensures Matches(books, books[i].bookTitle) > 1 <==>
            exists j :: 0 <= j < |books| && j != i && books[j].bookTitle == books[i].bookTitle
  {
    var t := books[i].bookTitle;
    var before, after := books[..i], books[i + 1..];
    assert books == before + [books[i]] + after;
    MatchesAppend(before + [books[i]], after, t);
    MatchesAppend(before, [books[i]], t);
    MatchesOne(books[i], t);
    MatchesNone(before, t);
    MatchesNone(after, t);
    if Matches(books, t) > 1 {
      if Matches(before, t) > 0 {
        var j :| 0 <= j < |before| && before[j].bookTitle == t;
        assert books[j] == before[j];
      } else {
        var j :| 0 <= j < |after| && after[j].bookTitle == t;
        assert books[i + 1 + j] == after[j];
      }
    } else {
      forall j | 0 <= j < |books| && j != i ensures books[j].bookTitle != t {
        if j < i {
          assert books[j] == before[j];
        } else {
          assert books[j] == after[j - i - 1];
        }
      }
    }
  }

  /** The books of `s`, in order, whose title at least two books of `all` share. */
  function Duplicated(all: seq<Book>, s: seq<Book>): seq<Book>
  {
    if s == [] then []
    else Duplicated(all, s[..|s| - 1]) + (if Matches(all, s[|s| - 1].bookTitle) > 1 then [s[|s| - 1]] else [])
  }

  lemma DuplicatedSnoc(all: seq<Book>, s: seq<Book>, b: Book)
    ensures Matches(all, b.bookTitle) > 1 ==> Duplicated(all, s + [b]) == Duplicated(all, s) + [b]
    ensures Matches(all, b.bookTitle) <= 1 ==> Duplicated(all, s + [b]) == Duplicated(all, s)
  {
    assert (s + [b])[..|s|] == s;
    assert Duplicated(all, s) + [] == Duplicated(all, s);
  }

  /** A book of `s` is listed exactly when its title is shared within `all`. */
  lemma {:induction false} DuplicatedMembers(all: seq<Book>, s: seq<Book>)
    ensures forall b :: b in Duplicated(all, s) <==> b in s && Matches(all, b.bookTitle) > 1
  {
    if s != [] {
      var front, b := s[..|s| - 1], s[|s| - 1];
      assert s == front + [b];
      DuplicatedMembers(all, front);
      DuplicatedSnoc(all, front, b);
    }
  }

  /** A title shared by k > 1 books is listed k times; a title held by one book, never. */
  lemma {:induction false} DuplicatedCount(all: seq<Book>, s: seq<Book>, title: string)
    ensures Matches(Duplicated(all, s), title) == if Matches(all, title) > 1 then Matches(s, title) else 0
  {
    if s != [] {
      var front, b := s[..|s| - 1], s[|s| - 1];
      assert s == front + [b];
      DuplicatedCount(all, front, title);
      DuplicatedSnoc(all, front, b);
      if Matches(all, b.bookTitle) > 1 {
        MatchesAppend(Duplicated(all, front), [b], title);
        MatchesOne(b, title);
      }
    }
  }

  function DuplicateLine(b: Book): string {
    "Duplicate Title: " + b.bookTitle + " -> " + b.bookLocation
  }

  /** The duplicates pass: for each book, count the books sharing its title, and list it
      when there are at least two. */
  method DuplicateLines(books: seq<Book>) returns (ls: seq<Line>)
    ensures ls == LinesOf(Duplicated(books, books), DuplicateLine)
  {
    ls := [];
    for i := 0 to |books|
      invariant ls == LinesOf(Duplicated(books, books[..i]), DuplicateLine)
    {
      var matchCount := CountMatches(books, books[i].bookTitle);
      assert books[..i + 1] == books[..i] + [books[i]];
      DuplicatedSnoc(books, books[..i], books[i]);
      if matchCount > 1 {
        LinesOfSnoc(Duplicated(books, books[..i]), books[i], DuplicateLine);
        ls := ls + [Plain(DuplicateLine(books[i]))];
      }
    }
    assert books[..|books|] == books;
  }

  // ------------------------------------------------------------------ stats

  /** An `int` interpolated into a string: its decimal digits. */
  function Decimal(n: nat): (r: string)
    ensures r != [] && forall k :: 0 <= k < |r| ==> '0' <= r[k] <= '9'
    ensures |r| > 1 ==> r[0] != '0'
  {
    (if n < 10 then [] else Decimal(n / 10)) + [('0' as int + n % 10) as char]
  }

  /** The number a string of decimal digits denotes. */
  function DecimalValue(s: string): int {
    if s == [] then 0 else DecimalValue(s[..|s| - 1]) * 10 + (s[|s| - 1] as int - '0' as int)
  }

  /** Reading the digits back gives the number. */
  lemma {:induction false} DecimalRoundTrip(n: nat)
    ensures DecimalValue(Decimal(n)) == n
  {
    var r := Decimal(n);
    assert r[..|r| - 1] == if n < 10 then [] else Decimal(n / 10);
    if n >= 10 {
      DecimalRoundTrip(n / 10);
    }
  }

  function StatsLines(c: Catalogue): seq<Line> {
    [ Plain("\n=== Stats ==="),
      Plain("Books: " + Decimal(|c.books|)),
      Plain("Series: " + Decimal(|c.series|)),
      Plain("Genres: " + Decimal(|c.genres|)),
      Plain("Failed Lookup: " + Decimal(|c.failedLookups|)),
      MissPercentage(|c.failedLookups|, |c.books|),
      Plain("Goodreads Lookup not done: " + Decimal(|c.missingGoodReads|)) ]
  }

  // ------------------------------------------------------------------ sections

  /** The sections of the listing, in the order Execute tests their flags. */
  datatype Section = AuthorsSection | BooksSection | FailedSection | GenresSection | SeriesSection
                   | DuplicatesSection | StatsSection

  function Rank(s: Section): nat {
    match s
    case AuthorsSection => 0
    case BooksSection => 1
    case FailedSection => 2
    case GenresSection => 3
    case SeriesSection => 4
    case DuplicatesSection => 5
    case StatsSection => 6
  }

  const Order: seq<Section> :=
    [AuthorsSection, BooksSection, FailedSection, GenresSection, SeriesSection, DuplicatesSection, StatsSection]

  /** What one section writes: a heading, then one line per item; the duplicates have no heading. */
  function SectionLines(s: Section, c: Catalogue): seq<Line> {
    match s
    case AuthorsSection => [Plain("\n=== Authors ===")] + LinesOf(c.authors, AuthorLine)
    case BooksSection => [Plain("\n=== Books ===")] + LinesOf(c.books, BookLine)
    case FailedSection => [Plain("\n=== Failed Lookups ===")] + LinesOf(c.failedLookups, BookTitle)
    case GenresSection => [Plain("\n=== Genres ===")] + LinesOf(c.genres, GenreName)
    case SeriesSection => [Plain("\n=== Series ===")] + LinesOf(c.series, SeriesName)
    case DuplicatesSection => LinesOf(Duplicated(c.books, c.books), DuplicateLine)
    case StatsSection => StatsLines(c)
  }

  method Emit(s: Section, c: Catalogue) returns (ls: seq<Line>)
    ensures ls == SectionLines(s, c)
  {
    match s
    case AuthorsSection =>
      var xs := WriteLines(c.authors, AuthorLine);
      ls := [Plain("\n=== Authors ===")] + xs;
    case BooksSection =>
      var xs := WriteLines(c.books, BookLine);
      ls := [Plain("\n=== Books ===")] + xs;
    case FailedSection =>
      var xs := WriteLines(c.failedLookups, BookTitle);
      ls := [Plain("\n=== Failed Lookups ===")] + xs;
    case GenresSection =>
      var xs := WriteLines(c.genres, GenreName);
      ls := [Plain("\n=== Genres ===")] + xs;
    case SeriesSection =>
      var xs := WriteLines(c.series, SeriesName);
      ls := [Plain("\n=== Series ===")] + xs;
    case DuplicatesSection =>
      ls := DuplicateLines(c.books);
    case StatsSection =>
      ls := StatsLines(c);
  }

  /** The lines of a plan of sections, written one section after another. */
  function Transcript(plan: seq<Section>, c: Catalogue): seq<Line> {
    if plan == [] then [] else Transcript(plan[..|plan| - 1], c) + SectionLines(plan[|plan| - 1], c)
  }

  /** Testing the flag of section k adds that section's lines, or nothing. */
  lemma PlanStep(f: seq<bool>, k: nat, c: Catalogue)
    requires |f| == |Order| && k < |Order|
    ensures f[k] ==> Transcript(Keep(Order[..k + 1], f[..k + 1]), c)
                     == Transcript(Keep(Order[..k], f[..k]), c) + SectionLines(Order[k], c)
    ensures !f[k] ==> Transcript(Keep(Order[..k + 1], f[..k + 1]), c) == Transcript(Keep(Order[..k], f[..k]), c)
  {
    assert Order[..k + 1] == Order[..k] + [Order[k]];
    assert f[..k + 1] == f[..k] + [f[k]];
    KeepSnoc(Order[..k], f[..k], Order[k], f[k]);
    var p := Keep(Order[..k], f[..k]);
    if f[k] {
      assert (p + [Order[k]])[..|p|] == p;
    } else {
      assert p + [] == p;
    }
  }

  class DumpProcessor {
    var authors: bool
    var books: bool
    var failedLookups: bool
    var genres: bool
    var series: bool
    var stats: bool
    var duplicates: bool

    /** Initialize stores every flag and always succeeds. */
    method Initialize(d: DumpOptions) returns (r: bool)
      modifies this
      ensures authors == d.authors && books == d.books && failedLookups == d.failedLookups
      ensures genres == d.genres && series == d.series && stats == d.stats && duplicates == d.duplicates
      ensures r
    {
      authors := d.authors;
      books := d.books;
      failedLookups := d.failedLookups;
      genres := d.genres;
      series := d.series;
      stats := d.stats;
      duplicates := d.duplicates;
      return true;
    }

    /** The section flags, in the order Execute tests them. */
    function Flags(): (f: seq<bool>)
      reads this
      ensures |f| == |Order|
    {
      [authors, books, failedLookups, genres, series, duplicates, stats]
    }

    /** The sections Execute writes: those whose flag is set, in the fixed order. */
    function Plan(): seq<Section>
      reads this
    {
      Keep(Order, Flags())
    }

    /** Execute writes the lines of each planned section, one section after another. */
    method Execute(c: Catalogue) returns (out: seq<Line>)
      ensures out == Transcript(Plan(), c)
    {
      ghost var f := Flags();
      out := [];
      out := WriteSection(authors, 0, c, f, out);
      out := WriteSection(books, 1, c, f, out);
      out := WriteSection(failedLookups, 2, c, f, out);
      out := WriteSection(genres, 3, c, f, out);
      out := WriteSection(series, 4, c, f, out);
      out := WriteSection(duplicates, 5, c, f, out);
      out := WriteSection(stats, 6, c, f, out);
      WrittenAll(f, c);
    }
  }

  /** What the first k tests of Execute write. */
  function Written(f: seq<bool>, k: nat, c: Catalogue): seq<Line>
    requires k <= |f| == |Order|
  {
    if k == 0 then [] else Written(f, k - 1, c) + (if f[k - 1] then SectionLines(Order[k - 1], c) else [])
  }

  /** The first k tests write the sections of the first k flags that are set. */
  lemma {:induction false} WrittenPlan(f: seq<bool>, k: nat, c: Catalogue)
    requires k <= |f| == |Order|
    ensures Written(f, k, c) == Transcript(Keep(Order[..k], f[..k]), c)
  {
    if k == 0 {
      assert Order[..0] == [] && f[..0] == [];
    } else {
      WrittenPlan(f, k - 1, c);
      PlanStep(f, k - 1, c);
      if !f[k - 1] {
        assert Written(f, k - 1, c) + [] == Written(f, k - 1, c);
      }
    }
  }

  /** All seven tests write the sections whose flag is set. */
  lemma WrittenAll(f: seq<bool>, c: Catalogue)
    requires |f| == |Order|
    ensures Written(f, |Order|, c) == Transcript(Keep(Order, f), c)
  {
    WrittenPlan(f, |Order|, c);
    assert Order[..|Order|] == Order && f[..|Order|] == f;
  }

  /** One test of Execute: when section k's flag is set, its lines follow what is written. */
  method WriteSection(on: bool, k: nat, c: Catalogue, ghost f: seq<bool>, out: seq<Line>) returns (out': seq<Line>)
    requires k < |f| == |Order| && f[k] == on
    requires out == Written(f, k, c)
    ensures out' == Written(f, k + 1, c)
  {
    if on {
      var ls := Emit(Order[k], c);
      out' := out + ls;
    } else {
      out' := out;
      assert out + [] == out;
    }
  }

  /** Execute writes exactly the sections whose flag is set, each once, in the fixed order
      authors, books, failed lookups, genres, series, duplicates, stats. */
  lemma PlanMeaning(dp: DumpProcessor)
    ensures AuthorsSection in dp.Plan() <==> dp.authors
    ensures BooksSection in dp.Plan() <==> dp.books
    ensures FailedSection in dp.Plan() <==> dp.failedLookups
    ensures GenresSection in dp.Plan() <==> dp.genres
    ensures SeriesSection in dp.Plan() <==> dp.series
    ensures DuplicatesSection in dp.Plan() <==> dp.duplicates
    ensures StatsSection in dp.Plan() <==> dp.stats
    ensures Rising(dp.Plan(), Rank)
  {
    var f := dp.Flags();
    KeepByRank(Order, f, Rank);
    assert Order[0] == AuthorsSection && f[0] == dp.authors;
    assert Order[1] == BooksSection && f[1] == dp.books;
    assert Order[2] == FailedSection && f[2] == dp.failedLookups;
    assert Order[3] == GenresSection && f[3] == dp.genres;
    assert Order[4] == SeriesSection && f[4] == dp.series;
    assert Order[5] == DuplicatesSection && f[5] == dp.duplicates;
    assert Order[6] == StatsSection && f[6] == dp.stats;
  }
}
