/** The small parsers and builders of the lookup step (LookupProcessor.cs): the author
    cell split (GetAuthorName / GetAuthorTypes), the role classifier of
    ProcessAuthorDetails, ProcessSeriesLabel, the three search-URL builders and
    FormatOutputLine. HTML decoding is the uninterpreted parameter `decode`. */
module LookupParsers {
  import opened Text
  import opened Wrappers

  // ---------------------------------------------------------------- author cells

  /** `s.IndexOf(c)`: the first position of `c`, or -1. */
  function IndexOf(s: string, c: char): (k: int)
    ensures -1 <= k < |s|
    ensures k == -1 <==> c !in s
    ensures k >= 0 ==> s[k] == c && c !in s[..k]
  {
    if s == [] then -1
    else if s[0] == c then 0
    else
      var k := IndexOf(s[1..], c);
      assert k >= 0 ==> s[1..][..k] == s[1..k + 1];
      if k == -1 then -1 else k + 1
  }

  /** GetAuthorName: the text up to the character before the first `(`; a `(` in
      front makes `Substring(0, -1)` throw. */
  function GetAuthorName(author: string): (r: Result<string>)
    ensures '(' !in author ==> r == Ok(author)
    ensures '(' in author ==> (r.Err? <==> author[0] == '(')
    ensures r.Err? ==> r.failure == ArgumentOutOfRange
    ensures r.Ok? ==> r.value <= author && '(' !in r.value
  {
    var k := IndexOf(author, '(');
    if k == -1 then Ok(author)
    else if k == 0 then Err(ArgumentOutOfRange)
    else
      assert author[..k - 1] == author[..k][..k - 1];
      Ok(author[..k - 1])
  }

  /** GetAuthorTypes: the text from the first `(` on, or "" without one. */
  function GetAuthorTypes(author: string): (r: string)
    ensures '(' !in author <==> r == ""
    ensures r != "" ==> r[0] == '(' && |r| <= |author| && author[|author| - |r|..] == r
  {
    var k := IndexOf(author, '(');
    if k == -1 then "" else author[k..]
  }

  /** The two halves give the cell back, minus the one character before the first `(`. */
  lemma AuthorCellSplit(author: string, k: nat)
    requires 0 < k < |author| && author[k] == '(' && '(' !in author[..k]
    ensures GetAuthorName(author) == Ok(author[..k - 1])
    ensures GetAuthorTypes(author) == author[k..]
    ensures author[..k - 1] + [author[k - 1]] + author[k..] == author
  {
    assert author[..k - 1] + [author[k - 1]] == author[..k];
    assert author[..k] + author[k..] == author;
  }

  // ---------------------------------------------------------------- role classifier

  /** A credited person's role. The importer stores Unknown for every author and author
      link it creates; the classifier below never yields it. */
  datatype AuthorType = Author | Editor | Translator | Foreword | Contributor | Illustrator | Narrator | Unknown

  datatype AuthorDetails = AuthorDetails(name: string, link: Option<string>, authorType: AuthorType)

  /** One credited person as the page shows it: a name, a link and a role descriptor
      (`None` where the page has no descriptor element). */
  datatype Credit = Credit(name: string, link: Option<string>, descriptor: Option<string>)

  /** The roles in the order the classifier tests for them. */
  const RoleOrder: seq<AuthorType> := [Author, Editor, Translator, Foreword, Contributor, Illustrator, Narrator]

  function Rank(t: AuthorType): nat {
    match t
    case Author => 0
    case Editor => 1
    case Translator => 2
    case Foreword => 3
    case Contributor => 4
    case Illustrator => 5
    case Narrator => 6
    case Unknown => 7
  }

  /** The keyword test for one role on a lower-cased descriptor. */
  predicate Mentions(d: string, t: AuthorType) {
    match t
    case Author => Contains(d, "author")
    case Editor => Contains(d, "editor")
    case Translator => Contains(d, "translator")
    case Foreword => Contains(d, "foreword") || Contains(d, "introduction")
    case Contributor => Contains(d, "contributor")
    case Illustrator => Contains(d, "illustrator")
    case Narrator => Contains(d, "narrator")
    case Unknown => false
  }

  /** The roles of `ts` whose keyword `d` mentions, in the order of `ts`. */
  function Mentioned(d: string, ts: seq<AuthorType>): (r: seq<AuthorType>)
    ensures |r| <= |ts|
  {
    if ts == [] then []
    else (if Mentions(d, ts[0]) then [ts[0]] else []) + Mentioned(d, ts[1..])
  }

  /** The roles one descriptor yields: Author for an empty one (no keyword can occur in
      it), otherwise one role per keyword found in the lower-cased descriptor. */
  function Roles(descriptor: string): (r: seq<AuthorType>)
    ensures descriptor == "" ==> r == [Author]
  {
    if descriptor == "" then [Author] else Mentioned(Lower(descriptor), RoleOrder)
  }

  predicate Ascending(ts: seq<AuthorType>) {
    forall i, j :: 0 <= i < j < |ts| ==> Rank(ts[i]) < Rank(ts[j])
  }

  lemma {:induction false} MentionedMeaning(d: string, ts: seq<AuthorType>)
    ensures forall t :: t in Mentioned(d, ts) <==> t in ts && Mentions(d, t)
    ensures Ascending(ts) ==> Ascending(Mentioned(d, ts))
  {
    if ts != [] {
      MentionedMeaning(d, ts[1..]);
      assert forall t :: t in ts <==> t == ts[0] || t in ts[1..];
      if Ascending(ts) {
        var rest := Mentioned(d, ts[1..]);
        assert forall t :: t in rest ==> Rank(ts[0]) < Rank(t) by {
          forall t | t in rest ensures Rank(ts[0]) < Rank(t) {
            var k :| 1 <= k < |ts| && ts[k] == t;
          }
        }
      }
    }
  }

  /** A role is produced exactly when its keyword occurs (Author also for an empty
      descriptor), each role at most once, in the classifier's fixed order. */
  lemma RolesMeaning(descriptor: string)
    ensures forall t :: t in Roles(descriptor) <==>
      if descriptor == "" then t == Author else Mentions(Lower(descriptor), t)
    ensures Ascending(Roles(descriptor))
  {
    if descriptor != "" {
      MentionedMeaning(Lower(descriptor), RoleOrder);
      RoleOrderFacts();
    }
  }

  /** The classifier tests every role but Unknown, in rank order. */
  lemma RoleOrderFacts()
    ensures forall t :: t in RoleOrder <==> t != Unknown
    ensures Ascending(RoleOrder)
  {
    forall t | t != Unknown ensures t in RoleOrder {
      assert RoleOrder[Rank(t)] == t;
    }
  }

  function Entries(c: Credit, roles: seq<AuthorType>): (r: seq<AuthorDetails>)
    ensures |r| == |roles|
    ensures forall i :: 0 <= i < |r| ==> r[i] == AuthorDetails(c.name, c.link, roles[i])
  {
    seq(|roles|, i requires 0 <= i < |roles| => AuthorDetails(c.name, c.link, roles[i]))
  }

  /** The entries for a list of credits, in credit order; a missing descriptor ends the
      pass with a null dereference (`_description.ToLower()`). */
  function Classified(credits: seq<Credit>): (r: Result<seq<AuthorDetails>>)
    decreases |credits|
  {
    if credits == [] then Ok([])
    else
      var prev := Classified(credits[..|credits| - 1]);
      var last := credits[|credits| - 1];
      if prev.Err? then prev
      else if last.descriptor.None? then Err(NullReference)
      else Ok(prev.value + Entries(last, Roles(last.descriptor.value)))
  }

  lemma ClassifiedStep(credits: seq<Credit>, i: nat)
    requires i < |credits|
    ensures var prev := Classified(credits[..i]);
      Classified(credits[..i + 1]) ==
        if prev.Err? then prev
        else if credits[i].descriptor.None? then Err(NullReference)
        else Ok(prev.value + Entries(credits[i], Roles(credits[i].descriptor.value)))
  {
    assert credits[..i + 1][..i] == credits[..i];
  }

  /** The pass fails exactly when some credit has no descriptor, and then with a null
      dereference. */
  lemma {:induction false} ClassifiedFails(credits: seq<Credit>)
    ensures Classified(credits).Err? <==> exists i :: 0 <= i < |credits| && credits[i].descriptor.None?
    ensures Classified(credits).Err? ==> Classified(credits).failure == NullReference
    decreases |credits|
  {
    if credits != [] {
      var n := |credits| - 1;
      var front := credits[..n];
      ClassifiedFails(front);
      var r := Classified(credits);
      assert r.Err? <==> Classified(front).Err? || credits[n].descriptor.None?;
      assert r.Err? ==> r.failure == NullReference;
      if r.Err? && Classified(front).Err? {
        var i :| 0 <= i < n && front[i].descriptor.None?;
        assert credits[i] == front[i];
      } else if r.Ok? {
        forall i | 0 <= i < |credits| ensures credits[i].descriptor.Some? {
          if i < n {
            assert credits[i] == front[i];
          }
        }
      }
    }
  }

  /** Every credit contributes one entry per role of its descriptor. */
  lemma {:induction false} ClassifiedCount(credits: seq<Credit>)
    requires Classified(credits).Ok?
    ensures |Classified(credits).value| == RoleCount(credits)
    decreases |credits|
  {
    if credits != [] {
      ClassifiedCount(credits[..|credits| - 1]);
    }
  }

  function RoleCount(credits: seq<Credit>): nat
    decreases |credits|
  {
    if credits == [] then 0
    else
      var last := credits[|credits| - 1];
      RoleCount(credits[..|credits| - 1]) + (if last.descriptor.None? then 0 else |Roles(last.descriptor.value)|)
  }

  /** The classifier loop of ProcessAuthorDetails, appending entries credit by credit to
      the list built so far. */
  method ClassifyCredits(credits: seq<Credit>, acc: seq<AuthorDetails>) returns (r: Result<seq<AuthorDetails>>)
    ensures r == match Classified(credits)
      case Ok(es) => Ok(acc + es)
      case Err(f) => Err(f)
  {
    var list := acc;
    var i := 0;
    while i < |credits|
      invariant 0 <= i <= |credits|
      invariant Classified(credits[..i]).Ok?
      invariant list == acc + Classified(credits[..i]).value
    {
      ClassifiedStep(credits, i);
      var c := credits[i];
      if c.descriptor.None? {
        ClassifiedErrExtends(credits, i + 1);
        return Err(NullReference);
      }
      var es := Entries(c, Roles(c.descriptor.value));
      Assoc(acc, Classified(credits[..i]).value, es);
      list := list + es;
      i := i + 1;
    }
    assert credits[..i] == credits;
    r := Ok(list);
  }

  /** Once a prefix fails, the whole list fails the same way. */
  lemma ClassifiedErrExtends(credits: seq<Credit>, n: nat)
    requires n <= |credits| && Classified(credits[..n]).Err?
    ensures Classified(credits) == Err(NullReference)
  {
    ClassifiedFails(credits[..n]);
    var i :| 0 <= i < n && credits[..n][i].descriptor.None?;
    assert credits[i].descriptor.None?;
    ClassifiedFails(credits);
  }

  /** A visible author cell of the book page: its text and the link of its anchor. */
  datatype AuthorCell = AuthorCell(innerText: string, link: Option<string>)

  /** The credit a visible author cell gives: commas become spaces, the text is trimmed
      and decoded, then cut at the first `(`. */
  function CellCredit(decode: string -> string, cell: AuthorCell): (r: Result<Credit>)
    ensures r.Ok? ==> r.value.descriptor.Some? && '(' !in r.value.name
    ensures r.Err? ==> r.failure == ArgumentOutOfRange
  {
    var text := decode(Trim(ReplaceChar(cell.innerText, ',', ' ')));
    match GetAuthorName(text)
    case Err(f) => Err(f)
    case Ok(name) => Ok(Credit(name, cell.link, Some(GetAuthorTypes(text))))
  }

  /** The results of the visible cells, one per cell. */
  function CellResults(decode: string -> string, cells: seq<AuthorCell>): (r: seq<Result<Credit>>)
    ensures |r| == |cells|
    ensures forall i :: 0 <= i < |r| ==> r[i] == CellCredit(decode, cells[i])
  {
    seq(|cells|, i requires 0 <= i < |cells| => CellCredit(decode, cells[i]))
  }

  /** The values of a list of results in order, or the first failure among them. */
  function Collect<T>(rs: seq<Result<T>>): Result<seq<T>>
    decreases |rs|
  {
    if rs == [] then Ok([])
    else
      var prev := Collect(rs[..|rs| - 1]);
      var last := rs[|rs| - 1];
      if prev.Err? then prev
      else if last.Err? then Err(last.failure)
      else Ok(prev.value + [last.value])
  }

  /** Collecting fails exactly when some result is a failure, and then with one of the
      failures; otherwise it holds every value in place. */
  lemma {:induction false} CollectMeaning<T>(rs: seq<Result<T>>)
    ensures Collect(rs).Err? <==> exists i :: 0 <= i < |rs| && rs[i].Err?
    ensures Collect(rs).Err? ==> exists i :: 0 <= i < |rs| && rs[i] == Err(Collect(rs).failure)
    ensures Collect(rs).Ok? ==> |Collect(rs).value| == |rs|
    ensures Collect(rs).Ok? ==> forall i :: 0 <= i < |rs| ==> rs[i] == Ok(Collect(rs).value[i])
    decreases |rs|
  {
    if rs != [] {
      var n := |rs| - 1;
      CollectMeaning(rs[..n]);
      assert forall i :: 0 <= i < n ==> rs[..n][i] == rs[i];
    }
  }

  /** A visible cell fails only with the `Substring(0, -1)` of a leading `(`. */
  lemma CellFailure(decode: string -> string, cells: seq<AuthorCell>)
    ensures Collect(CellResults(decode, cells)).Err? ==> Collect(CellResults(decode, cells)) == Err(ArgumentOutOfRange)
  {
    CollectMeaning(CellResults(decode, cells));
  }

  /** What ProcessAuthorDetails produces: the visible cells' entries, then the entries of
      the expanded "more authors" credits when the page has them. */
  function AuthorDetailsOf(decode: string -> string, cells: seq<AuthorCell>, more: Option<seq<Credit>>): Result<seq<AuthorDetails>> {
    match Collect(CellResults(decode, cells))
    case Err(f) => Err(f)
    case Ok(primary) =>
      match Classified(primary)
      case Err(f) => Err(f)
      case Ok(es) =>
        if more.None? then Ok(es)
        else match Classified(more.value)
          case Err(f) => Err(f)
          case Ok(ms) => Ok(es + ms)
  }

  /** The visible cells never lack a descriptor, so the pass fails exactly when a cell
      starts with `(` after decoding (an out-of-range error) or an expanded credit has no
      descriptor. */
  lemma AuthorDetailsFailures(decode: string -> string, cells: seq<AuthorCell>, more: Option<seq<Credit>>)
    ensures AuthorDetailsOf(decode, cells, more).Err? <==>
      (exists i :: 0 <= i < |cells| && CellCredit(decode, cells[i]).Err?)
      || (more.Some? && exists i :: 0 <= i < |more.value| && more.value[i].descriptor.None?)
    ensures (exists i :: 0 <= i < |cells| && CellCredit(decode, cells[i]).Err?) ==>
      AuthorDetailsOf(decode, cells, more) == Err(ArgumentOutOfRange)
  {
    var rs := CellResults(decode, cells);
    CollectMeaning(rs);
    CellFailure(decode, cells);
    var cs := Collect(rs);
    if cs.Ok? {
      assert forall i :: 0 <= i < |cs.value| ==> cs.value[i].descriptor.Some? by {
        forall i | 0 <= i < |cs.value| ensures cs.value[i].descriptor.Some? {
          assert rs[i] == Ok(cs.value[i]);
        }
      }
      ClassifiedFails(cs.value);
      if more.Some? {
        ClassifiedFails(more.value);
      }
    }
  }

  /** ProcessAuthorDetails: the loop over the visible author cells, then the classifier
      over them and over the expanded credits. */
  method ProcessAuthorDetails(decode: string -> string, cells: seq<AuthorCell>, more: Option<seq<Credit>>)
    returns (r: Result<seq<AuthorDetails>>)
    ensures r == AuthorDetailsOf(decode, cells, more)
  {
    var primary := VisibleCredits(decode, cells);
    if primary.Err? {
      return Err(ArgumentOutOfRange);
    }
    var list := ClassifyCredits(primary.value, []);
    if list.Ok? {
      assert [] + Classified(primary.value).value == Classified(primary.value).value;
      if more.Some? {
        list := ClassifyCredits(more.value, list.value);
      }
    }
    r := list;
  }

  /** The loop over the visible author cells of ProcessAuthorDetails: one credit per cell,
      or the out-of-range failure of the first cell that has one. */
  method VisibleCredits(decode: string -> string, cells: seq<AuthorCell>) returns (r: Result<seq<Credit>>)
    ensures r == Collect(CellResults(decode, cells))
    ensures r.Err? ==> r == Err(ArgumentOutOfRange)
  {
    ghost var rs := CellResults(decode, cells);
    var primary: seq<Credit> := [];
    var i := 0;
    while i < |cells|
      invariant 0 <= i <= |cells|
      invariant Collect(rs[..i]) == Ok(primary)
    {
      CollectStep(rs, i);
      var credit := CellCredit(decode, cells[i]);
      if credit.Err? {
        CollectErrExtends(rs, i + 1);
        CellFailure(decode, cells);
        return Err(ArgumentOutOfRange);
      }
      primary := primary + [credit.value];
      i := i + 1;
    }
    assert rs[..i] == rs;
    r := Ok(primary);
  }

  lemma CollectStep<T>(rs: seq<Result<T>>, i: nat)
    requires i < |rs|
    ensures var prev := Collect(rs[..i]);
      Collect(rs[..i + 1]) ==
        if prev.Err? then prev
        else if rs[i].Err? then Err(rs[i].failure)
        else Ok(prev.value + [rs[i].value])
  {
    assert rs[..i + 1][..i] == rs[..i];
  }

  /** Once a prefix fails, so does the whole list. */
  lemma CollectErrExtends<T>(rs: seq<Result<T>>, n: nat)
    requires n <= |rs| && Collect(rs[..n]).Err?
    ensures Collect(rs).Err?
  {
    CollectMeaning(rs[..n]);
    var i :| 0 <= i < n && rs[..n][i].Err?;
    assert rs[i].Err?;
    CollectMeaning(rs);
  }

  // ---------------------------------------------------------------- series label

  datatype SeriesDto = SeriesDto(seriesTitle: Option<string>, seriesVolume: Option<string>)

  /** No character the series-label parse splits or blanks out. */
  predicate LabelClean(x: string) {
    forall c :: c in x ==> c != '(' && c != ')' && c != ',' && c != '#'
  }

  /** The label with `(`, `)` and `,` turned into spaces, split on `#`, empty pieces
      dropped. */
  function LabelPieces(x: string): (parts: seq<string>)
    ensures forall p :: p in parts ==> p != [] && LabelClean(p)
  {
    var y := SpaceOut(x, {'(', ')', ','});
    SplitWithin(y, '#');
    SplitNonEmpty(y, '#')
  }

  lemma TrimClean(p: string)
    requires LabelClean(p)
    ensures LabelClean(Trim(p))
  {
  }

  /** ProcessSeriesLabel: title and volume are the first two label pieces, trimmed. */
  function ProcessSeriesLabel(decode: string -> string, seriesLabel: Option<string>): (r: SeriesDto)
    ensures seriesLabel.None? ==> r == SeriesDto(None, None)
    ensures seriesLabel.Some? && decode(seriesLabel.value) == "" ==> r == SeriesDto(None, None)
    ensures r.seriesTitle.Some? ==> LabelClean(r.seriesTitle.value)
    ensures r.seriesVolume.Some? ==> LabelClean(r.seriesVolume.value)
    ensures r.seriesVolume.Some? ==> r.seriesTitle.Some?
  {
    if seriesLabel.None? || decode(seriesLabel.value) == "" then SeriesDto(None, None)
    else
      var parts := LabelPieces(decode(seriesLabel.value));
      if |parts| == 0 then SeriesDto(None, None)
      else
        assert parts[0] in parts;
        TrimClean(parts[0]);
        if |parts| == 1 then SeriesDto(Some(Trim(parts[0])), None)
        else
          assert parts[1] in parts;
          TrimClean(parts[1]);
          SeriesDto(Some(Trim(parts[0])), Some(Trim(parts[1])))
  }

  /** A label that decodes to `s#n#...` yields title `s` and volume `n`, trimmed; later
      pieces are ignored. */
  lemma SeriesLabelParts(decode: string -> string, seriesLabel: string, s: string, n: string, tail: string)
    requires decode(seriesLabel) == s + "#" + n + tail
    requires s != [] && n != [] && LabelClean(s + n)
    requires tail == [] || tail[0] == '#'
    requires Unblanked(tail)
    ensures ProcessSeriesLabel(decode, Some(seriesLabel)) == SeriesDto(Some(Trim(s)), Some(Trim(n)))
  {
    LabelPiecesOf(s, n, tail);
  }

  /** No character the label parse blanks out. */
  predicate Unblanked(x: string) {
    forall c :: c in x ==> c != '(' && c != ')' && c != ','
  }

  lemma UnblankedSpaceOut(x: string)
    requires Unblanked(x)
    ensures SpaceOut(x, {'(', ')', ','}) == x
  {
    assert forall i :: 0 <= i < |x| ==> x[i] in x;
    SpaceOutAbsent(x, {'(', ')', ','});
  }

  lemma LabelPiecesOf(s: string, n: string, tail: string)
    requires s != [] && n != [] && LabelClean(s + n)
    requires tail == [] || tail[0] == '#'
    requires Unblanked(tail)
    ensures var ps := LabelPieces(s + "#" + n + tail); |ps| >= 2 && ps[0] == s && ps[1] == n
  {
    var x := s + "#" + n + tail;
    assert forall c :: c in s ==> c in s + n;
    assert forall c :: c in n ==> c in s + n;
    assert Unblanked(x);
    UnblankedSpaceOut(x);
    FirstTwoPieces(s, n, tail);
  }

  lemma FirstTwoPieces(s: string, n: string, tail: string)
    requires s != [] && n != [] && '#' !in s && '#' !in n
    requires tail == [] || tail[0] == '#'
    ensures var ps := SplitNonEmpty(s + "#" + n + tail, '#'); |ps| >= 2 && ps[0] == s && ps[1] == n
  {
    var rest := if tail == [] then [] else Split(tail[1..], '#');
    PieceThenTail(n, tail);
    assert s + "#" + n + tail == s + ['#'] + (n + tail);
    SplitAfterPiece(s, '#', n + tail);
    NonEmptyCons(n, rest);
    NonEmptyCons(s, [n] + rest);
  }

  /** A piece followed by nothing or by a separator is the first piece of the split. */
  lemma PieceThenTail(n: string, tail: string)
    requires '#' !in n
    requires tail == [] || tail[0] == '#'
    ensures Split(n + tail, '#') == [n] + (if tail == [] then [] else Split(tail[1..], '#'))
  {
    if tail == [] {
      assert n + tail == n;
    } else {
      assert n + tail == n + ['#'] + tail[1..];
      SplitAfterPiece(n, '#', tail[1..]);
    }
  }

  // ---------------------------------------------------------------- search URLs

  const Goodreads: string := "https://www.goodreads.com"
  const SearchBase: string := Goodreads + "/search?utf8=%E2%9C%93&query="

  /** No whitespace at all, as a URL query needs. */
  predicate SpaceFree(s: string) {
    forall i :: 0 <= i < |s| ==> !IsSpace(s[i])
  }

  lemma SpaceFreeConcat(a: string, b: string)
    requires SpaceFree(a) && SpaceFree(b)
    ensures SpaceFree(a + b)
  {
    forall i | 0 <= i < |a + b| ensures !IsSpace((a + b)[i]) {
      if i >= |a| {
        assert (a + b)[i] == b[i - |a|];
      }
    }
  }

  /** One query term: whitespace runs become one space, trimmed, spaces become `+`. */
  function QueryTerm(s: string): (r: string)
    ensures |r| <= |s|
    ensures SpaceFree(r)
  {
    var t := Squeeze(s);
    ReplaceChar(t, ' ', '+')
  }

  /** Turning `+` back into spaces recovers the normalised text when the input had none. */
  lemma QueryTermRoundTrip(s: string)
    requires '+' !in s
    ensures ReplaceChar(QueryTerm(s), '+', ' ') == Squeeze(s)
  {
    var t := Squeeze(s);
    assert '+' !in t;
  }

  function Terms(names: seq<string>): (r: seq<string>)
    ensures |r| == |names|
    ensures forall i :: 0 <= i < |r| ==> r[i] == QueryTerm(names[i])
  {
    seq(|names|, i requires 0 <= i < |names| => QueryTerm(names[i]))
  }

  /** MakeGoodReadsQueryFromTitle. */
  function QueryFromTitle(title: string): string
  {
    SearchBase + QueryTerm(title)
  }

  /** MakeGoodReadsQueryFromTitleAuthor: title term, `+`, then the author terms joined by `+`. */
  function QueryFromTitleAuthor(title: string, authorNames: seq<string>): string
  {
    SearchBase + (QueryTerm(title) + "+" + Join(Terms(authorNames), "+"))
  }

  /** MakeGoodReadsQueryFromAuthors. */
  function QueryFromAuthors(authorNames: seq<string>): string
  {
    SearchBase + Join(Terms(authorNames), "+")
  }

  /** Joining the terms with `+` keeps them space-free. */
  lemma {:induction false} JoinedTermsSpaceFree(names: seq<string>)
    ensures SpaceFree(Join(Terms(names), "+"))
    decreases |names|
  {
    var ts := Terms(names);
    if |ts| == 1 {
      assert Join(ts, "+") == ts[0];
    } else if |ts| > 1 {
      JoinedTermsSpaceFree(names[1..]);
      assert Terms(names[1..]) == ts[1..];
      assert Join(ts, "+") == ts[0] + "+" + Join(ts[1..], "+");
      assert SpaceFree("+");
      SpaceFreeConcat(ts[0], "+");
      SpaceFreeConcat(ts[0] + "+", Join(ts[1..], "+"));
    }
  }

  lemma PrefixRest(b: string, q: string)
    ensures b <= b + q && (b + q)[|b|..] == q
  {
  }

  /** Every search URL is the search address followed by a query with no whitespace. */
  lemma QueryHasNoSpace(title: string, authorNames: seq<string>)
    ensures SearchBase <= QueryFromTitle(title) && SpaceFree(QueryFromTitle(title)[|SearchBase|..])
    ensures SearchBase <= QueryFromTitleAuthor(title, authorNames)
      && SpaceFree(QueryFromTitleAuthor(title, authorNames)[|SearchBase|..])
    ensures SearchBase <= QueryFromAuthors(authorNames) && SpaceFree(QueryFromAuthors(authorNames)[|SearchBase|..])
  {
    PrefixRest(SearchBase, QueryTerm(title));
    PrefixRest(SearchBase, QueryTerm(title) + "+" + Join(Terms(authorNames), "+"));
    PrefixRest(SearchBase, Join(Terms(authorNames), "+"));
    JoinedTermsSpaceFree(authorNames);
    assert SpaceFree("+");
    SpaceFreeConcat(QueryTerm(title), "+");
    SpaceFreeConcat(QueryTerm(title) + "+", Join(Terms(authorNames), "+"));
  }

  // ---------------------------------------------------------------- console column

  /** FormatOutputLine: a 30-character column, cut or padded with spaces. */
  function FormatOutputLine(s: string): (r: string)
    ensures |r| == 30
    ensures |s| <= 30 ==> r[..|s|] == s && forall i :: |s| <= i < 30 ==> r[i] == ' '
    ensures |s| > 30 ==> r == s[..30]
  {
    if |s| > 30 then s[..30] else PadRight(s, 30)
  }
}
