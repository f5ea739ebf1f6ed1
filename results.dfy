/** A search-result row (QueryResult.cs): the constructor parses the scraped title cell
    `"Title (Series, #N)"` into a title, a series title and a series volume. */
module Results {
  import opened Text
  import opened Wrappers

  datatype QueryResult = QueryResult(
    authors: seq<string>,
    title: string,
    seriesTitle: Option<string>,
    seriesCount: Option<string>,
    link: Option<string>)

  /** What `new char[] { ... }.ToString()` yields: the type name, not the characters. */
  const CharArrayName: string := "System.Char[]"

  /** The title after the leading-parenthesis rewrite, whose character edits are lost
      to `ToString()`. */
  function Retitled(title: string): (t: string)
    ensures "(" <= title ==> t == CharArrayName
    ensures !("(" <= title) ==> t == title
  {
    if "(" <= title then CharArrayName else title
  }

  /** The series part of the title cell: `)` removed, trimmed, split on `#`, empty pieces
      dropped. */
  function SeriesPieces(piece: string): (r: seq<string>)
    ensures forall p :: p in r ==> p != [] && '#' !in p
  {
    SplitNonEmpty(Trim(RemoveChars(piece, {')'})), '#')
  }

  /** The QueryResult constructor. */
  function NewQueryResult(title: Option<string>, authors: Option<seq<string>>, link: Option<string>): (r: Result<QueryResult>)
    ensures r.Ok? ==> r.value.link == link
    ensures r.Ok? ==> r.value.authors == (if authors.None? then [] else authors.value)
    ensures title.None? ==> r.Ok? && r.value.title == "" && r.value.seriesTitle.None? && r.value.seriesCount.None?
    ensures title.Some? && '(' !in Retitled(title.value) ==>
      r.Ok? && r.value.title == Trim(Retitled(title.value)) && r.value.seriesTitle.None? && r.value.seriesCount.None?
    ensures r.Ok? && r.value.seriesTitle.Some? ==> ',' !in r.value.seriesTitle.value && '#' !in r.value.seriesTitle.value
  {
    var stored := if authors.None? then [] else authors.value;
    match title
    case None => Ok(QueryResult(stored, "", None, None, link))
    case Some(t0) =>
      var t := Retitled(t0);
      if '(' in t then
        var titleParts := SplitNonEmpty(t, '(');
        if |titleParts| < 2 then Err(IndexOutOfRange)
        else
          var seriesParts := SeriesPieces(titleParts[1]);
          if |seriesParts| < 1 then Err(IndexOutOfRange)
          else
            var seriesTitle := Trim(RemoveChars(seriesParts[0], {','}));
            assert forall c :: c in seriesTitle ==> c in seriesParts[0];
            var seriesCount := if |seriesParts| > 1 then Some(Trim(seriesParts[1])) else None;
            Ok(QueryResult(stored, Trim(titleParts[0]), Some(seriesTitle), seriesCount, link))
      else
        Ok(QueryResult(stored, Trim(t), None, None, link))
  }

  /** A title cell that starts with `(` becomes the type-name text, which has no `(`. */
  lemma LeadingParenthesisLost(t: string, authors: Option<seq<string>>, link: Option<string>)
    requires "(" <= t
    ensures NewQueryResult(Some(t), authors, link).Ok?
    ensures NewQueryResult(Some(t), authors, link).value.title == CharArrayName
  {
    assert '(' !in CharArrayName;
    TrimTrimmed(CharArrayName);
  }

  /** Splitting `a` + c + `b` on c, when neither side holds c, gives the two non-empty sides. */
  lemma SplitTwo(a: string, c: char, b: string)
    requires a != [] && b != [] && c !in a && c !in b
    ensures SplitNonEmpty(a + [c] + b, c) == [a, b]
  {
    SplitAfterPiece(a, c, b);
    assert Split(b, c) == [b];
    NonEmptyCons(a, [b]);
    NonEmptyCons(b, []);
  }

  lemma SeriesPiecesOf(s: string, n: string)
    requires s != [] && !IsSpace(s[0]) && Plain(s)
    requires n != [] && !IsSpace(n[|n| - 1]) && Plain(n)
    ensures SeriesPieces(s + "#" + n + ")") == [s, n]
  {
    var inner := s + "#" + n;
    assert s + "#" + n + ")" == inner + ")";
    RemoveCharsAppend(inner, ")", {')'});
    forall i | 0 <= i < |inner| ensures inner[i] != ')' {
      if i < |s| {
        assert inner[i] == s[i] && s[i] in s;
      } else if i > |s| {
        assert inner[i] == n[i - |s| - 1] && n[i - |s| - 1] in n;
      }
    }
    RemoveCharsAbsent(inner, {')'});
    assert RemoveChars(")", {')'}) == [];
    TrimTrimmed(inner);
    assert inner == s + ['#'] + n;
    SplitTwo(s, '#', n);
  }

  /** No character that the title-cell parse treats specially. */
  predicate Plain(x: string) {
    forall c :: c in x ==> c != '(' && c != ')' && c != '#'
  }

  /** A well-formed cell `t(s#n)` parses into its three parts (each trimmed, commas dropped
      from the series title). */
  lemma ParseTitleSeriesVolume(t: string, s: string, n: string)
    requires t != [] && '(' !in t
    requires s != [] && !IsSpace(s[0]) && Plain(s)
    requires n != [] && !IsSpace(n[|n| - 1]) && Plain(n)
    ensures var r := NewQueryResult(Some(t + "(" + s + "#" + n + ")"), None, None);
      && r.Ok?
      && r.value.title == Trim(t)
      && r.value.seriesTitle == Some(Trim(RemoveChars(s, {','})))
      && r.value.seriesCount == Some(Trim(n))
  {
    CellFacts(t, s, n);
    SeriesPiecesOf(s, n);
    ParseCell(t + "(" + s + "#" + n + ")", t, s + "#" + n + ")", s, n);
  }

  lemma CellFacts(t: string, s: string, n: string)
    requires t != [] && '(' !in t && Plain(s) && Plain(n)
    ensures var cell := t + "(" + s + "#" + n + ")";
      Retitled(cell) == cell && '(' in cell && SplitNonEmpty(cell, '(') == [t, s + "#" + n + ")"]
  {
    var cell := t + "(" + s + "#" + n + ")";
    var rest := s + "#" + n + ")";
    assert cell == t + "(" + rest;
    assert forall c :: c in rest ==> c != '(';
    CellShape(t, rest);
    SplitTwo(t, '(', rest);
  }

  lemma ParseCell(cell: string, t: string, rest: string, s: string, n: string)
    requires Retitled(cell) == cell && '(' in cell
    requires SplitNonEmpty(cell, '(') == [t, rest] && SeriesPieces(rest) == [s, n]
    ensures NewQueryResult(Some(cell), None, None) ==
      Ok(QueryResult([], Trim(t), Some(Trim(RemoveChars(s, {','}))), Some(Trim(n)), None))
  {
  }

  lemma CellShape(t: string, rest: string)
    requires t != [] && '(' !in t
    ensures Retitled(t + "(" + rest) == t + "(" + rest
    ensures '(' in t + "(" + rest
    ensures t + "(" + rest == t + ['('] + rest
  {
    assert (t + "(" + rest)[0] == t[0];
    assert (t + ['('] + rest)[|t|] == '(';
  }

  /** Nothing non-empty after the first `(` ("Dune(") is an index error. */
  lemma ParseFailsWithoutSeries(t: string)
    requires t != [] && '(' !in t
    ensures NewQueryResult(Some(t + "("), None, None) == Err(IndexOutOfRange)
  {
    var cell := t + "(";
    assert cell[0] == t[0];
    assert cell == t + ['('] + [];
    SplitAfterPiece(t, '(', []);
    NonEmptyCons(t, [[]]);
    NonEmptyCons([], []);
  }

  /** An empty series part ("Dune ()") is an index error too. */
  lemma ParseFailsOnEmptySeries(t: string)
    requires t != [] && '(' !in t
    ensures NewQueryResult(Some(t + "()"), None, None) == Err(IndexOutOfRange)
  {
    var cell := t + "()";
    assert cell[0] == t[0];
    assert cell == t + ['('] + ")";
    SplitAfterPiece(t, '(', ")");
    assert Split(")", '(') == [")"];
    NonEmptyCons(t, [")"]);
    NonEmptyCons(")", []);
    assert RemoveChars(")", {')'}) == [];
    assert Trim([]) == [];
  }
}
