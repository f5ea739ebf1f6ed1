/** Choosing the search row that is the local book (LookupProcessor.cs, both
    MatchBookResults overloads): every row is scored on author and title evidence, the
    first row with the strictly greatest score wins, and the winner is kept only when its
    normalised title and the local one contain one another. HTML decoding is the
    uninterpreted `decode`, and the token intersection of `Split().Intersect(...,
    new LevenshteinComparer()).Count()` is the uninterpreted `overlap`. */
module Matching {
  import opened Text
  import opened Wrappers
  import opened Similarity
  import opened Normalize
  import opened Results

  // ---------------------------------------------------------------- author evidence

  /** A local author and a row author are the same person: similarity of the normalised
      names above 0.70. */
  predicate AuthorHit(decode: string -> string, a: string, b: string) {
    Similarity.Similarity(NormalizeAuthor(a), NormalizeAuthor(decode(b))) > 0.70
  }

  function HitOf(decode: string -> string): (string, string) -> bool {
    (a, b) => AuthorHit(decode, a, b)
  }

  /** Number of set flags. */
  function Trues(flags: seq<bool>): nat
    decreases |flags|
  {
    if flags == [] then 0
    else Trues(flags[..|flags| - 1]) + (if flags[|flags| - 1] then 1 else 0)
  }

  lemma {:induction false} TruesZero(flags: seq<bool>)
    ensures Trues(flags) == 0 <==> forall j :: 0 <= j < |flags| ==> !flags[j]
    ensures Trues(flags) <= |flags|
    decreases |flags|
  {
    if flags != [] {
      var m := |flags| - 1;
      TruesZero(flags[..m]);
      assert forall j :: 0 <= j < m ==> flags[..m][j] == flags[j];
    }
  }

  /** For each row author, whether `hit` pairs it with local author `a`. */
  function RowFlags(hit: (string, string) -> bool, a: string, bs: seq<string>): (flags: seq<bool>)
    ensures |flags| == |bs|
  {
    seq(|bs|, k requires 0 <= k < |bs| => hit(a, bs[k]))
  }

  /** Number of row authors `bs` that `hit` pairs with local author `a`. */
  function RowHits(hit: (string, string) -> bool, a: string, bs: seq<string>): nat {
    Trues(RowFlags(hit, a, bs))
  }

  /** Number of (local author, row author) pairs that `hit` accepts. */
  function PairHits(hit: (string, string) -> bool, authorNames: seq<string>, bs: seq<string>): nat
    decreases |authorNames|
  {
    if authorNames == [] then 0
    else
      var k := |authorNames| - 1;
      PairHits(hit, authorNames[..k], bs) + RowHits(hit, authorNames[k], bs)
  }

  lemma RowHitsZero(hit: (string, string) -> bool, a: string, bs: seq<string>)
    ensures RowHits(hit, a, bs) == 0 <==> forall j :: 0 <= j < |bs| ==> !hit(a, bs[j])
    ensures RowHits(hit, a, bs) <= |bs|
  {
    var flags := RowFlags(hit, a, bs);
    TruesZero(flags);
    assert forall j :: 0 <= j < |bs| ==> flags[j] == hit(a, bs[j]);
  }

  /** No pair counts exactly when no row author is accepted for any local one. */
  lemma {:induction false} PairHitsZero(hit: (string, string) -> bool, authorNames: seq<string>, bs: seq<string>)
    ensures PairHits(hit, authorNames, bs) == 0 <==>
      forall i, j :: 0 <= i < |authorNames| && 0 <= j < |bs| ==> !hit(authorNames[i], bs[j])
    decreases |authorNames|
  {
    if authorNames != [] {
      var k := |authorNames| - 1;
      PairHitsZero(hit, authorNames[..k], bs);
      RowHitsZero(hit, authorNames[k], bs);
      assert forall i :: 0 <= i < k ==> authorNames[..k][i] == authorNames[i];
    }
  }

  /** The count is at most one per pair. */
  lemma {:induction false} PairHitsBound(hit: (string, string) -> bool, authorNames: seq<string>, bs: seq<string>)
    ensures PairHits(hit, authorNames, bs) <= |authorNames| * |bs|
    decreases |authorNames|
  {
    if authorNames != [] {
      var k := |authorNames| - 1;
      PairHitsBound(hit, authorNames[..k], bs);
      RowHitsZero(hit, authorNames[k], bs);
      assert |authorNames| * |bs| == k * |bs| + |bs|;
    }
  }

  /** One step of the inner author loop: normalise both names and compare. */
  method AuthorsMatch(decode: string -> string, a: string, b: string) returns (h: bool)
    ensures h == HitOf(decode)(a, b)
  {
    var a1 := NormalizeAuthor(a);
    var a2 := NormalizeAuthor(decode(b));
    var likeness := CalculateStringSimilarity(a1, a2);
    h := likeness > 0.70;
  }

  /** One more row author: the count over the longer prefix adds its flag. */
  lemma RowStep(hit: (string, string) -> bool, a: string, bs: seq<string>, j: nat, h: bool)
    requires j < |bs| && h == hit(a, bs[j])
    ensures Trues(RowFlags(hit, a, bs)[..j + 1]) == Trues(RowFlags(hit, a, bs)[..j]) + (if h then 1 else 0)
  {
    var flags := RowFlags(hit, a, bs);
    assert flags[..j + 1][..j] == flags[..j];
  }

  /** The inner author loop: the row authors matching local author `a`. */
  method CountRowMatches(decode: string -> string, a: string, bs: seq<string>) returns (n: int)
    ensures n == RowHits(HitOf(decode), a, bs)
  {
    n := 0;
    var j := 0;
    while j < |bs|
      invariant 0 <= j <= |bs|
      invariant n == Trues(RowFlags(HitOf(decode), a, bs)[..j])
    {
      var h := AuthorsMatch(decode, a, bs[j]);
      RowStep(HitOf(decode), a, bs, j, h);
      if h {
        n := n + 1;
      }
      j := j + 1;
    }
    RowEnd(HitOf(decode), a, bs);
  }

  lemma RowEnd(hit: (string, string) -> bool, a: string, bs: seq<string>)
    ensures Trues(RowFlags(hit, a, bs)[..|bs|]) == RowHits(hit, a, bs)
  {
    var flags := RowFlags(hit, a, bs);
    assert flags[..|bs|] == flags;
  }

  /** The nested author loops of the scored MatchBookResults. */
  method CountAuthorMatches(decode: string -> string, authorNames: seq<string>, bs: seq<string>) returns (n: int)
    ensures n == PairHits(HitOf(decode), authorNames, bs)
  {
    n := 0;
    var i := 0;
    while i < |authorNames|
      invariant 0 <= i <= |authorNames|
      invariant n == PairHits(HitOf(decode), authorNames[..i], bs)
    {
      var row := CountRowMatches(decode, authorNames[i], bs);
      assert authorNames[..i + 1][..i] == authorNames[..i];
      n := n + row;
      i := i + 1;
    }
    assert authorNames[..i] == authorNames;
  }

  // ---------------------------------------------------------------- the score

  /** What the scorer looks at in a row: the number of matching author pairs, the
      normalised decoded title and series title ("" without a series), the series volume,
      and the normalised undecoded title the final gate compares. */
  datatype RowView = RowView(authorHits: nat, title: string, series: string, seriesCount: Option<string>, gateTitle: string)

  /** The normalised series title of a row, "" when the row has none. */
  function SeriesKey(decode: string -> string, r: QueryResult): string {
    if r.seriesTitle.None? || r.seriesTitle.value == "" then ""
    else NormalizeTitle(decode(r.seriesTitle.value))
  }

  function ViewOf(decode: string -> string, authorNames: seq<string>, r: QueryResult): RowView {
    RowView(PairHits(HitOf(decode), authorNames, r.authors), NormalizeTitle(decode(r.title)),
            SeriesKey(decode, r), r.seriesCount, NormalizeTitle(r.title))
  }

  function Views(decode: string -> string, authorNames: seq<string>, results: seq<QueryResult>): (vs: seq<RowView>)
    ensures |vs| == |results|
    ensures forall i :: 0 <= i < |vs| ==> vs[i] == ViewOf(decode, authorNames, results[i])
  {
    seq(|results|, i requires 0 <= i < |results| => ViewOf(decode, authorNames, results[i]))
  }

  /** The author part of the score: the number of matching pairs, or -2 without any. */
  function AuthorScore(m: nat): (s: int)
    ensures m == 0 <==> s == -2
    ensures m > 0 ==> s == m
  {
    if m > 0 then m else -2
  }

  /** The title and series terms for a row with normalised title `title`, normalised
      series title `series` and volume `count`: +2 when the local key contains the title,
      +1 for "book {volume}", +1 for the series title, -2 when series and title are nearly
      equal. */
  function TitleTerms(key: string, title: string, series: string, count: Option<string>): int {
    (if Contains(key, title) then 2 else 0)
    + (if count.Some? && count.value != "" && Contains(key, "book " + count.value) then 1 else 0)
    + (if series != "" && Contains(key, series) then 1 else 0)
    - (if series != "" && Similarity.Similarity(title, series) > 0.95 then 2 else 0)
  }

  /** The token terms: title tokens shared with the key and, with a series, series tokens. */
  function TokenTerms(overlap: (seq<string>, seq<string>) -> nat, key: string, title: string, series: string): nat {
    overlap(Split(title, ' '), Split(key, ' '))
    + (if series != "" then overlap(Split(series, ' '), Split(key, ' ')) else 0)
  }

  /** The score of one row against the normalised local title `key`. */
  function Score(overlap: (seq<string>, seq<string>) -> nat, key: string, v: RowView): int {
    AuthorScore(v.authorHits) + TitleTerms(key, v.title, v.series, v.seriesCount)
    + TokenTerms(overlap, key, v.title, v.series)
  }

  /** The title and series terms move the score by at most -2 and +4; without a series
      and a volume only the +2 for the title remains. */
  lemma TitleTermsRange(key: string, title: string, series: string, count: Option<string>)
    ensures -2 <= TitleTerms(key, title, series, count) <= 4
    ensures series == "" && (count.None? || count.value == "") ==>
      TitleTerms(key, title, series, count) == if Contains(key, title) then 2 else 0
  {
  }

  /** A row no local author matches still reaches a positive score on its title: the
      title term and one shared token outweigh the -2. */
  lemma AuthorlessRowScores(overlap: (seq<string>, seq<string>) -> nat, key: string, v: RowView)
    requires v.authorHits == 0 && v.series == "" && v.seriesCount.None?
    requires Contains(key, v.title) && overlap(Split(v.title, ' '), Split(key, ' ')) >= 1
    ensures Score(overlap, key, v) >= 1
  {
  }

  /** The title and series steps of the scorer, in the order the source applies them. */
  method ScoreTitleTerms(key: string, title: string, series: string, count: Option<string>) returns (terms: int)
    ensures terms == TitleTerms(key, title, series, count)
  {
    terms := 0;
    if Contains(key, title) {
      terms := terms + 2;
    }
    if count.Some? && count.value != "" && Contains(key, "book " + count.value) {
      terms := terms + 1;
    }
    if series != "" && Contains(key, series) {
      terms := terms + 1;
    }
    if series != "" {
      var likeness := CalculateStringSimilarity(title, series);
      if likeness > 0.95 {
        terms := terms - 2;
      }
    }
  }

  /** The score of a row from its author count and its normalised titles: the author
      part, the title and series terms, then the shared tokens. */
  method ScoreParts(overlap: (seq<string>, seq<string>) -> nat, key: string, authorMatch: nat,
                    title: string, series: string, count: Option<string>) returns (score: int)
    ensures score == AuthorScore(authorMatch) + TitleTerms(key, title, series, count)
      + TokenTerms(overlap, key, title, series)
  {
    score := -1;
    if authorMatch > 0 {
      score := authorMatch;
    }
    if authorMatch == 0 {
      score := -2;
    }
    var terms := ScoreTitleTerms(key, title, series, count);
    var tokens := overlap(Split(title, ' '), Split(key, ' '));
    if series != "" {
      tokens := tokens + overlap(Split(series, ' '), Split(key, ' '));
    }
    score := score + terms + tokens;
  }

  /** Scoring one row: the author loops, then the terms on its normalised titles. */
  method ScoreCandidate(decode: string -> string, overlap: (seq<string>, seq<string>) -> nat, key: string,
                        authorNames: seq<string>, r: QueryResult) returns (score: int)
    ensures score == Score(overlap, key, ViewOf(decode, authorNames, r))
  {
    var authorMatch := CountAuthorMatches(decode, authorNames, r.authors);
    var resultTitle := NormalizeTitle(decode(r.title));
    var resultSeries := SeriesKey(decode, r);
    score := ScoreParts(overlap, key, authorMatch, resultTitle, resultSeries, r.seriesCount);
  }

  // ---------------------------------------------------------------- the selection

  /** The best score so far and the row holding it. */
  datatype Leader = Leader(score: int, index: Option<nat>)

  /** The leader after scanning `scores` with a best score starting at -1 and a strict
      comparison. */
  function Leading(scores: seq<int>): (l: Leader)
    ensures l.index.Some? ==> l.index.value < |scores| && scores[l.index.value] == l.score
    ensures l.index.None? ==> l.score == -1
    decreases |scores|
  {
    if scores == [] then Leader(-1, None)
    else
      var prev := Leading(scores[..|scores| - 1]);
      var s := scores[|scores| - 1];
      if s > prev.score then Leader(s, Some(|scores| - 1)) else prev
  }

  /** The leader is the first row with the greatest score, and there is one exactly when
      some score is at least 0. */
  lemma {:induction false} LeadingMeaning(scores: seq<int>)
    ensures Leading(scores).index.None? <==> forall i :: 0 <= i < |scores| ==> scores[i] < 0
    ensures Leading(scores).index.Some? ==> var k := Leading(scores).index.value;
      && scores[k] >= 0
      && (forall j :: 0 <= j < k ==> scores[j] < scores[k])
      && (forall j :: k < j < |scores| ==> scores[j] <= scores[k])
    decreases |scores|
  {
    if scores != [] {
      var n := |scores| - 1;
      LeadingMeaning(scores[..n]);
      assert forall i :: 0 <= i < n ==> scores[..n][i] == scores[i];
    }
  }

  function Scores(overlap: (seq<string>, seq<string>) -> nat, key: string, vs: seq<RowView>): (s: seq<int>)
    ensures |s| == |vs|
    ensures forall i :: 0 <= i < |s| ==> s[i] == Score(overlap, key, vs[i])
  {
    seq(|vs|, i requires 0 <= i < |vs| => Score(overlap, key, vs[i]))
  }

  /** The final gate: one normalised title contains the other. */
  predicate TitlesAgree(key: string, title: string) {
    Contains(key, title) || Contains(title, key)
  }

  /** The row the scored matcher returns, by position: the leader, if its title passes
      the gate. */
  function Pick(overlap: (seq<string>, seq<string>) -> nat, key: string, vs: seq<RowView>): (k: Option<nat>)
    ensures k.Some? ==> k.value < |vs|
  {
    var lead := Leading(Scores(overlap, key, vs));
    if lead.index.Some? && TitlesAgree(key, vs[lead.index.value].gateTitle) then lead.index else None
  }

  /** A picked row is the first with the greatest score, that score is at least 0 and its
      title agrees with the local one; nothing is picked when no score reaches 0. */
  lemma PickMeaning(overlap: (seq<string>, seq<string>) -> nat, key: string, vs: seq<RowView>)
    ensures (forall i :: 0 <= i < |vs| ==> Score(overlap, key, vs[i]) < 0) ==> Pick(overlap, key, vs).None?
    ensures Pick(overlap, key, vs).Some? ==> var k := Pick(overlap, key, vs).value;
      && Score(overlap, key, vs[k]) >= 0
      && TitlesAgree(key, vs[k].gateTitle)
      && (forall j :: 0 <= j < k ==> Score(overlap, key, vs[j]) < Score(overlap, key, vs[k]))
      && (forall j :: k < j < |vs| ==> Score(overlap, key, vs[j]) <= Score(overlap, key, vs[k]))
  {
    LeadingMeaning(Scores(overlap, key, vs));
  }

  /** No rows, no match. */
  lemma PickEmpty(overlap: (seq<string>, seq<string>) -> nat, key: string)
    ensures Pick(overlap, key, []) == None
  {
  }

  /** A lone row that shares no author with the local book is still picked when its title
      is contained in the local one and shares a token with it. */
  lemma AuthorlessRowCanWin(overlap: (seq<string>, seq<string>) -> nat, key: string, v: RowView)
    requires v.authorHits == 0 && v.series == "" && v.seriesCount.None?
    requires Contains(key, v.title) && Contains(key, v.gateTitle)
    requires overlap(Split(v.title, ' '), Split(key, ' ')) >= 1
    ensures Pick(overlap, key, [v]) == Some(0)
  {
    AuthorlessRowScores(overlap, key, v);
    assert Scores(overlap, key, [v])[..0] == [];
  }

  /** What the scored MatchBookResults returns. */
  function Selected(decode: string -> string, overlap: (seq<string>, seq<string>) -> nat, bookTitle: string,
                    authorNames: seq<string>, results: seq<QueryResult>): Option<QueryResult>
  {
    var k := Pick(overlap, NormalizeTitle(decode(bookTitle)), Views(decode, authorNames, results));
    if k.None? then None else Some(results[k.value])
  }

  /** The scoring loop of MatchBookResults: the row with the first strictly greatest
      score, starting from a best score of -1. */
  method ScanRows(decode: string -> string, overlap: (seq<string>, seq<string>) -> nat, key: string,
                  authorNames: seq<string>, results: seq<QueryResult>)
    returns (bestMatch: Option<QueryResult>, ghost bestIndex: Option<nat>)
    ensures bestIndex == Leading(Scores(overlap, key, Views(decode, authorNames, results))).index
    ensures bestIndex.None? ==> bestMatch.None?
    ensures bestIndex.Some? ==> bestIndex.value < |results| && bestMatch == Some(results[bestIndex.value])
  {
    ghost var scores := Scores(overlap, key, Views(decode, authorNames, results));
    bestMatch := None;
    var bestScore := -1;
    bestIndex := None;
    var i := 0;
    while i < |results|
      invariant 0 <= i <= |results|
      invariant Leading(scores[..i]) == Leader(bestScore, bestIndex)
      invariant bestIndex.None? ==> bestMatch.None?
      invariant bestIndex.Some? ==> bestIndex.value < i && bestMatch == Some(results[bestIndex.value])
    {
      var score := ScoreCandidate(decode, overlap, key, authorNames, results[i]);
      LeadStep(scores, i, score);
      if score > bestScore {
        bestScore := score;
        bestMatch := Some(results[i]);
        bestIndex := Some(i);
      }
      i := i + 1;
    }
    assert scores[..i] == scores;
  }

  /** MatchBookResults(bookResults, book, authors): the leading row, kept when its
      normalised title and the local one contain one another. */
  method MatchBookResults(decode: string -> string, overlap: (seq<string>, seq<string>) -> nat, bookTitle: string,
                          authorNames: seq<string>, results: seq<QueryResult>) returns (r: Option<QueryResult>)
    ensures r == Selected(decode, overlap, bookTitle, authorNames, results)
  {
    var key := NormalizeTitle(decode(bookTitle));
    var bestMatch;
    ghost var bestIndex;
    bestMatch, bestIndex := ScanRows(decode, overlap, key, authorNames, results);
    if bestMatch.Some? {
      var t := NormalizeTitle(bestMatch.value.title);
      if TitlesAgree(key, t) {
        return bestMatch;
      }
    }
    return None;
  }

  /** One more score: it takes the lead exactly when it beats the leader strictly. */
  lemma LeadStep(scores: seq<int>, i: nat, s: int)
    requires i < |scores| && s == scores[i]
    ensures Leading(scores[..i + 1]) ==
      if s > Leading(scores[..i]).score then Leader(s, Some(i)) else Leading(scores[..i])
  {
    assert scores[..i + 1][..i] == scores[..i];
  }

  // ---------------------------------------------------------------- title-only overload

  /** Position of the first title key that `key` contains. */
  function FirstContained(key: string, titles: seq<string>): (k: Option<nat>)
    ensures k.Some? ==> k.value < |titles|
    decreases |titles|
  {
    if titles == [] then None
    else if Contains(key, titles[0]) then Some(0)
    else
      var k := FirstContained(key, titles[1..]);
      if k.None? then None else Some(k.value + 1)
  }

  lemma {:induction false} FirstContainedMeaning(key: string, titles: seq<string>)
    ensures FirstContained(key, titles).None? <==> forall i :: 0 <= i < |titles| ==> !Contains(key, titles[i])
    ensures FirstContained(key, titles).Some? ==> var k := FirstContained(key, titles).value;
      Contains(key, titles[k]) && forall j :: 0 <= j < k ==> !Contains(key, titles[j])
    decreases |titles|
  {
    if titles != [] {
      FirstContainedMeaning(key, titles[1..]);
      assert forall i :: 1 <= i < |titles| ==> titles[1..][i - 1] == titles[i];
    }
  }

  function TitleKeys(decode: string -> string, results: seq<QueryResult>): (ts: seq<string>)
    ensures |ts| == |results|
    ensures forall i :: 0 <= i < |ts| ==> ts[i] == NormalizeTitle(decode(results[i].title))
  {
    seq(|results|, i requires 0 <= i < |results| => NormalizeTitle(decode(results[i].title)))
  }

  /** MatchBookResults(bookResults, book): the first row whose normalised title the
      normalised local title contains. */
  method MatchBookResultsByTitle(decode: string -> string, bookTitle: string, results: seq<QueryResult>)
    returns (r: Option<QueryResult>)
    ensures var k := FirstContained(NormalizeTitle(decode(bookTitle)), TitleKeys(decode, results));
      r == if k.None? then None else Some(results[k.value])
  {
    var key := NormalizeTitle(decode(bookTitle));
    ghost var ts := TitleKeys(decode, results);
    var i := 0;
    while i < |results|
      invariant 0 <= i <= |results|
      invariant FirstContained(key, ts[..i]).None?
    {
      var resultTitle := NormalizeTitle(decode(results[i].title));
      FirstStep(key, ts, i, resultTitle);
      if Contains(key, resultTitle) {
        return Some(results[i]);
      }
      i := i + 1;
    }
    assert ts[..i] == ts;
    return None;
  }

  /** Scanning one more title: either it is the first contained one, or there is still
      none. */
  lemma FirstStep(key: string, titles: seq<string>, i: nat, t: string)
    requires i < |titles| && t == titles[i] && FirstContained(key, titles[..i]).None?
    ensures Contains(key, t) ==> FirstContained(key, titles) == Some(i)
    ensures !Contains(key, t) ==> FirstContained(key, titles[..i + 1]).None?
  {
    FirstContainedMeaning(key, titles[..i]);
    FirstContainedMeaning(key, titles[..i + 1]);
    assert forall j :: 0 <= j <= i ==> titles[..i + 1][j] == titles[j];
    if Contains(key, t) {
      FirstAt(key, titles, i);
    }
  }

  lemma FirstAt(key: string, titles: seq<string>, i: nat)
    requires i < |titles| && Contains(key, titles[i])
    requires forall j :: 0 <= j < i ==> !Contains(key, titles[j])
    ensures FirstContained(key, titles) == Some(i)
  {
    FirstContainedMeaning(key, titles);
    var k := FirstContained(key, titles).value;
    assert !(k < i) && !(i < k);
  }
}
