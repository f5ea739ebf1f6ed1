# SagaImporter core, in Dafny

SagaImporter builds an audiobook library database from tagged files and fills it in from
GoodReads. This project models the decision logic at its core and proves what that logic
promises:

- **Normalisers** (`normalize.dfy`): the title and author match keys of the lookup step
  (`NormalizeTitle`, `NormalizeAuthor`, and the output step's identical
  `CleanForMatchTitle`), and the output step's display `NormalizeTitle`.
- **Author splitter** (`author_text.dfy`, `author_queue.dfy`): `InputProcessor.CleanTitle`
  and `CleanAuthors`. The rules are functions, and the diacritic loop, the dot-spacing
  string-builder loop and the work queue are methods proved equal to them. The queue
  terminates because every re-queued piece is strictly shorter than the entry it came from.
- **Similarity** (`similarity.dfy`): `ComputeLevenshteinDistance` and
  `LongestCommonSubstringLength` fill two-dimensional arrays. Each is proved cell by cell
  against a recursive definition. `CalculateStringSimilarity` is built on the distance.
- **Matching** (`matching.dfy`): both `MatchBookResults` overloads, with the integer score,
  the "strictly greater than, starting from -1" selection and the title containment gate.
- **Parsers** (`results.dfy`, `lookup_parsers.dfy`):
  - the `QueryResult` constructor's parse of `"Title (Series, #N)"`;
  - `GetAuthorName` and `GetAuthorTypes`;
  - the role classifier of `ProcessAuthorDetails`;
  - `ProcessSeriesLabel`, the search-URL builders and `FormatOutputLine`.
- **Fetch loops** (`fetch.dfy`, `lookup.dfy`): `DoWebQuery`, `SearchGoodreads` and
  `ProcessGoodreadsBookEntry` run against an abstract network. A book turn of
  `LookupProcessor.Execute` is modelled with its `GoodReadsFetchTried` handling.
- **Store** (`store.dfy`): the library database is a class of maps and link sets. It carries
  the upserts `UpdateGenres`, `UpdateSeries`, `UpdateAuthors` and `UpdateBook`, and the
  deletions the clean step uses.
- **Clean, output and dump steps** (`clean.dfy`, `output.dfy`, `dump.dfy`, `selection.dfy`):
  - `CleanProcessor.Execute`'s orphan sweep;
  - `OutputProcessor`'s option check, writer order, folder names, author-folder rule and
    suspect-book report;
  - `DumpProcessor`'s listing, including the duplicate-title pass.
- **Shared helpers** (`text.dfy`, `wrappers.dfy`): the .NET string operations the code uses,
  and `Option`/`Failure`. A .NET exception that escapes a member becomes an `Err` value.

Points where the code behaves in a way that is easy to misread:

- `DoWebQuery` waits once per call, before its first load, not before every attempt.
- A search row that shares no author with the local book scores -2 for authors. It can
  still win on its title and tokens (`Matching.AuthorlessRowCanWin`).
- `SearchGoodreads` tests the request address for null after each query, not the page. That
  test never fires (`Fetch.PagingNeverGivesUp`). A page that cannot be loaded is handed to
  the row parser, and the run ends with a null reference (`Fetch.FailedPageCrashes`).
- In `ProcessAuthorDetails`, an additional author whose role descriptor is null is first
  classified as an Author. Lowercasing the null descriptor then throws, so the whole call
  fails.

## Model

| member | source | states |
|---|---|---|
| Results.Retitled | QueryResult.cs:12-20 | a title cell starting with `(` is replaced by the text "System.Char[]" (the character edits are lost to `ToString()`); any other title is kept |
| Results.SeriesPieces | QueryResult.cs:28 | the `#`-pieces of the series part are non-empty and hold no `#` |
| Results.NewQueryResult | QueryResult.cs:8-57 | the link is stored unchanged; null authors become an empty list, otherwise the list is kept; a null title gives "" and no series fields; a title without `(` is trimmed and has no series fields; a parsed series title holds no `,` or `#` |
| Results.LeadingParenthesisLost | QueryResult.cs:12-38 | a cell starting with `(` parses successfully and its title is exactly "System.Char[]" |
| Results.SeriesPiecesOf | QueryResult.cs:28 | the series part `s#n)` splits into exactly the pieces `s` and `n` |
| Results.ParseTitleSeriesVolume | QueryResult.cs:22-35 | a cell `t(s#n)` parses into title `Trim(t)`, series title `s` without commas and trimmed, and volume `Trim(n)` |
| Results.ParseFailsWithoutSeries | QueryResult.cs:24-28 | a cell with nothing after its first `(` ("Dune(") fails with an index error |
| Results.ParseFailsOnEmptySeries | QueryResult.cs:28-30 | a cell whose series part is empty once `)` is removed ("Dune ()") fails with an index error |
| Normalize.ArticleAt | LookupProcessor.cs:1031-1032 | a match of `^art\s+` or `-\s*art\s+` at the front never runs past the text, and is either the anchored article or starts with `-` |
| Normalize.StripArticle | LookupProcessor.cs:1031-1032 | removing article matches only deletes characters: the result is no longer than the input and adds no character |
| Normalize.StripArticleNoDash | LookupProcessor.cs:1031-1032 | without a `-` in the text only the anchored alternative can fire, so the replacement cuts at most one leading article and its whitespace |
| Normalize.TitlePunctuation | LookupProcessor.cs:1024 | after the replacements no `: _ ? ! ' -` is left, and every character is an input character or a space |
| Normalize.TitlePunctuationAbsent | LookupProcessor.cs:1024 | a title without any replaced character comes through unchanged |
| Normalize.TitleStem | LookupProcessor.cs:1024-1032 | after lower-casing, the punctuation pass, the `StartsWith("the")` cut and the two article removals, no upper-case letter and none of `: _ ? ! ' -` remains |
| Normalize.TheCut | LookupProcessor.cs:1026-1029 | the `StartsWith("the")` cut adds no character |
| Normalize.TheCutOf | LookupProcessor.cs:1026-1029 | text starting with "the" loses those three letters and is trimmed, whatever follows them |
| Normalize.NormalizeTitle | LookupProcessor.cs:1022-1036 | the title key holds no upper-case letter and none of `: _ ? ! ' - ,`; it is trimmed and has no run of whitespace; CleanForMatchTitle at OutputProcessor.cs:448-462 is the same transform and is this same function |
| Normalize.TitleArticleOnlyAtStart | LookupProcessor.cs:1024-1032 | the dash alternatives of both article patterns never fire, because every `-` was already replaced; only a leading "the" and then a leading "a" can go |
| Normalize.TitleOfWord | LookupProcessor.cs:1022-1036 | when the cut leaves one lower-case word that starts with neither article, that word is the key |
| Normalize.TitleDropsLeadingThe | LookupProcessor.cs:1022-1036 | "The " followed by such a word ("The Hobbit") gives the word ("hobbit") |
| Normalize.TitleCutsTheFromWord | LookupProcessor.cs:1026-1029 | "The" glued to a word loses those three letters too: "Theory" gives "ory" |
| Normalize.JrStart | LookupProcessor.cs:1016 | finds the leftmost position from which the rest of the text matches `\s*,?\s*Jr\.?\s*$` (ignoring case), or reports that there is none |
| Normalize.StripJr | LookupProcessor.cs:1016 | removing the `Jr` suffix leaves a prefix of the name |
| Normalize.NormalizeAuthor | LookupProcessor.cs:1012-1020 | the author key holds no whitespace, `.`, `"`, `'` or upper-case letter |
| Normalize.AuthorPipeline | LookupProcessor.cs:1017-1019 | after the `Jr` removal, turning quotes into spaces, dropping whitespace and dots and lower-casing keeps exactly the key letters of the name, in order |
| Normalize.NormalizeAuthorIsKeyLetters | LookupProcessor.cs:1016-1019 | the author key is exactly the name without its `Jr` suffix, keeping only the characters that are not whitespace, dots or quotes, lower-cased and in order |
| Normalize.AuthorKeyIgnoresSpelling | LookupProcessor.cs:1016-1019 | two names without a `Jr` suffix that differ only in spacing, dots, quotes and case get the same key |
| Normalize.AuthorDropsJr | LookupProcessor.cs:1016 | a trailing ", Jr." is removed before the key is formed ("Frank Herbert, Jr." and "Frank Herbert" get the same key) |
| Normalize.DisplayTitle | OutputProcessor.cs:438-446 | the display title keeps its case, holds none of `: _ ? ! ' -` and no character other than input characters and spaces, and is trimmed with single spaces |
| Normalize.DisplayTitleKeepsOtherDots | OutputProcessor.cs:442-443 | only one trailing dot is dropped: "word.." becomes "word." |
| AuthorText.TrackPrefix | InputProcessor.cs:160 | a match of `^\d+\.*\d*\s-` starts with a digit, ends with the `-`, and is at least two characters long |
| AuthorText.CleanTitle | InputProcessor.cs:158-163 | the title is trimmed and never longer than before; a title that does not start with a digit is only trimmed |
| AuthorText.CleanTitleDropsPrefix | InputProcessor.cs:160-162 | a number, optional dots and a second number, one whitespace character and a dash are removed, and the rest is trimmed ("01 - Dune" gives "Dune") |
| AuthorText.CleanTitleOnePrefix | InputProcessor.cs:160-162 | only one prefix is removed: "01 - 02 - Dune" gives "02 - Dune" |
| AuthorText.JrFixKeeps | InputProcessor.cs:171 | comma-free text that ends in a non-space passes through the `\s*,\s*jr` replacement unchanged |
| AuthorText.JrFixNoComma | InputProcessor.cs:171 | text after the last comma is copied unchanged |
| AuthorText.JrStaysWithName | InputProcessor.cs:171-182 | a name followed by `, Jr` in any case and spacing becomes `name Jr`, and the comma split keeps it as one entry |
| AuthorText.LastClose | InputProcessor.cs:172 | finds the last `)` inside a range, or reports that there is none |
| AuthorText.ParensGone | InputProcessor.cs:172 | a bracketed group on one line, with nothing before it opening a group and no `)` after it, is deleted together with both brackets |
| AuthorText.DropNoClose | InputProcessor.cs:172 | text without a `)` is left as it is |
| AuthorText.TableLengths | InputProcessor.cs:174-175 | the two diacritic tables have the same length, 67 |
| AuthorText.ReplacementFresh | InputProcessor.cs:174-180 | a replacement the table writes never brings back a character replaced earlier in the pass, except the space |
| AuthorText.Substituted | InputProcessor.cs:177-180 | after the first `k` replacements the text has the same length and holds no character already replaced (spaces map to themselves) |
| AuthorText.SubstitutedClean | InputProcessor.cs:174-180 | after the whole table no table letter, no backtick and no `"` is left |
| AuthorQueue.SubstituteDiacritics | InputProcessor.cs:177-180 | the index loop over the two tables computes the whole substitution pass |
| AuthorText.SplitAndFrom | InputProcessor.cs:200 | splitting on " and " (ignoring case) gives at least one piece, and the pieces together are never longer than the text |
| AuthorText.SplitAndFirst | InputProcessor.cs:200 | the first piece runs up to the leftmost separator, and splitting goes on after it |
| AuthorText.SplitAndNone | InputProcessor.cs:200 | with no separator the whole text is one piece |
| AuthorText.SplitAndShrinks | InputProcessor.cs:200 | with a separator present the pieces together are strictly shorter than the text |
| AuthorText.Kept | InputProcessor.cs:202-206 | the pieces queued back, those non-empty before trimming and each trimmed, are together no longer than the pieces |
| AuthorText.PiecesShrink | InputProcessor.cs:189-206 | an entry containing " and " (any case) or " & " is split into pieces that together are strictly shorter than the entry; this is the queue's termination measure |
| AuthorQueue.Requeue | InputProcessor.cs:202-206 | the queue gets the non-empty pieces, trimmed, at its back and in their order |
| AuthorText.EraseFrom | InputProcessor.cs:217-268 | a case-insensitive erasure never lengthens the text |
| AuthorText.EraseNone | InputProcessor.cs:217-268 | text with no match of the pattern is copied unchanged |
| AuthorText.EraseFirst | InputProcessor.cs:217-268 | everything before the leftmost match is kept, the match is deleted, and erasing goes on after it |
| AuthorText.StripStep | InputProcessor.cs:215-218 | one conditional erasure: the text is unchanged unless its lower-cased form contains the trigger, and it never grows |
| AuthorText.Strip | InputProcessor.cs:215-269 | the eleven title and role erasures never lengthen the entry |
| AuthorQueue.EraseIfPresent | InputProcessor.cs:215-218 | the `if (Contains) Regex.Replace` step computes StripStep |
| AuthorQueue.StripEntry | InputProcessor.cs:215-269 | the eleven steps in source order compute Strip, with `.` in ".translator." and ".editor." matching any character |
| AuthorText.StripCutsInsideNames | InputProcessor.cs:240-243 | the erasures are raw substring deletions: "Alexandr Dumas" becomes "AlexanDumas" |
| AuthorText.SpaceDotsSpaced | InputProcessor.cs:284-300 | after the dot rule every `.` has a space right after it |
| AuthorText.SpaceDotsNoDot | InputProcessor.cs:284-300 | text without a dot is left as it is |
| AuthorText.SpaceDotsContains | InputProcessor.cs:284-300 | the dot rule never makes a word without spaces appear |
| AuthorText.LowerSpaceDots | InputProcessor.cs:284-300 | the dot rule commutes with lower-casing |
| AuthorText.ReflowSplit | InputProcessor.cs:286-299 | splitting on `.` and appending each piece with "." or ". " (by whether the next piece starts with a space), then the last piece, is exactly the dot rule |
| AuthorQueue.BuildParts | InputProcessor.cs:288-299 | the string-builder loop computes Reflow of the pieces |
| AuthorQueue.ReflowDots | InputProcessor.cs:286-299 | splitting on `.` and running the builder loop gives the dot rule |
| AuthorText.Dotted | InputProcessor.cs:284-300 | after the rule (applied only when there is a dot) every `.` other than a final one is followed by a space |
| AuthorText.AbsentAfterCleaning | InputProcessor.cs:284-302 | neither the dot rule nor trimming makes a word without spaces appear |
| AuthorText.Clean | InputProcessor.cs:210-302 | an entry mentioning "phd" is dropped; an added entry is trimmed, has its dots spaced, and mentions neither "foreword" nor "introduction" |
| AuthorQueue.CleanEntry | InputProcessor.cs:210-302 | the clean-up of one dequeued entry computes Clean |
| AuthorText.DrainEntries | InputProcessor.cs:185-303 | every entry the work queue adds is trimmed, has its dots spaced, and mentions neither "foreword" nor "introduction" |
| AuthorQueue.DrainMeasure | InputProcessor.cs:185-207 | each turn either strictly shrinks the total length of the queued text or keeps it and shortens the queue |
| AuthorQueue.DrainStep | InputProcessor.cs:185-303 | one turn: a splitting entry is replaced by its pieces at the back of the queue; any other entry is cleaned and, unless dropped, added next to the result |
| AuthorQueue.DrainQueue | InputProcessor.cs:185-303 | the work-queue loop terminates and produces Drain of the initial queue: first-in, first-out order, with split pieces after everything queued before them |
| AuthorQueue.CleanAuthors | InputProcessor.cs:165-305 | the result is the joined tags, with the `, Jr` fix, the bracket removal and the table applied, split on commas and drained through the queue; every result entry is trimmed, has its dots spaced and mentions no foreword or introduction |
| Similarity.LevUpper | LookupProcessor.cs:1114-1139 | a table cell never exceeds the longer of the two prefix lengths |
| Similarity.LevLower | LookupProcessor.cs:1114-1139 | a table cell is never below the difference of the two prefix lengths |
| Similarity.LevZero | LookupProcessor.cs:1114-1139 | a zero cell means the two prefixes are the same string |
| Similarity.DistanceRange | LookupProcessor.cs:1083-1140 | the distance is 0 when either side is empty, the length for equal strings, and otherwise lies in 1..max(\|s1\|, \|s2\|) |
| Similarity.FillRow | LookupProcessor.cs:1129-1136 | the inner loop fills row `i` with the recurrence from row `i - 1`, leaving column 0 below it as it was |
| Similarity.ComputeLevenshteinDistance | LookupProcessor.cs:1083-1140 | the returned value is the distance: 0 for an empty side, the length for equal strings, otherwise the last cell of the table |
| Similarity.SimilarityRange | LookupProcessor.cs:1142-1161 | similarity is 0 with an empty side, 1 for equal strings, and otherwise lies in [0, 1) |
| Similarity.SimilarityAbove | LookupProcessor.cs:1159-1160 | for two different non-empty strings, "similarity above t" is the comparison distance < (1 - t) × longer length |
| Similarity.CalculateStringSimilarity | LookupProcessor.cs:1142-1161 | computes 1 - distance / longer length, with the two special cases, as an exact rational |
| Similarity.SuffixRun | LookupProcessor.cs:1172-1184 | a table cell is at most as long as either prefix |
| Similarity.SuffixRunCommon | LookupProcessor.cs:1172-1184 | each cell is the length of a common substring that ends at `(i, j)` |
| Similarity.SuffixRunMaximal | LookupProcessor.cs:1172-1184 | every common substring ending at `(i, j)` is seen by that cell |
| Similarity.FillRuns | LookupProcessor.cs:1170-1185 | the inner loop fills row `i` with the suffix runs and keeps the longest run seen so far, together with a substring of that length |
| Similarity.LongestCommonSubstringLength | LookupProcessor.cs:1163-1188 | the result is at least every cell of the table, and it is 0 or the length of some cell |
| Similarity.LongestCommonSubstringMeaning | LookupProcessor.cs:1163-1188 | so the result is the length of a longest common substring: every common substring is at most that long, and one that long exists |
| LookupParsers.IndexOf | LookupProcessor.cs:556 | `IndexOf` gives -1 exactly when the character is absent, otherwise the position of its first occurrence |
| LookupParsers.GetAuthorName | LookupProcessor.cs:554-562 | a cell without `(` is returned as it is; with one, the name is the text before the character that precedes the first `(`, and a `(` at index 0 throws an out-of-range error |
| LookupParsers.GetAuthorTypes | LookupProcessor.cs:564-572 | "" exactly when there is no `(`; otherwise the suffix of the cell that starts at the first `(` |
| LookupParsers.AuthorCellSplit | LookupProcessor.cs:554-572 | the name and the types give the cell back except for the one character before the first `(` |
| LookupParsers.Roles | LookupProcessor.cs:584-647 | an empty descriptor yields exactly one Author entry |
| LookupParsers.RoleOrderFacts | LookupProcessor.cs:584-647 | the classifier tests every role but Unknown once, in the order author, editor, translator, foreword, contributor, illustrator, narrator |
| LookupParsers.RolesMeaning | LookupProcessor.cs:584-647 | a role is produced exactly when its keyword occurs in the lower-cased descriptor (Author also for an empty one), each role at most once, in the fixed order author, editor, translator, foreword or introduction, contributor, illustrator, narrator; a non-empty descriptor without a keyword yields nothing |
| LookupParsers.MentionedMeaning | LookupProcessor.cs:592-647 | the keyword tests keep exactly the roles whose keyword occurs, in test order |
| LookupParsers.Entries | LookupProcessor.cs:584-647 | one entry per role, each with the credit's name and link |
| LookupParsers.ClassifiedFails | LookupProcessor.cs:655-723 | the classifier fails exactly when some credit has no descriptor, and then with a null dereference |
| LookupParsers.ClassifiedCount | LookupProcessor.cs:653-724 | every credit contributes one entry per role of its descriptor |
| LookupParsers.ClassifyCredits | LookupProcessor.cs:653-724 | the classifier loop appends the entries of each credit, in credit order, to the list built so far, or fails as Classified does |
| LookupParsers.CellCredit | LookupProcessor.cs:579-582 | a visible cell yields a credit with a descriptor and a name without `(`, or fails only with the out-of-range error |
| LookupParsers.CollectMeaning | LookupProcessor.cs:577-648 | collecting the cell results fails exactly when some cell fails, and otherwise holds every cell's credit in place |
| LookupParsers.CellFailure | LookupProcessor.cs:577-582 | the visible cells can only fail with the out-of-range error |
| LookupParsers.VisibleCredits | LookupProcessor.cs:577-582 | the loop over the visible cells collects one credit per cell, or stops with the out-of-range error |
| LookupParsers.AuthorDetailsFailures | LookupProcessor.cs:574-727 | the pass fails exactly when a visible cell starts with `(` after decoding (out-of-range) or an expanded credit has no descriptor |
| LookupParsers.ProcessAuthorDetails | LookupProcessor.cs:574-727 | the visible cells' entries, then the entries of the expanded credits when there are some, or the first failure |
| LookupParsers.LabelPieces | LookupProcessor.cs:735-736 | the label pieces are non-empty and hold none of `( ) , #` |
| LookupParsers.ProcessSeriesLabel | LookupProcessor.cs:729-747 | a null label, or one that decodes to "", leaves both fields null; a volume is only present with a title; neither field holds `( ) , #` |
| LookupParsers.SeriesLabelParts | LookupProcessor.cs:735-744 | a label that decodes to `s#n#...` gives title `Trim(s)` and volume `Trim(n)`; later pieces are ignored |
| LookupParsers.QueryTerm | LookupProcessor.cs:752 | a query term is no longer than its input and holds no whitespace |
| LookupParsers.QueryTermRoundTrip | LookupProcessor.cs:752 | turning each `+` back into a space recovers the squeezed input, when the input had no `+` |
| LookupParsers.Terms | LookupProcessor.cs:762-765 | one query term per author name, in order |
| LookupParsers.JoinedTermsSpaceFree | LookupProcessor.cs:767 | the author terms joined with `+` hold no whitespace |
| LookupParsers.QueryHasNoSpace | LookupProcessor.cs:749-782 | each of the three search URLs is the search address followed by a query with no whitespace |
| LookupParsers.FormatOutputLine | LookupProcessor.cs:1190-1200 | the output is always 30 characters: a longer text is cut to its first 30, a shorter one is padded with spaces |
| Matching.TruesZero | LookupProcessor.cs:934-950 | the count of set flags is 0 exactly when no flag is set, and never exceeds the number of flags |
| Matching.RowHitsZero | LookupProcessor.cs:938-949 | the inner author loop counts nothing exactly when no row author resembles the local author, and counts at most one per row author |
| Matching.PairHitsZero | LookupProcessor.cs:934-950 | the author count is 0 exactly when no (local author, row author) pair has normalised similarity above 0.70 |
| Matching.PairHitsBound | LookupProcessor.cs:934-950 | the author count is at most one per (local author, row author) pair |
| Matching.AuthorsMatch | LookupProcessor.cs:940-945 | one comparison is a hit exactly when the normalised local name and the normalised decoded row name are more than 0.70 similar |
| Matching.CountRowMatches | LookupProcessor.cs:938-949 | the inner loop returns the number of row authors that match one local author |
| Matching.CountAuthorMatches | LookupProcessor.cs:934-950 | the nested loops return the number of matching author pairs |
| Matching.AuthorScore | LookupProcessor.cs:927-960 | the author part is -2 exactly when no pair matches, and the number of matching pairs otherwise |
| Matching.TitleTermsRange | LookupProcessor.cs:965-983 | the title and series terms move the score by -2 to +4, and without series or volume only the +2 for a contained title remains |
| Matching.AuthorlessRowScores | LookupProcessor.cs:957-992 | a row with no matching author still scores at least 1 when its title is contained in the local one and shares a token with it |
| Matching.ScoreTitleTerms | LookupProcessor.cs:962-983 | the four title and series steps add +2, +1, +1 and -2 under their own conditions |
| Matching.ScoreParts | LookupProcessor.cs:952-992 | a row's score is the author part plus the title and series terms plus the shared title and series tokens |
| Matching.ScoreCandidate | LookupProcessor.cs:927-992 | scoring one row from its authors, decoded title, series title and volume gives the row's score |
| Matching.Leading | LookupProcessor.cs:922-1001 | the leader after a scan is a real position holding the leading score, or no position with score -1 |
| Matching.LeadingMeaning | LookupProcessor.cs:922-1001 | there is a leader exactly when some score is at least 0, and it is the first position with the greatest score |
| Matching.Pick | LookupProcessor.cs:996-1009 | a picked position is a real row |
| Matching.PickMeaning | LookupProcessor.cs:918-1010 | a picked row has score at least 0, the greatest score, is the first with that score and passes the title gate; nothing is picked when every score is negative |
| Matching.PickEmpty | LookupProcessor.cs:918-1010 | no rows give no match |
| Matching.AuthorlessRowCanWin | LookupProcessor.cs:952-1007 | a lone row with no matching author is picked when its title is contained in the local title and shares a token with it |
| Matching.ScanRows | LookupProcessor.cs:922-1001 | the scoring loop ends holding the row at the leading position of the scores, or nothing when there is none |
| Matching.MatchBookResults | LookupProcessor.cs:918-1010 | the scored overload returns the picked row, or null |
| Matching.LeadStep | LookupProcessor.cs:996-1000 | one more score takes the lead exactly when it beats the leading score strictly |
| Matching.FirstContained | LookupProcessor.cs:906-915 | a found position is a real title |
| Matching.FirstContainedMeaning | LookupProcessor.cs:902-916 | nothing is found exactly when no normalised title is contained in the local one, and otherwise the first one that is |
| Matching.MatchBookResultsByTitle | LookupProcessor.cs:902-916 | the title-only overload returns the first row whose normalised decoded title the normalised local title contains, or null |
| Matching.FirstStep | LookupProcessor.cs:906-914 | scanning one more title either finds the first contained title or leaves none found |
| Matching.FirstAt | LookupProcessor.cs:906-914 | a contained title preceded only by titles that are not contained is the one found |
| Fetch.WebQuery | LookupProcessor.cs:789-801 | the retry loop uses at most `tries` loads |
| Fetch.WebQueryMeaning | LookupProcessor.cs:789-801 | the query returns the first load that does not throw, every earlier load having thrown, and returns null only after all its loads threw |
| Fetch.NullRequestFails | LookupProcessor.cs:794 | a null address is never fetched: every load throws |
| Fetch.DoWebQuery | LookupProcessor.cs:784-802 | DoWebQuery makes one to five loads and returns the first page that loads, or null |
| Fetch.PagingNeverGivesUp | LookupProcessor.cs:868-880 | the null test of line 871 is on the address, which the loop only follows when it is a real next link, so it never fires |
| Fetch.FailedPageCrashes | LookupProcessor.cs:870-874 | a result page that cannot be loaded in five tries is handed to the page parser and ends the run with a null reference |
| Fetch.PagingBounds | LookupProcessor.cs:868-880 | the paging loop reads at most five pages of at most five loads each, and keeps the rows already collected in front |
| Fetch.AfterPaging | LookupProcessor.cs:882-899 | the fallback title query adds at most five loads |
| Fetch.SearchBounds | LookupProcessor.cs:862-900 | a search uses at most thirty loads: five result pages and the title query |
| Fetch.SearchFindsAgreeingTitle | LookupProcessor.cs:862-900 | a row the search returns has a normalised title that contains, or is contained in, the normalised local title |
| Fetch.SelectedAgrees | LookupProcessor.cs:1003-1007 | a row the scored matcher returns passes the title gate |
| Fetch.CollectPages | LookupProcessor.cs:864-880 | the paging loop crashes, gives up or collects rows exactly as the paging function says |
| Fetch.SearchGoodreads | LookupProcessor.cs:862-900 | the search matches the rows of the author query's pages, falls back to one title-and-author query when nothing matches, and crashes on an unloadable result page |
| Fetch.BookPageFacts | LookupProcessor.cs:471-492 | the page attempts use at most five loads each, and a page is only returned for a non-null link and with both containers |
| Fetch.BookPageFirstUsable | LookupProcessor.cs:471-492 | the page used is the first load with both containers; when none is found no load had both |
| Fetch.BookEntry | LookupProcessor.cs:465-500 | finding a book entry uses at most one hundred loads |
| Fetch.BookPageStep | LookupProcessor.cs:473-483 | one attempt either ends the loop with both containers or leaves the remaining attempts to run with the updated flags |
| Fetch.FindBookPage | LookupProcessor.cs:467-492 | the attempt loop returns the page found with both containers, or null after twenty attempts |
| Fetch.ProcessGoodreadsBookEntry | LookupProcessor.cs:465-500 | the entry is the found page's details with the link cut at its first `?` and trimmed, or null; at most one hundred loads |
| Lookup.SearchTurnReadsFoundRow | LookupProcessor.cs:109-121 | a search turn ends without an entry exactly when the search returned a row whose book page could not be read |
| Lookup.MergeEntry | LookupProcessor.cs:117-120 | the whole new store is the page merged in: genres and genre links, the series and its link, authors and author links, then the book row with the page's details; every other table is unchanged and the store stays consistent |
| Lookup.MergedIdempotent | LookupProcessor.cs:117-120 | merging the same page for the same book a second time changes nothing |
| Lookup.MergedLinked | LookupProcessor.cs:117-120 | merging a page for a stored book into a consistent store leaves every link joining stored rows |
| Lookup.LookupBook | LookupProcessor.cs:101-129 | a search turn uses at most 130 loads; a crash or an unreadable page leaves the whole store unchanged; a search with no match changes only the book row, to the marked book; a found page leaves exactly the store with the page merged for the marked book |
| Lookup.HintRow | LookupProcessor.cs:71 | the row built from a hint link has no title, no authors and the hint's link |
| Lookup.LookupHint | LookupProcessor.cs:67-81 | a hint turn reads the stored row with the hint's book id and uses at most 100 loads; when no row has that id the mark throws after the loads and the store is unchanged; an unreadable page leaves the store unchanged; otherwise the store is exactly the page merged for the marked stored row |
| Store.WithGenresKeeps | LookupProcessor.cs:446-463 | a genre already stored is never modified by UpdateGenres |
| Store.WithGenresKeys | LookupProcessor.cs:446-463 | the genre keys after UpdateGenres are the old keys plus exactly the keys of the page's genres |
| Store.WithGenresIdempotent | LookupProcessor.cs:446-463 | inserting the same genre list a second time leaves the genre table as it is |
| Store.WithGenresFirstName | LookupProcessor.cs:453-459 | a genre new to the store is stored under the name of its first mention in the list |
| Store.GenreLinksMeaning | LookupProcessor.cs:461 | the book gets exactly one genre link per distinct genre key of the list |
| Store.WithAuthorsKeepsNames | LookupProcessor.cs:385-413 | a stored author keeps its stored name, and one the credits do not mention is untouched |
| Store.WithAuthorsKeys | LookupProcessor.cs:385-413 | the author keys after UpdateAuthors are the old keys plus exactly the keys of the credited names |
| Store.WithAuthorsIdempotent | LookupProcessor.cs:385-413 | merging the same credits a second time leaves the author table as it is |
| Store.WithAuthorsLastCredit | LookupProcessor.cs:393-409 | every credited author ends up a GoodReads author with the link and role of its last credit in the list |
| Store.AuthorLinksMeaning | LookupProcessor.cs:411 | the book gets exactly one author link per (author key, role) of the credits |
| Store.WithDetails | LookupProcessor.cs:415-422 | UpdateBook replaces the description, title, link and cover with the page's and keeps every other field of the book, the tried mark included |
| Store.Library.SaveBook | LookupProcessor.cs:421 | saving a book replaces its row and nothing else |
| Store.Library.InsertGenre | LookupProcessor.cs:450-461 | one genre is inserted when its key is absent and linked to the book; nothing else changes |
| Store.Library.MergeCredit | LookupProcessor.cs:389-411 | one credit inserts a new GoodReads author or updates the stored one's flag, link and role, then links it to the book with its role |
| Store.Library.UpdateGenres | LookupProcessor.cs:446-463 | the genre table and genre links become those of inserting every genre of the page in order; the other tables are unchanged and every link still joins stored rows |
| Store.Library.UpdateSeries | LookupProcessor.cs:424-444 | nothing changes without a series title; otherwise the series is inserted when absent and the book linked to it with the page's volume unless already linked |
| Store.Library.UpdateAuthors | LookupProcessor.cs:385-413 | the author table and author links become those of merging every credit in order; the other tables are unchanged |
| Store.Library.RemoveBookToSeriesLinksByBook | CleanProcessor.cs:32 | the book's series links go and nothing else changes |
| Store.Library.RemoveBookToAuthorLinksByBook | CleanProcessor.cs:33 | the book's author links go and nothing else changes |
| Store.Library.RemoveBookToGenreLinksByBook | CleanProcessor.cs:34 | the book's genre links go and nothing else changes |
| Store.Library.RemoveBookToAudioLinksAndAudioFilesByBook | CleanProcessor.cs:35 | the book's audio rows go and nothing else changes |
| Store.Library.RemoveBook | CleanProcessor.cs:36 | a book nothing refers to is removed and nothing else changes |
| Store.Library.RemoveAuthor | CleanProcessor.cs:51 | an author no link refers to is removed and nothing else changes |
| Store.Library.RemoveSeries | CleanProcessor.cs:65 | a series no link refers to is removed and nothing else changes |
| Store.Library.UpdateBook | LookupProcessor.cs:415-422 | the book is saved with the page's details and nothing else changes |
| Clean.MissingIdsMeaning | CleanProcessor.cs:27-29 | a stored book is one to remove exactly when its folder does not exist |
| Clean.AuthorBooksEmpty | CleanProcessor.cs:46-48 | an author has no books exactly when no link names it |
| Clean.SeriesBooksEmpty | CleanProcessor.cs:60-62 | a series has no books exactly when no link names it |
| Clean.OrphanAuthorsMeaning | CleanProcessor.cs:42-54 | a stored author is an orphan exactly when no author link names it |
| Clean.OrphanSeriesMeaning | CleanProcessor.cs:56-68 | a stored series is an orphan exactly when no series link names it |
| Clean.DropKeepsLinked | CleanProcessor.cs:27-68 | dropping books with their links, then authors and series no remaining link names, keeps every link joining stored rows |
| Clean.SweepKeepsLinked | CleanProcessor.cs:20-74 | the clean step keeps every link joining stored rows |
| Clean.SweepIdempotent | CleanProcessor.cs:20-74 | after the clean step every book has its folder and no author or series is orphaned, so a second clean changes nothing |
| Clean.SweepLeavesNoMissing | CleanProcessor.cs:27-40 | after the clean step every remaining book has its folder |
| Clean.SweepLeavesNoOrphans | CleanProcessor.cs:42-68 | after the clean step every remaining author and series is named by a link |
| Clean.RemoveBookEverywhere | CleanProcessor.cs:32-36 | removing one book removes it and every link to it, keeping the store consistent at each step |
| Clean.RemoveMissingBooks | CleanProcessor.cs:22-40 | the book pass removes exactly the books whose folder is missing, with their links, and counts them |
| Clean.VisitAuthor | CleanProcessor.cs:46-53 | one author is removed exactly when it had no books when the pass started |
| Clean.RemoveOrphanAuthors | CleanProcessor.cs:42-54 | the author pass removes exactly the authors no link names, and counts them |
| Clean.VisitSeries | CleanProcessor.cs:60-67 | one series is removed exactly when it had no books when the pass started |
| Clean.RemoveOrphanSeries | CleanProcessor.cs:56-68 | the series pass removes exactly the series no link names, and counts them |
| Clean.Execute | CleanProcessor.cs:20-74 | the three passes together perform the clean step, and each count is the number of rows its pass removed |
| Output.ConflictIgnoresOtherFlags | OutputProcessor.cs:47-52 | only the authors, genres and series flags count towards a conflict with a top-level override |
| Output.OutputProcessor.Initialize | OutputProcessor.cs:34-55 | every option is stored (the stored options are the given ones), and initialisation fails exactly when a top-level override is given with more than one of the authors, genres and series trees |
| Output.OutputProcessor.Flags | OutputProcessor.cs:57-72 | there is one flag per writer Execute can run |
| Output.PlanMeaning | OutputProcessor.cs:57-72 | Execute runs a writer exactly when its flag is set, and in the fixed order authors, genres, series, books, failed books, reports |
| Output.TopLevelDir | OutputProcessor.cs:102 | a tree goes under the override when one is given and under its own folder otherwise, never under an empty name when its own is not empty |
| Output.OutputProcessor.TreeDir | OutputProcessor.cs:102 | as at lines 102, 135, 259, 365, 400 and 419, every writer's tree (authors, genres, series, books, failed books, reports) goes under a non-empty folder: the override, or the tree's own name |
| Output.TreesApart | OutputProcessor.cs:47-53 | once the option check has passed, no two of the authors, genres and series trees that run are written under the same folder |
| Output.CleanTitle | OutputProcessor.cs:464-467 | a cleaned title holds no colon and no apostrophe and has no leading or trailing white space |
| Output.CleanTitlePlain | OutputProcessor.cs:464-467 | a trimmed title without brackets, colons or apostrophes is its own folder name |
| Output.CleanTitleDropsUnabridged | OutputProcessor.cs:466 | a one-word title followed by " (Unabridged)" is cleaned to the word |
| Output.MarkerGone | OutputProcessor.cs:466 | removing the audiobook marker from the end of a text without brackets leaves the text |
| Output.SafeSubstring | OutputProcessor.cs:469-474 | a null input throws; otherwise the field is exactly length + 4 characters: the text padded with spaces, or its first `length` characters and " ..." |
| Output.GenreBookFolder | OutputProcessor.cs:117-121 | a genre book folder exists exactly when the book has a GoodReads title, and is that title cleaned; the progress line throws first for a null title |
| Output.SeriesBookFolder | OutputProcessor.cs:150-156 | a series book folder exists exactly when the book has a GoodReads title, and is "Book {volume}, " before the cleaned title when the volume is not empty |
| Output.EmptyGoodReadsTitleKept | OutputProcessor.cs:120 | an empty GoodReads title is kept, so the book's folder name is empty |
| Output.GoodReadsAuthorsMeaning | OutputProcessor.cs:271 | the filter keeps exactly the authors that came from GoodReads, and is empty exactly when none did |
| Output.FolderAuthors | OutputProcessor.cs:269-274 | a book is filed under its GoodReads authors when it has any, and under all its authors otherwise; it gets no folder only without authors |
| Output.AuthorBookDir | OutputProcessor.cs:278-283 | an author book folder never holds a double quote, and is the combined path itself when that has none |
| Output.AuthorBookDirs | OutputProcessor.cs:276-288 | one folder per chosen author, in order, none holding a double quote |
| Output.SuspectBooks | OutputProcessor.cs:333-347 | the suspect loop returns the suspect list, or throws at the first book without a GoodReads title |
| Output.SuspectsNext | OutputProcessor.cs:335-346 | a book with a GoodReads title adds its hint exactly when it is suspect |
| Output.SuspectsStop | OutputProcessor.cs:335 | a book without a GoodReads title ends the loop with a null reference |
| Output.SuspectsErrKind | OutputProcessor.cs:333-347 | the only failure of the suspect loop is the null reference |
| Output.SuspectsOk | OutputProcessor.cs:333-347 | the report is produced exactly when every book has a GoodReads title |
| Output.SuspectsComplete | OutputProcessor.cs:333-347 | a produced report holds the hint of every book whose cleaned title does not contain its cleaned GoodReads title |
| Output.SuspectsSound | OutputProcessor.cs:333-347 | every hint of a produced report belongs to such a suspect book |
| Output.NeverSuspect | OutputProcessor.cs:335 | a book whose GoodReads title is empty or equal to its own title is never suspect |
| Dump.LinesOf | DumpProcessor.cs:40-45 | a listing loop writes one line per item, the item's own line at its own place |
| Dump.WriteLines | DumpProcessor.cs:61-64 | the loop writes exactly the line of each item, in order |
| Dump.AuthorLineShape | DumpProcessor.cs:40-45 | an author line is the name followed by "- " and the role (including "Unknown" for an author only the importer has seen), the same whether or not the author came from GoodReads, and never carries the " - GR" marker |
| Dump.BookLine | DumpProcessor.cs:51-55 | a book line is the title, followed by " - GR" exactly when the book has no GoodReads description |
| Dump.Matches | DumpProcessor.cs:92-97 | a title is shared by at most as many books as there are |
| Dump.CountMatches | DumpProcessor.cs:92-97 | the inner loop counts the books whose title equals the given one |
| Dump.MatchesAppend | DumpProcessor.cs:93-97 | the count over two lists of books is the sum of the counts |
| Dump.MatchesNone | DumpProcessor.cs:93-97 | the count is 0 exactly when no book has the title |
| Dump.MatchesOther | DumpProcessor.cs:90-103 | a book's title counts more than once exactly when some other book has the same title |
| Dump.DuplicatedMembers | DumpProcessor.cs:85-105 | a book is listed as a duplicate exactly when another book shares its title |
| Dump.DuplicatedCount | DumpProcessor.cs:85-105 | a title shared by k > 1 books is listed k times, and a title held by one book never |
| Dump.DuplicateLines | DumpProcessor.cs:85-105 | the duplicates pass writes one "Duplicate Title" line per duplicated book, in order |
| Dump.Decimal | DumpProcessor.cs:115-120 | an interpolated count is a non-empty string of decimal digits without a leading zero |
| Dump.DecimalRoundTrip | DumpProcessor.cs:115-120 | reading the digits of an interpolated count back gives the count |
| Dump.Emit | DumpProcessor.cs:36-121 | each section writes its heading, then one line per item; the duplicates section has no heading |
| Dump.DumpProcessor.Initialize | DumpProcessor.cs:21-32 | every flag is stored and initialisation always succeeds |
| Dump.DumpProcessor.Flags | DumpProcessor.cs:34-123 | there is one flag per section Execute can write |
| Dump.DumpProcessor.Execute | DumpProcessor.cs:34-123 | the listing is the lines of each section whose flag is set, one section after another |
| Dump.WrittenPlan | DumpProcessor.cs:34-123 | the first k flag tests write the sections of the first k flags that are set |
| Dump.WrittenAll | DumpProcessor.cs:34-123 | all seven tests write the sections whose flag is set |
| Dump.WriteSection | DumpProcessor.cs:36-121 | one flag test appends its section's lines exactly when the flag is set |
| Dump.PlanMeaning | DumpProcessor.cs:34-123 | Execute writes a section exactly when its flag is set, in the fixed order authors, books, failed lookups, genres, series, duplicates, stats |
| Selection.KeepMeaning | OutputProcessor.cs:57-72 | running the steps whose flag is set runs every such step and no other |
| Selection.KeepSnoc | DumpProcessor.cs:34-123 | testing one more flag at the end adds its step, if set, at the end |
| Selection.KeepByRank | OutputProcessor.cs:57-72 | when a step's rank is its place in the list, a step runs exactly when its own flag is set, and the steps run in rank order |
| Selection.KeepRising | DumpProcessor.cs:34-123 | skipping steps of a rank-ordered list never reorders the rest |
| Text.Lower | OutputProcessor.cs:450 | lower-casing keeps the length and maps each character to its lower-case form |
| Text.Trim | OutputProcessor.cs:466 | trimming gives the slice between the leading and the trailing white space, which itself neither starts nor ends with white space |
| Text.Squeeze | OutputProcessor.cs:445 | collapsing white-space runs and trimming leaves no leading, trailing or repeated white space and no new characters |
| Text.SqueezeFixed | OutputProcessor.cs:445 | collapsing and trimming an already trimmed, collapsed string changes nothing |
| Text.Split | LookupProcessor.cs:495 | splitting on a character gives at least one piece, no piece holds the separator, and a string without it is its own only piece |
| Text.SplitJoin | LookupProcessor.cs:495 | joining the pieces of a split with the separator gives the string back |
| Text.SplitSumLen | LookupProcessor.cs:495 | splitting drops exactly the separators |
| Text.PadRight | OutputProcessor.cs:472 | padding keeps the text as a prefix and fills with spaces up to the width |

## Left out

- HTML scraping is not modelled: XPath queries over loaded pages, `GetBookDetails`, `GetGenreList`, `GetAuthorFromGoodReads`, `ProcessSearchQueryToList` and `GetNextLink`. A loaded page is the abstract `Fetch.Page` value of rows, next link, container flags and details.
- Network access is not modelled. `HtmlWeb.Load` is the abstract `Fetch.Net` function of address and load number, where `None` means the load threw.
- The delay in `DoWebQuery` (`Thread.Sleep` with `Random`) has no observable effect on the result, so it is not modelled.
- JSON deserialisation, `HtmlToPlainText` and `ProcessSeriesQueryToList` are foreign code. HTML decoding is the uninterpreted `decode` parameter.
- `KeyMaker` is not part of this model. Its author, series and genre keys are the uninterpreted functions of `Store.Keys`.
- `LevenshteinComparer` is not part of this model. The token-intersection count at LookupProcessor.cs:988 and 991 is the uninterpreted `overlap` parameter.
- `BookCommands` is not part of this model. The database is the maps and sets of `Store.Library`.
- The link semantics of the store are an assumption, because the inserts and link writes are in `BookCommands`, which is not part of this model. Author and genre links are sets. A series link is added only when the book has none to that series yet. Every book row is stored under its own id.
- Similarity.CalculateStringSimilarity: computes with exact rationals, not IEEE doubles, so a comparison with 0.70 or 0.95 can differ from the double computation exactly at the boundary.
- The miss-percentage line of the dump stats is a formatted double. It is kept as its two operands (`Dump.Line.MissPercentage`).
- `ToLower` is ASCII lower-casing, and white space is the ASCII white-space characters. Culture rules and Unicode case mapping are not modelled.
- The two apostrophe `Replace` calls in the normalisers remove the same ASCII character, so the second is a no-op.
- File-system work is not modelled: CSV reading and writing, TagLib tag reading, `Directory` and `File` operations, the symbolic-link processes (`LinkFile`, `LinkDirectory`, `WriteLinks`), `WriteDescription` and `ImageHelper` downloads.
- In the output step, `Path.Combine` is the `combine` parameter. `Directory.Exists` in the clean step is the `onDisk` parameter.
- Console progress lines are left out. `SafeSubstring` is modelled because its null case decides whether a folder is written (`Output.GenreBookFolder`).
- `Program.cs` and `CommandLineOptions.cs` (argument parsing and dispatch) are not part of this model.
- `DumpOptions` in `CommandLineOptions.cs` declares no `Duplicates` property, although `DumpProcessor.Initialize` reads one. The model gives the options that field.
- The database file the processors open in `Initialize` is not modelled.
- In `LookupProcessor.Execute`, only the book-search and hint-file turns are modelled (`Lookup.LookupBook`, `Lookup.LookupHint`). The lists they run over come from `GetBooksFailedGoodReads`, `GetBooksMissingGoodReads` or the hint CSV, which are inputs here.
- The purge-and-rebuild, series, author and image passes of `LookupProcessor.Execute` are left out. They are scraping and storage around the same upserts.
- `OutputProcessor.WriteReports` is modelled only for its suspect-book list. The failed, missing and all-books hint lists are plain copies of query results written to CSV.
- The `writeDescriptions` option is stored but never read by `Execute`, so it selects no writer.
- Roles are kept as the `LookupParsers.AuthorType` datatype, with the importer's `Unknown` role that every author and author link starts with (InputProcessor.cs:84, 118). The dump prints each role's enum name. The importer itself is not part of this model.
- The passes of `CleanProcessor.Execute` visit rows in set order, not in the database's order. The store they leave behind does not depend on that order.
