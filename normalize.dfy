/** The match-key normalisers of the lookup step (LookupProcessor.cs, NormalizeTitle and
    NormalizeAuthor; OutputProcessor.cs, CleanForMatchTitle is the same title function)
    and the output step's display normaliser (OutputProcessor.cs, NormalizeTitle). */
module Normalize {
  import opened Text
  import opened Wrappers

  /** Characters a title match key never contains. */
  predicate TitleKeyChar(c: char) {
    !IsUpper(c) && c != ':' && c != '_' && c != '?' && c != '!' && c != '\'' && c != '-' && c != ','
  }

  /** Length of the match of `^art\s+` (only when `atStart`) or `-\s*art\s+` at the front of
      `s`; 0 when neither alternative matches there. */
  function ArticleAt(s: string, art: string, atStart: bool): (m: nat)
    ensures m <= |s|
    ensures m > 0 ==> (atStart && art <= s) || s[0] == '-'
  {
    if atStart && art <= s && Lead(s[|art|..]) > 0 then |art| + Lead(s[|art|..])
    else if |s| > 0 && s[0] == '-' then
      var k := Lead(s[1..]);
      var rest := s[1 + k..];
      if art <= rest && Lead(rest[|art|..]) > 0 then 1 + k + |art| + Lead(rest[|art|..]) else 0
    else 0
  }

  /** `Regex.Replace(s, @"^art\s+|-\s*art\s+", String.Empty)`: leftmost matches, left to
      right, without overlap; `^` only holds at the first position. */
  function StripArticle(s: string, art: string, atStart: bool): (r: string)
    ensures |r| <= |s|
    ensures forall c :: c in r ==> c in s
    decreases |s|
  {
    if s == [] then []
    else
      var m := ArticleAt(s, art, atStart);
      if m > 0 then
        var r := StripArticle(s[m..], art, false);
        assert forall c :: c in s[m..] ==> c in s;
        r
      else
        var r := [s[0]] + StripArticle(s[1..], art, false);
        assert forall c :: c in s[1..] ==> c in s;
        r
  }

  /** Without a dash only the anchored alternative can match, and only once. */
  lemma {:induction false} StripArticleNoDash(s: string, art: string, atStart: bool)
    requires '-' !in s
    ensures StripArticle(s, art, atStart) == if atStart then LeadingArticleCut(s, art) else s
    decreases |s|
  {
    if s != [] {
      var m := ArticleAt(s, art, atStart);
      if m > 0 {
        assert s[0] != '-';
        StripArticleNoDash(s[m..], art, false);
      } else {
        StripArticleNoDash(s[1..], art, false);
        assert [s[0]] + s[1..] == s;
      }
    }
  }

  /** The character replacements that open both title normalisers (after `ToLower` in the
      match key): `: _ ? !` become spaces, apostrophes go, `-` becomes a space. */
  function TitlePunctuation(s: string): (r: string)
    ensures forall c :: c in r ==> (c in s || c == ' ') && c != ':' && c != '_' && c != '?' && c != '!' && c != '\'' && c != '-'
  {
    var a := SpaceOut(s, {':', '_', '?', '!'});
    var b := RemoveChars(a, {'\''});
    var r := SpaceOut(b, {'-'});
    assert forall c :: c in a ==> c in s || c == ' ';
    r
  }

  /** A title with none of the replaced characters comes through unchanged. */
  lemma TitlePunctuationAbsent(s: string)
    requires forall i :: 0 <= i < |s| ==> s[i] !in {':', '_', '?', '!', '\'', '-'}
    ensures TitlePunctuation(s) == s
  {
    SpaceOutAbsent(s, {':', '_', '?', '!'});
    RemoveCharsAbsent(s, {'\''});
    SpaceOutAbsent(s, {'-'});
  }

  predicate TitleKey(s: string) {
    forall c :: c in s ==> TitleKeyChar(c)
  }

  /** The title after punctuation handling and the two article removals: it only holds
      lower-case characters other than `: _ ? ! ' -`. */
  function TitleStem(s: string): (d: string)
    ensures forall c :: c in d ==> !IsUpper(c) && c != ':' && c != '_' && c != '?' && c != '!' && c != '\'' && c != '-'
  {
    var lower := Lower(s);
    assert forall x :: x in lower ==> !IsUpper(x);
    var a := TitlePunctuation(lower);
    var b := TheCut(a);
    var c := StripArticle(b, "the", true);
    StripArticle(c, "a", true)
  }

  /** `if (t.StartsWith("the")) t = t.Substring(3).Trim();` */
  function TheCut(a: string): (b: string)
    ensures forall x :: x in b ==> x in a
  {
    if "the" <= a then
      assert forall x :: x in a[3..] ==> x in a;
      Trim(a[3..])
    else a
  }

  /** The anchored alternative `^art\s+`: the article at the very start, with the whitespace
      after it, is cut once. */
  function LeadingArticleCut(s: string, art: string): (r: string)
    ensures |r| <= |s|
  {
    if art <= s && Lead(s[|art|..]) > 0 then s[|art| + Lead(s[|art|..])..] else s
  }

  /** LookupProcessor.NormalizeTitle / OutputProcessor.CleanForMatchTitle: the title key
      compared during matching. */
  function NormalizeTitle(s: string): (r: string)
    ensures TitleKey(r)
    ensures Trimmed(r) && Collapsed(r)
  {
    var d := TitleStem(s);
    var e := SpaceOut(d, {'-', ','});
    StemKey(d);
    Squeeze(e)
  }

  lemma StemKey(d: string)
    requires forall c :: c in d ==> !IsUpper(c) && c != ':' && c != '_' && c != '?' && c != '!' && c != '\'' && c != '-'
    ensures TitleKey(SpaceOut(d, {'-', ','}))
  {
  }

  /** The `-\s*the\s+` and `-\s*a\s+` alternatives never fire: every dash has already
      become a space, so only a leading article (after the `StartsWith("the")` cut) goes. */
  lemma TitleArticleOnlyAtStart(s: string)
    ensures var b := TheCut(TitlePunctuation(Lower(s)));
            && '-' !in b
            && StripArticle(b, "the", true) == LeadingArticleCut(b, "the")
            && StripArticle(LeadingArticleCut(b, "the"), "a", true) == LeadingArticleCut(LeadingArticleCut(b, "the"), "a")
  {
    var b := TheCut(TitlePunctuation(Lower(s)));
    StripArticleNoDash(b, "the", true);
    StripArticleNoDash(LeadingArticleCut(b, "the"), "a", true);
  }

  /** A run of lower-case ASCII letters. */
  predicate Word(w: string) {
    forall i :: 0 <= i < |w| ==> 'a' <= w[i] <= 'z'
  }

  lemma WordIsKey(w: string)
    requires Word(w)
    ensures TitlePunctuation(w) == w && SpaceOut(w, {'-', ','}) == w && Squeeze(w) == w && Trim(w) == w
  {
    TitlePunctuationAbsent(w);
    SpaceOutAbsent(w, {'-', ','});
    TrimNoSpace(w);
    SqueezeFixed(w);
  }

  lemma TrimSpaceWord(w: string)
    requires Word(w)
    ensures Trim(" " + w) == w
  {
    var s := " " + w;
    forall i | 1 <= i < |s| ensures !IsSpace(s[i]) {
      assert s[i] == w[i - 1];
    }
    TrimOneLead(s);
    assert s[1..] == w;
  }

  /** Once the punctuation and the `StartsWith("the")` cut leave a single word that starts
      with neither article, that word is the key. */
  lemma TitleOfWord(s: string, b: string)
    requires b == TheCut(TitlePunctuation(Lower(s)))
    requires Word(b) && !("the" <= b) && !("a" <= b)
    ensures NormalizeTitle(s) == b
  {
    TitleArticleOnlyAtStart(s);
    WordIsKey(b);
  }

  /** "The" or "The " in front of a word: lower-cased, no punctuation to replace. */
  lemma CapitalTheWord(sep: string, w: string)
    requires sep == "" || sep == " "
    requires Word(w)
    ensures TitlePunctuation(Lower("The" + sep + w)) == "the" + sep + w
  {
    assert Lower("The" + sep + w) == "the" + sep + w;
    TitlePunctuationAbsent("the" + sep + w);
  }

  lemma CapitalTheGlued(w: string)
    requires Word(w)
    ensures TitlePunctuation(Lower("The" + w)) == "the" + w
  {
    assert Lower("The" + w) == "the" + w;
    TitlePunctuationAbsent("the" + w);
  }

  lemma GluedCut(w: string)
    requires Word(w)
    ensures TheCut(TitlePunctuation(Lower("The" + w))) == w
  {
    CapitalTheGlued(w);
    TheCutOf(w);
    TrimNoSpace(w);
  }

  lemma SpacedCut(w: string)
    requires Word(w)
    ensures TheCut(TitlePunctuation(Lower("The " + w))) == w
  {
    CapitalTheWord(" ", w);
    assert "The" + " " + w == "The " + w && "the" + " " + w == "the" + (" " + w);
    TheCutOf(" " + w);
    TrimSpaceWord(w);
  }

  /** A leading "The " is dropped from a one-word title. */
  lemma TitleDropsLeadingThe(w: string)
    requires Word(w) && !("the" <= w) && !("a" <= w)
    ensures NormalizeTitle("The " + w) == w
  {
    SpacedCut(w);
    TitleOfWord("The " + w, w);
  }

  /** Text that starts with "the" loses those letters and is trimmed. */
  lemma TheCutOf(rest: string)
    ensures TheCut("the" + rest) == Trim(rest)
  {
    Affix("the", rest);
  }

  /** The `StartsWith("the")` cut is not a word test: "The" glued to a word loses those
      three letters too ("Theory" becomes "ory"). */
  lemma TitleCutsTheFromWord(w: string)
    requires Word(w) && !("the" <= w) && !("a" <= w)
    ensures NormalizeTitle("The" + w) == w
  {
    GluedCut(w);
    TitleOfWord("The" + w, w);
  }

  /** Characters that survive into an author key. */
  predicate AuthorKeyChar(c: char) {
    !IsSpace(c) && !IsUpper(c) && c != '.' && c != '"' && c != '\''
  }

  /** `w` matches `\s*,?\s*`: whitespace around at most one comma. */
  predicate CommaGap(w: string) {
    Count(w, ',') <= 1 && forall i :: 0 <= i < |w| ==> IsSpace(w[i]) || w[i] == ','
  }

  /** `t` matches `\s*,?\s*Jr\.?\s*` in full, ignoring case. */
  predicate JrTail(t: string) {
    var u := t[..|t| - Trail(t)];
    var v := if |u| > 0 && u[|u| - 1] == '.' then u[..|u| - 1] else u;
    |v| >= 2 && LowerChar(v[|v| - 2]) == 'j' && LowerChar(v[|v| - 1]) == 'r' && CommaGap(v[..|v| - 2])
  }

  /** Start of the leftmost match of `\s*,?\s*Jr\.?\s*$` at or after `p`, if any. Since
      the pattern runs to the end, its leftmost match is the longest `JrTail` suffix. */
  function JrStart(s: string, p: nat): (q: Option<nat>)
    requires p <= |s|
    ensures q.Some? ==> p <= q.value <= |s| && JrTail(s[q.value..])
    ensures q.Some? ==> forall k :: p <= k < q.value ==> !JrTail(s[k..])
    ensures q.None? ==> forall k :: p <= k <= |s| ==> !JrTail(s[k..])
    decreases |s| - p
  {
    if JrTail(s[p..]) then Some(p)
    else if p == |s| then None
    else
      var q := JrStart(s, p + 1);
      assert forall k :: p < k <= |s| && (q.None? || k < q.value) ==> !JrTail(s[k..]);
      q
  }

  /** `Regex.Replace(s, @"\s*,?\s*Jr\.?\s*$", "", IgnoreCase)`. */
  function StripJr(s: string): (r: string)
    ensures r <= s
  {
    match JrStart(s, 0)
    case Some(p) => s[..p]
    case None => s
  }

  /** LookupProcessor.NormalizeAuthor: the author key compared during matching. */
  function NormalizeAuthor(s: string): (r: string)
    ensures forall c :: c in r ==> AuthorKeyChar(c)
  {
    var t := Trim(StripJr(s));
    var v := Lower(RemoveChars(RemoveSpaces(QuotesToSpaces(t)), {'.'}));
    AuthorPipeline(t);
    TrimNoSpace(v);
    Trim(v)
  }

  /** The characters an author key keeps, in order and lower-cased. */
  function KeyLetters(s: string): (r: string)
    ensures forall i :: 0 <= i < |r| ==> AuthorKeyChar(r[i])
  {
    if s == [] then []
    else
      var c := s[0];
      (if IsSpace(c) || c == '.' || c == '"' || c == '\'' then [] else [LowerChar(c)]) + KeyLetters(s[1..])
  }

  lemma {:induction false} KeyLettersAppend(a: string, b: string)
    ensures KeyLetters(a + b) == KeyLetters(a) + KeyLetters(b)
  {
    if a != [] {
      assert (a + b)[1..] == a[1..] + b;
      KeyLettersAppend(a[1..], b);
    } else {
      assert a + b == b;
    }
  }

  /** KeyLetters ignores the whitespace that `Trim` removes. */
  lemma KeyLettersTrim(s: string)
    ensures KeyLetters(Trim(s)) == KeyLetters(s)
  {
    var l, r := Lead(s), Trim(s);
    KeyLettersSpaces(s[..l]);
    KeyLettersSpaces(s[l + |r|..]);
    assert s == s[..l] + r + s[l + |r|..];
    KeyLettersAppend(s[..l] + r, s[l + |r|..]);
    KeyLettersAppend(s[..l], r);
  }

  lemma {:induction false} KeyLettersSpaces(s: string)
    requires forall i :: 0 <= i < |s| ==> IsSpace(s[i])
    ensures KeyLetters(s) == []
  {
    if s != [] {
      KeyLettersSpaces(s[1..]);
    }
  }

  /** `Replace('"', ' ').Replace("'", " ")`. */
  function QuotesToSpaces(t: string): (u: string)
    ensures |u| == |t|
    ensures forall i :: 0 <= i < |t| ==> u[i] == if t[i] == '"' || t[i] == '\'' then ' ' else t[i]
  {
    ReplaceChar(ReplaceChar(t, '"', ' '), '\'', ' ')
  }

  /** The pipeline after the `Jr` removal keeps exactly the key letters. */
  lemma {:induction false} AuthorPipeline(t: string)
    ensures Lower(RemoveChars(RemoveSpaces(QuotesToSpaces(t)), {'.'})) == KeyLetters(t)
    decreases |t|
  {
    if t != [] {
      AuthorPipeline(t[1..]);
      var u := QuotesToSpaces(t);
      assert u[1..] == QuotesToSpaces(t[1..]);
      PipelineStep(u);
    }
  }

  /** The space, dot and case steps of the pipeline, one character at a time. */
  lemma PipelineStep(u: string)
    requires u != []
    ensures Lower(RemoveChars(RemoveSpaces(u), {'.'})) ==
            (if IsSpace(u[0]) || u[0] == '.' then [] else [LowerChar(u[0])]) + Lower(RemoveChars(RemoveSpaces(u[1..]), {'.'}))
  {
    assert u == [u[0]] + u[1..];
    var h := if IsSpace(u[0]) then [] else [u[0]];
    assert RemoveSpaces(u) == h + RemoveSpaces(u[1..]);
    RemoveCharsAppend(h, RemoveSpaces(u[1..]), {'.'});
    LowerAppend(RemoveChars(h, {'.'}), RemoveChars(RemoveSpaces(u[1..]), {'.'}));
    var head := if IsSpace(u[0]) || u[0] == '.' then [] else [LowerChar(u[0])];
    if IsSpace(u[0]) || u[0] == '.' {
      assert RemoveChars(h, {'.'}) == [];
      assert Lower([]) == [];
    } else {
      assert h[1..] == [];
      assert RemoveChars(h, {'.'}) == [u[0]];
    }
    assert Lower(RemoveChars(h, {'.'})) == head;
  }

  /** The author key is the key letters of the name once a trailing `Jr` is removed. */
  lemma NormalizeAuthorIsKeyLetters(s: string)
    ensures NormalizeAuthor(s) == KeyLetters(StripJr(s))
  {
    var t := Trim(StripJr(s));
    AuthorPipeline(t);
    KeyLettersTrim(StripJr(s));
    TrimNoSpace(KeyLetters(t));
  }

  /** Two spellings of a name that differ only in spacing, dots, quotes and case have the
      same key, provided neither ends in a `Jr` suffix. */
  lemma AuthorKeyIgnoresSpelling(a: string, b: string)
    requires JrStart(a, 0).None? && JrStart(b, 0).None?
    requires KeyLetters(a) == KeyLetters(b)
    ensures NormalizeAuthor(a) == NormalizeAuthor(b)
  {
    NormalizeAuthorIsKeyLetters(a);
    NormalizeAuthorIsKeyLetters(b);
  }

  /** A personal name as written: ASCII letters and spaces, ending in a letter. */
  predicate PlainName(a: string) {
    && |a| > 0
    && (forall i :: 0 <= i < |a| ==> a[i] == ' ' || 'a' <= LowerChar(a[i]) <= 'z')
    && 'a' <= LowerChar(a[|a| - 1]) <= 'z'
  }

  /** The leftmost `Jr` match is the one at `q` when none starts earlier. */
  lemma JrStartAt(s: string, q: nat)
    requires q <= |s| && JrTail(s[q..])
    requires forall k :: 0 <= k < q ==> !JrTail(s[k..])
    ensures JrStart(s, 0) == Some(q)
  {
  }

  /** No suffix starting inside a plain name can be a `Jr` suffix of `a + ", Jr."`. */
  lemma NoEarlierJr(a: string, k: nat)
    requires PlainName(a) && k < |a|
    ensures !JrTail((a + ", Jr.")[k..])
  {
    var s := a + ", Jr.";
    var t := s[k..];
    assert t[|t| - 1] == '.';
    assert Trail(t) == 0;
    assert t[..|t| - Trail(t)] == t;
    var v := t[..|t| - 1];
    var gap := v[..|v| - 2];
    assert gap[|a| - 1 - k] == a[|a| - 1];
    assert !IsSpace(gap[|a| - 1 - k]) && gap[|a| - 1 - k] != ',';
    assert !CommaGap(gap);
  }

  lemma JrTailCommaJr()
    ensures JrTail(", Jr.")
  {
    var t := ", Jr.";
    assert Trail(t) == 0;
    assert t[..|t| - Trail(t)] == t;
    var v := t[..4];
    assert v == ", Jr";
    assert LowerChar(v[2]) == 'j';
    assert LowerChar(v[3]) == 'r';
    assert v[..2] == ", ";
    assert Count(", ", ',') == 1 by {
      assert ", "[1..] == " ";
      assert Count(" ", ',') == 0;
    }
    assert CommaGap(v[..2]);
  }

  /** A trailing ", Jr." is removed before the key is formed. */
  lemma AuthorDropsJr(a: string)
    requires PlainName(a)
    ensures NormalizeAuthor(a + ", Jr.") == KeyLetters(a)
  {
    var s := a + ", Jr.";
    assert s[|a|..] == ", Jr.";
    JrTailCommaJr();
    forall k | 0 <= k < |a| ensures !JrTail(s[k..]) {
      NoEarlierJr(a, k);
    }
    JrStartAt(s, |a|);
    assert s[..|a|] == a;
    NormalizeAuthorIsKeyLetters(s);
  }

  /** OutputProcessor.NormalizeTitle: the display title, case kept; one trailing dot dropped. */
  function DisplayTitle(s: string): (r: string)
    ensures forall c :: c in r ==> (c in s || c == ' ') && c != ':' && c != '_' && c != '?' && c != '!' && c != '\'' && c != '-'
    ensures Trimmed(r) && Collapsed(r)
  {
    var a := TitlePunctuation(s);
    var b := if |a| > 0 && a[|a| - 1] == '.' then a[..|a| - 1] else a;
    assert forall c :: c in b ==> c in a;
    var r := Squeeze(b);
    r
  }

  /** Only the last of several trailing dots goes. */
  lemma DisplayTitleKeepsOtherDots(w: string)
    requires Word(w)
    ensures DisplayTitle(w + "..") == w + "."
  {
    TitlePunctuationAbsent(w + "..");
    assert (w + "..")[..|w| + 1] == w + ".";
    SqueezeFixed(w + ".");
  }
}
