/** The string rules of InputProcessor.cs: the title clean-up and every step the author
    splitter applies to the joined tag text and to each queued entry. Regex steps are
    written out as left-to-right scans with the leftmost, non-overlapping matching .NET
    uses; `\d` and `\s` are ASCII, `IgnoreCase` is ASCII case folding. */
module AuthorText {
  import opened Text
  import opened Wrappers

  // ---------------------------------------------------------------- CleanTitle

  predicate IsDigit(c: char) { '0' <= c <= '9' }

  /** End of the run of digits that starts at `i`. */
  function DigitEnd(s: string, i: nat): (j: nat)
    requires i <= |s|
    ensures i <= j <= |s|
    ensures forall k :: i <= k < j ==> IsDigit(s[k])
    ensures j < |s| ==> !IsDigit(s[j])
    decreases |s| - i
  {
    if i < |s| && IsDigit(s[i]) then DigitEnd(s, i + 1) else i
  }

  /** End of the run of dots that starts at `i`. */
  function DotEnd(s: string, i: nat): (j: nat)
    requires i <= |s|
    ensures i <= j <= |s|
    ensures forall k :: i <= k < j ==> s[k] == '.'
    ensures j < |s| ==> s[j] != '.'
    decreases |s| - i
  {
    if i < |s| && s[i] == '.' then DotEnd(s, i + 1) else i
  }

  /** Length of the match of `^\d+\.*\d*\s-` at the start of `s`, if there is one. Every
      quantifier is greedy and no shorter choice can let `\s-` match, so the greedy
      lengths are the only candidate. */
  function TrackPrefix(s: string): (m: Option<nat>)
    ensures m.Some? ==> 2 <= m.value <= |s| && IsDigit(s[0]) && s[m.value - 1] == '-'
  {
    var a := DigitEnd(s, 0);
    if a == 0 then None
    else
      var b := DotEnd(s, a);
      var c := DigitEnd(s, b);
      if c + 2 <= |s| && IsSpace(s[c]) && s[c + 1] == '-' then Some(c + 2) else None
  }

  /** InputProcessor.CleanTitle: one leading track-number prefix removed, then trimmed. */
  function CleanTitle(title: string): (r: string)
    ensures Trimmed(r)
    ensures title == [] || !IsDigit(title[0]) ==> r == Trim(title)
    ensures |r| <= |title|
  {
    var m := TrackPrefix(title);
    Trim(if m.Some? then title[m.value..] else title)
  }

  predicate AllDigits(d: string) {
    forall i :: 0 <= i < |d| ==> IsDigit(d[i])
  }

  predicate AllDots(d: string) {
    forall i :: 0 <= i < |d| ==> d[i] == '.'
  }

  /** A number, optionally with dots and a second number ("01", "1.02", "3..4"), then one
      whitespace character and a dash: that prefix goes and the rest is trimmed. */
  lemma CleanTitleDropsPrefix(n1: string, ds: string, n2: string, sp: char, rest: string)
    requires n1 != [] && AllDigits(n1) && AllDots(ds) && AllDigits(n2) && IsSpace(sp)
    requires ds == [] ==> n2 == []
    ensures CleanTitle(n1 + ds + n2 + [sp, '-'] + rest) == Trim(rest)
  {
    PrefixMatch(n1, ds, n2, sp, rest);
  }

  lemma PrefixMatch(n1: string, ds: string, n2: string, sp: char, rest: string)
    requires n1 != [] && AllDigits(n1) && AllDots(ds) && AllDigits(n2) && IsSpace(sp)
    requires ds == [] ==> n2 == []
    ensures var s := n1 + ds + n2 + [sp, '-'] + rest;
      TrackPrefix(s) == Some(|n1| + |ds| + |n2| + 2) && s[|n1| + |ds| + |n2| + 2..] == rest
  {
    var s := n1 + ds + n2 + [sp, '-'] + rest;
    var a := |n1|;
    var b := a + |ds|;
    var c := b + |n2|;
    assert forall k :: 0 <= k < a ==> s[k] == n1[k];
    assert forall k :: a <= k < b ==> s[k] == ds[k - a];
    assert forall k :: b <= k < c ==> s[k] == n2[k - b];
    assert s[c] == sp && s[c + 1] == '-';
    DigitRun(s, 0, a);
    DotRun(s, a, b);
    DigitRun(s, b, c);
    assert s[c + 2..] == rest;
  }

  lemma {:induction false} DigitRun(s: string, i: nat, j: nat)
    requires i <= j <= |s| && (forall k :: i <= k < j ==> IsDigit(s[k])) && (j < |s| ==> !IsDigit(s[j]))
    ensures DigitEnd(s, i) == j
    decreases j - i
  {
    if i < j {
      DigitRun(s, i + 1, j);
    }
  }

  lemma {:induction false} DotRun(s: string, i: nat, j: nat)
    requires i <= j <= |s| && (forall k :: i <= k < j ==> s[k] == '.') && (j < |s| ==> s[j] != '.')
    ensures DotEnd(s, i) == j
    decreases j - i
  {
    if i < j {
      DotRun(s, i + 1, j);
    }
  }

  /** Only one prefix goes: in "01 - 02 - Dune" the second number stays. */
  lemma CleanTitleOnePrefix(n1: string, n2: string, t: string)
    requires n1 != [] && AllDigits(n1) && n2 != [] && AllDigits(n2)
    requires t != [] && Trimmed(t)
    ensures CleanTitle(n1 + " - " + n2 + " - " + t) == n2 + " - " + t
  {
    var u := n2 + " - " + t;
    PrefixMatch(n1, "", "", ' ', " " + u);
    assert n1 + " - " + n2 + " - " + t == n1 + "" + "" + [' ', '-'] + (" " + u);
    TrimOneSpace(u);
  }

  lemma TrimOneSpace(u: string)
    requires u != [] && Trimmed(u)
    ensures Trim(" " + u) == u
  {
    var v := " " + u;
    assert v[1..] == u;
    assert Lead(v) == 1;
    assert Trail(v) == 0 by {
      assert v[|v| - 1] == u[|u| - 1];
    }
  }

  // ---------------------------------------------------------------- ", Jr" before the split

  /** End of the run of whitespace that starts at `i`. */
  function SpaceEnd(s: string, i: nat): (j: nat)
    requires i <= |s|
    ensures i <= j <= |s|
    ensures forall k :: i <= k < j ==> IsSpace(s[k])
    ensures j < |s| ==> !IsSpace(s[j])
    decreases |s| - i
  {
    if i < |s| && IsSpace(s[i]) then SpaceEnd(s, i + 1) else i
  }

  /** End of the match of `\s*,\s*jr` (ignoring case) that starts at `i`, if any. */
  function JrMatchAt(s: string, i: nat): (e: Option<nat>)
    requires i <= |s|
    ensures e.Some? ==> i < e.value <= |s|
  {
    var a := SpaceEnd(s, i);
    if a < |s| && s[a] == ',' then
      var b := SpaceEnd(s, a + 1);
      if b + 2 <= |s| && LowerChar(s[b]) == 'j' && LowerChar(s[b + 1]) == 'r' then Some(b + 2) else None
    else None
  }

  /** `Regex.Replace(s, @"\s*,\s*jr", " Jr", RegexOptions.IgnoreCase)` from position `i`. */
  function JrFixFrom(s: string, i: nat): (r: string)
    requires i <= |s|
    decreases |s| - i
  {
    if i == |s| then []
    else
      var m := JrMatchAt(s, i);
      if m.Some? then " Jr" + JrFixFrom(s, m.value) else [s[i]] + JrFixFrom(s, i + 1)
  }

  function JrFix(s: string): string {
    JrFixFrom(s, 0)
  }

  /** Text without commas that ends in a non-space is copied unchanged. */
  lemma {:induction false} JrFixKeeps(s: string, i: nat, k: nat)
    requires i <= k <= |s|
    requires forall j :: i <= j < k ==> s[j] != ','
    requires i < k ==> !IsSpace(s[k - 1])
    ensures JrFixFrom(s, i) == s[i..k] + JrFixFrom(s, k)
    decreases k - i
  {
    if i < k {
      JrNoMatchBeforeWord(s, i, k);
      JrFixKeeps(s, i + 1, k);
      assert s[i..k] == [s[i]] + s[i + 1..k];
      Assoc([s[i]], s[i + 1..k], JrFixFrom(s, k));
    }
  }

  /** No match starts where only spaces and then a non-comma lie ahead. */
  lemma JrNoMatchBeforeWord(s: string, i: nat, k: nat)
    requires i < k <= |s|
    requires forall j :: i <= j < k ==> s[j] != ','
    requires !IsSpace(s[k - 1])
    ensures JrMatchAt(s, i).None?
  {
    var a := SpaceEnd(s, i);
    assert a < k;
    assert s[a] != ',';
  }

  /** Text without commas is copied unchanged to the end. */
  lemma {:induction false} JrFixNoComma(s: string, i: nat)
    requires i <= |s|
    requires ',' !in s[i..]
    ensures JrFixFrom(s, i) == s[i..]
    decreases |s| - i
  {
    if i < |s| {
      var a := SpaceEnd(s, i);
      assert a < |s| ==> s[a] == s[i..][a - i];
      assert JrMatchAt(s, i).None?;
      assert s[i + 1..] == s[i..][1..];
      JrFixNoComma(s, i + 1);
      assert s[i..] == [s[i]] + s[i + 1..];
    }
  }

  predicate AllSpace(w: string) {
    forall i :: 0 <= i < |w| ==> IsSpace(w[i])
  }

  /** A name `s[..i]` followed by `\s*,\s*jr` (any case) ending at `e`, and no further comma:
      the match becomes " Jr", so the suffix stays with its name when the text is split on
      commas. */
  lemma JrStaysWithName(s: string, i: nat, a: nat, b: nat)
    requires 0 < i <= a < b && b + 2 <= |s| && !IsSpace(s[i - 1]) && ',' !in s[..i]
    requires AllSpace(s[i..a]) && s[a] == ',' && AllSpace(s[a + 1..b])
    requires LowerChar(s[b]) == 'j' && LowerChar(s[b + 1]) == 'r' && ',' !in s[b + 2..]
    ensures JrFix(s) == s[..i] + " Jr" + s[b + 2..]
    ensures SplitNonEmpty(JrFix(s), ',') == [s[..i] + " Jr" + s[b + 2..]]
  {
    JrFixPrefix(s, i);
    JrMatchFrom(s, i, a, b);
    assert s[..i] + (" Jr" + s[b + 2..]) == s[..i] + " Jr" + s[b + 2..];
    JoinedWithoutComma(s[..i], s[b + 2..]);
  }

  /** A comma-free name ending in a non-space is copied as it is. */
  lemma JrFixPrefix(s: string, i: nat)
    requires 0 < i <= |s| && !IsSpace(s[i - 1]) && ',' !in s[..i]
    ensures JrFix(s) == s[..i] + JrFixFrom(s, i)
  {
    assert forall k :: 0 <= k < i ==> s[k] == s[..i][k];
    JrFixKeeps(s, 0, i);
    assert s[0..i] == s[..i];
  }

  /** A name and its tail, neither with a comma, joined by " Jr" are one piece. */
  lemma JoinedWithoutComma(name: string, tail: string)
    requires ',' !in name && ',' !in tail
    ensures SplitNonEmpty(name + " Jr" + tail, ',') == [name + " Jr" + tail]
  {
    var out := name + " Jr" + tail;
    assert ',' !in " Jr";
    assert ',' !in out;
    assert Split(out, ',') == [out];
    assert NonEmpty([out]) == [out];
  }

  lemma JrMatchFrom(s: string, i: nat, a: nat, b: nat)
    requires i <= a < b && b + 2 <= |s|
    requires AllSpace(s[i..a]) && s[a] == ',' && AllSpace(s[a + 1..b])
    requires LowerChar(s[b]) == 'j' && LowerChar(s[b + 1]) == 'r' && ',' !in s[b + 2..]
    ensures JrFixFrom(s, i) == " Jr" + s[b + 2..]
  {
    JrMatchIs(s, i, a, b);
    JrFixNoComma(s, b + 2);
  }

  lemma JrMatchIs(s: string, i: nat, a: nat, b: nat)
    requires i <= a < b && b + 2 <= |s|
    requires AllSpace(s[i..a]) && s[a] == ',' && AllSpace(s[a + 1..b])
    requires LowerChar(s[b]) == 'j' && LowerChar(s[b + 1]) == 'r'
    ensures JrMatchAt(s, i) == Some(b + 2)
  {
    SpaceRun(s, i, a);
    SpaceRun(s, a + 1, b);
  }

  lemma {:induction false} SpaceRun(s: string, i: nat, j: nat)
    requires i <= j <= |s| && AllSpace(s[i..j]) && (j < |s| ==> !IsSpace(s[j]))
    ensures SpaceEnd(s, i) == j
    decreases j - i
  {
    if i < j {
      assert IsSpace(s[i..j][0]);
      assert s[i + 1..j] == s[i..j][1..];
      SpaceRun(s, i + 1, j);
    }
  }

  // ---------------------------------------------------------------- "(...)" before the split

  /** Position of the first line break at or after `i`, or `|s|`. */
  function LineEnd(s: string, i: nat): (j: nat)
    requires i <= |s|
    ensures i <= j <= |s|
    ensures forall k :: i <= k < j ==> s[k] != '\n'
    ensures j < |s| ==> s[j] == '\n'
    decreases |s| - i
  {
    if i < |s| && s[i] != '\n' then LineEnd(s, i + 1) else i
  }

  /** The last ')' strictly between `lo` and `hi`. */
  function LastClose(s: string, lo: nat, hi: nat): (c: Option<nat>)
    requires lo <= hi <= |s|
    ensures c.Some? ==> lo < c.value < hi && s[c.value] == ')'
    ensures c.Some? ==> forall k :: c.value < k < hi ==> s[k] != ')'
    ensures c.None? ==> forall k :: lo < k < hi ==> s[k] != ')'
    decreases hi - lo
  {
    if hi <= lo + 1 then None
    else if s[hi - 1] == ')' then Some(hi - 1)
    else LastClose(s, lo, hi - 1)
  }

  /** End of the match of `\(.*\)` that starts at `i`: `.` stops at a line break and the
      greedy `.*` runs to the last ')' before it. */
  function GroupEnd(s: string, i: nat): (c: Option<nat>)
    requires i < |s|
    ensures c.Some? ==> i < c.value < |s| && s[i] == '(' && s[c.value] == ')'
  {
    if s[i] == '(' then LastClose(s, i, LineEnd(s, i)) else None
  }

  function DropFrom(s: string, i: nat): (r: string)
    requires i <= |s|
    decreases |s| - i
  {
    if i == |s| then []
    else
      var g := GroupEnd(s, i);
      if g.Some? then DropFrom(s, g.value + 1) else [s[i]] + DropFrom(s, i + 1)
  }

  /** `Regex.Replace(s, @"\(.*\)", String.Empty)`. */
  function DropParens(s: string): string {
    DropFrom(s, 0)
  }

  /** Text without '(' is copied unchanged. */
  lemma {:induction false} DropKeeps(s: string, i: nat, k: nat)
    requires i <= k <= |s| && '(' !in s[i..k]
    ensures DropFrom(s, i) == s[i..k] + DropFrom(s, k)
    decreases k - i
  {
    if i < k {
      assert s[i] == s[i..k][0];
      assert GroupEnd(s, i).None?;
      assert DropFrom(s, i) == [s[i]] + DropFrom(s, i + 1);
      assert s[i + 1..k] == s[i..k][1..];
      DropKeeps(s, i + 1, k);
      assert s[i..k] == [s[i]] + s[i + 1..k];
      assert [s[i]] + (s[i + 1..k] + DropFrom(s, k)) == ([s[i]] + s[i + 1..k]) + DropFrom(s, k);
    }
  }

  /** Text without ')' is copied unchanged to the end. */
  lemma {:induction false} DropNoClose(s: string, i: nat)
    requires i <= |s| && ')' !in s[i..]
    ensures DropFrom(s, i) == s[i..]
    decreases |s| - i
  {
    if i < |s| {
      assert forall k :: i < k < |s| ==> s[k] == s[i..][k - i];
      assert GroupEnd(s, i).None?;
      assert s[i + 1..] == s[i..][1..];
      DropNoClose(s, i + 1);
      assert s[i..] == [s[i]] + s[i + 1..];
    }
  }

  lemma GroupIs(s: string, i: nat, j: nat)
    requires i < j < |s| && s[i] == '(' && s[j] == ')' && '\n' !in s[i..j] && ')' !in s[j + 1..]
    ensures GroupEnd(s, i) == Some(j)
  {
    var e := LineEnd(s, i);
    assert forall k :: i <= k < j ==> s[k] == s[i..j][k - i];
    assert e > j;
    assert forall k :: j < k < e ==> s[k] == s[j + 1..][k - j - 1];
    var c := LastClose(s, i, e);
    assert c.Some? by {
      assert i < j < e && s[j] == ')';
    }
  }

  /** A bracketed group on one line goes, with both brackets, when nothing before it opens
      another and nothing after it closes one. */
  lemma ParensGone(s: string, i: nat, j: nat)
    requires i < j < |s| && s[i] == '(' && s[j] == ')'
    requires '(' !in s[..i] && '\n' !in s[i..j] && ')' !in s[j + 1..]
    ensures DropParens(s) == s[..i] + s[j + 1..]
  {
    assert s[0..i] == s[..i];
    DropKeeps(s, 0, i);
    GroupIs(s, i, j);
    DropNoClose(s, j + 1);
  }

  // ---------------------------------------------------------------- diacritics

  /** The characters replaced, one by one, and their replacements. The five spaces map to
      themselves; '`' becomes '.' and '"' becomes '\''. */
  const From: string := "\U{e0}\U{e8}\U{ec}\U{f2}\U{f9}" + "\U{c0}\U{c8}\U{cc}\U{d2}\U{d9} " + "\U{e4}\U{eb}\U{ef}\U{f6}\U{fc}" + "\U{c4}\U{cb}\U{cf}\U{d6}\U{dc} "
    + "\U{e2}\U{ea}\U{ee}\U{f4}\U{fb}" + "\U{c2}\U{ca}\U{ce}\U{d4}\U{db} " + "\U{e1}\U{e9}\U{ed}\U{f3}\U{fa}" + "\U{c1}\U{c9}\U{cd}\U{d3}\U{da}"
    + "\U{f0}\U{d0}\U{fd}\U{dd} " + "\U{e3}\U{f1}\U{f5}\U{c3}\U{d1}\U{d5}" + "\U{161}\U{160}\U{17e}\U{17d}" + "\U{e7}\U{c7}\U{e5}\U{c5}\U{f8}\U{d8} " + "`\""
  const To: string := "aeiou" + "AEIOU " + "aeiou" + "AEIOU " + "aeiou" + "AEIOU " + "aeiou" + "AEIOU"
    + "dDyY " + "anoANO" + "sSzZ" + "cCaAoO " + ".\'"

  /** Non-ASCII, '`', '"' or a space: the kind of character the table replaces. */
  predicate Marked(c: char) {
    c == ' ' || c == '`' || c == '"' || c as int >= 128
  }

  lemma TableLengths()
    ensures |From| == |To| == 67
  {
  }

  lemma FromMarked()
    ensures forall c :: c in From ==> Marked(c)
  {
  }

  lemma ToUnmarked()
    ensures forall c :: c in To ==> c == ' ' || !Marked(c)
  {
  }

  /** A replacement the table makes never brings back a character it has replaced. */
  lemma ReplacementFresh(k: nat)
    requires k < |From| && k < |To|
    ensures To[k] in From[..k + 1] ==> To[k] == ' '
  {
    FromMarked();
    ToUnmarked();
    assert To[k] in To;
    assert forall c :: c in From[..k + 1] ==> c in From;
  }

  lemma ReplaceKeepsClean(prev: string, done: string, a: char, b: char)
    requires forall c :: c in prev && c in done ==> c == ' '
    requires b in done + [a] ==> b == ' '
    ensures forall c :: c in ReplaceChar(prev, a, b) && c in done + [a] ==> c == ' '
  {
    var r := ReplaceChar(prev, a, b);
    forall c | c in r && c in done + [a] ensures c == ' ' {
      var i :| 0 <= i < |r| && r[i] == c;
      if prev[i] != a {
        assert prev[i] in prev;
      }
    }
  }

  /** The text after the first `k` replacements of the loop over the table. */
  function Substituted(s: string, k: nat): (r: string)
    requires k <= |From|
    ensures |r| == |s|
    ensures forall c :: c in r && c in From[..k] ==> c == ' '
    decreases k
  {
    if k == 0 then s
    else
      TableLengths();
      ReplacementFresh(k - 1);
      ReplaceStep(Substituted(s, k - 1), From, To, k - 1);
      ReplaceChar(Substituted(s, k - 1), From[k - 1], To[k - 1])
  }

  /** One replacement of a table keeps every character the table has replaced so far away,
      when the replacement is not itself one of them. */
  lemma ReplaceStep(t: string, from: string, to: string, k: nat)
    requires k < |from| && k < |to|
    requires forall c :: c in t && c in from[..k] ==> c == ' '
    requires to[k] in from[..k + 1] ==> to[k] == ' '
    ensures forall c :: c in ReplaceChar(t, from[k], to[k]) && c in from[..k + 1] ==> c == ' '
  {
    assert from[..k + 1] == from[..k] + [from[k]];
    ReplaceKeepsClean(t, from[..k], from[k], to[k]);
  }

  /** After the whole table no replaced character is left, except the space. */
  lemma SubstitutedClean(s: string)
    ensures forall c :: c in Substituted(s, |From|) && c in From ==> c == ' '
    ensures '`' !in Substituted(s, |From|) && '"' !in Substituted(s, |From|)
  {
    assert From[..|From|] == From;
    assert '`' in From && '"' in From;
  }

  // ---------------------------------------------------------------- splitting on " and " / '&'

  /** `Regex.Split(s, " and ", RegexOptions.IgnoreCase)` matches at `i`. */
  predicate AndAt(s: string, i: nat) {
    i + 5 <= |s| && s[i] == ' ' && LowerChar(s[i + 1]) == 'a' && LowerChar(s[i + 2]) == 'n' &&
    LowerChar(s[i + 3]) == 'd' && s[i + 4] == ' '
  }

  lemma SumLenCons(p: string, ps: seq<string>)
    ensures SumLen([p] + ps) == |p| + SumLen(ps)
  {
    assert ([p] + ps)[1..] == ps;
  }

  /** The pieces of `s[i..]` between the leftmost, non-overlapping matches. */
  function SplitAndFrom(s: string, i: nat): (r: seq<string>)
    requires i <= |s|
    ensures |r| >= 1
    ensures SumLen(r) <= |s| - i
    decreases |s| - i
  {
    if i == |s| then [[]]
    else if AndAt(s, i) then
      SumLenCons([], SplitAndFrom(s, i + 5));
      [[]] + SplitAndFrom(s, i + 5)
    else
      var rest := SplitAndFrom(s, i + 1);
      SumLenCons(rest[0], rest[1..]);
      assert rest == [rest[0]] + rest[1..];
      SumLenCons([s[i]] + rest[0], rest[1..]);
      [[s[i]] + rest[0]] + rest[1..]
  }

  function SplitAnd(s: string): seq<string> {
    SplitAndFrom(s, 0)
  }

  /** With no separator left the rest is one piece. */
  lemma {:induction false} SplitAndNone(s: string, i: nat)
    requires i <= |s| && forall k :: i <= k < |s| ==> !AndAt(s, k)
    ensures SplitAndFrom(s, i) == [s[i..]]
    decreases |s| - i
  {
    if i < |s| {
      SplitAndNone(s, i + 1);
      assert s[i..] == [s[i]] + s[i + 1..];
    }
  }

  /** The first piece runs up to the leftmost separator, and splitting goes on after it. */
  lemma {:induction false} SplitAndFirst(s: string, i: nat, k: nat)
    requires i <= k <= |s| && AndAt(s, k) && forall j :: i <= j < k ==> !AndAt(s, j)
    ensures SplitAndFrom(s, i) == [s[i..k]] + SplitAndFrom(s, k + 5)
    decreases k - i
  {
    if i < k {
      SplitAndFirst(s, i + 1, k);
      assert s[i..k] == [s[i]] + s[i + 1..k];
    }
  }

  /** A separator anywhere makes the pieces strictly shorter than the text. */
  lemma {:induction false} SplitAndShrinks(s: string, i: nat, k: nat)
    requires i <= k && AndAt(s, k)
    ensures SumLen(SplitAndFrom(s, i)) < |s| - i
    decreases k - i
  {
    if i < k {
      if !AndAt(s, i) {
        SplitAndShrinks(s, i + 1, k);
        var rest := SplitAndFrom(s, i + 1);
        SumLenCons(rest[0], rest[1..]);
        assert rest == [rest[0]] + rest[1..];
        SumLenCons([s[i]] + rest[0], rest[1..]);
      }
    }
  }

  /** The pieces that are non-empty before trimming, each trimmed, in order. */
  function Kept(ps: seq<string>): (r: seq<string>)
    ensures SumLen(r) <= SumLen(ps)
  {
    if ps == [] then []
    else
      var head := if ps[0] == [] then [] else [Trim(ps[0])];
      SumLenCons(ps[0], ps[1..]);
      assert ps == [ps[0]] + ps[1..];
      SumLenAppend(head, Kept(ps[1..]));
      head + Kept(ps[1..])
  }

  /** An entry the splitter breaks up instead of cleaning. */
  predicate Splits(p: string) {
    Contains(Lower(p), " and ") || Contains(p, " & ")
  }

  /** Split on '&' when there is one, otherwise on " and ". */
  function RawPieces(p: string): seq<string> {
    if '&' in p then Split(p, '&') else SplitAnd(p)
  }

  /** What a split entry puts back on the queue: the non-empty pieces, trimmed. */
  function Pieces(p: string): seq<string> {
    Kept(RawPieces(p))
  }

  lemma ContainsChar(s: string, w: string, j: nat)
    requires Contains(s, w) && j < |w|
    ensures w[j] in s
  {
    var k := ContainsWitness(s, w);
    assert s[k + j] == s[k..k + |w|][j];
  }

  /** Splitting always shortens: the queue cannot grow forever. */
  lemma PiecesShrink(p: string)
    requires Splits(p)
    ensures SumLen(Pieces(p)) < |p|
  {
    if '&' in p {
      SplitSumLen(p, '&');
      CountPositive(p, '&');
    } else {
      if Contains(p, " & ") {
        ContainsChar(p, " & ", 1);
      }
      var k := ContainsWitness(Lower(p), " and ");
      var w := Lower(p)[k..k + 5];
      assert w[0] == ' ' && w[1] == 'a' && w[2] == 'n' && w[3] == 'd' && w[4] == ' ';
      assert AndAt(p, k);
      SplitAndShrinks(p, 0, k);
    }
  }

  // ---------------------------------------------------------------- erasing the titles

  /** One symbol of a case-insensitive pattern: a letter or `.`, which is any character
      except a line break. Letters are given in lower case. */
  datatype Sym = Lit(c: char) | AnyChar

  predicate SymMatch(p: Sym, c: char) {
    match p
    case Lit(d) => LowerChar(c) == d
    case AnyChar => c != '\n'
  }

  predicate MatchAt(s: string, pat: seq<Sym>, i: nat) {
    i + |pat| <= |s| && forall k :: 0 <= k < |pat| ==> SymMatch(pat[k], s[i + k])
  }

  function Lits(w: string): (r: seq<Sym>)
    ensures |r| == |w|
    ensures forall k :: 0 <= k < |w| ==> r[k] == Lit(w[k])
  {
    seq(|w|, k requires 0 <= k < |w| => Lit(w[k]))
  }

  /** `Regex.Replace(s[i..], pat, String.Empty, RegexOptions.IgnoreCase)`: leftmost,
      non-overlapping matches removed. */
  function EraseFrom(s: string, pat: seq<Sym>, i: nat): (r: string)
    requires pat != [] && i <= |s|
    ensures |r| <= |s| - i
    decreases |s| - i
  {
    if i == |s| then []
    else if MatchAt(s, pat, i) then EraseFrom(s, pat, i + |pat|)
    else [s[i]] + EraseFrom(s, pat, i + 1)
  }

  function Erase(s: string, pat: seq<Sym>): string
    requires pat != []
  {
    EraseFrom(s, pat, 0)
  }

  /** Text with no match is copied unchanged. */
  lemma {:induction false} EraseNone(s: string, pat: seq<Sym>, i: nat)
    requires pat != [] && i <= |s| && forall k :: i <= k < |s| ==> !MatchAt(s, pat, k)
    ensures EraseFrom(s, pat, i) == s[i..]
    decreases |s| - i
  {
    if i < |s| {
      EraseNone(s, pat, i + 1);
      assert s[i..] == [s[i]] + s[i + 1..];
    }
  }

  /** Everything before the leftmost match is kept, the match goes, and erasing goes on
      after it. */
  lemma {:induction false} EraseFirst(s: string, pat: seq<Sym>, i: nat, k: nat)
    requires pat != [] && i <= k && MatchAt(s, pat, k) && forall j :: i <= j < k ==> !MatchAt(s, pat, j)
    ensures EraseFrom(s, pat, i) == s[i..k] + EraseFrom(s, pat, k + |pat|)
    decreases k - i
  {
    if i < k {
      assert EraseFrom(s, pat, i) == [s[i]] + EraseFrom(s, pat, i + 1);
      EraseFirst(s, pat, i + 1, k);
      assert s[i..k] == [s[i]] + s[i + 1..k];
      var rest := EraseFrom(s, pat, k + |pat|);
      assert [s[i]] + (s[i + 1..k] + rest) == ([s[i]] + s[i + 1..k]) + rest;
    }
  }

  /** One conditional step: when the lower-cased text contains `cond`, `pat` is erased. */
  function StripStep(p: string, cond: string, pat: seq<Sym>): (r: string)
    requires pat != []
    ensures |r| <= |p|
    ensures !Contains(Lower(p), cond) ==> r == p
  {
    if Contains(Lower(p), cond) then Erase(p, pat) else p
  }

  /** The eleven title and role erasures, in the order the splitter applies them. */
  function Strip(p: string): (r: string)
    ensures |r| <= |p|
  {
    var p1 := StripStep(p, "- adaptation", Lits("- adaptation"));
    var p2 := StripStep(p1, "(translator)", [AnyChar] + Lits("translator") + [AnyChar]);
    var p3 := StripStep(p2, "- translator", Lits("- translator"));
    var p4 := StripStep(p3, "(editor)", [AnyChar] + Lits("editor") + [AnyChar]);
    var p5 := StripStep(p4, "dr. ", Lits("dr."));
    var p6 := StripStep(p5, "dr ", Lits("dr "));
    var p7 := StripStep(p6, "edited by", Lits("edited by"));
    var p8 := StripStep(p7, "- editor", Lits("- editor"));
    var p9 := StripStep(p8, "professor", Lits("professor"));
    var p10 := StripStep(p9, "prof.", Lits("prof."));
    StripStep(p10, "sir", Lits("sir"))
  }

  // ---------------------------------------------------------------- spacing after dots

  /** The dot rule on characters: every '.' is followed by a space, one being added when the
      next character is not already a space. */
  function SpaceDots(q: string): (r: string)
    decreases |q|
  {
    if q == [] then [] else DotHead(q) + SpaceDots(q[1..])
  }

  /** What the rule writes for the first character. */
  function DotHead(q: string): string
    requires q != []
  {
    if q[0] != '.' then [q[0]] else if |q| > 1 && q[1] == ' ' then "." else ". "
  }

  /** Every '.' of `r`, except possibly a last one, is followed by a space. */
  predicate DotsSpaced(r: string) {
    forall i :: 0 <= i < |r| - 1 && r[i] == '.' ==> r[i + 1] == ' '
  }

  lemma SpaceDotsHead(q: string)
    requires q != [] && q[0] != '.'
    ensures SpaceDots(q) != [] && SpaceDots(q)[0] == q[0]
  {
  }

  /** In the result every '.' has a space right after it. */
  lemma {:induction false} SpaceDotsSpaced(q: string)
    ensures forall i :: 0 <= i < |SpaceDots(q)| && SpaceDots(q)[i] == '.' ==>
      i + 1 < |SpaceDots(q)| && SpaceDots(q)[i + 1] == ' '
    decreases |q|
  {
    if q != [] {
      var t := SpaceDots(q[1..]);
      SpaceDotsSpaced(q[1..]);
      var r := SpaceDots(q);
      var head := if q[0] != '.' then [q[0]] else if |q| > 1 && q[1] == ' ' then "." else ". ";
      assert r == head + t;
      if q[0] == '.' && |q| > 1 && q[1] == ' ' {
        SpaceDotsHead(q[1..]);
      }
      forall i | 0 <= i < |r| && r[i] == '.' ensures i + 1 < |r| && r[i + 1] == ' ' {
        if i >= |head| {
          assert r[i] == t[i - |head|];
        }
      }
    }
  }

  /** A word without spaces found after the rule was already there before it. */
  lemma {:induction false} SpaceDotsPrefix(y: string, w: string)
    requires ' ' !in w && w <= SpaceDots(y)
    ensures w <= y
    decreases |y|
  {
    if w != [] && y != [] {
      var t := SpaceDots(y[1..]);
      if y[0] == '.' && !(|y| > 1 && y[1] == ' ') {
        assert SpaceDots(y) == ". " + t;
        assert SpaceDots(y)[1] == ' ';
        assert forall k :: 0 <= k < |w| ==> w[k] != ' ' && w[k] == SpaceDots(y)[k];
        assert |w| == 1;
      } else {
        assert SpaceDots(y) == [y[0]] + t;
        assert w[1..] <= t;
        assert ' ' !in w[1..] by {
          assert forall c :: c in w[1..] ==> c in w;
        }
        SpaceDotsPrefix(y[1..], w[1..]);
        assert w == [w[0]] + w[1..];
      }
    }
  }

  lemma {:induction false} SpaceDotsContains(y: string, w: string)
    requires ' ' !in w && Contains(SpaceDots(y), w)
    ensures Contains(y, w)
    decreases |y|
  {
    if w == [] {
      ContainsEmpty(y);
    } else if w <= SpaceDots(y) {
      SpaceDotsPrefix(y, w);
    } else if y != [] {
      var t := SpaceDots(y[1..]);
      if y[0] == '.' && !(|y| > 1 && y[1] == ' ') {
        assert SpaceDots(y)[1..] == " " + t;
        assert w[0] in w;
        assert !(w <= " " + t);
        assert (" " + t)[1..] == t;
        SpaceDotsContains(y[1..], w);
      } else {
        assert SpaceDots(y)[1..] == t;
        SpaceDotsContains(y[1..], w);
      }
    }
  }

  /** The rule commutes with lower-casing, which never makes or removes a '.' or a space. */
  lemma {:induction false} LowerSpaceDots(q: string)
    ensures Lower(SpaceDots(q)) == SpaceDots(Lower(q))
    decreases |q|
  {
    if q != [] {
      LowerSpaceDots(q[1..]);
      LowerAppend(DotHead(q), SpaceDots(q[1..]));
      LowerTail(q);
      LowerDotHead(q);
    }
  }

  lemma LowerTail(q: string)
    requires q != []
    ensures Lower(q) != [] && Lower(q)[1..] == Lower(q[1..])
  {
  }

  /** Lower-casing never makes or removes a '.' or a space. */
  lemma LowerDotHead(q: string)
    requires q != []
    ensures Lower(DotHead(q)) == DotHead(Lower(q))
  {
    var lq := Lower(q);
    assert lq[0] == LowerChar(q[0]);
    if |q| > 1 {
      assert lq[1] == LowerChar(q[1]);
    }
  }

  /** A text without dots is left as it is. */
  lemma {:induction false} SpaceDotsNoDot(q: string)
    requires '.' !in q
    ensures SpaceDots(q) == q
    decreases |q|
  {
    if q != [] {
      SpaceDotsNoDot(q[1..]);
      assert q == [q[0]] + q[1..];
    }
  }

  /** The separator the string builder puts after a piece: "." when the next piece already
      starts with a space, ". " otherwise. */
  function Sep(next: string): string {
    if next != [] && next[0] == ' ' then "." else ". "
  }

  /** What the builder loop produces from the pieces of a split on '.'. */
  function Reflow(parts: seq<string>): string
    requires |parts| >= 1
    decreases |parts|
  {
    if |parts| == 1 then parts[0] else parts[0] + Sep(parts[1]) + Reflow(parts[1..])
  }

  lemma ReflowHead(c: char, ps: seq<string>)
    requires |ps| >= 1
    ensures Reflow([[c] + ps[0]] + ps[1..]) == [c] + Reflow(ps)
  {
    var rest := ps[1..];
    var tail := if rest == [] then [] else Sep(rest[0]) + Reflow(rest);
    ReflowFirst([c] + ps[0], rest);
    assert Reflow(ps) == ps[0] + tail by {
      if rest != [] {
        assert rest[0] == ps[1];
      }
    }
    Assoc([c], ps[0], tail);
  }

  /** The first piece, then the rest of the pieces with their separator. */
  lemma ReflowFirst(x: string, rest: seq<string>)
    ensures Reflow([x] + rest) == x + (if rest == [] then [] else Sep(rest[0]) + Reflow(rest))
  {
    var qs := [x] + rest;
    if rest != [] {
      assert qs[1] == rest[0] && qs[1..] == rest;
    }
  }

  lemma SplitHead(x: string, c: char)
    ensures x != [] && x[0] != c ==> Split(x, c)[0] != [] && Split(x, c)[0][0] == x[0]
    ensures x == [] || x[0] == c ==> Split(x, c)[0] == []
  {
  }

  /** Splitting on '.' and rebuilding with the separators is the dot rule. */
  lemma {:induction false} ReflowSplit(q: string)
    ensures Reflow(Split(q, '.')) == SpaceDots(q)
    decreases |q|
  {
    if q != [] {
      var rest := Split(q[1..], '.');
      ReflowSplit(q[1..]);
      SplitHead(q[1..], '.');
      assert SpaceDots(q) == DotHead(q) + SpaceDots(q[1..]);
      if q[0] == '.' {
        assert Split(q, '.') == [[]] + rest;
        ReflowFirst([], rest);
        assert Sep(rest[0]) == DotHead(q);
      } else {
        assert Split(q, '.') == [[q[0]] + rest[0]] + rest[1..];
        ReflowHead(q[0], rest);
      }
    }
  }

  lemma DotsSpacedSlice(x: string, a: nat, b: nat)
    requires a <= b <= |x| && DotsSpaced(x)
    ensures DotsSpaced(x[a..b])
  {
    var y := x[a..b];
    forall i | 0 <= i < |y| - 1 && y[i] == '.' ensures y[i + 1] == ' ' {
      assert y[i] == x[a + i] && y[i + 1] == x[a + i + 1];
    }
  }

  /** The dot rule applied only when there is a dot, as the splitter does. */
  function Dotted(q: string): (x: string)
    ensures DotsSpaced(x)
  {
    if '.' in q then
      SpaceDotsSpaced(q);
      SpaceDots(q)
    else q
  }

  lemma LowerSlice(x: string, a: nat, b: nat)
    requires a <= b <= |x|
    ensures Lower(x[a..b]) == Lower(x)[a..b]
  {
  }

  /** Trimming never makes a word appear. */
  lemma AbsentAfterTrim(x: string, w: string)
    requires !Contains(Lower(x), w)
    ensures !Contains(Lower(Trim(x)), w)
  {
    var a := Lead(x);
    var e := Trim(x);
    LowerSlice(x, a, a + |e|);
    if Contains(Lower(e), w) {
      ContainsInSlice(Lower(x), a, a + |e|, w);
    }
  }

  /** The dot rule never makes a word without spaces appear. */
  lemma AbsentAfterDots(q: string, w: string)
    requires ' ' !in w && !Contains(Lower(q), w)
    ensures !Contains(Lower(Dotted(q)), w)
  {
    if '.' in q {
      LowerSpaceDots(q);
      if Contains(SpaceDots(Lower(q)), w) {
        SpaceDotsContains(Lower(q), w);
      }
    }
  }

  /** What the splitter adds to its result. */
  predicate Entry(e: string) {
    Trimmed(e) && DotsSpaced(e) && !Contains(Lower(e), "foreword") && !Contains(Lower(e), "introduction")
  }

  lemma CleanedEntry(q: string)
    requires !Contains(Lower(q), "foreword") && !Contains(Lower(q), "introduction")
    ensures Entry(Trim(Dotted(q)))
  {
    TrimDotsSpaced(Dotted(q));
    AbsentAfterCleaning(q, "foreword");
    AbsentAfterCleaning(q, "introduction");
  }

  lemma TrimDotsSpaced(x: string)
    requires DotsSpaced(x)
    ensures DotsSpaced(Trim(x))
  {
    DotsSpacedSlice(x, Lead(x), Lead(x) + |Trim(x)|);
  }

  lemma AbsentAfterCleaning(q: string, w: string)
    requires ' ' !in w && !Contains(Lower(q), w)
    ensures !Contains(Lower(Trim(Dotted(q))), w)
  {
    AbsentAfterDots(q, w);
    AbsentAfterTrim(Dotted(q), w);
  }

  /** The clean-up of one entry that is not split: dropped when it mentions a PhD, a
      foreword or an introduction, otherwise stripped of titles, dot-spaced and trimmed. */
  function Clean(p: string): (e: Option<string>)
    ensures e.Some? ==> Entry(e.value)
    ensures Contains(Lower(p), "phd") ==> e.None?
  {
    if Contains(Lower(p), "phd") then None
    else
      var q := Strip(p);
      if Contains(Lower(q), "foreword") || Contains(Lower(q), "introduction") then None
      else
        CleanedEntry(q);
        Some(Trim(Dotted(q)))
  }

  /** The result of working through `queue` in first-in, first-out order: a splitting entry
      is replaced by its pieces at the back of the queue, any other is cleaned and, unless
      dropped, added to the result. */
  function Drain(queue: seq<string>): seq<string>
    decreases SumLen(queue), |queue|
  {
    if queue == [] then []
    else
      var p := queue[0];
      SumLenCons(p, queue[1..]);
      assert queue == [p] + queue[1..];
      if Splits(p) then
        PiecesShrink(p);
        SumLenAppend(queue[1..], Pieces(p));
        Drain(queue[1..] + Pieces(p))
      else
        var c := Clean(p);
        (if c.Some? then [c.value] else []) + Drain(queue[1..])
  }

  /** Everything the splitter adds is trimmed, has its dots spaced and mentions no foreword
      or introduction. */
  lemma {:induction false} DrainEntries(queue: seq<string>)
    ensures forall e :: e in Drain(queue) ==> Entry(e)
    decreases SumLen(queue), |queue|
  {
    if queue != [] {
      var p := queue[0];
      SumLenCons(p, queue[1..]);
      assert queue == [p] + queue[1..];
      if Splits(p) {
        PiecesShrink(p);
        SumLenAppend(queue[1..], Pieces(p));
        DrainEntries(queue[1..] + Pieces(p));
      } else {
        DrainEntries(queue[1..]);
      }
    }
  }

  /** The queue the splitter starts from: the tags joined with commas, the ", Jr" suffixes
      and bracketed groups handled, the table applied, then split on commas. */
  function InitialQueue(authors: seq<string>): seq<string> {
    SplitNonEmpty(Substituted(DropParens(JrFix(Join(authors, ","))), |From|), ',')
  }

  /** InputProcessor.CleanAuthors as a function of the tag values. */
  function CleanAuthorsSpec(authors: seq<string>): seq<string> {
    Drain(InitialQueue(authors))
  }

  /** A word with a character the text lacks is not in the text. */
  lemma MissingChar(s: string, w: string, j: nat)
    requires j < |w| && w[j] !in s
    ensures !Contains(s, w)
  {
    if Contains(s, w) {
      ContainsChar(s, w, j);
    }
  }

  /** The erasures are raw substring deletions: the "dr " rule cuts the end of a first name. */
  lemma StripCutsInsideNames()
    ensures Strip("Alexandr Dumas") == "AlexanDumas"
  {
    var p := "Alexandr Dumas";
    var q := "AlexanDumas";
    ExampleUntouched(p);
    ExampleDr(p);
    ExampleRest(q);
  }

  lemma ExampleUntouched(p: string)
    requires p == "Alexandr Dumas"
    ensures !Contains(Lower(p), "- adaptation") && !Contains(Lower(p), "(translator)")
    ensures !Contains(Lower(p), "- translator") && !Contains(Lower(p), "(editor)")
    ensures !Contains(Lower(p), "dr. ")
  {
    LowerExample1(p);
    assert !Contains(Lower(p), "- adaptation") by {
      MissingChar(Lower(p), "- adaptation", 0);
    }
    assert !Contains(Lower(p), "(translator)") by {
      MissingChar(Lower(p), "(translator)", 0);
    }
    assert !Contains(Lower(p), "- translator") by {
      MissingChar(Lower(p), "- translator", 0);
    }
    assert !Contains(Lower(p), "(editor)") by {
      MissingChar(Lower(p), "(editor)", 0);
    }
    assert !Contains(Lower(p), "dr. ") by {
      MissingChar(Lower(p), "dr. ", 2);
    }
  }

  lemma ExampleDr(p: string)
    requires p == "Alexandr Dumas"
    ensures Contains(Lower(p), "dr ")
    ensures Erase(p, Lits("dr ")) == "AlexanDumas"
  {
    assert Contains(Lower(p), "dr ") by {
      LowerExample1(p);
      assert "alexandr dumas"[6..9] == "dr ";
      ContainsAt("alexandr dumas", "dr ", 6);
    }
    ExampleErase(p, Lits("dr "));
  }

  lemma ExampleErase(p: string, pat: seq<Sym>)
    requires p == "Alexandr Dumas" && pat == Lits("dr ")
    ensures Erase(p, pat) == "AlexanDumas"
  {
    ExampleMatches(p, pat);
    EraseFirst(p, pat, 0, 6);
    EraseNone(p, pat, 9);
    ExampleSlices(p);
  }

  lemma ExampleSlices(p: string)
    requires p == "Alexandr Dumas"
    ensures p[0..6] + p[6 + 3..] == "AlexanDumas"
  {
    assert p[0..6] == "Alexan";
    assert p[9..] == "Dumas";
  }

  lemma ExampleMatches(p: string, pat: seq<Sym>)
    requires p == "Alexandr Dumas" && pat == Lits("dr ")
    ensures forall j :: 0 <= j < 6 ==> !MatchAt(p, pat, j)
    ensures MatchAt(p, pat, 6)
    ensures forall j :: 9 <= j < |p| ==> !MatchAt(p, pat, j)
  {
    assert pat[0] == Lit('d') && pat[1] == Lit('r') && pat[2] == Lit(' ');
    forall j | 0 <= j < 6 ensures !MatchAt(p, pat, j) {
      assert !SymMatch(pat[0], p[j + 0]);
    }
    forall j | 9 <= j < |p| ensures !MatchAt(p, pat, j) {
      assert j + 3 > |p| || !SymMatch(pat[0], p[j + 0]) || !SymMatch(pat[1], p[j + 1]);
    }
  }

  lemma ExampleRest(q: string)
    requires q == "AlexanDumas"
    ensures !Contains(Lower(q), "edited by") && !Contains(Lower(q), "- editor")
    ensures !Contains(Lower(q), "professor") && !Contains(Lower(q), "prof.") && !Contains(Lower(q), "sir")
  {
    LowerExample2(q);
    assert !Contains(Lower(q), "edited by") by {
      MissingChar(Lower(q), "edited by", 8);
    }
    assert !Contains(Lower(q), "- editor") by {
      MissingChar(Lower(q), "- editor", 0);
    }
    assert !Contains(Lower(q), "professor") by {
      MissingChar(Lower(q), "professor", 0);
    }
    assert !Contains(Lower(q), "prof.") by {
      MissingChar(Lower(q), "prof.", 0);
    }
    assert !Contains(Lower(q), "sir") by {
      MissingChar(Lower(q), "sir", 1);
    }
  }

  lemma LowerExample1(p: string)
    requires p == "Alexandr Dumas"
    ensures Lower(p) == "alexandr dumas"
  {
  }

  lemma LowerExample2(q: string)
    requires q == "AlexanDumas"
    ensures Lower(q) == "alexandumas"
  {
  }
}
