/** Edit distance, similarity and longest common substring
    (LookupProcessor.cs, ComputeLevenshteinDistance, CalculateStringSimilarity,
    LongestCommonSubstringLength). The two table-filling algorithms are methods over
    two-dimensional arrays, each proved against a recursive specification. */
module Similarity {

  function Min(x: int, y: int): int { if x <= y then x else y }
  function Max(x: int, y: int): int { if x >= y then x else y }

  /** The textbook edit-distance recurrence between the prefixes `s1[..i]` and `s2[..j]`. */
  function Lev(s1: string, s2: string, i: nat, j: nat): nat
    requires i <= |s1| && j <= |s2|
    decreases i + j
  {
    if i == 0 then j
    else if j == 0 then i
    else
      var cost := if s2[j - 1] == s1[i - 1] then 0 else 1;
      Min(Min(Lev(s1, s2, i - 1, j) + 1, Lev(s1, s2, i, j - 1) + 1), Lev(s1, s2, i - 1, j - 1) + cost)
  }

  /** What the importer's distance returns: 0 when either side is empty and the common
      length (not 0) when both sides are equal; the table value otherwise. */
  function Distance(s1: string, s2: string): nat {
    if |s1| == 0 || |s2| == 0 then 0
    else if s1 == s2 then |s1|
    else Lev(s1, s2, |s1|, |s2|)
  }

  /** The recurrence never exceeds the longer prefix. */
  lemma {:induction false} LevUpper(s1: string, s2: string, i: nat, j: nat)
    requires i <= |s1| && j <= |s2|
    ensures Lev(s1, s2, i, j) <= Max(i, j)
    decreases i + j
  {
    if i > 0 && j > 0 {
      LevUpper(s1, s2, i - 1, j - 1);
    }
  }

  /** How far apart two prefix lengths are. */
  function Gap(i: int, j: int): int { if i >= j then i - j else j - i }

  /** The recurrence never undercuts the length gap. */
  lemma LevLower(s1: string, s2: string, i: nat, j: nat)
    requires i <= |s1| && j <= |s2|
    ensures Lev(s1, s2, i, j) >= Gap(i, j)
  {
    LevCoversFirst(s1, s2, i, j);
    LevCoversSecond(s1, s2, i, j);
  }

  lemma {:induction false} LevCoversFirst(s1: string, s2: string, i: nat, j: nat)
    requires i <= |s1| && j <= |s2|
    ensures Lev(s1, s2, i, j) + j >= i
    decreases i + j
  {
    if i > 0 && j > 0 {
      LevCoversFirst(s1, s2, i - 1, j);
      LevCoversFirst(s1, s2, i, j - 1);
      LevCoversFirst(s1, s2, i - 1, j - 1);
    }
  }

  lemma {:induction false} LevCoversSecond(s1: string, s2: string, i: nat, j: nat)
    requires i <= |s1| && j <= |s2|
    ensures Lev(s1, s2, i, j) + i >= j
    decreases i + j
  {
    if i > 0 && j > 0 {
      LevCoversSecond(s1, s2, i - 1, j);
      LevCoversSecond(s1, s2, i, j - 1);
      LevCoversSecond(s1, s2, i - 1, j - 1);
    }
  }

  /** A zero distance means the two prefixes are the same string. */
  lemma {:induction false} LevZero(s1: string, s2: string, i: nat, j: nat)
    requires i <= |s1| && j <= |s2|
    requires Lev(s1, s2, i, j) == 0
    ensures i == j && s1[..i] == s2[..j]
    decreases i + j
  {
    if i > 0 && j > 0 {
      LevZeroStep(s1, s2, i, j);
      LevZero(s1, s2, i - 1, j - 1);
      PrefixExtend(s1, s2, i);
    }
  }

  /** A zero distance between non-empty prefixes comes from equal last characters. */
  lemma LevZeroStep(s1: string, s2: string, i: nat, j: nat)
    requires 0 < i <= |s1| && 0 < j <= |s2|
    requires Lev(s1, s2, i, j) == 0
    ensures Lev(s1, s2, i - 1, j - 1) == 0 && s1[i - 1] == s2[j - 1]
  {
    LevLower(s1, s2, i - 1, j);
    LevLower(s1, s2, i, j - 1);
  }

  lemma PrefixExtend(s1: string, s2: string, i: nat)
    requires 0 < i <= |s1| && i <= |s2|
    requires s1[..i - 1] == s2[..i - 1] && s1[i - 1] == s2[i - 1]
    ensures s1[..i] == s2[..i]
  {
    assert s1[..i] == s1[..i - 1] + [s1[i - 1]];
    assert s2[..i] == s2[..i - 1] + [s2[i - 1]];
  }

  /** The distance of two different non-empty strings lies in 1..max(|s1|, |s2|);
      equal non-empty strings give their length; an empty side gives 0. */
  lemma DistanceRange(s1: string, s2: string)
    ensures |s1| == 0 || |s2| == 0 ==> Distance(s1, s2) == 0
    ensures |s1| > 0 && s1 == s2 ==> Distance(s1, s2) == |s1|
    ensures |s1| > 0 && |s2| > 0 && s1 != s2 ==> 1 <= Distance(s1, s2) <= Max(|s1|, |s2|)
  {
    if |s1| > 0 && |s2| > 0 && s1 != s2 {
      LevUpper(s1, s2, |s1|, |s2|);
      LevZeroWhole(s1, s2);
    }
  }

  lemma LevZeroWhole(s1: string, s2: string)
    ensures Lev(s1, s2, |s1|, |s2|) == 0 ==> s1 == s2
  {
    if Lev(s1, s2, |s1|, |s2|) == 0 {
      LevZero(s1, s2, |s1|, |s2|);
      assert s1 == s1[..|s1|] && s2 == s2[..|s2|];
    }
  }

  /** Cells `0..upto` of row `r` of the table hold the recurrence. */
  ghost predicate RowDone(distance: array2<int>, s1: string, s2: string, r: nat, upto: nat)
    reads distance
    requires distance.Length0 == |s1| + 1 && distance.Length1 == |s2| + 1 && r <= |s1| && upto <= |s2| + 1
  {
    forall b :: 0 <= b < upto ==> distance[r, b] == Lev(s1, s2, r, b)
  }

  /** One row of the table: row `i` from row `i - 1`; column 0 below it stays as it was. */
  method FillRow(distance: array2<int>, s1: string, s2: string, i: nat)
    requires distance.Length0 == |s1| + 1 && distance.Length1 == |s2| + 1 && 1 <= i <= |s1|
    requires RowDone(distance, s1, s2, i - 1, |s2| + 1)
    requires forall a :: i <= a <= |s1| ==> distance[a, 0] == a
    modifies distance
    ensures RowDone(distance, s1, s2, i, |s2| + 1)
    ensures forall a :: i < a <= |s1| ==> distance[a, 0] == a
  {
    var j := 1;
    while j <= |s2|
      invariant 1 <= j <= |s2| + 1
      invariant RowDone(distance, s1, s2, i - 1, |s2| + 1)
      invariant forall a :: i <= a <= |s1| ==> distance[a, 0] == a
      invariant RowDone(distance, s1, s2, i, j)
    {
      var cost := if s2[j - 1] == s1[i - 1] then 0 else 1;
      var deletion, insertion, substitution := distance[i - 1, j] + 1, distance[i, j - 1] + 1, distance[i - 1, j - 1] + cost;
      assert Lev(s1, s2, i, j) == Min(Min(deletion, insertion), substitution);
      distance[i, j] := Min(Min(deletion, insertion), substitution);
      j := j + 1;
    }
  }

  /** ComputeLevenshteinDistance: fills the (|s1|+1) x (|s2|+1) table row by row. */
  method ComputeLevenshteinDistance(s1: string, s2: string) returns (d: int)
    ensures d == Distance(s1, s2)
  {
    if |s1| == 0 || |s2| == 0 {
      return 0;
    }
    if s1 == s2 {
      return |s1|;
    }
    var n, m := |s1|, |s2|;
    var distance := new int[n + 1, m + 1];
    var i := 0;
    while i <= n
      invariant 0 <= i <= n + 1
      invariant forall a :: 0 <= a < i ==> distance[a, 0] == a
    {
      distance[i, 0] := i;
      i := i + 1;
    }
    var j := 0;
    while j <= m
      invariant 0 <= j <= m + 1
      invariant forall a :: 0 <= a <= n ==> distance[a, 0] == a
      invariant forall b :: 0 <= b < j ==> distance[0, b] == b
    {
      distance[0, j] := j;
      j := j + 1;
    }
    i := 1;
    while i <= n
      invariant 1 <= i <= n + 1
      invariant RowDone(distance, s1, s2, i - 1, m + 1)
      invariant forall a :: i <= a <= n ==> distance[a, 0] == a
    {
      FillRow(distance, s1, s2, i);
      i := i + 1;
    }
    d := distance[n, m];
  }

  /** CalculateStringSimilarity as an exact rational: 1 - distance / longer length. */
  function Similarity(s1: string, s2: string): real {
    if |s1| == 0 || |s2| == 0 then 0.0
    else if s1 == s2 then 1.0
    else 1.0 - (Distance(s1, s2) as real) / (Max(|s1|, |s2|) as real)
  }

  /** Similarity is 0 with an empty side, 1 for equal strings and otherwise in [0, 1). */
  lemma SimilarityRange(s1: string, s2: string)
    ensures |s1| == 0 || |s2| == 0 ==> Similarity(s1, s2) == 0.0
    ensures |s1| > 0 && s1 == s2 ==> Similarity(s1, s2) == 1.0
    ensures |s1| > 0 && |s2| > 0 && s1 != s2 ==> 0.0 <= Similarity(s1, s2) < 1.0
  {
    DistanceRange(s1, s2);
    if |s1| > 0 && |s2| > 0 && s1 != s2 {
      RatioInUnit(Distance(s1, s2) as real, Max(|s1|, |s2|) as real);
    }
  }

  /** A positive part of a positive whole is a ratio in (0, 1]. */
  lemma RatioInUnit(d: real, mx: real)
    requires 0.0 < d <= mx
    ensures 0.0 < d / mx <= 1.0
  {
    var q := d / mx;
    assert q * mx == d;
    assert (q - 1.0) * mx == d - mx;
  }

  /** A similarity threshold `t` over two different non-empty strings is the integer
      comparison `d < (1 - t) * max`, so no floating point is involved. */
  lemma SimilarityAbove(s1: string, s2: string, t: real)
    requires |s1| > 0 && |s2| > 0 && s1 != s2
    ensures Similarity(s1, s2) > t <==> (Distance(s1, s2) as real) < (1.0 - t) * (Max(|s1|, |s2|) as real)
  {
    var d, mx := Distance(s1, s2) as real, Max(|s1|, |s2|) as real;
    DivBelow(d, mx, 1.0 - t);
  }

  /** Dividing by a positive whole keeps a strict comparison. */
  lemma DivBelow(a: real, b: real, c: real)
    requires b > 0.0
    ensures a / b < c <==> a < c * b
  {
    var q := a / b;
    assert q * b == a;
    assert (c - q) * b == c * b - a;
  }

  /** CalculateStringSimilarity. */
  method CalculateStringSimilarity(s1: string, s2: string) returns (r: real)
    ensures r == Similarity(s1, s2)
  {
    if |s1| == 0 || |s2| == 0 {
      return 0.0;
    }
    if s1 == s2 {
      return 1.0;
    }
    var stepsToSame := ComputeLevenshteinDistance(s1, s2);
    r := 1.0 - (stepsToSame as real) / (Max(|s1|, |s2|) as real);
  }

  /** Length of the longest common suffix of `a[..i+1]` and `b[..j+1]`: the table cell. */
  function SuffixRun(a: string, b: string, i: nat, j: nat): (k: nat)
    requires i < |a| && j < |b|
    ensures k <= i + 1 && k <= j + 1
  {
    if a[i] != b[j] then 0
    else if i == 0 || j == 0 then 1
    else SuffixRun(a, b, i - 1, j - 1) + 1
  }

  /** Each cell is the length of a common substring ending at (i, j). */
  lemma {:induction false} SuffixRunCommon(a: string, b: string, i: nat, j: nat)
    requires i < |a| && j < |b|
    ensures var k := SuffixRun(a, b, i, j); a[i + 1 - k..i + 1] == b[j + 1 - k..j + 1]
  {
    if a[i] != b[j] {
      assert a[i + 1..i + 1] == [] == b[j + 1..j + 1];
    } else if i == 0 || j == 0 {
      assert a[i..i + 1] == [a[i]] && b[j..j + 1] == [b[j]];
    } else {
      SuffixRunCommon(a, b, i - 1, j - 1);
      var k := SuffixRun(a, b, i - 1, j - 1);
      assert SuffixRun(a, b, i, j) == k + 1;
      SliceSnoc(a, i - k, i);
      SliceSnoc(b, j - k, j);
    }
  }

  lemma SliceSnoc(s: string, lo: nat, hi: nat)
    requires lo <= hi < |s|
    ensures s[lo..hi + 1] == s[lo..hi] + [s[hi]]
  {
  }

  /** Every common substring of length L > 0 ending at (p + L - 1, q + L - 1) is seen by that cell. */
  lemma {:induction false} SuffixRunMaximal(a: string, b: string, p: nat, q: nat, L: nat)
    requires 0 < L && p + L <= |a| && q + L <= |b|
    requires a[p..p + L] == b[q..q + L]
    ensures SuffixRun(a, b, p + L - 1, q + L - 1) >= L
    decreases L
  {
    assert a[p + L - 1] == a[p..p + L][L - 1] == b[q..q + L][L - 1] == b[q + L - 1];
    if L > 1 {
      assert a[p..p + L - 1] == a[p..p + L][..L - 1];
      assert b[q..q + L - 1] == b[q..q + L][..L - 1];
      SuffixRunMaximal(a, b, p, q, L - 1);
    }
  }

  /** Cells `0..upto` of row `r` of the run table hold the suffix runs. */
  ghost predicate RunsDone(lengths: array2<int>, a: string, b: string, r: nat, upto: nat)
    reads lengths
    requires lengths.Length0 == |a| && lengths.Length1 == |b| && r < |a| && upto <= |b|
  {
    forall y :: 0 <= y < upto ==> lengths[r, y] == SuffixRun(a, b, r, y)
  }

  /** No run in the first `rows` rows is longer than `g`. */
  predicate RunsAtMost(a: string, b: string, rows: nat, g: int)
    requires rows <= |a|
  {
    forall x, y :: 0 <= x < rows && 0 <= y < |b| ==> SuffixRun(a, b, x, y) <= g
  }

  /** `g` is 0 or the length of some run. */
  predicate RunReached(a: string, b: string, g: int) {
    g == 0 || exists x, y :: 0 <= x < |a| && 0 <= y < |b| && SuffixRun(a, b, x, y) == g
  }

  /** LongestCommonSubstringLength: fills the |a| x |b| table of suffix runs and keeps the
      longest one seen, together with the substring it spells. */
  method LongestCommonSubstringLength(a: string, b: string) returns (r: int)
    ensures 0 <= r
    ensures forall i, j :: 0 <= i < |a| && 0 <= j < |b| ==> SuffixRun(a, b, i, j) <= r
    ensures r == 0 || exists i, j :: 0 <= i < |a| && 0 <= j < |b| && SuffixRun(a, b, i, j) == r
  {
    var lengths := new int[|a|, |b|];
    var greatestLength := 0;
    var output := "";
    var i := 0;
    while i < |a|
      invariant 0 <= i <= |a|
      invariant |output| == greatestLength
      invariant 0 < i ==> RunsDone(lengths, a, b, i - 1, |b|)
      invariant RunsAtMost(a, b, i, greatestLength) && RunReached(a, b, greatestLength)
    {
      greatestLength, output := FillRuns(lengths, a, b, i, greatestLength, output);
      i := i + 1;
    }
    assert RunsAtMost(a, b, |a|, greatestLength);
    r := |output|;
    if r != 0 {
      var x, y :| 0 <= x < |a| && 0 <= y < |b| && SuffixRun(a, b, x, y) == greatestLength;
      assert SuffixRun(a, b, x, y) == r;
    }
  }

  /** The inner loop: row `i` of the run table, left to right, keeping the longest run. */
  method FillRuns(lengths: array2<int>, a: string, b: string, i: nat, greatest: int, longest: string)
    returns (greatestLength: int, output: string)
    requires lengths.Length0 == |a| && lengths.Length1 == |b| && i < |a|
    requires 0 < i ==> RunsDone(lengths, a, b, i - 1, |b|)
    requires |longest| == greatest
    requires RunsAtMost(a, b, i, greatest) && RunReached(a, b, greatest)
    modifies lengths
    ensures RunsDone(lengths, a, b, i, |b|)
    ensures |output| == greatestLength
    ensures RunsAtMost(a, b, i + 1, greatestLength) && RunReached(a, b, greatestLength)
  {
    greatestLength, output := greatest, longest;
    var j := 0;
    while j < |b|
      invariant 0 <= j <= |b|
      invariant |output| == greatestLength
      invariant 0 < i ==> RunsDone(lengths, a, b, i - 1, |b|)
      invariant RunsDone(lengths, a, b, i, j)
      invariant RunsAtMost(a, b, i, greatestLength) && RunReached(a, b, greatestLength)
      invariant forall y :: 0 <= y < j ==> SuffixRun(a, b, i, y) <= greatestLength
    {
      if a[i] == b[j] {
        lengths[i, j] := if i == 0 || j == 0 then 1 else lengths[i - 1, j - 1] + 1;
        assert lengths[i, j] == SuffixRun(a, b, i, j);
        if lengths[i, j] > greatestLength {
          greatestLength := lengths[i, j];
          output := a[i - greatestLength + 1..i + 1];
        }
      } else {
        lengths[i, j] := 0;
      }
      j := j + 1;
    }
  }

  /** `a[p..p + L]` and `b[q..q + L]` are the same common substring. */
  predicate CommonAt(a: string, b: string, p: nat, q: nat, L: nat) {
    p + L <= |a| && q + L <= |b| && a[p..p + L] == b[q..q + L]
  }

  /** Under the contract of LongestCommonSubstringLength, the result is the length of a
      longest common substring: every common substring is at most that long, and one that
      long exists. */
  lemma LongestCommonSubstringMeaning(a: string, b: string, r: nat)
    requires forall i, j :: 0 <= i < |a| && 0 <= j < |b| ==> SuffixRun(a, b, i, j) <= r
    requires r == 0 || exists i, j :: 0 <= i < |a| && 0 <= j < |b| && SuffixRun(a, b, i, j) == r
    ensures forall p: nat, q: nat, L: nat :: 0 < L && CommonAt(a, b, p, q, L) ==> L <= r
    ensures exists p: nat, q: nat :: CommonAt(a, b, p, q, r)
  {
    forall p: nat, q: nat, L: nat | 0 < L && CommonAt(a, b, p, q, L)
      ensures L <= r
    {
      SuffixRunMaximal(a, b, p, q, L);
    }
    if r == 0 {
      assert CommonAt(a, b, 0, 0, 0);
    } else {
      var i, j :| 0 <= i < |a| && 0 <= j < |b| && SuffixRun(a, b, i, j) == r;
      SuffixRunCommon(a, b, i, j);
      assert CommonAt(a, b, i + 1 - r, j + 1 - r, r);
    }
  }
}
