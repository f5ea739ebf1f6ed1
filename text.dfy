/** String primitives shared by the normalisers, parsers and the author splitter.
    Each function models one .NET string or regex operation the importer uses;
    characters are Unicode scalar values, case mapping and whitespace are ASCII. */
module Text {

  /** `char.IsWhiteSpace` and the regex class `\s`, restricted to ASCII. */
  predicate IsSpace(c: char) {
    c == ' ' || c == '\t' || c == '\n' || c == '\U{B}' || c == '\U{C}' || c == '\r'
  }

  predicate IsUpper(c: char) { 'A' <= c <= 'Z' }

  function LowerChar(c: char): (d: char)
    ensures !IsUpper(d)
    ensures IsUpper(c) ==> d as int == c as int + 32
    ensures !IsUpper(c) ==> d == c
  {
    if IsUpper(c) then (c as int + 32) as char else c
  }

  /** `ToLower()` under an ASCII culture. */
  function Lower(s: string): (r: string)
    ensures |r| == |s|
    ensures forall i :: 0 <= i < |s| ==> r[i] == LowerChar(s[i])
  {
    seq(|s|, i requires 0 <= i < |s| => LowerChar(s[i]))
  }

  lemma LowerAppend(x: string, y: string)
    ensures Lower(x + y) == Lower(x) + Lower(y)
  {
  }

  predicate NoUpper(s: string) {
    forall i :: 0 <= i < |s| ==> !IsUpper(s[i])
  }

  /** Every character of `r` is a character of `s` or a plain space. */
  ghost predicate CharsFrom(r: string, s: string) {
    forall c :: c in r ==> c in s || c == ' '
  }

  lemma CharsFromTrans(r: string, s: string, t: string)
    requires CharsFrom(r, s) && CharsFrom(s, t)
    ensures CharsFrom(r, t)
  {
  }

  /** `Replace(c, ' ')` for every `c` in `cs`. */
  function SpaceOut(s: string, cs: set<char>): (r: string)
    ensures |r| == |s|
    ensures forall i :: 0 <= i < |s| ==> r[i] == (if s[i] in cs then ' ' else s[i])
    ensures CharsFrom(r, s)
    ensures ' ' !in cs ==> forall c :: c in r ==> c !in cs
  {
    var r := seq(|s|, i requires 0 <= i < |s| => if s[i] in cs then ' ' else s[i]);
    assert forall c :: c in r ==> c in s || c == ' ' by {
      forall c | c in r ensures c in s || c == ' ' {
        var i :| 0 <= i < |r| && r[i] == c;
      }
    }
    r
  }

  /** `Replace(a, b)` on characters. */
  function ReplaceChar(s: string, a: char, b: char): (r: string)
    ensures |r| == |s|
    ensures forall i :: 0 <= i < |s| ==> r[i] == (if s[i] == a then b else s[i])
  {
    seq(|s|, i requires 0 <= i < |s| => if s[i] == a then b else s[i])
  }

  /** `Replace("x", "")` for every `x` in `cs`. */
  function RemoveChars(s: string, cs: set<char>): (r: string)
    ensures |r| <= |s|
    ensures forall c :: c in r ==> c in s && c !in cs
  {
    if s == [] then [] else (if s[0] in cs then [] else [s[0]]) + RemoveChars(s[1..], cs)
  }

  lemma {:induction false} RemoveCharsAppend(a: string, b: string, cs: set<char>)
    ensures RemoveChars(a + b, cs) == RemoveChars(a, cs) + RemoveChars(b, cs)
  {
    if a != [] {
      assert (a + b)[1..] == a[1..] + b;
      RemoveCharsAppend(a[1..], b, cs);
    } else {
      assert a + b == b;
    }
  }

  /** `Regex.Replace(s, @"\s+", String.Empty)`. */
  function RemoveSpaces(s: string): (r: string)
    ensures |r| <= |s|
    ensures forall c :: c in r ==> c in s && !IsSpace(c)
  {
    if s == [] then [] else (if IsSpace(s[0]) then [] else [s[0]]) + RemoveSpaces(s[1..])
  }

  /** `s.Contains(w)` (ordinal). */
  predicate Contains(s: string, w: string)
    decreases |s|
  {
    w <= s || (|s| > 0 && Contains(s[1..], w))
  }

  lemma {:induction false} ContainsAt(s: string, w: string, k: nat)
    requires k + |w| <= |s| && s[k..k + |w|] == w
    ensures Contains(s, w)
  {
    if k > 0 {
      assert s[1..][k - 1..k - 1 + |w|] == w;
      ContainsAt(s[1..], w, k - 1);
    }
  }

  lemma {:induction false} ContainsWitness(s: string, w: string) returns (k: nat)
    requires Contains(s, w)
    ensures k + |w| <= |s| && s[k..k + |w|] == w
  {
    if w <= s {
      k := 0;
    } else {
      var j := ContainsWitness(s[1..], w);
      k := j + 1;
      assert s[k..k + |w|] == s[1..][j..j + |w|];
    }
  }

  lemma ContainsEmpty(s: string)
    ensures Contains(s, "")
  {
  }

  lemma {:induction false} ContainsInSlice(s: string, a: nat, b: nat, w: string)
    requires a <= b <= |s| && Contains(s[a..b], w)
    ensures Contains(s, w)
  {
    var k := ContainsWitness(s[a..b], w);
    assert k + |w| <= b - a;
    forall i | 0 <= i < |w| ensures s[a + k + i] == w[i] {
      assert s[a..b][k + i] == w[i];
    }
    assert s[a + k..a + k + |w|] == w;
    ContainsAt(s, w, a + k);
  }

  /** Number of leading whitespace characters. */
  function Lead(s: string): (n: nat)
    ensures n <= |s|
    ensures forall i :: 0 <= i < n ==> IsSpace(s[i])
    ensures n < |s| ==> !IsSpace(s[n])
  {
    if |s| > 0 && IsSpace(s[0]) then 1 + Lead(s[1..]) else 0
  }

  /** Number of trailing whitespace characters. */
  function Trail(s: string): (n: nat)
    ensures n <= |s|
    ensures forall i :: |s| - n <= i < |s| ==> IsSpace(s[i])
    ensures n < |s| ==> !IsSpace(s[|s| - n - 1])
  {
    if |s| > 0 && IsSpace(s[|s| - 1]) then 1 + Trail(s[..|s| - 1]) else 0
  }

  function TrimStart(s: string): (r: string)
    ensures r == s[Lead(s)..]
  {
    s[Lead(s)..]
  }

  function TrimEnd(s: string): (r: string)
    ensures r == s[..|s| - Trail(s)]
  {
    s[..|s| - Trail(s)]
  }

  predicate Trimmed(s: string) {
    s == [] || (!IsSpace(s[0]) && !IsSpace(s[|s| - 1]))
  }

  /** `Trim()`: the longest slice of `s` that neither starts nor ends with whitespace. */
  function Trim(s: string): (r: string)
    ensures Trimmed(r)
    ensures Lead(s) + |r| <= |s|
    ensures r == s[Lead(s)..Lead(s) + |r|]
    ensures forall i :: 0 <= i < Lead(s) ==> IsSpace(s[i])
    ensures forall i :: Lead(s) + |r| <= i < |s| ==> IsSpace(s[i])
    ensures forall c :: c in r ==> c in s
  {
    var t := TrimStart(s);
    var r := TrimEnd(t);
    assert r == s[Lead(s)..Lead(s) + |r|];
    assert forall i :: Lead(s) + |r| <= i < |s| ==> s[i] == t[i - Lead(s)];
    r
  }

  lemma TrimNoSpace(s: string)
    requires forall i :: 0 <= i < |s| ==> !IsSpace(s[i])
    ensures Trim(s) == s
  {
  }

  lemma Assoc<T>(x: seq<T>, y: seq<T>, z: seq<T>)
    ensures (x + y) + z == x + (y + z)
  {
  }

  /** `x` is a prefix of `x + y`, and what follows it is `y`. */
  lemma Affix<T>(x: seq<T>, y: seq<T>)
    ensures x <= x + y && (x + y)[|x|..] == y
  {
  }

  /** One leading whitespace character in front of a space-free string is all `Trim` removes. */
  lemma TrimOneLead(s: string)
    requires s != [] && IsSpace(s[0])
    requires forall i :: 1 <= i < |s| ==> !IsSpace(s[i])
    ensures Trim(s) == s[1..]
  {
    var t := s[1..];
    assert Lead(t) == 0 by {
      if t != [] {
        assert t[0] == s[1];
      }
    }
    assert Lead(s) == 1;
    assert Trail(t) == 0 by {
      if t != [] {
        assert t[|t| - 1] == s[|s| - 1];
      }
    }
    assert TrimStart(s) == t;
    assert TrimEnd(t) == t;
  }

  /** Whitespace only as single plain spaces. */
  predicate Collapsed(s: string) {
    && (forall i :: 0 <= i < |s| && IsSpace(s[i]) ==> s[i] == ' ')
    && (forall i, j :: 0 <= i < |s| && 0 <= j < |s| && j == i + 1 ==> !(IsSpace(s[i]) && IsSpace(s[j])))
  }

  lemma CollapsedSlice(s: string, a: nat, b: nat)
    requires a <= b <= |s| && Collapsed(s)
    ensures Collapsed(s[a..b])
  {
    var t := s[a..b];
    forall i | 0 <= i < |t| - 1
      ensures !(IsSpace(t[i]) && IsSpace(t[i + 1]))
    {
      assert t[i] == s[a + i] && t[i + 1] == s[a + i + 1];
    }
  }

  /** `Regex.Replace(s, @"\s+", " ")`: every run of whitespace becomes one space. */
  function Collapse(s: string): (r: string)
    ensures |r| <= |s|
    ensures Collapsed(r)
    ensures CharsFrom(r, s)
    ensures r != [] && s != [] ==> (IsSpace(r[0]) <==> IsSpace(s[0]))
    decreases |s|
  {
    if s == [] then []
    else if IsSpace(s[0]) then
      var rest := s[Lead(s)..];
      assert Lead(s) >= 1;
      var tail := Collapse(rest);
      assert rest != [] ==> !IsSpace(rest[0]);
      assert forall c :: c in tail ==> c in s || c == ' ' by {
        forall c | c in tail ensures c in s || c == ' ' {
          if c != ' ' {
            assert c in rest;
            var j :| 0 <= j < |rest| && rest[j] == c;
            assert s[Lead(s) + j] == c;
          }
        }
      }
      [' '] + tail
    else
      var tail := Collapse(s[1..]);
      assert forall c :: c in tail ==> c in s || c == ' ' by {
        forall c | c in tail ensures c in s || c == ' ' {
          if c != ' ' {
            assert c in s[1..];
          }
        }
      }
      [s[0]] + tail
  }

  /** `Regex.Replace(s, @"\s+", " ").Trim()`, the tail of most normalisers. */
  function Squeeze(s: string): (r: string)
    ensures Trimmed(r) && Collapsed(r)
    ensures CharsFrom(r, s)
  {
    var c := Collapse(s);
    var r := Trim(c);
    CollapsedSlice(c, Lead(c), Lead(c) + |r|);
    r
  }

  /** `Replace` of characters that do not occur changes nothing. */
  lemma {:induction false} RemoveCharsAbsent(s: string, cs: set<char>)
    requires forall i :: 0 <= i < |s| ==> s[i] !in cs
    ensures RemoveChars(s, cs) == s
  {
    if s != [] {
      RemoveCharsAbsent(s[1..], cs);
      assert [s[0]] + s[1..] == s;
    }
  }

  lemma SpaceOutAbsent(s: string, cs: set<char>)
    requires forall i :: 0 <= i < |s| ==> s[i] !in cs
    ensures SpaceOut(s, cs) == s
  {
  }

  /** Collapsing leaves an already collapsed string alone. */
  lemma {:induction false} CollapseCollapsed(s: string)
    requires Collapsed(s)
    ensures Collapse(s) == s
    decreases |s|
  {
    if s != [] {
      CollapsedSlice(s, 1, |s|);
      CollapseCollapsed(s[1..]);
      if IsSpace(s[0]) {
        assert Lead(s) == 1 by {
          if |s| > 1 {
            assert !IsSpace(s[1]);
          }
        }
      }
      assert [s[0]] + s[1..] == s;
    }
  }

  /** Squeeze is idempotent: its results are exactly the trimmed, collapsed strings. */
  lemma SqueezeFixed(s: string)
    requires Trimmed(s) && Collapsed(s)
    ensures Squeeze(s) == s
  {
    CollapseCollapsed(s);
    assert Lead(s) == 0 && Trail(s) == 0;
  }

  /** `String.Split(c)`: the pieces between occurrences of `c`, empty ones kept. */
  function Split(s: string, c: char): (r: seq<string>)
    ensures |r| >= 1
    ensures forall p :: p in r ==> c !in p
    ensures c !in s ==> r == [s]
    decreases |s|
  {
    if s == [] then [[]]
    else
      var rest := Split(s[1..], c);
      if s[0] == c then [[]] + rest
      else
        assert c !in s ==> [s[0]] + s[1..] == s;
        [[s[0]] + rest[0]] + rest[1..]
  }

  /** Every piece of a split is made of characters of the input. */
  lemma {:induction false} SplitWithin(s: string, c: char)
    ensures forall p :: p in Split(s, c) ==> forall ch :: ch in p ==> ch in s
    decreases |s|
  {
    if s != [] {
      SplitWithin(s[1..], c);
      var rest := Split(s[1..], c);
      assert forall ch :: ch in s[1..] ==> ch in s;
      if s[0] != c {
        var head := [s[0]] + rest[0];
        assert forall ch :: ch in head ==> ch == s[0] || ch in rest[0];
        assert Split(s, c) == [head] + rest[1..];
        forall p | p in Split(s, c) ensures forall ch :: ch in p ==> ch in s {
          if p != head {
            assert p in rest[1..];
            assert p in rest;
          } else {
            assert rest[0] in rest;
            assert s[0] in s;
          }
        }
      }
    }
  }

  function SumLen(ps: seq<string>): nat {
    if ps == [] then 0 else |ps[0]| + SumLen(ps[1..])
  }

  lemma {:induction false} SumLenAppend(a: seq<string>, b: seq<string>)
    ensures SumLen(a + b) == SumLen(a) + SumLen(b)
  {
    if a != [] {
      assert (a + b)[0] == a[0];
      assert (a + b)[1..] == a[1..] + b;
      SumLenAppend(a[1..], b);
    } else {
      assert a + b == b;
    }
  }

  lemma {:induction false} SumLenBounds(ps: seq<string>, p: string)
    requires p in ps
    ensures |p| <= SumLen(ps)
  {
    if ps[0] != p {
      SumLenBounds(ps[1..], p);
    }
  }

  /** Number of occurrences of `c` in `s`. */
  function Count(s: string, c: char): nat {
    if s == [] then 0 else (if s[0] == c then 1 else 0) + Count(s[1..], c)
  }

  lemma {:induction false} CountPositive(s: string, c: char)
    requires c in s
    ensures Count(s, c) > 0
  {
    if s[0] != c {
      CountPositive(s[1..], c);
    }
  }

  /** Splitting drops exactly the separators. */
  lemma {:induction false} SplitSumLen(s: string, c: char)
    ensures SumLen(Split(s, c)) + Count(s, c) == |s|
    decreases |s|
  {
    if s != [] {
      var rest := Split(s[1..], c);
      SplitSumLen(s[1..], c);
      if s[0] == c {
        assert Split(s, c)[1..] == rest;
      } else {
        var r := Split(s, c);
        assert r[1..] == rest[1..];
        assert SumLen(rest) == |rest[0]| + SumLen(rest[1..]);
      }
    }
  }

  /** `String.Join(sep, ps)`. */
  function Join(ps: seq<string>, sep: string): string {
    if ps == [] then [] else if |ps| == 1 then ps[0] else ps[0] + sep + Join(ps[1..], sep)
  }

  /** Splitting on a character and joining with it gives the string back. */
  lemma {:induction false} SplitJoin(s: string, c: char)
    ensures Join(Split(s, c), [c]) == s
    decreases |s|
  {
    if s != [] {
      var rest := Split(s[1..], c);
      SplitJoin(s[1..], c);
      SplitHead(s, c);
      if s[0] == c {
        JoinEmptyFirst(rest, [c], s[1..]);
      } else {
        JoinConsFirst(s[0], rest, [c], s[1..]);
      }
      HeadTail(s);
    }
  }

  /** One step of `Split`: the first character either closes an empty piece or starts the
      first piece. */
  lemma SplitHead(s: string, c: char)
    requires s != []
    ensures var rest := Split(s[1..], c);
      Split(s, c) == if s[0] == c then [[]] + rest else [[s[0]] + rest[0]] + rest[1..]
  {
  }

  lemma HeadTail<T>(s: seq<T>)
    requires s != []
    ensures [s[0]] + s[1..] == s
  {
  }

  /** An empty first piece contributes only the separator. */
  lemma JoinEmptyFirst(ps: seq<string>, sep: string, u: string)
    requires ps != [] && Join(ps, sep) == u
    ensures Join([[]] + ps, sep) == sep + u
  {
    JoinFirst([], ps, sep);
  }

  /** A character in front of the first piece comes out in front of the joined text. */
  lemma JoinConsFirst(x: char, ps: seq<string>, sep: string, u: string)
    requires ps != [] && Join(ps, sep) == u
    ensures Join([[x] + ps[0]] + ps[1..], sep) == [x] + u
  {
    var tail := if ps[1..] == [] then [] else sep + Join(ps[1..], sep);
    JoinFirst([x] + ps[0], ps[1..], sep);
    JoinFirst(ps[0], ps[1..], sep);
    assert [ps[0]] + ps[1..] == ps;
    Assoc([x], ps[0], tail);
  }

  /** The first piece, then the separator and the other pieces if there are any. */
  lemma JoinFirst(x: string, ps: seq<string>, sep: string)
    ensures Join([x] + ps, sep) == x + (if ps == [] then [] else sep + Join(ps, sep))
  {
    var qs := [x] + ps;
    if ps != [] {
      assert qs[1..] == ps;
      Assoc(x, sep, Join(ps, sep));
    }
  }

  function NonEmpty(ps: seq<string>): (r: seq<string>)
    ensures forall p :: p in r ==> p in ps && p != []
    ensures SumLen(r) == SumLen(ps)
  {
    if ps == [] then []
    else
      var head := if ps[0] == [] then [] else [ps[0]];
      var tail := NonEmpty(ps[1..]);
      SumLenAppend(head, tail);
      head + tail
  }

  /** `String.Split(c, StringSplitOptions.RemoveEmptyEntries)`. */
  function SplitNonEmpty(s: string, c: char): (r: seq<string>)
    ensures forall p :: p in r ==> p != [] && c !in p
  {
    NonEmpty(Split(s, c))
  }

  /** Splitting a string whose first piece is `a` peels `a` off. */
  lemma {:induction false} SplitAfterPiece(a: string, c: char, b: string)
    requires c !in a
    ensures Split(a + [c] + b, c) == [a] + Split(b, c)
    decreases |a|
  {
    if a == [] {
      assert a + [c] + b == [c] + b;
      assert ([c] + b)[1..] == b;
    } else {
      var t := [c] + b;
      SplitAfterPiece(a[1..], c, b);
      assert a[1..] + [c] + b == a[1..] + t && a + [c] + b == a + t;
      ConsPiece(a, t, Split(b, c), c);
    }
  }

  /** A piece that starts with a character other than the separator grows by that
      character at its front. */
  lemma ConsPiece(a: string, t: string, rest: seq<string>, c: char)
    requires a != [] && a[0] != c
    requires Split(a[1..] + t, c) == [a[1..]] + rest
    ensures Split(a + t, c) == [a] + rest
  {
    var u := a[1..] + t;
    SplitCons(a[0], u, c);
    assert ([a[1..]] + rest)[0] == a[1..] && ([a[1..]] + rest)[1..] == rest;
    assert [a[0]] + a[1..] == a;
    Assoc([a[0]], a[1..], t);
  }

  /** A character other than the separator joins the first piece. */
  lemma SplitCons(x: char, u: string, c: char)
    requires x != c
    ensures Split([x] + u, c) == [[x] + Split(u, c)[0]] + Split(u, c)[1..]
  {
    assert ([x] + u)[1..] == u;
  }

  lemma NonEmptyCons(p: string, ps: seq<string>)
    ensures NonEmpty([p] + ps) == (if p == [] then [] else [p]) + NonEmpty(ps)
  {
    assert ([p] + ps)[1..] == ps;
  }

  /** Trimming a trimmed string changes nothing. */
  lemma TrimTrimmed(s: string)
    requires Trimmed(s)
    ensures Trim(s) == s
  {
    assert Lead(s) == 0;
    assert Trail(s) == 0;
  }

  /** `PadRight(n)`. */
  function PadRight(s: string, n: nat): (r: string)
    ensures |r| == if |s| < n then n else |s|
    ensures r[..|s|] == s
    ensures forall i :: |s| <= i < |r| ==> r[i] == ' '
  {
    if |s| < n then s + seq(n - |s|, _ => ' ') else s
  }

  /** Ordinal `Replace(from, to)` on strings: left to right, non-overlapping. */
  function ReplaceAll(s: string, from: string, to: string): (r: string)
    requires from != []
    decreases |s|
  {
    if s == [] then []
    else if from <= s then to + ReplaceAll(s[|from|..], from, to)
    else [s[0]] + ReplaceAll(s[1..], from, to)
  }

  lemma {:induction false} ReplaceAllChars(s: string, from: string, to: string)
    requires from != []
    ensures forall c :: c in ReplaceAll(s, from, to) ==> c in s || c in to
    decreases |s|
  {
    if s != [] {
      if from <= s {
        ReplaceAllChars(s[|from|..], from, to);
      } else {
        ReplaceAllChars(s[1..], from, to);
      }
    }
  }

  /** A single-character replacement removes every occurrence of the replaced character. */
  lemma {:induction false} ReplaceAllCharGone(s: string, a: char, to: string)
    requires a !in to
    ensures a !in ReplaceAll(s, [a], to)
    decreases |s|
  {
    if s != [] {
      if [a] <= s {
        ReplaceAllCharGone(s[1..], a, to);
      } else {
        ReplaceAllCharGone(s[1..], a, to);
      }
    }
  }

  /** Replacing a string whose first character does not occur changes nothing. */
  lemma {:induction false} ReplaceAllAbsent(s: string, from: string, to: string)
    requires from != [] && from[0] !in s
    ensures ReplaceAll(s, from, to) == s
    decreases |s|
  {
    if s != [] {
      assert s[0] in s;
      ReplaceAllAbsent(s[1..], from, to);
      assert [s[0]] + s[1..] == s;
    }
  }

  /** A prefix without the first character of the replaced string passes through unchanged. */
  lemma {:induction false} ReplaceAllAfter(a: string, b: string, from: string, to: string)
    requires from != [] && from[0] !in a
    ensures ReplaceAll(a + b, from, to) == a + ReplaceAll(b, from, to)
    decreases |a|
  {
    if a != [] {
      assert a[0] in a && (a + b)[0] == a[0];
      assert !(from <= a + b);
      assert (a + b)[1..] == a[1..] + b;
      ReplaceAllAfter(a[1..], b, from, to);
      assert ReplaceAll(a + b, from, to) == [a[0]] + (a[1..] + ReplaceAll(b, from, to));
      assert [a[0]] + a[1..] == a;
    } else {
      assert a + b == b;
    }
  }
}
