/** InputProcessor.CleanAuthors as the loops the source runs: the pass over the diacritic
    table, the string-builder loop that spaces dots, and the work queue that splits and
    cleans entries. Each is proved equal to its specification in AuthorText. */
module AuthorQueue {
  import opened Text
  import opened Wrappers
  import opened AuthorText

  /** The index loop over the two tables. */
  method SubstituteDiacritics(authors: string) returns (r: string)
    ensures r == Substituted(authors, |From|)
  {
    TableLengths();
    r := authors;
    for i := 0 to |From|
      invariant r == Substituted(authors, i)
    {
      r := ReplaceChar(r, From[i], To[i]);
    }
  }

  /** Split on '.', then append each piece followed by "." or ". ", and the last piece. */
  method ReflowDots(q: string) returns (r: string)
    ensures r == SpaceDots(q)
  {
    var parts := Split(q, '.');
    r := BuildParts(parts);
    ReflowSplit(q);
  }

  /** The string-builder loop over the pieces. */
  method BuildParts(parts: seq<string>) returns (r: string)
    requires |parts| >= 1
    ensures r == Reflow(parts)
  {
    var tmp := "";
    var i := 0;
    while i < |parts| - 1
      invariant 0 <= i <= |parts| - 1
      invariant tmp + Reflow(parts[i..]) == Reflow(parts)
    {
      ReflowStep(parts, i, tmp);
      if parts[i + 1] != [] && parts[i + 1][0] == ' ' {
        tmp := tmp + (parts[i] + ".");
      } else {
        tmp := tmp + (parts[i] + ". ");
      }
      i := i + 1;
    }
    assert parts[i..] == [parts[i]];
    r := tmp + parts[i];
  }

  /** Reflow of the pieces from `i` on, unfolded once and regrouped for the builder. */
  lemma ReflowStep(parts: seq<string>, i: nat, tmp: string)
    requires i + 1 < |parts|
    ensures tmp + Reflow(parts[i..]) == (tmp + (parts[i] + Sep(parts[i + 1]))) + Reflow(parts[i + 1..])
  {
    assert parts[i..][1..] == parts[i + 1..];
  }

  /** One `if (ToLower().Contains(cond)) Regex.Replace(..., pat, "", IgnoreCase)` step. */
  method EraseIfPresent(q: string, cond: string, pat: seq<Sym>) returns (r: string)
    requires pat != []
    ensures r == StripStep(q, cond, pat)
  {
    r := q;
    if Contains(Lower(q), cond) {
      r := Erase(q, pat);
    }
  }

  /** The eleven erasures in source order. */
  method StripEntry(p: string) returns (q: string)
    ensures q == Strip(p)
  {
    q := EraseIfPresent(p, "- adaptation", Lits("- adaptation"));
    q := EraseIfPresent(q, "(translator)", [AnyChar] + Lits("translator") + [AnyChar]);
    q := EraseIfPresent(q, "- translator", Lits("- translator"));
    q := EraseIfPresent(q, "(editor)", [AnyChar] + Lits("editor") + [AnyChar]);
    q := EraseIfPresent(q, "dr. ", Lits("dr."));
    q := EraseIfPresent(q, "dr ", Lits("dr "));
    q := EraseIfPresent(q, "edited by", Lits("edited by"));
    q := EraseIfPresent(q, "- editor", Lits("- editor"));
    q := EraseIfPresent(q, "professor", Lits("professor"));
    q := EraseIfPresent(q, "prof.", Lits("prof."));
    q := EraseIfPresent(q, "sir", Lits("sir"));
  }

  /** The clean-up of one dequeued entry that is not split. */
  method CleanEntry(p: string) returns (e: Option<string>)
    ensures e == Clean(p)
  {
    if Contains(Lower(p), "phd") {
      return None;
    }
    var q := StripEntry(p);
    if Contains(Lower(q), "foreword") {
      return None;
    }
    if Contains(Lower(q), "introduction") {
      return None;
    }
    if '.' in q {
      q := ReflowDots(q);
    }
    e := Some(Trim(q));
  }

  lemma {:induction false} KeptSnoc(ps: seq<string>, p: string)
    ensures Kept(ps + [p]) == Kept(ps) + (if p == [] then [] else [Trim(p)])
    decreases |ps|
  {
    if ps == [] {
      assert ps + [p] == [p];
      assert [p][1..] == [];
    } else {
      assert (ps + [p])[1..] == ps[1..] + [p];
      KeptSnoc(ps[1..], p);
    }
  }

  /** Queue the trimmed non-empty pieces at the back, in order. */
  method Requeue(queue: seq<string>, pieces: seq<string>) returns (q: seq<string>)
    ensures q == queue + Kept(pieces)
  {
    q := queue;
    for j := 0 to |pieces|
      invariant q == queue + Kept(pieces[..j])
    {
      assert pieces[..j + 1] == pieces[..j] + [pieces[j]];
      KeptSnoc(pieces[..j], pieces[j]);
      if pieces[j] != [] {
        q := q + [Trim(pieces[j])];
      }
    }
    assert pieces[..|pieces|] == pieces;
  }

  /** InputProcessor.CleanAuthors: the preparation of the joined text, then the queue. */
  method CleanAuthors(authorsArray: seq<string>) returns (result: seq<string>)
    ensures result == CleanAuthorsSpec(authorsArray)
    ensures forall e :: e in result ==> Entry(e)
  {
    var authors := Join(authorsArray, ",");
    authors := JrFix(authors);
    authors := DropParens(authors);
    authors := SubstituteDiacritics(authors);
    var queue := SplitNonEmpty(authors, ',');
    result := DrainQueue(queue);
    DrainEntries(queue);
  }

  /** The work-queue loop: dequeue, split and requeue, or clean and add. */
  method DrainQueue(initial: seq<string>) returns (result: seq<string>)
    ensures result == Drain(initial)
  {
    var queue := initial;
    result := [];
    while queue != []
      invariant result + Drain(queue) == Drain(initial)
      decreases SumLen(queue), |queue|
    {
      ghost var whole := Drain(queue);
      DrainMeasure(queue);
      DrainStep(queue);
      var p := queue[0];
      queue := queue[1..];
      if Splits(p) {
        var pieces := if '&' in p then Split(p, '&') else SplitAnd(p);
        assert pieces == RawPieces(p);
        queue := Requeue(queue, pieces);
        assert Drain(queue) == whole;
      } else {
        var e := CleanEntry(p);
        if e.Some? {
          assert [e.value] + Drain(queue) == whole;
          Assoc(result, [e.value], Drain(queue));
          result := result + [e.value];
        } else {
          assert Drain(queue) == whole;
        }
      }
    }
  }

  /** One turn of the loop shrinks the queue's text, or keeps it and shortens the queue. */
  lemma DrainMeasure(queue: seq<string>)
    requires queue != []
    ensures Splits(queue[0]) ==> SumLen(queue[1..] + Pieces(queue[0])) < SumLen(queue)
    ensures SumLen(queue[1..]) <= SumLen(queue)
  {
    var p := queue[0];
    SumLenCons(p, queue[1..]);
    assert queue == [p] + queue[1..];
    if Splits(p) {
      PiecesShrink(p);
      SumLenAppend(queue[1..], Pieces(p));
    }
  }

  lemma DrainStep(queue: seq<string>)
    requires queue != []
    ensures Splits(queue[0]) ==> Drain(queue) == Drain(queue[1..] + Pieces(queue[0]))
    ensures !Splits(queue[0]) && Clean(queue[0]).Some? ==> Drain(queue) == [Clean(queue[0]).value] + Drain(queue[1..])
    ensures !Splits(queue[0]) && Clean(queue[0]).None? ==> Drain(queue) == Drain(queue[1..])
  {
  }
}
