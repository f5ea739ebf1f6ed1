/** Running the enabled steps of a fixed list, in list order: OutputProcessor.Execute and
    DumpProcessor.Execute both test one flag per step, in a fixed order, and run the steps
    whose flag is set. */
module Selection {

  /** The steps of `ws` whose flag in `on` is set, in order. */
  function Keep<T>(ws: seq<T>, on: seq<bool>): seq<T>
    requires |ws| == |on|
  {
    if ws == [] then [] else (if on[0] then [ws[0]] else []) + Keep(ws[1..], on[1..])
  }

  /** Every step whose flag is set is kept, and only those. */
  lemma {:induction false} KeepMeaning<T>(ws: seq<T>, on: seq<bool>)
    requires |ws| == |on|
    ensures forall k :: 0 <= k < |ws| && on[k] ==> ws[k] in Keep(ws, on)
    ensures forall w :: w in Keep(ws, on) ==> exists k :: 0 <= k < |ws| && on[k] && ws[k] == w
  {
    if ws != [] {
      KeepMeaning(ws[1..], on[1..]);
      forall k | 0 < k < |ws| && on[k] ensures ws[k] in Keep(ws, on) {
        assert ws[1..][k - 1] == ws[k] && on[1..][k - 1] == on[k];
      }
      forall w | w in Keep(ws[1..], on[1..]) ensures exists k :: 0 <= k < |ws| && on[k] && ws[k] == w {
        var k :| 0 <= k < |ws[1..]| && on[1..][k] && ws[1..][k] == w;
        assert on[k + 1] && ws[k + 1] == w;
      }
    }
  }

  /** Testing one more flag at the end adds its step, if set, at the end. */
  lemma {:induction false} KeepSnoc<T>(ws: seq<T>, on: seq<bool>, w: T, b: bool)
    requires |ws| == |on|
    ensures Keep(ws + [w], on + [b]) == Keep(ws, on) + (if b then [w] else [])
  {
    if ws == [] {
      assert ws + [w] == [w] && on + [b] == [b];
      assert Keep([w], [b]) == (if b then [w] else []) + Keep([w][1..], [b][1..]);
    } else {
      assert (ws + [w])[1..] == ws[1..] + [w] && (on + [b])[1..] == on[1..] + [b];
      KeepSnoc(ws[1..], on[1..], w, b);
    }
  }

  /** Steps listed in strictly rising rank. */
  predicate Rising<T>(ws: seq<T>, rank: T -> nat)
  {
    forall i, j :: 0 <= i < j < |ws| ==> rank(ws[i]) < rank(ws[j])
  }

  lemma ConsRising<T>(x: T, rest: seq<T>, rank: T -> nat)
    requires Rising(rest, rank)
    requires forall w :: w in rest ==> rank(x) < rank(w)
    ensures Rising([x] + rest, rank)
  {
    var p := [x] + rest;
    forall i, j | 0 <= i < j < |p| ensures rank(p[i]) < rank(p[j]) {
      assert p[j] == rest[j - 1];
      if i == 0 {
        assert p[j] in rest;
      } else {
        assert p[i] == rest[i - 1];
      }
    }
  }

  lemma HeadBelowKept<T>(ws: seq<T>, on: seq<bool>, rank: T -> nat)
    requires |ws| == |on| && ws != []
    requires Rising(ws, rank)
    ensures forall w :: w in Keep(ws[1..], on[1..]) ==> rank(ws[0]) < rank(w)
  {
    KeepMeaning(ws[1..], on[1..]);
    forall w | w in Keep(ws[1..], on[1..]) ensures rank(ws[0]) < rank(w) {
      var k :| 0 <= k < |ws[1..]| && on[1..][k] && ws[1..][k] == w;
      assert ws[k + 1] == w;
    }
  }

  /** When each step's rank is its position, a step is kept exactly when its own flag is
      set, and the kept steps stay in rank order. */
  lemma KeepByRank<T>(ws: seq<T>, on: seq<bool>, rank: T -> nat)
    requires |ws| == |on|
    requires forall k :: 0 <= k < |ws| ==> rank(ws[k]) == k
    ensures forall k :: 0 <= k < |ws| ==> (ws[k] in Keep(ws, on) <==> on[k])
    ensures Rising(Keep(ws, on), rank)
  {
    KeepMeaning(ws, on);
    forall k | 0 <= k < |ws| && ws[k] in Keep(ws, on) ensures on[k] {
      var j :| 0 <= j < |ws| && on[j] && ws[j] == ws[k];
      assert rank(ws[j]) == j;
    }
    KeepRising(ws, on, rank);
  }

  /** Keeping some steps of a rank-ordered list never reorders them. */
  lemma {:induction false} KeepRising<T>(ws: seq<T>, on: seq<bool>, rank: T -> nat)
    requires |ws| == |on|
    requires Rising(ws, rank)
    ensures Rising(Keep(ws, on), rank)
  {
    if ws != [] {
      var rest := Keep(ws[1..], on[1..]);
      assert Rising(ws[1..], rank) by {
        forall i, j | 0 <= i < j < |ws[1..]| ensures rank(ws[1..][i]) < rank(ws[1..][j]) {
          assert ws[1..][i] == ws[i + 1] && ws[1..][j] == ws[j + 1];
        }
      }
      KeepRising(ws[1..], on[1..], rank);
      if on[0] {
        HeadBelowKept(ws, on, rank);
        ConsRising(ws[0], rest, rank);
      } else {
        assert Keep(ws, on) == rest;
      }
    }
  }
}
