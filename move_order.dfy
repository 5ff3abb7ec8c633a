// The move orderer: every legal move is scored 100 for a capture plus 50 for
// a move that leaves the opponent in check, in a table that defaults to 0;
// the legal moves are then sorted by descending score with a stable sort, so
// that moves with equal scores keep the rules library's enumeration order.

module MoveOrder {
  import opened Chess

  /** A lookup in a table that defaults to 0 for a missing key. */
  function Lookup<M>(scores: map<M, int>, m: M): (k: int)
    ensures m !in scores ==> k == 0
  {
    if m in scores then scores[m] else 0
  }

  /** What one scan of move m adds to its score. */
  function MoveKey<P, M>(rules: Rules<P, M>, p: P, m: M): (k: int)
    ensures k == 0 || k == 50 || k == 100 || k == 150
    ensures k >= 100 <==> rules.isCapture(p, m)
    ensures k % 100 == 50 <==> rules.isCheck(rules.after(p, m))
  {
    (if rules.isCapture(p, m) then 100 else 0) + (if rules.isCheck(rules.after(p, m)) then 50 else 0)
  }

  /** One pass of the scoring loop over move m. */
  function Scan<P, M>(rules: Rules<P, M>, p: P, scores: map<M, int>, m: M): map<M, int>
  {
    var scored := if rules.isCapture(p, m) then scores[m := Lookup(scores, m) + 100] else scores;
    if rules.isCheck(rules.after(p, m)) then scored[m := Lookup(scored, m) + 50] else scored
  }

  /** The score table after scanning the moves in order, from an empty table. */
  function ScoreTable<P, M>(rules: Rules<P, M>, p: P, moves: seq<M>): map<M, int>
  {
    if moves == [] then map[] else Scan(rules, p, ScoreTable(rules, p, moves[..|moves| - 1]), moves[|moves| - 1])
  }

  /** A scan of m adds m's key to m's score and leaves every other score. */
  lemma ScanLookup<P, M>(rules: Rules<P, M>, p: P, scores: map<M, int>, m: M, n: M)
    ensures Lookup(Scan(rules, p, scores, m), n) == Lookup(scores, n) + (if n == m then MoveKey(rules, p, m) else 0)
  {
  }

  /** Each occurrence of a move in the scanned list adds its key once. */
  lemma {:induction false} ScoreTableCounts<P, M>(rules: Rules<P, M>, p: P, moves: seq<M>, m: M)
    ensures Lookup(ScoreTable(rules, p, moves), m) == multiset(moves)[m] * MoveKey(rules, p, m)
  {
    if moves != [] {
      var prefix, last := moves[..|moves| - 1], moves[|moves| - 1];
      assert moves == prefix + [last];
      ScoreTableCounts(rules, p, prefix, m);
      var before, k, c := ScoreTable(rules, p, prefix), MoveKey(rules, p, m), multiset(prefix)[m];
      assert ScoreTable(rules, p, moves) == Scan(rules, p, before, last);
      assert multiset(moves) == multiset(prefix) + multiset{last};
      ScanLookup(rules, p, before, last, m);
      if last == m {
        assert multiset(moves)[m] == c + 1;
        assert Lookup(ScoreTable(rules, p, moves), m) == c * k + k;
      } else {
        assert multiset(moves)[m] == c;
      }
    }
  }

  ghost predicate Distinct<M>(s: seq<M>)
  {
    forall i, j :: 0 <= i < j < |s| ==> s[i] != s[j]
  }

  lemma {:induction false} DistinctOccursOnce<M>(s: seq<M>, m: M)
    requires Distinct(s) && m in s
    ensures multiset(s)[m] == 1
  {
    var prefix, last := s[..|s| - 1], s[|s| - 1];
    assert s == prefix + [last];
    if last == m {
      assert m !in prefix;
    } else {
      assert m in prefix;
      DistinctOccursOnce(prefix, m);
    }
  }

  /** The rules library lists every legal move once, so each legal move's
      score is its own key: one of 0, 50, 100 and 150. */
  lemma LegalMoveScore<P, M>(rules: Rules<P, M>, p: P, m: M)
    requires Distinct(rules.legalMoves(p)) && m in rules.legalMoves(p)
    ensures Lookup(ScoreTable(rules, p, rules.legalMoves(p)), m) == MoveKey(rules, p, m)
    ensures Lookup(ScoreTable(rules, p, rules.legalMoves(p)), m) in {0, 50, 100, 150}
  {
    ScoreTableCounts(rules, p, rules.legalMoves(p), m);
    DistinctOccursOnce(rules.legalMoves(p), m);
  }

  /** Non-increasing by score. */
  ghost predicate SortedDesc<M>(s: seq<M>, scores: map<M, int>)
  {
    forall i, j :: 0 <= i < j < |s| ==> Lookup(scores, s[i]) >= Lookup(scores, s[j])
  }

  /** The moves of s whose score is v, in the order of s. */
  function WithScore<M>(s: seq<M>, scores: map<M, int>, v: int): seq<M>
  {
    if s == [] then []
    else (if Lookup(scores, s[0]) == v then [s[0]] else []) + WithScore(s[1..], scores, v)
  }

  lemma WithScoreCons<M>(y: M, s: seq<M>, scores: map<M, int>, v: int)
    ensures WithScore([y] + s, scores, v) == (if Lookup(scores, y) == v then [y] else []) + WithScore(s, scores, v)
  {
    assert ([y] + s)[0] == y && ([y] + s)[1..] == s;
  }

  lemma {:induction false} WithScoreAppend<M>(s: seq<M>, t: seq<M>, scores: map<M, int>, v: int)
    ensures WithScore(s + t, scores, v) == WithScore(s, scores, v) + WithScore(t, scores, v)
  {
    if s == [] {
      assert s + t == t;
    } else {
      assert s + t == [s[0]] + (s[1..] + t);
      WithScoreCons(s[0], s[1..] + t, scores, v);
      WithScoreAppend(s[1..], t, scores, v);
    }
  }

  lemma {:induction false} WithScoreNone<M>(s: seq<M>, scores: map<M, int>, v: int)
    requires forall i :: 0 <= i < |s| ==> Lookup(scores, s[i]) < v
    ensures WithScore(s, scores, v) == []
  {
    if s != [] {
      WithScoreNone(s[1..], scores, v);
    }
  }

  /** Insert x after every element whose score is at least x's. */
  function InsertDesc<M>(x: M, r: seq<M>, scores: map<M, int>): (s: seq<M>)
    ensures multiset(s) == multiset(r) + multiset{x}
  {
    if r == [] then [x]
    else if Lookup(scores, r[0]) >= Lookup(scores, x) then
      assert r == [r[0]] + r[1..];
      [r[0]] + InsertDesc(x, r[1..], scores)
    else [x] + r
  }

  /** The library's stable sort, descending by score. */
  function SortDesc<M>(s: seq<M>, scores: map<M, int>): seq<M>
  {
    if s == [] then [] else InsertDesc(s[|s| - 1], SortDesc(s[..|s| - 1], scores), scores)
  }

  /** A head scoring at least every element of a sorted list keeps it sorted. */
  lemma SortedCons<M>(h: M, rest: seq<M>, scores: map<M, int>)
    requires SortedDesc(rest, scores)
    requires forall i :: 0 <= i < |rest| ==> Lookup(scores, rest[i]) <= Lookup(scores, h)
    ensures SortedDesc([h] + rest, scores)
  {
    var s := [h] + rest;
    forall i, j | 0 <= i < j < |s|
      ensures Lookup(scores, s[i]) >= Lookup(scores, s[j])
    {
      assert s[j] == rest[j - 1];
      if i > 0 {
        assert s[i] == rest[i - 1];
      }
    }
  }

  lemma {:induction false} InsertDescSorted<M>(x: M, r: seq<M>, scores: map<M, int>)
    requires SortedDesc(r, scores)
    ensures SortedDesc(InsertDesc(x, r, scores), scores)
  {
    if r == [] {
    } else if Lookup(scores, r[0]) >= Lookup(scores, x) {
      var rest := InsertDesc(x, r[1..], scores);
      SortedTail(r, scores);
      InsertDescSorted(x, r[1..], scores);
      forall i | 0 <= i < |rest|
        ensures Lookup(scores, rest[i]) <= Lookup(scores, r[0])
      {
        assert rest[i] in multiset(rest);
        assert rest[i] == x || rest[i] in multiset(r[1..]);
        if rest[i] != x {
          var k :| 0 <= k < |r[1..]| && r[1..][k] == rest[i];
          assert r[1..][k] == r[k + 1];
        }
      }
      SortedCons(r[0], rest, scores);
    } else {
      SortedTail(r, scores);
      SortedCons(x, r, scores);
    }
  }

  lemma AppendAssociative<T>(a: seq<T>, b: seq<T>, c: seq<T>)
    ensures a + (b + c) == (a + b) + c
  {
  }

  lemma SortedTail<M>(r: seq<M>, scores: map<M, int>)
    requires r != [] && SortedDesc(r, scores)
    ensures SortedDesc(r[1..], scores)
    ensures forall i :: 0 <= i < |r| ==> Lookup(scores, r[i]) <= Lookup(scores, r[0])
  {
    forall i, j | 0 <= i < j < |r[1..]| ensures Lookup(scores, r[1..][i]) >= Lookup(scores, r[1..][j]) {
      assert r[1..][i] == r[i + 1] && r[1..][j] == r[j + 1];
    }
  }

  /** Inserting in front of a sorted list whose head scores less than x. */
  lemma InsertDescStableFront<M>(x: M, r: seq<M>, scores: map<M, int>, v: int)
    requires r != [] && SortedDesc(r, scores) && Lookup(scores, r[0]) < Lookup(scores, x)
    ensures WithScore(InsertDesc(x, r, scores), scores, v)
         == WithScore(r, scores, v) + (if Lookup(scores, x) == v then [x] else [])
  {
    assert InsertDesc(x, r, scores) == [x] + r;
    WithScoreCons(x, r, scores, v);
    if Lookup(scores, x) == v {
      forall i | 0 <= i < |r|
        ensures Lookup(scores, r[i]) < v
      {
        if i > 0 {
          assert Lookup(scores, r[0]) >= Lookup(scores, r[i]);
        }
      }
      WithScoreNone(r, scores, v);
      assert [x] + [] == [] + [x];
    }
  }

  lemma {:induction false} InsertDescStable<M>(x: M, r: seq<M>, scores: map<M, int>, v: int)
    requires SortedDesc(r, scores)
    ensures WithScore(InsertDesc(x, r, scores), scores, v)
         == WithScore(r, scores, v) + (if Lookup(scores, x) == v then [x] else [])
  {
    if r == [] {
      WithScoreCons(x, [], scores, v);
    } else if Lookup(scores, r[0]) >= Lookup(scores, x) {
      var head, tail := r[0], r[1..];
      var hs := if Lookup(scores, head) == v then [head] else [];
      var xs := if Lookup(scores, x) == v then [x] else [];
      SortedTail(r, scores);
      InsertDescStable(x, tail, scores, v);
      assert r == [head] + tail;
      WithScoreCons(head, tail, scores, v);
      assert InsertDesc(x, r, scores) == [head] + InsertDesc(x, tail, scores);
      WithScoreCons(head, InsertDesc(x, tail, scores), scores, v);
      AppendAssociative(hs, WithScore(tail, scores, v), xs);
    } else {
      InsertDescStableFront(x, r, scores, v);
    }
  }

  lemma {:induction false} SortDescPermutation<M>(s: seq<M>, scores: map<M, int>)
    ensures multiset(SortDesc(s, scores)) == multiset(s)
  {
    if s != [] {
      var prefix, last := s[..|s| - 1], s[|s| - 1];
      assert s == prefix + [last];
      SortDescPermutation(prefix, scores);
    }
  }

  lemma {:induction false} SortDescSorted<M>(s: seq<M>, scores: map<M, int>)
    ensures SortedDesc(SortDesc(s, scores), scores)
  {
    if s != [] {
      SortDescSorted(s[..|s| - 1], scores);
      InsertDescSorted(s[|s| - 1], SortDesc(s[..|s| - 1], scores), scores);
    }
  }

  lemma {:induction false} SortDescStable<M>(s: seq<M>, scores: map<M, int>, v: int)
    ensures WithScore(SortDesc(s, scores), scores, v) == WithScore(s, scores, v)
  {
    if s != [] {
      var prefix, last := s[..|s| - 1], s[|s| - 1];
      assert s == prefix + [last];
      SortDescStable(prefix, scores, v);
      SortDescSorted(prefix, scores);
      InsertDescStable(last, SortDesc(prefix, scores), scores, v);
      WithScoreAppend(prefix, [last], scores, v);
      WithScoreCons(last, [], scores, v);
      assert [last] + [] == [last];
    }
  }

  /** Sorting keeps every move, orders them by non-increasing score, and keeps
      the input order among moves of equal score (the sort is stable). */
  lemma SortDescCorrect<M>(s: seq<M>, scores: map<M, int>)
    ensures multiset(SortDesc(s, scores)) == multiset(s)
    ensures SortedDesc(SortDesc(s, scores), scores)
    ensures forall v :: WithScore(SortDesc(s, scores), scores, v) == WithScore(s, scores, v)
  {
    SortDescPermutation(s, scores);
    SortDescSorted(s, scores);
    forall v ensures WithScore(SortDesc(s, scores), scores, v) == WithScore(s, scores, v) {
      SortDescStable(s, scores, v);
    }
  }

  /** orderMoves: the legal moves sorted by the scores of one scan. */
  function OrderedMoves<P, M(==)>(rules: Rules<P, M>, p: P): seq<M>
  {
    SortDesc(rules.legalMoves(p), ScoreTable(rules, p, rules.legalMoves(p)))
  }

  /** With the legal moves listed once each, the ordered list runs by
      non-increasing key: captures that check, then captures, then checks,
      then quiet moves. */
  lemma OrderedByKey<P, M>(rules: Rules<P, M>, p: P)
    requires Distinct(rules.legalMoves(p))
    ensures forall i, j :: 0 <= i < j < |OrderedMoves(rules, p)| ==>
              MoveKey(rules, p, OrderedMoves(rules, p)[i]) >= MoveKey(rules, p, OrderedMoves(rules, p)[j])
  {
    var legal := rules.legalMoves(p);
    var scores := ScoreTable(rules, p, legal);
    var ordered := OrderedMoves(rules, p);
    SortDescCorrect(legal, scores);
    forall k | 0 <= k < |ordered|
      ensures Lookup(scores, ordered[k]) == MoveKey(rules, p, ordered[k])
    {
      assert ordered[k] in multiset(ordered);
      LegalMoveScore(rules, p, ordered[k]);
    }
  }
}
