// The alpha-beta search with its transposition table, as functions that
// thread the table through the search. The node that maximises is the one
// where the engine's colour is to move; every node scores from that colour's
// point of view. The table maps a position hash to the value last stored for
// it, with no depth or window recorded.

module AlphaBeta {
  import opened Chess
  import opened ExtReal
  import Evaluation
  import MoveOrder

  /** Starting value of a maximising node: float("-99999"). */
  const MaxStart: real := -99999.0
  /** Starting value of a minimising node: float("9999999999"). */
  const MinStart: real := 9999999999.0

  type Table = map<int, real>

  /** The value a search returns and the table it leaves behind. */
  datatype Outcome = Outcome(value: real, table: Table)

  /** The state of a node's loop over its moves: the running value, the
      window, the table, and the values of the children searched so far. */
  datatype Sweep = Sweep(value: real, alpha: Ext, beta: Ext, table: Table, explored: seq<real>)

  /** Python's max(a, b) and min(a, b) on floats. */
  function RMax(a: real, b: real): (m: real)
    ensures m >= a && m >= b && (m == a || m == b)
  {
    if b > a then b else a
  }

  function RMin(a: real, b: real): (m: real)
    ensures m <= a && m <= b && (m == a || m == b)
  {
    if b < a then b else a
  }

  /** engine(board, alpha, beta, depth). */
  function Search<P, M(==)>(rules: Rules<P, M>, color: Color, table: Table, p: P, alpha: Ext, beta: Ext, depth: nat): Outcome
    decreases depth, 1
  {
    if depth == 0 || rules.isGameOver(p) then
      Outcome(Evaluation.Evaluate(rules, color, p), table)
    else
      var h := rules.hash(p);
      if h in table then
        Outcome(table[h], table)
      else
        var isMax := rules.turn(p) == color;
        var start := if isMax then MaxStart else MinStart;
        var s := Explore(rules, color, p, MoveOrder.OrderedMoves(rules, p), isMax, depth, Sweep(start, alpha, beta, table, []));
        Outcome(s.value, s.table[h := s.value])
  }

  /** Searching one child and folding its value into the loop state. */
  function Step(s: Sweep, child: Outcome, isMax: bool): Sweep
  {
    if isMax then
      var value := RMax(s.value, child.value);
      Sweep(value, Max(s.alpha, Fin(value)), s.beta, child.table, s.explored + [child.value])
    else
      var value := RMin(s.value, child.value);
      Sweep(value, s.alpha, Min(s.beta, Fin(value)), child.table, s.explored + [child.value])
  }

  /** The loop of a node at `depth` over the remaining moves, stopping after the
      first child that brings beta down to alpha or below. */
  function Explore<P, M(==)>(rules: Rules<P, M>, color: Color, p: P, moves: seq<M>, isMax: bool, depth: nat, s: Sweep): Sweep
    requires depth > 0
    decreases depth, 0, |moves|
  {
    if moves == [] then s
    else
      var child := Search(rules, color, s.table, rules.after(p, moves[0]), s.alpha, s.beta, depth - 1);
      var next := Step(s, child, isMax);
      if Le(next.beta, next.alpha) then next
      else Explore(rules, color, p, moves[1..], isMax, depth, next)
  }

  /** One turn of a node's loop: search move i, fold its value in, and either
      stop at a cutoff or go on with the remaining moves. */
  lemma ExploreStep<P, M>(rules: Rules<P, M>, color: Color, p: P, moves: seq<M>, isMax: bool, depth: nat, s: Sweep, i: nat, child: Outcome)
    requires depth > 0 && i < |moves|
    requires child == Search(rules, color, s.table, rules.after(p, moves[i]), s.alpha, s.beta, depth - 1)
    ensures var next := Step(s, child, isMax);
            Explore(rules, color, p, moves[i..], isMax, depth, s)
              == if Le(next.beta, next.alpha) then next else Explore(rules, color, p, moves[i + 1..], isMax, depth, next)
  {
    assert moves[i..][0] == moves[i];
    assert moves[i..][1..] == moves[i + 1..];
  }

  // ---------------------------------------------------------------------
  // The loop, turn by turn

  /** The loop state after the first n turns of a node's loop with no cutoff
      test, where turn j folds in child(state before turn j, j). */
  function TraceWith(child: (Sweep, nat) -> Outcome, isMax: bool, s: Sweep, n: nat): Sweep
    decreases n
  {
    if n == 0 then s
    else
      var before := TraceWith(child, isMax, s, n - 1);
      Step(before, child(before, n - 1), isMax)
  }

  /** After n turns the loop has appended the n child values, in turn order. */
  lemma {:induction false} TraceWithExplored(child: (Sweep, nat) -> Outcome, isMax: bool, s: Sweep, n: nat)
    ensures |TraceWith(child, isMax, s, n).explored| == |s.explored| + n
    ensures forall j :: 0 <= j < n ==>
              TraceWith(child, isMax, s, n).explored[|s.explored| + j] == child(TraceWith(child, isMax, s, j), j).value
  {
    if n > 0 {
      TraceWithExplored(child, isMax, s, n - 1);
      var before := TraceWith(child, isMax, s, n - 1);
      assert TraceWith(child, isMax, s, n).explored == before.explored + [child(before, n - 1).value];
    }
  }

  /** At a maximising node beta never moves and alpha only rises; at a
      minimising node alpha never moves and beta only falls. */
  lemma {:induction false} TraceWithWindow(child: (Sweep, nat) -> Outcome, isMax: bool, s: Sweep, n: nat)
    ensures forall i :: 0 <= i <= n ==>
              var t := TraceWith(child, isMax, s, i);
              if isMax then t.beta == s.beta && Le(s.alpha, t.alpha) else t.alpha == s.alpha && Le(t.beta, s.beta)
    ensures forall i :: 0 < i <= n ==>
              var before, t := TraceWith(child, isMax, s, i - 1), TraceWith(child, isMax, s, i);
              if isMax then Le(before.alpha, t.alpha) else Le(t.beta, before.beta)
  {
    if n > 0 {
      TraceWithWindow(child, isMax, s, n - 1);
      var before := TraceWith(child, isMax, s, n - 1);
      var t := TraceWith(child, isMax, s, n);
      if isMax {
        LeTransitive(s.alpha, before.alpha, t.alpha);
      } else {
        LeTransitive(t.beta, before.beta, s.beta);
      }
    }
  }

  lemma LeTransitive(a: Ext, b: Ext, c: Ext)
    requires Le(a, b) && Le(b, c)
    ensures Le(a, c)
  {
  }

  /** The child searches of a node's loop: turn j searches the position after
      moves[j] from the table and the window the loop holds before it. */
  function Children<P, M(==)>(rules: Rules<P, M>, color: Color, p: P, moves: seq<M>, depth: nat): (Sweep, nat) -> Outcome
  {
    (t: Sweep, j: nat) =>
      if j < |moves| && depth > 0 then Search(rules, color, t.table, rules.after(p, moves[j]), t.alpha, t.beta, depth - 1)
      else Outcome(t.value, t.table)
  }

  /** The loop state of a node after its first n turns, with no cutoff test. */
  function Trace<P, M(==)>(rules: Rules<P, M>, color: Color, p: P, moves: seq<M>, isMax: bool, depth: nat, s: Sweep, n: nat): Sweep
  {
    TraceWith(Children(rules, color, p, moves, depth), isMax, s, n)
  }

  /** None of the first i turns left beta <= alpha. */
  ghost predicate NoCutoff<P, M>(rules: Rules<P, M>, color: Color, p: P, moves: seq<M>, isMax: bool, depth: nat, s: Sweep, i: nat)
  {
    i == 0 || (NoCutoff(rules, color, p, moves, isMax, depth, s, i - 1)
               && !Le(Trace(rules, color, p, moves, isMax, depth, s, i).beta, Trace(rules, color, p, moves, isMax, depth, s, i).alpha))
  }

  /** One turn of the trace, within the moves, is one turn of the loop. */
  lemma TraceNext<P, M>(rules: Rules<P, M>, color: Color, p: P, moves: seq<M>, isMax: bool, depth: nat, s: Sweep, i: nat)
    requires depth > 0 && i < |moves|
    ensures var before := Trace(rules, color, p, moves, isMax, depth, s, i);
            Trace(rules, color, p, moves, isMax, depth, s, i + 1)
              == Step(before, Search(rules, color, before.table, rules.after(p, moves[i]), before.alpha, before.beta, depth - 1), isMax)
  {
  }

  /** While no turn up to i has cut off, the loop is where the trace is. */
  lemma {:induction false} ExploreAsTrace<P, M>(rules: Rules<P, M>, color: Color, p: P, moves: seq<M>, isMax: bool, depth: nat, s: Sweep, i: nat)
    requires depth > 0 && i <= |moves|
    requires NoCutoff(rules, color, p, moves, isMax, depth, s, i)
    ensures Explore(rules, color, p, moves, isMax, depth, s)
         == Explore(rules, color, p, moves[i..], isMax, depth, Trace(rules, color, p, moves, isMax, depth, s, i))
  {
    if i == 0 {
      assert moves[0..] == moves;
    } else {
      ExploreAsTrace(rules, color, p, moves, isMax, depth, s, i - 1);
      var before := Trace(rules, color, p, moves, isMax, depth, s, i - 1);
      TraceNext(rules, color, p, moves, isMax, depth, s, i - 1);
      ExploreStep(rules, color, p, moves, isMax, depth, before, i - 1,
                  Search(rules, color, before.table, rules.after(p, moves[i - 1]), before.alpha, before.beta, depth - 1));
    }
  }

  /** The loop ends where the trace is after some number of turns. */
  lemma {:induction false} ExploreTraceFrom<P, M>(rules: Rules<P, M>, color: Color, p: P, moves: seq<M>, isMax: bool, depth: nat, s: Sweep, i: nat)
    returns (n: nat)
    requires depth > 0 && i <= |moves|
    requires NoCutoff(rules, color, p, moves, isMax, depth, s, i)
    ensures i <= n <= |moves|
    ensures Explore(rules, color, p, moves, isMax, depth, s) == Trace(rules, color, p, moves, isMax, depth, s, n)
    decreases |moves| - i
  {
    ExploreAsTrace(rules, color, p, moves, isMax, depth, s, i);
    if i == |moves| {
      n := i;
      assert moves[i..] == [];
    } else {
      var before := Trace(rules, color, p, moves, isMax, depth, s, i);
      var next := Trace(rules, color, p, moves, isMax, depth, s, i + 1);
      TraceNext(rules, color, p, moves, isMax, depth, s, i);
      ExploreStep(rules, color, p, moves, isMax, depth, before, i,
                  Search(rules, color, before.table, rules.after(p, moves[i]), before.alpha, before.beta, depth - 1));
      assert Explore(rules, color, p, moves[i..], isMax, depth, before)
          == if Le(next.beta, next.alpha) then next else Explore(rules, color, p, moves[i + 1..], isMax, depth, next);
      if Le(next.beta, next.alpha) {
        n := i + 1;
      } else {
        n := ExploreTraceFrom(rules, color, p, moves, isMax, depth, s, i + 1);
      }
    }
  }

  /** After n turns from an empty record, the trace has recorded n values,
      and value i is the search of the position after moves[i] from the table
      and the window held before turn i. */
  lemma TraceChildren<P, M>(rules: Rules<P, M>, color: Color, p: P, moves: seq<M>, isMax: bool, depth: nat, s: Sweep, n: nat)
    requires depth > 0 && n <= |moves| && s.explored == []
    ensures |Trace(rules, color, p, moves, isMax, depth, s, n).explored| == n
    ensures forall i :: 0 <= i < n ==>
              var t := Trace(rules, color, p, moves, isMax, depth, s, i);
              Trace(rules, color, p, moves, isMax, depth, s, n).explored[i]
                == Search(rules, color, t.table, rules.after(p, moves[i]), t.alpha, t.beta, depth - 1).value
  {
    var child := Children(rules, color, p, moves, depth);
    TraceWithExplored(child, isMax, s, n);
    forall i | 0 <= i < n
      ensures var t := Trace(rules, color, p, moves, isMax, depth, s, i);
              Trace(rules, color, p, moves, isMax, depth, s, n).explored[i]
                == Search(rules, color, t.table, rules.after(p, moves[i]), t.alpha, t.beta, depth - 1).value
    {
      var t := TraceWith(child, isMax, s, i);
      assert child(t, i) == Search(rules, color, t.table, rules.after(p, moves[i]), t.alpha, t.beta, depth - 1);
    }
  }

  /** A node's loop ends at its trace after as many turns as children it
      explored, and child i is the search of the position after moves[i], in
      move order, from the table and the window the loop held before turn i. */
  lemma ExploreChildren<P, M>(rules: Rules<P, M>, color: Color, p: P, moves: seq<M>, isMax: bool, depth: nat, s: Sweep)
    requires depth > 0 && s.explored == []
    ensures var f := Explore(rules, color, p, moves, isMax, depth, s);
            && |f.explored| <= |moves|
            && f == Trace(rules, color, p, moves, isMax, depth, s, |f.explored|)
            && (forall i :: 0 <= i < |f.explored| ==>
                  var t := Trace(rules, color, p, moves, isMax, depth, s, i);
                  f.explored[i] == Search(rules, color, t.table, rules.after(p, moves[i]), t.alpha, t.beta, depth - 1).value)
  {
    var n := ExploreTraceFrom(rules, color, p, moves, isMax, depth, s, 0);
    TraceChildren(rules, color, p, moves, isMax, depth, s, n);
  }

  /** The window along a node's loop, by TraceWithWindow. */
  lemma TraceWindow<P, M>(rules: Rules<P, M>, color: Color, p: P, moves: seq<M>, isMax: bool, depth: nat, s: Sweep, n: nat)
    ensures forall i :: 0 <= i <= n ==>
              var t := Trace(rules, color, p, moves, isMax, depth, s, i);
              if isMax then t.beta == s.beta && Le(s.alpha, t.alpha) else t.alpha == s.alpha && Le(t.beta, s.beta)
    ensures forall i :: 0 < i <= n ==>
              var before, t := Trace(rules, color, p, moves, isMax, depth, s, i - 1), Trace(rules, color, p, moves, isMax, depth, s, i);
              if isMax then Le(before.alpha, t.alpha) else Le(t.beta, before.beta)
  {
    TraceWithWindow(Children(rules, color, p, moves, depth), isMax, s, n);
  }

  // ---------------------------------------------------------------------
  // The transposition table

  /** t2 keeps every entry of t1 unchanged. */
  ghost predicate Extends(t1: Table, t2: Table)
  {
    forall k :: k in t1 ==> k in t2 && t2[k] == t1[k]
  }

  /** No entry present when the search starts is changed or removed (a node
      whose hash is present returns before writing); a node's own write may
      replace an entry that its subtree wrote under the same hash. An
      interior node that missed the table leaves its value under its hash. */
  lemma {:induction false} SearchTable<P, M>(rules: Rules<P, M>, color: Color, table: Table, p: P, alpha: Ext, beta: Ext, depth: nat)
    ensures Extends(table, Search(rules, color, table, p, alpha, beta, depth).table)
    ensures depth > 0 && !rules.isGameOver(p) && rules.hash(p) !in table ==>
              var r := Search(rules, color, table, p, alpha, beta, depth);
              rules.hash(p) in r.table && r.table[rules.hash(p)] == r.value
    decreases depth, 1
  {
    if depth > 0 && !rules.isGameOver(p) && rules.hash(p) !in table {
      var isMax := rules.turn(p) == color;
      var start := if isMax then MaxStart else MinStart;
      ExploreTable(rules, color, p, MoveOrder.OrderedMoves(rules, p), isMax, depth, Sweep(start, alpha, beta, table, []));
    }
  }

  lemma {:induction false} ExploreTable<P, M>(rules: Rules<P, M>, color: Color, p: P, moves: seq<M>, isMax: bool, depth: nat, s: Sweep)
    requires depth > 0
    ensures Extends(s.table, Explore(rules, color, p, moves, isMax, depth, s).table)
    decreases depth, 0, |moves|
  {
    if moves != [] {
      var child := Search(rules, color, s.table, rules.after(p, moves[0]), s.alpha, s.beta, depth - 1);
      SearchTable(rules, color, s.table, rules.after(p, moves[0]), s.alpha, s.beta, depth - 1);
      var next := Step(s, child, isMax);
      if !Le(next.beta, next.alpha) {
        ExploreTable(rules, color, p, moves[1..], isMax, depth, next);
      }
    }
  }

  /** At depth 0 or in a finished game the search is the evaluation, and the
      table is left as it was. */
  lemma SearchLeaf<P, M>(rules: Rules<P, M>, color: Color, table: Table, p: P, alpha: Ext, beta: Ext, depth: nat)
    requires depth == 0 || rules.isGameOver(p)
    ensures Search(rules, color, table, p, alpha, beta, depth) == Outcome(Evaluation.Evaluate(rules, color, p), table)
  {
  }

  /** A hit in the table returns the stored value, whatever the window and
      depth, and leaves the table as it was. */
  lemma SearchCached<P, M>(rules: Rules<P, M>, color: Color, table: Table, p: P, alpha: Ext, beta: Ext, depth: nat)
    requires depth > 0 && !rules.isGameOver(p) && rules.hash(p) in table
    ensures Search(rules, color, table, p, alpha, beta, depth) == Outcome(table[rules.hash(p)], table)
  {
  }

  /** Searching an interior position again, with the table the first search
      left, returns the same value (from the table) and changes nothing. */
  lemma SearchAgain<P, M>(rules: Rules<P, M>, color: Color, table: Table, p: P,
                              alpha: Ext, beta: Ext, depth: nat, alpha2: Ext, beta2: Ext, depth2: nat)
    requires depth > 0 && depth2 > 0 && !rules.isGameOver(p)
    ensures var first := Search(rules, color, table, p, alpha, beta, depth);
            Search(rules, color, first.table, p, alpha2, beta2, depth2) == first
  {
    SearchTable(rules, color, table, p, alpha, beta, depth);
  }

  // ---------------------------------------------------------------------
  // The value of a node

  /** The running maximum (minimum) after folding in the values xs, in order. */
  function SeqMax(start: real, xs: seq<real>): real
    decreases |xs|
  {
    if xs == [] then start else SeqMax(RMax(start, xs[0]), xs[1..])
  }

  function SeqMin(start: real, xs: seq<real>): real
    decreases |xs|
  {
    if xs == [] then start else SeqMin(RMin(start, xs[0]), xs[1..])
  }

  /** SeqMax is the maximum of the start value and the values; when no value
      exceeds the start, the start itself is the result. */
  lemma {:induction false} SeqMaxIsMaximum(start: real, xs: seq<real>)
    ensures SeqMax(start, xs) >= start
    ensures forall i :: 0 <= i < |xs| ==> xs[i] <= SeqMax(start, xs)
    ensures SeqMax(start, xs) == start || exists i :: 0 <= i < |xs| && SeqMax(start, xs) == xs[i]
    ensures (forall i :: 0 <= i < |xs| ==> xs[i] <= start) ==> SeqMax(start, xs) == start
    decreases |xs|
  {
    if xs != [] {
      SeqMaxIsMaximum(RMax(start, xs[0]), xs[1..]);
      var r := SeqMax(start, xs);
      if r != RMax(start, xs[0]) {
        var i :| 0 <= i < |xs[1..]| && r == xs[1..][i];
        assert r == xs[i + 1];
      }
      forall i | 0 <= i < |xs| ensures xs[i] <= r {
        if i > 0 { assert xs[i] == xs[1..][i - 1]; }
      }
    }
  }

  lemma {:induction false} SeqMinIsMinimum(start: real, xs: seq<real>)
    ensures SeqMin(start, xs) <= start
    ensures forall i :: 0 <= i < |xs| ==> xs[i] >= SeqMin(start, xs)
    ensures SeqMin(start, xs) == start || exists i :: 0 <= i < |xs| && SeqMin(start, xs) == xs[i]
    ensures (forall i :: 0 <= i < |xs| ==> xs[i] >= start) ==> SeqMin(start, xs) == start
    decreases |xs|
  {
    if xs != [] {
      SeqMinIsMinimum(RMin(start, xs[0]), xs[1..]);
      var r := SeqMin(start, xs);
      if r != RMin(start, xs[0]) {
        var i :| 0 <= i < |xs[1..]| && r == xs[1..][i];
        assert r == xs[i + 1];
      }
      forall i | 0 <= i < |xs| ensures xs[i] >= r {
        if i > 0 { assert xs[i] == xs[1..][i - 1]; }
      }
    }
  }

  lemma SliceCons(xs: seq<real>, k: nat, j: nat)
    requires k < j <= |xs|
    ensures xs[k..j] == [xs[k]] + xs[k + 1..j]
  {
  }

  lemma MaxAbsorbs(a: Ext, x: real, y: real)
    requires x <= y
    ensures Max(Max(a, Fin(x)), Fin(y)) == Max(a, Fin(y))
  {
  }

  lemma MinAbsorbs(b: Ext, x: real, y: real)
    requires x >= y
    ensures Min(Min(b, Fin(x)), Fin(y)) == Min(b, Fin(y))
  {
  }

  /** The loop of a maximising node explores the moves in order, at least one
      when there is one, and appends their values to what was explored
      before; beta stays as it was. */
  lemma {:induction false} ExploreMaxShape<P, M>(rules: Rules<P, M>, color: Color, p: P, moves: seq<M>, depth: nat, s: Sweep)
    requires depth > 0
    ensures var f := Explore(rules, color, p, moves, true, depth, s);
            var k := |s.explored|;
            && k <= |f.explored| <= k + |moves|
            && f.explored[..k] == s.explored
            && (moves != [] ==> |f.explored| > k)
            && f.beta == s.beta
    decreases |moves|
  {
    var k := |s.explored|;
    if moves != [] {
      var child := Search(rules, color, s.table, rules.after(p, moves[0]), s.alpha, s.beta, depth - 1);
      var next := Step(s, child, true);
      if !Le(next.beta, next.alpha) {
        var f := Explore(rules, color, p, moves[1..], true, depth, next);
        ExploreMaxShape(rules, color, p, moves[1..], depth, next);
        assert f.explored[..k] == f.explored[..k + 1][..k];
      }
    }
  }

  /** The value of a maximising loop is the running maximum of the children
      it explored; alpha only rises, to that value. */
  lemma {:induction false} ExploreMax<P, M>(rules: Rules<P, M>, color: Color, p: P, moves: seq<M>, depth: nat, s: Sweep)
    requires depth > 0
    ensures var f := Explore(rules, color, p, moves, true, depth, s);
            var k := |s.explored|;
            && k <= |f.explored|
            && f.value == SeqMax(s.value, f.explored[k..])
            && f.alpha == (if |f.explored| == k then s.alpha else Max(s.alpha, Fin(f.value)))
    decreases |moves|
  {
    var k := |s.explored|;
    ExploreMaxShape(rules, color, p, moves, depth, s);
    if moves != [] {
      var child := Search(rules, color, s.table, rules.after(p, moves[0]), s.alpha, s.beta, depth - 1);
      var next := Step(s, child, true);
      assert SeqMax(s.value, [child.value]) == next.value;
      if Le(next.beta, next.alpha) {
        assert next.explored[k..] == [child.value];
      } else {
        var f := Explore(rules, color, p, moves[1..], true, depth, next);
        ExploreMaxShape(rules, color, p, moves[1..], depth, next);
        ExploreMax(rules, color, p, moves[1..], depth, next);
        assert f.explored[k] == child.value by {
          assert f.explored[k] == f.explored[..k + 1][k];
        }
        SliceCons(f.explored, k, |f.explored|);
        SeqMaxIsMaximum(next.value, f.explored[k + 1..]);
        MaxAbsorbs(s.alpha, next.value, f.value);
      }
    }
  }

  /** One step of the no-early-cutoff argument of a maximising loop: if the
      first child (value xs[k]) did not cut off, and no later prefix did from
      the raised alpha, then no prefix did from the original alpha. */
  lemma MaxNoEarlyCutoff(value: real, alpha: Ext, beta: Ext, nextValue: real, xs: seq<real>, k: nat, k1: nat)
    requires k < |xs| && k1 == k + 1 && nextValue == RMax(value, xs[k])
    requires !Le(beta, Max(alpha, Fin(nextValue)))
    requires forall j :: k1 < j < |xs| ==> !Le(beta, Max(Max(alpha, Fin(nextValue)), Fin(SeqMax(nextValue, xs[k1..j]))))
    ensures forall j :: k < j < |xs| ==> !Le(beta, Max(alpha, Fin(SeqMax(value, xs[k..j]))))
  {
    forall j | k < j < |xs|
      ensures !Le(beta, Max(alpha, Fin(SeqMax(value, xs[k..j]))))
    {
      SliceCons(xs, k, j);
      var v := SeqMax(value, xs[k..j]);
      assert v == SeqMax(nextValue, xs[k + 1..j]);
      if j > k + 1 {
        SeqMaxIsMaximum(nextValue, xs[k + 1..j]);
        MaxAbsorbs(alpha, nextValue, v);
      }
    }
  }

  lemma MinNoEarlyCutoff(value: real, alpha: Ext, beta: Ext, nextValue: real, xs: seq<real>, k: nat, k1: nat)
    requires k < |xs| && k1 == k + 1 && nextValue == RMin(value, xs[k])
    requires !Le(Min(beta, Fin(nextValue)), alpha)
    requires forall j :: k1 < j < |xs| ==> !Le(Min(Min(beta, Fin(nextValue)), Fin(SeqMin(nextValue, xs[k1..j]))), alpha)
    ensures forall j :: k < j < |xs| ==> !Le(Min(beta, Fin(SeqMin(value, xs[k..j]))), alpha)
  {
    forall j | k < j < |xs|
      ensures !Le(Min(beta, Fin(SeqMin(value, xs[k..j]))), alpha)
    {
      SliceCons(xs, k, j);
      var v := SeqMin(value, xs[k..j]);
      assert v == SeqMin(nextValue, xs[k + 1..j]);
      if j > k + 1 {
        SeqMinIsMinimum(nextValue, xs[k + 1..j]);
        MinAbsorbs(beta, nextValue, v);
      }
    }
  }

  /** The loop of a maximising node stops early only at a cutoff, and at the
      FIRST child after which beta <= alpha. */
  lemma {:induction false} ExploreMaxCutoff<P, M>(rules: Rules<P, M>, color: Color, p: P, moves: seq<M>, depth: nat, s: Sweep)
    requires depth > 0
    ensures var f := Explore(rules, color, p, moves, true, depth, s);
            var k := |s.explored|;
            && (|f.explored| < k + |moves| ==> Le(f.beta, f.alpha))
            && (forall j :: k < j < |f.explored| ==> !Le(s.beta, Max(s.alpha, Fin(SeqMax(s.value, f.explored[k..j])))))
    decreases |moves|
  {
    var k := |s.explored|;
    if moves != [] {
      var child := Search(rules, color, s.table, rules.after(p, moves[0]), s.alpha, s.beta, depth - 1);
      var next := Step(s, child, true);
      if !Le(next.beta, next.alpha) {
        var f := Explore(rules, color, p, moves[1..], true, depth, next);
        ExploreMaxShape(rules, color, p, moves[1..], depth, next);
        ExploreMaxCutoff(rules, color, p, moves[1..], depth, next);
        assert f.explored[..k + 1] == next.explored;
        assert f.explored[k] == child.value by {
          assert f.explored[k] == f.explored[..k + 1][k];
        }
        MaxNoEarlyCutoff(s.value, s.alpha, s.beta, next.value, f.explored, k, k + 1);
      }
    }
  }

  /** The loop of a minimising node explores the moves in order, at least one
      when there is one, and appends their values to what was explored
      before; alpha stays as it was. */
  lemma {:induction false} ExploreMinShape<P, M>(rules: Rules<P, M>, color: Color, p: P, moves: seq<M>, depth: nat, s: Sweep)
    requires depth > 0
    ensures var f := Explore(rules, color, p, moves, false, depth, s);
            var k := |s.explored|;
            && k <= |f.explored| <= k + |moves|
            && f.explored[..k] == s.explored
            && (moves != [] ==> |f.explored| > k)
            && f.alpha == s.alpha
    decreases |moves|
  {
    var k := |s.explored|;
    if moves != [] {
      var child := Search(rules, color, s.table, rules.after(p, moves[0]), s.alpha, s.beta, depth - 1);
      var next := Step(s, child, false);
      if !Le(next.beta, next.alpha) {
        var f := Explore(rules, color, p, moves[1..], false, depth, next);
        ExploreMinShape(rules, color, p, moves[1..], depth, next);
        assert f.explored[..k] == f.explored[..k + 1][..k];
      }
    }
  }

  /** The value of a minimising loop is the running minimum of the children
      it explored; beta only falls, to that value. */
  lemma {:induction false} ExploreMin<P, M>(rules: Rules<P, M>, color: Color, p: P, moves: seq<M>, depth: nat, s: Sweep)
    requires depth > 0
    ensures var f := Explore(rules, color, p, moves, false, depth, s);
            var k := |s.explored|;
            && k <= |f.explored|
            && f.value == SeqMin(s.value, f.explored[k..])
            && f.beta == (if |f.explored| == k then s.beta else Min(s.beta, Fin(f.value)))
    decreases |moves|
  {
    var k := |s.explored|;
    ExploreMinShape(rules, color, p, moves, depth, s);
    if moves != [] {
      var child := Search(rules, color, s.table, rules.after(p, moves[0]), s.alpha, s.beta, depth - 1);
      var next := Step(s, child, false);
      assert SeqMin(s.value, [child.value]) == next.value;
      if Le(next.beta, next.alpha) {
        assert next.explored[k..] == [child.value];
      } else {
        var f := Explore(rules, color, p, moves[1..], false, depth, next);
        ExploreMinShape(rules, color, p, moves[1..], depth, next);
        ExploreMin(rules, color, p, moves[1..], depth, next);
        assert f.explored[k] == child.value by {
          assert f.explored[k] == f.explored[..k + 1][k];
        }
        SliceCons(f.explored, k, |f.explored|);
        SeqMinIsMinimum(next.value, f.explored[k + 1..]);
        MinAbsorbs(s.beta, next.value, f.value);
      }
    }
  }

  /** The loop of a minimising node stops early only at a cutoff, and at the
      FIRST child after which beta <= alpha. */
  lemma {:induction false} ExploreMinCutoff<P, M>(rules: Rules<P, M>, color: Color, p: P, moves: seq<M>, depth: nat, s: Sweep)
    requires depth > 0
    ensures var f := Explore(rules, color, p, moves, false, depth, s);
            var k := |s.explored|;
            && (|f.explored| < k + |moves| ==> Le(f.beta, f.alpha))
            && (forall j :: k < j < |f.explored| ==> !Le(Min(s.beta, Fin(SeqMin(s.value, f.explored[k..j]))), s.alpha))
    decreases |moves|
  {
    var k := |s.explored|;
    if moves != [] {
      var child := Search(rules, color, s.table, rules.after(p, moves[0]), s.alpha, s.beta, depth - 1);
      var next := Step(s, child, false);
      if !Le(next.beta, next.alpha) {
        var f := Explore(rules, color, p, moves[1..], false, depth, next);
        ExploreMinShape(rules, color, p, moves[1..], depth, next);
        ExploreMinCutoff(rules, color, p, moves[1..], depth, next);
        assert f.explored[..k + 1] == next.explored;
        assert f.explored[k] == child.value by {
          assert f.explored[k] == f.explored[..k + 1][k];
        }
        MinNoEarlyCutoff(s.value, s.alpha, s.beta, next.value, f.explored, k, k + 1);
      }
    }
  }

  // ---------------------------------------------------------------------
  // Whole nodes

  /** The value and cutoff half of MaxNode. */
  lemma MaxNodeValue<P, M>(rules: Rules<P, M>, color: Color, table: Table, p: P, alpha: Ext, beta: Ext, depth: nat)
    requires depth > 0 && !rules.isGameOver(p) && rules.hash(p) !in table && rules.turn(p) == color
    ensures var moves := MoveOrder.OrderedMoves(rules, p);
            var f := Explore(rules, color, p, moves, true, depth, Sweep(MaxStart, alpha, beta, table, []));
            var r := Search(rules, color, table, p, alpha, beta, depth);
            && r.value == f.value
            && |f.explored| <= |moves|
            && (moves != [] ==> |f.explored| >= 1)
            && r.value >= MaxStart
            && (forall i :: 0 <= i < |f.explored| ==> f.explored[i] <= r.value)
            && (r.value == MaxStart || exists i :: 0 <= i < |f.explored| && r.value == f.explored[i])
            && ((forall i :: 0 <= i < |f.explored| ==> f.explored[i] <= MaxStart) ==> r.value == MaxStart)
            && (|f.explored| < |moves| ==> Le(beta, Max(alpha, Fin(r.value))))
            && (forall j :: 0 < j < |f.explored| ==> !Le(beta, Max(alpha, Fin(SeqMax(MaxStart, f.explored[..j])))))
  {
    var moves := MoveOrder.OrderedMoves(rules, p);
    var s := Sweep(MaxStart, alpha, beta, table, []);
    var f := Explore(rules, color, p, moves, true, depth, s);
    ExploreMaxShape(rules, color, p, moves, depth, s);
    ExploreMax(rules, color, p, moves, depth, s);
    ExploreMaxCutoff(rules, color, p, moves, depth, s);
    assert f.explored[0..] == f.explored;
    SeqMaxIsMaximum(MaxStart, f.explored);
    forall j | 0 < j < |f.explored| ensures f.explored[0..j] == f.explored[..j] { }
  }
  /** The children half of MaxNode. */
  lemma MaxNodeTrace<P, M>(rules: Rules<P, M>, color: Color, table: Table, p: P, alpha: Ext, beta: Ext, depth: nat)
    requires depth > 0 && !rules.isGameOver(p) && rules.hash(p) !in table && rules.turn(p) == color
    ensures var moves := MoveOrder.OrderedMoves(rules, p);
            var s := Sweep(MaxStart, alpha, beta, table, []);
            var f := Explore(rules, color, p, moves, true, depth, s);
            && |f.explored| <= |moves|
            && f == Trace(rules, color, p, moves, true, depth, s, |f.explored|)
            && (forall i :: 0 <= i < |f.explored| ==>
                  var t := Trace(rules, color, p, moves, true, depth, s, i);
                  f.explored[i] == Search(rules, color, t.table, rules.after(p, moves[i]), t.alpha, t.beta, depth - 1).value)
            && (forall i :: 0 <= i <= |f.explored| ==>
                  Trace(rules, color, p, moves, true, depth, s, i).beta == beta && Le(alpha, Trace(rules, color, p, moves, true, depth, s, i).alpha))
            && (forall i :: 0 < i <= |f.explored| ==>
                  Le(Trace(rules, color, p, moves, true, depth, s, i - 1).alpha, Trace(rules, color, p, moves, true, depth, s, i).alpha))
  {
    var moves := MoveOrder.OrderedMoves(rules, p);
    var s := Sweep(MaxStart, alpha, beta, table, []);
    var f := Explore(rules, color, p, moves, true, depth, s);
    ExploreChildren(rules, color, p, moves, true, depth, s);
    TraceWindow(rules, color, p, moves, true, depth, s, |f.explored|);
  }

  /** A maximising interior node (the engine's colour to move, the hash not in
      the table) scores max(-99999, values of the children explored). Child i
      is the search of the position after the i-th ordered move, from the
      table and the window the loop holds before it; beta stays put and alpha
      only rises from the node's alpha. The loop stops at the first child
      after which beta <= alpha. When no explored child beats -99999, not even
      a mate score of -1e9 below it, the node scores -99999. */
  lemma MaxNode<P, M>(rules: Rules<P, M>, color: Color, table: Table, p: P, alpha: Ext, beta: Ext, depth: nat)
    requires depth > 0 && !rules.isGameOver(p) && rules.hash(p) !in table && rules.turn(p) == color
    ensures var moves := MoveOrder.OrderedMoves(rules, p);
            var f := Explore(rules, color, p, moves, true, depth, Sweep(MaxStart, alpha, beta, table, []));
            var r := Search(rules, color, table, p, alpha, beta, depth);
            && r.value == f.value
            && |f.explored| <= |moves|
            && (moves != [] ==> |f.explored| >= 1)
            && r.value >= MaxStart
            && (forall i :: 0 <= i < |f.explored| ==> f.explored[i] <= r.value)
            && (r.value == MaxStart || exists i :: 0 <= i < |f.explored| && r.value == f.explored[i])
            && ((forall i :: 0 <= i < |f.explored| ==> f.explored[i] <= MaxStart) ==> r.value == MaxStart)
            && (|f.explored| < |moves| ==> Le(beta, Max(alpha, Fin(r.value))))
            && (forall j :: 0 < j < |f.explored| ==> !Le(beta, Max(alpha, Fin(SeqMax(MaxStart, f.explored[..j])))))
    ensures var moves := MoveOrder.OrderedMoves(rules, p);
            var s := Sweep(MaxStart, alpha, beta, table, []);
            var f := Explore(rules, color, p, moves, true, depth, s);
            && |f.explored| <= |moves|
            && f == Trace(rules, color, p, moves, true, depth, s, |f.explored|)
            && (forall i :: 0 <= i < |f.explored| ==>
                  var t := Trace(rules, color, p, moves, true, depth, s, i);
                  f.explored[i] == Search(rules, color, t.table, rules.after(p, moves[i]), t.alpha, t.beta, depth - 1).value)
            && (forall i :: 0 <= i <= |f.explored| ==>
                  Trace(rules, color, p, moves, true, depth, s, i).beta == beta && Le(alpha, Trace(rules, color, p, moves, true, depth, s, i).alpha))
            && (forall i :: 0 < i <= |f.explored| ==>
                  Le(Trace(rules, color, p, moves, true, depth, s, i - 1).alpha, Trace(rules, color, p, moves, true, depth, s, i).alpha))
  {
    MaxNodeValue(rules, color, table, p, alpha, beta, depth);
    MaxNodeTrace(rules, color, table, p, alpha, beta, depth);
  }

  /** The value and cutoff half of MinNode. */
  lemma MinNodeValue<P, M>(rules: Rules<P, M>, color: Color, table: Table, p: P, alpha: Ext, beta: Ext, depth: nat)
    requires depth > 0 && !rules.isGameOver(p) && rules.hash(p) !in table && rules.turn(p) != color
    ensures var moves := MoveOrder.OrderedMoves(rules, p);
            var f := Explore(rules, color, p, moves, false, depth, Sweep(MinStart, alpha, beta, table, []));
            var r := Search(rules, color, table, p, alpha, beta, depth);
            && r.value == f.value
            && |f.explored| <= |moves|
            && (moves != [] ==> |f.explored| >= 1)
            && r.value <= MinStart
            && (forall i :: 0 <= i < |f.explored| ==> f.explored[i] >= r.value)
            && (r.value == MinStart || exists i :: 0 <= i < |f.explored| && r.value == f.explored[i])
            && (|f.explored| < |moves| ==> Le(Min(beta, Fin(r.value)), alpha))
            && (forall j :: 0 < j < |f.explored| ==> !Le(Min(beta, Fin(SeqMin(MinStart, f.explored[..j]))), alpha))
  {
    var moves := MoveOrder.OrderedMoves(rules, p);
    var s := Sweep(MinStart, alpha, beta, table, []);
    var f := Explore(rules, color, p, moves, false, depth, s);
    ExploreMinShape(rules, color, p, moves, depth, s);
    ExploreMin(rules, color, p, moves, depth, s);
    ExploreMinCutoff(rules, color, p, moves, depth, s);
    assert f.explored[0..] == f.explored;
    SeqMinIsMinimum(MinStart, f.explored);
    forall j | 0 < j < |f.explored| ensures f.explored[0..j] == f.explored[..j] { }
  }
  /** The children half of MinNode. */
  lemma MinNodeTrace<P, M>(rules: Rules<P, M>, color: Color, table: Table, p: P, alpha: Ext, beta: Ext, depth: nat)
    requires depth > 0 && !rules.isGameOver(p) && rules.hash(p) !in table && rules.turn(p) != color
    ensures var moves := MoveOrder.OrderedMoves(rules, p);
            var s := Sweep(MinStart, alpha, beta, table, []);
            var f := Explore(rules, color, p, moves, false, depth, s);
            && |f.explored| <= |moves|
            && f == Trace(rules, color, p, moves, false, depth, s, |f.explored|)
            && (forall i :: 0 <= i < |f.explored| ==>
                  var t := Trace(rules, color, p, moves, false, depth, s, i);
                  f.explored[i] == Search(rules, color, t.table, rules.after(p, moves[i]), t.alpha, t.beta, depth - 1).value)
            && (forall i :: 0 <= i <= |f.explored| ==>
                  Trace(rules, color, p, moves, false, depth, s, i).alpha == alpha && Le(Trace(rules, color, p, moves, false, depth, s, i).beta, beta))
            && (forall i :: 0 < i <= |f.explored| ==>
                  Le(Trace(rules, color, p, moves, false, depth, s, i).beta, Trace(rules, color, p, moves, false, depth, s, i - 1).beta))
  {
    var moves := MoveOrder.OrderedMoves(rules, p);
    var s := Sweep(MinStart, alpha, beta, table, []);
    var f := Explore(rules, color, p, moves, false, depth, s);
    ExploreChildren(rules, color, p, moves, false, depth, s);
    TraceWindow(rules, color, p, moves, false, depth, s, |f.explored|);
  }

  /** A minimising interior node scores min(9999999999, values of the
      children explored), each child searched in move order from the loop's
      table and window; alpha stays put and beta only falls. The same cutoff
      rule applies. */
  lemma MinNode<P, M>(rules: Rules<P, M>, color: Color, table: Table, p: P, alpha: Ext, beta: Ext, depth: nat)
    requires depth > 0 && !rules.isGameOver(p) && rules.hash(p) !in table && rules.turn(p) != color
    ensures var moves := MoveOrder.OrderedMoves(rules, p);
            var f := Explore(rules, color, p, moves, false, depth, Sweep(MinStart, alpha, beta, table, []));
            var r := Search(rules, color, table, p, alpha, beta, depth);
            && r.value == f.value
            && |f.explored| <= |moves|
            && (moves != [] ==> |f.explored| >= 1)
            && r.value <= MinStart
            && (forall i :: 0 <= i < |f.explored| ==> f.explored[i] >= r.value)
            && (r.value == MinStart || exists i :: 0 <= i < |f.explored| && r.value == f.explored[i])
            && (|f.explored| < |moves| ==> Le(Min(beta, Fin(r.value)), alpha))
            && (forall j :: 0 < j < |f.explored| ==> !Le(Min(beta, Fin(SeqMin(MinStart, f.explored[..j]))), alpha))
    ensures var moves := MoveOrder.OrderedMoves(rules, p);
            var s := Sweep(MinStart, alpha, beta, table, []);
            var f := Explore(rules, color, p, moves, false, depth, s);
            && |f.explored| <= |moves|
            && f == Trace(rules, color, p, moves, false, depth, s, |f.explored|)
            && (forall i :: 0 <= i < |f.explored| ==>
                  var t := Trace(rules, color, p, moves, false, depth, s, i);
                  f.explored[i] == Search(rules, color, t.table, rules.after(p, moves[i]), t.alpha, t.beta, depth - 1).value)
            && (forall i :: 0 <= i <= |f.explored| ==>
                  Trace(rules, color, p, moves, false, depth, s, i).alpha == alpha && Le(Trace(rules, color, p, moves, false, depth, s, i).beta, beta))
            && (forall i :: 0 < i <= |f.explored| ==>
                  Le(Trace(rules, color, p, moves, false, depth, s, i).beta, Trace(rules, color, p, moves, false, depth, s, i - 1).beta))
  {
    MinNodeValue(rules, color, table, p, alpha, beta, depth);
    MinNodeTrace(rules, color, table, p, alpha, beta, depth);
  }

}
