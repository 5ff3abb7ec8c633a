// The root of the search: every legal move of the root position is searched
// with a fresh window (-inf, +inf), one after another in the rules library's
// order, all sharing one transposition table; then the move with the
// strictly greatest value is chosen, the first one met on a tie.

module RootChoice {
  import opened Chess
  import opened ExtReal
  import AlphaBeta

  /** The values of the root moves and the table after searching them all. */
  datatype Root = Root(values: seq<real>, table: AlphaBeta.Table)

  /** evaluateMove over the root moves, in order, threading the table. */
  function RootSweep<P, M(==)>(rules: Rules<P, M>, color: Color, table: AlphaBeta.Table, board: P, moves: seq<M>, depth: nat): Root
  {
    if moves == [] then Root([], table)
    else
      var before := RootSweep(rules, color, table, board, moves[..|moves| - 1], depth);
      var o := AlphaBeta.Search(rules, color, before.table, rules.after(board, moves[|moves| - 1]), NegInf, PosInf, depth);
      Root(before.values + [o.value], o.table)
  }

  /** One value per root move, each the search of the position after it, and
      no entry of the starting table is changed. */
  lemma {:induction false} RootSweepFacts<P, M>(rules: Rules<P, M>, color: Color, table: AlphaBeta.Table, board: P, moves: seq<M>, depth: nat)
    ensures |RootSweep(rules, color, table, board, moves, depth).values| == |moves|
    ensures AlphaBeta.Extends(table, RootSweep(rules, color, table, board, moves, depth).table)
  {
    if moves != [] {
      var before := RootSweep(rules, color, table, board, moves[..|moves| - 1], depth);
      RootSweepFacts(rules, color, table, board, moves[..|moves| - 1], depth);
      AlphaBeta.SearchTable(rules, color, before.table, rules.after(board, moves[|moves| - 1]), NegInf, PosInf, depth);
    }
  }

  /** Result k is a success whose value is at least every other success's and
      strictly above every success before it. */
  ghost predicate FirstBest<M>(results: seq<(M, Option<real>)>, k: int)
  {
    && 0 <= k < |results|
    && results[k].1.Some?
    && (forall j :: 0 <= j < |results| && results[j].1.Some? ==> results[j].1.value <= results[k].1.value)
    && (forall j :: 0 <= j < k && results[j].1.Some? ==> results[j].1.value < results[k].1.value)
  }

  /** Root move k has the greatest value, strictly above every earlier one. */
  ghost predicate BestIndex(values: seq<real>, k: int)
  {
    && 0 <= k < |values|
    && (forall j :: 0 <= j < |values| ==> values[j] <= values[k])
    && (forall j :: 0 <= j < k ==> values[j] < values[k])
  }

  /** The root moves paired with the values of their (successful) searches. */
  function Successes<M>(moves: seq<M>, values: seq<real>): (results: seq<(M, Option<real>)>)
    requires |moves| == |values|
    ensures |results| == |moves|
    ensures forall j :: 0 <= j < |moves| ==> results[j] == (moves[j], Some(values[j]))
  {
    seq(|moves|, j requires 0 <= j < |moves| => (moves[j], Some(values[j])))
  }

  /** When every root search succeeds, the first best result is the first root
      move of greatest value, and no move is chosen only without moves. */
  lemma SuccessesBest<M>(moves: seq<M>, values: seq<real>, k: int)
    requires |moves| == |values|
    ensures FirstBest(Successes(moves, values), k) <==> BestIndex(values, k)
    ensures (forall i :: 0 <= i < |moves| ==> Successes(moves, values)[i].1.None?) <==> moves == []
  {
    var results := Successes(moves, values);
    if moves != [] {
      assert results[0].1.Some?;
    }
  }

  /** The loop over the completed root searches. Each result pairs a move with
      its value, or with None when its search raised (that branch is skipped).
      The best value starts at -inf and is replaced only by a strictly greater
      one. */
  method SelectBest<M>(results: seq<(M, Option<real>)>) returns (best: Option<M>)
    ensures best.None? <==> forall i :: 0 <= i < |results| ==> results[i].1.None?
    ensures best.Some? ==> exists k :: FirstBest(results, k) && best.value == results[k].0
  {
    best := None;
    var bestValue := NegInf;
    ghost var bestIndex := -1;
    for i := 0 to |results|
      invariant best.None? <==> bestIndex == -1
      invariant best.None? <==> forall j :: 0 <= j < i ==> results[j].1.None?
      invariant bestIndex == -1 ==> bestValue == NegInf
      invariant bestIndex != -1 ==> FirstBest(results[..i], bestIndex)
      invariant bestIndex != -1 ==> best == Some(results[bestIndex].0) && bestValue == Fin(results[bestIndex].1.value)
    {
      var (move, outcome) := results[i];
      if outcome.Some? && !Le(Fin(outcome.value), bestValue) {
        bestValue := Fin(outcome.value);
        best := Some(move);
        bestIndex := i;
      }
    }
    if bestIndex != -1 {
      assert results[..|results|] == results;
    }
  }
}
