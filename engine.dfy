// The engine object: a root position, a search depth, the colour it plays
// and a transposition table that its search fills in place. Each method is
// proved against the specification functions of Evaluation, MoveOrder,
// AlphaBeta and RootChoice.

module ChessEngine {
  import opened Chess
  import opened ExtReal
  import Evaluation
  import MoveOrder
  import AlphaBeta
  import RootChoice

  class Engine<P, M(==)> {
    const rules: Rules<P, M>
    const board: P
    const maxDepth: int
    const color: Color
    /** Position hash to the value last computed for it. */
    var table: map<int, real>

    constructor(rules: Rules<P, M>, board: P, maxDepth: int, color: Color)
      ensures this.rules == rules && this.board == board
      ensures this.maxDepth == maxDepth && this.color == color
      ensures table == map[]
    {
      this.rules := rules;
      this.board := board;
      this.maxDepth := maxDepth;
      this.color := color;
      table := map[];
    }

    /** Searches every legal move of the root position, then picks the first
        move of strictly greatest value; None exactly when there is no legal
        move. */
    method GetBestMove() returns (best: Option<M>)
      requires maxDepth >= 1
      modifies this
      ensures var sweep := RootChoice.RootSweep(rules, color, old(table), board, rules.legalMoves(board), maxDepth - 1);
              && table == sweep.table
              && AlphaBeta.Extends(old(table), table)
              && |sweep.values| == |rules.legalMoves(board)|
              && (best.None? <==> rules.legalMoves(board) == [])
              && (best.Some? ==> exists k :: RootChoice.BestIndex(sweep.values, k) && best.value == rules.legalMoves(board)[k])
    {
      var moves := rules.legalMoves(board);
      ghost var table0 := table;
      var values := SearchRootMoves(moves);
      RootChoice.RootSweepFacts(rules, color, table0, board, moves, maxDepth - 1);
      var results := RootChoice.Successes(moves, values);
      best := RootChoice.SelectBest(results);
      RootChoice.SuccessesBest(moves, values, -1);
      if best.Some? {
        ghost var k :| RootChoice.FirstBest(results, k) && best.value == results[k].0;
        RootChoice.SuccessesBest(moves, values, k);
      }
    }

    /** The root searches: evaluateMove on each move with the window
        (-inf, +inf), in order, sharing the table. */
    method SearchRootMoves(moves: seq<M>) returns (values: seq<real>)
      requires maxDepth >= 1
      modifies this
      ensures RootChoice.RootSweep(rules, color, old(table), board, moves, maxDepth - 1) == RootChoice.Root(values, table)
    {
      var alpha, beta := NegInf, PosInf;
      ghost var table0 := table;
      values := [];
      for i := 0 to |moves|
        invariant RootChoice.RootSweep(rules, color, table0, board, moves[..i], maxDepth - 1) == RootChoice.Root(values, table)
      {
        var moveValue := EvaluateMove(board, moves[i], alpha, beta);
        assert moves[..i + 1][..i] == moves[..i];
        values := values + [moveValue];
      }
      assert moves[..|moves|] == moves;
    }

    /** Plays the move, searches the result one ply shallower, takes it back. */
    method EvaluateMove(b: P, move: M, alpha: Ext, beta: Ext) returns (moveValue: real)
      requires maxDepth >= 1
      modifies this
      ensures AlphaBeta.Outcome(moveValue, table) == AlphaBeta.Search(rules, color, old(table), rules.after(b, move), alpha, beta, maxDepth - 1)
    {
      moveValue := Search(rules.after(b, move), alpha, beta, maxDepth - 1);
    }

    /** evalFunct: the sum of the four terms. */
    method EvalFunct(b: P) returns (score: real)
      ensures score == Evaluation.Evaluate(rules, color, b)
    {
      var material := MaterialEvaluation(b);
      var center := CenterControl(b);
      score := material + Evaluation.MateOpportunity(rules, color, b) + Evaluation.OpeningBook(rules, color, b) + center;
    }

    /** The material loop over the piece types. */
    method MaterialEvaluation(b: P) returns (score: real)
      ensures score == Evaluation.Material(rules, color, b)
    {
      score := 0.0;
      for i := 0 to |PieceTypes|
        invariant score == Evaluation.MaterialOver(rules, color, b, PieceTypes[..i])
      {
        var pieceType := PieceTypes[i];
        assert PieceTypes[..i + 1][..i] == PieceTypes[..i];
        score := score + rules.pieceCount(b, pieceType, color) as real * Evaluation.PieceValue(pieceType);
        score := score - rules.pieceCount(b, pieceType, color.Opponent()) as real * Evaluation.PieceValue(pieceType);
      }
      assert PieceTypes[..|PieceTypes|] == PieceTypes;
    }

    /** The centre loop over d4, d5, e4 and e5. */
    method CenterControl(b: P) returns (score: real)
      ensures score == Evaluation.CenterControl(rules, color, b)
    {
      var centerSquares := Evaluation.CenterSquares;
      score := 0.0;
      for i := 0 to |centerSquares|
        invariant score == Evaluation.CenterOver(rules, color, b, centerSquares[..i])
      {
        assert centerSquares[..i + 1][..i] == centerSquares[..i];
        var piece := rules.pieceAt(b, centerSquares[i]);
        if piece.Some? {
          var weight := Evaluation.CenterWeight(piece.value.pieceType);
          score := score + if piece.value.color == color then weight else -weight;
        }
      }
      assert centerSquares[..|centerSquares|] == centerSquares;
    }

    /** engine: alpha-beta search of position b to the given depth. A leaf is
        evaluated; a cached interior position returns its cached value;
        otherwise the ordered moves are searched by the maximizing or the
        minimizing loop and the value is cached under the position's hash. */
    method Search(b: P, alpha: Ext, beta: Ext, depth: int) returns (value: real)
      requires depth >= 0
      modifies this
      ensures AlphaBeta.Outcome(value, table) == AlphaBeta.Search(rules, color, old(table), b, alpha, beta, depth)
      decreases depth, 1
    {
      if depth == 0 || rules.isGameOver(b) {
        value := EvalFunct(b);
        return;
      }

      var boardHash := rules.hash(b);
      if boardHash in table {
        return table[boardHash];
      }

      var moves := OrderMoves(b);
      if rules.turn(b) == color {
        value := MaximizingLoop(b, moves, alpha, beta, depth);
      } else {
        value := MinimizingLoop(b, moves, alpha, beta, depth);
      }
      table := table[boardHash := value];
    }

    /** The loop of a maximizing node: raise value and alpha with each child,
        stop once beta <= alpha. */
    method MaximizingLoop(b: P, moves: seq<M>, alpha: Ext, beta: Ext, depth: int) returns (value: real)
      requires depth >= 1
      modifies this
      ensures var s := AlphaBeta.Explore(rules, color, b, moves, true, depth, AlphaBeta.Sweep(AlphaBeta.MaxStart, alpha, beta, old(table), []));
              value == s.value && table == s.table
      decreases depth, 0
    {
      ghost var start := AlphaBeta.Sweep(AlphaBeta.MaxStart, alpha, beta, table, []);
      ghost var explored: seq<real> := [];
      value := AlphaBeta.MaxStart;
      var a := alpha;
      var i := 0;
      while i < |moves|
        invariant 0 <= i <= |moves|
        invariant AlphaBeta.Explore(rules, color, b, moves, true, depth, start)
               == AlphaBeta.Explore(rules, color, b, moves[i..], true, depth, AlphaBeta.Sweep(value, a, beta, table, explored))
      {
        ghost var before := AlphaBeta.Sweep(value, a, beta, table, explored);
        var childValue := Search(rules.after(b, moves[i]), a, beta, depth - 1);
        AlphaBeta.ExploreStep(rules, color, b, moves, true, depth, before, i, AlphaBeta.Outcome(childValue, table));
        value := AlphaBeta.RMax(value, childValue);
        a := Max(a, Fin(value));
        explored := explored + [childValue];
        i := i + 1;
        assert AlphaBeta.Sweep(value, a, beta, table, explored) == AlphaBeta.Step(before, AlphaBeta.Outcome(childValue, table), true);
        if Le(beta, a) {
          break;
        }
      }
    }

    /** The loop of a minimizing node: lower value and beta with each child,
        stop once beta <= alpha. */
    method MinimizingLoop(b: P, moves: seq<M>, alpha: Ext, beta: Ext, depth: int) returns (value: real)
      requires depth >= 1
      modifies this
      ensures var s := AlphaBeta.Explore(rules, color, b, moves, false, depth, AlphaBeta.Sweep(AlphaBeta.MinStart, alpha, beta, old(table), []));
              value == s.value && table == s.table
      decreases depth, 0
    {
      ghost var start := AlphaBeta.Sweep(AlphaBeta.MinStart, alpha, beta, table, []);
      ghost var explored: seq<real> := [];
      value := AlphaBeta.MinStart;
      var bt := beta;
      var i := 0;
      while i < |moves|
        invariant 0 <= i <= |moves|
        invariant AlphaBeta.Explore(rules, color, b, moves, false, depth, start)
               == AlphaBeta.Explore(rules, color, b, moves[i..], false, depth, AlphaBeta.Sweep(value, alpha, bt, table, explored))
      {
        ghost var before := AlphaBeta.Sweep(value, alpha, bt, table, explored);
        var childValue := Search(rules.after(b, moves[i]), alpha, bt, depth - 1);
        AlphaBeta.ExploreStep(rules, color, b, moves, false, depth, before, i, AlphaBeta.Outcome(childValue, table));
        value := AlphaBeta.RMin(value, childValue);
        bt := Min(bt, Fin(value));
        explored := explored + [childValue];
        i := i + 1;
        assert AlphaBeta.Sweep(value, alpha, bt, table, explored) == AlphaBeta.Step(before, AlphaBeta.Outcome(childValue, table), false);
        if Le(bt, alpha) {
          break;
        }
      }
    }

    /** orderMoves: one scan scores each legal move (100 for a capture, 50 for
        a check), then a stable sort by descending score. The result is a
        permutation of the legal moves, sorted, with ties in the library's
        order, and each move's score is its key times its multiplicity. */
    method OrderMoves(b: P) returns (ordered: seq<M>)
      ensures ordered == MoveOrder.OrderedMoves(rules, b)
      ensures var scores := MoveOrder.ScoreTable(rules, b, rules.legalMoves(b));
              && multiset(ordered) == multiset(rules.legalMoves(b))
              && MoveOrder.SortedDesc(ordered, scores)
              && (forall v :: MoveOrder.WithScore(ordered, scores, v) == MoveOrder.WithScore(rules.legalMoves(b), scores, v))
              && (forall m :: MoveOrder.Lookup(scores, m) == multiset(rules.legalMoves(b))[m] * MoveOrder.MoveKey(rules, b, m))
    {
      var legal := rules.legalMoves(b);
      var moveScores: map<M, int> := map[];
      for i := 0 to |legal|
        invariant moveScores == MoveOrder.ScoreTable(rules, b, legal[..i])
      {
        var move := legal[i];
        assert legal[..i + 1][..i] == legal[..i];
        if rules.isCapture(b, move) {
          moveScores := moveScores[move := MoveOrder.Lookup(moveScores, move) + 100];
        }
        if rules.isCheck(rules.after(b, move)) {
          moveScores := moveScores[move := MoveOrder.Lookup(moveScores, move) + 50];
        }
      }
      assert legal[..|legal|] == legal;
      ordered := MoveOrder.SortDesc(legal, moveScores);
      MoveOrder.SortDescCorrect(legal, moveScores);
      forall m ensures MoveOrder.Lookup(moveScores, m) == multiset(legal)[m] * MoveOrder.MoveKey(rules, b, m) {
        MoveOrder.ScoreTableCounts(rules, b, legal, m);
      }
    }
  }
}
