// The position evaluator: a score of a position from the point of view of the
// engine's colour, the sum of a material balance, a mate term, an opening term
// and a centre-occupancy term. All constants are decimal literals and are
// modelled exactly as reals.

module Evaluation {
  import opened Chess

  /** Material value of a piece type; types outside the table are worth 0. */
  function PieceValue(pt: PieceType): (v: real)
    ensures 0.0 <= v <= 9.0
    ensures v == 0.0 <==> !(PAWN <= pt <= QUEEN)
  {
    if pt == PAWN then 1.0
    else if pt == ROOK then 5.25
    else if pt == BISHOP then 3.5
    else if pt == KNIGHT then 3.5
    else if pt == QUEEN then 9.0
    else if pt == KING then 0.0
    else 0.0
  }

  /** Sum of the piece values of a list of piece types. */
  function ValueSum(types: seq<PieceType>): (s: real)
    ensures s >= 0.0
  {
    if types == [] then 0.0 else ValueSum(types[..|types| - 1]) + PieceValue(types[|types| - 1])
  }

  /** The material balance over a prefix of the piece types: for each type, the
      colour's count times the value, minus the opponent's count times the value. */
  function MaterialOver<P, M>(rules: Rules<P, M>, color: Color, p: P, types: seq<PieceType>): real
  {
    if types == [] then 0.0
    else
      var pt := types[|types| - 1];
      MaterialOver(rules, color, p, types[..|types| - 1])
        + rules.pieceCount(p, pt, color) as real * PieceValue(pt)
        - rules.pieceCount(p, pt, color.Opponent()) as real * PieceValue(pt)
  }

  function Material<P, M>(rules: Rules<P, M>, color: Color, p: P): real
  {
    MaterialOver(rules, color, p, PieceTypes)
  }

  /** Swapping the two colours negates the material balance exactly. */
  lemma {:induction false} MaterialOverAntisymmetric<P, M>(rules: Rules<P, M>, color: Color, p: P, types: seq<PieceType>)
    ensures MaterialOver(rules, color.Opponent(), p, types) == -MaterialOver(rules, color, p, types)
  {
    if types != [] {
      MaterialOverAntisymmetric(rules, color, p, types[..|types| - 1]);
      assert color.Opponent().Opponent() == color;
    }
  }

  lemma MaterialAntisymmetric<P, M>(rules: Rules<P, M>, color: Color, p: P)
    ensures Material(rules, color.Opponent(), p) == -Material(rules, color, p)
  {
    MaterialOverAntisymmetric(rules, color, p, PieceTypes);
  }

  /** With at most n pieces of each type and colour, a type contributes at most
      n times its value in either direction. */
  lemma TermBound(own: nat, their: nat, n: nat, v: real)
    requires own <= n && their <= n && v >= 0.0
    ensures -(n as real) * v <= own as real * v - their as real * v <= n as real * v
  {
    var d := own as real - their as real;
    assert own as real * v - their as real * v == d * v;
    if d >= 0.0 {
      assert (n as real - d) * v >= 0.0;
    } else {
      assert (n as real + d) * v >= 0.0;
    }
  }

  lemma {:induction false} MaterialOverBound<P, M>(rules: Rules<P, M>, color: Color, p: P, types: seq<PieceType>)
    requires forall pt, c :: rules.pieceCount(p, pt, c) <= 64
    ensures -64.0 * ValueSum(types) <= MaterialOver(rules, color, p, types) <= 64.0 * ValueSum(types)
  {
    if types != [] {
      var pt := types[|types| - 1];
      MaterialOverBound(rules, color, p, types[..|types| - 1]);
      TermBound(rules.pieceCount(p, pt, color), rules.pieceCount(p, pt, color.Opponent()), 64, PieceValue(pt));
    }
  }

  /** With at most 64 pieces of each type and colour (there are 64 squares) the
      material balance lies within 64 times the value of one full set of
      types, 64 * 22.25. */
  lemma MaterialBound<P, M>(rules: Rules<P, M>, color: Color, p: P)
    requires forall pt, c :: rules.pieceCount(p, pt, c) <= 64
    ensures -1424.0 <= Material(rules, color, p) <= 1424.0
  {
    MaterialOverBound(rules, color, p, PieceTypes);
    assert ValueSum([PAWN]) == 1.0 by { assert [PAWN][..0] == []; }
    assert ValueSum([PAWN, KNIGHT]) == 4.5 by { assert [PAWN, KNIGHT][..1] == [PAWN]; }
    assert ValueSum([PAWN, KNIGHT, BISHOP]) == 8.0 by { assert [PAWN, KNIGHT, BISHOP][..2] == [PAWN, KNIGHT]; }
    assert ValueSum([PAWN, KNIGHT, BISHOP, ROOK]) == 13.25 by { assert [PAWN, KNIGHT, BISHOP, ROOK][..3] == [PAWN, KNIGHT, BISHOP]; }
    assert ValueSum([PAWN, KNIGHT, BISHOP, ROOK, QUEEN]) == 22.25 by { assert [PAWN, KNIGHT, BISHOP, ROOK, QUEEN][..4] == [PAWN, KNIGHT, BISHOP, ROOK]; }
    assert ValueSum(PieceTypes) == 22.25 by { assert PieceTypes[..5] == [PAWN, KNIGHT, BISHOP, ROOK, QUEEN]; }
  }

  /** -1e9 when the engine's colour has no legal move and is to move, +1e9
      when the opponent has none, 0 otherwise. Checkmate and stalemate are
      not told apart. */
  function MateOpportunity<P, M>(rules: Rules<P, M>, color: Color, p: P): (r: real)
    ensures r == 0.0 <==> rules.legalMoves(p) != []
    ensures r < 0.0 <==> rules.legalMoves(p) == [] && rules.turn(p) == color
    ensures r == 0.0 || r == 1000000000.0 || r == -1000000000.0
  {
    if rules.legalMoves(p) == [] then
      if rules.turn(p) == color then -1000000000.0 else 1000000000.0
    else 0.0
  }

  /** Before move 10, the number of legal moves over 30, counted for the side
      to move and against the other side; 0 from move 10 on. */
  function OpeningBook<P, M>(rules: Rules<P, M>, color: Color, p: P): (r: real)
    ensures rules.fullmoveNumber(p) >= 10 || rules.legalMoves(p) == [] ==> r == 0.0
    ensures rules.turn(p) == color ==> r >= 0.0
    ensures rules.turn(p) != color ==> r <= 0.0
    ensures rules.fullmoveNumber(p) < 10 ==> 30.0 * r == if rules.turn(p) == color then |rules.legalMoves(p)| as real else -(|rules.legalMoves(p)| as real)
  {
    if rules.fullmoveNumber(p) < 10 then
      var multiplier := if rules.turn(p) == color then 1.0 / 30.0 else -1.0 / 30.0;
      |rules.legalMoves(p)| as real * multiplier
    else 0.0
  }

  /** Centre weight of a piece type; types outside the table weigh 0. */
  function CenterWeight(pt: PieceType): (w: real)
    ensures 0.0 <= w <= 0.3
    ensures w == 0.0 <==> !(PAWN <= pt <= KING)
  {
    if pt == PAWN then 0.2
    else if pt == KNIGHT then 0.25
    else if pt == BISHOP then 0.25
    else if pt == ROOK then 0.15
    else if pt == QUEEN then 0.3
    else if pt == KING then 0.025
    else 0.0
  }

  const CenterSquares: seq<Square> := [D4, D5, E4, E5]

  /** The signed contribution of one square: its occupant's weight, for the
      colour or against it; an empty square contributes nothing. */
  function CenterTerm<P, M>(rules: Rules<P, M>, color: Color, p: P, sq: Square): (t: real)
    ensures -0.3 <= t <= 0.3
    ensures rules.pieceAt(p, sq).None? ==> t == 0.0
  {
    match rules.pieceAt(p, sq)
    case None => 0.0
    case Some(piece) =>
      var weight := CenterWeight(piece.pieceType);
      if piece.color == color then weight else -weight
  }

  function CenterOver<P, M>(rules: Rules<P, M>, color: Color, p: P, squares: seq<Square>): real
  {
    if squares == [] then 0.0
    else CenterOver(rules, color, p, squares[..|squares| - 1]) + CenterTerm(rules, color, p, squares[|squares| - 1])
  }

  function CenterControl<P, M>(rules: Rules<P, M>, color: Color, p: P): real
  {
    CenterOver(rules, color, p, CenterSquares)
  }

  lemma {:induction false} CenterOverBound<P, M>(rules: Rules<P, M>, color: Color, p: P, squares: seq<Square>)
    ensures -0.3 * |squares| as real <= CenterOver(rules, color, p, squares) <= 0.3 * |squares| as real
  {
    if squares != [] {
      CenterOverBound(rules, color, p, squares[..|squares| - 1]);
    }
  }

  /** Only four squares are scored, each by at most the queen's 0.3. */
  lemma CenterBound<P, M>(rules: Rules<P, M>, color: Color, p: P)
    ensures -1.2 <= CenterControl(rules, color, p) <= 1.2
  {
    CenterOverBound(rules, color, p, CenterSquares);
  }

  lemma {:induction false} CenterOverOnlyReads<P, M>(rules: Rules<P, M>, color: Color, p: P, q: P, squares: seq<Square>)
    requires forall i :: 0 <= i < |squares| ==> rules.pieceAt(p, squares[i]) == rules.pieceAt(q, squares[i])
    ensures CenterOver(rules, color, p, squares) == CenterOver(rules, color, q, squares)
  {
    if squares != [] {
      CenterOverOnlyReads(rules, color, p, q, squares[..|squares| - 1]);
    }
  }

  /** The centre term depends on the occupants of d4, d5, e4 and e5 only;
      in particular an empty centre scores 0. */
  lemma CenterOnlyReadsCenter<P, M>(rules: Rules<P, M>, color: Color, p: P, q: P)
    requires forall i :: 0 <= i < 4 ==> rules.pieceAt(p, CenterSquares[i]) == rules.pieceAt(q, CenterSquares[i])
    ensures CenterControl(rules, color, p) == CenterControl(rules, color, q)
    ensures (forall i :: 0 <= i < 4 ==> rules.pieceAt(p, CenterSquares[i]).None?) ==> CenterControl(rules, color, p) == 0.0
  {
    CenterOverOnlyReads(rules, color, p, q, CenterSquares);
    if forall i :: 0 <= i < 4 ==> rules.pieceAt(p, CenterSquares[i]).None? {
      assert rules.pieceAt(p, D4).None? && rules.pieceAt(p, D5).None? by {
        assert CenterSquares[0] == D4 && CenterSquares[1] == D5;
      }
      assert rules.pieceAt(p, E4).None? && rules.pieceAt(p, E5).None? by {
        assert CenterSquares[2] == E4 && CenterSquares[3] == E5;
      }
      assert CenterOver(rules, color, p, [D4]) == 0.0 by { assert [D4][..0] == []; }
      assert CenterOver(rules, color, p, [D4, D5]) == 0.0 by { assert [D4, D5][..1] == [D4]; }
      assert CenterOver(rules, color, p, [D4, D5, E4]) == 0.0 by { assert [D4, D5, E4][..2] == [D4, D5]; }
      assert CenterOver(rules, color, p, CenterSquares) == 0.0 by { assert CenterSquares[..3] == [D4, D5, E4]; }
    }
  }

  lemma {:induction false} CenterOverAntisymmetric<P, M>(rules: Rules<P, M>, color: Color, p: P, squares: seq<Square>)
    ensures CenterOver(rules, color.Opponent(), p, squares) == -CenterOver(rules, color, p, squares)
  {
    if squares != [] {
      CenterOverAntisymmetric(rules, color, p, squares[..|squares| - 1]);
    }
  }

  /** evalFunct: the sum of the four terms. */
  function Evaluate<P, M>(rules: Rules<P, M>, color: Color, p: P): real
  {
    Material(rules, color, p) + MateOpportunity(rules, color, p) + OpeningBook(rules, color, p) + CenterControl(rules, color, p)
  }

  /** The evaluation is zero-sum: from the other side every term, and so the
      whole score, is negated. */
  lemma EvaluateAntisymmetric<P, M>(rules: Rules<P, M>, color: Color, p: P)
    ensures Evaluate(rules, color.Opponent(), p) == -Evaluate(rules, color, p)
  {
    MaterialAntisymmetric(rules, color, p);
    CenterOverAntisymmetric(rules, color, p, CenterSquares);
  }

  /** A position without legal moves scores -1e9 (the engine's colour is to
      move) or +1e9 on top of material and centre; the opening term vanishes. */
  lemma EvaluateNoMoves<P, M>(rules: Rules<P, M>, color: Color, p: P)
    requires rules.legalMoves(p) == []
    ensures rules.turn(p) == color ==> Evaluate(rules, color, p) == -1000000000.0 + Material(rules, color, p) + CenterControl(rules, color, p)
    ensures rules.turn(p) != color ==> Evaluate(rules, color, p) == 1000000000.0 + Material(rules, color, p) + CenterControl(rules, color, p)
  {
  }

  /** The mate term dominates: with at most 64 pieces per type and colour and
      at most 1000 legal moves in q, a position where the engine's colour is
      mated scores below any position q that still has a move, and a position
      where the opponent is mated scores above it. */
  lemma MateDominates<P, M>(rules: Rules<P, M>, color: Color, p: P, q: P)
    requires rules.legalMoves(p) == [] && rules.legalMoves(q) != []
    requires |rules.legalMoves(q)| <= 1000
    requires forall pt, c :: rules.pieceCount(p, pt, c) <= 64
    requires forall pt, c :: rules.pieceCount(q, pt, c) <= 64
    ensures rules.turn(p) == color ==> Evaluate(rules, color, p) < Evaluate(rules, color, q)
    ensures rules.turn(p) != color ==> Evaluate(rules, color, p) > Evaluate(rules, color, q)
  {
    MaterialBound(rules, color, p);
    MaterialBound(rules, color, q);
    CenterBound(rules, color, p);
    CenterBound(rules, color, q);
    var r := OpeningBook(rules, color, q);
    assert -1000.0 <= 30.0 * r <= 1000.0;
  }
}
