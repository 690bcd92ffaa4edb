/**
 * The search engine: an exhaustive recursive minimax, modelled exactly as the
 * source runs it. Three rules of the source are kept literally:
 *  - a position is terminal when the side to move (`player`) has won, or when
 *    the board is full; a win of the other side is not tested;
 *  - a child's score is negated only when `player` is X;
 *  - both sides then keep the strictly greatest adjusted score, so ties go
 *    to the first empty cell in row-major order.
 */
module SearchEngine {
  import opened Wrappers
  import opened BoardModel

  /** A (row, col) coordinate as the search reports it. */
  type Move = (nat, nat)

  /** The initial best score of the scan, `i32::min_value()`. */
  const Sentinel: int := -0x8000_0000

  /** Number of empty cells: the termination measure of the search. */
  function Empties(p: Position): nat
  {
    Count(p, Empty)
  }

  /** Row-major rank of a coordinate: (i, j) is visited at step 3 * i + j. */
  function Rank(m: Move): nat
  {
    3 * m.0 + m.1
  }

  /** The coordinate visited at step k of the row-major scan. */
  function CellAt(k: nat): (m: Move)
    requires k < 9
    ensures m.0 < 3 && m.1 < 3 && Rank(m) == k
  {
    if k < 3 then (0, k) else if k < 6 then (1, k - 3) else (2, k - 6)
  }

  /** `minimax(player)` on a board value: its score and its best move. */
  function Minimax(p: Position, player: Player): (int, Option<Move>)
    decreases Empties(p), 2
  {
    if HasWon(p, player) then
      (if player == X then 1 else -1, None)
    else if IsFull(p) then
      (0, None)
    else
      Pick(Scores(p, player), 0, Sentinel, None)
  }

  /**
   * What the loop body computes at each of the nine cells, in row-major
   * order: nothing for an occupied cell, the adjusted child score for an
   * empty one.
   */
  function Scores(p: Position, player: Player): (s: seq<Option<int>>)
    ensures |s| == 9
    decreases Empties(p), 1
  {
    seq(9, k requires 0 <= k < 9 =>
      var m := CellAt(k);
      if p.cells[m.0][m.1].IsEmpty() then Some(ChildScore(p, player, m.0, m.1)) else None)
  }

  /**
   * The score the scan compares for the empty cell (i, j): the board with the
   * current player's mark on (i, j), searched for the opposite of `player`,
   * with its score negated when `player` is X.
   */
  function ChildScore(p: Position, player: Player, i: nat, j: nat): int
    requires IsLegal(p, i, j)
    decreases Empties(p), 0
  {
    PlayFillsOneCell(p, i, j);
    var (score, _) := Minimax(Play(p, i, j).value, player.Opposite());
    if player == X then -score else score
  }

  /**
   * The nested `for i`/`for j` loops as one row-major fold from step k: a
   * cell's score replaces the best so far only when it is strictly greater.
   */
  function Pick(scores: seq<Option<int>>, k: nat, bestScore: int, bestMove: Option<Move>): (int, Option<Move>)
    requires |scores| == 9 && k <= 9
    decreases 9 - k
  {
    if k == 9 then
      (bestScore, bestMove)
    else if scores[k].Some? && scores[k].value > bestScore then
      Pick(scores, k + 1, scores[k].value, Some(CellAt(k)))
    else
      Pick(scores, k + 1, bestScore, bestMove)
  }

  /** The search stops at exactly these positions. */
  predicate Terminal(p: Position, player: Player)
  {
    HasWon(p, player) || IsFull(p)
  }

  // ---------------------------------------------------------------------------
  // The fold

  /**
   * What the fold knows after the first k entries: either no entry was
   * present and the score is still the sentinel, or the best move is a
   * present entry seen so far carrying the best score, no entry seen so far
   * is higher, and every entry before it is strictly lower.
   */
  ghost predicate PickedSoFar(scores: seq<Option<int>>, k: nat, bestScore: int, bestMove: Option<Move>)
    requires |scores| == 9 && k <= 9
  {
    match bestMove
    case None =>
      bestScore == Sentinel && forall l :: 0 <= l < k ==> scores[l].None?
    case Some(m) =>
      m.0 < 3 && m.1 < 3 && Rank(m) < k && scores[Rank(m)] == Some(bestScore) &&
      (forall l :: 0 <= l < k && scores[l].Some? ==> scores[l].value <= bestScore) &&
      (forall l :: 0 <= l < Rank(m) && scores[l].Some? ==> scores[l].value < bestScore)
  }

  /** Each present entry is above the sentinel: true of every adjusted child score. */
  ghost predicate AboveSentinel(scores: seq<Option<int>>)
  {
    forall l :: 0 <= l < |scores| && scores[l].Some? ==> scores[l].value > Sentinel
  }

  /** The fold keeps its summary of the entries seen so far up to the end. */
  lemma {:induction false} PickKeepsSummary(scores: seq<Option<int>>, k: nat, bestScore: int, bestMove: Option<Move>)
    requires |scores| == 9 && k <= 9 && AboveSentinel(scores)
    requires PickedSoFar(scores, k, bestScore, bestMove)
    ensures PickedSoFar(scores, 9, Pick(scores, k, bestScore, bestMove).0, Pick(scores, k, bestScore, bestMove).1)
    decreases 9 - k
  {
    if k < 9 {
      if scores[k].Some? && scores[k].value > bestScore {
        assert PickedSoFar(scores, k + 1, scores[k].value, Some(CellAt(k)));
        PickKeepsSummary(scores, k + 1, scores[k].value, Some(CellAt(k)));
      } else {
        assert PickedSoFar(scores, k + 1, bestScore, bestMove);
        PickKeepsSummary(scores, k + 1, bestScore, bestMove);
      }
    }
  }

  /**
   * The fold over all nine entries returns the first strict maximum of the
   * present entries, and returns a move exactly when some entry is present.
   */
  lemma PickFindsFirstMaximum(scores: seq<Option<int>>)
    requires |scores| == 9 && AboveSentinel(scores)
    ensures PickedSoFar(scores, 9, Pick(scores, 0, Sentinel, None).0, Pick(scores, 0, Sentinel, None).1)
    ensures Pick(scores, 0, Sentinel, None).1.Some? <==> exists l :: 0 <= l < 9 && scores[l].Some?
  {
    PickKeepsSummary(scores, 0, Sentinel, None);
  }

  // ---------------------------------------------------------------------------
  // Properties of the search

  /**
   * The result at a non-terminal position: a legal move whose adjusted child
   * score is the maximum over all legal moves, and the first legal move in
   * row-major order that attains it.
   */
  ghost predicate FirstStrictMaximum(p: Position, player: Player, score: int, move: Option<Move>)
  {
    move.Some? && IsLegal(p, move.value.0, move.value.1) &&
    score == ChildScore(p, player, move.value.0, move.value.1) &&
    (forall i: nat, j: nat :: IsLegal(p, i, j) ==> ChildScore(p, player, i, j) <= score) &&
    (forall i: nat, j: nat :: IsLegal(p, i, j) && 3 * i + j < Rank(move.value) ==> ChildScore(p, player, i, j) < score)
  }

  /** The entry of the score list for cell (i, j) is present exactly when the move is legal. */
  lemma ScoresAt(p: Position, player: Player, i: nat, j: nat)
    requires i < 3 && j < 3
    ensures CellAt(3 * i + j) == (i, j)
    ensures Scores(p, player)[3 * i + j] == if IsLegal(p, i, j) then Some(ChildScore(p, player, i, j)) else None
  {
  }

  /** Every adjusted child score is -1, 0 or 1, so it always beats the sentinel. */
  lemma {:induction false} ChildScoreRange(p: Position, player: Player, i: nat, j: nat)
    requires IsLegal(p, i, j)
    ensures -1 <= ChildScore(p, player, i, j) <= 1
    decreases Empties(p), 0
  {
    PlayFillsOneCell(p, i, j);
    MinimaxScoreRange(Play(p, i, j).value, player.Opposite());
  }

  /** Every entry of the score list is -1, 0 or 1 when present. */
  lemma {:induction false} ScoresRange(p: Position, player: Player)
    ensures forall l :: 0 <= l < 9 && Scores(p, player)[l].Some? ==> -1 <= Scores(p, player)[l].value <= 1
    decreases Empties(p), 1
  {
    var s := Scores(p, player);
    forall l | 0 <= l < 9 && s[l].Some?
      ensures -1 <= s[l].value <= 1
    {
      var m := CellAt(l);
      ScoresAt(p, player, m.0, m.1);
      ChildScoreRange(p, player, m.0, m.1);
    }
  }

  /** Every score the search returns is -1, 0 or 1, and never the sentinel. */
  lemma {:induction false} MinimaxScoreRange(p: Position, player: Player)
    ensures -1 <= Minimax(p, player).0 <= 1
    decreases Empties(p), 2
  {
    if !Terminal(p, player) {
      var s := Scores(p, player);
      ScoresRange(p, player);
      NotFullHasLegalMove(p);
      var i: nat, j: nat :| IsLegal(p, i, j);
      ScoresAt(p, player, i, j);
      PickFindsFirstMaximum(s);
    }
  }

  /**
   * At a non-terminal position the search returns a legal move, its score is
   * the greatest adjusted child score, and the move is the first cell in
   * row-major order that reaches it.
   */
  lemma MinimaxNonTerminal(p: Position, player: Player)
    requires !Terminal(p, player)
    ensures FirstStrictMaximum(p, player, Minimax(p, player).0, Minimax(p, player).1)
  {
    var s := Scores(p, player);
    ScoresRange(p, player);
    NotFullHasLegalMove(p);
    var i: nat, j: nat :| IsLegal(p, i, j);
    ScoresAt(p, player, i, j);
    PickFindsFirstMaximum(s);
    var (score, move) := Minimax(p, player);
    var m := move.value;
    ScoresAt(p, player, m.0, m.1);
    forall i: nat, j: nat | IsLegal(p, i, j)
      ensures ChildScore(p, player, i, j) <= score
      ensures 3 * i + j < Rank(m) ==> ChildScore(p, player, i, j) < score
    {
      ScoresAt(p, player, i, j);
    }
  }

  /** The first strict maximum is unique: the score and the move are both determined. */
  lemma FirstStrictMaximumUnique(p: Position, player: Player, s1: int, m1: Option<Move>, s2: int, m2: Option<Move>)
    requires FirstStrictMaximum(p, player, s1, m1) && FirstStrictMaximum(p, player, s2, m2)
    ensures s1 == s2 && m1 == m2
  {
    // Each score bounds the other, and neither move can come before the other.
  }

  /** The search returns no move exactly at terminal positions, and otherwise a legal move. */
  lemma MinimaxMoveShape(p: Position, player: Player)
    ensures Minimax(p, player).1.None? <==> Terminal(p, player)
    ensures Minimax(p, player).1.Some? ==> IsLegal(p, Minimax(p, player).1.value.0, Minimax(p, player).1.value.1)
  {
    if !Terminal(p, player) {
      MinimaxNonTerminal(p, player);
    }
  }

  /** The scores of the terminal cases, tested in the source's order: the mover's win first, then a full board. */
  lemma MinimaxTerminalScores(p: Position, player: Player)
    ensures HasWon(p, player) ==> Minimax(p, player) == (if player == X then 1 else -1, None)
    ensures !HasWon(p, player) && IsFull(p) ==> Minimax(p, player) == (0, None)
  {
  }
}
