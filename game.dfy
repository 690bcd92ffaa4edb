/**
 * The live game board: a 3x3 array of cells and the side to move, updated in
 * place by `make_move`, searched by `minimax` through independent copies, and
 * advanced by the automated player's turn.
 */
module Game {
  import opened Wrappers
  import opened BoardModel
  import opened SearchEngine

  class Board {
    var cells: array2<Cell>
    var currentPlayer: Player

    /** The grid is always 3 by 3. */
    ghost predicate Valid()
      reads this
    {
      cells.Length0 == 3 && cells.Length1 == 3
    }

    /** The board as a value: what the queries and the search look at. */
    function Snapshot(): (p: Position)
      reads this, cells
      requires Valid()
      ensures p.currentPlayer == currentPlayer
      ensures forall i, j :: 0 <= i < 3 && 0 <= j < 3 ==> p.cells[i][j] == cells[i, j]
    {
      var a := cells;
      Position(seq(3, i requires 0 <= i < 3 reads a =>
                 seq(3, j requires 0 <= j < 3 reads a => a[i, j])),
               currentPlayer)
    }

    /** `Board::new`: all cells empty, X to move. */
    constructor ()
      ensures Valid() && fresh(cells)
      ensures Snapshot() == Initial()
    {
      cells := new Cell[3, 3]((i, j) => Empty);
      currentPlayer := X;
      new;
      PositionExtensionality(Snapshot(), Initial());
    }

    /** An independent copy of a board value: the copy the search makes of each board it explores. */
    constructor FromPosition(p: Position)
      ensures Valid() && fresh(cells)
      ensures Snapshot() == p
    {
      var a := new Cell[3, 3];
      for i := 0 to 3
        invariant forall r, c :: 0 <= r < i && 0 <= c < 3 ==> a[r, c] == p.cells[r][c]
      {
        for j := 0 to 3
          invariant forall r, c :: 0 <= r < i && 0 <= c < 3 ==> a[r, c] == p.cells[r][c]
          invariant forall c :: 0 <= c < j ==> a[i, c] == p.cells[i][c]
        {
          a[i, j] := p.cells[i][j];
        }
      }
      cells := a;
      currentPlayer := p.currentPlayer;
      new;
      PositionExtensionality(Snapshot(), p);
    }

    /**
     * `make_move`: on an in-range empty cell, put the current player's mark
     * there and pass the turn; otherwise refuse with "Move not allowed" and
     * change nothing.
     */
    method MakeMove(row: nat, col: nat) returns (r: Result<(), string>)
      requires Valid()
      modifies this, cells
      ensures Valid() && cells == old(cells)
      ensures r.Ok? <==> row < 3 && col < 3 && old(cells[row, col]).IsEmpty()
      ensures r.Ok? ==> cells[row, col] == Occupied(old(currentPlayer)) && currentPlayer == old(currentPlayer).Opposite()
      ensures r.Ok? ==> forall i, j :: 0 <= i < 3 && 0 <= j < 3 && (i != row || j != col) ==> cells[i, j] == old(cells[i, j])
      ensures r.Err? ==> r.error == MoveNotAllowed && currentPlayer == old(currentPlayer) && unchanged(cells)
      ensures Play(old(Snapshot()), row, col).Ok? ==> r.Ok? && Snapshot() == Play(old(Snapshot()), row, col).value
      ensures Play(old(Snapshot()), row, col).Err? ==> r == Err(MoveNotAllowed) && Snapshot() == old(Snapshot())
      ensures TurnBalanced(old(Snapshot())) ==> TurnBalanced(Snapshot())
    {
      ghost var before := Snapshot();
      if row < 3 && col < 3 && cells[row, col].IsEmpty() {
        cells[row, col] := Occupied(currentPlayer);
        currentPlayer := currentPlayer.Opposite();
        r := Ok(());
        PositionExtensionality(Snapshot(), Play(before, row, col).value);
        if TurnBalanced(before) {
          PlayKeepsTurnBalance(before, row, col);
        }
      } else {
        r := Err(MoveNotAllowed);
      }
    }

    /**
     * `minimax(player)`: the nested row-major loops over the empty cells,
     * keeping the first strictly greatest adjusted child score. The receiver
     * is not modified.
     */
    method Minimax(player: Player) returns (score: int, best: Option<Move>)
      requires Valid()
      ensures (score, best) == SearchEngine.Minimax(Snapshot(), player)
      ensures -1 <= score <= 1
      ensures best.None? <==> HasWon(Snapshot(), player) || IsFull(Snapshot())
      ensures best.Some? ==> IsLegal(Snapshot(), best.value.0, best.value.1)
      ensures best.Some? ==> FirstStrictMaximum(Snapshot(), player, score, best)
      decreases Empties(Snapshot()), 2
    {
      var p := Snapshot();
      MinimaxMoveShape(p, player);
      if HasWon(p, player) {
        if player == X {
          return 1, None;
        } else {
          return -1, None;
        }
      } else if IsFull(p) {
        return 0, None;
      }

      ghost var scores := Scores(p, player);
      var bestScore := Sentinel;
      var bestMove: Option<Move> := None;
      for i := 0 to 3
        invariant Pick(scores, 3 * i, bestScore, bestMove) == Pick(scores, 0, Sentinel, None)
      {
        for j := 0 to 3
          invariant Pick(scores, 3 * i + j, bestScore, bestMove) == Pick(scores, 0, Sentinel, None)
        {
          ScoresAt(p, player, i, j);
          if p.cells[i][j].IsEmpty() {
            var s := ScoreChild(p, player, i, j);
            if s > bestScore {
              bestScore := s;
              bestMove := Some((i, j));
            }
          }
        }
      }
      MinimaxScoreRange(p, player);
      MinimaxNonTerminal(p, player);
      return bestScore, bestMove;
    }

    /**
     * One step of the search loop: copy the board, apply the move (i, j) to the
     * copy (the `unwrap` never fails), search the copy for the opposite side,
     * and negate the child's score when `player` is X.
     */
    static method ScoreChild(p: Position, player: Player, i: nat, j: nat) returns (s: int)
      requires IsLegal(p, i, j)
      ensures s == ChildScore(p, player, i, j)
      decreases Empties(p), 0
    {
      var child := new Board.FromPosition(p);
      var moved := child.MakeMove(i, j);
      assert moved.Ok?;
      PlayFillsOneCell(p, i, j);
      var childScore, _ := child.Minimax(player.Opposite());
      s := if player == X then -childScore else childScore;
    }

    /**
     * The automated player's half of a turn of `play`: search for O and, when a
     * move comes back, apply it; that `make_move` never fails.
     */
    method AiTurn() returns (score: int, played: Option<Move>)
      requires Valid()
      modifies this, cells
      ensures Valid() && cells == old(cells)
      ensures (score, played) == SearchEngine.Minimax(old(Snapshot()), O)
      ensures played.None? ==> Snapshot() == old(Snapshot())
      ensures played.Some? ==> Play(old(Snapshot()), played.value.0, played.value.1).Ok? &&
                               Snapshot() == Play(old(Snapshot()), played.value.0, played.value.1).value
    {
      score, played := Minimax(O);
      if played.Some? {
        var moved := MakeMove(played.value.0, played.value.1);
        assert moved.Ok?;
      }
    }
  }
}
