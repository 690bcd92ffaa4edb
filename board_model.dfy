/**
 * The board model of the game: players, cells, the 3x3 grid with the side to
 * move, move application and the two terminal-state queries. Everything here
 * is a value; the mutable board that the game loop owns lives in module Game.
 */
module BoardModel {
  import opened Wrappers

  /** The two sides. X always moves first. */
  datatype Player = X | O {
    /** The other side. */
    function Opposite(): (q: Player)
      ensures q != this
    {
      match this
      case X => O
      case O => X
    }
  }

  /** Flipping the side to move twice gives back the same side. */
  lemma OppositeInvolution(p: Player)
    ensures p.Opposite().Opposite() == p
    ensures p.Opposite() != p
  {
  }

  /** A square of the grid: empty, or holding one player's mark. */
  datatype Cell = Empty | Occupied(owner: Player) {
    /** True when no player's mark is on the square. */
    function IsEmpty(): (r: bool)
      ensures r <==> this != Occupied(X) && this != Occupied(O)
    {
      match this
      case Empty => true
      case Occupied(pl) => assert pl == X || pl == O; false
    }
  }

  /** Three rows of three cells, indexed [row][col], rows and columns 0..2. */
  type Grid = g: seq<seq<Cell>> | |g| == 3 && forall i :: 0 <= i < 3 ==> |g[i]| == 3
    witness [[Empty, Empty, Empty], [Empty, Empty, Empty], [Empty, Empty, Empty]]

  /** A board value: the grid and the player whose mark the next move places. */
  datatype Position = Position(cells: Grid, currentPlayer: Player)

  /** A coordinate that lies on the board. */
  type Square = s: (nat, nat) | s.0 < 3 && s.1 < 3 witness (0, 0)

  /** The board a new game starts from. */
  function Initial(): (p: Position)
    ensures p.currentPlayer == X
    ensures forall i, j :: 0 <= i < 3 && 0 <= j < 3 ==> p.cells[i][j] == Empty
  {
    Position([[Empty, Empty, Empty], [Empty, Empty, Empty], [Empty, Empty, Empty]], X)
  }

  /** Two positions with the same side to move and the same nine cells are equal. */
  lemma PositionExtensionality(a: Position, b: Position)
    requires a.currentPlayer == b.currentPlayer
    requires forall i, j :: 0 <= i < 3 && 0 <= j < 3 ==> a.cells[i][j] == b.cells[i][j]
    ensures a == b
  {
    forall i | 0 <= i < 3
      ensures a.cells[i] == b.cells[i]
    {
      assert forall j :: 0 <= j < 3 ==> a.cells[i][j] == b.cells[i][j];
    }
  }

  // ---------------------------------------------------------------------------
  // Moves

  /** The message the source attaches to a refused move. */
  const MoveNotAllowed: string := "Move not allowed"

  /** A move to (row, col) is accepted exactly when it is on the board and the square is empty. */
  predicate IsLegal(p: Position, row: nat, col: nat)
  {
    row < 3 && col < 3 && p.cells[row][col].IsEmpty()
  }

  /**
   * The effect of `make_move` on a board value: either the current player's
   * mark goes on (row, col) and the turn passes, or the move is refused.
   */
  function Play(p: Position, row: nat, col: nat): (r: Result<Position, string>)
    ensures r.Ok? <==> IsLegal(p, row, col)
    ensures r.Err? ==> r.error == MoveNotAllowed
    ensures r.Ok? ==> r.value.currentPlayer == p.currentPlayer.Opposite()
    ensures r.Ok? ==> r.value.cells[row][col] == Occupied(p.currentPlayer)
    ensures r.Ok? ==> forall i, j :: 0 <= i < 3 && 0 <= j < 3 && (i != row || j != col) ==>
                        r.value.cells[i][j] == p.cells[i][j]
  {
    if row < 3 && col < 3 && p.cells[row][col].IsEmpty() then
      Ok(Position(p.cells[row := p.cells[row][col := Occupied(p.currentPlayer)]], p.currentPlayer.Opposite()))
    else
      Err(MoveNotAllowed)
  }

  // ---------------------------------------------------------------------------
  // Queries

  /** Every cell of the row carries a mark. */
  function RowFilled(row: seq<Cell>): bool
  {
    row == [] || (!row[0].IsEmpty() && RowFilled(row[1..]))
  }

  /** Every row of the grid is filled. */
  function RowsFilled(rows: seq<seq<Cell>>): bool
  {
    rows == [] || (RowFilled(rows[0]) && RowsFilled(rows[1..]))
  }

  lemma {:induction false} RowFilledMeans(row: seq<Cell>)
    ensures RowFilled(row) <==> forall j :: 0 <= j < |row| ==> !row[j].IsEmpty()
  {
    if row != [] {
      RowFilledMeans(row[1..]);
      assert forall j :: 1 <= j < |row| ==> row[j] == row[1..][j - 1];
    }
  }

  lemma {:induction false} RowsFilledMeans(rows: seq<seq<Cell>>)
    ensures RowsFilled(rows) <==> forall i, j :: 0 <= i < |rows| && 0 <= j < |rows[i]| ==> !rows[i][j].IsEmpty()
  {
    if rows != [] {
      RowFilledMeans(rows[0]);
      RowsFilledMeans(rows[1..]);
      assert forall i :: 1 <= i < |rows| ==> rows[i] == rows[1..][i - 1];
    }
  }

  /** `is_full`: no empty cell is left (a row-by-row `all` over `all`). */
  function IsFull(p: Position): (r: bool)
    ensures r <==> forall i, j :: 0 <= i < 3 && 0 <= j < 3 ==> !p.cells[i][j].IsEmpty()
  {
    RowsFilledMeans(p.cells);
    RowsFilled(p.cells)
  }

  /** A board that is not full has a legal move. */
  lemma NotFullHasLegalMove(p: Position)
    requires !IsFull(p)
    ensures exists i: nat, j: nat :: IsLegal(p, i, j)
  {
    var i, j :| 0 <= i < 3 && 0 <= j < 3 && p.cells[i][j].IsEmpty();
    assert IsLegal(p, i, j);
  }

  /** The eight winning lines of the source's table: three rows, three columns, two diagonals. */
  const WinPositions: seq<seq<Square>> := [
    [(0, 0), (0, 1), (0, 2)],
    [(1, 0), (1, 1), (1, 2)],
    [(2, 0), (2, 1), (2, 2)],
    [(0, 0), (1, 0), (2, 0)],
    [(0, 1), (1, 1), (2, 1)],
    [(0, 2), (1, 2), (2, 2)],
    [(0, 0), (1, 1), (2, 2)],
    [(0, 2), (1, 1), (2, 0)]
  ]

  /** `player` holds every square of `line`. */
  function Owns(p: Position, player: Player, line: seq<Square>): bool
  {
    line == [] || (p.cells[line[0].0][line[0].1] == Occupied(player) && Owns(p, player, line[1..]))
  }

  /** `player` holds every square of at least one line of `lines`. */
  function OwnsAny(p: Position, player: Player, lines: seq<seq<Square>>): bool
  {
    lines != [] && (Owns(p, player, lines[0]) || OwnsAny(p, player, lines[1..]))
  }

  /** `player`'s mark is on square (i, j). */
  predicate Marked(p: Position, player: Player, i: nat, j: nat)
    requires i < 3 && j < 3
  {
    p.cells[i][j] == Occupied(player)
  }

  /** Three in a row, stated directly: a full row, a full column, or a full diagonal. */
  predicate ThreeInARow(p: Position, player: Player)
  {
    (exists i: nat :: i < 3 && Marked(p, player, i, 0) && Marked(p, player, i, 1) && Marked(p, player, i, 2)) ||
    (exists j: nat :: j < 3 && Marked(p, player, 0, j) && Marked(p, player, 1, j) && Marked(p, player, 2, j)) ||
    (Marked(p, player, 0, 0) && Marked(p, player, 1, 1) && Marked(p, player, 2, 2)) ||
    (Marked(p, player, 0, 2) && Marked(p, player, 1, 1) && Marked(p, player, 2, 0))
  }

  /** `has_won`: some line of the table is entirely `player`'s. */
  function HasWon(p: Position, player: Player): bool
  {
    OwnsAny(p, player, WinPositions)
  }

  /** A line of three squares is owned exactly when all three squares carry the mark. */
  lemma OwnsLineOfThree(p: Position, player: Player, a: Square, b: Square, c: Square)
    ensures Owns(p, player, [a, b, c]) <==>
            Marked(p, player, a.0, a.1) && Marked(p, player, b.0, b.1) && Marked(p, player, c.0, c.1)
  {
    assert [c][1..] == [];
    assert Owns(p, player, [c]) <==> Marked(p, player, c.0, c.1);
    assert [b, c][1..] == [c];
    assert Owns(p, player, [b, c]) <==> Marked(p, player, b.0, b.1) && Owns(p, player, [c]);
    assert [a, b, c][1..] == [b, c];
  }

  /** `any` over a table of lines: some line of the table is owned. */
  lemma {:induction false} OwnsAnyMeans(p: Position, player: Player, lines: seq<seq<Square>>)
    ensures OwnsAny(p, player, lines) <==> exists k :: 0 <= k < |lines| && Owns(p, player, lines[k])
  {
    if lines != [] {
      OwnsAnyMeans(p, player, lines[1..]);
      assert forall k :: 1 <= k < |lines| ==> lines[k] == lines[1..][k - 1];
    }
  }

  /** Each line of the table, read as its three squares. */
  lemma TableLines(p: Position, player: Player)
    ensures Owns(p, player, WinPositions[0]) <==> Marked(p, player, 0, 0) && Marked(p, player, 0, 1) && Marked(p, player, 0, 2)
    ensures Owns(p, player, WinPositions[1]) <==> Marked(p, player, 1, 0) && Marked(p, player, 1, 1) && Marked(p, player, 1, 2)
    ensures Owns(p, player, WinPositions[2]) <==> Marked(p, player, 2, 0) && Marked(p, player, 2, 1) && Marked(p, player, 2, 2)
    ensures Owns(p, player, WinPositions[3]) <==> Marked(p, player, 0, 0) && Marked(p, player, 1, 0) && Marked(p, player, 2, 0)
    ensures Owns(p, player, WinPositions[4]) <==> Marked(p, player, 0, 1) && Marked(p, player, 1, 1) && Marked(p, player, 2, 1)
    ensures Owns(p, player, WinPositions[5]) <==> Marked(p, player, 0, 2) && Marked(p, player, 1, 2) && Marked(p, player, 2, 2)
    ensures Owns(p, player, WinPositions[6]) <==> Marked(p, player, 0, 0) && Marked(p, player, 1, 1) && Marked(p, player, 2, 2)
    ensures Owns(p, player, WinPositions[7]) <==> Marked(p, player, 0, 2) && Marked(p, player, 1, 1) && Marked(p, player, 2, 0)
  {
    OwnsLineOfThree(p, player, (0, 0), (0, 1), (0, 2));
    OwnsLineOfThree(p, player, (1, 0), (1, 1), (1, 2));
    OwnsLineOfThree(p, player, (2, 0), (2, 1), (2, 2));
    OwnsLineOfThree(p, player, (0, 0), (1, 0), (2, 0));
    OwnsLineOfThree(p, player, (0, 1), (1, 1), (2, 1));
    OwnsLineOfThree(p, player, (0, 2), (1, 2), (2, 2));
    OwnsLineOfThree(p, player, (0, 0), (1, 1), (2, 2));
    OwnsLineOfThree(p, player, (0, 2), (1, 1), (2, 0));
  }

  /** A won table line is a full row, column or diagonal. */
  lemma HasWonIsThreeInARow(p: Position, player: Player)
    requires HasWon(p, player)
    ensures ThreeInARow(p, player)
  {
    OwnsAnyMeans(p, player, WinPositions);
    TableLines(p, player);
    var k :| 0 <= k < 8 && Owns(p, player, WinPositions[k]);
    if k < 3 {
      assert Marked(p, player, k, 0) && Marked(p, player, k, 1) && Marked(p, player, k, 2);
    } else if k < 6 {
      assert Marked(p, player, 0, k - 3) && Marked(p, player, 1, k - 3) && Marked(p, player, 2, k - 3);
    }
  }

  /** A full row, column or diagonal is a line of the table. */
  lemma ThreeInARowIsHasWon(p: Position, player: Player)
    requires ThreeInARow(p, player)
    ensures HasWon(p, player)
  {
    OwnsAnyMeans(p, player, WinPositions);
    TableLines(p, player);
    if exists i: nat :: i < 3 && Marked(p, player, i, 0) && Marked(p, player, i, 1) && Marked(p, player, i, 2) {
      var i: nat :| i < 3 && Marked(p, player, i, 0) && Marked(p, player, i, 1) && Marked(p, player, i, 2);
      assert Owns(p, player, WinPositions[i]);
    } else if exists j: nat :: j < 3 && Marked(p, player, 0, j) && Marked(p, player, 1, j) && Marked(p, player, 2, j) {
      var j: nat :| j < 3 && Marked(p, player, 0, j) && Marked(p, player, 1, j) && Marked(p, player, 2, j);
      assert Owns(p, player, WinPositions[3 + j]);
    } else if Marked(p, player, 0, 0) && Marked(p, player, 1, 1) && Marked(p, player, 2, 2) {
      assert Owns(p, player, WinPositions[6]);
    } else {
      assert Owns(p, player, WinPositions[7]);
    }
  }

  /** The table of eight lines is exactly the rows, the columns and the two diagonals. */
  lemma HasWonMeans(p: Position, player: Player)
    ensures HasWon(p, player) <==> ThreeInARow(p, player)
  {
    if HasWon(p, player) {
      HasWonIsThreeInARow(p, player);
    }
    if ThreeInARow(p, player) {
      ThreeInARowIsHasWon(p, player);
    }
  }

  // ---------------------------------------------------------------------------
  // Counting marks

  /** Number of cells equal to `c` in one row. */
  function CountRow(row: seq<Cell>, c: Cell): nat
  {
    if row == [] then 0 else (if row[0] == c then 1 else 0) + CountRow(row[1..], c)
  }

  /** Number of cells equal to `c` in a grid. */
  function CountRows(rows: seq<seq<Cell>>, c: Cell): nat
  {
    if rows == [] then 0 else CountRow(rows[0], c) + CountRows(rows[1..], c)
  }

  /** Number of cells of the position equal to `c`. */
  function Count(p: Position, c: Cell): nat
  {
    CountRows(p.cells, c)
  }

  /** Replacing one cell of a row changes its count of `c` by the cell's own contribution. */
  lemma {:induction false} CountRowUpdate(row: seq<Cell>, j: nat, v: Cell, c: Cell)
    requires j < |row|
    ensures CountRow(row[j := v], c) ==
            CountRow(row, c) - (if row[j] == c then 1 else 0) + (if v == c then 1 else 0)
  {
    if j == 0 {
      assert row[j := v][1..] == row[1..];
    } else {
      CountRowUpdate(row[1..], j - 1, v, c);
      assert row[j := v][1..] == row[1..][j - 1 := v];
    }
  }

  /** Replacing one cell of a grid changes its count of `c` by the cell's own contribution. */
  lemma {:induction false} CountRowsUpdate(rows: seq<seq<Cell>>, i: nat, j: nat, v: Cell, c: Cell)
    requires i < |rows| && j < |rows[i]|
    ensures CountRows(rows[i := rows[i][j := v]], c) ==
            CountRows(rows, c) - (if rows[i][j] == c then 1 else 0) + (if v == c then 1 else 0)
  {
    if i == 0 {
      assert rows[i := rows[i][j := v]][1..] == rows[1..];
      CountRowUpdate(rows[0], j, v, c);
    } else {
      CountRowsUpdate(rows[1..], i - 1, j, v, c);
      assert rows[i := rows[i][j := v]][1..] == rows[1..][i - 1 := rows[i][j := v]];
    }
  }

  /**
   * A successful move fills exactly one empty cell: one fewer empty cell, one
   * more mark of the mover, and the opponent's marks untouched.
   */
  lemma PlayFillsOneCell(p: Position, row: nat, col: nat)
    requires IsLegal(p, row, col)
    ensures Play(p, row, col).Ok?
    ensures Count(Play(p, row, col).value, Empty) == Count(p, Empty) - 1
    ensures Count(Play(p, row, col).value, Occupied(p.currentPlayer)) == Count(p, Occupied(p.currentPlayer)) + 1
    ensures Count(Play(p, row, col).value, Occupied(p.currentPlayer.Opposite())) == Count(p, Occupied(p.currentPlayer.Opposite()))
  {
    var v := Occupied(p.currentPlayer);
    assert Play(p, row, col).value.cells == p.cells[row := p.cells[row][col := v]];
    CountRowsUpdate(p.cells, row, col, v, Empty);
    CountRowsUpdate(p.cells, row, col, v, v);
    CountRowsUpdate(p.cells, row, col, v, Occupied(p.currentPlayer.Opposite()));
  }

  // ---------------------------------------------------------------------------
  // The turn invariant

  /**
   * X moves first and the players alternate: X has as many marks as O or one
   * more, and X is to move exactly when the counts are equal.
   */
  predicate TurnBalanced(p: Position)
  {
    var xs, os := Count(p, Occupied(X)), Count(p, Occupied(O));
    (xs == os || xs == os + 1) && (p.currentPlayer == X <==> xs == os)
  }

  /** Applies a sequence of attempted moves in order; a refused move leaves the board as it was. */
  function Replay(p: Position, moves: seq<(nat, nat)>): Position
    decreases |moves|
  {
    if moves == [] then p
    else
      var r := Play(p, moves[0].0, moves[0].1);
      Replay(if r.Ok? then r.value else p, moves[1..])
  }

  /** A successful move keeps the turn invariant. */
  lemma PlayKeepsTurnBalance(p: Position, row: nat, col: nat)
    requires TurnBalanced(p) && IsLegal(p, row, col)
    ensures TurnBalanced(Play(p, row, col).value)
  {
    PlayFillsOneCell(p, row, col);
  }

  /** The new board is balanced, and so is every board reached from it by `make_move` calls. */
  lemma {:induction false} ReplayKeepsTurnBalance(p: Position, moves: seq<(nat, nat)>)
    requires TurnBalanced(p)
    ensures TurnBalanced(Replay(p, moves))
    decreases |moves|
  {
    if moves != [] {
      var r := Play(p, moves[0].0, moves[0].1);
      if r.Ok? {
        PlayKeepsTurnBalance(p, moves[0].0, moves[0].1);
      }
      ReplayKeepsTurnBalance(if r.Ok? then r.value else p, moves[1..]);
    }
  }

  /** Every board reachable from the new board by `make_move` calls satisfies the turn invariant. */
  lemma ReachableTurnBalanced(moves: seq<(nat, nat)>)
    ensures TurnBalanced(Replay(Initial(), moves))
  {
    var p := Initial();
    assert p.cells == [[Empty, Empty, Empty], [Empty, Empty, Empty], [Empty, Empty, Empty]];
    assert Count(p, Occupied(X)) == 0 && Count(p, Occupied(O)) == 0;
    ReplayKeepsTurnBalance(p, moves);
  }
}
