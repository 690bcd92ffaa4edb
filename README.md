# Tic-tac-toe with a minimax opponent — a Dafny model

This project models the game logic of a small console tic-tac-toe program
written in Rust (`src/main.rs`). A human plays X against an automated player
O, and O picks its moves with an exhaustive minimax search. The model covers
the two parts of that logic:

- **Board model** (module `BoardModel`, file `board_model.dfy`): the players
  and their `opposite`, cells and `is_empty`, and the board as a value
  (`Position`: a 3×3 grid plus the player to move). It also holds the new
  board, move application as a function (`Play`), and the two queries
  `IsFull` and `HasWon`. `HasWon` works over the program's own table of
  eight winning lines. Mark counting and the turn invariant are here too:
  X has as many marks as O or one more, and X is to move exactly when the
  counts are equal.
- **Search engine** (module `SearchEngine`, file `search_engine.dfy`):
  `minimax` as a recursive function on board values. `Minimax` checks the
  terminal cases. `Scores` holds the adjusted child score of each of the
  nine cells in row-major order. `Pick` is the loop's "keep the strictly
  greater score" fold. The lemmas state the score range, when a move is
  returned and that it is legal, and that the result is the first strict
  maximum in row-major order.
- **The live board** (module `Game`, file `game.dfy`): a class `Board`
  holding an `array2<Cell>` and the player to move. Its unnamed
  constructor is `Board::new`. `MakeMove` updates the board in place.
  `Minimax` is the nested-loop search, proved equal to the search
  function, and it makes a fresh board copy for every child. `AiTurn` is
  the automated player's half of a turn of `play`.
- `wrappers.dfy` holds the `Option` and `Result` types.

The search follows the program as written, not a textbook minimax:

- The terminal test checks only `has_won(player)` for the side to move.
  The other side's win is not tested.
- A child's score is negated only when `player` is X.
- Both sides then keep the strictly greatest adjusted score, starting from
  the sentinel `i32::min_value()`.
- The child board gets its mark from the board's `current_player`
  (through `make_move`), not from the `player` argument.

So the model does not test "X has won, then O has won, then full" at every
node, and it makes no claim that the search plays optimally: neither is what
the code does.

As shown, the source does not compile. `Board` derives no `Clone`, so
`self.clone()` on line 116 does not produce an independent board, and
`new_board` is not declared `mut` although `make_move` needs that. The
evident intent is an independent copy of the board. The model does
exactly that: `Board.FromPosition` builds a fresh board, and the move is
applied to that copy.

Integer widths: `usize` coordinates are `nat`, and `i32` scores are `int`.
The sentinel keeps its value, -2147483648. Every score the search returns
is proved to lie in {-1, 0, 1}, so a negated child score never overflows.

## Model

| member | source | states |
|---|---|---|
| BoardModel.Player.Opposite | src/main.rs:13-18 | no player is its own opposite |
| BoardModel.OppositeInvolution | src/main.rs:13-18 | taking the opposite twice gives back the same player |
| BoardModel.Cell.IsEmpty | src/main.rs:28-33 | a cell is empty exactly when it holds neither X's nor O's mark |
| BoardModel.Initial | src/main.rs:42-47 | the new board has all nine cells empty and X to move |
| BoardModel.Play | src/main.rs:62-70 | a move succeeds exactly when row < 3, col < 3 and the cell is empty; on success only that cell changes, it becomes the old current player's mark, and the turn flips; on failure the error is "Move not allowed" |
| BoardModel.PlayFillsOneCell | src/main.rs:62-66 | a successful move leaves one fewer empty cell (the search's termination measure), adds one mark for the mover and none for the opponent |
| BoardModel.IsFull | src/main.rs:72-74 | the row-by-row `all` over `all` holds exactly when none of the nine cells is empty |
| BoardModel.NotFullHasLegalMove | src/main.rs:72-74 | a board that is not full has an in-range empty cell, so the search loop finds a move |
| BoardModel.OwnsAnyMeans | src/main.rs:91-96 | `any` over the line table holds exactly when some line of the table is entirely the player's |
| BoardModel.HasWonMeans | src/main.rs:76-97 | the eight-line table is won exactly when the player has a full row, a full column or a full diagonal |
| BoardModel.PlayKeepsTurnBalance | src/main.rs:62-66 | a successful move keeps X's mark count equal to O's or one more, with X to move exactly when they are equal |
| BoardModel.ReplayKeepsTurnBalance | src/main.rs:62-69 | any sequence of `make_move` calls, including refused ones, keeps the turn invariant |
| BoardModel.ReachableTurnBalanced | src/main.rs:42-47 | every board reached from the new board by `make_move` calls satisfies the turn invariant |
| SearchEngine.CellAt | src/main.rs:113-114 | step k of the nested loops visits an on-board cell whose row-major rank is k |
| SearchEngine.ScoresAt | src/main.rs:113-124 | the loop produces a score for cell (i, j) exactly when that cell is a legal move, and the score is the child's score negated iff the player is X |
| SearchEngine.PickKeepsSummary | src/main.rs:110-131 | the loop's invariant: it is still at the sentinel with no move when no score was seen yet; otherwise the best move is a seen cell holding the best score, no seen cell scores higher, and every cell before it scores strictly lower |
| SearchEngine.PickFindsFirstMaximum | src/main.rs:126-134 | after all nine cells the loop returns the first strict maximum, and it returns a move exactly when some cell produced a score |
| SearchEngine.ChildScoreRange | src/main.rs:116-124 | every adjusted child score is -1, 0 or 1, so it is always above the sentinel |
| SearchEngine.ScoresRange | src/main.rs:113-124 | every score the loop sees is -1, 0 or 1 |
| SearchEngine.MinimaxScoreRange | src/main.rs:99-134 | the search's score is always -1, 0 or 1, never the sentinel; proved by induction on the number of empty cells |
| SearchEngine.MinimaxTerminalScores | src/main.rs:100-108 | when the mover has won, the search returns (1, None) for X and (-1, None) for O; otherwise a full board gives (0, None) |
| SearchEngine.MinimaxMoveShape | src/main.rs:100-117 | the search returns no move exactly when the mover has won or the board is full; otherwise the move is in range and on an empty cell |
| SearchEngine.MinimaxNonTerminal | src/main.rs:110-134 | at a non-terminal board the score is the maximum adjusted child score over all empty cells, and the move is the first row-major empty cell that reaches it |
| SearchEngine.FirstStrictMaximumUnique | src/main.rs:126-129 | the strict `>` tie-break fixes both the score and the move |
| Game.Board.constructor | src/main.rs:42-47 | `Board::new` gives a fresh 3×3 grid whose value is the empty board with X to move |
| Game.Board.FromPosition | src/main.rs:116 | the board copy made for a child is a fresh array holding exactly the given board value |
| Game.Board.MakeMove | src/main.rs:62-70 | the in-place move succeeds exactly when in range and empty; it then writes the old current player's mark to that cell only and flips the turn. A refused move returns "Move not allowed" and leaves the cells and the turn unchanged. The board's new value is `Play` of its old value, and the turn invariant is preserved |
| Game.Board.Minimax | src/main.rs:99-135 | the nested-loop search returns exactly the search function's result on the receiver's value, so the score is in {-1, 0, 1}, there is no move exactly at terminal boards, and any move is legal and the first strict maximum; the receiver is not modified |
| Game.Board.ScoreChild | src/main.rs:116-124 | a fresh copy plus `make_move` (the `unwrap` never fails) plus a search for the opposite side gives the adjusted child score |
| Game.Board.AiTurn | src/main.rs:172-175 | the automated turn searches for O; when a move comes back, applying it never fails and the board becomes `Play` of the old board at that move; with no move the board is unchanged |

## Left out

- `display` (src/main.rs:49-60) only prints the grid. It is not modelled.
- The human half of `play` (src/main.rs:152-169) reads and parses console input and panics on text that is not a number. It is console I/O and is not modelled. The core only ever sees already-parsed coordinates, which are the `nat` arguments of `MakeMove`.
- The rest of the `play` loop is not modelled: the end-of-game checks and banners, and the printing of the AI's move and score (src/main.rs:139-150, 176-179). They are output only. `AiTurn` models the part of a turn that changes the board.
- `main` (src/main.rs:185-188) only creates a board and calls `play`.
- No claims of game-theoretic optimality are made, such as "the empty board scores 0" or "O blocks a threat". They do not follow from the code. Its terminal test ignores the opponent's win, and only X's child scores are negated.
- The model does not claim that X and O can never both have won. Alternating legal `make_move` calls can reach such a board, for example X on row 0 and O on row 1. Only the per-turn checks of the `play` loop end the game earlier.
- Machine integer widths: `usize` and `i32` are modelled as unbounded `nat` and `int`. No wrap-around can occur, because coordinates are below 3 and scores lie in {-1, 0, 1}.
- There is no separate legal-moves function in the program: the nested loops enumerate the empty cells, and `Scores` and `Pick` model them in row-major order.
