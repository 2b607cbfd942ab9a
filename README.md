# Tic-tac-toe game state machine

This project models the `Game` class of `tictactoe.py`. That class runs a series of tic-tac-toe rounds on a 3x3 grid of nine LEDs:

- a navigation button moves a cursor over the free cells;
- a select button places the current player's mark;
- after each placement the game checks for a complete line or a full board, scores the round, passes the turn, and resets the series when no chance is left.

In computer-versus-human mode, the computer picks its own move.

The model has four modules:

- `Board` (`board.dfy`): the nine cells as the LEDs' `selected` values (0 free, 1 or 2 the player). It defines:
  - the eight lines, in the order `check_for_win` tests them;
  - the full-board test;
  - the cyclic cursor step `pos % 9 + 1`;
  - the list of free cells.
- `Transitions` (`transitions.dfy`): the fields of a `Game` as a value, `GameState`. It has:
  - one function per method, saying what that method does to the state;
  - the lemmas about what the game promises across calls: the three outcomes of a selection, the end of a series, and an invariant that every operation keeps.
- `ComputerMove` (`computer.dfy`): the two scans of `do_computer_move`, stated as functions, plus the two findings below and the move the code's comments describe.
- `TicTacToe` (`game.dfy`): the class `Game`, with the same fields as the source.
  - The `selected` and `matched` fields of the nine `Led` objects are two arrays, indexed like `self.leds`.
  - Every method updates these fields in place.
  - Each method is proved against a function or relation over `Model()`, mostly the function of the same name in `Transitions`. A few are proved instead against `IsFull`, `ScanResult`, the relation `ComputerMoved`, or an update of the old state.
  - The loops of `navigate`, `do_all_leds_selected`, `reset_all_leds`, `check_for_win` and the two scans of `do_computer_move` are `while`/`for` loops with invariants.

Exceptions are modelled as a returned `Status`:

- `navigate` raises 'All LEDs are selected';
- `do_computer_move` raises the same on a full board;
- `select` raises 'Please select a position ...' or 'This position is already selected'.

Each error leaves the state unchanged. `handle_selection` catches `select`'s exception, so a rejected selection changes nothing. `random.choice` is a nondeterministic pick among the possible moves, and `time.time()` is a parameter `now`.

The comments in `do_computer_move` (lines 339, 354 and 370) describe the computer playing a winning move if there is one, otherwise a block, otherwise a random move. Line 371 overwrites whatever the two scans found. The model follows the code, and the rows under "## Findings" give both readings.

## Model

| member | source | states |
|---|---|---|
| Board.FirstCompleteFromIsFirst | tictactoe.py:403-430 | scanning the lines from index `k` on stops only at a complete line, and finds none exactly when no line from `k` on is complete |
| Board.FirstWinLineIsFirst | tictactoe.py:403-430 | a line is found exactly when the board has a complete line (three equal non-zero marks), and no line before the one found, in the order rows, columns, diagonal, anti-diagonal, is complete |
| Board.FirstWinLineIs | tictactoe.py:403-430 | a complete line with no complete line before it is the one check_for_win flags |
| Board.FirstWinLineNone | tictactoe.py:430 | with no complete line, no line is flagged |
| Board.MarkLine | tictactoe.py:408-410 | afterwards a cell is flagged exactly when it was flagged before or lies on line `k` |
| Board.AdvanceStep | tictactoe.py:293-298 | one cursor step from `pos` is the first advance, and one more step advances by one more cell |
| Board.AdvanceReaches | tictactoe.py:293-298 | every cell is reached within nine cursor steps, from any start |
| Board.NinthStepFree | tictactoe.py:290-298 | on a board that is not full, when the first eight steps meet taken cells the ninth meets a free one, so the loop of navigate ends |
| Board.FreeOffsetFinds | tictactoe.py:296-298 | the search stops on a free cell, and every step before it meets a taken cell |
| Board.NextFree | tictactoe.py:293-298 | the cursor lands on a free cell in 1..9, and every earlier step of the walk meets a taken cell |
| Board.NextFreeIsFirstFree | tictactoe.py:293-298 | the cursor lands on the first free cell strictly after its position, in cyclic order |
| Board.NextFreeOnlyCell | tictactoe.py:293-298 | with one free cell left, the cursor lands on that cell from any position |
| Board.FirstCompleteFrom | tictactoe.py:403-430 | the line scan of check_for_win from line `k` on: a line it returns lies at `k` or later and is complete (minimality in `FirstCompleteFromIsFirst`) |
| Board.FirstWinLine | tictactoe.py:403-430 | the line check_for_win flags: a line it returns is complete (exactly-when and first-ness in `FirstWinLineIsFirst`) |
| Board.FreeOffset | tictactoe.py:296-298 | the number of cursor steps the while loop of navigate takes, searching from step `d`: between `d` and 9 (it stops on a free cell, by `FreeOffsetFinds`) |
| Board.FreeFrom | tictactoe.py:337 | holds exactly the free cells at index `i` or later |
| Board.FreeFromAscending | tictactoe.py:337 | the free cells from `i` on come in strictly ascending order |
| Board.PossibleMoves | tictactoe.py:337 | holds exactly the 0-based indices of the free cells, and is empty exactly when the board is full |
| Board.PossibleMovesAscending | tictactoe.py:337 | possible_moves is in strictly ascending order, as enumerate yields it |
| Transitions.Other | tictactoe.py:390 | the other player differs from the current one |
| Transitions.Initial | tictactoe.py:98-112 | the state __init__ gives: well-formed exactly when there are nine LEDs; the LEDs' fields as given, no position, every chance remaining, both scores 0, player 1 to play and playing first, neither started nor finished |
| Transitions.CheckForWin | tictactoe.py:403-430 | defines check_for_win on the state, keeping its shape; its behaviour is stated by `CheckForWinFlagsFirstLine` |
| Transitions.SwitchPlayers | tictactoe.py:388-397 | only the current player, computer_move and its start time change; the player is the other one; computer_move is toggled exactly in computer mode; the start time becomes `now` exactly when the computer's turn begins, and is kept otherwise |
| Transitions.AnnounceWin | tictactoe.py:438-442 | defines the score bookkeeping of announce_win, keeping the state's shape; its effect within handle_selection is stated by `ScoreSelectionWins` and `HandleSelectionWins` |
| Transitions.AnnounceDraw | tictactoe.py:450-454 | defines the score bookkeeping of announce_draw, keeping the state's shape; its effect is stated by `ScoreSelectionDraws` and `HandleSelectionDraws` |
| Transitions.ResetAllLeds | tictactoe.py:135-138 | defines reset_all_leds (every LED free and unflagged), keeping the state's shape; the loop of `TicTacToe.Game.ResetAllLeds` is proved to reach it |
| Transitions.PlayNextChance | tictactoe.py:476-482 | defines play_next_chance, keeping the state's shape; its effect is stated by `PlayNextChanceSwitchesFirstPlayer` |
| Transitions.ResetGame | tictactoe.py:488-502 | defines reset_game, keeping the state's shape; its effect is stated by `ResetGameRestoresInitial` and `ResetGameForgetsSeries` |
| Transitions.ScoreSelection | tictactoe.py:508-513 | defines the middle of handle_selection, keeping the state's shape; its three cases are stated by `ScoreSelectionWins`, `ScoreSelectionDraws` and `ScoreSelectionGoesOn` |
| Transitions.EndTurn | tictactoe.py:515-521 | defines the end of handle_selection, keeping the state's shape; its three cases are stated by `EndTurnKeepsTurn`, `EndTurnPassesTurn` and `EndTurnResets` |
| Transitions.HandleSelection | tictactoe.py:504-525 | defines handle_selection, keeping the state's shape; its paths are stated by the `HandleSelection...` lemmas below |
| Transitions.ComputerMoved | tictactoe.py:326-371 | what do_computer_move may leave: success exactly when the board is not full; the board and flags unchanged; on success a position that is the 0-based index of a free cell |
| Transitions.Navigate | tictactoe.py:288-298 | fails with AllLedsSelected, changing nothing, exactly when the board is full; otherwise only the cursor changes, and it moves to a free cell in 1..9 |
| Transitions.Select | tictactoe.py:373-386 | NoPosition exactly when the position is 0; Ok exactly when the cell under the cursor is free; a rejection changes nothing; Ok puts the current player's mark on that one cell and changes nothing else |
| Transitions.NavigateGoesToNextFree | tictactoe.py:288-298 | navigate succeeds on a board that is not full; it moves the cursor some number `d` of steps to a free cell, every earlier step meets a taken cell, and nothing else changes |
| Transitions.CheckForWinFlagsFirstLine | tictactoe.py:403-430 | reports a win exactly when some line is complete, changes only the flags, and changes them only on a win; it then flags exactly the cells of the first complete line |
| Transitions.HandleSelectionRejected | tictactoe.py:504-525 | a selection without a position, or on a taken cell, returns select's error and changes nothing |
| Transitions.Won | tictactoe.py:508-511 | the state after a win is scored: cursor cleared, first complete line flagged, +100 for the current player, one chance used, round finished; it keeps the state's shape |
| Transitions.ScoreSelectionWins | tictactoe.py:508-511 | on a board with a complete line, the middle of handle_selection gives exactly `Won` |
| Transitions.ScoreSelectionDraws | tictactoe.py:508-513 | on a full board without a line: cursor cleared, +50 for both players, one chance used, round finished |
| Transitions.ScoreSelectionGoesOn | tictactoe.py:508-513 | with neither a line nor a full board, only the cursor is cleared |
| Transitions.EndTurnKeepsTurn | tictactoe.py:515-521 | a finished round with chances left keeps the turn and changes nothing |
| Transitions.EndTurnPassesTurn | tictactoe.py:515-516 | a round that goes on passes the turn via switch_players |
| Transitions.EndTurnResets | tictactoe.py:518-521 | with no chance left, the game is reset |
| Transitions.HandleSelectionWins | tictactoe.py:504-521 | a selection that completes a line returns Ok and exactly `Won` of the state with the mark placed: the winner scores 100, remaining chances drop by exactly 1, the round is finished, the first complete line is flagged, the cursor is 0, the player is not switched, and nothing else changes |
| Transitions.WinIsCurrentPlayers | tictactoe.py:403-442 | when a selection completes a line on a board that had none, the line check_for_win flags holds three marks of the current player, so announce_win credits the player who made the line; the invariant gives "no line" for every round that goes on |
| Transitions.OffLineKept | tictactoe.py:381-386 | a mark placed off line `k` does not change whether line `k` is complete |
| Transitions.HandleSelectionDraws | tictactoe.py:504-521 | a selection that fills the board without a line: both players score 50, remaining chances drop by 1, the round is finished, the cursor is 0 and the player is not switched |
| Transitions.HandleSelectionPassesTurn | tictactoe.py:504-521 | a selection with neither outcome in a running round: the whole new state is switch_players of the state with the mark placed and the cursor 0, so the other player is next, the computer's turn is toggled in computer mode, and scores, chances and flags are kept |
| Transitions.HandleSelectionAfterRoundEnd | tictactoe.py:504-521 | in a finished round, a selection with neither outcome only places the mark and clears the cursor |
| Transitions.HandleSelectionEndsSeries | tictactoe.py:504-521 | when the last chance is used, the state is exactly the initial one over empty LEDs, with can_start_again and can_get_input true |
| Transitions.ResetGameForgetsSeries | tictactoe.py:488-502 | reset_game depends on nothing but the configured chances, and resetting twice is resetting once |
| Transitions.ResetGameRestoresInitial | tictactoe.py:488-502 | reset_game gives the state of __init__ over empty LEDs: chances restored, scores zero, player 1 to play and play first, cursor 0, not started, not in computer mode, except that it may start again and take input |
| Transitions.PlayNextChanceSwitchesFirstPlayer | tictactoe.py:476-482 | play_next_chance empties the board and the flags, clears finished and the cursor, passes the turn, makes the new current player the first player, and keeps scores and chances; the whole new state is switch_players of the emptied state with the first player updated, so every other field is kept |
| Transitions.InitialConsistent | tictactoe.py:98-112 | a new game with at least one chance over empty LEDs satisfies the invariant |
| Transitions.NavigateConsistent | tictactoe.py:288-298 | navigate keeps the invariant |
| Transitions.ComputerMovedConsistent | tictactoe.py:326-371 | do_computer_move keeps the invariant |
| Transitions.PlayNextChanceConsistent | tictactoe.py:476-482 | play_next_chance keeps the invariant |
| Transitions.ResetGameConsistent | tictactoe.py:488-502 | reset_game establishes the invariant from any state of a game configured with at least one chance |
| Transitions.EndsSeriesConsistent | tictactoe.py:518-521 | a selection that uses the last chance keeps the invariant |
| Transitions.PlacingKeepsWin | tictactoe.py:381-386 | placing a mark on a free cell keeps every complete line complete |
| Transitions.MarkLineOnTaken | tictactoe.py:403-430 | the cells check_for_win flags are taken, so flags stay on taken cells |
| Transitions.WinConsistent | tictactoe.py:504-521 | a winning selection keeps the invariant |
| Transitions.DrawConsistent | tictactoe.py:504-521 | a drawing selection keeps the invariant |
| Transitions.PassConsistent | tictactoe.py:504-521 | a selection that passes the turn keeps the invariant |
| Transitions.HandleSelectionConsistent | tictactoe.py:504-525 | handle_selection keeps the invariant on every path (see the summary below the table) |
| ComputerMove.LastCompleting | tictactoe.py:340-352 | returns a move of the list that gives the symbol a line, and returns none exactly when no move does |
| ComputerMove.ScanResult | tictactoe.py:340-352 | after a scan the position is either unchanged or a possible move that gives the symbol a line, and it is unchanged when no move does |
| ComputerMove.ScanStep | tictactoe.py:340-352 | one more move of the scan takes the position exactly when it gives the symbol a line |
| ComputerMove.ComputerMoveOffByOne | tictactoe.py:371-386 | as written, a computer move of 0 is refused with NoPosition; a move `m` whose cell `m - 1` is taken is refused with AlreadySelected; an accepted move marks cell `m - 1` and leaves cell `m`, the chosen one, as it was |
| ComputerMove.ComputerStuckOnLastCell | tictactoe.py:371-386 | on any board whose only free cell is the last (index 8), the computer's move is always 8 and handle_selection refuses it, changing nothing |
| ComputerMove.StuckBoardOpen | tictactoe.py:403-436 | `StuckBoard` is such a board, and it has no complete line and is not full, so the round is still running |
| ComputerMove.ComputerMayMissWin | tictactoe.py:340-371 | on a board where the computer can win at cell 2 and must block at cell 5, the scans find 2 and 5, but the move as written may be 7, which neither wins nor blocks |
| ComputerMove.IntendedPosition | tictactoe.py:326-371 | the intended move is a free cell, stored 1-based |
| ComputerMove.IntendedPositionIsBest | tictactoe.py:339-371 | the intended move wins when some move wins; otherwise it blocks when some move blocks; otherwise it is the random pick |
| ComputerMove.IntendedPositionIsPlaced | tictactoe.py:371-386 | select accepts the intended move and marks exactly that cell; when the computer is to play and can win, the resulting board has a complete line |
| TicTacToe.Game.constructor | tictactoe.py:98-112 | the new game is `Initial` over the LEDs' current fields; computer_move_delay is 3 |
| TicTacToe.Game.ResetLed | tictactoe.py:59-67 | Led.reset frees that LED and clears its flag, and changes no other LED |
| TicTacToe.Game.ResetAllLeds | tictactoe.py:135-138 | every LED is free and unflagged; nothing else changes |
| TicTacToe.Game.StartGame | tictactoe.py:274-279 | started becomes true; nothing else changes |
| TicTacToe.Game.DoAllLedsSelected | tictactoe.py:281-286 | returns true exactly when every LED is selected |
| TicTacToe.Game.Navigate | tictactoe.py:288-308 | the loop ends, and the new state and status are those of `Transitions.Navigate` |
| TicTacToe.Game.EnableComputerVsHumanMode | tictactoe.py:310-312 | sets computer_vs_human_mode; nothing else changes |
| TicTacToe.Game.DisableComputerVsHumanMode | tictactoe.py:314-316 | clears computer_vs_human_mode; nothing else changes |
| TicTacToe.Game.DisableComputerMove | tictactoe.py:318-320 | clears computer_move; nothing else changes |
| TicTacToe.Game.EnableComputerMove | tictactoe.py:322-324 | sets computer_move; nothing else changes |
| TicTacToe.Game.ScanMoves | tictactoe.py:340-352 | the position after one scan loop is `ScanResult` of its old value |
| TicTacToe.Game.DoComputerMove | tictactoe.py:326-371 | fails with AllLedsSelected, changing nothing, on a full board; otherwise only the position changes, and it becomes a member of possible_moves (a 0-based free index) |
| TicTacToe.Game.Select | tictactoe.py:373-386 | status and new state are those of `Transitions.Select` |
| TicTacToe.Game.SwitchPlayers | tictactoe.py:388-397 | the new state is `Transitions.SwitchPlayers` of the old one: the other player, and in computer mode the computer's turn toggled, with its start time recorded when it begins |
| TicTacToe.Game.MarkMatched | tictactoe.py:408-410 | the flags become `MarkLine` of the old flags for line `k` |
| TicTacToe.Game.CheckForWin | tictactoe.py:403-430 | the result and new state are those of `Transitions.CheckForWin`: the first complete line in the source's order is flagged |
| TicTacToe.Game.CheckForDraw | tictactoe.py:432-436 | returns true exactly when the board is full |
| TicTacToe.Game.AnnounceWin | tictactoe.py:438-442 | +100 for the current player, finished, one chance used; nothing else changes |
| TicTacToe.Game.AnnounceDraw | tictactoe.py:450-454 | +50 for both players, finished, one chance used; nothing else changes |
| TicTacToe.Game.PlayNextChance | tictactoe.py:476-482 | the new state is `Transitions.PlayNextChance` of the old one |
| TicTacToe.Game.ResetGame | tictactoe.py:488-502 | the new state is `Transitions.ResetGame` of the old one |
| TicTacToe.Game.ResetFields | tictactoe.py:491-502 | the field assignments of reset_game; the LEDs are untouched |
| TicTacToe.Game.ScoreSelection | tictactoe.py:508-513 | the new state is `Transitions.ScoreSelection` of the old one |
| TicTacToe.Game.EndTurn | tictactoe.py:515-521 | the new state is `Transitions.EndTurn` of the old one |
| TicTacToe.Game.HandleSelection | tictactoe.py:504-525 | status and new state are those of `Transitions.HandleSelection` |
| TicTacToe.Game.HandleComputerMove | tictactoe.py:560-563 | on a full board: AllLedsSelected and no change; otherwise the state is handle_selection applied after a move drawn from possible_moves |

The invariant `Transitions.Consistent` states four things:

- remaining chances lie in 1..chances;
- both scores are non-negative, and together they hold 100 points per chance used;
- every flagged cell is taken;
- a finished round has a complete line or a full board;
- a round that goes on has no complete line.

Four facts need this invariant:

- a winning line is never flagged on a free cell;
- the series resets exactly when the last chance is used;
- in a running game, a finished round cannot be followed by a selection that neither wins nor draws;
- the line a winning selection completes is the current player's, so the 100 points go to the player who made it.

## Left out

- Console and display output is not modelled, since it does not affect the game's fields. This covers `color_text`, `welcome`, `print_score_board`, `print_game_board`, `announce_final_winner`, `os.system('cls')`, the messages printed by `announce_win`, `announce_draw`, `play_next_chance`, `do_computer_move` and `handle_selection`, and `time.sleep`.
- The LEDs' display state is not modelled: `state`, `can_blink`, `last_time_blinked`, `Led.turn_on`/`turn_off`/`start_blinking`/`stop_blinking`, and the pyfirmata pin writes. That covers the lighting in `navigate` (lines 300-308) and `select` (lines 382, 385), which changes no `selected` or `matched` field. Only the cells' `selected` and `matched` fields are kept. They are two arrays indexed like `self.leds`, so `Led` object identity and the `led != self.leds[...]` comparison of `navigate` are not represented.
- The `isinstance` checks of `__init__` (lines 91-96): the model's types rule out those inputs.
- `handle_navigation`, `handle_exit` and `handle_play_next_chance` (lines 527-558) are not modelled separately: each calls an operation that is modelled and then prints.
- The module-level `blink_all` and `main.py` are not part of this model. They drive the hardware and the outer polling loop. main.py:6 imports `play_tic_tac_toe` from `tictactoe`, but `tictactoe.py` does not define it, so that loop is not visible.
- `random.choice` and `time.time()`: the random pick is a nondeterministic choice among the possible moves, and the time is a parameter `now`.
- TicTacToe.Game.HandleComputerMove: in the source, the full-board exception of `do_computer_move` is not caught and reaches the caller. The model returns it as a status instead.
- TicTacToe.Game.ScoreSelection, TicTacToe.Game.EndTurn, TicTacToe.Game.ResetFields, TicTacToe.Game.MarkMatched and TicTacToe.Game.ScanMoves are stretches of one source method, made into methods of their own. The program's order of assignments is kept.
- TicTacToe.Game.DoComputerMove: the two scans run in full as written, but the cursor they leave is overwritten by the random pick, as in the source.

## Findings

| source | as written | input that shows it | evidently intended | confidence | as-written member | corrected member |
|---|---|---|---|---|---|---|
| tictactoe.py:371 | `navigation_button_position` is set to a 0-based index from `possible_moves`, while `select` reads it as 1-based (`position - 1`) | board `[1, 2, 1, 1, 2, 2, 2, 1, 0]` with the computer to play: the only possible move is 8; select tries cell 7, which is taken, so the computer's selection is refused on every attempt | store the chosen move plus one, so that select marks the chosen free cell | not executed | ComputerMove.ComputerStuckOnLastCell | ComputerMove.IntendedPositionIsPlaced |
| tictactoe.py:340-371 | the win scan and the block scan write their hits into `navigation_button_position`, and line 371 then overwrites it unconditionally with a random move | board `[2, 2, 0, 1, 1, 0, 0, 0, 1]`: the computer wins at cell 2, and cell 5 blocks; the move as written may be cell 7 | play the win if there is one, else the block, else a random move, as the comments at lines 339, 354 and 370 say; the docstring at line 327 ('for easy level it set the random position') reads as if a random move were meant, so the scans may be unfinished work rather than a slip | not executed | ComputerMove.ComputerMayMissWin | ComputerMove.IntendedPositionIsBest |

The class `Game` models the program as written: its `DoComputerMove` is proved to leave a random 0-based possible move in the cursor. The corrected move is defined as `ComputerMove.IntendedPosition`, with its properties proved against `Transitions.Select` and `Board.HasWin`.
