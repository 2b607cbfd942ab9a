/** The Game class of the tic-tac-toe program, with the fields its methods
    update in place. Each method is proved against a function or relation
    over Model(), mostly the function of the same name in module
    Transitions: its new state, read through Model(), is that function of
    its old state. */
module TicTacToe {
  import opened Board
  import opened Transitions
  import ComputerMove

  class Game {
    /** The `selected` field of each of the nine LEDs, by LED index: 0 when
        free, else the player who took it. */
    const selected: array<Occupant>
    /** The `matched` field of each LED: part of the winning line. */
    const matched: array<bool>
    const chances: int
    var started: bool
    var finished: bool
    /** 1-based index of the LED under the cursor; 0 for no position. */
    var navigationButtonPosition: int
    var currentPlayer: Player
    var playerPlayedFirst: Player
    var remainingChances: int
    var score: map<Player, int>
    var computerVsHumanMode: bool
    var computerMove: bool
    var computerMoveStartTime: real
    const computerMoveDelay: int
    var canGetInput: bool
    var canStartAgain: bool

    /** Nine LEDs, a cursor that indexes them, a score for both players. */
    ghost predicate Valid()
      reads this
    {
      selected.Length == Size && matched.Length == Size &&
      0 <= navigationButtonPosition <= Size &&
      1 in score && 2 in score
    }

    /** The game as a value. */
    ghost function Model(): (s: GameState)
      reads this, selected, matched
      requires Valid()
      ensures Wf(s)
    {
      GameState(selected[..], matched[..], chances, started, finished, navigationButtonPosition,
                currentPlayer, playerPlayedFirst, remainingChances, score,
                computerVsHumanMode, computerMove, computerMoveStartTime,
                canGetInput, canStartAgain)
    }

    /** __init__: a game over LEDs whose `selected` and `matched` fields hold
        `board` and `flags`; the LEDs are not reset. */
    constructor (board: seq<Occupant>, flags: seq<bool>, chances: int)
      requires |board| == Size && |flags| == Size
      ensures Valid() && computerMoveDelay == 3
      ensures Model() == Initial(chances, board, flags)
    {
      selected := new Occupant[Size](i requires 0 <= i < Size => board[i]);
      matched := new bool[Size](i requires 0 <= i < Size => flags[i]);
      this.chances := chances;
      started := false;
      finished := false;
      navigationButtonPosition := 0;
      currentPlayer := 1;
      playerPlayedFirst := 1;
      remainingChances := chances;
      score := map[1 := 0, 2 := 0];
      computerVsHumanMode := false;
      computerMove := false;
      computerMoveStartTime := 0.0;
      computerMoveDelay := 3;
      canGetInput := false;
      canStartAgain := false;
      new;
      assert selected[..] == board && matched[..] == flags;
    }

    /** Led.reset on LED `i`: free again and no longer flagged. */
    method ResetLed(i: nat)
      requires Valid() && i < Size
      modifies selected, matched
      ensures selected[..] == old(selected[..])[i := 0]
      ensures matched[..] == old(matched[..])[i := false]
    {
      selected[i] := 0;
      matched[i] := false;
    }

    /** reset_all_leds */
    method ResetAllLeds()
      requires Valid()
      modifies selected, matched
      ensures Valid() && Model() == Transitions.ResetAllLeds(old(Model()))
    {
      for i := 0 to Size
        invariant forall j :: 0 <= j < i ==> selected[j] == 0 && !matched[j]
      {
        ResetLed(i);
      }
      assert selected[..] == EmptyBoard && matched[..] == NoMatches;
    }

    /** start_game: the game has started (the welcome display is not modelled). */
    method StartGame()
      requires Valid()
      modifies this`started
      ensures Valid() && Model() == old(Model()).(started := true)
    {
      started := true;
    }

    /** do_all_leds_selected: every LED has been selected. */
    method DoAllLedsSelected() returns (all: bool)
      requires Valid()
      ensures all == IsFull(selected[..])
    {
      for i := 0 to Size
        invariant forall j :: 0 <= j < i ==> selected[j] != 0
      {
        if selected[i] == 0 {
          return false;
        }
      }
      return true;
    }

    /** navigate: the cursor moves to the next free LED; fails on a full board. */
    method Navigate() returns (status: Status)
      requires Valid()
      modifies this`navigationButtonPosition
      ensures Valid()
      ensures (status, Model()) == Transitions.Navigate(old(Model()))
    {
      var full := DoAllLedsSelected();
      if full {
        return AllLedsSelected;
      }
      ghost var b, p0 := selected[..], navigationButtonPosition;
      ghost var steps := FreeOffset(b, p0, 1);
      FreeOffsetFinds(b, p0, 1);
      AdvanceStep(p0, 1);
      navigationButtonPosition := navigationButtonPosition % selected.Length + 1;
      ghost var d := 1;
      while selected[navigationButtonPosition - 1] != 0
        invariant Valid()
        invariant 1 <= d <= steps
        invariant navigationButtonPosition == Advance(p0, d)
        decreases steps - d
      {
        assert b[Advance(p0, d) - 1] != 0;
        assert d != steps;
        AdvanceStep(p0, d);
        navigationButtonPosition := navigationButtonPosition % selected.Length + 1;
        d := d + 1;
      }
      assert b[Advance(p0, d) - 1] == 0;
      assert d == steps;
      status := Ok;
    }

    method EnableComputerVsHumanMode()
      requires Valid()
      modifies this`computerVsHumanMode
      ensures Valid() && Model() == old(Model()).(computerVsHumanMode := true)
    {
      computerVsHumanMode := true;
    }

    method DisableComputerVsHumanMode()
      requires Valid()
      modifies this`computerVsHumanMode
      ensures Valid() && Model() == old(Model()).(computerVsHumanMode := false)
    {
      computerVsHumanMode := false;
    }

    method DisableComputerMove()
      requires Valid()
      modifies this`computerMove
      ensures Valid() && Model() == old(Model()).(computerMove := false)
    {
      computerMove := false;
    }

    method EnableComputerMove()
      requires Valid()
      modifies this`computerMove
      ensures Valid() && Model() == old(Model()).(computerMove := true)
    {
      computerMove := true;
    }

    /** One scan of do_computer_move: the cursor takes every move of `moves`
        that gives `symbol` a line on `gameBoard`, so it ends on the last one. */
    method ScanMoves(gameBoard: seq<Occupant>, moves: seq<nat>, symbol: Player)
      requires Valid() && IsBoard(gameBoard) && Cells(moves)
      modifies this`navigationButtonPosition
      ensures Valid()
      ensures navigationButtonPosition ==
              ComputerMove.ScanResult(gameBoard, moves, symbol, old(navigationButtonPosition))
    {
      ghost var start := navigationButtonPosition;
      for k := 0 to |moves|
        invariant Valid()
        invariant navigationButtonPosition == ComputerMove.ScanResult(gameBoard, moves[..k], symbol, start)
      {
        ComputerMove.ScanStep(gameBoard, moves, symbol, start, k);
        var move := moves[k];
        if CompletesLine(gameBoard, move, symbol) {
          navigationButtonPosition := move;
        }
      }
      assert moves[..|moves|] == moves;
    }

    /** do_computer_move, as written: a scan that leaves a winning move in the
        cursor, one that leaves a blocking move there, then a random possible
        move (a 0-based index) that overwrites both. Fails on a full board. */
    method DoComputerMove() returns (status: Status)
      requires Valid()
      modifies this`navigationButtonPosition
      ensures Valid()
      ensures ComputerMoved(old(Model()), status, Model())
    {
      ghost var s0 := Model();
      var gameBoard := selected[..];
      var symbol: Player := 2;
      var full := DoAllLedsSelected();
      if full {
        return AllLedsSelected;
      }
      var possibleMoves := PossibleMoves(gameBoard);
      ScanMoves(gameBoard, possibleMoves, symbol);
      var opponentSymbol := Other(symbol);
      ScanMoves(gameBoard, possibleMoves, opponentSymbol);
      // random.choice: any index of the list may be drawn
      var pick :| 0 <= pick < |possibleMoves|;
      var move := possibleMoves[pick];
      navigationButtonPosition := move;
      assert Model() == s0.(position := move);
      status := Ok;
    }

    /** select: the current player takes the LED under the cursor; fails when
        there is no position or the LED is already taken. */
    method Select() returns (status: Status)
      requires Valid()
      modifies selected
      ensures Valid()
      ensures (status, Model()) == Transitions.Select(old(Model()))
    {
      if navigationButtonPosition == 0 {
        return NoPosition;
      } else if selected[navigationButtonPosition - 1] != 0 {
        return AlreadySelected;
      }
      if currentPlayer == 1 {
        selected[navigationButtonPosition - 1] := 1;
      } else {
        selected[navigationButtonPosition - 1] := 2;
      }
      status := Ok;
    }

    /** switch_players, with `now` standing for time.time(). */
    method SwitchPlayers(now: real)
      requires Valid()
      modifies this`currentPlayer, this`computerMove, this`computerMoveStartTime
      ensures Valid() && Model() == Transitions.SwitchPlayers(old(Model()), now)
    {
      currentPlayer := if currentPlayer == 2 then 1 else 2;
      if computerVsHumanMode {
        if computerMove {
          DisableComputerMove();
        } else {
          EnableComputerMove();
          computerMoveStartTime := now;
        }
      }
    }

    /** The three `matched = True` assignments of a branch of check_for_win,
        for line `k`. */
    method MarkMatched(k: nat)
      requires Valid() && k < |Lines|
      modifies matched
      ensures matched[..] == MarkLine(old(matched[..]), k)
    {
      matched[Lines[k].0] := true;
      matched[Lines[k].1] := true;
      matched[Lines[k].2] := true;
    }

    /** check_for_win: rows, then columns, then the two diagonals; the first
        complete line is flagged. */
    method CheckForWin() returns (won: bool)
      requires Valid()
      modifies matched
      ensures Valid()
      ensures (won, Model()) == Transitions.CheckForWin(old(Model()))
    {
      ghost var b := selected[..];
      var i := 0;
      while i < Size
        invariant i == 0 || i == 3 || i == 6 || i == 9
        invariant forall k :: 0 <= k < 3 && 3 * k < i ==> !Complete(b, k)
      {
        if selected[i] == selected[i + 1] == selected[i + 2] && selected[i + 2] != 0 {
          FirstWinLineIs(b, i / 3);
          MarkMatched(i / 3);
          return true;
        }
        i := i + 3;
      }
      for i := 0 to 3
        invariant forall k :: 3 <= k < 3 + i ==> !Complete(b, k)
      {
        if selected[i] == selected[i + 3] == selected[i + 6] && selected[i + 6] != 0 {
          FirstWinLineIs(b, 3 + i);
          MarkMatched(3 + i);
          return true;
        }
      }
      if selected[0] == selected[4] == selected[8] && selected[8] != 0 {
        FirstWinLineIs(b, 6);
        MarkMatched(6);
        return true;
      }
      if selected[2] == selected[4] == selected[6] && selected[6] != 0 {
        FirstWinLineIs(b, 7);
        MarkMatched(7);
        return true;
      }
      FirstWinLineNone(b);
      return false;
    }

    /** check_for_draw: the board is full. */
    method CheckForDraw() returns (draw: bool)
      requires Valid()
      ensures draw == IsFull(selected[..])
    {
      draw := DoAllLedsSelected();
    }

    /** announce_win, without its display. */
    method AnnounceWin()
      requires Valid()
      modifies this`score, this`finished, this`remainingChances
      ensures Valid() && Model() == Transitions.AnnounceWin(old(Model()))
    {
      // Valid() puts the keys 1 and 2 in `score`; the case split tells the
      // verifier that the current player is one of them
      assert currentPlayer == 1 || currentPlayer == 2;
      score := score[currentPlayer := score[currentPlayer] + 100];
      finished := true;
      remainingChances := remainingChances - 1;
    }

    /** announce_draw, without its display. */
    method AnnounceDraw()
      requires Valid()
      modifies this`score, this`finished, this`remainingChances
      ensures Valid() && Model() == Transitions.AnnounceDraw(old(Model()))
    {
      score := score[1 := score[1] + 50];
      score := score[2 := score[2] + 50];
      finished := true;
      remainingChances := remainingChances - 1;
    }

    /** play_next_chance, with `now` standing for time.time(). */
    method PlayNextChance(now: real)
      requires Valid()
      modifies this, selected, matched
      ensures Valid() && Model() == Transitions.PlayNextChance(old(Model()), now)
    {
      ResetAllLeds();
      finished := false;
      navigationButtonPosition := 0;
      SwitchPlayers(now);
      playerPlayedFirst := currentPlayer;
    }

    /** reset_game */
    method ResetGame()
      requires Valid()
      modifies this, selected, matched
      ensures Valid() && Model() == Transitions.ResetGame(old(Model()))
    {
      ResetAllLeds();
      ResetFields();
    }

    /** The field assignments of reset_game that follow reset_all_leds. */
    method ResetFields()
      requires Valid()
      modifies this
      ensures Valid()
      ensures Model() == old(Model()).(finished := false, position := 0, currentPlayer := 1,
                                       playerPlayedFirst := 1, remainingChances := chances,
                                       score := ZeroScore, computerVsHumanMode := false,
                                       computerMove := false, computerMoveStartTime := 0.0,
                                       started := false, canStartAgain := true, canGetInput := true)
    {
      finished := false;
      navigationButtonPosition := 0;
      currentPlayer := 1;
      playerPlayedFirst := 1;
      remainingChances := chances;
      score := map[1 := 0, 2 := 0];
      computerVsHumanMode := false;
      computerMove := false;
      computerMoveStartTime := 0.0;
      started := false;
      canStartAgain := true;
      canGetInput := true;
    }

    /** The middle of handle_selection: clear the cursor, then score a win
        or a draw. */
    method ScoreSelection()
      requires Valid()
      modifies this, matched
      ensures Valid() && Model() == Transitions.ScoreSelection(old(Model()))
    {
      navigationButtonPosition := 0;
      var won := CheckForWin();
      if won {
        AnnounceWin();
      } else {
        var draw := CheckForDraw();
        if draw {
          AnnounceDraw();
        }
      }
    }

    /** The end of handle_selection: pass the turn while the round goes on,
        start over when no chance is left. */
    method EndTurn(now: real)
      requires Valid()
      modifies this, selected, matched
      ensures Valid() && Model() == Transitions.EndTurn(old(Model()), now)
    {
      if !finished {
        SwitchPlayers(now);
      }
      if remainingChances == 0 {
        ResetGame();
      }
    }

    /** handle_selection, with `now` standing for time.time(); the exception
        select raises is returned as the status. */
    method HandleSelection(now: real) returns (status: Status)
      requires Valid()
      modifies this, selected, matched
      ensures Valid()
      ensures (status, Model()) == Transitions.HandleSelection(old(Model()), now)
    {
      status := Select();
      if status != Ok {
        return;
      }
      ScoreSelection();
      EndTurn(now);
    }

    /** handle_computer_move: the computer's move, then its selection. The
        failure of do_computer_move on a full board is returned as the status
        and stops the call. `move` is the 0-based index picked at random. */
    method HandleComputerMove(now: real) returns (status: Status, ghost move: int)
      requires Valid()
      modifies this, selected, matched
      ensures Valid()
      ensures IsFull(old(selected[..])) ==> status == AllLedsSelected && Model() == old(Model())
      ensures !IsFull(old(selected[..])) ==>
                move in PossibleMoves(old(selected[..])) &&
                (status, Model()) == Transitions.HandleSelection(old(Model()).(position := move), now)
    {
      status := DoComputerMove();
      move := navigationButtonPosition;
      if status != Ok {
        return;
      }
      status := HandleSelection(now);
    }
  }
}
