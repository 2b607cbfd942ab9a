/** The state of a Game as a value, and what each of its methods does to it.
    The class Game (module TicTacToe) is proved against these functions; the
    lemmas here state what the game promises across calls: the three outcomes
    of a selection, the end of a series, and the invariant every operation
    keeps. */
module Transitions {
  import opened Board

  /** The result of an operation. The three errors are the exceptions raised
      by navigate ('All LEDs are selected') and select ('Please select a
      position using the navigation button', 'This position is already
      selected'); each leaves the state as it was. */
  datatype Status = Ok | AllLedsSelected | NoPosition | AlreadySelected

  /** The fields of a Game, with the nine LEDs reduced to their `selected`
      values (`board`) and their `matched` flags. `position` is
      navigation_button_position: 1-based, 0 for no position. */
  datatype GameState = GameState(
    board: seq<Occupant>,
    matched: seq<bool>,
    chances: int,
    started: bool,
    finished: bool,
    position: int,
    currentPlayer: Player,
    playerPlayedFirst: Player,
    remainingChances: int,
    score: map<Player, int>,
    computerVsHumanMode: bool,
    computerMove: bool,
    computerMoveStartTime: real,
    canGetInput: bool,
    canStartAgain: bool)

  const EmptyBoard: seq<Occupant> := [0, 0, 0, 0, 0, 0, 0, 0, 0]
  const NoMatches: seq<bool> := [false, false, false, false, false, false, false, false, false]
  const ZeroScore: map<Player, int> := map[1 := 0, 2 := 0]

  /** The shape every Game has: nine cells, a position the cells can be
      indexed by, and a score for both players. */
  predicate Wf(s: GameState) {
    |s.board| == Size && |s.matched| == Size && 0 <= s.position <= Size &&
    1 in s.score && 2 in s.score
  }

  /** The state __init__ gives a game over LEDs holding `board` and `matched`. */
  function Initial(chances: int, board: seq<Occupant>, matched: seq<bool>): (s: GameState)
    ensures Wf(s) <==> |board| == Size && |matched| == Size
    ensures s.board == board && s.matched == matched && s.position == 0
    ensures s.remainingChances == s.chances == chances && s.score == ZeroScore
    ensures s.currentPlayer == s.playerPlayedFirst == 1 && !s.started && !s.finished
  {
    GameState(board, matched, chances, false, false, 0, 1, 1, chances, ZeroScore,
              false, false, 0.0, false, false)
  }

  /** The other player (switch_players: 1 if the current player is 2, else 2). */
  function Other(p: Player): (q: Player)
    ensures q != p
  {
    if p == 2 then 1 else 2
  }

  /** The board once the current player's mark is put on the cursor's cell. */
  function Placed(s: GameState): seq<Occupant>
    requires Wf(s) && s.position != 0
  {
    s.board[s.position - 1 := s.currentPlayer]
  }

  // ---- the operations ------------------------------------------------------

  /** navigate: fails on a full board, else moves the cursor to the next free cell. */
  function Navigate(s: GameState): (r: (Status, GameState))
    requires Wf(s)
    ensures Wf(r.1)
    ensures r.0 == Ok <==> !IsFull(s.board)
    ensures r.0 != Ok ==> r.0 == AllLedsSelected && r.1 == s
    ensures r.0 == Ok ==> r.1 == s.(position := r.1.position) &&
                          1 <= r.1.position <= Size && s.board[r.1.position - 1] == 0
  {
    if IsFull(s.board) then (AllLedsSelected, s)
    else (Ok, s.(position := NextFree(s.board, s.position)))
  }

  /** select: places the current player's mark on the cursor's cell. */
  function Select(s: GameState): (r: (Status, GameState))
    requires Wf(s)
    ensures Wf(r.1)
    ensures r.0 == NoPosition <==> s.position == 0
    ensures r.0 == Ok <==> s.position != 0 && s.board[s.position - 1] == 0
    ensures r.0 != Ok ==> r.1 == s
    ensures r.0 == Ok ==> r.1 == s.(board := r.1.board) &&
                          r.1.board[s.position - 1] == s.currentPlayer &&
                          forall i :: 0 <= i < Size && i != s.position - 1 ==> r.1.board[i] == s.board[i]
  {
    if s.position == 0 then (NoPosition, s)
    else if s.board[s.position - 1] != 0 then (AlreadySelected, s)
    else (Ok, s.(board := Placed(s)))
  }

  /** check_for_win: flags the first complete line and reports whether there was one. */
  function CheckForWin(s: GameState): (r: (bool, GameState))
    requires Wf(s)
    ensures Wf(r.1)
  {
    match FirstWinLine(s.board)
    case None => (false, s)
    case Some(k) => (true, s.(matched := MarkLine(s.matched, k)))
  }

  /** switch_players; in computer mode the computer's turn is toggled and, when
      it begins, its start time is recorded as `now`. */
  function SwitchPlayers(s: GameState, now: real): (t: GameState)
    ensures t == s.(currentPlayer := t.currentPlayer, computerMove := t.computerMove,
                    computerMoveStartTime := t.computerMoveStartTime)
    ensures t.currentPlayer != s.currentPlayer
    ensures t.computerMove == (s.computerMove != s.computerVsHumanMode)
    ensures s.computerVsHumanMode && t.computerMove ==> t.computerMoveStartTime == now
    ensures !(s.computerVsHumanMode && t.computerMove) ==>
              t.computerMoveStartTime == s.computerMoveStartTime
  {
    s.(currentPlayer := Other(s.currentPlayer),
       computerMove := if s.computerVsHumanMode then !s.computerMove else s.computerMove,
       computerMoveStartTime := if s.computerVsHumanMode && !s.computerMove then now
                                else s.computerMoveStartTime)
  }

  /** The score bookkeeping of announce_win. */
  function AnnounceWin(s: GameState): (t: GameState)
    requires Wf(s)
    ensures Wf(t)
  {
    s.(score := s.score[s.currentPlayer := s.score[s.currentPlayer] + 100],
       finished := true,
       remainingChances := s.remainingChances - 1)
  }

  /** The score bookkeeping of announce_draw. */
  function AnnounceDraw(s: GameState): (t: GameState)
    requires Wf(s)
    ensures Wf(t)
  {
    s.(score := s.score[1 := s.score[1] + 50][2 := s.score[2] + 50],
       finished := true,
       remainingChances := s.remainingChances - 1)
  }

  /** reset_all_leds: Led.reset on every cell. */
  function ResetAllLeds(s: GameState): (t: GameState)
    requires Wf(s)
    ensures Wf(t)
  {
    s.(board := EmptyBoard, matched := NoMatches)
  }

  /** play_next_chance: a fresh board, and the other player starts. */
  function PlayNextChance(s: GameState, now: real): (t: GameState)
    requires Wf(s)
    ensures Wf(t)
  {
    var s1 := SwitchPlayers(ResetAllLeds(s).(finished := false, position := 0), now);
    s1.(playerPlayedFirst := s1.currentPlayer)
  }

  /** reset_game: the series starts over. */
  function ResetGame(s: GameState): (t: GameState)
    requires Wf(s)
    ensures Wf(t)
  {
    ResetAllLeds(s).(finished := false, position := 0, currentPlayer := 1,
                     playerPlayedFirst := 1, remainingChances := s.chances,
                     score := ZeroScore, computerVsHumanMode := false,
                     computerMove := false, computerMoveStartTime := 0.0,
                     started := false, canStartAgain := true, canGetInput := true)
  }

  /** The middle of handle_selection, once select has placed the mark: the
      cursor is cleared, a complete line is flagged and scored as a win, and
      a full board without one is scored as a draw. */
  function ScoreSelection(s: GameState): (t: GameState)
    requires Wf(s)
    ensures Wf(t)
  {
    var (won, s2) := CheckForWin(s.(position := 0));
    if won then AnnounceWin(s2)
    else if IsFull(s2.board) then AnnounceDraw(s2)
    else s2
  }

  /** The end of handle_selection: the turn passes while the round goes on,
      and the series starts over when no chance is left. */
  function EndTurn(s: GameState, now: real): (t: GameState)
    requires Wf(s)
    ensures Wf(t)
  {
    var s1 := if !s.finished then SwitchPlayers(s, now) else s;
    if s1.remainingChances == 0 then ResetGame(s1) else s1
  }

  /** handle_selection: select, score the result, end the turn. A rejected
      selection changes nothing. */
  function HandleSelection(s: GameState, now: real): (r: (Status, GameState))
    requires Wf(s)
    ensures Wf(r.1)
  {
    var (status, s1) := Select(s);
    if status != Ok then (status, s) else (Ok, EndTurn(ScoreSelection(s1), now))
  }

  /** do_computer_move, which ends with a position picked at random among the
      possible moves: fails on a full board; otherwise `t` differs from `s`
      only in a position that is the 0-based index of a free cell. */
  predicate ComputerMoved(s: GameState, status: Status, t: GameState): (r: bool)
    requires Wf(s)
    ensures r ==> (status == Ok <==> !IsFull(s.board))
    ensures r ==> Wf(t) && t.board == s.board && t.matched == s.matched
    ensures r && status == Ok ==> t.position < Size && s.board[t.position] == 0
  {
    if IsFull(s.board) then status == AllLedsSelected && t == s
    else status == Ok && t.position in PossibleMoves(s.board) && t == s.(position := t.position)
  }

  // ---- properties ----------------------------------------------------------

  /** navigate moves the cursor to the first free cell strictly after its
      position, cyclically, and changes nothing else. */
  lemma NavigateGoesToNextFree(s: GameState)
    requires Wf(s) && !IsFull(s.board)
    ensures var (status, t) := Navigate(s);
      status == Ok && t == s.(position := t.position) &&
      exists d :: 1 <= d <= Size && t.position == Advance(s.position, d) &&
                  s.board[Advance(s.position, d) - 1] == 0 &&
                  forall j :: 1 <= j < d ==> s.board[Advance(s.position, j) - 1] != 0
  {
    NextFreeIsFirstFree(s.board, s.position);
  }

  /** check_for_win reports a win exactly when some line is complete, flags
      exactly the cells of the first complete line, and otherwise changes nothing. */
  lemma CheckForWinFlagsFirstLine(s: GameState)
    requires Wf(s)
    ensures var (won, t) := CheckForWin(s);
      (won <==> HasWin(s.board)) &&
      t == s.(matched := t.matched) &&
      (!won ==> t.matched == s.matched) &&
      (won ==> exists k :: 0 <= k < |Lines| && Complete(s.board, k) &&
                  (forall j :: 0 <= j < k ==> !Complete(s.board, j)) &&
                  forall i :: 0 <= i < Size ==> (t.matched[i] <==> s.matched[i] || OnLine(k, i)))
  {
    FirstWinLineIsFirst(s.board);
    match FirstWinLine(s.board)
    case None =>
    case Some(k) =>
      assert CheckForWin(s).1.matched == MarkLine(s.matched, k);
  }

  /** A selection that select rejects changes nothing. */
  lemma HandleSelectionRejected(s: GameState, now: real)
    requires Wf(s) && (s.position == 0 || s.board[s.position - 1] != 0)
    ensures HandleSelection(s, now) ==
            (if s.position == 0 then NoPosition else AlreadySelected, s)
  {
  }

  /** The middle of handle_selection when the board has a complete line
      scores the win. */
  lemma ScoreSelectionWins(s: GameState)
    requires Wf(s) && HasWin(s.board)
    ensures ScoreSelection(s) == Won(s)
  {
    FirstWinLineIsFirst(s.board);
  }

  /** The state after a win is scored: the cursor is cleared, the first
      complete line is flagged, the current player scores 100, one chance is
      used and the round is finished. */
  function Won(s: GameState): (t: GameState)
    requires Wf(s) && HasWin(s.board)
    ensures Wf(t)
  {
    FirstWinLineIsFirst(s.board);
    s.(position := 0,
       matched := MarkLine(s.matched, FirstWinLine(s.board).value),
       score := s.score[s.currentPlayer := s.score[s.currentPlayer] + 100],
       remainingChances := s.remainingChances - 1,
       finished := true)
  }

  /** ... on a full board without a complete line: both players score 50, one
      chance is used and the round is finished. */
  lemma ScoreSelectionDraws(s: GameState)
    requires Wf(s) && !HasWin(s.board) && IsFull(s.board)
    ensures ScoreSelection(s) ==
            s.(position := 0,
               score := s.score[1 := s.score[1] + 50][2 := s.score[2] + 50],
               remainingChances := s.remainingChances - 1,
               finished := true)
  {
    FirstWinLineIsFirst(s.board);
  }

  /** ... otherwise only the cursor is cleared. */
  lemma ScoreSelectionGoesOn(s: GameState)
    requires Wf(s) && !HasWin(s.board) && !IsFull(s.board)
    ensures ScoreSelection(s) == s.(position := 0)
  {
    FirstWinLineIsFirst(s.board);
  }

  /** The end of handle_selection keeps the turn when the round is finished
      and chances are left ... */
  lemma EndTurnKeepsTurn(s: GameState, now: real)
    requires Wf(s) && s.finished && s.remainingChances != 0
    ensures EndTurn(s, now) == s
  {
  }

  /** ... passes it when the round goes on ... */
  lemma EndTurnPassesTurn(s: GameState, now: real)
    requires Wf(s) && !s.finished && s.remainingChances != 0
    ensures EndTurn(s, now) == SwitchPlayers(s, now)
  {
  }

  /** ... and resets the game when no chance is left. */
  lemma EndTurnResets(s: GameState, now: real)
    requires Wf(s) && s.remainingChances == 0
    ensures EndTurn(s, now) == ResetGame(s)
  {
  }

  /** A selection that completes a line: the mark is placed and the win
      scored (the winner scores 100, one chance is used, the round is
      finished, the first complete line is flagged, the cursor is cleared),
      and nothing else changes: the turn stays with the winner. */
  lemma HandleSelectionWins(s: GameState, now: real)
    requires Wf(s) && s.position != 0 && s.board[s.position - 1] == 0
    requires HasWin(Placed(s)) && s.remainingChances != 1
    ensures HandleSelection(s, now) == (Ok, Won(s.(board := Placed(s))))
  {
    var s1 := s.(board := Placed(s));
    assert Select(s) == (Ok, s1);
    ScoreSelectionWins(s1);
    EndTurnKeepsTurn(Won(s1), now);
  }

  /** A selection that fills the board without completing a line: both
      players score 50, one chance is used and the round is finished. */
  lemma HandleSelectionDraws(s: GameState, now: real)
    requires Wf(s) && s.position != 0 && s.board[s.position - 1] == 0
    requires !HasWin(Placed(s)) && IsFull(Placed(s)) && s.remainingChances != 1
    ensures var (status, t) := HandleSelection(s, now);
      status == Ok &&
      t == s.(board := Placed(s),
              score := s.score[1 := s.score[1] + 50][2 := s.score[2] + 50],
              remainingChances := s.remainingChances - 1,
              finished := true,
              position := 0)
  {
    var s1 := s.(board := Placed(s));
    assert Select(s) == (Ok, s1);
    ScoreSelectionDraws(s1);
    var t := s.(board := Placed(s),
                score := s.score[1 := s.score[1] + 50][2 := s.score[2] + 50],
                remainingChances := s.remainingChances - 1,
                finished := true,
                position := 0);
    assert ScoreSelection(s1) == t;
    EndTurnKeepsTurn(t, now);
  }

  /** A selection that neither wins nor fills the board passes the turn: the
      other player moves next and, in computer mode, the computer's turn is
      toggled; scores and chances are untouched. */
  lemma HandleSelectionPassesTurn(s: GameState, now: real)
    requires Wf(s) && s.position != 0 && s.board[s.position - 1] == 0
    requires !HasWin(Placed(s)) && !IsFull(Placed(s))
    requires !s.finished && s.remainingChances != 0
    ensures var (status, t) := HandleSelection(s, now);
      status == Ok && t.board == Placed(s) && t.matched == s.matched && t.position == 0 &&
      t.currentPlayer == Other(s.currentPlayer) &&
      t.computerMove == (s.computerMove != s.computerVsHumanMode) &&
      t.score == s.score && t.remainingChances == s.remainingChances && !t.finished &&
      t == SwitchPlayers(s.(board := Placed(s), position := 0), now)
  {
    var s1 := s.(board := Placed(s));
    assert Select(s) == (Ok, s1);
    ScoreSelectionGoesOn(s1);
    EndTurnPassesTurn(ScoreSelection(s1), now);
  }

  /** reset_game forgets everything but the configured number of chances. */
  lemma ResetGameForgetsSeries(s: GameState, u: GameState)
    requires Wf(s) && Wf(u) && s.chances == u.chances
    ensures ResetGame(s) == ResetGame(u)
    ensures ResetGame(ResetGame(s)) == ResetGame(s)
  {
  }

  /** reset_game gives back the state __init__ gives over empty LEDs, except
      that the game may start again and take input. */
  lemma ResetGameRestoresInitial(s: GameState)
    requires Wf(s)
    ensures ResetGame(s) ==
            Initial(s.chances, EmptyBoard, NoMatches).(canStartAgain := true, canGetInput := true)
  {
  }

  /** When the round's last chance is used, handle_selection ends the series:
      the state is the initial one, whatever the series was. */
  lemma HandleSelectionEndsSeries(s: GameState, now: real)
    requires Wf(s) && s.position != 0 && s.board[s.position - 1] == 0
    requires HasWin(Placed(s)) || IsFull(Placed(s))
    requires s.remainingChances == 1
    ensures var (status, t) := HandleSelection(s, now);
      status == Ok &&
      t == Initial(s.chances, EmptyBoard, NoMatches).(canStartAgain := true, canGetInput := true)
  {
    FirstWinLineIsFirst(Placed(s));
    var (won, s2) := CheckForWin(Select(s).1.(position := 0));
    var s3 := if won then AnnounceWin(s2) else AnnounceDraw(s2);
    ResetGameRestoresInitial(s3);
  }

  /** play_next_chance empties the board, clears the round's end and the
      cursor, and lets the other player start. */
  lemma PlayNextChanceSwitchesFirstPlayer(s: GameState, now: real)
    requires Wf(s)
    ensures var t := PlayNextChance(s, now);
      t.board == EmptyBoard && t.matched == NoMatches && !t.finished && t.position == 0 &&
      t.currentPlayer == Other(s.currentPlayer) && t.playerPlayedFirst == t.currentPlayer &&
      t.score == s.score && t.remainingChances == s.remainingChances &&
      t == SwitchPlayers(s.(board := EmptyBoard, matched := NoMatches, finished := false, position := 0),
                         now).(playerPlayedFirst := t.currentPlayer)
  {
  }

  // ---- the invariant -------------------------------------------------------

  /** What holds between operations of a game configured with at least one
      chance: chances left lie in 1..chances; the scores are never negative
      and together hold 100 points per chance used; a flagged cell is taken;
      a finished round has a complete line or a full board. */
  predicate Consistent(s: GameState)
    requires Wf(s)
  {
    && 1 <= s.remainingChances <= s.chances
    && s.score[1] >= 0 && s.score[2] >= 0
    && s.score[1] + s.score[2] == 100 * (s.chances - s.remainingChances)
    && (forall i :: 0 <= i < Size && s.matched[i] ==> s.board[i] != 0)
    && (s.finished ==> HasWin(s.board) || IsFull(s.board))
    && (!s.finished ==> !HasWin(s.board))
  }

  lemma InitialConsistent(chances: int)
    requires chances >= 1
    ensures Wf(Initial(chances, EmptyBoard, NoMatches))
    ensures Consistent(Initial(chances, EmptyBoard, NoMatches))
  {
  }

  lemma NavigateConsistent(s: GameState)
    requires Wf(s) && Consistent(s)
    ensures Consistent(Navigate(s).1)
  {
  }

  lemma ComputerMovedConsistent(s: GameState, status: Status, t: GameState)
    requires Wf(s) && Consistent(s) && ComputerMoved(s, status, t)
    ensures Wf(t) && Consistent(t)
  {
  }

  lemma PlayNextChanceConsistent(s: GameState, now: real)
    requires Wf(s) && Consistent(s)
    ensures Consistent(PlayNextChance(s, now))
  {
  }

  lemma ResetGameConsistent(s: GameState)
    requires Wf(s) && s.chances >= 1
    ensures Consistent(ResetGame(s))
  {
  }

  /** A complete line stays complete when a free cell is taken. */
  lemma {:induction false} PlacingKeepsWin(b: seq<Occupant>, c: nat, p: Player)
    requires IsBoard(b) && c < Size && b[c] == 0 && HasWin(b)
    ensures HasWin(b[c := p])
  {
    var k :| 0 <= k < |Lines| && Complete(b, k);
    assert Complete(b[c := p], k);
  }

  /** A selection that neither wins nor fills the board in a round already
      finished only places the mark: the turn is not passed. */
  lemma HandleSelectionAfterRoundEnd(s: GameState, now: real)
    requires Wf(s) && s.position != 0 && s.board[s.position - 1] == 0
    requires !HasWin(Placed(s)) && !IsFull(Placed(s))
    requires s.finished && s.remainingChances != 0
    ensures HandleSelection(s, now) == (Ok, s.(board := Placed(s), position := 0))
  {
    var s1 := s.(board := Placed(s));
    assert Select(s) == (Ok, s1);
    ScoreSelectionGoesOn(s1);
    EndTurnKeepsTurn(ScoreSelection(s1), now);
  }

  /** The flags check_for_win sets lie on taken cells. */
  lemma MarkLineOnTaken(b: seq<Occupant>, m: seq<bool>)
    requires IsBoard(b) && |m| == Size && HasWin(b)
    requires forall i :: 0 <= i < Size && m[i] ==> b[i] != 0
    ensures FirstWinLine(b).Some?
    ensures forall i :: 0 <= i < Size && MarkLine(m, FirstWinLine(b).value)[i] ==> b[i] != 0
  {
    FirstWinLineIsFirst(b);
  }

  /** A selection that completes a line on a board without one completes a
      line of the current player's marks, and that line is the one
      check_for_win flags: announce_win credits the player who made it. In a
      consistent game the board of a round that goes on has no line. */
  lemma WinIsCurrentPlayers(s: GameState)
    requires Wf(s) && s.position != 0 && s.board[s.position - 1] == 0
    requires !HasWin(s.board) && HasWin(Placed(s))
    ensures FirstWinLine(Placed(s)).Some?
    ensures AllOf(Placed(s), FirstWinLine(Placed(s)).value, s.currentPlayer)
  {
    var b, c := Placed(s), s.position - 1;
    FirstWinLineIsFirst(b);
    var k := FirstWinLine(b).value;
    OffLineKept(s.board, c, s.currentPlayer, k);
    assert OnLine(k, c);
  }

  /** A mark off line `k` does not change whether line `k` is complete. */
  lemma OffLineKept(b: seq<Occupant>, c: nat, p: Player, k: nat)
    requires IsBoard(b) && c < Size && k < |Lines|
    ensures !OnLine(k, c) ==> (Complete(b[c := p], k) <==> Complete(b, k))
  {
  }

  lemma EndsSeriesConsistent(s: GameState, now: real)
    requires Wf(s) && Consistent(s) && s.position != 0 && s.board[s.position - 1] == 0
    requires (HasWin(Placed(s)) || IsFull(Placed(s))) && s.remainingChances == 1
    ensures Consistent(HandleSelection(s, now).1)
  {
    HandleSelectionEndsSeries(s, now);
    InitialConsistent(s.chances);
  }

  lemma WinConsistent(s: GameState, now: real)
    requires Wf(s) && Consistent(s) && s.position != 0 && s.board[s.position - 1] == 0
    requires HasWin(Placed(s)) && s.remainingChances != 1
    ensures Consistent(HandleSelection(s, now).1)
  {
    HandleSelectionWins(s, now);
    MarkLineOnTaken(Placed(s), s.matched);
  }

  lemma DrawConsistent(s: GameState, now: real)
    requires Wf(s) && Consistent(s) && s.position != 0 && s.board[s.position - 1] == 0
    requires !HasWin(Placed(s)) && IsFull(Placed(s)) && s.remainingChances != 1
    ensures Consistent(HandleSelection(s, now).1)
  {
    HandleSelectionDraws(s, now);
  }

  lemma PassConsistent(s: GameState, now: real)
    requires Wf(s) && Consistent(s) && s.position != 0 && s.board[s.position - 1] == 0
    requires !HasWin(Placed(s)) && !IsFull(Placed(s)) && !s.finished
    ensures Consistent(HandleSelection(s, now).1)
  {
    HandleSelectionPassesTurn(s, now);
  }

  /** handle_selection keeps the invariant, on every path. */
  lemma {:induction false} HandleSelectionConsistent(s: GameState, now: real)
    requires Wf(s) && Consistent(s)
    ensures Consistent(HandleSelection(s, now).1)
  {
    if s.position == 0 || s.board[s.position - 1] != 0 {
      HandleSelectionRejected(s, now);
    } else if s.remainingChances == 1 && (HasWin(Placed(s)) || IsFull(Placed(s))) {
      EndsSeriesConsistent(s, now);
    } else if HasWin(Placed(s)) {
      WinConsistent(s, now);
    } else if IsFull(Placed(s)) {
      DrawConsistent(s, now);
    } else {
      if s.finished {
        // a finished round of a consistent game has a complete line, which
        // the new mark keeps
        PlacingKeepsWin(s.board, s.position - 1, s.currentPlayer);
        assert false;
      }
      PassConsistent(s, now);
    }
  }
}
