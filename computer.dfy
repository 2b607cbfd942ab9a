/** The computer's move (do_computer_move). The program scans the possible
    moves for a win of its own symbol 2, then for a win of the opponent's
    symbol 1, writing each hit into navigation_button_position, and then
    overwrites that position with a random possible move. That move is a
    0-based cell index, while select reads the position as 1-based. This
    module states both facts about the move as written, and gives the move
    the comments describe (win, else block, else random, stored 1-based) with
    its properties. */
module ComputerMove {
  import opened Board
  import opened Transitions

  /** The computer's symbol. */
  const Computer: Player := 2

  /** The symbol of the computer's opponent. */
  const Opponent: Player := if Computer == 2 then 1 else 2

  /** The last of `moves` that gives `symbol` a line when played. */
  function LastCompleting(b: seq<Occupant>, moves: seq<nat>, symbol: Player): (r: Option<nat>)
    requires IsBoard(b) && Cells(moves)
    ensures r.Some? ==> r.value in moves && CompletesLine(b, r.value, symbol)
    ensures r.None? <==> forall m :: m in moves ==> !CompletesLine(b, m, symbol)
    decreases |moves|
  {
    if moves == [] then None
    else
      var last, init := moves[|moves| - 1], moves[..|moves| - 1];
      assert last in moves;
      assert forall i :: 0 <= i < |init| ==> init[i] == moves[i];
      assert forall m :: m in init ==> m in moves;
      assert moves == init + [last];
      if CompletesLine(b, last, symbol) then Some(last)
      else LastCompleting(b, init, symbol)
  }

  /** navigation_button_position after one scan that starts from `pos`: the
      last move that completes a line, or `pos` when none does. */
  function ScanResult(b: seq<Occupant>, moves: seq<nat>, symbol: Player, pos: int): (r: int)
    requires IsBoard(b) && Cells(moves)
    ensures r == pos || (r in moves && CompletesLine(b, r, symbol))
    ensures (forall m :: m in moves ==> !CompletesLine(b, m, symbol)) ==> r == pos
  {
    match LastCompleting(b, moves, symbol)
    case Some(m) => m
    case None => pos
  }

  /** One more move of a scan: it takes the cursor when it completes a line. */
  lemma ScanStep(b: seq<Occupant>, moves: seq<nat>, symbol: Player, pos: int, k: nat)
    requires IsBoard(b) && Cells(moves) && k < |moves|
    ensures Cells(moves[..k]) && Cells(moves[..k + 1])
    ensures ScanResult(b, moves[..k + 1], symbol, pos) ==
            if CompletesLine(b, moves[k], symbol) then moves[k]
            else ScanResult(b, moves[..k], symbol, pos)
  {
    assert moves[..k + 1][..k] == moves[..k];
  }

  /** What the scans feed into select as written: a chosen 0-based move `m`
      is read as the 1-based position `m`, so cell 0 cannot be played, cell
      `m - 1` is played instead of cell `m`, and a taken cell `m - 1` is
      refused. */
  lemma ComputerMoveOffByOne(s: GameState, status: Status, t: GameState)
    requires Wf(s) && !IsFull(s.board) && ComputerMoved(s, status, t)
    ensures var (st, u) := Select(t);
      (t.position == 0 ==> st == NoPosition && u == t) &&
      (t.position != 0 && s.board[t.position - 1] != 0 ==> st == AlreadySelected && u == t) &&
      (st == Ok ==> u.board == s.board[t.position - 1 := s.currentPlayer] &&
                    u.board[t.position] == s.board[t.position])
  {
  }

  /** A board with no line whose only free cell is the last one. */
  const StuckBoard: seq<Occupant> := [1, 2, 1, 1, 2, 2, 2, 1, 0]

  /** On a board whose only free cell is the last one, the only possible move
      is 8, which select reads as cell 7, already taken: the computer's
      selection is refused and nothing changes, however often it is tried. */
  lemma ComputerStuckOnLastCell(s: GameState, status: Status, t: GameState, now: real)
    requires Wf(s) && s.board[8] == 0 && forall i :: 0 <= i < 8 ==> s.board[i] != 0
    requires ComputerMoved(s, status, t)
    ensures status == Ok && t.position == 8
    ensures HandleSelection(t, now) == (AlreadySelected, t)
  {
    assert !IsFull(s.board);
    assert t.position < Size && s.board[t.position] == 0;
    HandleSelectionRejected(t, now);
  }

  /** StuckBoard is such a board, and its round is still running: it has no
      complete line and is not full. */
  lemma StuckBoardOpen()
    ensures StuckBoard[8] == 0 && forall i :: 0 <= i < 8 ==> StuckBoard[i] != 0
    ensures !HasWin(StuckBoard) && !IsFull(StuckBoard)
  {
    var b := StuckBoard;
    assert b[8] == 0;
    assert !Complete(b, 0) && !Complete(b, 1) && !Complete(b, 2);
    assert !Complete(b, 3) && !Complete(b, 4) && !Complete(b, 5);
    assert !Complete(b, 6) && !Complete(b, 7);
  }

  /** A board where the computer (2) wins at cell 2 and blocks at cell 5. */
  const WinningBoard: seq<Occupant> := [2, 2, 0, 1, 1, 0, 0, 0, 1]

  lemma WinningBoardMoves()
    ensures PossibleMoves(WinningBoard) == [2, 5, 6, 7]
  {
    var b := WinningBoard;
    assert FreeFrom(b, 8) == [];
    assert FreeFrom(b, 7) == [7];
    assert FreeFrom(b, 6) == [6, 7];
    assert FreeFrom(b, 5) == [5, 6, 7];
    assert FreeFrom(b, 3) == [5, 6, 7];
    assert FreeFrom(b, 2) == [2, 5, 6, 7];
  }

  /** No line of `symbol` after `symbol` is played on cell `m` of WinningBoard. */
  lemma NoLineOnWinningBoard(m: nat, symbol: Player)
    requires m < Size && (m == 6 || m == 7 || (m == 5 && symbol == Computer))
    ensures !CompletesLine(WinningBoard, m, symbol)
  {
    var c := WinningBoard[m := symbol];
    assert !AllOf(c, 0, symbol) && !AllOf(c, 1, symbol) && !AllOf(c, 2, symbol);
    assert !AllOf(c, 3, symbol) && !AllOf(c, 4, symbol) && !AllOf(c, 5, symbol);
    assert !AllOf(c, 6, symbol) && !AllOf(c, 7, symbol);
  }

  /** On WinningBoard the win scan finds cell 2 and the block scan cell 5, but
      the move as written may still be cell 7, which neither wins nor blocks
      (and which select then reads as cell 6). */
  lemma ComputerMayMissWin(s: GameState)
    requires Wf(s) && s.board == WinningBoard
    ensures ScanResult(s.board, PossibleMoves(s.board), Computer, s.position) == 2
    ensures ScanResult(s.board, PossibleMoves(s.board), Opponent, 2) == 5
    ensures ComputerMoved(s, Ok, s.(position := 7))
    ensures CompletesLine(s.board, 2, Computer)
    ensures !CompletesLine(s.board, 7, Computer) && !CompletesLine(s.board, 7, Opponent)
  {
    WinningBoardMoves();
    WinScanFindsWin();
    BlockScanFindsBlock();
    NoLineOnWinningBoard(7, Computer);
    NoLineOnWinningBoard(7, Opponent);
  }

  lemma WinScanFindsWin()
    ensures LastCompleting(WinningBoard, [2, 5, 6, 7], Computer) == Some(2)
  {
    var b, moves := WinningBoard, [2, 5, 6, 7];
    assert AllOf(b[2 := Computer], 0, Computer);
    NoLineOnWinningBoard(5, Computer);
    NoLineOnWinningBoard(6, Computer);
    NoLineOnWinningBoard(7, Computer);
    assert CompletesLine(b, 2, Computer);
    assert [2, 5][..1] == [2] && [2][..0] == [];
    assert LastCompleting(b, [2], Computer) == Some(2);
    assert LastCompleting(b, [2, 5], Computer) == Some(2);
    assert moves[..3] == [2, 5, 6] && [2, 5, 6][..2] == [2, 5];
    assert LastCompleting(b, [2, 5, 6], Computer) == Some(2);
  }

  lemma BlockScanFindsBlock()
    ensures LastCompleting(WinningBoard, [2, 5, 6, 7], Opponent) == Some(5)
  {
    var b, moves := WinningBoard, [2, 5, 6, 7];
    assert AllOf(b[5 := Opponent], 1, Opponent);
    NoLineOnWinningBoard(6, Opponent);
    NoLineOnWinningBoard(7, Opponent);
    assert CompletesLine(b, 5, Opponent);
    assert moves[..3] == [2, 5, 6] && [2, 5, 6][..2] == [2, 5];
    assert LastCompleting(b, [2, 5], Opponent) == Some(5);
    assert LastCompleting(b, [2, 5, 6], Opponent) == Some(5);
  }

  /** The intended move, as the comments of do_computer_move describe it: a
      move that wins if there is one, else one that blocks the opponent's
      win, else the random pick `pick`; stored 1-based, as select reads it. */
  function IntendedPosition(b: seq<Occupant>, pick: nat): (r: int)
    requires IsBoard(b) && pick in PossibleMoves(b)
    ensures 1 <= r <= Size && b[r - 1] == 0
  {
    var moves := PossibleMoves(b);
    match LastCompleting(b, moves, Computer)
    case Some(w) => w + 1
    case None =>
      match LastCompleting(b, moves, Opponent)
      case Some(k) => k + 1
      case None => pick + 1
  }

  /** The intended move wins when some move wins, else blocks when some move
      blocks, and is the random pick only when no move does either. */
  lemma IntendedPositionIsBest(b: seq<Occupant>, pick: nat)
    requires IsBoard(b) && pick in PossibleMoves(b)
    ensures (exists m :: m in PossibleMoves(b) && CompletesLine(b, m, Computer)) ==>
              CompletesLine(b, IntendedPosition(b, pick) - 1, Computer)
    ensures (forall m :: m in PossibleMoves(b) ==> !CompletesLine(b, m, Computer)) &&
            (exists m :: m in PossibleMoves(b) && CompletesLine(b, m, Opponent)) ==>
              CompletesLine(b, IntendedPosition(b, pick) - 1, Opponent)
    ensures (forall m :: m in PossibleMoves(b) ==>
               !CompletesLine(b, m, Computer) && !CompletesLine(b, m, Opponent)) ==>
              IntendedPosition(b, pick) == pick + 1
  {
    var moves := PossibleMoves(b);
    match LastCompleting(b, moves, Computer)
    case Some(w) =>
    case None =>
      match LastCompleting(b, moves, Opponent)
      case Some(k) =>
      case None =>
  }

  /** A line of three copies of a player's symbol is a complete line. */
  lemma LineOfIsWin(b: seq<Occupant>, symbol: Player)
    requires IsBoard(b) && HasLineOf(b, symbol)
    ensures HasWin(b)
  {
    var k :| 0 <= k < |Lines| && AllOf(b, k, symbol);
    assert Complete(b, k);
  }

  /** The intended move is always accepted by select and lands on the chosen
      cell; when the computer plays 2 and has a winning move, handle_selection
      then scores the win. */
  lemma IntendedPositionIsPlaced(s: GameState, pick: nat)
    requires Wf(s) && pick in PossibleMoves(s.board)
    ensures var t := s.(position := IntendedPosition(s.board, pick));
      Select(t).0 == Ok &&
      Select(t).1.board == s.board[IntendedPosition(s.board, pick) - 1 := s.currentPlayer]
    ensures s.currentPlayer == Computer &&
            (exists m :: m in PossibleMoves(s.board) && CompletesLine(s.board, m, Computer)) ==>
              HasWin(Placed(s.(position := IntendedPosition(s.board, pick))))
  {
    var r := IntendedPosition(s.board, pick);
    var t := s.(position := r);
    assert Select(t) == (Ok, t.(board := Placed(t)));
    if s.currentPlayer == Computer &&
       (exists m :: m in PossibleMoves(s.board) && CompletesLine(s.board, m, Computer)) {
      IntendedPositionIsBest(s.board, pick);
      LineOfIsWin(Placed(t), Computer);
    }
  }
}
