/** The nine cells of the 3x3 board, seen as the values of their `selected`
    fields (0 free, 1 or 2 the player who took the cell), and the queries the
    game makes on them: the eight lines, the full board, the free cells and the
    navigation cursor that walks over them. */
module Board {

  /** What a cell holds: 0 when free, otherwise the player who selected it. */
  type Occupant = x: int | 0 <= x <= 2

  /** One of the two players. */
  type Player = x: int | x == 1 || x == 2 witness 1

  datatype Option<T> = None | Some(value: T)

  /** Number of cells (the length of the list of LEDs). */
  const Size: nat := 9

  /** The eight lines, in the order in which check_for_win tests them: the
      three rows, the three columns, the diagonal and the anti-diagonal. */
  const Lines: seq<(nat, nat, nat)> :=
    [(0, 1, 2), (3, 4, 5), (6, 7, 8), (0, 3, 6), (1, 4, 7), (2, 5, 8), (0, 4, 8), (2, 4, 6)]

  predicate IsBoard(b: seq<Occupant>) {
    |b| == Size
  }

  /** No cell is free (do_all_leds_selected). */
  predicate IsFull(b: seq<Occupant>)
    requires IsBoard(b)
  {
    forall i :: 0 <= i < Size ==> b[i] != 0
  }

  /** Cell `i` is one of the three cells of line `k`. */
  predicate OnLine(k: nat, i: int)
    requires k < |Lines|
  {
    i == Lines[k].0 || i == Lines[k].1 || i == Lines[k].2
  }

  /** Line `k` holds three equal marks that are not 0 (the test of check_for_win). */
  predicate Complete(b: seq<Occupant>, k: nat)
    requires IsBoard(b) && k < |Lines|
  {
    var (x, y, z) := Lines[k];
    b[x] == b[y] == b[z] && b[z] != 0
  }

  /** Some line is complete. */
  predicate HasWin(b: seq<Occupant>)
    requires IsBoard(b)
  {
    exists k :: 0 <= k < |Lines| && Complete(b, k)
  }

  /** Line `k` holds three copies of `symbol` (the test of do_computer_move). */
  predicate AllOf(b: seq<Occupant>, k: nat, symbol: Player)
    requires IsBoard(b) && k < |Lines|
  {
    var (x, y, z) := Lines[k];
    b[x] == symbol && b[y] == symbol && b[z] == symbol
  }

  predicate HasLineOf(b: seq<Occupant>, symbol: Player)
    requires IsBoard(b)
  {
    exists k :: 0 <= k < |Lines| && AllOf(b, k, symbol)
  }

  /** Putting `symbol` on cell `m` of a copy of the board gives `symbol` a line. */
  predicate CompletesLine(b: seq<Occupant>, m: nat, symbol: Player)
    requires IsBoard(b) && m < Size
  {
    HasLineOf(b[m := symbol], symbol)
  }

  /** The first complete line at index `k` or later, in the order of `Lines`. */
  function FirstCompleteFrom(b: seq<Occupant>, k: nat): (r: Option<nat>)
    requires IsBoard(b) && k <= |Lines|
    ensures r.Some? ==> k <= r.value < |Lines| && Complete(b, r.value)
    decreases |Lines| - k
  {
    if k == |Lines| then None
    else if Complete(b, k) then Some(k)
    else FirstCompleteFrom(b, k + 1)
  }

  /** FirstCompleteFrom passes over incomplete lines only, and finds nothing
      exactly when no line from `k` on is complete. */
  lemma {:induction false} FirstCompleteFromIsFirst(b: seq<Occupant>, k: nat)
    requires IsBoard(b) && k <= |Lines|
    ensures FirstCompleteFrom(b, k).Some? ==>
              forall j :: k <= j < FirstCompleteFrom(b, k).value ==> !Complete(b, j)
    ensures FirstCompleteFrom(b, k).None? <==> forall j :: k <= j < |Lines| ==> !Complete(b, j)
    decreases |Lines| - k
  {
    if k < |Lines| {
      FirstCompleteFromIsFirst(b, k + 1);
    }
  }

  /** The line check_for_win flags: the first complete one, if any. */
  function FirstWinLine(b: seq<Occupant>): (r: Option<nat>)
    requires IsBoard(b)
    ensures r.Some? ==> r.value < |Lines| && Complete(b, r.value)
  {
    FirstCompleteFrom(b, 0)
  }

  /** FirstWinLine finds a line exactly when there is a complete one, and no
      line before the one it finds is complete. */
  lemma FirstWinLineIsFirst(b: seq<Occupant>)
    requires IsBoard(b)
    ensures FirstWinLine(b).None? <==> !HasWin(b)
    ensures FirstWinLine(b).Some? ==> forall j :: 0 <= j < FirstWinLine(b).value ==> !Complete(b, j)
  {
    FirstCompleteFromIsFirst(b, 0);
  }

  /** A complete line with no complete line before it is the one FirstWinLine
      returns. */
  lemma FirstWinLineIs(b: seq<Occupant>, k: nat)
    requires IsBoard(b) && k < |Lines| && Complete(b, k)
    requires forall j :: 0 <= j < k ==> !Complete(b, j)
    ensures FirstWinLine(b) == Some(k)
  {
    FirstWinLineIsFirst(b);
  }

  /** With no complete line, FirstWinLine finds none. */
  lemma FirstWinLineNone(b: seq<Occupant>)
    requires IsBoard(b) && forall j :: 0 <= j < |Lines| ==> !Complete(b, j)
    ensures FirstWinLine(b) == None
  {
    FirstWinLineIsFirst(b);
  }

  /** The winning flags after the three cells of line `k` are flagged. */
  function MarkLine(m: seq<bool>, k: nat): (r: seq<bool>)
    requires |m| == Size && k < |Lines|
    ensures |r| == Size
    ensures forall i :: 0 <= i < Size ==> (r[i] <==> m[i] || OnLine(k, i))
  {
    m[Lines[k].0 := true][Lines[k].1 := true][Lines[k].2 := true]
  }

  /** One step of the cursor: 1-based, wrapping from 9 back to 1; from 0 (no
      position yet) the first step goes to 1. */
  function Step(pos: int): (r: int)
    requires 0 <= pos <= Size
    ensures 1 <= r <= Size
  {
    pos % Size + 1
  }

  /** The position `d` steps of the cursor after `pos`. */
  function Advance(pos: int, d: nat): (r: int)
    requires 0 <= pos <= Size && 1 <= d
    ensures 1 <= r <= Size
  {
    (pos + d - 1) % Size + 1
  }

  lemma AdvanceStep(pos: int, d: nat)
    requires 0 <= pos <= Size && 1 <= d
    ensures Advance(pos, 1) == Step(pos)
    ensures Step(Advance(pos, d)) == Advance(pos, d + 1)
  {
  }

  /** Every cell is reached within nine steps of the cursor, from any start. */
  lemma {:induction false} AdvanceReaches(pos: int, c: nat)
    requires 0 <= pos <= Size && c < Size
    ensures 1 <= (c - pos) % Size + 1 <= Size
    ensures Advance(pos, (c - pos) % Size + 1) == c + 1
  {
    var d := (c - pos) % Size + 1;
    assert pos + d - 1 == pos + (c - pos) % Size;
    assert (pos + (c - pos) % Size) % Size == c % Size;
  }

  /** When the first eight steps from `pos` all meet taken cells on a board
      that is not full, the ninth step meets the free cell. */
  lemma {:induction false} NinthStepFree(b: seq<Occupant>, pos: int)
    requires IsBoard(b) && 0 <= pos <= Size && !IsFull(b)
    requires forall j :: 1 <= j < Size ==> b[Advance(pos, j) - 1] != 0
    ensures b[Advance(pos, Size) - 1] == 0
  {
    var c :| 0 <= c < Size && b[c] == 0;
    AdvanceReaches(pos, c);
  }

  /** The number of steps from `pos` to the first free cell, searching from
      step `d` on (the last step is taken as the answer when all are taken). */
  function FreeOffset(b: seq<Occupant>, pos: int, d: nat): (r: nat)
    requires IsBoard(b) && 0 <= pos <= Size && 1 <= d <= Size
    ensures d <= r <= Size
    decreases Size - d
  {
    if d == Size || b[Advance(pos, d) - 1] == 0 then d
    else FreeOffset(b, pos, d + 1)
  }

  /** On a board that is not full, the search stops at a free cell and every
      step before it meets a taken cell. */
  lemma {:induction false} FreeOffsetFinds(b: seq<Occupant>, pos: int, d: nat)
    requires IsBoard(b) && 0 <= pos <= Size && 1 <= d <= Size && !IsFull(b)
    requires forall j :: 1 <= j < d ==> b[Advance(pos, j) - 1] != 0
    ensures b[Advance(pos, FreeOffset(b, pos, d)) - 1] == 0
    ensures forall j :: 1 <= j < FreeOffset(b, pos, d) ==> b[Advance(pos, j) - 1] != 0
    decreases Size - d
  {
    if b[Advance(pos, d) - 1] == 0 {
    } else if d == Size {
      NinthStepFree(b, pos);
    } else {
      FreeOffsetFinds(b, pos, d + 1);
    }
  }

  /** Where navigate leaves the cursor: the first free cell strictly after
      `pos` in cyclic order 1, 2, ..., 9, 1, ... */
  function NextFree(b: seq<Occupant>, pos: int): (r: int)
    requires IsBoard(b) && 0 <= pos <= Size && !IsFull(b)
    ensures 1 <= r <= Size && b[r - 1] == 0
    ensures r == Advance(pos, FreeOffset(b, pos, 1))
    ensures forall j :: 1 <= j < FreeOffset(b, pos, 1) ==> b[Advance(pos, j) - 1] != 0
  {
    FreeOffsetFinds(b, pos, 1);
    Advance(pos, FreeOffset(b, pos, 1))
  }

  /** The cursor lands on the first free cell after `pos`: some number `d` of
      steps, with every earlier step on a taken cell. */
  lemma NextFreeIsFirstFree(b: seq<Occupant>, pos: int)
    requires IsBoard(b) && 0 <= pos <= Size && !IsFull(b)
    ensures exists d :: 1 <= d <= Size && NextFree(b, pos) == Advance(pos, d) &&
                        b[Advance(pos, d) - 1] == 0 &&
                        forall j :: 1 <= j < d ==> b[Advance(pos, j) - 1] != 0
  {
    var d := FreeOffset(b, pos, 1);
    assert NextFree(b, pos) == Advance(pos, d);
  }

  /** On a board with exactly one free cell the cursor lands on it, whatever
      its previous position. */
  lemma NextFreeOnlyCell(b: seq<Occupant>, pos: int, c: nat)
    requires IsBoard(b) && 0 <= pos <= Size && c < Size && b[c] == 0
    requires forall i :: 0 <= i < Size && i != c ==> b[i] != 0
    ensures NextFree(b, pos) == c + 1
  {
  }

  /** Every element of `moves` is a cell index. */
  predicate Cells(moves: seq<nat>) {
    forall i :: 0 <= i < |moves| ==> moves[i] < Size
  }

  /** The free cells from index `i` on, ascending. */
  function FreeFrom(b: seq<Occupant>, i: nat): (r: seq<nat>)
    requires IsBoard(b) && i <= Size
    ensures forall m :: m in r <==> i <= m < Size && b[m] == 0
    decreases Size - i
  {
    if i == Size then []
    else
      var rest := FreeFrom(b, i + 1);
      if b[i] == 0 then [i] + rest else rest
  }

  /** The free cells from index `i` on come in ascending order. */
  lemma {:induction false} FreeFromAscending(b: seq<Occupant>, i: nat)
    requires IsBoard(b) && i <= Size
    ensures forall p, q :: 0 <= p < q < |FreeFrom(b, i)| ==> FreeFrom(b, i)[p] < FreeFrom(b, i)[q]
    decreases Size - i
  {
    if i < Size {
      var rest := FreeFrom(b, i + 1);
      FreeFromAscending(b, i + 1);
      assert forall q :: 0 <= q < |rest| ==> rest[q] in rest;
    }
  }

  /** possible_moves of do_computer_move: the 0-based indices of the free
      cells; empty exactly when the board is full. */
  function PossibleMoves(b: seq<Occupant>): (r: seq<nat>)
    requires IsBoard(b)
    ensures forall m: nat :: m in r <==> m < Size && b[m] == 0
    ensures r == [] <==> IsFull(b)
    ensures Cells(r)
  {
    var r := FreeFrom(b, 0);
    assert forall i :: 0 <= i < |r| ==> r[i] in r;
    r
  }

  /** possible_moves lists the free cells in ascending order, as enumerate
      produces them. */
  lemma PossibleMovesAscending(b: seq<Occupant>)
    requires IsBoard(b)
    ensures forall p, q :: 0 <= p < q < |PossibleMoves(b)| ==> PossibleMoves(b)[p] < PossibleMoves(b)[q]
  {
    FreeFromAscending(b, 0);
  }
}
