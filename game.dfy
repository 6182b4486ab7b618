/**
 * The state of a game in progress and the player's actions on it: entering
 * a digit, erasing, undoing the last move and taking a hint. The board is
 * the 9x9 array `currentBoard`, the givens are the tiles marked fixed when
 * the puzzle was laid out, and every change of a cell is pushed on the move
 * history so that undo can take it back.
 */
module Game {
  import opened Wrappers
  import opened Board
  import opened Validation

  const MAX_HINTS: int := 3

  /** One recorded change of a cell; `index` is the tile number r * 9 + c. */
  datatype Move = Move(index: int, row: int, col: int, prevValue: int, newValue: int, isHint: bool)

  /**
   * Move m takes board g to board h: it changes one cell that is not a
   * given, from the value it records as previous to a different one. A hint
   * fills an empty cell with the only digit that fits there.
   */
  ghost predicate Step(g: Grid, m: Move, h: Grid, fixed: seq<bool>)
    requires |fixed| == N * N
  {
    IsGrid(g) && InBounds(m.row, m.col) && m.index == Pos(m.row, m.col) && !fixed[m.index] &&
    m.prevValue == g[m.row][m.col] && m.newValue != m.prevValue &&
    (m.isHint ==> m.prevValue == 0 && SoleFit(g, m.row, m.col, m.newValue)) &&
    h == Put(g, m.row, m.col, m.newValue)
  }

  /** boards[i] is the board before moves[i] and boards[i + 1] the board after it. */
  ghost predicate Chain(boards: seq<Grid>, moves: seq<Move>, fixed: seq<bool>)
  {
    |fixed| == N * N && |boards| == |moves| + 1 && IsGrid(boards[0]) &&
    forall i :: 0 <= i < |moves| ==> Step(boards[i], moves[i], boards[i + 1], fixed)
  }

  /** Undoing a move puts its previous value back and gives the board it started from. */
  lemma UndoRestores(g: Grid, m: Move, h: Grid, fixed: seq<bool>)
    requires |fixed| == N * N && Step(g, m, h, fixed)
    ensures IsGrid(h) && Put(h, m.row, m.col, m.prevValue) == g
  {
    SameCells(Put(h, m.row, m.col, m.prevValue), g);
  }

  /** Along a history, no move ever changes a given: the last board keeps the givens of the first. */
  lemma {:induction false} GivensKept(boards: seq<Grid>, moves: seq<Move>, fixed: seq<bool>)
    requires Chain(boards, moves, fixed)
    ensures IsGrid(boards[|moves|])
    ensures forall r, c :: InBounds(r, c) && fixed[Pos(r, c)] ==> boards[|moves|][r][c] == boards[0][r][c]
    decreases |moves|
  {
    if |moves| > 0 {
      var k := |moves| - 1;
      assert Chain(boards[..k + 1], moves[..k], fixed) by {
        forall i | 0 <= i < k
          ensures Step(boards[..k + 1][i], moves[..k][i], boards[..k + 1][i + 1], fixed)
        {
          assert Step(boards[i], moves[i], boards[i + 1], fixed);
        }
      }
      GivensKept(boards[..k + 1], moves[..k], fixed);
      assert Step(boards[k], moves[k], boards[k + 1], fixed);
    }
  }

  /** A shorter history: dropping the last move leaves a history that ends at the board before it. */
  lemma ChainPrefix(boards: seq<Grid>, moves: seq<Move>, fixed: seq<bool>)
    requires Chain(boards, moves, fixed) && |moves| > 0
    ensures Chain(boards[..|moves|], moves[..|moves| - 1], fixed)
  {
    var k := |moves| - 1;
    forall i | 0 <= i < k
      ensures Step(boards[..k + 1][i], moves[..k][i], boards[..k + 1][i + 1], fixed)
    {
      assert Step(boards[i], moves[i], boards[i + 1], fixed);
    }
  }

  /** A history extended by one more step is still a history. */
  lemma ChainExtend(boards: seq<Grid>, moves: seq<Move>, fixed: seq<bool>, m: Move, h: Grid)
    requires Chain(boards, moves, fixed) && Step(boards[|moves|], m, h, fixed)
    ensures Chain(boards + [h], moves + [m], fixed)
  {
    var bs, ms := boards + [h], moves + [m];
    forall i | 0 <= i < |ms|
      ensures Step(bs[i], ms[i], bs[i + 1], fixed)
    {
      if i < |moves| {
        assert Step(boards[i], moves[i], boards[i + 1], fixed);
      }
    }
  }

  class SudokuGame {
    /** `currentBoard`. */
    var board: array2<int>
    /** Whether tile r * 9 + c carries the fixed-cell mark. */
    var fixed: seq<bool>
    var moveHistory: seq<Move>
    var hintsRemaining: int
    /** boards[i] is the board before moveHistory[i]; the last one is the board now. */
    ghost var boards: seq<Grid>
    /** The puzzle the game started from. */
    ghost var puzzle: Grid

    ghost predicate Valid()
      reads this, board
    {
      board.Length0 == N && board.Length1 == N && Chain(boards, moveHistory, fixed) &&
      boards[0] == puzzle && boards[|moveHistory|] == Snapshot(board) && 0 <= hintsRemaining <= MAX_HINTS
    }

    /**
     * A new game on a generated puzzle: the board is a copy of it, the
     * non-zero cells become the givens, the history is empty and all hints
     * are available.
     */
    constructor (puzzle: Grid)
      requires IsGrid(puzzle)
      ensures Valid() && fresh(board) && this.puzzle == puzzle
      ensures Snapshot(board) == puzzle && boards == [puzzle]
      ensures forall r, c :: InBounds(r, c) ==> (fixed[Pos(r, c)] <==> puzzle[r][c] != 0)
      ensures moveHistory == [] && hintsRemaining == MAX_HINTS
    {
      var m := new int[N, N];
      for r := 0 to N
        invariant forall i, j :: 0 <= i < r && 0 <= j < N ==> m[i, j] == puzzle[i][j]
      {
        for c := 0 to N
          invariant forall i, j :: InBounds(i, j) && Before(i, j, r, c) ==> m[i, j] == puzzle[i][j]
        {
          m[r, c] := puzzle[r][c];
        }
      }
      SameCells(Snapshot(m), puzzle);
      board := m;
      fixed := seq(N * N, i requires 0 <= i < N * N => puzzle[i / N][i % N] != 0);
      moveHistory := [];
      hintsRemaining := MAX_HINTS;
      boards := [puzzle];
      this.puzzle := puzzle;
    }

    /** Sets cell (r, c) to v and pushes the move, keeping the history in step with the board. */
    method Record(r: int, c: int, v: int, isHint: bool)
      requires Valid() && InBounds(r, c) && !fixed[Pos(r, c)] && board[r, c] != v
      requires isHint ==> board[r, c] == 0 && SoleFit(Snapshot(board), r, c, v)
      modifies this, board
      ensures Valid() && board == old(board)
      ensures Snapshot(board) == Put(old(Snapshot(board)), r, c, v)
      ensures moveHistory == old(moveHistory) + [Move(Pos(r, c), r, c, old(board[r, c]), v, isHint)]
      ensures boards == old(boards) + [Snapshot(board)]
      ensures fixed == old(fixed) && hintsRemaining == old(hintsRemaining) && puzzle == old(puzzle)
    {
      ghost var before := Snapshot(board);
      var m := Move(Pos(r, c), r, c, board[r, c], v, isHint);
      moveHistory := moveHistory + [m];
      board[r, c] := v;
      SameCells(Snapshot(board), Put(before, r, c, v));
      ChainExtend(boards, old(moveHistory), fixed, m, Snapshot(board));
      boards := boards + [Snapshot(board)];
    }

    /** Whatever moves were made, every given still holds its value from the puzzle. */
    lemma GivensUnchanged()
      requires Valid()
      ensures forall r, c :: InBounds(r, c) && fixed[Pos(r, c)] ==> board[r, c] == puzzle[r][c]
    {
      GivensKept(boards, moveHistory, fixed);
    }

    /**
     * Two givens that clash in the puzzle clash on every board the game can
     * reach, so the board is never consistent and the game is never won.
     */
    lemma ClashingGivensNeverWin(r1: int, c1: int, r2: int, c2: int)
      requires Valid() && InBounds(r1, c1) && InBounds(r2, c2) && Peers(r1, c1, r2, c2)
      requires fixed[Pos(r1, c1)] && fixed[Pos(r2, c2)] && puzzle[r1][c1] != 0 && puzzle[r1][c1] == puzzle[r2][c2]
      ensures !Consistent(Snapshot(board))
    {
      GivensKept(boards, moveHistory, fixed);
      assert Snapshot(board)[r1][c1] == Snapshot(board)[r2][c2];
    }

    /** isBoardFull() && isBoardValid(), the test that ends the game. */
    method IsWon() returns (won: bool)
      requires Valid()
      ensures won <==> Full(Snapshot(board)) && Consistent(Snapshot(board))
    {
      var full := IsBoardFull(Snapshot(board));
      won := false;
      if full {
        won := IsBoardValid(Snapshot(board));
      }
    }

    /**
     * handleNumberInput: with a selected cell that is not a given and holds
     * another value, records the move and writes the digit; won tells
     * whether the board is then full and free of conflicts.
     */
    method HandleNumberInput(selected: Option<(int, int)>, number: int) returns (won: bool)
      requires Valid()
      requires selected.Some? ==> InBounds(selected.value.0, selected.value.1)
      modifies this, board
      ensures Valid() && board == old(board) && fixed == old(fixed) && hintsRemaining == old(hintsRemaining) && puzzle == old(puzzle)
      ensures selected.None? || fixed[Pos(selected.value.0, selected.value.1)] || old(board[selected.value.0, selected.value.1]) == number ==>
        !won && moveHistory == old(moveHistory) && boards == old(boards) && unchanged(board)
      ensures selected.Some? && !fixed[Pos(selected.value.0, selected.value.1)] && old(board[selected.value.0, selected.value.1]) != number ==>
        var (r, c) := selected.value;
        Snapshot(board) == Put(old(Snapshot(board)), r, c, number) &&
        moveHistory == old(moveHistory) + [Move(Pos(r, c), r, c, old(board[r, c]), number, false)] &&
        boards == old(boards) + [Snapshot(board)] &&
        (won <==> Full(Snapshot(board)) && Consistent(Snapshot(board)))
    {
      if selected.None? || fixed[Pos(selected.value.0, selected.value.1)] {
        return false;
      }
      var (r, c) := selected.value;
      var previousValue := board[r, c];
      if previousValue == number {
        return false;
      }
      Record(r, c, number, false);
      won := IsWon();
    }

    /** handleErase: empties a selected cell that is not a given and is not empty yet, recording the move. */
    method HandleErase(selected: Option<(int, int)>)
      requires Valid()
      requires selected.Some? ==> InBounds(selected.value.0, selected.value.1)
      modifies this, board
      ensures Valid() && board == old(board) && fixed == old(fixed) && hintsRemaining == old(hintsRemaining) && puzzle == old(puzzle)
      ensures selected.None? || fixed[Pos(selected.value.0, selected.value.1)] || old(board[selected.value.0, selected.value.1]) == 0 ==>
        moveHistory == old(moveHistory) && boards == old(boards) && unchanged(board)
      ensures selected.Some? && !fixed[Pos(selected.value.0, selected.value.1)] && old(board[selected.value.0, selected.value.1]) != 0 ==>
        var (r, c) := selected.value;
        Snapshot(board) == Put(old(Snapshot(board)), r, c, 0) &&
        moveHistory == old(moveHistory) + [Move(Pos(r, c), r, c, old(board[r, c]), 0, false)] &&
        boards == old(boards) + [Snapshot(board)]
    {
      if selected.None? || fixed[Pos(selected.value.0, selected.value.1)] {
        return;
      }
      var (r, c) := selected.value;
      var previousValue := board[r, c];
      if previousValue == 0 {
        return;
      }
      Record(r, c, 0, false);
    }

    /**
     * handleUndo: pops the last move and writes its previous value back,
     * which gives exactly the board from before that move. Hints are not
     * given back.
     */
    method HandleUndo() returns (undone: bool)
      requires Valid()
      modifies this, board
      ensures Valid() && board == old(board) && fixed == old(fixed) && hintsRemaining == old(hintsRemaining) && puzzle == old(puzzle)
      ensures undone <==> old(|moveHistory|) > 0
      ensures !undone ==> moveHistory == old(moveHistory) && boards == old(boards) && unchanged(board)
      ensures undone ==> moveHistory == old(moveHistory[..|moveHistory| - 1]) && boards == old(boards[..|moveHistory|])
      ensures undone ==> Snapshot(board) == old(boards[|moveHistory| - 1])
    {
      if |moveHistory| == 0 {
        return false;
      }
      var k := |moveHistory| - 1;
      var lastMove := moveHistory[k];
      ghost var after := Snapshot(board);
      assert Step(boards[k], lastMove, boards[k + 1], fixed);
      UndoRestores(boards[k], lastMove, boards[k + 1], fixed);
      ChainPrefix(boards, moveHistory, fixed);
      moveHistory := moveHistory[..k];
      board[lastMove.row, lastMove.col] := lastMove.prevValue;
      SameCells(Snapshot(board), Put(after, lastMove.row, lastMove.col, lastMove.prevValue));
      boards := boards[..k + 1];
      return true;
    }

    /**
     * handleHint: when hints remain and no cell the player filled clashes
     * with a peer, fills the first cell findHint finds with its only fitting
     * digit, records it as a hint move and uses up one hint.
     */
    method HandleHint() returns (applied: Option<Hint>, won: bool)
      requires Valid()
      modifies this, board
      ensures Valid() && board == old(board) && fixed == old(fixed) && puzzle == old(puzzle)
      ensures old(hintsRemaining) <= 0 ==> applied.None?
      ensures applied.None? && old(hintsRemaining) > 0 && (forall r, c :: InBounds(r, c) ==> !ErrorCell(old(Snapshot(board)), fixed, r, c)) ==>
        forall r, c :: InBounds(r, c) ==> !HintCell(old(Snapshot(board)), fixed, r, c)
      ensures applied.None? ==> !won && moveHistory == old(moveHistory) && boards == old(boards) && hintsRemaining == old(hintsRemaining) && unchanged(board)
      ensures applied.Some? ==>
        var h := applied.value;
        old(hintsRemaining) > 0 && hintsRemaining == old(hintsRemaining) - 1 &&
        (forall r, c :: InBounds(r, c) ==> !ErrorCell(old(Snapshot(board)), fixed, r, c)) &&
        InBounds(h.row, h.col) && HintCell(old(Snapshot(board)), fixed, h.row, h.col) &&
        SoleFit(old(Snapshot(board)), h.row, h.col, h.value) &&
        (forall r, c :: InBounds(r, c) && Before(r, c, h.row, h.col) ==> !HintCell(old(Snapshot(board)), fixed, r, c)) &&
        Snapshot(board) == Put(old(Snapshot(board)), h.row, h.col, h.value) &&
        moveHistory == old(moveHistory) + [Move(Pos(h.row, h.col), h.row, h.col, 0, h.value, true)] &&
        boards == old(boards) + [Snapshot(board)] &&
        (won <==> Full(Snapshot(board)) && Consistent(Snapshot(board)))
    {
      if hintsRemaining <= 0 {
        return None, false;
      }
      var noErrors := ValidateAndHighlightErrors(Snapshot(board), fixed);
      if !noErrors {
        return None, false;
      }
      var hint := FindHint(Snapshot(board), fixed);
      if hint.None? {
        return None, false;
      }
      var h := hint.value;
      hintsRemaining := hintsRemaining - 1;
      Record(h.row, h.col, h.value, true);
      won := IsWon();
      return hint, won;
    }
  }
}
