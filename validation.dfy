/**
 * The read-only checks the game runs on the player's board: isPossible and
 * findHint (the hint button), isValid, isBoardFull and isBoardValid (error
 * highlighting and the win test). Each scans the board with loops and early
 * returns as script.js does, and is proved against the rules in Board.
 */
module Validation {
  import opened Wrappers
  import opened Board

  /** A hint: the cell and the one digit that fits there. */
  datatype Hint = Hint(row: int, col: int, value: int)

  /** isPossible: num is in neither row r, column c, nor the box of (r, c). */
  method IsPossible(board: Grid, r: int, c: int, num: int) returns (ok: bool)
    requires IsGrid(board) && InBounds(r, c)
    ensures ok <==> Fits(board, r, c, num)
  {
    for x := 0 to N
      invariant forall j :: 0 <= j < x ==> board[r][j] != num
    {
      if board[r][x] == num {
        return false;
      }
    }
    for x := 0 to N
      invariant forall i :: 0 <= i < x ==> board[i][c] != num
    {
      if board[x][c] == num {
        return false;
      }
    }
    var startRow, startCol := r - r % SQRT_N, c - c % SQRT_N;
    for i := 0 to SQRT_N
      invariant forall i', j :: startRow <= i' < startRow + i && startCol <= j < startCol + SQRT_N ==> board[i'][j] != num
    {
      var line := board[startRow + i];
      for j := 0 to SQRT_N
        invariant forall j' :: startCol <= j' < startCol + j ==> line[j'] != num
      {
        if line[startCol + j] == num {
          return false;
        }
      }
    }
    return true;
  }

  /** isValid: no other cell of row, column or box holds num. */
  method IsValid(board: Grid, row: int, col: int, num: int) returns (ok: bool)
    requires IsGrid(board) && InBounds(row, col)
    ensures ok <==> ConflictFree(board, row, col, num)
  {
    for k := 0 to N
      invariant forall j :: 0 <= j < k && j != col ==> board[row][j] != num
    {
      if k != col && board[row][k] == num {
        assert Peers(row, col, row, k);
        return false;
      }
    }
    for k := 0 to N
      invariant forall i :: 0 <= i < k && i != row ==> board[i][col] != num
    {
      if k != row && board[k][col] == num {
        assert Peers(row, col, k, col);
        return false;
      }
    }
    var boxRow, boxCol := row - row % SQRT_N, col - col % SQRT_N;
    for i := 0 to SQRT_N
      invariant forall r2, c2 :: boxRow <= r2 < boxRow + i && boxCol <= c2 < boxCol + SQRT_N && (r2 != row || c2 != col) ==> board[r2][c2] != num
    {
      var line := board[boxRow + i];
      for j := 0 to SQRT_N
        invariant forall c2 :: boxCol <= c2 < boxCol + j && (boxRow + i != row || c2 != col) ==> line[c2] != num
      {
        var r2, c2 := boxRow + i, boxCol + j;
        if (r2 != row || c2 != col) && board[r2][c2] == num {
          assert BoxStart(r2) == boxRow && BoxStart(c2) == boxCol;
          assert Peers(row, col, r2, c2);
          return false;
        }
      }
    }
    forall r2, c2 | InBounds(r2, c2) && Peers(row, col, r2, c2)
      ensures board[r2][c2] != num
    {
      if r2 != row && c2 != col {
        assert boxRow <= r2 < boxRow + SQRT_N && boxCol <= c2 < boxCol + SQRT_N;
      }
    }
    return true;
  }

  /** isBoardFull: the board is 9x9 and has no empty cell. */
  method IsBoardFull(board: Grid) returns (ok: bool)
    ensures ok <==> IsGrid(board) && Full(board)
  {
    if |board| != N {
      return false;
    }
    for row := 0 to N
      invariant forall i :: 0 <= i < row ==> |board[i]| == N
      invariant forall i, j :: 0 <= i < row && 0 <= j < N ==> board[i][j] != 0
    {
      if |board[row]| != N {
        return false;
      }
      for col := 0 to N
        invariant forall j :: 0 <= j < col ==> board[row][j] != 0
      {
        if board[row][col] == 0 {
          return false;
        }
      }
    }
    return true;
  }

  /** isBoardValid: the board is 9x9 and every non-empty cell passes isValid. */
  method IsBoardValid(board: Grid) returns (ok: bool)
    ensures ok <==> IsGrid(board) && Consistent(board)
  {
    if |board| != N {
      return false;
    }
    for row := 0 to N
      invariant forall i :: 0 <= i < row ==> |board[i]| == N
    {
      if |board[row]| != N {
        return false;
      }
    }
    for row := 0 to N
      invariant forall i, j :: 0 <= i < row && 0 <= j < N && board[i][j] != 0 ==> ConflictFree(board, i, j, board[i][j])
    {
      for col := 0 to N
        invariant forall j :: 0 <= j < col && board[row][j] != 0 ==> ConflictFree(board, row, j, board[row][j])
      {
        var num := board[row][col];
        if num != 0 {
          var valid := IsValid(board, row, col, num);
          if !valid {
            return false;
          }
        }
      }
    }
    return true;
  }

  /** The digits 1..9 that isPossible accepts at (r, c), collected in increasing order as findHint does. */
  method PossibleNumbers(board: Grid, r: int, c: int) returns (possibleNumbers: seq<int>)
    requires IsGrid(board) && InBounds(r, c)
    ensures possibleNumbers == Candidates(board, r, c, N)
    ensures forall v :: v in possibleNumbers <==> 1 <= v <= N && Fits(board, r, c, v)
  {
    possibleNumbers := [];
    for num := 1 to N + 1
      invariant possibleNumbers == Candidates(board, r, c, num - 1)
    {
      var p := IsPossible(board, r, c, num);
      if p {
        possibleNumbers := possibleNumbers + [num];
      }
    }
  }

  /** A cell findHint offers: empty, not a given, and exactly one digit fits there. */
  ghost predicate HintCell(board: Grid, fixed: seq<bool>, r: int, c: int)
    requires IsGrid(board) && |fixed| == N * N && InBounds(r, c)
  {
    board[r][c] == 0 && !fixed[Pos(r, c)] && exists v :: SoleFit(board, r, c, v)
  }

  /**
   * The per-cell test of findHint: for an empty cell that is not a given,
   * the digit when exactly one fits; None otherwise.
   */
  method HintAt(board: Grid, fixed: seq<bool>, r: int, c: int) returns (value: Option<int>)
    requires IsGrid(board) && |fixed| == N * N && InBounds(r, c)
    ensures value.Some? <==> HintCell(board, fixed, r, c)
    ensures value.Some? ==> SoleFit(board, r, c, value.value)
  {
    if board[r][c] == 0 && !fixed[Pos(r, c)] {
      var possibleNumbers := PossibleNumbers(board, r, c);
      if |possibleNumbers| == 1 {
        SingleCandidate(board, r, c, possibleNumbers[0]);
        return Some(possibleNumbers[0]);
      }
      forall v | SoleFit(board, r, c, v)
        ensures false
      {
        SingleCandidate(board, r, c, v);
      }
    }
    return None;
  }

  /**
   * findHint: the first cell in row-major order that is empty, not a given
   * (fixed[Pos(r, c)], the fixed-cell mark of its tile) and has exactly one
   * digit that fits, together with that digit; None when there is none.
   */
  method FindHint(board: Grid, fixed: seq<bool>) returns (hint: Option<Hint>)
    requires IsGrid(board) && |fixed| == N * N
    ensures hint.Some? ==>
      var h := hint.value;
      InBounds(h.row, h.col) && HintCell(board, fixed, h.row, h.col) && SoleFit(board, h.row, h.col, h.value) &&
      forall r, c :: InBounds(r, c) && Before(r, c, h.row, h.col) ==> !HintCell(board, fixed, r, c)
    ensures hint.None? ==> forall r, c :: InBounds(r, c) ==> !HintCell(board, fixed, r, c)
  {
    for r := 0 to N
      invariant forall i, j :: 0 <= i < r && 0 <= j < N ==> !HintCell(board, fixed, i, j)
    {
      for c := 0 to N
        invariant forall i, j :: InBounds(i, j) && Before(i, j, r, c) ==> !HintCell(board, fixed, i, j)
      {
        var value := HintAt(board, fixed, r, c);
        if value.Some? {
          return Some(Hint(r, c, value.value));
        }
      }
    }
    return None;
  }
  /** A cell the player filled (non-zero, not a given) whose digit clashes with a peer. */
  ghost predicate ErrorCell(board: Grid, fixed: seq<bool>, r: int, c: int)
    requires IsGrid(board) && |fixed| == N * N && InBounds(r, c)
  {
    board[r][c] != 0 && !fixed[Pos(r, c)] && !ConflictFree(board, r, c, board[r][c])
  }

  /**
   * validateAndHighlightErrors: visits every cell, marks each error cell and
   * answers whether there was none. Givens are never marked.
   */
  method ValidateAndHighlightErrors(board: Grid, fixed: seq<bool>) returns (ok: bool)
    requires IsGrid(board) && |fixed| == N * N
    ensures ok <==> forall r, c :: InBounds(r, c) ==> !ErrorCell(board, fixed, r, c)
  {
    var hasErrors := false;
    for r := 0 to N
      invariant !hasErrors <==> forall i, j :: 0 <= i < r && 0 <= j < N ==> !ErrorCell(board, fixed, i, j)
    {
      for c := 0 to N
        invariant !hasErrors <==> forall i, j :: InBounds(i, j) && Before(i, j, r, c) ==> !ErrorCell(board, fixed, i, j)
      {
        var num := board[r][c];
        if num != 0 && !fixed[Pos(r, c)] {
          var valid := IsValid(board, r, c, num);
          if !valid {
            assert ErrorCell(board, fixed, r, c);
            hasErrors := true;
          }
        }
        assert !hasErrors ==> !ErrorCell(board, fixed, r, c);
      }
    }
    return !hasErrors;
  }
}
