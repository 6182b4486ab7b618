/**
 * The puzzle generator of script.js: a class over a 9x9 array `mat` that
 * fills a complete grid (diagonal boxes first, then a row-major backtracking
 * search), records it as the solution, and carves a puzzle out of a copy of
 * it. Math.random is a nondeterministic choice (`:|`): every property below
 * holds whatever numbers it returns.
 */
module Generator {
  import opened Wrappers
  import opened Board
  import opened Filling
  import opened Carving

  /** Clues to keep per difficulty (K_MAP). */
  const K_MAP: map<string, int> := map["easy" := 45, "normal" := 35, "hard" := 25]

  /** How many times generate tries to fill a grid. */
  const MAX_ATTEMPTS: int := 5

  /** What generate returns: the puzzle and the grid it was carved from. */
  datatype Generated = Generated(puzzle: Grid, solution: Grid)

  /**
   * `K_MAP[difficulty] || K_MAP.normal`: the clues to keep for a known
   * difficulty, and the normal count for any other string.
   */
  function KeepCount(difficulty: string): (k: int)
    ensures difficulty in K_MAP ==> k == K_MAP[difficulty]
    ensures difficulty !in K_MAP ==> k == K_MAP["normal"]
    ensures 25 <= k <= 45
  {
    if difficulty in K_MAP && K_MAP[difficulty] != 0 then K_MAP[difficulty] else K_MAP["normal"]
  }

  class SudokuGenerator {
    var mat: array2<int>
    var solution: Option<Grid>

    /** The board is 9x9 and a recorded solution is a 9x9 board. */
    ghost predicate Valid()
      reads this
    {
      mat.Length0 == N && mat.Length1 == N && (solution.Some? ==> IsGrid(solution.value))
    }

    /** A generator starts from an empty board and no solution. */
    constructor ()
      ensures Valid() && fresh(mat) && solution.None?
      ensures AllZero(Snapshot(mat))
    {
      mat := new int[N, N]((i, j) => 0);
      solution := None;
    }

    /** unUsedInRow: no cell of row r holds v. */
    method UnusedInRow(r: int, v: int) returns (ok: bool)
      requires Valid() && 0 <= r < N
      ensures ok <==> !RowHas(Snapshot(mat), r, v)
    {
      for col := 0 to N
        invariant forall j :: 0 <= j < col ==> mat[r, j] != v
      {
        if mat[r, col] == v {
          return false;
        }
      }
      return true;
    }

    /** unUsedInCol: no cell of column c holds v. */
    method UnusedInCol(c: int, v: int) returns (ok: bool)
      requires Valid() && 0 <= c < N
      ensures ok <==> !ColHas(Snapshot(mat), c, v)
    {
      for row := 0 to N
        invariant forall i :: 0 <= i < row ==> mat[i, c] != v
      {
        if mat[row, c] == v {
          return false;
        }
      }
      return true;
    }

    /** unUsedInBox: no cell of the box with top-left corner (r0, c0) holds v. */
    method UnusedInBox(r0: int, c0: int, v: int) returns (ok: bool)
      requires Valid() && 0 <= r0 <= N - SQRT_N && 0 <= c0 <= N - SQRT_N
      ensures ok <==> !BoxHas(Snapshot(mat), r0, c0, v)
    {
      for i := 0 to SQRT_N
        invariant forall i', j :: r0 <= i' < r0 + i && c0 <= j < c0 + SQRT_N ==> mat[i', j] != v
      {
        var row := r0 + i;
        for dc := 0 to SQRT_N
          invariant forall j :: c0 <= j < c0 + dc ==> mat[row, j] != v
        {
          if mat[row, c0 + dc] == v {
            return false;
          }
        }
      }
      return true;
    }

    /** unUsedInBoxStrict: no cell of that box other than (r, c) holds v. */
    method UnusedInBoxStrict(r0: int, c0: int, r: int, c: int, v: int) returns (ok: bool)
      requires Valid() && 0 <= r0 <= N - SQRT_N && 0 <= c0 <= N - SQRT_N
      ensures ok <==> !BoxHasElsewhere(Snapshot(mat), r0, c0, r, c, v)
    {
      for dr := 0 to SQRT_N
        invariant forall i, j :: r0 <= i < r0 + dr && c0 <= j < c0 + SQRT_N && (i != r || j != c) ==> mat[i, j] != v
      {
        var row := r0 + dr;
        for dc := 0 to SQRT_N
          invariant forall j :: c0 <= j < c0 + dc && (row != r || j != c) ==> mat[row, j] != v
        {
          var col := c0 + dc;
          if (row != r || col != c) && mat[row, col] == v {
            return false;
          }
        }
      }
      return true;
    }

    /** checkIfSafe: v is used in neither row r, column c, nor the box of (r, c). */
    method CheckIfSafe(r: int, c: int, v: int) returns (ok: bool)
      requires Valid() && InBounds(r, c)
      ensures ok <==> Fits(Snapshot(mat), r, c, v)
    {
      var row := UnusedInRow(r, v);
      var col := UnusedInCol(c, v);
      var box := UnusedInBox(r - r % SQRT_N, c - c % SQRT_N, v);
      return row && col && box;
    }

    /** randomGenerator(max): a whole number from 1 to max. */
    method RandomGenerator(max: int) returns (n: int)
      requires 1 <= max
      ensures 1 <= n <= max
    {
      n :| 1 <= n <= max;
    }

    /** shuffleArray: Fisher-Yates, swapping a[i] with a random a[0..i] from the back. */
    method ShuffleArray(a: array<int>)
      modifies a
      ensures multiset(a[..]) == multiset(old(a[..]))
    {
      var i := a.Length - 1;
      while i > 0
        invariant multiset(a[..]) == multiset(old(a[..]))
      {
        var j :| 0 <= j <= i;
        a[i], a[j] := a[j], a[i];
        i := i - 1;
      }
    }
  
    /**
     * The search inside fillBox for cell (row, col): scans the list from the
     * front for a value no other cell of the box holds (giving up after
     * N * 5 looks, more than the list ever holds), writes it and drops it
     * from the list. The value placed is the first such value of the list;
     * when none is placed, every value of the list is already elsewhere in
     * the box.
     */
    method FillCell(r0: int, c0: int, row: int, col: int, digits: seq<int>) returns (placed: bool, rest: seq<int>)
      requires Valid() && 0 <= r0 <= N - SQRT_N && 0 <= c0 <= N - SQRT_N && InBox(r0, c0, row, col)
      requires forall k :: 0 <= k < |digits| ==> 1 <= digits[k] <= N
      modifies mat
      ensures forall k :: 0 <= k < |rest| ==> 1 <= rest[k] <= N
      ensures forall i, j :: InBounds(i, j) && (i != row || j != col) ==> mat[i, j] == old(mat[i, j])
      ensures !placed ==> unchanged(mat) && rest == digits
      ensures !placed && |digits| <= N * 5 ==> forall k :: 0 <= k < |digits| ==> BoxHasElsewhere(old(Snapshot(mat)), r0, c0, row, col, digits[k])
      ensures placed ==> 1 <= mat[row, col] <= N && !BoxHasElsewhere(old(Snapshot(mat)), r0, c0, row, col, mat[row, col])
      ensures placed ==> exists k :: (0 <= k < |digits| && digits[k] == mat[row, col] && rest == digits[..k] + digits[k + 1..] &&
        forall k' :: 0 <= k' < k ==> BoxHasElsewhere(old(Snapshot(mat)), r0, c0, row, col, digits[k']))
    {
      var pos := 0;
      var looks := 0;
      var limit := N * 5;
      while pos < |digits| && looks < limit
        invariant 0 <= pos <= |digits| && looks == pos
        invariant unchanged(mat)
        invariant forall k :: 0 <= k < pos ==> BoxHasElsewhere(old(Snapshot(mat)), r0, c0, row, col, digits[k])
        decreases |digits| - pos
      {
        var v := digits[pos];
        var strict := UnusedInBoxStrict(r0, c0, row, col, v);
        if strict {
          mat[row, col] := v;
          rest := digits[..pos] + digits[pos + 1..];
          assert forall k :: 0 <= k < |rest| ==> rest[k] in digits;
          assert digits[pos] == mat[row, col] && rest == digits[..pos] + digits[pos + 1..];
          return true, rest;
        }
        pos := pos + 1;
        looks := looks + 1;
      }
      return false, digits;
    }

    /**
     * One row of fillBox: the empty cells (row, c0) .. (row, c0 + 2) of the
     * box with top-left corner (r0, c0), left to right, each filled by the
     * search of FillCell from the current list.
     */
    method FillBoxRow(r0: int, c0: int, row: int, digits: seq<int>) returns (ok: bool, rest: seq<int>)
      requires Valid() && 0 <= r0 <= N - SQRT_N && 0 <= c0 <= N - SQRT_N && r0 <= row < r0 + SQRT_N
      requires forall k :: 0 <= k < |digits| ==> 1 <= digits[k] <= N
      modifies mat
      ensures forall k :: 0 <= k < |rest| ==> 1 <= rest[k] <= N
      ensures forall x, y :: InBounds(x, y) ==> FillKeeps(old(mat[x, y]), mat[x, y], x == row && c0 <= y < c0 + SQRT_N)
      ensures BoxDistinct(old(Snapshot(mat)), r0, c0) ==> BoxDistinct(Snapshot(mat), r0, c0)
      ensures ok ==> forall y :: c0 <= y < c0 + SQRT_N ==> mat[row, y] != 0
    {
      rest := digits;
      for dc := 0 to SQRT_N
        invariant forall x, y :: InBounds(x, y) ==> FillKeeps(old(mat[x, y]), mat[x, y], x == row && c0 <= y < c0 + SQRT_N)
        invariant BoxDistinct(old(Snapshot(mat)), r0, c0) ==> BoxDistinct(Snapshot(mat), r0, c0)
        invariant forall y :: c0 <= y < c0 + dc ==> mat[row, y] != 0
        invariant forall k :: 0 <= k < |rest| ==> 1 <= rest[k] <= N
      {
        if mat[row, c0 + dc] == 0 {
          ghost var g := Snapshot(mat);
          var placed;
          placed, rest := FillCell(r0, c0, row, c0 + dc, rest);
          if !placed {
            return false, rest;
          }
          if BoxDistinct(g, r0, c0) {
            PlaceKeepsBoxDistinct(g, Snapshot(mat), r0, c0, row, c0 + dc, mat[row, c0 + dc]);
          }
        }
      }
      return true, rest;
    }

    /**
     * fillBox(r0, c0): fills the empty cells of the box with top-left corner
     * (r0, c0) in row-major order, each with the first value of a shuffled
     * 1..9 list that no other cell of the box holds, and drops that value
     * from the list. Fails when a cell finds no such value.
     */
    method FillBox(r0: int, c0: int) returns (ok: bool)
      requires Valid() && 0 <= r0 <= N - SQRT_N && 0 <= c0 <= N - SQRT_N
      modifies mat
      ensures forall i, j :: InBounds(i, j) ==> FillKeeps(old(mat[i, j]), mat[i, j], InBox(r0, c0, i, j))
      ensures BoxDistinct(old(Snapshot(mat)), r0, c0) ==> BoxDistinct(Snapshot(mat), r0, c0)
      ensures ok ==> forall i, j :: InBox(r0, c0, i, j) ==> mat[i, j] != 0
    {
      var a := new int[N](k => k + 1);
      assert a[..] == Digits();
      ShuffleArray(a);
      var digits := a[..];
      ShuffledDigits(digits);
      for dr := 0 to SQRT_N
        invariant forall x, y :: InBounds(x, y) ==> FillKeeps(old(mat[x, y]), mat[x, y], InBox(r0, c0, x, y))
        invariant BoxDistinct(old(Snapshot(mat)), r0, c0) ==> BoxDistinct(Snapshot(mat), r0, c0)
        invariant forall x, y :: InBox(r0, c0, x, y) && x < r0 + dr ==> mat[x, y] != 0
        invariant forall k :: 0 <= k < |digits| ==> 1 <= digits[k] <= N
      {
        var rowOk;
        rowOk, digits := FillBoxRow(r0, c0, r0 + dr, digits);
        if !rowOk {
          return false;
        }
      }
      return true;
    }
  
    /**
     * fillDiagonal: fills the boxes at (0, 0), (3, 3) and (6, 6), stopping
     * at the first that fails. On an empty board the result is consistent
     * whether or not it succeeded.
     */
    method FillDiagonal() returns (ok: bool)
      requires Valid()
      modifies mat
      ensures forall i, j :: InBounds(i, j) ==> FillKeeps(old(mat[i, j]), mat[i, j], OnDiagonalBox(i, j))
      ensures AllZero(old(Snapshot(mat))) ==> Consistent(Snapshot(mat)) && InRange(Snapshot(mat))
      ensures ok ==> forall i, j :: OnDiagonalBox(i, j) ==> mat[i, j] != 0
    {
      ghost var empty := AllZero(Snapshot(mat));
      var d := 0;
      while d < N
        invariant 0 <= d <= N && d % SQRT_N == 0
        invariant forall i, j :: InBounds(i, j) ==> FillKeeps(old(mat[i, j]), mat[i, j], OnDiagonalBox(i, j) && i < d)
        invariant empty ==> DiagonalSoFar(Snapshot(mat), d)
        invariant forall i, j :: OnDiagonalBox(i, j) && i < d ==> mat[i, j] != 0
      {
        ghost var g := Snapshot(mat);
        var boxOk := FillBox(d, d);
        if empty {
          ghost var h := Snapshot(mat);
          assert forall i, j :: InBounds(i, j) ==> FillKeeps(g[i][j], h[i][j], InBox(d, d, i, j));
          DiagonalStep(g, h, d);
        }
        if !boxOk {
          if empty {
            DiagonalConsistent(Snapshot(mat), d + SQRT_N);
          }
          return false;
        }
        d := d + SQRT_N;
      }
      if empty {
        DiagonalConsistent(Snapshot(mat), d);
      }
      return true;
    }
  
    /**
     * fillRemaining(r, c): the backtracking search. From cell (r, c) on, in
     * row-major order (c == N stands for the start of row r + 1), it skips
     * cells that hold a value and tries the digits of a shuffled 1..9 list in
     * an empty one, keeping the first that checkIfSafe accepts and for which
     * the rest of the search succeeds, and emptying the cell again otherwise.
     * Each call moves the cursor one cell forward, so the search ends.
     */
    method FillRemaining(r0: int, c0: int) returns (ok: bool)
      requires Valid() && 0 <= r0 < N && 0 <= c0 <= N
      modifies mat
      decreases N * N - Pos(r0, c0), 1
      ensures forall i, j :: InBounds(i, j) ==> FillKeeps(old(mat[i, j]), mat[i, j], !Before(i, j, r0, c0))
      ensures ok ==> forall i, j :: InBounds(i, j) && !Before(i, j, r0, c0) ==> mat[i, j] != 0
      ensures !ok ==> unchanged(mat)
      ensures Consistent(old(Snapshot(mat))) ==> Consistent(Snapshot(mat))
    {
      var r, c := r0, c0;
      if c == N {
        r, c := r + 1, 0;
      }
      if r == N {
        return true;
      }
      if mat[r, c] != 0 {
        ok := FillRemaining(r, c + 1);
        return;
      }
      var digits := new int[N](k => k + 1);
      assert digits[..] == Digits();
      ShuffleArray(digits);
      ShuffledDigits(digits[..]);
      assert forall k :: 0 <= k < digits.Length ==> digits[k] == digits[..][k];
      for i := 0 to digits.Length
        invariant unchanged(mat)
        invariant forall k :: 0 <= k < digits.Length ==> 1 <= digits[k] <= N
      {
        var v := digits[i];
        var safe := CheckIfSafe(r, c, v);
        if safe {
          ok := TryDigit(r, c, v);
          if ok {
            return;
          }
        }
      }
      return false;
    }

    /**
     * One try of fillRemaining at the empty cell (r, c): write v, run the
     * search from the next cell, and empty (r, c) again when it fails.
     */
    method TryDigit(r: int, c: int, v: int) returns (ok: bool)
      requires Valid() && InBounds(r, c) && mat[r, c] == 0 && 1 <= v <= N
      requires Fits(Snapshot(mat), r, c, v)
      modifies mat
      decreases N * N - Pos(r, c), 0
      ensures forall i, j :: InBounds(i, j) ==> FillKeeps(old(mat[i, j]), mat[i, j], !Before(i, j, r, c))
      ensures ok ==> forall i, j :: InBounds(i, j) && !Before(i, j, r, c) ==> mat[i, j] != 0
      ensures !ok ==> unchanged(mat)
      ensures Consistent(old(Snapshot(mat))) ==> Consistent(Snapshot(mat))
    {
      ghost var g := Snapshot(mat);
      mat[r, c] := v;
      if Consistent(g) {
        PlaceKeepsConsistent(g, Snapshot(mat), r, c, v);
      }
      ok := FillRemaining(r, c + 1);
      if ok {
        forall i, j | InBounds(i, j)
          ensures FillKeeps(old(mat[i, j]), mat[i, j], !Before(i, j, r, c))
        {
          if i == r && j == c {
            assert Before(i, j, r, c + 1);
          } else {
            assert g[i][j] == old(mat[i, j]);
          }
        }
        return;
      }
      mat[r, c] := 0;
    }
  
    /**
     * fillValues: fills the diagonal boxes, then the rest of the board; when
     * both succeed and the last cell holds a value, records a copy of the
     * board as the solution. Started from an empty board, what it records
     * is a solved Sudoku.
     */
    method FillValues() returns (ok: bool)
      requires Valid()
      modifies this, mat
      ensures Valid() && mat == old(mat)
      ensures ok ==> solution == Some(Snapshot(mat)) && Full(Snapshot(mat))
      ensures ok && AllZero(old(Snapshot(mat))) ==> Solved(Snapshot(mat))
      ensures !ok ==> solution == old(solution)
    {
      ghost var g0 := Snapshot(mat);
      var diagonal := FillDiagonal();
      if !diagonal {
        return false;
      }
      ghost var g1 := Snapshot(mat);
      var remaining := FillRemaining(0, 0);
      if !remaining {
        return false;
      }
      ghost var g2 := Snapshot(mat);
      if AllZero(g0) {
        assert InRange(g2) by {
          assert InRange(g1);
          assert forall i, j :: InBounds(i, j) ==> FillKeeps(g1[i][j], g2[i][j], true);
        }
      }
      if mat[N - 1, N - 1] != 0 {
        solution := Some(Snapshot(mat));
        return true;
      }
      return false;
    }
  
    /**
     * isSafeForPuzzleGen(b, r, c, v): v occurs in neither row r, column c,
     * nor the box of (r, c) of the board b.
     */
    method IsSafeForPuzzleGen(b: Grid, r: int, c: int, v: int) returns (ok: bool)
      requires IsGrid(b) && InBounds(r, c)
      ensures ok <==> Fits(b, r, c, v)
    {
      var line := b[r];
      for k := 0 to N
        invariant forall j :: 0 <= j < k ==> line[j] != v
      {
        if line[k] == v {
          return false;
        }
      }
      for k := 0 to N
        invariant forall i :: 0 <= i < k ==> b[i][c] != v
      {
        if b[k][c] == v {
          return false;
        }
      }
      var boxRow, boxCol := r - r % SQRT_N, c - c % SQRT_N;
      for dr := 0 to SQRT_N
        invariant forall i, j :: boxRow <= i < boxRow + dr && boxCol <= j < boxCol + SQRT_N ==> b[i][j] != v
      {
        var boxLine := b[boxRow + dr];
        for dc := 0 to SQRT_N
          invariant forall j :: boxCol <= j < boxCol + dc ==> boxLine[j] != v
        {
          if boxLine[boxCol + dc] == v {
            return false;
          }
        }
      }
      return true;
    }

    /**
     * The count removeKDigits makes at an emptied cell: how many of 1..N
     * isSafeForPuzzleGen accepts there. At most one exactly when at most one
     * digit fits.
     */
    method CountLegal(b: Grid, r: int, c: int) returns (n: int)
      requires IsGrid(b) && InBounds(r, c)
      ensures n == |Candidates(b, r, c, N)|
      ensures n <= 1 <==> AtMostOneFits(b, r, c)
    {
      n := 0;
      for v := 1 to N + 1
        invariant n == |Candidates(b, r, c, v - 1)|
      {
        var safe := IsSafeForPuzzleGen(b, r, c, v);
        if safe {
          n := n + 1;
        }
      }
      CandidatesAtMostOne(b, r, c);
    }

    /**
     * One draw of removeKDigits at cell (r, c): a cell holding a value is
     * emptied, and the removal is undone unless at most one digit then fits
     * there. An empty cell is left as it is.
     */
    method TryRemove(r: int, c: int) returns (removed: bool)
      requires Valid() && InBounds(r, c)
      modifies mat
      ensures removed <==> old(mat[r, c]) != 0 && AtMostOneFits(Put(old(Snapshot(mat)), r, c, 0), r, c)
      ensures removed ==> Snapshot(mat) == Put(old(Snapshot(mat)), r, c, 0)
      ensures !removed ==> unchanged(mat)
    {
      ghost var before := Snapshot(mat);
      if mat[r, c] != 0 {
        var v := mat[r, c];
        mat[r, c] := 0;
        var emptied := Snapshot(mat);
        SameCells(emptied, Put(before, r, c, 0));
        var count := CountLegal(emptied, r, c);
        if count > 1 {
          mat[r, c] := v;
          return false;
        }
        return true;
      }
      return false;
    }

    /** The first cell in row-major order that holds a value, if any. */
    method FirstClue() returns (p: Option<(int, int)>)
      requires Valid()
      ensures p.Some? ==> IsFirstClue(Snapshot(mat), p.value.0, p.value.1)
      ensures p.None? ==> AllZero(Snapshot(mat))
    {
      for r := 0 to N
        invariant forall i, j :: 0 <= i < r && 0 <= j < N ==> mat[i, j] == 0
      {
        for c := 0 to N
          invariant forall i, j :: InBounds(i, j) && Before(i, j, r, c) ==> mat[i, j] == 0
        {
          if mat[r, c] != 0 {
            return Some((r, c));
          }
        }
      }
      return None;
    }

    /**
     * The final step of removeKDigits as written: when (0, 0) is empty, the
     * first clue in row-major order is moved there. Which cell was moved is
     * returned.
     */
    method MoveFirstClue() returns (moved: Option<(int, int)>)
      requires Valid()
      modifies mat
      ensures moved.None? ==> unchanged(mat) && (old(mat[0, 0]) != 0 || AllZero(old(Snapshot(mat))))
      ensures moved.Some? ==> old(mat[0, 0]) == 0 && IsFirstClue(old(Snapshot(mat)), moved.value.0, moved.value.1)
      ensures moved.Some? ==> Snapshot(mat) == MovedToTopLeft(old(Snapshot(mat)), moved.value.0, moved.value.1)
    {
      ghost var before := Snapshot(mat);
      if mat[0, 0] != 0 {
        return None;
      }
      moved := FirstClue();
      if moved.Some? {
        var (r, c) := moved.value;
        mat[0, 0] := mat[r, c];
        mat[r, c] := 0;
        SameCells(Snapshot(mat), MovedToTopLeft(before, r, c));
      }
    }

    /**
     * The corrected final step: when (0, 0) is empty, it gets the solution's
     * value back and the first clue in row-major order is emptied instead, so
     * the clue count is the same and every clue agrees with the solution.
     */
    method RestoreTopLeft(sol: Grid) returns (moved: Option<(int, int)>)
      requires Valid() && IsGrid(sol)
      modifies mat
      ensures moved.None? ==> unchanged(mat) && (old(mat[0, 0]) != 0 || AllZero(old(Snapshot(mat))))
      ensures moved.Some? ==> old(mat[0, 0]) == 0 && IsFirstClue(old(Snapshot(mat)), moved.value.0, moved.value.1)
      ensures moved.Some? ==> Snapshot(mat) == RestoredTopLeft(old(Snapshot(mat)), sol, moved.value.0, moved.value.1)
    {
      ghost var before := Snapshot(mat);
      if mat[0, 0] != 0 {
        return None;
      }
      moved := FirstClue();
      if moved.Some? {
        var (r, c) := moved.value;
        mat[0, 0] := sol[0][0];
        mat[r, c] := 0;
        SameCells(Snapshot(mat), RestoredTopLeft(before, sol, r, c));
      }
    }
  
    /**
     * The draw loop of removeKDigits on the copy of the solution: while
     * removals are still owed and fewer than 3 * N * N draws were made, draw
     * a cell at random and try to empty it. Returns the removals still owed
     * and the number of draws.
     */
    method DrawRemovals(k: int, sol: Grid) returns (remaining: int, draws: int)
      requires Valid() && IsGrid(sol) && Agrees(Snapshot(mat), sol)
      requires |EmptyCells(Snapshot(mat))| == |EmptyCells(sol)|
      modifies mat
      ensures 0 <= draws <= 3 * N * N
      ensures remaining <= k && (remaining < k ==> 0 <= remaining)
      ensures remaining > 0 ==> draws == 3 * N * N
      ensures Agrees(Snapshot(mat), sol)
      ensures |EmptyCells(Snapshot(mat))| == |EmptyCells(sol)| + (k - remaining)
    {
      remaining, draws := k, 0;
      var limit := N * N * 3;
      while remaining > 0 && draws < limit
        invariant 0 <= draws <= limit && remaining <= k && (remaining < k ==> 0 <= remaining)
        invariant Agrees(Snapshot(mat), sol)
        invariant |EmptyCells(Snapshot(mat))| == |EmptyCells(sol)| + (k - remaining)
        decreases limit - draws
      {
        draws := draws + 1;
        var drawn := RandomGenerator(N * N);
        var cell := drawn - 1;
        var r, c := cell / N, cell % N;
        ghost var g := Snapshot(mat);
        var removed := TryRemove(r, c);
        if removed {
          ClearAddsEmpty(g, r, c);
          remaining := remaining - 1;
        }
      }
    }

    /**
     * removeKDigits(k): without a solution it does nothing. Otherwise the
     * board becomes a fresh copy of the solution, the draw loop tries to
     * empty k cells (`remaining` is the number still owed at the end and
     * `draws` the number of draws made), and finally, as written, an empty
     * (0, 0) receives the value of the first clue, which is emptied
     * (MoveFirstClue). Every clue but (0, 0) then agrees with the solution.
     */
    method RemoveKDigits(k: int) returns (ghost remaining: int, ghost draws: int, ghost carved: Grid)
      requires Valid()
      modifies this
      ensures Valid() && solution == old(solution)
      ensures old(solution).None? ==> mat == old(mat) && remaining == k && draws == 0
      ensures old(solution).Some? ==> fresh(mat)
      ensures 0 <= draws <= 3 * N * N
      ensures remaining <= k && (remaining < k ==> 0 <= remaining)
      ensures remaining > 0 && old(solution).Some? ==> draws == 3 * N * N
      ensures solution.Some? ==> IsGrid(carved) && Agrees(carved, solution.value)
      ensures solution.Some? && Full(solution.value) ==> |EmptyCells(carved)| == k - remaining
      ensures solution.Some? && (carved[0][0] != 0 || AllZero(carved)) ==> Snapshot(mat) == carved
      ensures solution.Some? && carved[0][0] == 0 && !AllZero(carved) ==>
        exists r, c :: IsFirstClue(carved, r, c) && (r, c) != (0, 0) && Snapshot(mat) == MovedToTopLeft(carved, r, c)
      ensures solution.Some? ==> AgreesExceptTopLeft(Snapshot(mat), solution.value)
      ensures solution.Some? && Full(solution.value) ==> |EmptyCells(Snapshot(mat))| == k - remaining
    {
      remaining, draws, carved := k, 0, [];
      if solution.None? {
        return;
      }
      var sol := solution.value;
      mat := new int[N, N]((x, y) requires 0 <= x < N && 0 <= y < N => sol[x][y]);
      SameCells(Snapshot(mat), sol);
      var left, drawn := DrawRemovals(k, sol);
      remaining, draws := left, drawn;
      carved := Snapshot(mat);
      var moved := MoveFirstClue();
      if moved.Some? {
        MovedAgreesElsewhere(carved, sol, moved.value.0, moved.value.1);
        MovedKeepsEmptyCount(carved, moved.value.0, moved.value.1);
      }
      if Full(sol) {
        assert EmptyCells(sol) == {};
      }
    }

    /**
     * removeKDigits with the corrected top-left step (RestoreTopLeft): an
     * empty (0, 0) gets its own solution value back and the first clue is
     * emptied, so the puzzle agrees with the solution everywhere.
     */
    method RemoveKDigitsCorrected(k: int) returns (ghost remaining: int, ghost draws: int)
      requires Valid()
      modifies this
      ensures Valid() && solution == old(solution)
      ensures old(solution).None? ==> mat == old(mat) && remaining == k && draws == 0
      ensures old(solution).Some? ==> fresh(mat)
      ensures 0 <= draws <= 3 * N * N
      ensures remaining <= k && (remaining < k ==> 0 <= remaining)
      ensures remaining > 0 && old(solution).Some? ==> draws == 3 * N * N
      ensures solution.Some? ==> Agrees(Snapshot(mat), solution.value)
      ensures solution.Some? && Full(solution.value) ==> |EmptyCells(Snapshot(mat))| == k - remaining
    {
      remaining, draws := k, 0;
      if solution.None? {
        return;
      }
      var sol := solution.value;
      mat := new int[N, N]((x, y) requires 0 <= x < N && 0 <= y < N => sol[x][y]);
      SameCells(Snapshot(mat), sol);
      var left, drawn := DrawRemovals(k, sol);
      remaining, draws := left, drawn;
      ghost var carved := Snapshot(mat);
      var moved := RestoreTopLeft(sol);
      if moved.Some? {
        RestoredAgrees(carved, sol, moved.value.0, moved.value.1);
      }
      if Full(sol) {
        assert EmptyCells(sol) == {};
      }
    }

    /**
     * The first part of generate: clears the board and the solution, then
     * runs fillValues on an emptied board up to MAX_ATTEMPTS times until one
     * succeeds.
     */
    method FillAttempts() returns (ok: bool, ghost attempts: int)
      requires Valid()
      modifies this
      ensures Valid()
      ensures 1 <= attempts <= MAX_ATTEMPTS
      ensures !ok ==> attempts == MAX_ATTEMPTS && solution.None?
      ensures ok ==> solution.Some? && Solved(solution.value)
    {
      mat := new int[N, N]((i, j) => 0);
      solution := None;
      ok := false;
      var tries := 0;
      while !ok && tries < MAX_ATTEMPTS
        invariant Valid() && 0 <= tries <= MAX_ATTEMPTS
        invariant !ok ==> solution.None?
        invariant ok ==> 1 <= tries && solution.Some? && Solved(solution.value)
        decreases MAX_ATTEMPTS - tries
      {
        tries := tries + 1;
        mat := new int[N, N]((i, j) => 0);
        ok := FillValues();
      }
      attempts := tries;
    }

    /**
     * generate(difficulty): returns None when no attempt to fill a grid
     * succeeded, and otherwise carves N * N - KeepCount(difficulty) cells out
     * of the solution with removeKDigits as written and returns the puzzle
     * with it. Its clues agree with the solution except possibly at (0, 0);
     * Carving.MovedClashes shows that (0, 0) can clash with a given.
     */
    method Generate(difficulty: string) returns (result: Option<Generated>, ghost attempts: int, ghost requested: int, ghost remaining: int, ghost carved: Grid)
      requires Valid()
      modifies this
      ensures Valid()
      ensures 1 <= attempts <= MAX_ATTEMPTS
      ensures result.None? ==> attempts == MAX_ATTEMPTS && solution.None?
      ensures result.Some? ==> solution == Some(result.value.solution) && result.value.puzzle == Snapshot(mat)
      ensures result.Some? ==> Solved(result.value.solution)
      ensures result.Some? ==> requested == N * N - KeepCount(difficulty) && 0 <= remaining <= requested
      ensures result.Some? ==> AgreesExceptTopLeft(result.value.puzzle, result.value.solution)
      ensures result.Some? ==> |EmptyCells(result.value.puzzle)| == requested - remaining
      ensures result.Some? ==> IsGrid(carved) && Agrees(carved, result.value.solution)
      ensures result.Some? ==> |EmptyCells(carved)| == requested - remaining
      ensures result.Some? && (carved[0][0] != 0 || AllZero(carved)) ==> result.value.puzzle == carved
      ensures result.Some? && carved[0][0] == 0 && !AllZero(carved) ==>
        exists r, c :: IsFirstClue(carved, r, c) && (r, c) != (0, 0) && result.value.puzzle == MovedToTopLeft(carved, r, c)
    {
      var filled;
      filled, attempts := FillAttempts();
      requested, remaining, carved := 0, 0, [];
      if !filled || solution.None? {
        return None, attempts, requested, remaining, carved;
      }
      var count := N * N - KeepCount(difficulty);
      requested := count;
      ghost var draws;
      remaining, draws, carved := RemoveKDigits(count);
      result := Some(Generated(Snapshot(mat), solution.value));
    }

    /**
     * generate with the corrected carving: the puzzle agrees with the
     * solution everywhere and is therefore consistent.
     */
    method GenerateCorrected(difficulty: string) returns (result: Option<Generated>, ghost attempts: int, ghost requested: int, ghost remaining: int)
      requires Valid()
      modifies this
      ensures Valid()
      ensures 1 <= attempts <= MAX_ATTEMPTS
      ensures result.None? ==> attempts == MAX_ATTEMPTS && solution.None?
      ensures result.Some? ==> solution == Some(result.value.solution) && result.value.puzzle == Snapshot(mat)
      ensures result.Some? ==> Solved(result.value.solution)
      ensures result.Some? ==> requested == N * N - KeepCount(difficulty) && 0 <= remaining <= requested
      ensures result.Some? ==> Agrees(result.value.puzzle, result.value.solution) && Consistent(result.value.puzzle)
      ensures result.Some? ==> |EmptyCells(result.value.puzzle)| == requested - remaining
    {
      var filled;
      filled, attempts := FillAttempts();
      requested, remaining := 0, 0;
      if !filled || solution.None? {
        return None, attempts, requested, remaining;
      }
      var count := N * N - KeepCount(difficulty);
      requested := count;
      ghost var draws;
      remaining, draws := RemoveKDigitsCorrected(count);
      var sol := solution.value;
      var puzzle := Snapshot(mat);
      AgreeingIsConsistent(puzzle, sol);
      result := Some(Generated(puzzle, sol));
    }
  }
}
