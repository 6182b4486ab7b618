/**
 * Facts the carving of removeKDigits relies on: how emptying cells changes
 * the set of empty cells, why a kept removal is forced, and what the final
 * top-left move does to a puzzle, as written and corrected.
 */
module Carving {
  import opened Board

  /** Emptying a cell that held a value adds exactly that cell to the empty cells. */
  lemma ClearAddsEmpty(g: Grid, r: int, c: int)
    requires IsGrid(g) && InBounds(r, c) && g[r][c] != 0
    ensures EmptyCells(Put(g, r, c, 0)) == EmptyCells(g) + {(r, c)}
    ensures |EmptyCells(Put(g, r, c, 0))| == |EmptyCells(g)| + 1
  {
    var h := Put(g, r, c, 0);
    forall p | p in EmptyCells(h)
      ensures p in EmptyCells(g) + {(r, c)}
    {
      var (i, j) := p;
      if p != (r, c) {
        assert g[i][j] == h[i][j];
      }
    }
    forall p | p in EmptyCells(g) + {(r, c)}
      ensures p in EmptyCells(h)
    {
      var (i, j) := p;
      assert h[i][j] == 0;
    }
    assert (r, c) !in EmptyCells(g);
  }

  /**
   * Two boards that differ only in that cell a is empty in g but not in h
   * and cell b the other way round have the same number of empty cells.
   */
  lemma SwapKeepsEmptyCount(g: Grid, h: Grid, a: (int, int), b: (int, int))
    requires IsGrid(g) && IsGrid(h) && InBounds(a.0, a.1) && InBounds(b.0, b.1)
    requires g[a.0][a.1] == 0 && h[a.0][a.1] != 0 && g[b.0][b.1] != 0 && h[b.0][b.1] == 0
    requires forall i, j :: InBounds(i, j) && (i, j) != a && (i, j) != b ==> h[i][j] == g[i][j]
    ensures |EmptyCells(h)| == |EmptyCells(g)|
  {
    var common := EmptyCells(g) - {a};
    assert EmptyCells(g) == common + {a};
    forall p | p in EmptyCells(h)
      ensures p in common + {b}
    {
      var (i, j) := p;
      if p != b {
        assert g[i][j] == h[i][j];
      }
    }
    forall p | p in common + {b}
      ensures p in EmptyCells(h)
    {
      var (i, j) := p;
      assert h[i][j] == 0;
    }
    assert EmptyCells(h) == common + {b};
  }

  /**
   * The value a consistent solution holds at a cell the puzzle has emptied
   * still fits there, as long as every clue of the puzzle agrees with the
   * solution: so the count removeKDigits makes is never 0 there.
   */
  lemma RemovedValueFits(p: Grid, s: Grid, r: int, c: int)
    requires IsGrid(p) && IsGrid(s) && InBounds(r, c)
    requires Consistent(s) && Agrees(p, s) && p[r][c] == 0 && s[r][c] != 0
    ensures Fits(p, r, c, s[r][c])
  {
    var v := s[r][c];
    assert ConflictFree(s, r, c, v);
    forall r2, c2 | InBounds(r2, c2) && Peers(r, c, r2, c2)
      ensures p[r2][c2] != v
    {
    }
    FitsIffConflictFree(p, r, c, v);
  }

  /**
   * Hence removeKDigits keeps a removal (at most one digit fits) exactly when
   * the removed digit is the only one that fits: each carved cell is forced.
   */
  lemma RemovalKeptIffForced(p: Grid, s: Grid, r: int, c: int)
    requires IsGrid(p) && IsGrid(s) && InBounds(r, c)
    requires Consistent(s) && Agrees(p, s) && p[r][c] == 0 && 1 <= s[r][c] <= N
    ensures AtMostOneFits(p, r, c) <==> SoleFit(p, r, c, s[r][c])
  {
    RemovedValueFits(p, s, r, c);
  }

  /** (t, e) is the first cell in row-major order that holds a value. */
  ghost predicate IsFirstClue(g: Grid, t: int, e: int)
    requires IsGrid(g)
  {
    InBounds(t, e) && g[t][e] != 0 && forall i, j :: InBounds(i, j) && Before(i, j, t, e) ==> g[i][j] == 0
  }

  /**
   * The top-left move of removeKDigits as written: the value of (t, e) goes
   * to (0, 0) and (t, e) is emptied.
   */
  ghost function MovedToTopLeft(g: Grid, t: int, e: int): (h: Grid)
    requires IsGrid(g) && InBounds(t, e) && (t, e) != (0, 0)
    ensures IsGrid(h)
    ensures h[0][0] == g[t][e] && h[t][e] == 0
    ensures forall i, j :: InBounds(i, j) && (i, j) != (0, 0) && (i, j) != (t, e) ==> h[i][j] == g[i][j]
  {
    var cleared := Put(g, t, e, 0);
    cleared[0 := cleared[0][0 := g[t][e]]]
  }

  /**
   * The corrected top-left move: (0, 0) gets the solution's own value and
   * (t, e) is emptied, so the number of clues stays the same and every clue
   * still agrees with the solution.
   */
  ghost function RestoredTopLeft(g: Grid, s: Grid, t: int, e: int): (h: Grid)
    requires IsGrid(g) && IsGrid(s) && InBounds(t, e) && (t, e) != (0, 0)
    ensures IsGrid(h)
    ensures h[0][0] == s[0][0] && h[t][e] == 0
    ensures forall i, j :: InBounds(i, j) && (i, j) != (0, 0) && (i, j) != (t, e) ==> h[i][j] == g[i][j]
  {
    var cleared := Put(g, t, e, 0);
    cleared[0 := cleared[0][0 := s[0][0]]]
  }

  /** The move as written keeps the number of empty cells. */
  lemma MovedKeepsEmptyCount(g: Grid, t: int, e: int)
    requires IsGrid(g) && g[0][0] == 0 && IsFirstClue(g, t, e)
    ensures |EmptyCells(MovedToTopLeft(g, t, e))| == |EmptyCells(g)|
  {
    SwapKeepsEmptyCount(g, MovedToTopLeft(g, t, e), (0, 0), (t, e));
  }

  /**
   * The move as written breaks the puzzle's agreement with its solution
   * whenever the first clue lies in row 0: (0, 0) then holds the digit of
   * another cell of its row, which a solved grid never repeats.
   */
  lemma MovedDisagrees(g: Grid, s: Grid, e: int)
    requires IsGrid(g) && Solved(s) && Agrees(g, s) && g[0][0] == 0 && IsFirstClue(g, 0, e)
    ensures MovedToTopLeft(g, 0, e)[0][0] != s[0][0]
    ensures !Agrees(MovedToTopLeft(g, 0, e), s)
  {
    assert ConflictFree(s, 0, e, s[0][e]);
    assert Peers(0, e, 0, 0);
  }

  /**
   * What the move as written does keep: every clue other than (0, 0) agrees
   * with the solution, and (0, 0) holds the solution's value of the moved
   * cell, not its own.
   */
  lemma MovedAgreesElsewhere(g: Grid, s: Grid, t: int, e: int)
    requires IsGrid(g) && IsGrid(s) && Agrees(g, s) && g[0][0] == 0 && IsFirstClue(g, t, e)
    ensures AgreesExceptTopLeft(MovedToTopLeft(g, t, e), s)
    ensures MovedToTopLeft(g, t, e)[0][0] == s[t][e]
  {
  }

  /**
   * Worse, the move as written can make the puzzle inconsistent: when the
   * first clue (0, e) holds the digit that the solution has at (i, 0) and
   * (i, 0) is still a clue, (0, 0) and (i, 0) then hold the same digit in
   * column 0. Both are givens the player cannot change, so no completion
   * of that puzzle is a valid board.
   */
  lemma MovedClashes(g: Grid, s: Grid, e: int, i: int)
    requires IsGrid(g) && Solved(s) && Agrees(g, s) && g[0][0] == 0 && IsFirstClue(g, 0, e)
    requires 1 <= i < N && g[i][0] != 0 && s[i][0] == s[0][e]
    ensures !Consistent(MovedToTopLeft(g, 0, e))
  {
    var h := MovedToTopLeft(g, 0, e);
    assert h[0][0] == h[i][0] != 0;
    assert Peers(0, 0, i, 0);
  }

  /**
   * The corrected move keeps the agreement with the solution and, when the
   * solution has a value at (0, 0), the number of empty cells.
   */
  lemma RestoredAgrees(g: Grid, s: Grid, t: int, e: int)
    requires IsGrid(g) && IsGrid(s) && Agrees(g, s) && g[0][0] == 0 && IsFirstClue(g, t, e)
    ensures Agrees(RestoredTopLeft(g, s, t, e), s)
    ensures s[0][0] != 0 ==> |EmptyCells(RestoredTopLeft(g, s, t, e))| == |EmptyCells(g)|
  {
    if s[0][0] != 0 {
      SwapKeepsEmptyCount(g, RestoredTopLeft(g, s, t, e), (0, 0), (t, e));
    }
  }
}
