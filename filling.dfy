/**
 * Facts the filling steps of the generator rely on: the digits 1..9 as a
 * shuffled list, what fillBox may write, a box free of repeated values, and
 * why three such boxes on the main diagonal make a consistent board.
 */
module Filling {
  import opened Board

  /** The list fillBox and fillRemaining shuffle: 1, 2, ..., 9. */
  function Digits(): (ds: seq<int>)
    ensures |ds| == N && forall i :: 0 <= i < N ==> ds[i] == i + 1
  {
    seq(N, i => i + 1)
  }

  /** Any rearrangement of Digits() holds only digits 1..9. */
  lemma ShuffledDigits(s: seq<int>)
    requires multiset(s) == multiset(Digits())
    ensures forall i :: 0 <= i < |s| ==> 1 <= s[i] <= N
  {
    forall i | 0 <= i < |s|
      ensures 1 <= s[i] <= N
    {
      assert s[i] in multiset(Digits());
    }
  }

  /**
   * What a filling step may do to one cell, from value `before` to `after`:
   * where it may write (`writable`), an empty cell stays empty or gets a
   * digit and a cell holding a value keeps it; elsewhere nothing changes.
   */
  predicate FillKeeps(before: int, after: int, writable: bool)
  {
    if writable && before == 0 then 0 <= after <= N else after == before
  }

  /** (i, j) lies in the box whose top-left corner is (r0, c0). */
  predicate InBox(r0: int, c0: int, i: int, j: int)
  {
    r0 <= i < r0 + SQRT_N && c0 <= j < c0 + SQRT_N
  }

  /** Cells (i1, j1) and (i2, j2) hold the same non-zero value. */
  ghost predicate Repeats(g: Grid, i1: int, j1: int, i2: int, j2: int)
    requires IsGrid(g) && InBounds(i1, j1) && InBounds(i2, j2)
  {
    g[i1][j1] != 0 && g[i1][j1] == g[i2][j2]
  }

  /** No two cells of the box with top-left corner (r0, c0) hold the same non-zero value. */
  ghost predicate BoxDistinct(g: Grid, r0: int, c0: int)
    requires IsGrid(g) && 0 <= r0 <= N - SQRT_N && 0 <= c0 <= N - SQRT_N
  {
    forall i1, j1, i2, j2 :: InBox(r0, c0, i1, j1) && InBox(r0, c0, i2, j2) && (i1 != i2 || j1 != j2) ==>
      !Repeats(g, i1, j1, i2, j2)
  }

  /**
   * Writing into (r, c) a value that no other cell of the box holds keeps the
   * box free of repeats: the step of fillBox after unUsedInBoxStrict.
   */
  lemma PlaceKeepsBoxDistinct(g: Grid, h: Grid, r0: int, c0: int, r: int, c: int, v: int)
    requires IsGrid(g) && IsGrid(h) && 0 <= r0 <= N - SQRT_N && 0 <= c0 <= N - SQRT_N && InBounds(r, c)
    requires BoxDistinct(g, r0, c0) && !BoxHasElsewhere(g, r0, c0, r, c, v)
    requires h[r][c] == v
    requires forall i, j :: InBounds(i, j) && (i != r || j != c) ==> h[i][j] == g[i][j]
    ensures BoxDistinct(h, r0, c0)
  {
    forall i1, j1, i2, j2 | InBox(r0, c0, i1, j1) && InBox(r0, c0, i2, j2) && (i1 != i2 || j1 != j2)
      ensures !Repeats(h, i1, j1, i2, j2)
    {
      if i1 == r && j1 == c {
        assert h[i2][j2] == g[i2][j2];
      } else if i2 == r && j2 == c {
        assert h[i1][j1] == g[i1][j1];
      } else {
        assert !Repeats(g, i1, j1, i2, j2);
      }
    }
  }

  /** A box whose cells are all empty has no repeated value. */
  lemma EmptyBoxDistinct(g: Grid, r0: int, c0: int)
    requires IsGrid(g) && 0 <= r0 <= N - SQRT_N && 0 <= c0 <= N - SQRT_N
    requires forall i, j :: InBox(r0, c0, i, j) ==> g[i][j] == 0
    ensures BoxDistinct(g, r0, c0)
  {
    forall i1, j1, i2, j2 | InBox(r0, c0, i1, j1) && InBox(r0, c0, i2, j2) && (i1 != i2 || j1 != j2)
      ensures !Repeats(g, i1, j1, i2, j2)
    {
    }
  }

  /** A box whose cells did not change keeps having no repeated value. */
  lemma BoxDistinctFrame(g: Grid, h: Grid, r0: int, c0: int)
    requires IsGrid(g) && IsGrid(h) && 0 <= r0 <= N - SQRT_N && 0 <= c0 <= N - SQRT_N
    requires BoxDistinct(g, r0, c0)
    requires forall i, j :: InBox(r0, c0, i, j) ==> h[i][j] == g[i][j]
    ensures BoxDistinct(h, r0, c0)
  {
    forall i1, j1, i2, j2 | InBox(r0, c0, i1, j1) && InBox(r0, c0, i2, j2) && (i1 != i2 || j1 != j2)
      ensures !Repeats(h, i1, j1, i2, j2)
    {
      assert !Repeats(g, i1, j1, i2, j2);
    }
  }

  /** (i, j) lies in one of the three boxes on the main diagonal. */
  predicate OnDiagonalBox(i: int, j: int)
  {
    InBounds(i, j) && BoxStart(i) == BoxStart(j)
  }

  /**
   * The state fillDiagonal keeps from an empty board: the diagonal boxes
   * before row t hold digits or 0 and no repeated value, every other cell
   * is still empty.
   */
  ghost predicate DiagonalSoFar(g: Grid, t: int)
    requires IsGrid(g) && 0 <= t <= N
  {
    (forall i, j :: InBounds(i, j) ==> if OnDiagonalBox(i, j) && i < t then 0 <= g[i][j] <= N else g[i][j] == 0) &&
    (forall b :: 0 <= b < t && b % SQRT_N == 0 ==> BoxDistinct(g, b, b))
  }

  /**
   * Filling the diagonal box at (t, t) as fillBox does (its empty cells get a
   * digit or stay empty, nothing else changes, no repeat appears) extends
   * the diagonal fill from the boxes before row t to those before row t + 3.
   */
  lemma DiagonalStep(g: Grid, h: Grid, t: int)
    requires IsGrid(g) && IsGrid(h) && 0 <= t <= N - SQRT_N && t % SQRT_N == 0
    requires DiagonalSoFar(g, t)
    requires forall i, j :: InBounds(i, j) ==> FillKeeps(g[i][j], h[i][j], InBox(t, t, i, j))
    requires BoxDistinct(g, t, t) ==> BoxDistinct(h, t, t)
    ensures DiagonalSoFar(h, t + SQRT_N)
  {
    EmptyBoxDistinct(g, t, t);
    forall b | 0 <= b < t && b % SQRT_N == 0
      ensures BoxDistinct(h, b, b)
    {
      BoxDistinctFrame(g, h, b, b);
    }
  }

  /**
   * A board whose only values sit in the diagonal boxes, each free of
   * repeats, is consistent: two cells of different diagonal boxes share no
   * row, column or box.
   */
  lemma DiagonalConsistent(g: Grid, t: int)
    requires IsGrid(g) && 0 <= t <= N && DiagonalSoFar(g, t)
    ensures Consistent(g) && InRange(g)
  {
    forall r1, c1 | InBounds(r1, c1) && g[r1][c1] != 0
      ensures ConflictFree(g, r1, c1, g[r1][c1])
    {
      forall r2, c2 | InBounds(r2, c2) && Peers(r1, c1, r2, c2)
        ensures g[r2][c2] != g[r1][c1]
      {
        if g[r2][c2] != 0 {
          var b := BoxStart(r1);
          if BoxStart(r2) == b {
            assert b < t;
            assert BoxDistinct(g, b, b);
            assert !Repeats(g, r1, c1, r2, c2);
          }
        }
      }
    }
  }
}
