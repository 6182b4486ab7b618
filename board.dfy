/**
 * The 9x9 Sudoku board as a value, and the rules of the game stated once:
 * which values a cell may take (Fits, used by checkIfSafe, isSafeForPuzzleGen
 * and isPossible), when a placed value clashes with a peer (ConflictFree, used
 * by isValid), and when a whole board is consistent, full or solved.
 */
module Board {

  /** Side of the board and of one box (N and SQRT_N in script.js). */
  const N: int := 9
  const SQRT_N: int := 3

  /** A board: rows of cells, 0 meaning empty. */
  type Grid = seq<seq<int>>

  predicate IsGrid(g: Grid)
  {
    |g| == N && forall i :: 0 <= i < N ==> |g[i]| == N
  }

  predicate InBounds(r: int, c: int)
  {
    0 <= r < N && 0 <= c < N
  }

  /**
   * First row (or column) of the box that holds row (or column) x: the
   * `x - x % SQRT_N` of script.js, written out by cases for the rows of
   * the board.
   */
  function BoxStart(x: int): (b: int)
    ensures 0 <= x < N ==> b == x - x % SQRT_N
  {
    if x < SQRT_N then 0 else if x < 2 * SQRT_N then SQRT_N else 2 * SQRT_N
  }

  /** Row-major position of a cell, as tileElements indexes tiles. */
  function Pos(r: int, c: int): int
  {
    r * N + c
  }

  /** Cell (i, j) comes before cell (r, c) in row-major order. */
  predicate Before(i: int, j: int, r: int, c: int)
  {
    i < r || (i == r && j < c)
  }

  ghost predicate RowHas(g: Grid, r: int, v: int)
    requires IsGrid(g) && 0 <= r < N
  {
    exists j :: 0 <= j < N && g[r][j] == v
  }

  ghost predicate ColHas(g: Grid, c: int, v: int)
    requires IsGrid(g) && 0 <= c < N
  {
    exists i :: 0 <= i < N && g[i][c] == v
  }

  /** Some cell of the 3x3 box whose top-left corner is (r0, c0) holds v. */
  ghost predicate BoxHas(g: Grid, r0: int, c0: int, v: int)
    requires IsGrid(g) && 0 <= r0 <= N - SQRT_N && 0 <= c0 <= N - SQRT_N
  {
    exists i, j :: r0 <= i < r0 + SQRT_N && c0 <= j < c0 + SQRT_N && g[i][j] == v
  }

  /** Some cell of that box other than (r, c) holds v. */
  ghost predicate BoxHasElsewhere(g: Grid, r0: int, c0: int, r: int, c: int, v: int)
    requires IsGrid(g) && 0 <= r0 <= N - SQRT_N && 0 <= c0 <= N - SQRT_N
  {
    exists i, j :: r0 <= i < r0 + SQRT_N && c0 <= j < c0 + SQRT_N && (i != r || j != c) && g[i][j] == v
  }

  /** v may be written at (r, c): it occurs nowhere in the row, the column or the box of (r, c). */
  ghost predicate Fits(g: Grid, r: int, c: int, v: int)
    requires IsGrid(g) && InBounds(r, c)
  {
    !RowHas(g, r, v) && !ColHas(g, c, v) && !BoxHas(g, BoxStart(r), BoxStart(c), v)
  }

  /** Two different cells that share a row, a column or a box. */
  ghost predicate Peers(r1: int, c1: int, r2: int, c2: int)
  {
    (r1 != r2 || c1 != c2) &&
    (r1 == r2 || c1 == c2 || (BoxStart(r1) == BoxStart(r2) && BoxStart(c1) == BoxStart(c2)))
  }

  /** No peer of (r, c) holds v. */
  ghost predicate ConflictFree(g: Grid, r: int, c: int, v: int)
    requires IsGrid(g) && InBounds(r, c)
  {
    forall r2, c2 :: InBounds(r2, c2) && Peers(r, c, r2, c2) ==> g[r2][c2] != v
  }

  /** No two peers hold the same non-zero value. */
  ghost predicate Consistent(g: Grid)
    requires IsGrid(g)
  {
    forall r, c :: InBounds(r, c) && g[r][c] != 0 ==> ConflictFree(g, r, c, g[r][c])
  }

  ghost predicate Full(g: Grid)
    requires IsGrid(g)
  {
    forall r, c :: InBounds(r, c) ==> g[r][c] != 0
  }

  /** Every cell holds 0 (empty) or a digit 1..9. */
  ghost predicate InRange(g: Grid)
    requires IsGrid(g)
  {
    forall r, c :: InBounds(r, c) ==> 0 <= g[r][c] <= N
  }

  ghost predicate AllZero(g: Grid)
    requires IsGrid(g)
  {
    forall r, c :: InBounds(r, c) ==> g[r][c] == 0
  }

  /** A completed Sudoku: full, digits only, and no two peers equal. */
  ghost predicate Solved(g: Grid)
  {
    IsGrid(g) && Full(g) && InRange(g) && Consistent(g)
  }

  /** Every non-zero cell of the puzzle p holds the value the solution s has there. */
  ghost predicate Agrees(p: Grid, s: Grid)
    requires IsGrid(p) && IsGrid(s)
  {
    forall r, c :: InBounds(r, c) && p[r][c] != 0 ==> p[r][c] == s[r][c]
  }

  /** Every non-zero cell of p other than (0, 0) holds the value s has there. */
  ghost predicate AgreesExceptTopLeft(p: Grid, s: Grid)
    requires IsGrid(p) && IsGrid(s)
  {
    forall r, c :: InBounds(r, c) && (r, c) != (0, 0) && p[r][c] != 0 ==> p[r][c] == s[r][c]
  }

  /** The set of empty cells. */
  ghost function EmptyCells(g: Grid): set<(int, int)>
    requires IsGrid(g)
  {
    set r, c | 0 <= r < N && 0 <= c < N && g[r][c] == 0 :: (r, c)
  }

  /** The digits that fit at (r, c). */
  ghost function FitSet(g: Grid, r: int, c: int): set<int>
    requires IsGrid(g) && InBounds(r, c)
  {
    set v | 1 <= v <= N && Fits(g, r, c, v)
  }

  /** The members of s among 1..k, in increasing order. */
  ghost function Ascending(s: set<int>, k: int): (cs: seq<int>)
    requires 0 <= k
    ensures forall v :: v in cs <==> 1 <= v <= k && v in s
    decreases k
  {
    if k == 0 then [] else Ascending(s, k - 1) + (if k in s then [k] else [])
  }

  /**
   * The digits 1..k that fit at (r, c), in increasing order: the list
   * `possibleNumbers` that findHint builds, and the values counted by the
   * removal step of removeKDigits.
   */
  ghost function Candidates(g: Grid, r: int, c: int, k: int): seq<int>
    requires IsGrid(g) && InBounds(r, c) && 0 <= k <= N
  {
    Ascending(FitSet(g, r, c), k)
  }

  /** v is the one and only digit that fits at (r, c). */
  ghost predicate SoleFit(g: Grid, r: int, c: int, v: int)
    requires IsGrid(g) && InBounds(r, c)
  {
    1 <= v <= N && Fits(g, r, c, v) && forall w :: 1 <= w <= N && w != v ==> !Fits(g, r, c, w)
  }

  /** At most one digit fits at (r, c). */
  ghost predicate AtMostOneFits(g: Grid, r: int, c: int)
    requires IsGrid(g) && InBounds(r, c)
  {
    forall v, w :: 1 <= v <= N && 1 <= w <= N && Fits(g, r, c, v) && Fits(g, r, c, w) ==> v == w
  }

  /** With no member of s in 1..k, the list is empty. */
  lemma {:induction false} AscendingNone(s: set<int>, k: int)
    requires 0 <= k
    requires forall w :: 1 <= w <= k ==> w !in s
    ensures Ascending(s, k) == []
  {
    if k > 0 {
      AscendingNone(s, k - 1);
    }
  }

  /** With v the only member of s in 1..k, the list is [v]. */
  lemma {:induction false} AscendingOne(s: set<int>, v: int, k: int)
    requires 1 <= v <= k && v in s
    requires forall w :: 1 <= w <= k && w != v ==> w !in s
    ensures Ascending(s, k) == [v]
  {
    if k == v {
      AscendingNone(s, k - 1);
    } else {
      AscendingOne(s, v, k - 1);
    }
  }

  /** A list of length one names the only member of s in 1..k. */
  lemma {:induction false} AscendingSingle(s: set<int>, v: int, k: int)
    requires 0 <= k
    requires |Ascending(s, k)| == 1 && Ascending(s, k)[0] == v
    ensures 1 <= v <= k && v in s
    ensures forall w :: 1 <= w <= k && w != v ==> w !in s
  {
    var below := Ascending(s, k - 1);
    if k in s {
      assert below == [];
      forall w | 1 <= w < k
        ensures w !in s
      {
        assert w !in below;
      }
    } else {
      AscendingSingle(s, v, k - 1);
    }
  }

  /** A candidate list of length one names exactly the digit that alone fits, and conversely. */
  lemma SingleCandidate(g: Grid, r: int, c: int, v: int)
    requires IsGrid(g) && InBounds(r, c)
    ensures (|Candidates(g, r, c, N)| == 1 && Candidates(g, r, c, N)[0] == v) <==> SoleFit(g, r, c, v)
  {
    var s := FitSet(g, r, c);
    if |Candidates(g, r, c, N)| == 1 && Candidates(g, r, c, N)[0] == v {
      AscendingSingle(s, v, N);
      forall w | 1 <= w <= N && w != v
        ensures !Fits(g, r, c, w)
      {
        assert w !in s;
      }
    }
    if SoleFit(g, r, c, v) {
      forall w | 1 <= w <= N && w != v
        ensures w !in s
      {
      }
      AscendingOne(s, v, N);
    }
  }

  /**
   * For an empty cell, or any cell not holding v, the two checks agree:
   * v fits (nothing in the row, column or box holds it) exactly when no peer
   * holds it. This is why isPossible and isValid give the same answer there.
   */
  lemma FitsIffConflictFree(g: Grid, r: int, c: int, v: int)
    requires IsGrid(g) && InBounds(r, c) && g[r][c] != v
    ensures Fits(g, r, c, v) <==> ConflictFree(g, r, c, v)
  {
    var r0, c0 := BoxStart(r), BoxStart(c);
    if Fits(g, r, c, v) {
      forall r2, c2 | InBounds(r2, c2) && Peers(r, c, r2, c2)
        ensures g[r2][c2] != v
      {
        if r2 != r && c2 != c {
          assert r0 <= r2 < r0 + SQRT_N && c0 <= c2 < c0 + SQRT_N;
        }
      }
    } else {
      if RowHas(g, r, v) {
        var j :| 0 <= j < N && g[r][j] == v;
        assert Peers(r, c, r, j);
      } else if ColHas(g, c, v) {
        var i :| 0 <= i < N && g[i][c] == v;
        assert Peers(r, c, i, c);
      } else {
        assert BoxHas(g, r0, c0, v);
        var i, j :| r0 <= i < r0 + SQRT_N && c0 <= j < c0 + SQRT_N && g[i][j] == v;
        assert BoxStart(i) == r0 && BoxStart(j) == c0;
        assert Peers(r, c, i, j);
      }
    }
  }

  /**
   * Writing a fitting digit into an empty cell of a consistent board keeps it
   * consistent: the step fillRemaining relies on.
   */
  lemma PlaceKeepsConsistent(g: Grid, h: Grid, r: int, c: int, v: int)
    requires IsGrid(g) && IsGrid(h) && InBounds(r, c)
    requires Consistent(g) && g[r][c] == 0 && Fits(g, r, c, v)
    requires h[r][c] == v
    requires forall i, j :: InBounds(i, j) && (i != r || j != c) ==> h[i][j] == g[i][j]
    ensures Consistent(h)
  {
    FitsIffConflictFree(g, r, c, v);
    forall r1, c1 | InBounds(r1, c1) && h[r1][c1] != 0
      ensures ConflictFree(h, r1, c1, h[r1][c1])
    {
      forall r2, c2 | InBounds(r2, c2) && Peers(r1, c1, r2, c2)
        ensures h[r2][c2] != h[r1][c1]
      {
        if r2 == r && c2 == c {
          assert Peers(r, c, r1, c1);
        } else if r1 == r && c1 == c {
        } else {
          assert ConflictFree(g, r1, c1, g[r1][c1]);
        }
      }
    }
  }

  /** A puzzle that agrees with a consistent solution is itself consistent. */
  lemma AgreeingIsConsistent(p: Grid, s: Grid)
    requires IsGrid(p) && IsGrid(s) && Consistent(s) && Agrees(p, s)
    ensures Consistent(p)
  {
    forall r, c | InBounds(r, c) && p[r][c] != 0
      ensures ConflictFree(p, r, c, p[r][c])
    {
      assert ConflictFree(s, r, c, s[r][c]);
    }
  }

  /** The list has at most one entry exactly when s has at most one member in 1..k. */
  lemma {:induction false} AscendingAtMostOne(s: set<int>, k: int)
    requires 0 <= k
    ensures |Ascending(s, k)| <= 1 <==> forall v, w :: 1 <= v <= k && 1 <= w <= k && v in s && w in s ==> v == w
  {
    if k > 0 {
      AscendingAtMostOne(s, k - 1);
      if k in s && |Ascending(s, k - 1)| > 0 {
        var v := Ascending(s, k - 1)[0];
        assert v in Ascending(s, k - 1);
      }
    }
  }

  /** At most one candidate is listed exactly when at most one digit fits. */
  lemma CandidatesAtMostOne(g: Grid, r: int, c: int)
    requires IsGrid(g) && InBounds(r, c)
    ensures |Candidates(g, r, c, N)| <= 1 <==> AtMostOneFits(g, r, c)
  {
    var s := FitSet(g, r, c);
    AscendingAtMostOne(s, N);
    if AtMostOneFits(g, r, c) {
      forall v, w | 1 <= v <= N && 1 <= w <= N && v in s && w in s
        ensures v == w
      {
      }
    } else {
      var v, w :| 1 <= v <= N && 1 <= w <= N && Fits(g, r, c, v) && Fits(g, r, c, w) && v != w;
      assert v in s && w in s;
    }
  }

  /** Two boards with the same cells are the same board. */
  lemma SameCells(g: Grid, h: Grid)
    requires IsGrid(g) && IsGrid(h)
    requires forall i, j :: InBounds(i, j) ==> g[i][j] == h[i][j]
    ensures g == h
  {
    forall i | 0 <= i < N
      ensures g[i] == h[i]
    {
      assert forall j :: 0 <= j < N ==> g[i][j] == h[i][j];
    }
  }

  /** The board g with cell (r, c) set to v. */
  ghost function Put(g: Grid, r: int, c: int, v: int): (h: Grid)
    requires IsGrid(g) && InBounds(r, c)
    ensures IsGrid(h)
    ensures forall i, j :: InBounds(i, j) ==> h[i][j] == if i == r && j == c then v else g[i][j]
  {
    g[r := g[r][c := v]]
  }

  /** The cells of a 9x9 array as a board value. */
  function Snapshot(m: array2<int>): (g: Grid)
    reads m
    requires m.Length0 == N && m.Length1 == N
    ensures IsGrid(g)
    ensures forall i, j :: InBounds(i, j) ==> g[i][j] == m[i, j]
  {
    seq(N, i reads m requires 0 <= i < N => seq(N, j reads m requires 0 <= j < N => m[i, j]))
  }
}
