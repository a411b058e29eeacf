/**
 * When no move is possible. The check move_is_possible looks only at
 * neighbouring pairs; here that local test is related to the picture a
 * player has of a lost game: a full grid with no two equal neighbours.
 */
module Stuck {
  import opened Grids
  import opened Slide
  import opened Moves

  /** Two neighbours no slide along their line can change: both empty, or two different tiles. */
  predicate Blocked(a: nat, b: nat) {
    (a == 0 && b == 0) || (a != 0 && b != 0 && a != b)
  }

  /** Every pair of neighbours in the line is blocked. */
  predicate LineBlocked(row: Row) {
    forall k | 0 <= k < |row| - 1 :: Blocked(row[k], row[k + 1])
  }

  /** Every row of the grid is blocked. */
  predicate AllLinesBlocked(g: Grid) {
    forall i | 0 <= i < |g| :: LineBlocked(g[i])
  }

  /** Some cell holds a tile. */
  predicate HasTile(g: Grid) {
    exists i, j | 0 <= i < |g| && 0 <= j < |g[i]| :: g[i][j] != 0
  }

  /** Row b, laid under row a, repeats none of a's values in the same column. */
  predicate RowsDiffer(a: Row, b: Row) {
    forall j | 0 <= j < |a| && j < |b| :: a[j] != b[j]
  }

  /** No two horizontal or vertical neighbours hold the same value. */
  predicate NoEqualNeighbours(g: Grid) {
    && (forall i, j | 0 <= i < |g| && 0 <= j < |g[i]| - 1 :: g[i][j] != g[i][j + 1])
    && (forall i | 0 <= i < |g| - 1 :: RowsDiffer(g[i], g[i + 1]))
  }

  /** A row can slide neither left nor right exactly when all its neighbours are blocked. */
  lemma RowStuckIffBlocked(row: Row)
    ensures !RowIsLeftMovable(row) && !RowIsLeftMovable(Reverse(row)) <==> LineBlocked(row)
  {
    var rv := Reverse(row);
    if LineBlocked(row) {
      forall i | 0 <= i < |row| - 1
        ensures !((row[i] == 0 && row[i + 1] != 0) || (row[i] != 0 && row[i + 1] == row[i]))
      {
        assert Blocked(row[i], row[i + 1]);
      }
      forall i | 0 <= i < |rv| - 1
        ensures !((rv[i] == 0 && rv[i + 1] != 0) || (rv[i] != 0 && rv[i + 1] == rv[i]))
      {
        var k := |row| - 2 - i;
        assert Blocked(row[k], row[k + 1]);
      }
    }
    if !RowIsLeftMovable(row) && !RowIsLeftMovable(rv) {
      forall k | 0 <= k < |row| - 1
        ensures Blocked(row[k], row[k + 1])
      {
        var i := |row| - 2 - k;
        assert rv[i] == row[k + 1] && rv[i + 1] == row[k];
      }
    }
  }

  /** No row of x can slide left or right exactly when every row of x is blocked. */
  lemma RowsStuckIffBlocked(x: Grid)
    ensures !AnyRowMovable(x) && !AnyRowMovable(Invert(x)) <==> AllLinesBlocked(x)
  {
    forall i | 0 <= i < |x|
      ensures !RowIsLeftMovable(x[i]) && !RowIsLeftMovable(Reverse(x[i])) <==> LineBlocked(x[i])
    {
      RowStuckIffBlocked(x[i]);
    }
  }

  /** is_gameover's condition: every row and every column of the grid is blocked. */
  lemma NoMovePossibleIffBlocked(g: Grid)
    ensures NoMovePossible(g) <==> AllLinesBlocked(g) && AllLinesBlocked(Transpose(g))
  {
    RowsStuckIffBlocked(g);
    RowsStuckIffBlocked(Transpose(g));
  }

  /** Along a line where empty cells are only next to empty cells, all cells agree on emptiness. */
  lemma {:induction false} BlockedLineAgrees(s: Row, k: nat)
    requires LineBlocked(s) && k < |s|
    ensures s[k] == 0 <==> s[0] == 0
    decreases k
  {
    if k > 0 {
      BlockedLineAgrees(s, k - 1);
      assert Blocked(s[k - 1], s[k]);
    }
  }

  /** In a blocked grid with one tile, the tile's row, and with it every column, is full. */
  lemma BlockedWithTileIsFull(g: Grid, h: nat, w: nat)
    requires IsGrid(g, h, w) && h > 0 && w > 0 && HasTile(g)
    requires AllLinesBlocked(g) && AllLinesBlocked(Transpose(g))
    ensures !HasEmptyCell(g)
  {
    MinWidthOfGrid(g, h, w);
    var t := Transpose(g);
    var i0, j0 :| 0 <= i0 < h && 0 <= j0 < w && g[i0][j0] != 0;
    BlockedLineAgrees(g[i0], j0);
    forall i, j | 0 <= i < h && 0 <= j < w
      ensures g[i][j] != 0
    {
      BlockedLineAgrees(g[i0], j);
      assert t[j][i0] == g[i0][j];
      BlockedLineAgrees(t[j], i0);
      BlockedLineAgrees(t[j], i);
      assert t[j][i] == g[i][j];
    }
  }

  /** A blocked grid with a tile is full and has no two equal neighbours. */
  lemma BlockedWithTileHasNoPairs(g: Grid, h: nat, w: nat)
    requires IsGrid(g, h, w) && h > 0 && w > 0 && HasTile(g)
    requires AllLinesBlocked(g) && AllLinesBlocked(Transpose(g))
    ensures !HasEmptyCell(g) && NoEqualNeighbours(g)
  {
    MinWidthOfGrid(g, h, w);
    var t := Transpose(g);
    BlockedWithTileIsFull(g, h, w);
    forall i, j | 0 <= i < |g| && 0 <= j < |g[i]| - 1
      ensures g[i][j] != g[i][j + 1]
    {
      assert Blocked(g[i][j], g[i][j + 1]);
    }
    forall i | 0 <= i < |g| - 1
      ensures RowsDiffer(g[i], g[i + 1])
    {
      forall j | 0 <= j < |g[i]| && j < |g[i + 1]|
        ensures g[i][j] != g[i + 1][j]
      {
        assert Blocked(t[j][i], t[j][i + 1]);
      }
    }
  }

  /** A full grid with no two equal neighbours is blocked along every row and column. */
  lemma FullWithoutPairsIsBlocked(g: Grid, h: nat, w: nat)
    requires IsGrid(g, h, w) && h > 0 && w > 0
    requires !HasEmptyCell(g) && NoEqualNeighbours(g)
    ensures AllLinesBlocked(g) && AllLinesBlocked(Transpose(g))
  {
    MinWidthOfGrid(g, h, w);
    var t := Transpose(g);
    forall i | 0 <= i < |g|
      ensures LineBlocked(g[i])
    {
      forall k | 0 <= k < |g[i]| - 1
        ensures Blocked(g[i][k], g[i][k + 1])
      {
      }
    }
    forall j | 0 <= j < |t|
      ensures LineBlocked(t[j])
    {
      forall k | 0 <= k < |t[j]| - 1
        ensures Blocked(t[j][k], t[j][k + 1])
      {
        assert t[j][k] == g[k][j] && t[j][k + 1] == g[k + 1][j];
        assert RowsDiffer(g[k], g[k + 1]);
      }
    }
  }

  /**
   * With at least one tile on the grid, no direction can move exactly when
   * the grid is full and no two neighbours are equal.
   */
  lemma NoMovePossibleIffFullWithoutPairs(g: Grid, h: nat, w: nat)
    requires IsGrid(g, h, w) && h > 0 && w > 0 && HasTile(g)
    ensures NoMovePossible(g) <==> !HasEmptyCell(g) && NoEqualNeighbours(g)
  {
    NoMovePossibleIffBlocked(g);
    if NoMovePossible(g) {
      BlockedWithTileHasNoPairs(g, h, w);
    }
    if !HasEmptyCell(g) && NoEqualNeighbours(g) {
      FullWithoutPairsIsBlocked(g, h, w);
    }
  }

  /** An all-empty grid counts as game over: no line has a tile to slide. */
  lemma EmptyGridIsStuck(g: Grid)
    requires !HasTile(g)
    ensures NoMovePossible(g)
  {
    NoMovePossibleIffBlocked(g);
    var t := Transpose(g);
    forall j | 0 <= j < |t|
      ensures LineBlocked(t[j])
    {
      forall k | 0 <= k < |t[j]| - 1
        ensures Blocked(t[j][k], t[j][k + 1])
      {
        assert t[j][k] == g[k][j] && t[j][k + 1] == g[k + 1][j];
      }
    }
  }

  /** A grid whose cells add up to something positive holds a tile. */
  lemma {:induction false} SumPositiveHasTile(g: Grid)
    requires TotalSum(g) > 0
    ensures HasTile(g)
    decreases |g|
  {
    if Sum(g[0]) > 0 {
      RowSumPositive(g[0]);
      var j :| 0 <= j < |g[0]| && g[0][j] != 0;
      assert g[0][j] != 0;
    } else {
      SumPositiveHasTile(g[1..]);
      var i, j :| 0 <= i < |g[1..]| && 0 <= j < |g[1..][i]| && g[1..][i][j] != 0;
      assert g[i + 1][j] != 0;
    }
  }

  lemma {:induction false} RowSumPositive(row: Row)
    requires Sum(row) > 0
    ensures exists j | 0 <= j < |row| :: row[j] != 0
    decreases |row|
  {
    if row[0] == 0 {
      RowSumPositive(row[1..]);
      var j :| 0 <= j < |row[1..]| && row[1..][j] != 0;
      assert row[j + 1] != 0;
    }
  }
}
