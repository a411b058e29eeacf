/**
 * The four directional moves and their feasibility check. Every move is the
 * left slide applied to every row of a re-oriented grid: Right through
 * invert, Up through transpose, Down through transpose then invert.
 */
module Moves {
  import opened Grids
  import opened Slide
  import opened Actions

  /** Every row slid left. */
  function MoveLeft(g: Grid): (r: Grid)
    ensures |r| == |g|
    ensures forall i | 0 <= i < |g| :: r[i] == MoveRowLeft(g[i]).row
  {
    seq(|g|, i requires 0 <= i < |g| => MoveRowLeft(g[i]).row)
  }

  /**
   * The score all the row slides of a left move earn together: a grid no row
   * of which can slide scores nothing.
   */
  function GainLeft(g: Grid): (r: nat)
    ensures !AnyRowMovable(g) ==> r == 0
  {
    if |g| == 0 then 0
    else
      StuckSplits(g);
      MoveRowLeft(g[0]).gain + GainLeft(g[1..])
  }

  /**
   * In a grid no row of which can slide, the first row scores nothing and
   * the remaining rows cannot slide either.
   */
  lemma StuckSplits(g: Grid)
    requires |g| > 0
    ensures !AnyRowMovable(g) ==> MoveRowLeft(g[0]).gain == 0 && !AnyRowMovable(g[1..])
  {
    if !AnyRowMovable(g) {
      StuckRowStays(g[0]);
      forall i | 0 <= i < |g| - 1
        ensures !RowIsLeftMovable(g[1..][i])
      {
        assert g[1..][i] == g[i + 1];
      }
    }
  }

  /** Some row can slide left. */
  predicate AnyRowMovable(g: Grid) {
    exists i | 0 <= i < |g| :: RowIsLeftMovable(g[i])
  }

  /** The grid turned so that direction d becomes a slide to the left. */
  function Orient(g: Grid, d: Direction): Grid {
    match d
    case Left => g
    case Right => Invert(g)
    case Up => Transpose(g)
    case Down => Invert(Transpose(g))
  }

  /** The inverse of Orient: a left-slid grid turned back to the field's orientation. */
  function Restore(g: Grid, d: Direction): Grid {
    match d
    case Left => g
    case Right => Invert(g)
    case Up => Transpose(g)
    case Down => Transpose(Invert(g))
  }

  /**
   * The field after a move in direction d, before any tile is spawned. A
   * sideways move keeps the number of rows, and one that is not possible
   * leaves the field as it was.
   */
  function MoveGrid(g: Grid, d: Direction): (r: Grid)
    ensures d == Left || d == Right ==> |r| == |g|
    ensures (d == Left || d == Right) && !MoveIsPossible(g, d) ==> r == g
  {
    InvertInvolution(g);
    Restore(MoveLeft(Orient(g, d)), d)
  }

  /** The score a move in direction d earns: nothing when the move is impossible. */
  function MoveGain(g: Grid, d: Direction): (r: nat)
    ensures !MoveIsPossible(g, d) ==> r == 0
  {
    GainLeft(Orient(g, d))
  }

  /**
   * move_is_possible: the left check applied to the re-oriented grid, which
   * holds exactly when the left slide changes that grid.
   */
  predicate MoveIsPossible(g: Grid, d: Direction)
    ensures MoveIsPossible(g, d) <==> MoveLeft(Orient(g, d)) != Orient(g, d)
  {
    AnyRowMovableIffChanges(Orient(g, d));
    AnyRowMovable(Orient(g, d))
  }

  /** No direction can move: the condition is_gameover reports. */
  predicate NoMovePossible(g: Grid) {
    !(MoveIsPossible(g, Up) || MoveIsPossible(g, Left)
      || MoveIsPossible(g, Down) || MoveIsPossible(g, Right))
  }

  // ---------------------------------------------------------------------

  lemma MoveLeftShape(g: Grid, h: nat, w: nat)
    requires IsGrid(g, h, w)
    ensures IsGrid(MoveLeft(g), h, w)
  {
  }

  /** Orienting an h by w grid for direction d, and the grid that comes back. */
  lemma OrientShape(g: Grid, h: nat, w: nat, d: Direction)
    requires IsGrid(g, h, w) && h > 0 && w > 0
    ensures d.Left? || d.Right? ==> IsGrid(Orient(g, d), h, w)
    ensures d.Up? || d.Down? ==> IsGrid(Orient(g, d), w, h)
    ensures Restore(Orient(g, d), d) == g
  {
    match d
    case Left =>
    case Right =>
      InvertShape(g, h, w);
      InvertInvolution(g);
    case Up =>
      TransposeShape(g, h, w);
      TransposeInvolution(g, h, w);
    case Down =>
      TransposeShape(g, h, w);
      InvertShape(Transpose(g), w, h);
      InvertInvolution(Transpose(g));
      TransposeInvolution(g, h, w);
  }

  /** Restoring a grid of the oriented shape gives a grid of the field's shape. */
  lemma RestoreShape(x: Grid, h: nat, w: nat, d: Direction)
    requires h > 0 && w > 0
    requires d.Left? || d.Right? ==> IsGrid(x, h, w)
    requires d.Up? || d.Down? ==> IsGrid(x, w, h)
    ensures IsGrid(Restore(x, d), h, w)
  {
    match d
    case Left =>
    case Right =>
      InvertShape(x, h, w);
    case Up =>
      TransposeShape(x, w, h);
    case Down =>
      InvertShape(x, w, h);
      TransposeShape(Invert(x), w, h);
  }

  /** Restore is one-to-one on grids of the oriented shape. */
  lemma RestoreInjective(x: Grid, y: Grid, h: nat, w: nat, d: Direction)
    requires h > 0 && w > 0
    requires d.Left? || d.Right? ==> IsGrid(x, h, w) && IsGrid(y, h, w)
    requires d.Up? || d.Down? ==> IsGrid(x, w, h) && IsGrid(y, w, h)
    requires Restore(x, d) == Restore(y, d)
    ensures x == y
  {
    match d
    case Left =>
    case Right =>
      InvertInvolution(x);
      InvertInvolution(y);
    case Up =>
      TransposeInvolution(x, w, h);
      TransposeInvolution(y, w, h);
    case Down =>
      InvertShape(x, w, h);
      InvertShape(y, w, h);
      TransposeInvolution(Invert(x), w, h);
      TransposeInvolution(Invert(y), w, h);
      InvertInvolution(x);
      InvertInvolution(y);
  }

  /** A move keeps the shape of the field. */
  lemma MoveGridShape(g: Grid, h: nat, w: nat, d: Direction)
    requires IsGrid(g, h, w) && h > 0 && w > 0
    ensures IsGrid(MoveGrid(g, d), h, w)
  {
    OrientShape(g, h, w, d);
    if d.Left? || d.Right? {
      MoveLeftShape(Orient(g, d), h, w);
    } else {
      MoveLeftShape(Orient(g, d), w, h);
    }
    RestoreShape(MoveLeft(Orient(g, d)), h, w, d);
  }

  /** Right, Up and Down are built from Left exactly as the move table composes them. */
  lemma DirectionsFromLeft(g: Grid)
    ensures MoveGrid(g, Right) == Invert(MoveGrid(Invert(g), Left))
    ensures MoveGrid(g, Up) == Transpose(MoveGrid(Transpose(g), Left))
    ensures MoveGrid(g, Down) == Transpose(MoveGrid(Transpose(g), Right))
  {
  }

  /** Left slides every row to the left. */
  lemma MoveLeftSlidesRows(g: Grid)
    ensures forall i | 0 <= i < |g| :: MoveGrid(g, Left)[i] == MoveRowLeft(g[i]).row
  {
  }

  /** Right slides every row towards its end. */
  lemma MoveRightSlidesRows(g: Grid)
    ensures forall i | 0 <= i < |g| ::
      MoveGrid(g, Right)[i] == Reverse(MoveRowLeft(Reverse(g[i])).row)
  {
  }

  /** Up slides every column towards the top. */
  lemma MoveUpSlidesColumns(g: Grid, h: nat, w: nat)
    requires IsGrid(g, h, w) && h > 0 && w > 0
    ensures IsGrid(MoveGrid(g, Up), h, w)
    ensures forall j | 0 <= j < w ::
      Column(MoveGrid(g, Up), j) == MoveRowLeft(Column(g, j)).row
  {
    MoveGridShape(g, h, w, Up);
    TransposeShape(g, h, w);
    var x := MoveLeft(Transpose(g));
    MoveLeftShape(Transpose(g), w, h);
    forall j | 0 <= j < w
      ensures Column(MoveGrid(g, Up), j) == MoveRowLeft(Column(g, j)).row
    {
      TransposeRowIsColumn(g, h, w, j);
      TransposeColumnIsRow(x, w, h, j);
    }
  }

  /** Down slides every column towards the bottom. */
  lemma MoveDownSlidesColumns(g: Grid, h: nat, w: nat)
    requires IsGrid(g, h, w) && h > 0 && w > 0
    ensures IsGrid(MoveGrid(g, Down), h, w)
    ensures forall j | 0 <= j < w ::
      Column(MoveGrid(g, Down), j) == Reverse(MoveRowLeft(Reverse(Column(g, j))).row)
  {
    MoveGridShape(g, h, w, Down);
    TransposeShape(g, h, w);
    var t := Transpose(g);
    InvertShape(t, w, h);
    MoveLeftShape(Invert(t), w, h);
    var x := Invert(MoveLeft(Invert(t)));
    InvertShape(MoveLeft(Invert(t)), w, h);
    forall j | 0 <= j < w
      ensures Column(MoveGrid(g, Down), j) == Reverse(MoveRowLeft(Reverse(Column(g, j))).row)
    {
      TransposeRowIsColumn(g, h, w, j);
      TransposeColumnIsRow(x, w, h, j);
    }
  }

  /** Some row can slide left exactly when the left move changes the grid. */
  lemma AnyRowMovableIffChanges(g: Grid)
    ensures AnyRowMovable(g) <==> MoveLeft(g) != g
  {
    var x := MoveLeft(g);
    forall i | 0 <= i < |g|
      ensures RowIsLeftMovable(g[i]) <==> x[i] != g[i]
    {
      LeftMovableIffSlideChanges(g[i]);
    }
    if x != g {
      assert exists i | 0 <= i < |g| :: x[i] != g[i];
    }
  }

  /** The left-slid oriented grid has the oriented shape. */
  lemma OrientedMoveShape(g: Grid, h: nat, w: nat, d: Direction)
    requires IsGrid(g, h, w) && h > 0 && w > 0
    ensures d.Left? || d.Right? ==> IsGrid(MoveLeft(Orient(g, d)), h, w)
    ensures d.Up? || d.Down? ==> IsGrid(MoveLeft(Orient(g, d)), w, h)
  {
    OrientShape(g, h, w, d);
  }

  /**
   * The feasibility check is exact: a move is possible precisely when it
   * would change the field.
   */
  lemma MoveIsPossibleIffChanges(g: Grid, h: nat, w: nat, d: Direction)
    requires IsGrid(g, h, w) && h > 0 && w > 0
    ensures MoveIsPossible(g, d) <==> MoveGrid(g, d) != g
  {
    var o := Orient(g, d);
    var x := MoveLeft(o);
    AnyRowMovableIffChanges(o);
    OrientShape(g, h, w, d);
    if MoveGrid(g, d) == g {
      OrientedMoveShape(g, h, w, d);
      RestoreInjective(x, o, h, w, d);
    }
  }

  /** A left move keeps the sum of all cells and every tile a power of two. */
  lemma {:induction false} MoveLeftKeepsSumAndTiles(g: Grid)
    ensures TotalSum(MoveLeft(g)) == TotalSum(g)
    ensures AllTiles(g) ==> AllTiles(MoveLeft(g))
    decreases |g|
  {
    if |g| > 0 {
      SlideKeepsSumAndTiles(g[0]);
      assert MoveLeft(g)[1..] == MoveLeft(g[1..]);
      MoveLeftKeepsSumAndTiles(g[1..]);
      forall i | 0 <= i < |g|
        ensures RowTiles(g[i]) ==> RowTiles(MoveLeft(g)[i])
      {
        SlideKeepsSumAndTiles(g[i]);
      }
    }
  }

  lemma TransposeKeepsTiles(g: Grid, h: nat, w: nat)
    requires IsGrid(g, h, w) && AllTiles(g)
    ensures AllTiles(Transpose(g))
  {
    if h > 0 {
      TransposeShape(g, h, w);
    }
  }

  /** Up keeps the sum of all cells. */
  lemma UpKeepsSum(g: Grid, h: nat, w: nat)
    requires IsGrid(g, h, w) && h > 0 && w > 0
    ensures TotalSum(MoveGrid(g, Up)) == TotalSum(g)
  {
    var x := MoveLeft(Transpose(g));
    MoveLeftKeepsSumAndTiles(Transpose(g));
    TransposeShape(g, h, w);
    MoveLeftShape(Transpose(g), w, h);
    TotalSumTranspose(g, h, w);
    TotalSumTranspose(x, w, h);
  }

  /** Down keeps the sum of all cells. */
  lemma DownKeepsSum(g: Grid, h: nat, w: nat)
    requires IsGrid(g, h, w) && h > 0 && w > 0
    ensures TotalSum(MoveGrid(g, Down)) == TotalSum(g)
  {
    var t := Transpose(g);
    var x := MoveLeft(Invert(t));
    MoveLeftKeepsSumAndTiles(Invert(t));
    TransposeShape(g, h, w);
    TotalSumTranspose(g, h, w);
    TotalSumInvert(t);
    InvertShape(t, w, h);
    MoveLeftShape(Invert(t), w, h);
    TotalSumInvert(x);
    InvertShape(x, w, h);
    TotalSumTranspose(Invert(x), w, h);
  }

  /** No move creates or destroys value: the sum of all cells is kept. */
  lemma MoveKeepsSum(g: Grid, h: nat, w: nat, d: Direction)
    requires IsGrid(g, h, w) && h > 0 && w > 0
    ensures TotalSum(MoveGrid(g, d)) == TotalSum(g)
  {
    match d
    case Left =>
      MoveLeftKeepsSumAndTiles(g);
    case Right =>
      MoveLeftKeepsSumAndTiles(Invert(g));
      TotalSumInvert(g);
      TotalSumInvert(MoveLeft(Invert(g)));
    case Up =>
      UpKeepsSum(g, h, w);
    case Down =>
      DownKeepsSum(g, h, w);
  }

  /** Up keeps every tile a power of two. */
  lemma UpKeepsTiles(g: Grid, h: nat, w: nat)
    requires IsGrid(g, h, w) && h > 0 && w > 0 && AllTiles(g)
    ensures AllTiles(MoveGrid(g, Up))
  {
    var x := MoveLeft(Transpose(g));
    TransposeKeepsTiles(g, h, w);
    MoveLeftKeepsSumAndTiles(Transpose(g));
    TransposeShape(g, h, w);
    MoveLeftShape(Transpose(g), w, h);
    TransposeKeepsTiles(x, w, h);
  }

  /** Down keeps every tile a power of two. */
  lemma DownKeepsTiles(g: Grid, h: nat, w: nat)
    requires IsGrid(g, h, w) && h > 0 && w > 0 && AllTiles(g)
    ensures AllTiles(MoveGrid(g, Down))
  {
    var t := Transpose(g);
    TransposeKeepsTiles(g, h, w);
    TransposeShape(g, h, w);
    InvertShape(t, w, h);
    InvertKeepsTiles(t);
    var x := MoveLeft(Invert(t));
    MoveLeftKeepsSumAndTiles(Invert(t));
    MoveLeftShape(Invert(t), w, h);
    InvertShape(x, w, h);
    InvertKeepsTiles(x);
    TransposeKeepsTiles(Invert(x), w, h);
  }

  /** Inverting keeps every tile a power of two. */
  lemma InvertKeepsTiles(g: Grid)
    requires AllTiles(g)
    ensures AllTiles(Invert(g))
  {
    forall i | 0 <= i < |g|
      ensures RowTiles(Invert(g)[i])
    {
      InvertKeepsRowTiles(g[i]);
    }
  }

  /** Right keeps every tile a power of two. */
  lemma RightKeepsTiles(g: Grid)
    requires AllTiles(g)
    ensures AllTiles(MoveGrid(g, Right))
  {
    InvertKeepsTiles(g);
    MoveLeftKeepsSumAndTiles(Invert(g));
    InvertKeepsTiles(MoveLeft(Invert(g)));
  }

  lemma InvertKeepsRowTiles(row: Row)
    requires RowTiles(row)
    ensures RowTiles(Reverse(row))
  {
    forall j | 0 <= j < |row|
      ensures IsTile(Reverse(row)[j])
    {
      assert Reverse(row)[j] == row[|row| - 1 - j];
    }
  }

  /** A move keeps every tile a power of two. */
  lemma MoveKeepsTiles(g: Grid, h: nat, w: nat, d: Direction)
    requires IsGrid(g, h, w) && h > 0 && w > 0 && AllTiles(g)
    ensures AllTiles(MoveGrid(g, d))
  {
    match d
    case Left =>
      MoveLeftKeepsSumAndTiles(g);
    case Right =>
      RightKeepsTiles(g);
    case Up =>
      UpKeepsTiles(g, h, w);
    case Down =>
      DownKeepsTiles(g, h, w);
  }

  /** A left move in which some row slides leaves an empty cell at the end of that row. */
  lemma MovedLeftHasEmptyCell(o: Grid)
    requires AnyRowMovable(o)
    ensures HasEmptyCell(MoveLeft(o))
  {
    var x := MoveLeft(o);
    var i :| 0 <= i < |o| && RowIsLeftMovable(o[i]);
    MovableLeavesEmptyCell(o[i]);
    assert x[i][|o[i]| - 1] == 0;
  }

  /** After a possible move the field has an empty cell, so the spawn that follows cannot fail. */
  lemma PossibleMoveLeavesEmptyCell(g: Grid, h: nat, w: nat, d: Direction)
    requires IsGrid(g, h, w) && h > 0 && w > 0
    requires MoveIsPossible(g, d)
    ensures HasEmptyCell(MoveGrid(g, d))
  {
    var o := Orient(g, d);
    var x := MoveLeft(o);
    OrientShape(g, h, w, d);
    MovedLeftHasEmptyCell(o);
    match d
    case Left =>
    case Right =>
      EmptyCellInvert(x);
    case Up =>
      MoveLeftShape(o, w, h);
      EmptyCellTranspose(x, w, h);
    case Down =>
      MoveLeftShape(o, w, h);
      EmptyCellInvert(x);
      InvertShape(x, w, h);
      EmptyCellTranspose(Invert(x), w, h);
  }
}
