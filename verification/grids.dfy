/**
 * The 2048 playing field as a grid of natural numbers (0 is an empty cell),
 * and the two pure transforms, transpose and invert, that reduce every
 * directional move to a slide to the left.
 */
module Grids {

  /** One row of cells; 0 marks an empty cell. */
  type Row = seq<nat>

  /** A list of rows, as the game keeps its field. */
  type Grid = seq<Row>

  /** g has exactly h rows of exactly w cells each. */
  predicate IsGrid(g: Grid, h: nat, w: nat) {
    |g| == h && forall i | 0 <= i < |g| :: |g[i]| == w
  }

  /** A tile value the game can hold: empty, or a power of two that is at least 2. */
  predicate IsTile(v: nat) {
    v == 0 || (v >= 2 && IsPowerOfTwo(v))
  }

  predicate IsPowerOfTwo(v: nat) {
    v == 1 || (v >= 2 && v % 2 == 0 && IsPowerOfTwo(v / 2))
  }

  /** Every cell of the row holds a tile value. */
  predicate RowTiles(row: Row) {
    forall j | 0 <= j < |row| :: IsTile(row[j])
  }

  /** Some cell of g is empty. */
  predicate HasEmptyCell(g: Grid) {
    exists i, j | 0 <= i < |g| && 0 <= j < |g[i]| :: g[i][j] == 0
  }

  /** Every cell of g holds a tile value. */
  predicate AllTiles(g: Grid) {
    forall i | 0 <= i < |g| :: RowTiles(g[i])
  }

  /**
   * The number of tuples that zip(*g) produces: the length of the shortest
   * row, and 0 when there are no rows at all.
   */
  function MinWidth(g: Grid): (n: nat)
    ensures forall i | 0 <= i < |g| :: n <= |g[i]|
    ensures |g| > 0 ==> exists i | 0 <= i < |g| :: n == |g[i]|
  {
    if |g| == 0 then 0
    else if |g| == 1 then |g[0]|
    else
      var rest := MinWidth(g[1..]);
      assert forall i | 1 <= i < |g| :: g[i] == g[1..][i - 1];
      if |g[0]| <= rest then |g[0]| else rest
  }

  /** Matrix transpose as zip(*g): column j of g becomes row j of the result. */
  function Transpose(g: Grid): (t: Grid)
    ensures |t| == MinWidth(g)
    ensures forall j | 0 <= j < |t| :: |t[j]| == |g|
    ensures forall j, i | 0 <= j < |t| && 0 <= i < |g| :: t[j][i] == g[i][j]
  {
    seq(MinWidth(g), j requires 0 <= j < MinWidth(g) =>
      seq(|g|, i requires 0 <= i < |g| => g[i][j]))
  }

  /** A row read from right to left. */
  function Reverse(row: Row): (r: Row)
    ensures |r| == |row|
    ensures forall j | 0 <= j < |row| :: r[j] == row[|row| - 1 - j]
  {
    seq(|row|, j requires 0 <= j < |row| => row[|row| - 1 - j])
  }

  /** Every row of g reversed; the rows themselves stay in place. */
  function Invert(g: Grid): (r: Grid)
    ensures |r| == |g|
    ensures forall i | 0 <= i < |g| :: r[i] == Reverse(g[i])
  {
    seq(|g|, i requires 0 <= i < |g| => Reverse(g[i]))
  }

  /** Column j of g, top to bottom. */
  function Column(g: Grid, j: nat): (c: Row)
    requires forall i | 0 <= i < |g| :: j < |g[i]|
    ensures |c| == |g|
    ensures forall i | 0 <= i < |g| :: c[i] == g[i][j]
  {
    seq(|g|, i requires 0 <= i < |g| => g[i][j])
  }

  lemma ReverseInvolution(row: Row)
    ensures Reverse(Reverse(row)) == row
  {
  }

  /** Inverting twice gives back the grid, whatever the row lengths. */
  lemma InvertInvolution(g: Grid)
    ensures Invert(Invert(g)) == g
  {
    forall i | 0 <= i < |g|
      ensures Invert(Invert(g))[i] == g[i]
    {
      ReverseInvolution(g[i]);
    }
  }

  /** Inverting keeps the shape of a grid. */
  lemma InvertShape(g: Grid, h: nat, w: nat)
    requires IsGrid(g, h, w)
    ensures IsGrid(Invert(g), h, w)
  {
  }

  /** A grid with h > 0 rows of width w has MinWidth w. */
  lemma MinWidthOfGrid(g: Grid, h: nat, w: nat)
    requires IsGrid(g, h, w) && h > 0
    ensures MinWidth(g) == w
  {
  }

  /** Transposing an h by w grid gives a w by h grid. */
  lemma TransposeShape(g: Grid, h: nat, w: nat)
    requires IsGrid(g, h, w) && h > 0
    ensures IsGrid(Transpose(g), w, h)
  {
    MinWidthOfGrid(g, h, w);
  }

  /** Row j of the transpose is column j. */
  lemma TransposeRowIsColumn(g: Grid, h: nat, w: nat, j: nat)
    requires IsGrid(g, h, w) && h > 0 && j < w
    ensures j < |Transpose(g)| && Transpose(g)[j] == Column(g, j)
  {
    MinWidthOfGrid(g, h, w);
  }

  /** Column j of the transpose is row j. */
  lemma TransposeColumnIsRow(x: Grid, h: nat, w: nat, j: nat)
    requires IsGrid(x, h, w) && h > 0 && j < h
    ensures forall i | 0 <= i < |Transpose(x)| :: j < |Transpose(x)[i]|
    ensures Column(Transpose(x), j) == x[j]
  {
    MinWidthOfGrid(x, h, w);
  }

  /**
   * Transposing twice gives back any grid whose rows are all of one nonzero
   * length (with zero-length rows zip(*g) forgets how many rows there were).
   */
  lemma TransposeInvolution(g: Grid, h: nat, w: nat)
    requires IsGrid(g, h, w) && w > 0
    ensures Transpose(Transpose(g)) == g
  {
    if h > 0 {
      TransposeShape(g, h, w);
      var tt := Transpose(Transpose(g));
      TransposeShape(Transpose(g), w, h);
      assert IsGrid(tt, h, w);
      forall i | 0 <= i < h
        ensures tt[i] == g[i]
      {
      }
    }
  }

  /** Inverting keeps an empty cell. */
  lemma EmptyCellInvert(g: Grid)
    requires HasEmptyCell(g)
    ensures HasEmptyCell(Invert(g))
  {
    var i, j :| 0 <= i < |g| && 0 <= j < |g[i]| && g[i][j] == 0;
    assert Invert(g)[i][|g[i]| - 1 - j] == 0;
  }

  /** Transposing a rectangular grid keeps an empty cell. */
  lemma EmptyCellTranspose(g: Grid, h: nat, w: nat)
    requires IsGrid(g, h, w) && HasEmptyCell(g)
    ensures HasEmptyCell(Transpose(g))
  {
    var i, j :| 0 <= i < |g| && 0 <= j < |g[i]| && g[i][j] == 0;
    MinWidthOfGrid(g, h, w);
    assert Transpose(g)[j][i] == 0;
  }

  /** Sum of the cells of a row. */
  function Sum(row: Row): nat {
    if |row| == 0 then 0 else row[0] + Sum(row[1..])
  }

  /** Sum of all cells of a grid. */
  function TotalSum(g: Grid): nat {
    if |g| == 0 then 0 else Sum(g[0]) + TotalSum(g[1..])
  }

  lemma {:induction false} SumConcat(a: Row, b: Row)
    ensures Sum(a + b) == Sum(a) + Sum(b)
    decreases |a|
  {
    if |a| == 0 {
      assert a + b == b;
    } else {
      assert (a + b)[1..] == a[1..] + b;
      SumConcat(a[1..], b);
    }
  }

  lemma {:induction false} SumReverse(row: Row)
    ensures Sum(Reverse(row)) == Sum(row)
    decreases |row|
  {
    if |row| > 0 {
      assert Reverse(row) == Reverse(row[1..]) + [row[0]];
      SumConcat(Reverse(row[1..]), [row[0]]);
      SumReverse(row[1..]);
    }
  }

  /** Inverting a grid keeps the sum of its cells. */
  lemma {:induction false} TotalSumInvert(g: Grid)
    ensures TotalSum(Invert(g)) == TotalSum(g)
    decreases |g|
  {
    if |g| > 0 {
      SumReverse(g[0]);
      assert Invert(g)[1..] == Invert(g[1..]);
      TotalSumInvert(g[1..]);
    }
  }

  /** A grid whose row j is r[j] prepended to row j of b sums to Sum(r) plus the sum of b. */
  lemma {:induction false} TotalSumPrependColumn(a: Grid, b: Grid, r: Row)
    requires |a| == |b| == |r|
    requires forall j | 0 <= j < |a| :: a[j] == [r[j]] + b[j]
    ensures TotalSum(a) == Sum(r) + TotalSum(b)
    decreases |a|
  {
    if |a| > 0 {
      SumConcat([r[0]], b[0]);
      TotalSumPrependColumn(a[1..], b[1..], r[1..]);
    }
  }

  lemma {:induction false} TotalSumEmptyRows(b: Grid)
    requires forall j | 0 <= j < |b| :: b[j] == []
    ensures TotalSum(b) == 0
    decreases |b|
  {
    if |b| > 0 {
      TotalSumEmptyRows(b[1..]);
    }
  }

  /** Transposing a rectangular grid keeps the sum of its cells. */
  lemma {:induction false} TotalSumTranspose(g: Grid, h: nat, w: nat)
    requires IsGrid(g, h, w)
    ensures TotalSum(Transpose(g)) == TotalSum(g)
    decreases h
  {
    if h == 1 {
      MinWidthOfGrid(g, h, w);
      var b: Grid := seq(w, _ => []);
      TotalSumEmptyRows(b);
      TotalSumPrependColumn(Transpose(g), b, g[0]);
      assert TotalSum(g) == Sum(g[0]) + TotalSum(g[1..]);
    } else if h > 1 {
      var rest := g[1..];
      assert IsGrid(rest, h - 1, w);
      MinWidthOfGrid(g, h, w);
      MinWidthOfGrid(rest, h - 1, w);
      var t, tr := Transpose(g), Transpose(rest);
      forall j | 0 <= j < w
        ensures t[j] == [g[0][j]] + tr[j]
      {
      }
      TotalSumPrependColumn(t, tr, g[0]);
      TotalSumTranspose(rest, h - 1, w);
    }
  }
}
