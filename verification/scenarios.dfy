/**
 * A worked opening move on the default 4 by 4 board: [2, 2, 0, 0] in the top
 * row, everything else empty, moved left.
 */
module Scenarios {
  import opened Grids
  import opened Slide
  import opened Moves
  import opened Actions
  import opened Field
  import opened Results

  const Z: Row := [0, 0, 0, 0]

  /** The board before the move. */
  function Opening(): GameField {
    GameField(4, 4, 2048, 0, 0, [[2, 2, 0, 0], Z, Z, Z])
  }

  /** The pair merges into a 4 at the left and earns 4. */
  lemma PairMergesLeft()
    ensures MoveRowLeft([2, 2, 0, 0]) == Slid([4, 0, 0, 0], 4)
  {
    var row: Row := [2, 2, 0, 0];
    MoveRowLeftIsPackedCombine(row);
    assert row[1..] == [2, 0, 0] && row[1..][1..] == [0, 0] && [0, 0][1..] == [0];
    assert NonZeros(row) == [2, 2];
    assert [2, 2][2..] == [];
  }

  /** An empty row slides to itself and earns nothing. */
  lemma EmptyRowStays()
    ensures MoveRowLeft(Z) == Slid(Z, 0)
  {
    MoveRowLeftIsPackedCombine(Z);
    assert Z == Zeros(4);
    NonZerosOfZeros(4);
  }

  /** The left move of the whole board, before the spawn. */
  lemma OpeningMovedLeft()
    ensures MoveGrid(Opening().grid, Left) == [[4, 0, 0, 0], Z, Z, Z]
    ensures MoveGain(Opening().grid, Left) == 4
  {
    OpeningRowsMovedLeft();
    OpeningRowsGainFour();
  }

  lemma OpeningRowsMovedLeft()
    ensures MoveLeft([[2, 2, 0, 0], Z, Z, Z]) == [[4, 0, 0, 0], Z, Z, Z]
  {
    var g: Grid := [[2, 2, 0, 0], Z, Z, Z];
    PairMergesLeft();
    EmptyRowStays();
    var x := MoveLeft(g);
    assert x[0] == [4, 0, 0, 0] && x[1] == Z && x[2] == Z && x[3] == Z;
  }

  lemma OpeningRowsGainFour()
    ensures GainLeft([[2, 2, 0, 0], Z, Z, Z]) == 4
  {
    var g: Grid := [[2, 2, 0, 0], Z, Z, Z];
    PairMergesLeft();
    EmptyRowStays();
    assert g[1..] == [Z, Z, Z] && [Z, Z, Z][1..] == [Z, Z] && [Z, Z][1..] == [Z] && [Z][1..] == [];
    assert GainLeft([Z]) == 0;
    assert GainLeft([Z, Z]) == 0;
    assert GainLeft([Z, Z, Z]) == 0;
  }

  /** The board right after the move holds one tile, the 4 in the corner. */
  lemma CornerCount()
    ensures CountTiles([[4, 0, 0, 0], Z, Z, Z]) == 1
  {
    var m: Grid := [[4, 0, 0, 0], Z, Z, Z];
    assert NonZeros([4, 0, 0, 0]) == [4] by {
      assert [4, 0, 0, 0][1..] == [0, 0, 0];
      assert [0, 0, 0] == Zeros(3);
      NonZerosOfZeros(3);
    }
    assert Z == Zeros(4);
    NonZerosOfZeros(4);
    assert [Z][1..] == [] && [Z, Z][1..] == [Z] && [Z, Z, Z][1..] == [Z, Z] && m[1..] == [Z, Z, Z];
    assert CountTiles([Z]) == 0;
    assert CountTiles([Z, Z]) == 0;
    assert CountTiles([Z, Z, Z]) == 0;
  }

  /** The spawn after the move leaves the corner alone and adds the second tile. */
  lemma SpawnBesideCorner(draw: Draw)
    ensures HasEmptyCell([[4, 0, 0, 0], Z, Z, Z])
    ensures SpawnAt([[4, 0, 0, 0], Z, Z, Z], draw)[0][0] == 4
    ensures CountTiles(SpawnAt([[4, 0, 0, 0], Z, Z, Z], draw)) == 2
  {
    var m: Grid := [[4, 0, 0, 0], Z, Z, Z];
    assert m[0][1] == 0;
    CornerCount();
    SpawnAddsOneTile(m, draw);
    var c := ChosenCell(m, draw);
    assert c != Cell(0, 0);
  }

  /**
   * Moving left succeeds, scores 4, keeps the new 4 in the corner and
   * spawns the next tile on one of the fifteen empty cells.
   */
  lemma OpeningLeftScoresFour(draw: Draw)
    ensures Move(Opening(), Left, draw).moved
    ensures Move(Opening(), Left, draw).field.score == 4
    ensures Move(Opening(), Left, draw).field.grid[0][0] == 4
    ensures CountTiles(Move(Opening(), Left, draw).field.grid) == 2
  {
    OpeningMoveOutcome(draw);
    SpawnBesideCorner(draw);
    var m: Grid := [[4, 0, 0, 0], Z, Z, Z];
    assert Spawn(m, draw) == Ok(SpawnAt(m, draw));
  }

  /** The move succeeds, adds the pair's 4 to the score, and spawns on the slid board. */
  lemma OpeningMoveOutcome(draw: Draw)
    ensures Valid(Opening())
    ensures var r := Move(Opening(), Left, draw);
      r.moved && r.field.score == 4 && Spawn([[4, 0, 0, 0], Z, Z, Z], draw) == Ok(r.field.grid)
  {
    OpeningIsValid();
    OpeningMovedLeft();
    var m: Grid := [[4, 0, 0, 0], Z, Z, Z];
    assert m != Opening().grid by {
      assert m[0][0] != Opening().grid[0][0];
    }
  }

  lemma OpeningIsValid()
    ensures Valid(Opening())
  {
    var g := Opening().grid;
    assert |g[0]| == 4 && |g[1]| == 4 && |g[2]| == 4 && |g[3]| == 4;
  }
}
