/**
 * The game field (GameField in 2048_1.py): the grid, the current score, the
 * best score seen across resets and the winning tile value, with spawn,
 * reset, move and the win and game-over tests.
 */
module Field {
  import opened Grids
  import opened Slide
  import opened Moves
  import opened Actions
  import opened Results
  import opened Stuck

  /**
   * The random choices of one spawn, supplied by the caller: `slot` picks
   * among the empty cells (reduced modulo their number, so every empty cell
   * can be picked) and `four` stands for the draw that yields a 4 instead of
   * a 2.
   */
  datatype Draw = Draw(slot: nat, four: bool) {
    function Value(): nat {
      if four then 4 else 2
    }
  }

  /** A position on the grid. */
  datatype Cell = Cell(row: nat, col: nat)

  /** The exceptions the field operations can raise. */
  datatype Error =
    | NoEmptyCell      // choice() on an empty list
    | IndexOutOfRange  // a grid index past the end of a list

  datatype GameField = GameField(
    height: nat,
    width: nat,
    winValue: nat,
    score: nat,
    highscore: nat,
    grid: Grid)

  /** The field has at least two cells, so a reset can place its two tiles. */
  predicate TwoCells(height: nat, width: nat) {
    height > 0 && width > 0 && (height >= 2 || width >= 2)
  }

  /** A field as reset leaves it: a height by width grid with room for two tiles. */
  predicate Valid(f: GameField) {
    IsGrid(f.grid, f.height, f.width) && TwoCells(f.height, f.width)
  }

  predicate InGrid(g: Grid, c: Cell) {
    c.row < |g| && c.col < |g[c.row]|
  }

  predicate IsEmptyCell(g: Grid, c: Cell) {
    InGrid(g, c) && g[c.row][c.col] == 0
  }

  /** The number of tiles (nonzero cells) on the grid. */
  function CountTiles(g: Grid): nat {
    if |g| == 0 then 0 else |NonZeros(g[0])| + CountTiles(g[1..])
  }

  // ---------------------------------------------------------------------
  // Empty cells and spawning

  /** The empty cells among the first n cells of row i, left to right. */
  function RowEmptyCells(row: Row, i: nat, n: nat): (cells: seq<Cell>)
    requires n <= |row|
    ensures forall c :: c in cells <==> c.row == i && c.col < n && row[c.col] == 0
  {
    if n == 0 then []
    else RowEmptyCells(row, i, n - 1) + (if row[n - 1] == 0 then [Cell(i, n - 1)] else [])
  }

  /** The empty cells of the first n rows, in row-major order. */
  function EmptyCellsUpTo(g: Grid, n: nat): (cells: seq<Cell>)
    requires n <= |g|
    ensures forall c :: c in cells <==> c.row < n && IsEmptyCell(g, c)
  {
    if n == 0 then []
    else EmptyCellsUpTo(g, n - 1) + RowEmptyCells(g[n - 1], n - 1, |g[n - 1]|)
  }

  /** The list spawn chooses from: every empty cell of the grid, in row-major order. */
  function EmptyCells(g: Grid): (cells: seq<Cell>)
    ensures forall c :: c in cells <==> IsEmptyCell(g, c)
    ensures |cells| > 0 <==> HasEmptyCell(g)
  {
    var cells := EmptyCellsUpTo(g, |g|);
    if HasEmptyCell(g) then
      var i, j :| 0 <= i < |g| && 0 <= j < |g[i]| && g[i][j] == 0;
      assert Cell(i, j) in cells;
      cells
    else
      assert |cells| > 0 ==> cells[0] in cells;
      cells
  }

  /** The cell the spawn's draw picks. */
  function ChosenCell(g: Grid, draw: Draw): (c: Cell)
    requires HasEmptyCell(g)
    ensures IsEmptyCell(g, c)
  {
    var cells := EmptyCells(g);
    cells[draw.slot % |cells|]
  }

  /** r is g with the empty cell c set to v and every other cell as it was. */
  predicate PlacedAt(g: Grid, r: Grid, c: Cell, v: nat) {
    && IsEmptyCell(g, c)
    && |r| == |g|
    && (forall i | 0 <= i < |g| :: |r[i]| == |g[i]|)
    && r[c.row][c.col] == v
    && (forall i, j | 0 <= i < |g| && 0 <= j < |g[i]| && Cell(i, j) != c :: r[i][j] == g[i][j])
  }

  /** spawn on a grid known to have an empty cell. */
  function SpawnAt(g: Grid, draw: Draw): (r: Grid)
    requires HasEmptyCell(g)
    ensures PlacedAt(g, r, ChosenCell(g, draw), draw.Value())
    ensures draw.Value() == 2 || draw.Value() == 4
  {
    var c := ChosenCell(g, draw);
    var row: Row := g[c.row][c.col := draw.Value()];
    g[c.row := row]
  }

  /**
   * spawn: a 2 or a 4 in one empty cell; on a full grid the choice among no
   * cells fails.
   */
  function Spawn(g: Grid, draw: Draw): (r: Result<Grid, Error>)
    ensures r.Ok? <==> HasEmptyCell(g)
    ensures r.Err? ==> r.error == NoEmptyCell
    ensures r.Ok? ==> exists c :: PlacedAt(g, r.value, c, draw.Value())
  {
    if HasEmptyCell(g) then Ok(SpawnAt(g, draw)) else Err(NoEmptyCell)
  }

  /** Whatever empty cell there is, some draw spawns into it. */
  lemma SpawnCanReachEveryEmptyCell(g: Grid, c: Cell, four: bool)
    requires IsEmptyCell(g, c)
    ensures exists slot: nat :: ChosenCell(g, Draw(slot, four)) == c
  {
    var cells := EmptyCells(g);
    assert HasEmptyCell(g) && c in cells;
    var k :| 0 <= k < |cells| && cells[k] == c;
    assert k % |cells| == k;
    assert ChosenCell(g, Draw(k, four)) == cells[k];
  }

  lemma {:induction false} PlaceInRowCounts(row: Row, j: nat, v: nat)
    requires j < |row| && row[j] == 0 && v != 0
    ensures |NonZeros(row[j := v])| == |NonZeros(row)| + 1
    ensures Sum(row[j := v]) == Sum(row) + v
    decreases |row|
  {
    if j > 0 {
      assert row[j := v][1..] == row[1..][j - 1 := v];
      PlaceInRowCounts(row[1..], j - 1, v);
    } else {
      assert row[j := v][1..] == row[1..];
    }
  }

  lemma {:induction false} ReplaceRowCounts(g: Grid, i: nat, r: Row)
    requires i < |g|
    ensures CountTiles(g[i := r]) + |NonZeros(g[i])| == CountTiles(g) + |NonZeros(r)|
    ensures TotalSum(g[i := r]) + Sum(g[i]) == TotalSum(g) + Sum(r)
    decreases |g|
  {
    if i > 0 {
      assert g[i := r][1..] == g[1..][i - 1 := r];
      ReplaceRowCounts(g[1..], i - 1, r);
    } else {
      assert g[i := r][1..] == g[1..];
    }
  }

  /** A spawn adds exactly one tile, adds its value to the sum, and keeps tiles powers of two. */
  lemma SpawnAddsOneTile(g: Grid, draw: Draw)
    requires HasEmptyCell(g)
    ensures CountTiles(SpawnAt(g, draw)) == CountTiles(g) + 1
    ensures TotalSum(SpawnAt(g, draw)) == TotalSum(g) + draw.Value()
    ensures AllTiles(g) ==> AllTiles(SpawnAt(g, draw))
  {
    var c := ChosenCell(g, draw);
    var row: Row := g[c.row][c.col := draw.Value()];
    PlaceInRowCounts(g[c.row], c.col, draw.Value());
    ReplaceRowCounts(g, c.row, row);
    assert SpawnAt(g, draw) == g[c.row := row];
    if AllTiles(g) {
      assert IsTile(draw.Value()) by {
        assert draw.Value() / 2 == 1 || draw.Value() / 2 == 2;
        assert IsPowerOfTwo(2);
      }
    }
  }

  // ---------------------------------------------------------------------
  // Reset

  /** A height by width grid of empty cells. */
  function ZeroGrid(height: nat, width: nat): (g: Grid)
    ensures IsGrid(g, height, width)
    ensures forall i, j | 0 <= i < height && 0 <= j < width :: g[i][j] == 0
  {
    seq(height, _ => Zeros(width))
  }

  lemma {:induction false} ZeroGridHasNoTiles(height: nat, width: nat)
    ensures CountTiles(ZeroGrid(height, width)) == 0
    ensures TotalSum(ZeroGrid(height, width)) == 0
    decreases height
  {
    NonZerosOfZeros(width);
    SumZeros(width);
    if height > 0 {
      assert ZeroGrid(height, width)[1..] == ZeroGrid(height - 1, width);
      ZeroGridHasNoTiles(height - 1, width);
    }
  }

  /** After the first spawn of a reset, an empty cell is left exactly when the grid has two cells. */
  lemma SecondSpawnRoom(height: nat, width: nat, draw: Draw)
    requires height > 0 && width > 0
    ensures HasEmptyCell(ZeroGrid(height, width))
    ensures HasEmptyCell(SpawnAt(ZeroGrid(height, width), draw)) <==> TwoCells(height, width)
  {
    var z := ZeroGrid(height, width);
    assert z[0][0] == 0;
    var g1 := SpawnAt(z, draw);
    var c := ChosenCell(z, draw);
    if width >= 2 {
      var other := Cell(c.row, if c.col == 0 then 1 else 0);
      assert g1[other.row][other.col] == 0;
    } else if height >= 2 {
      var other := Cell(if c.row == 0 then 1 else 0, c.col);
      assert g1[other.row][other.col] == 0;
    } else {
      assert c == Cell(0, 0);
    }
  }

  /** Both spawns of a reset on a grid with two cells: two tiles of 2 or 4, everything else empty. */
  lemma TwoSpawnsOnEmptyGrid(height: nat, width: nat, first: Draw, second: Draw)
    requires TwoCells(height, width)
    ensures HasEmptyCell(ZeroGrid(height, width))
    ensures HasEmptyCell(SpawnAt(ZeroGrid(height, width), first))
    ensures var g := SpawnAt(SpawnAt(ZeroGrid(height, width), first), second);
      && IsGrid(g, height, width)
      && CountTiles(g) == 2
      && TotalSum(g) >= 4
      && AllTiles(g)
      && SmallValues(g, height, width)
  {
    var z := ZeroGrid(height, width);
    SecondSpawnRoom(height, width, first);
    var g1 := SpawnAt(z, first);
    ZeroGridHasNoTiles(height, width);
    SpawnAddsOneTile(z, first);
    SpawnAddsOneTile(g1, second);
    SpawnKeepsSmallValues(z, height, width, first);
    SpawnKeepsSmallValues(g1, height, width, second);
  }

  /** Every cell holds 0, 2 or 4. */
  predicate SmallValues(g: Grid, height: nat, width: nat)
    requires IsGrid(g, height, width)
  {
    forall i, j | 0 <= i < height && 0 <= j < width :: g[i][j] in {0, 2, 4}
  }

  /** A spawn keeps a grid's shape and its cells among 0, 2 and 4. */
  lemma SpawnKeepsSmallValues(g: Grid, height: nat, width: nat, draw: Draw)
    requires IsGrid(g, height, width) && HasEmptyCell(g)
    requires SmallValues(g, height, width)
    ensures IsGrid(SpawnAt(g, draw), height, width)
    ensures SmallValues(SpawnAt(g, draw), height, width)
  {
  }

  /** The grid a reset leaves: empty, then two spawns; fails when there is no room for both. */
  function FreshGrid(height: nat, width: nat, first: Draw, second: Draw)
    : (r: Result<Grid, Error>)
    ensures r.Ok? <==> TwoCells(height, width)
    ensures r.Err? ==> r.error == NoEmptyCell
    ensures r.Ok? ==>
      && IsGrid(r.value, height, width)
      && CountTiles(r.value) == 2
      && TotalSum(r.value) >= 4
      && AllTiles(r.value)
      && SmallValues(r.value, height, width)
  {
    var z := ZeroGrid(height, width);
    if height > 0 && width > 0 then
      SecondSpawnRoom(height, width, first);
      var g1 := SpawnAt(z, first);
      if HasEmptyCell(g1) then
        TwoSpawnsOnEmptyGrid(height, width, first, second);
        Ok(SpawnAt(g1, second))
      else
        Err(NoEmptyCell)
    else
      assert !HasEmptyCell(z);
      Err(NoEmptyCell)
  }

  /**
   * reset: the best score absorbs the current one, the score restarts at 0
   * and the grid restarts empty with two spawned tiles; the second spawn
   * fails on a grid with fewer than two cells.
   */
  function Reset(f: GameField, first: Draw, second: Draw): (r: Result<GameField, Error>)
    ensures r.Ok? <==> TwoCells(f.height, f.width)
    ensures r.Err? ==> r.error == NoEmptyCell
    ensures r.Ok? ==>
      && r.value.height == f.height && r.value.width == f.width
      && r.value.winValue == f.winValue
      && r.value.score == 0
      && r.value.highscore >= f.highscore && r.value.highscore >= f.score
      && (r.value.highscore == f.highscore || r.value.highscore == f.score)
      && Valid(r.value)
      && CountTiles(r.value.grid) == 2
      && TotalSum(r.value.grid) >= 4
      && AllTiles(r.value.grid)
      && SmallValues(r.value.grid, f.height, f.width)
  {
    var highscore := if f.score > f.highscore then f.score else f.highscore;
    match FreshGrid(f.height, f.width, first, second)
    case Err(e) => Err(e)
    case Ok(g) => Ok(GameField(f.height, f.width, f.winValue, 0, highscore, g))
  }

  /** GameField(height, width, win): a fresh field with zero scores, then reset. */
  function NewField(height: nat, width: nat, win: nat, first: Draw, second: Draw)
    : (r: Result<GameField, Error>)
    ensures r.Ok? <==> TwoCells(height, width)
    ensures r.Ok? ==> Valid(r.value) && r.value.score == 0 && r.value.highscore == 0
    ensures r.Ok? ==> r.value.winValue == win && CountTiles(r.value.grid) == 2
    ensures r.Ok? ==> AllTiles(r.value.grid) && TotalSum(r.value.grid) >= 4
    ensures r.Ok? ==> r.value.height == height && r.value.width == width
    ensures r.Ok? ==> SmallValues(r.value.grid, height, width)
  {
    Reset(GameField(height, width, win, 0, 0, ZeroGrid(height, width)), first, second)
  }

  // ---------------------------------------------------------------------
  // Moving

  /** The outcome of move: the new field and whether anything moved. */
  datatype MoveOutcome = MoveOutcome(field: GameField, moved: bool)

  /** The field after a possible move and its spawn: same shape, sum grown by the new tile. */
  lemma PossibleMoveThenSpawn(g: Grid, h: nat, w: nat, d: Direction, draw: Draw)
    requires IsGrid(g, h, w) && h > 0 && w > 0 && MoveIsPossible(g, d)
    ensures HasEmptyCell(MoveGrid(g, d))
    ensures IsGrid(SpawnAt(MoveGrid(g, d), draw), h, w)
    ensures TotalSum(SpawnAt(MoveGrid(g, d), draw)) == TotalSum(g) + draw.Value()
    ensures AllTiles(g) ==> AllTiles(SpawnAt(MoveGrid(g, d), draw))
  {
    PossibleMoveLeavesEmptyCell(g, h, w, d);
    MoveGridShape(g, h, w, d);
    MoveKeepsSum(g, h, w, d);
    if AllTiles(g) {
      MoveKeepsTiles(g, h, w, d);
    }
    SpawnKeepsShape(MoveGrid(g, d), h, w, draw);
  }

  /** A spawn keeps the shape of the grid, adds its tile's value, and keeps tiles powers of two. */
  lemma SpawnKeepsShape(m: Grid, h: nat, w: nat, draw: Draw)
    requires IsGrid(m, h, w) && HasEmptyCell(m)
    ensures IsGrid(SpawnAt(m, draw), h, w)
    ensures TotalSum(SpawnAt(m, draw)) == TotalSum(m) + draw.Value()
    ensures AllTiles(m) ==> AllTiles(SpawnAt(m, draw))
  {
    SpawnAddsOneTile(m, draw);
  }

  /**
   * move: an impossible direction leaves the field alone and reports false;
   * a possible one slides the grid, adds the merges to the score, spawns
   * one tile and reports true.
   */
  function Move(f: GameField, d: Direction, draw: Draw): (r: MoveOutcome)
    requires Valid(f)
    ensures Valid(r.field)
    ensures r.moved <==> MoveGrid(f.grid, d) != f.grid
    ensures !r.moved ==> r.field == f
    ensures r.moved ==>
      && r.field.height == f.height && r.field.width == f.width
      && r.field.winValue == f.winValue && r.field.highscore == f.highscore
      && r.field.score == f.score + MoveGain(f.grid, d)
      && Spawn(MoveGrid(f.grid, d), draw) == Ok(r.field.grid)
      && TotalSum(r.field.grid) == TotalSum(f.grid) + draw.Value()
      && (AllTiles(f.grid) ==> AllTiles(r.field.grid))
  {
    MoveIsPossibleIffChanges(f.grid, f.height, f.width, d);
    if MoveIsPossible(f.grid, d) then
      PossibleMoveThenSpawn(f.grid, f.height, f.width, d, draw);
      var g := SpawnAt(MoveGrid(f.grid, d), draw);
      MoveOutcome(f.(grid := g, score := f.score + MoveGain(f.grid, d)), true)
    else
      MoveOutcome(f, false)
  }

  // ---------------------------------------------------------------------
  // End conditions

  /** Some cell of the row is at least v. */
  function RowReaches(row: Row, v: nat): (r: bool)
    ensures r <==> exists j | 0 <= j < |row| :: row[j] >= v
    decreases |row|
  {
    if |row| == 0 then false
    else if row[0] >= v then true
    else
      var rest := RowReaches(row[1..], v);
      assert forall j | 1 <= j < |row| :: row[j] == row[1..][j - 1];
      rest
  }

  /** Some cell of the grid is at least v. */
  function GridReaches(g: Grid, v: nat): (r: bool)
    ensures r <==> exists i, j | 0 <= i < |g| && 0 <= j < |g[i]| :: g[i][j] >= v
    decreases |g|
  {
    if |g| == 0 then false
    else if RowReaches(g[0], v) then true
    else
      var rest := GridReaches(g[1..], v);
      assert forall i | 1 <= i < |g| :: g[i] == g[1..][i - 1];
      rest
  }

  /** is_win: some tile has reached the winning value. */
  function IsWin(f: GameField): (r: bool)
    ensures r <==> exists i, j | 0 <= i < |f.grid| && 0 <= j < |f.grid[i]| ::
      f.grid[i][j] >= f.winValue
  {
    GridReaches(f.grid, f.winValue)
  }

  /** No direction can move exactly when every move would leave the grid as it is. */
  lemma NoMovePossibleIffNothingChanges(g: Grid, h: nat, w: nat)
    requires IsGrid(g, h, w) && h > 0 && w > 0
    ensures NoMovePossible(g) <==>
      && MoveGrid(g, Up) == g && MoveGrid(g, Left) == g
      && MoveGrid(g, Down) == g && MoveGrid(g, Right) == g
  {
    MoveIsPossibleIffChanges(g, h, w, Up);
    MoveIsPossibleIffChanges(g, h, w, Left);
    MoveIsPossibleIffChanges(g, h, w, Down);
    MoveIsPossibleIffChanges(g, h, w, Right);
  }

  /**
   * is_gameover: no direction can move, so every move would leave the grid
   * as it is; once a tile is on the grid, that is a full grid with no two
   * equal neighbours.
   */
  function IsGameover(f: GameField): (r: bool)
    ensures Valid(f) ==> (r <==>
      && MoveGrid(f.grid, Up) == f.grid && MoveGrid(f.grid, Left) == f.grid
      && MoveGrid(f.grid, Down) == f.grid && MoveGrid(f.grid, Right) == f.grid)
    ensures Valid(f) && HasTile(f.grid) ==>
      (r <==> !HasEmptyCell(f.grid) && NoEqualNeighbours(f.grid))
  {
    if Valid(f) then
      NoMovePossibleIffNothingChanges(f.grid, f.height, f.width);
      if HasTile(f.grid) then
        NoMovePossibleIffFullWithoutPairs(f.grid, f.height, f.width);
        NoMovePossible(f.grid)
      else
        NoMovePossible(f.grid)
    else
      NoMovePossible(f.grid)
  }

  // ---------------------------------------------------------------------
  // Drawing

  /** The line draw prints under the board before the restart/exit help. */
  datatype Banner = WinBanner | GameoverBanner | HelpBanner

  /**
   * draw's closing line: the win banner on a won board, otherwise the
   * game-over banner on a blocked board, otherwise the movement keys.
   */
  function BannerOf(f: GameField): (b: Banner)
    ensures b == WinBanner <==> IsWin(f)
    ensures b == GameoverBanner <==> !IsWin(f) && IsGameover(f)
    ensures b == HelpBanner <==> !IsWin(f) && !IsGameover(f)
  {
    if IsWin(f) then WinBanner
    else if IsGameover(f) then GameoverBanner
    else HelpBanner
  }

  /** A grid without empty cells holds a tile in every one of its cells. */
  lemma {:induction false} FullGridCount(g: Grid, h: nat, w: nat)
    requires IsGrid(g, h, w) && !HasEmptyCell(g)
    ensures CountTiles(g) == h * w
    decreases h
  {
    if h > 0 {
      assert NoZero(g[0]);
      NonZerosOfNoZero(g[0]);
      assert !HasEmptyCell(g[1..]);
      FullGridCount(g[1..], h - 1, w);
      assert h * w == w + (h - 1) * w;
    }
  }

  /** A blocked board with a tile shows the game-over banner only when it is full. */
  lemma RoomyBoardIsNotOver(f: GameField)
    requires Valid(f) && HasTile(f.grid)
    requires CountTiles(f.grid) < f.height * f.width
    ensures !IsGameover(f)
    ensures BannerOf(f) != GameoverBanner
  {
    if !HasEmptyCell(f.grid) {
      FullGridCount(f.grid, f.height, f.width);
    }
  }
}
