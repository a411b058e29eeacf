/**
 * Four places where 2048_1.py does not do what it evidently means, each
 * modelled as written next to the intended behaviour that the rest of the
 * model uses:
 *  - spawn builds its candidate list with the bounds swapped, indexing
 *    field[i][j] with i below the width and j below the height;
 *  - the GameField constructor reads an undefined name for the width;
 *  - draw prints the movement keys from an undefined name;
 *  - the loop's handler table spells the game-over key 'Gamwover'.
 */
module AsWritten {
  import opened Grids
  import opened Slide
  import opened Moves
  import opened Actions
  import opened Results
  import opened Field
  import opened Stuck
  import opened StateMachine

  /** How the program as written stops. */
  datatype Crash =
    | NameError   // a name that is not defined
    | KeyError    // a dictionary lookup with a missing key
    | IndexError  // a list index past the end, from spawn's scan

  // ---------------------------------------------------------------------
  // spawn's candidate list

  /** The inner comprehension loop: j over [0, n) for one i, reading field[i][j]. */
  function InnerScan(g: Grid, i: nat, n: nat): (r: Result<seq<Cell>, Error>)
    ensures r.Ok? ==> forall c :: c in r.value <==> c.row == i && c.col < n && IsEmptyCell(g, c)
    ensures r.Err? ==> r.error == IndexOutOfRange
  {
    if n == 0 then Ok([])
    else
      match InnerScan(g, i, n - 1)
      case Err(e) => Err(e)
      case Ok(cells) =>
        if i >= |g| || n - 1 >= |g[i]| then Err(IndexOutOfRange)
        else Ok(cells + (if g[i][n - 1] == 0 then [Cell(i, n - 1)] else []))
  }

  /** The outer loop: i over [0, m), each followed by the inner loop to n. */
  function OuterScan(g: Grid, m: nat, n: nat): (r: Result<seq<Cell>, Error>)
    ensures r.Ok? ==> forall c :: c in r.value <==> c.row < m && c.col < n && IsEmptyCell(g, c)
    ensures r.Err? ==> r.error == IndexOutOfRange
  {
    if m == 0 then Ok([])
    else
      match OuterScan(g, m - 1, n)
      case Err(e) => Err(e)
      case Ok(cells) =>
        match InnerScan(g, m - 1, n)
        case Err(e) => Err(e)
        case Ok(more) => Ok(cells + more)
  }

  /** spawn's candidate list as written: rows bounded by the width, columns by the height. */
  function CandidatesAsWritten(f: GameField): (r: Result<seq<Cell>, Error>)
    ensures r.Ok? ==> forall c :: c in r.value <==> c.row < f.width && c.col < f.height && IsEmptyCell(f.grid, c)
    ensures r.Err? ==> r.error == IndexOutOfRange
  {
    OuterScan(f.grid, f.width, f.height)
  }

  /** spawn as written: the candidate scan, then the choice and the placement. */
  function SpawnAsWritten(f: GameField, draw: Draw): (r: Result<Grid, Error>)
    ensures r.Ok? <==> CandidatesAsWritten(f).Ok? && |CandidatesAsWritten(f).value| > 0
    ensures r.Err? ==> r.error == IndexOutOfRange || r.error == NoEmptyCell
    ensures r.Ok? ==>
      exists c :: c in CandidatesAsWritten(f).value && PlacedAt(f.grid, r.value, c, draw.Value())
  {
    match CandidatesAsWritten(f)
    case Err(e) => Err(e)
    case Ok(cells) =>
      if |cells| == 0 then Err(NoEmptyCell)
      else
        var c := cells[draw.slot % |cells|];
        assert c in cells;
        var row: Row := f.grid[c.row][c.col := draw.Value()];
        var placed := f.grid[c.row := row];
        assert PlacedAt(f.grid, placed, c, draw.Value());
        Ok(placed)
  }

  /** Within a row, the inner loop lists the row's empty cells in order. */
  lemma {:induction false} InnerScanInRange(g: Grid, i: nat, n: nat)
    requires i < |g| && n <= |g[i]|
    ensures InnerScan(g, i, n) == Ok(RowEmptyCells(g[i], i, n))
  {
    if n > 0 {
      InnerScanInRange(g, i, n - 1);
    }
  }

  /** Past the last row, or past the end of the row, the inner loop raises. */
  lemma {:induction false} InnerScanOutOfRange(g: Grid, i: nat, n: nat)
    requires i >= |g| || n > |g[i]|
    requires n > 0
    ensures InnerScan(g, i, n) == Err(IndexOutOfRange)
  {
    if n - 1 > 0 && (i >= |g| || n - 1 > |g[i]|) {
      InnerScanOutOfRange(g, i, n - 1);
    }
  }

  /** On rows of width n, the outer loop lists the empty cells of the first m rows in order. */
  lemma {:induction false} OuterScanInRange(g: Grid, m: nat, n: nat)
    requires m <= |g| && forall i | 0 <= i < |g| :: |g[i]| == n
    ensures OuterScan(g, m, n) == Ok(EmptyCellsUpTo(g, m))
  {
    if m > 0 {
      OuterScanInRange(g, m - 1, n);
      InnerScanInRange(g, m - 1, n);
    }
  }

  /** Once the outer loop has raised, further rows do not undo it. */
  lemma {:induction false} OuterScanStaysFailed(g: Grid, m: nat, k: nat, n: nat)
    requires m <= k && OuterScan(g, m, n).Err?
    ensures OuterScan(g, k, n) == OuterScan(g, m, n)
    decreases k - m
  {
    if m < k {
      OuterScanStaysFailed(g, m, k - 1, n);
    }
  }

  /** On a square field the swapped bounds do no harm: the list is the intended one. */
  lemma CandidatesOnSquare(f: GameField)
    requires Valid(f) && f.height == f.width
    ensures CandidatesAsWritten(f) == Ok(EmptyCells(f.grid))
  {
    OuterScanInRange(f.grid, f.height, f.width);
  }

  /** On a reset-shaped field the scan as written raises exactly when the field is not square. */
  lemma ScanFailsIffOffSquare(f: GameField)
    requires Valid(f)
    ensures CandidatesAsWritten(f).Err? <==> f.height != f.width
  {
    if f.height == f.width {
      CandidatesOnSquare(f);
    } else {
      CandidatesOffSquare(f);
    }
  }

  /** On any field that is not square the scan as written raises, empty cells or not. */
  lemma CandidatesOffSquare(f: GameField)
    requires Valid(f) && f.height != f.width
    ensures CandidatesAsWritten(f) == Err(IndexOutOfRange)
  {
    var g, h, w := f.grid, f.height, f.width;
    if w > h {
      // the row index reaches h, one past the last row
      InnerScanOutOfRange(g, h, h);
      OuterScanStaysFailed(g, h + 1, w, h);
    } else {
      // the column index reaches w, one past the end of the first row
      InnerScanOutOfRange(g, 0, h);
      OuterScanStaysFailed(g, 1, w, h);
    }
  }

  /** The two agree where the program's own 4 by 4 board is concerned, and differ elsewhere. */
  lemma SpawnAsWrittenAgreesOnSquare(f: GameField, draw: Draw)
    requires Valid(f) && f.height == f.width
    ensures SpawnAsWritten(f, draw) == Spawn(f.grid, draw)
  {
    CandidatesOnSquare(f);
  }

  /** A 2 by 3 field with five empty cells: the intended spawn places a tile, the written one raises. */
  lemma SpawnAsWrittenFailsOnTwoByThree(draw: Draw)
    ensures Spawn(ZeroGrid(2, 3), draw).Ok?
    ensures SpawnAsWritten(GameField(2, 3, 2048, 0, 0, ZeroGrid(2, 3)), draw) == Err(IndexOutOfRange)
  {
    var f := GameField(2, 3, 2048, 0, 0, ZeroGrid(2, 3));
    assert ZeroGrid(2, 3)[0][0] == 0;
    CandidatesOffSquare(f);
  }

  // ---------------------------------------------------------------------
  // The constructor's width

  /** GameField(height, width, win) as written: the width is read from an undefined name. */
  function NewFieldAsWritten(height: nat, width: nat, win: nat, first: Draw, second: Draw)
    : (r: Result<GameField, Crash>)
    ensures r.Err? && r.error == NameError
  {
    Err(NameError)
  }

  /**
   * Every field the intended constructor builds, with the requested height
   * and width, the written one fails to build.
   */
  lemma UndefinedWidthBreaksEveryField(height: nat, width: nat, win: nat, first: Draw, second: Draw)
    requires TwoCells(height, width)
    ensures NewField(height, width, win, first, second).Ok?
    ensures NewField(height, width, win, first, second).value.height == height
    ensures NewField(height, width, win, first, second).value.width == width
    ensures NewFieldAsWritten(height, width, win, first, second) == Err(NameError)
  {
  }

  // ---------------------------------------------------------------------
  // draw's closing line

  /** draw's closing line as written: the movement keys are read from an undefined name. */
  function BannerAsWritten(f: GameField): (r: Result<Banner, Crash>)
    ensures r.Ok? ==> r.value == BannerOf(f)
    ensures r.Err? <==> !IsWin(f) && !IsGameover(f)
    ensures r.Err? ==> r.error == NameError
  {
    var b := BannerOf(f);
    if b == HelpBanner then Err(NameError) else Ok(b)
  }

  // ---------------------------------------------------------------------
  // The handler table

  /** The name main gives each state. */
  function StateName(s: State): string {
    match s
    case Init => "Init"
    case Game => "Game"
    case Win => "Win"
    case Gameover => "Gameover"
    case Exit => "Exit"
  }

  /** The keys of state_actions as written. */
  const HandlerKeys: set<string> := {"Init", "Win", "Gamwover", "Game"}

  /**
   * The passes of the loop that call spawn: init's reset, and a move in the
   * game state that changes the board.
   */
  predicate Spawns(m: Machine, action: Action, dice: Dice)
    requires Valid(m.field)
  {
    m.state == Init
    || (m.state == Game && action.Go? && Move(m.field, action.dir, dice.first).moved)
  }

  /**
   * One pass of the loop as written: a state without a handler raises on
   * lookup; the game and win handlers draw the board before reading the
   * action, and drawing a board that is neither won nor lost raises; a pass
   * that spawns raises in the swapped scan when the field is not square,
   * since the scan fails or not by the field's shape alone.
   */
  function StepAsWritten(m: Machine, action: Action, dice: Dice): (r: Result<Machine, Crash>)
    requires Valid(m.field)
    ensures r.Ok? ==> r.value == Step(m, action, dice)
    ensures r.Err? ==> r.error == KeyError || r.error == NameError || r.error == IndexError
    ensures r == Err(IndexError) ==> Spawns(m, action, dice) && CandidatesAsWritten(m.field).Err?
    ensures r.Ok? && Spawns(m, action, dice) ==> CandidatesAsWritten(m.field).Ok?
  {
    ScanFailsIffOffSquare(m.field);
    if m.state == State.Exit then Ok(m)
    else if StateName(m.state) !in HandlerKeys then Err(KeyError)
    else if m.state != Init && BannerAsWritten(m.field).Err? then Err(NameError)
    else if Spawns(m, action, dice) && m.field.height != m.field.width then Err(IndexError)
    else Ok(Step(m, action, dice))
  }

  /** Only the game-over state lacks a handler. */
  lemma OnlyGameoverLacksHandler(m: Machine, action: Action, dice: Dice)
    requires Valid(m.field)
    ensures StepAsWritten(m, action, dice) == Err(KeyError) <==> m.state == Gameover
  {
    assert StateName(Gameover) !in HandlerKeys by {
      assert "Gameover" != "Gamwover" by {
        assert "Gameover"[3] != "Gamwover"[3];
      }
    }
    assert StateName(Init) in HandlerKeys;
    assert StateName(Game) in HandlerKeys;
    assert StateName(Win) in HandlerKeys;
  }

  /**
   * In the game and win states the loop as written raises exactly on a board
   * that is neither won nor lost; Init and Exit never draw. Exit never
   * fails, and Init fails, in the reset's spawn, exactly on a field that is
   * not square.
   */
  lemma DrawCrashIffLiveBoard(m: Machine, action: Action, dice: Dice)
    requires Valid(m.field)
    ensures m.state == Game || m.state == Win ==>
      (StepAsWritten(m, action, dice) == Err(NameError) <==> !IsWin(m.field) && !IsGameover(m.field))
    ensures m.state == State.Exit ==> StepAsWritten(m, action, dice).Ok?
    ensures m.state == Init ==>
      && (StepAsWritten(m, action, dice).Ok? <==> m.field.height == m.field.width)
      && (m.field.height != m.field.width ==> StepAsWritten(m, action, dice) == Err(IndexError))
  {
    assert StateName(Init) in HandlerKeys;
    assert StateName(Game) in HandlerKeys;
    assert StateName(Win) in HandlerKeys;
  }

  /**
   * Every game crashes on its first move: after the start and the reset, the
   * loop as written raises in draw before reading the player's action.
   */
  lemma EveryGameCrashesInDraw(dice: Dice, first: Action, second: Action, next: Dice)
    ensures var m := Step(Start(dice), first, dice);
      m.state == Game && StepAsWritten(m, second, next) == Err(NameError)
  {
    var m := Step(Start(dice), first, dice);
    var f := m.field;
    assert IsGrid(f.grid, 4, 4) && SmallValues(f.grid, 4, 4);
    assert !IsWin(f) by {
      forall i, j | 0 <= i < |f.grid| && 0 <= j < |f.grid[i]|
        ensures f.grid[i][j] < f.winValue
      {
        assert f.grid[i][j] in {0, 2, 4};
      }
    }
    RoomyBoardIsNotOver(f);
    DrawCrashIffLiveBoard(m, second, next);
  }

  /** The 2 by 2 board [[2, 4], [0, 8]], one move to the left from the end. */
  function NearlyLost(): GameField {
    GameField(2, 2, 2048, 0, 0, [[2, 4], [0, 8]])
  }

  /** The board that move leaves once a 2 is spawned: full, no two neighbours equal. */
  function Lost(): GameField {
    NearlyLost().(grid := [[2, 4], [8, 2]])
  }

  /** [2, 4] cannot slide; [0, 8] slides to [8, 0]; neither scores. */
  lemma SlideRowsOfNearlyLost()
    ensures MoveRowLeft([2, 4]) == Slid([2, 4], 0)
    ensures MoveRowLeft([0, 8]) == Slid([8, 0], 0)
  {
    StuckRowStays([2, 4]);
    assert [0, 8][1..] == [8];
    assert NonZeros([0, 8]) == [8];
  }

  /** Moving [[2, 4], [0, 8]] left gives [[2, 4], [8, 0]] and scores nothing. */
  lemma NearlyLostMovedLeft()
    ensures MoveGrid([[2, 4], [0, 8]], Left) == [[2, 4], [8, 0]]
    ensures MoveGain([[2, 4], [0, 8]], Left) == 0
  {
    var g: Grid := [[2, 4], [0, 8]];
    SlideRowsOfNearlyLost();
    assert MoveLeft(g) == [[2, 4], [8, 0]];
    assert g[1..] == [[0, 8]] && g[1..][1..] == [];
  }

  /** The only empty cell of [[2, 4], [8, 0]] takes the spawned 2, as written and as intended. */
  lemma SpawnTwoIntoCorner()
    ensures Spawn([[2, 4], [8, 0]], Draw(0, false)) == Ok([[2, 4], [8, 2]])
    ensures SpawnAsWritten(NearlyLost().(grid := [[2, 4], [8, 0]]), Draw(0, false)) == Ok([[2, 4], [8, 2]])
  {
    var g: Grid := [[2, 4], [8, 0]];
    assert g[1][1] == 0;
    assert EmptyCells(g) == [Cell(1, 1)] by {
      assert RowEmptyCells(g[0], 0, 1) == [];
      assert RowEmptyCells(g[0], 0, 2) == [];
      assert RowEmptyCells(g[1], 1, 1) == [];
      assert RowEmptyCells(g[1], 1, 2) == [Cell(1, 1)];
      assert EmptyCellsUpTo(g, 1) == [];
      assert EmptyCellsUpTo(g, 2) == [Cell(1, 1)];
    }
    assert ChosenCell(g, Draw(0, false)) == Cell(1, 1);
    assert g[1][1 := 2] == [8, 2];
    assert SpawnAt(g, Draw(0, false)) == [[2, 4], [8, 2]];
    SpawnAsWrittenAgreesOnSquare(NearlyLost().(grid := g), Draw(0, false));
  }

  /** The move left on [[2, 4], [0, 8]], with a 2 drawn. */
  lemma MoveNearlyLostLeft()
    ensures Move(NearlyLost(), Left, Draw(0, false)) == MoveOutcome(Lost(), true)
  {
    NearlyLostMovedLeft();
    SpawnTwoIntoCorner();
  }

  /** [[2, 4], [8, 2]] is not a win and nothing on it can move. */
  lemma LostIsOver()
    ensures !IsWin(Lost())
    ensures IsGameover(Lost())
  {
    var f := Lost();
    assert Valid(f);
    assert f.grid[0][0] != 0 && f.grid[0][1] != 0 && f.grid[1][0] != 0 && f.grid[1][1] != 0;
    assert !HasEmptyCell(f.grid);
    assert NoEqualNeighbours(f.grid);
  }

  /**
   * On the square board [[2, 4], [0, 8]], moving left and spawning a 2 in the
   * freed cell blocks the board: game over. The spawn as written places the
   * same tile, so only the constructor and the closing line of draw stand
   * between the program as written and this state.
   */
  lemma GameoverIsReachable()
    ensures Step(Machine(Game, NearlyLost()), Go(Left), Dice(Draw(0, false), Draw(0, false)))
      == Machine(Gameover, Lost())
    ensures SpawnAsWritten(NearlyLost().(grid := MoveGrid(NearlyLost().grid, Left)), Draw(0, false))
      == Ok(Lost().grid)
  {
    NearlyLostMovedLeft();
    SpawnTwoIntoCorner();
    MoveNearlyLostLeft();
    LostIsOver();
  }

  /** The loop as written crashes on the game-over board that the intended loop reaches. */
  lemma ReachedGameoverCrashes(action: Action, dice: Dice)
    ensures StepAsWritten(Machine(Gameover, Lost()), action, dice) == Err(KeyError)
  {
    OnlyGameoverLacksHandler(Machine(Gameover, Lost()), action, dice);
  }
}
