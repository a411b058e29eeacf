/**
 * The main loop of 2048_1.py as a pure transition function. Each step reads
 * one action (the Init state reads none) and the random draws it may need;
 * drawing the screen is left to the caller.
 */
module StateMachine {
  import opened Grids
  import opened Moves
  import opened Actions
  import opened Results
  import opened Field
  import opened Stuck

  datatype State = Init | Game | Win | Gameover | Exit

  /** The random draws of one step: a reset spawns twice, a move spawns once with `first`. */
  datatype Dice = Dice(first: Draw, second: Draw)

  datatype Machine = Machine(state: State, field: GameField)

  /** The board main builds: 4 by 4, won at 2048. */
  const Height: nat := 4
  const Width: nat := 4
  const WinValue: nat := 2048

  /** A field the game can be in: reset-shaped, only tile values, and at least one tile. */
  predicate Healthy(f: GameField) {
    Valid(f) && AllTiles(f.grid) && HasTile(f.grid)
  }

  /** The best score shown so far: the current score or the high score, whichever is larger. */
  function Best(f: GameField): nat {
    if f.score > f.highscore then f.score else f.highscore
  }

  /** The program's start: GameField(win=2048) builds and resets a field; the loop begins at Init. */
  function Start(dice: Dice): (m: Machine)
    ensures m.state == Init && Healthy(m.field)
    ensures m.field.height == Height && m.field.width == Width && m.field.winValue == WinValue
    ensures m.field.score == 0 && m.field.highscore == 0
  {
    var r := NewField(Height, Width, WinValue, dice.first, dice.second);
    SumPositiveHasTile(r.value.grid);
    Machine(Init, r.value)
  }

  /** A field after a reset in a step: healthy, since a reset spawns two tiles. */
  lemma ResetIsHealthy(f: GameField, dice: Dice)
    requires Valid(f)
    ensures Reset(f, dice.first, dice.second).Ok?
    ensures Healthy(Reset(f, dice.first, dice.second).value)
  {
    SumPositiveHasTile(Reset(f, dice.first, dice.second).value.grid);
  }

  /**
   * A move in the game state: an unchanged board stays in Game; otherwise
   * the moved field goes to Win when the winning value is on the board, else
   * to Gameover when no move is possible, else back to Game.
   */
  function Play(f: GameField, d: Direction, draw: Draw): (r: Machine)
    requires Valid(f)
    ensures Valid(r.field) && r.field == Move(f, d, draw).field
    ensures r.field == f <==> r.state == Game && MoveGrid(f.grid, d) == f.grid
    ensures r.state == Game || r.state == Win || r.state == Gameover
    ensures r.state == Win ==> IsWin(r.field)
    ensures r.state == Gameover ==> !IsWin(r.field) && IsGameover(r.field)
    ensures Move(f, d, draw).moved && IsWin(r.field) ==> r.state == Win
    ensures Move(f, d, draw).moved && !IsWin(r.field) ==>
      (r.state == Gameover <==> IsGameover(r.field))
    ensures r.field.highscore == f.highscore && Best(r.field) >= Best(f)
    ensures Healthy(f) ==> Healthy(r.field)
  {
    var o := Move(f, d, draw);
    assert Best(o.field) >= Best(f);
    assert Healthy(f) ==> Healthy(o.field) by {
      if Healthy(f) && o.moved {
        SumPositiveHasTile(o.field.grid);
      }
    }
    if !o.moved then Machine(Game, f)
    else if IsWin(o.field) then Machine(Win, o.field)
    else if IsGameover(o.field) then Machine(Gameover, o.field)
    else Machine(Game, o.field)
  }

  /**
   * One pass of the loop: init resets and plays on; game restarts, exits,
   * or moves and then checks win before game over; the win and game-over
   * screens only restart or exit and otherwise stay put; Exit ends the loop
   * and so never changes.
   */
  function Step(m: Machine, action: Action, dice: Dice): (r: Machine)
    requires Valid(m.field)
    ensures Valid(r.field)
    ensures m.state == Init ==>
      r.state == Game && Reset(m.field, dice.first, dice.second) == Ok(r.field)
    ensures m.state == State.Exit ==> r == m
    ensures m.state != Init && m.state != State.Exit && action == Restart ==>
      r == Machine(Init, m.field)
    ensures m.state != Init && m.state != State.Exit && action == Action.Exit ==>
      r == Machine(State.Exit, m.field)
    ensures (m.state == Win || m.state == Gameover) && action.Go? ==> r == m
    ensures m.state == Game && action.Go? ==>
      && r.field == Move(m.field, action.dir, dice.first).field
      && (r.field == m.field <==> r.state == Game && MoveGrid(m.field.grid, action.dir) == m.field.grid)
    ensures m.state == Game && action.Go? ==> r.state == Game || r.state == Win || r.state == Gameover
    ensures m.state == Game && action.Go? && Move(m.field, action.dir, dice.first).moved ==>
      && (r.state == Win <==> IsWin(r.field))
      && (r.state == Gameover <==> !IsWin(r.field) && IsGameover(r.field))
    ensures r.state == Win && m.state != Win ==> m.state == Game && IsWin(r.field)
    ensures r.state == Gameover && m.state != Gameover ==>
      m.state == Game && !IsWin(r.field) && IsGameover(r.field)
    ensures r.field.highscore >= m.field.highscore && Best(r.field) >= Best(m.field)
    ensures Healthy(m.field) ==> Healthy(r.field)
  {
    match m.state
    case Init =>
      ResetIsHealthy(m.field, dice);
      Machine(Game, Reset(m.field, dice.first, dice.second).value)
    case Game =>
      (match action
       case Restart => Machine(Init, m.field)
       case Exit => Machine(State.Exit, m.field)
       case Go(d) => Play(m.field, d, dice.first))
    case Win | Gameover =>
      (match action
       case Restart => Machine(Init, m.field)
       case Exit => Machine(State.Exit, m.field)
       case Go(_) => m)
    case Exit => m
  }

  /** A healthy field on which nothing can move is full with no two equal neighbours. */
  lemma LostFieldIsFull(f: GameField)
    requires Healthy(f)
    ensures IsGameover(f) ==> !HasEmptyCell(f.grid) && NoEqualNeighbours(f.grid)
    ensures IsGameover(f) ==> MoveGrid(f.grid, Up) == f.grid && MoveGrid(f.grid, Left) == f.grid
    ensures IsGameover(f) ==> MoveGrid(f.grid, Down) == f.grid && MoveGrid(f.grid, Right) == f.grid
  {
  }

  /**
   * A move that ends the game leaves a board that no move would change: it is
   * full and no two neighbours are equal.
   */
  lemma GameoverMeansFullWithoutPairs(f: GameField, d: Direction, draw: Draw)
    requires Healthy(f)
    ensures var r := Play(f, d, draw);
      r.state == Gameover ==>
        && !HasEmptyCell(r.field.grid)
        && NoEqualNeighbours(r.field.grid)
        && forall e: Direction :: MoveGrid(r.field.grid, e) == r.field.grid
  {
    var r := Play(f, d, draw);
    LostFieldIsFull(r.field);
    forall e: Direction
      ensures IsGameover(r.field) ==> MoveGrid(r.field.grid, e) == r.field.grid
    {
      match e
      case Up =>
      case Left =>
      case Down =>
      case Right =>
    }
  }

  /** A move that both wins and blocks the board shows the win screen: win is checked first. */
  lemma WinTakesPrecedence(m: Machine, d: Direction, dice: Dice)
    requires Valid(m.field) && m.state == Game
    ensures var o := Move(m.field, d, dice.first);
      o.moved && IsWin(o.field) ==> Step(m, Go(d), dice).state == Win
  {
  }

  /**
   * What draw shows after a move: the win banner on entering Win, the
   * game-over banner on entering Gameover, and the movement keys when a
   * move leaves the game running.
   */
  lemma BannerMatchesState(m: Machine, d: Direction, dice: Dice)
    requires Valid(m.field) && m.state == Game
    ensures var r := Step(m, Go(d), dice);
      && (r.state == Win ==> BannerOf(r.field) == WinBanner)
      && (r.state == Gameover ==> BannerOf(r.field) == GameoverBanner)
      && (r.state == Game && Move(m.field, d, dice.first).moved ==> BannerOf(r.field) == HelpBanner)
  {
  }

  /** The machine after a sequence of actions, each with its own draws; Exit ends the loop. */
  function Run(m: Machine, actions: seq<Action>, dice: seq<Dice>): (r: Machine)
    requires Valid(m.field) && |dice| == |actions|
    ensures Valid(r.field)
    ensures m.state == State.Exit ==> r == m
    ensures r.field.highscore >= m.field.highscore && Best(r.field) >= Best(m.field)
    ensures Healthy(m.field) ==> Healthy(r.field)
    decreases |actions|
  {
    if |actions| == 0 || m.state == State.Exit then m
    else Run(Step(m, actions[0], dice[0]), actions[1..], dice[1..])
  }
}
