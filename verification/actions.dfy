/** The closed set of inputs the game reacts to. */
module Actions {

  /** The four sliding directions. */
  datatype Direction = Up | Left | Down | Right

  /** What one key press asks for: a slide, a restart, or leaving the game. */
  datatype Action = Go(dir: Direction) | Restart | Exit
}
