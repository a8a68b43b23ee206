/**
 * Construction of a game: the grid size, the snake placed at the centre of the
 * grid with a heading chosen from a random draw, and no food yet.
 * The terminal handle and the terminal's original size are not part of the value.
 */
module Games {
  import opened Wrappers
  import opened Points
  import opened Snakes

  /** Number of segments of the snake a game starts with. */
  const INITIAL_LENGTH: U16 := 5

  datatype Game = Game(width: U16, height: U16, snake: Snake, food: Option<Point>)

  /**
   * The heading picked from the random draw: 0 is `Up`, 1 `Right`, 2 `Down`,
   * and every other value `Left`.
   */
  function InitialHeading(draw: int): (d: Direction)
    ensures d == Up <==> draw == 0
    ensures d == Right <==> draw == 1
    ensures d == Down <==> draw == 2
    ensures d == Left <==> draw != 0 && draw != 1 && draw != 2
  {
    match draw
    case 0 => Up
    case 1 => Right
    case 2 => Down
    case _ => Left
  }

  /** The draws in `0..=4` (the range the game draws from) that select `d`. */
  function DrawsFor(d: Direction): set<int>
  {
    set k | 0 <= k <= 4 && InitialHeading(k) == d
  }

  /**
   * Over the five draws in `0..=4`, `Left` is selected by two of them and each
   * other heading by exactly one, so every heading can occur.
   */
  lemma InitialHeadingDraws()
    ensures DrawsFor(Up) == {0} && DrawsFor(Right) == {1} && DrawsFor(Down) == {2}
    ensures DrawsFor(Left) == {3, 4}
  {
  }

  /** The centre of the grid, where the head starts. */
  function Centre(width: U16, height: U16): Point
  {
    Point(width / 2, height / 2)
  }

  /**
   * `Game::new` without the terminal: the snake starts at the centre with
   * `INITIAL_LENGTH` segments and the heading selected by `draw`; there is no food.
   * Fails (the Rust code panics) when the snake does not fit behind the centre.
   */
  function NewGame(width: U16, height: U16, draw: int): (r: Option<Game>)
    ensures r.Some? ==> r.value.width == width && r.value.height == height && r.value.food.None?
    ensures r.Some? ==> r.value.snake.direction == InitialHeading(draw) && !r.value.snake.digesting
    ensures r.Some? ==> |r.value.snake.body| == INITIAL_LENGTH as int && r.value.snake.body[0] == Centre(width, height)
    ensures r.Some? ==> forall i: U16 | 0 <= i < INITIAL_LENGTH ::
              Transform(Centre(width, height), Opposite(InitialHeading(draw)), i) == Some(r.value.snake.body[i])
  {
    match NewSnake(Centre(width, height), INITIAL_LENGTH, InitialHeading(draw))
    case Some(snake) => Some(Game(width, height, snake, None))
    case None => None
  }

  /**
   * A new game fails exactly when the heading is `Right` and the grid is
   * narrower than 8 columns, or the heading is `Down` and the grid is lower than 8 rows.
   */
  lemma NewGameFailsExactly(width: U16, height: U16, draw: int)
    ensures NewGame(width, height, draw).None? <==>
              (InitialHeading(draw) == Right && width < 8) || (InitialHeading(draw) == Down && height < 8)
  {
    NewSnakeFailsExactly(Centre(width, height), INITIAL_LENGTH, InitialHeading(draw));
  }

  /**
   * Every game that starts has a well-formed snake: the centre is at most 32767
   * on each axis, so no segment passes the largest `u16` coordinate.
   */
  lemma NewGameValid(width: U16, height: U16, draw: int)
    requires NewGame(width, height, draw).Some?
    ensures ValidBody(NewGame(width, height, draw).value.snake.body)
  {
    NewSnakeValid(Centre(width, height), INITIAL_LENGTH, InitialHeading(draw));
  }
}
