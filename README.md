# snake_r grid geometry and snake construction

A model of the logic in the terminal snake game `snake_r` (`src/game.rs`):

- `Point` with unsigned 16-bit coordinates and `Point::transform`, which shifts a
  point a number of unit steps along a `Direction`, through `transform_value` on
  each axis;
- the four headings and `Direction::opposite`;
- `Snake::new`, which lays out the body behind the head;
- the part of `Game::new` that places the snake at the centre of the grid with a
  heading selected from a random draw, and starts without food.

Where the Rust code panics (a coordinate shifted below zero), the model returns
`None` of an `Option`; `Some(v)` is a normal return of `v`. The casts between
`u16` and `i16` are written out as two's-complement reinterpretations
(`Points.AsI16`, `Points.AsU16`), and the `i16` addition in `transform_value`
wraps (`Points.WrappingAddI16`), as in a release build. So a shift towards
growing coordinates past 65535 wraps to the other end of the `u16` range, and the
contracts say so with `% 65536`.

Files: `wrappers.dfy` (the `Option` type), `point.dfy` (module `Points`),
`snake.dfy` (module `Snakes`), `game.dfy` (module `Games`).

`speed` and `score` appear only in comments (src/game.rs:17-19, 126-127). The
code has no `advance`, `set_direction`, collision check or food placement, and it
panics on underflow. The model covers what the code does.

## Model

| member | source | states |
|---|---|---|
| `Points.Opposite` | src/game.rs:64-72 | the reverse heading is never the heading itself and lies on the same axis |
| `Points.OppositeInvolution` | src/game.rs:65-72 | reversing a heading twice gives it back |
| `Points.OppositeBijection` | src/game.rs:65-72 | `opposite` is injective and every heading is the opposite of some heading |
| `Points.CastsRoundTrip` | src/game.rs:53 | the `u16`-to-`i16` and `i16`-to-`u16` casts undo each other |
| `Points.TransformValue` | src/game.rs:49-54 | fails exactly when the offset is negative and larger in magnitude than the coordinate; otherwise returns coordinate plus offset modulo 2^16, which is the plain sum when that fits in `u16` |
| `Points.Transform` | src/game.rs:33-47 | fails exactly when an `Up` shift exceeds `y` or a `Left` shift exceeds `x`; only the heading's axis changes; `Down`/`Right` add `times` (modulo 2^16), `Up`/`Left` subtract it |
| `Points.TransformZero` | src/game.rs:33-54 | shifting zero steps returns the point unchanged for every heading |
| `Points.TransformRoundTrip` | src/game.rs:33-72 | after a successful shift, shifting back the same count along the opposite heading succeeds exactly when the first shift did not wrap, and then returns the start point |
| `Snakes.NewSnake` | src/game.rs:82-94 | the body has `length` segments, segment `i` is `start` shifted `i` steps against the heading, so segment 0 is `start`; the heading is kept and `digesting` is false |
| `Snakes.NewSnakeFailsExactly` | src/game.rs:84-87 | construction fails exactly when the heading is `Right` and `start.x < length - 1`, or `Down` and `start.y < length - 1` |
| `Snakes.NewSnakeUpLeftNeverFail` | src/game.rs:84-87 | a snake heading `Up` or `Left` is always built |
| `Snakes.NewSnakeStepwise` | src/game.rs:84-87 | each segment is exactly one step against the heading from the segment before it |
| `Snakes.NewSnakeDistinct` | src/game.rs:84-87 | no two segments of a new snake coincide |
| `Snakes.NewSnakeValid` | src/game.rs:84-87 | when no segment passes coordinate 65535, the body has distinct segments and neighbours at Manhattan distance 1 |
| `Snakes.NewSnakeExample` | src/game.rs:82-94 | a snake of length 3 at (5, 5) heading `Right` has body (5, 5), (4, 5), (3, 5) |
| `Games.InitialHeading` | src/game.rs:108-113 | draw 0 gives `Up`, 1 `Right`, 2 `Down`, and exactly the other values give `Left` |
| `Games.InitialHeadingDraws` | src/game.rs:108-113 | of the five draws `0..=4`, two select `Left` and one each selects the other headings |
| `Games.NewGame` | src/game.rs:98-115 | a new game keeps the grid size, has no food, and a snake of 5 segments headed by the drawn heading, segment `i` being the grid centre shifted `i` steps against that heading |
| `Games.NewGameValid` | src/game.rs:105-114 | every game that starts has a snake with distinct segments and neighbours one unit apart |
| `Games.NewGameFailsExactly` | src/game.rs:105-114 | a new game fails exactly when the heading is `Right` and the width is below 8, or `Down` and the height is below 8 |

## Left out

- Terminal I/O: `prepare_ui`, `restore_ui`, `run`, `render`, `draw_borders`, `draw_background`, `draw_snake`, `draw_food`, and the `size()` call in `Game::new`. They only drive the terminal.
- The `Game` fields `stdout` and `original_terminal_size`: resource handles, not game state.
- The random number generator: `NewGame` takes the drawn value as a parameter.
- `advance`, `set_direction`, self-collision, food spawning, score and speed: the code has them only as comments or not at all.
- Debug builds: there the `i16` addition in `transform_value` panics on overflow instead of wrapping. The model follows release-build wrapping.
- Transform: requires `times < 32768`. For larger `times`, `times as i16` turns negative and `-times` or `abs` can overflow, which the model does not cover.
- TransformValue: requires the offset to differ from `i16::MIN`, whose `abs` overflows. `Transform` never passes that value.
- NewSnake: requires `length <= 32768`, so that every step count fits in `i16`. `Game::new` passes 5.
