/**
 * The snake's construction: a body of points trailing behind the head,
 * the heading, and the `digesting` flag.
 */
module Snakes {
  import opened Wrappers
  import opened Points

  datatype Snake = Snake(body: seq<Point>, direction: Direction, digesting: bool)

  /** True when every segment `0 <= i < length` behind `start` can be placed without a panic. */
  predicate TrailFits(start: Point, length: U16, direction: Direction)
    requires length <= I16_LIMIT
  {
    forall i: U16 | 0 <= i < length :: Transform(start, Opposite(direction), i).Some?
  }

  /**
   * The explicit failure condition of `NewSnake`: the last segment, `length - 1`
   * steps behind the head, would have a negative coordinate. Only a snake heading
   * `Right` (trailing left) or `Down` (trailing up) can fail this way.
   */
  predicate TrailUnderflows(start: Point, length: U16, direction: Direction)
  {
    length > 0 &&
    ((direction == Right && start.x < length - 1) || (direction == Down && start.y < length - 1))
  }

  /**
   * `Snake::new`: segment `i` is `start` moved `i` steps against `direction`;
   * the heading is kept and the snake is not digesting. The Rust code panics
   * when one of the segments would leave the non-negative quadrant.
   * `length` stays within the `i16` range so that every step count fits.
   */
  function NewSnake(start: Point, length: U16, direction: Direction): (r: Option<Snake>)
    requires length <= I16_LIMIT
    ensures r.Some? ==> |r.value.body| == length
    ensures r.Some? ==> r.value.direction == direction && !r.value.digesting
    ensures r.Some? && length > 0 ==> r.value.body[0] == start
    ensures r.Some? ==> forall i: U16 | 0 <= i < length ::
              Transform(start, Opposite(direction), i) == Some(r.value.body[i])
  {
    var back := Opposite(direction);
    if TrailFits(start, length, direction) then
      var body := seq(length, (i: int) requires 0 <= i < length => Transform(start, back, i).value);
      assert length > 0 ==> body[0] == start by {
        if length > 0 {
          TransformZero(start, back);
        }
      }
      Some(Snake(body, direction, false))
    else
      None
  }

  /** `NewSnake` fails exactly when the last segment would underflow. */
  lemma NewSnakeFailsExactly(start: Point, length: U16, direction: Direction)
    requires length <= I16_LIMIT
    ensures NewSnake(start, length, direction).None? <==> TrailUnderflows(start, length, direction)
  {
    if TrailUnderflows(start, length, direction) {
      assert !Transform(start, Opposite(direction), length - 1).Some?;
    }
  }

  /** Headings `Up` and `Left` trail towards growing coordinates and never fail. */
  lemma NewSnakeUpLeftNeverFail(start: Point, length: U16, direction: Direction)
    requires length <= I16_LIMIT
    requires direction == Up || direction == Left
    ensures NewSnake(start, length, direction).Some?
  {
  }

  /** Each segment of a new snake is one step behind the one before it. */
  lemma NewSnakeStepwise(start: Point, length: U16, direction: Direction, i: nat)
    requires length <= I16_LIMIT
    requires NewSnake(start, length, direction).Some?
    requires i + 1 < length
    ensures Transform(NewSnake(start, length, direction).value.body[i], Opposite(direction), 1)
              == Some(NewSnake(start, length, direction).value.body[i + 1])
  {
  }

  /** The sum of the coordinate distances between two points. */
  function Manhattan(a: Point, b: Point): nat
  {
    (if a.x < b.x then b.x - a.x else a.x - b.x) + (if a.y < b.y then b.y - a.y else a.y - b.y)
  }

  /** A well-formed body: no two segments coincide and neighbours are one unit apart. */
  predicate ValidBody(body: seq<Point>)
  {
    && (forall i, j | 0 <= i < j < |body| :: body[i] != body[j])
    && (forall i | 0 <= i < |body| - 1 :: Manhattan(body[i], body[i + 1]) == 1)
  }

  /** No two segments of a new snake coincide. */
  lemma NewSnakeDistinct(start: Point, length: U16, direction: Direction, i: nat, j: nat)
    requires length <= I16_LIMIT
    requires NewSnake(start, length, direction).Some?
    requires i < j < length
    ensures NewSnake(start, length, direction).value.body[i] != NewSnake(start, length, direction).value.body[j]
  {
  }

  /**
   * When no segment passes the largest `u16` coordinate, a new snake has a
   * well-formed body: its segments are distinct and neighbours are one unit apart.
   */
  lemma NewSnakeValid(start: Point, length: U16, direction: Direction)
    requires length <= I16_LIMIT
    requires NewSnake(start, length, direction).Some?
    requires !Wraps(start, Opposite(direction), length - 1)
    ensures ValidBody(NewSnake(start, length, direction).value.body)
  {
    var body := NewSnake(start, length, direction).value.body;
    var back := Opposite(direction);
    forall i, j | 0 <= i < j < |body|
      ensures body[i] != body[j]
    {
      NewSnakeDistinct(start, length, direction, i, j);
    }
    forall i | 0 <= i < |body| - 1
      ensures Manhattan(body[i], body[i + 1]) == 1
    {
      assert Transform(start, back, i) == Some(body[i]);
      assert Transform(start, back, i + 1) == Some(body[i + 1]);
    }
  }

  /** A snake of three at (5, 5) heading right trails to the left. */
  lemma NewSnakeExample()
    ensures NewSnake(Point(5, 5), 3, Right) == Some(Snake([Point(5, 5), Point(4, 5), Point(3, 5)], Right, false))
  {
    NewSnakeFailsExactly(Point(5, 5), 3, Right);
    var body := NewSnake(Point(5, 5), 3, Right).value.body;
    assert body[1] == Point(4, 5) && body[2] == Point(3, 5) by {
      assert Transform(Point(5, 5), Left, 1) == Some(body[1]);
      assert Transform(Point(5, 5), Left, 2) == Some(body[2]);
    }
    assert body == [Point(5, 5), Point(4, 5), Point(3, 5)];
  }
}
