/**
 * Grid geometry of the snake game: unsigned 16-bit points, the four headings
 * and the shift of a point by a number of unit steps along a heading.
 *
 * The Rust code works on `u16` coordinates and converts them to `i16` for the
 * signed shift. The conversions are written out here as two's-complement
 * reinterpretations, and the `i16` addition wraps, as it does in a release
 * build. A shift that would take a coordinate below zero panics in the Rust
 * code; here it yields `None`.
 */
module Points {
  import opened Wrappers

  const U16_MODULUS: int := 0x1_0000
  const I16_LIMIT: int := 0x8000

  type U16 = v: int | 0 <= v < U16_MODULUS
  type I16 = v: int | -I16_LIMIT <= v < I16_LIMIT

  /** `u16 as i16`: the same 16 bits read as a signed number. */
  function AsI16(v: U16): I16
  {
    if v < I16_LIMIT then v else v - U16_MODULUS
  }

  /** `i16 as u16`: the same 16 bits read as an unsigned number. */
  function AsU16(v: I16): U16
  {
    if v < 0 then v + U16_MODULUS else v
  }

  /** Reading 16 bits as signed and back as unsigned gives the bits back, and the other way round. */
  lemma CastsRoundTrip(u: U16, s: I16)
    ensures AsU16(AsI16(u)) == u
    ensures AsI16(AsU16(s)) == s
  {
  }

  /** `a + b` on `i16` with two's-complement wrap-around. */
  function WrappingAddI16(a: I16, b: I16): I16
  {
    var s := a + b;
    if s >= I16_LIMIT then s - U16_MODULUS
    else if s < -I16_LIMIT then s + U16_MODULUS
    else s
  }

  datatype Point = Point(x: U16, y: U16)

  datatype Direction = Up | Down | Right | Left

  /** The heading that reverses `d`. */
  function Opposite(d: Direction): (r: Direction)
    ensures r != d
    ensures (r == Up || r == Down) <==> (d == Up || d == Down)
  {
    match d
    case Up => Down
    case Right => Left
    case Left => Right
    case Down => Up
  }

  /** Reversing twice gives back the original heading. */
  lemma OppositeInvolution(d: Direction)
    ensures Opposite(Opposite(d)) == d
  {
  }

  /** Distinct headings have distinct opposites, and every heading is the opposite of one. */
  lemma OppositeBijection(d: Direction, e: Direction)
    ensures Opposite(d) == Opposite(e) ==> d == e
    ensures Opposite(Opposite(d)) == d && exists c :: Opposite(c) == d
  {
  }

  /** The signed shift `(dx, dy)` for `times` steps along `d`. */
  function Offset(d: Direction, times: I16): (I16, I16)
    requires times != -I16_LIMIT
  {
    match d
    case Down => (0, times)
    case Up => (0, -times)
    case Left => (-times, 0)
    case Right => (times, 0)
  }

  /**
   * One coordinate shifted by `delta`. Fails exactly when `delta` is negative and
   * larger in magnitude than `value`; otherwise the result is `value + delta`
   * taken modulo 2^16 (the wrap only happens for positive `delta`).
   * `delta` is never `i16::MIN`, whose `abs` would overflow.
   */
  function TransformValue(value: U16, delta: I16): (r: Option<U16>)
    requires delta != -I16_LIMIT
    ensures r.None? <==> delta < 0 && -delta > value
    ensures r.Some? ==> r.value == (value + delta) % U16_MODULUS
    ensures r.Some? && value + delta < U16_MODULUS ==> r.value == value + delta
  {
    if delta < 0 && AsU16(-delta) > value then None
    else Some(AsU16(WrappingAddI16(AsI16(value), delta)))
  }

  /** True when shifting `p` by `times` steps along `d` would make a coordinate negative. */
  predicate Underflows(p: Point, d: Direction, times: int)
  {
    (d == Up && times > p.y) || (d == Left && times > p.x)
  }

  /** True when shifting `p` by `times` steps along `d` would pass the largest `u16`. */
  predicate Wraps(p: Point, d: Direction, times: int)
  {
    (d == Down && p.y + times >= U16_MODULUS) || (d == Right && p.x + times >= U16_MODULUS)
  }

  /**
   * `p` shifted `times` unit steps along `d`. Only the axis of `d` changes:
   * `Down` and `Right` add `times` (modulo 2^16), `Up` and `Left` subtract it
   * and fail when that would go below zero.
   */
  function Transform(p: Point, d: Direction, times: U16): (r: Option<Point>)
    requires times < I16_LIMIT
    ensures r.None? <==> Underflows(p, d, times)
    ensures r.Some? && (d == Up || d == Down) ==> r.value.x == p.x
    ensures r.Some? && (d == Left || d == Right) ==> r.value.y == p.y
    ensures r.Some? && d == Up ==> r.value.y == p.y - times
    ensures r.Some? && d == Left ==> r.value.x == p.x - times
    ensures r.Some? && d == Down ==> r.value.y == (p.y + times) % U16_MODULUS
    ensures r.Some? && d == Right ==> r.value.x == (p.x + times) % U16_MODULUS
  {
    var t := AsI16(times);
    var (dx, dy) := Offset(d, t);
    match (TransformValue(p.x, dx), TransformValue(p.y, dy))
    case (Some(x), Some(y)) => Some(Point(x, y))
    case _ => None
  }

  /** Zero steps leave every point where it is, whatever the heading. */
  lemma TransformZero(p: Point, d: Direction)
    ensures Transform(p, d, 0) == Some(p)
  {
  }

  /**
   * Going `n` steps and then `n` steps back returns to the start whenever both
   * shifts succeed; the way back succeeds exactly when the way out did not wrap.
   */
  lemma TransformRoundTrip(p: Point, d: Direction, n: U16)
    requires n < I16_LIMIT
    requires Transform(p, d, n).Some?
    ensures Transform(Transform(p, d, n).value, Opposite(d), n).Some? <==> !Wraps(p, d, n)
    ensures Transform(Transform(p, d, n).value, Opposite(d), n).Some? ==>
              Transform(Transform(p, d, n).value, Opposite(d), n).value == p
  {
  }
}
