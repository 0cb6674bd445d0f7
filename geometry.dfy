/** Points, sizes, the per-frame input and the hit test shared by all widgets (src/common.rs, src/types.rs). */
module Geometry {

  /** Pixel coordinates `(x, y)`. */
  type Point = (int, int)

  /** Pixel sizes `(width, height)`; nothing forbids negative sizes. */
  type Dimensions = (int, int)

  /** The backend's text measurement: the pixel width of `text` at a font size. It is an input. */
  type Measure = (string, int) -> int

  /** What the backend reports about the mouse in one frame: its position, whether the left
      button was pressed this frame (edge), and whether it is held down (level). */
  datatype FrameInput = FrameInput(mouse: Point, pressed: bool, down: bool)

  /** The hit test: compares the mouse against the rectangle's four corners; the comparisons are
      strict, so edge points are never inside. */
  function IsInside(position: Point, dimensions: Dimensions, mouse: Point): (r: bool)
    ensures r <==> (position.0 < mouse.0 < position.0 + dimensions.0
                    && position.1 < mouse.1 < position.1 + dimensions.1)
  {
    var corners := [
      position,
      (position.0 + dimensions.0, position.1),
      (position.0, position.1 + dimensions.1),
      (position.0 + dimensions.0, position.1 + dimensions.1)
    ];
    (mouse.0 > corners[0].0 && mouse.0 > corners[2].0)
    && (mouse.0 < corners[1].0 && mouse.0 < corners[3].0)
    && (mouse.1 > corners[0].1 && mouse.1 > corners[1].1)
    && (mouse.1 < corners[2].1 && mouse.1 < corners[3].1)
  }

  /** No point on the rectangle's border is inside it, the top-left and far corners included. */
  lemma EdgesNeverInside(position: Point, dimensions: Dimensions, mouse: Point)
    requires mouse.0 == position.0 || mouse.0 == position.0 + dimensions.0
          || mouse.1 == position.1 || mouse.1 == position.1 + dimensions.1
    ensures !IsInside(position, dimensions, mouse)
  {
  }

  /** A rectangle at most one pixel wide or high (negative sizes included) contains no point. */
  lemma ThinRectangleEmpty(position: Point, dimensions: Dimensions, mouse: Point)
    requires dimensions.0 <= 1 || dimensions.1 <= 1
    ensures !IsInside(position, dimensions, mouse)
  {
  }

  /** Rust's `as i32` on a float: truncation toward zero (the saturation at the i32 bounds is not
      modelled). */
  function Trunc(x: real): (n: int)
    ensures x >= 0.0 ==> n as real <= x < n as real + 1.0
    ensures x < 0.0 ==> n as real - 1.0 < x <= n as real
  {
    if x >= 0.0 then x.Floor else -((-x).Floor)
  }

  /** Truncation of a real lying between two integers stays between them. */
  lemma TruncBetween(x: real, lo: int, hi: int)
    requires lo as real <= x <= hi as real
    ensures lo <= Trunc(x) <= hi
  {
  }

  /** Truncation keeps integers as they are. */
  lemma TruncOfInteger(n: int)
    ensures Trunc(n as real) == n
  {
  }

  /** Rust's `/` on i32: the quotient rounded toward zero. */
  function Quot(a: int, b: int): (q: int)
    requires b > 0
    ensures a >= 0 ==> 0 <= a - q * b < b
    ensures a < 0 ==> -b < a - q * b <= 0
  {
    if a >= 0 then a / b else -((-a) / b)
  }
}
