/** Small failure-compatible optional value, used for JavaScript's `undefined`/`null`. */
module Options {
  datatype Option<+T> = None | Some(value: T)
}

/**
 * The fixed-size boolean pixel grid of the LED matrix and its bounds-checked
 * primitives (app.jsx, the constants, `emptyGrid`, `safeSet`, `emptyCheck`).
 */
module Grid {

  const WIDTH: nat := 27
  const HEIGHT: nat := 9
  /** Offsets are clamped to [-MAX_OFFSET_X, MAX_OFFSET_X] x [-MAX_OFFSET_Y, MAX_OFFSET_Y]. */
  const MAX_OFFSET_X: int := WIDTH + 64
  const MAX_OFFSET_Y: int := HEIGHT + 64

  /** A grid is indexed row first: `g[y][x]`. */
  type Grid = seq<seq<bool>>

  /** An integer pair: a layer offset, or an overflow point in layer-local coordinates. */
  datatype Point = Point(x: int, y: int)

  const ORIGIN: Point := Point(0, 0)

  predicate WellFormed(g: Grid) {
    |g| == HEIGHT && forall y :: 0 <= y < |g| ==> |g[y]| == WIDTH
  }

  predicate InBounds(x: int, y: int) {
    0 <= x < WIDTH && 0 <= y < HEIGHT
  }

  /** `emptyGrid()`: HEIGHT rows of WIDTH unlit cells. */
  function EmptyGrid(): (g: Grid)
    ensures WellFormed(g)
    ensures IsBlank(g)
  {
    seq(HEIGHT, _ => seq(WIDTH, _ => false))
  }

  /** `safeSet(g, x, y, v)`: writes `v` at `(x, y)` when that cell exists, otherwise does nothing. */
  function SafeSet(g: Grid, x: int, y: int, v: bool): (r: Grid)
    requires WellFormed(g)
    ensures WellFormed(r)
    ensures forall y', x' :: 0 <= y' < HEIGHT && 0 <= x' < WIDTH ==>
      r[y'][x'] == if x' == x && y' == y then v else g[y'][x']
  {
    if InBounds(x, y) then g[y := g[y][x := v]] else g
  }

  /** Every cell of every row is unlit (rows of any length). */
  predicate IsBlank(g: seq<seq<bool>>) {
    forall y, x :: 0 <= y < |g| && 0 <= x < |g[y]| ==> !g[y][x]
  }

  /** `emptyCheck(g)`: scans the rows in order and stops at the first lit cell. */
  method EmptyCheck(g: seq<seq<bool>>) returns (blank: bool)
    ensures blank <==> IsBlank(g)
  {
    var y := 0;
    while y < |g|
      invariant 0 <= y <= |g|
      invariant forall y', x :: 0 <= y' < y && 0 <= x < |g[y']| ==> !g[y'][x]
    {
      var x := 0;
      while x < |g[y]|
        invariant 0 <= x <= |g[y]|
        invariant forall x' :: 0 <= x' < x ==> !g[y][x']
      {
        if g[y][x] {
          return false;
        }
        x := x + 1;
      }
      y := y + 1;
    }
    return true;
  }

  /** `Math.max(lo, Math.min(hi, v))` */
  function Clamp(v: int, bound: int): (r: int)
    requires 0 <= bound
    ensures -bound <= r <= bound
    ensures -bound <= v <= bound ==> r == v
    ensures v < -bound ==> r == -bound
    ensures v > bound ==> r == bound
  {
    if v > bound then bound else if v < -bound then -bound else v
  }
}
