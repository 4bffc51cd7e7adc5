/** The parts of Go's `image` package geometry that the tools use: points,
    half-open rectangles, `image.Rect` (which swaps reversed corners) and the
    translation and size helpers. */
module Geometry {

  import opened Base

  datatype Point = Point(x: int, y: int) {
    function Add(q: Point): Point { Point(x + q.x, y + q.y) }
    function Sub(q: Point): Point { Point(x - q.x, y - q.y) }
  }

  function Origin(): Point { Point(0, 0) }

  /** `image.Rectangle{Min, Max}` written as a literal: no canonicalisation. */
  datatype Rectangle = Rectangle(min: Point, max: Point) {
    function Dx(): int { max.x - min.x }
    function Dy(): int { max.y - min.y }
    function Size(): Point { Point(Dx(), Dy()) }
    function Add(p: Point): Rectangle { Rectangle(min.Add(p), max.Add(p)) }
    function Sub(p: Point): Rectangle { Rectangle(min.Sub(p), max.Sub(p)) }
    /** A rectangle whose corners are in order, as every image's bounds are. */
    predicate WellFormed() { min.x <= max.x && min.y <= max.y }
    /** `r.In(s)` for well-formed rectangles: r lies inside s. */
    predicate Inside(s: Rectangle) {
      s.min.x <= min.x && max.x <= s.max.x && s.min.y <= min.y && max.y <= s.max.y
    }
  }

  /** `image.Rect(x0, y0, x1, y1)`: the corners are swapped where reversed,
      so the result is always well formed and spans the same coordinates. */
  function Rect(x0: int, y0: int, x1: int, y1: int): (r: Rectangle)
    ensures r.WellFormed()
    ensures {r.min.x, r.max.x} == {x0, x1} && {r.min.y, r.max.y} == {y0, y1}
  {
    Rectangle(Point(if x0 <= x1 then x0 else x1, if y0 <= y1 then y0 else y1),
              Point(if x0 <= x1 then x1 else x0, if y0 <= y1 then y1 else y0))
  }

  /** The zero rectangle `image.Rectangle{}`. */
  function ZeroRect(): Rectangle { Rectangle(Origin(), Origin()) }

  /** The size of a decoded image: the PNG, JPEG and GIF decoders reject
      an image with a zero dimension. */
  type Extent = p: Point | p.x > 0 && p.y > 0 witness Point(1, 1)

  /** Scales a size so that its longer side becomes `cell`, keeping the
      aspect ratio in integer arithmetic (a square goes to the second
      branch). A negative `cell` is divided with Go's truncating `/`. */
  function ScaleToSquare(sz: Extent, cell: int): (r: Point)
    ensures sz.x > sz.y ==> r.x == cell
    ensures sz.x <= sz.y ==> r.y == cell
    ensures cell >= 0 ==> 0 <= r.x <= cell && 0 <= r.y <= cell
    ensures cell >= 0 && sz.x > sz.y ==>
      r.y * sz.x <= cell * sz.y < (r.y + 1) * sz.x
    ensures cell >= 0 && sz.x <= sz.y ==>
      r.x * sz.y <= cell * sz.x < (r.x + 1) * sz.y
  {
    if sz.x > sz.y then
      ScaledSide(cell, sz.y, sz.x);
      Point(cell, GoDiv(cell * sz.y, sz.x))
    else
      ScaledSide(cell, sz.x, sz.y);
      Point(GoDiv(cell * sz.x, sz.y), cell)
  }

  /** On one axis, a length src placed at offset `size/2 - src/2` inside a
      length size lies inside it, with margins that differ by at most one,
      and there is no margin when src fills the whole length. */
  lemma Centred(size: nat, src: nat)
    requires src <= size
    ensures var off := size / 2 - src / 2;
      0 <= off && off + src <= size && -1 <= (size - src - off) - off <= 1 &&
      (size == src ==> off == 0)
  {
  }
}
