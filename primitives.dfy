/** Constants, points and colours of the polygon evolver, and the two random
    generators built on them. Every random draw is a parameter whose
    precondition is the half-open range the draw comes from. */
module Primitives {

  /** How far a generated point may lie outside the canvas, on every side. */
  const Offset := 10
  /** Number of polygons in every genome. */
  const PolygonCount := 50
  /** Smallest and largest number of corners of a generated polygon. */
  const PolyMinPoints := 3
  const PolyMaxPoints := 5
  /** Exclusive upper bound of a colour channel. */
  const ChannelLimit := 256

  datatype Point = Point(x: int, y: int)

  /** An RGBA colour; `Channel(c, 0..3)` is red, green, blue, alpha. */
  datatype Color = Color(red: int, green: int, blue: int, alpha: int)

  const White := Color(255, 255, 255, 255)

  /** `lo <= v < hi`: the values `randrange(lo, hi)` can return. */
  predicate InRange(v: int, lo: int, hi: int) {
    lo <= v < hi
  }

  /** The area points are drawn from: the canvas grown by `Offset` on each side. */
  predicate InMargin(p: Point, width: int, height: int) {
    InRange(p.x, -Offset, width + Offset) && InRange(p.y, -Offset, height + Offset)
  }

  predicate ValidColor(c: Color) {
    InRange(c.red, 0, ChannelLimit) && InRange(c.green, 0, ChannelLimit)
    && InRange(c.blue, 0, ChannelLimit) && InRange(c.alpha, 0, ChannelLimit)
  }

  /** The colour as the 4-element list `Polygon.mutate` indexes. */
  function Channel(c: Color, i: int): int
    requires 0 <= i < 4
  {
    if i == 0 then c.red else if i == 1 then c.green else if i == 2 then c.blue else c.alpha
  }

  /** The colour with channel `i` overwritten by `v`. */
  function WithChannel(c: Color, i: int, v: int): (r: Color)
    requires 0 <= i < 4
    ensures Channel(r, i) == v
    ensures forall j :: 0 <= j < 4 && j != i ==> Channel(r, j) == Channel(c, j)
    ensures ValidColor(c) && InRange(v, 0, ChannelLimit) ==> ValidColor(r)
  {
    if i == 0 then c.(red := v)
    else if i == 1 then c.(green := v)
    else if i == 2 then c.(blue := v)
    else c.(alpha := v)
  }

  /** `generate_point`: one draw per coordinate, each from the canvas range
      widened by `Offset`. */
  function GeneratePoint(width: int, height: int, drawX: int, drawY: int): (p: Point)
    requires InRange(drawX, -Offset, width + Offset)
    requires InRange(drawY, -Offset, height + Offset)
    ensures InMargin(p, width, height)
  {
    Point(drawX, drawY)
  }

  /** `generate_color`: four independent draws from `[0, 256)`. */
  function GenerateColor(red: int, green: int, blue: int, alpha: int): (c: Color)
    requires InRange(red, 0, ChannelLimit) && InRange(green, 0, ChannelLimit)
    requires InRange(blue, 0, ChannelLimit) && InRange(alpha, 0, ChannelLimit)
    ensures ValidColor(c)
  {
    Color(red, green, blue, alpha)
  }
}
