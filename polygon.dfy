/** A polygon of the genome: an RGBA colour and a point list that mutation
    overwrites in place. `PolygonValue` is its abstract value and
    `MutatedValue` the specification of `Polygon.Mutate`. */
module Polygons {
  import opened Primitives

  /** What a polygon holds at one moment: its colour and its corners. */
  datatype PolygonValue = PolygonValue(color: Color, points: seq<Point>)

  /** The shape generation produces and mutation keeps: 3 to 5 corners, all
      inside the widened canvas, and every channel within `[0, 256)`. */
  predicate WellFormed(v: PolygonValue, width: int, height: int) {
    && PolyMinPoints <= |v.points| <= PolyMaxPoints
    && (forall j :: 0 <= j < |v.points| ==> InMargin(v.points[j], width, height))
    && ValidColor(v.color)
  }

  /** The random draws of one call of `Polygon.mutate`: the coin from
      `random()`, then either a channel index and a channel value, or a point
      index and the two coordinates of a fresh point. */
  datatype MutationDraws = MutationDraws(coin: real, index: int, value: int, x: int, y: int) {

    /** The coin picks the colour branch (`coin <= 0.5`) or the point branch. */
    predicate ChangesColor() {
      coin <= 0.5
    }

    /** The draws lie in the ranges they come from, for a polygon with
        `count` points on a `width` x `height` canvas. Draws of the branch
        not taken are never made, so they are unconstrained. */
    predicate Fits(count: int, width: int, height: int) {
      && 0.0 <= coin < 1.0
      && (ChangesColor() ==> InRange(index, 0, 4) && InRange(value, 0, ChannelLimit))
      && (!ChangesColor() ==>
            InRange(index, 0, count)
            && InRange(x, -Offset, width + Offset) && InRange(y, -Offset, height + Offset))
    }
  }

  /** The polygon after one mutation with draws `d`. */
  function MutatedValue(v: PolygonValue, width: int, height: int, d: MutationDraws): (r: PolygonValue)
    requires d.Fits(|v.points|, width, height)
    // colour branch: only channel `index` changes, the points do not
    ensures d.ChangesColor() ==>
              && r.points == v.points
              && Channel(r.color, d.index) == d.value
              && forall i :: 0 <= i < 4 && i != d.index ==> Channel(r.color, i) == Channel(v.color, i)
    // point branch: only point `index` changes, to the freshly drawn point `(x, y)`
    // of the widened canvas
    ensures !d.ChangesColor() ==>
              && r.color == v.color
              && |r.points| == |v.points|
              && r.points[d.index] == Point(d.x, d.y)
              && InMargin(r.points[d.index], width, height)
              && forall j :: 0 <= j < |v.points| && j != d.index ==> r.points[j] == v.points[j]
    ensures WellFormed(v, width, height) ==> WellFormed(r, width, height)
  {
    if d.ChangesColor() then
      PolygonValue(WithChannel(v.color, d.index, d.value), v.points)
    else
      PolygonValue(v.color, v.points[d.index := GeneratePoint(width, height, d.x, d.y)])
  }

  class Polygon {
    var color: Color
    /** The point list, overwritten element by element; never replaced. */
    const points: array<Point>

    /** A polygon owning a freshly allocated copy of `pts`. */
    constructor (color: Color, pts: seq<Point>)
      ensures this.color == color && fresh(points) && points[..] == pts
    {
      this.color := color;
      points := new Point[|pts|](j requires 0 <= j < |pts| => pts[j]);
    }

    ghost function Value(): PolygonValue
      reads this, points
    {
      PolygonValue(color, points[..])
    }

    /** `Polygon.mutate`: one colour channel or one point overwritten in place. */
    method Mutate(width: int, height: int, d: MutationDraws)
      requires d.Fits(points.Length, width, height)
      modifies this, points
      ensures Value() == MutatedValue(old(Value()), width, height, d)
      ensures d.ChangesColor() ==> unchanged(points)
      ensures !d.ChangesColor() ==> color == old(color)
    {
      if d.ChangesColor() {
        color := WithChannel(color, d.index, d.value);
      } else {
        points[d.index] := GeneratePoint(width, height, d.x, d.y);
      }
    }

    /** A deep copy: a new polygon with a new point array of equal contents. */
    method Copy() returns (p: Polygon)
      ensures fresh(p) && fresh(p.points)
      ensures p.Value() == Value()
    {
      p := new Polygon(color, points[..]);
    }
  }
}
