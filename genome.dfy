/** The genome (`DNA`): a canvas size and an ordered list of polygons, its
    random construction `GenerateDna`, and `Dna.Mutate`, which copies the whole
    genome and mutates one polygon of the copy. */
module Genome {
  import opened Primitives
  import opened Polygons

  /** The draws `generate_dna` makes for one polygon: the number of corners,
      one coordinate pair per corner, then (unless the colour is fixed) the
      four channels. */
  datatype PolygonDraws = PolygonDraws(count: int, corners: seq<(int, int)>, channels: (int, int, int, int)) {

    predicate Fits(width: int, height: int, fixedColor: bool) {
      && InRange(count, PolyMinPoints, PolyMaxPoints + 1)
      && |corners| == count
      && (forall j :: 0 <= j < |corners| ==>
            InRange(corners[j].0, -Offset, width + Offset) && InRange(corners[j].1, -Offset, height + Offset))
      && (!fixedColor ==>
            InRange(channels.0, 0, ChannelLimit) && InRange(channels.1, 0, ChannelLimit)
            && InRange(channels.2, 0, ChannelLimit) && InRange(channels.3, 0, ChannelLimit))
    }
  }

  /** The colour `generate_dna` gives a polygon. */
  function DrawnColor(d: PolygonDraws, width: int, height: int, fixedColor: bool): (c: Color)
    requires d.Fits(width, height, fixedColor)
    ensures ValidColor(c)
    ensures fixedColor ==> c == White
    ensures !fixedColor ==> c == Color(d.channels.0, d.channels.1, d.channels.2, d.channels.3)
  {
    if fixedColor then White else GenerateColor(d.channels.0, d.channels.1, d.channels.2, d.channels.3)
  }

  /** The objects a genome built from `ps` consists of: the polygons and
      their point arrays. */
  ghost function Footprint(ps: seq<Polygon>): (r: set<object>)
    ensures forall i :: 0 <= i < |ps| ==> ps[i] in r && ps[i].points in r
  {
    assert forall i :: 0 <= i < |ps| ==> ps[i] in ps;
    (set p | p in ps :: p as object) + (set p | p in ps :: p.points as object)
  }

  /** No two positions of `ps` share a polygon or a point array. */
  ghost predicate Distinct(ps: seq<Polygon>) {
    forall i, j :: 0 <= i < j < |ps| ==> ps[i] != ps[j] && ps[i].points != ps[j].points
  }

  class Dna {
    const width: nat
    const height: nat
    /** Back-to-front paint order. */
    const polygons: seq<Polygon>
    /** The polygons and point arrays this genome is made of. */
    ghost const Repr: set<object>

    constructor (width: nat, height: nat, polygons: seq<Polygon>)
      requires Distinct(polygons)
      requires forall i :: 0 <= i < |polygons| ==> WellFormed(polygons[i].Value(), width, height)
      ensures this.width == width && this.height == height && this.polygons == polygons
      ensures Repr == Footprint(polygons)
      ensures Valid()
    {
      this.width := width;
      this.height := height;
      this.polygons := polygons;
      Repr := Footprint(polygons);
    }

    /** `Repr` holds every polygon and every point array. */
    ghost predicate Owns() {
      forall i :: 0 <= i < |polygons| ==> polygons[i] in Repr && polygons[i].points in Repr
    }

    /** No two positions share a polygon or a point array, and every polygon
        is well formed for this canvas. */
    ghost predicate Valid()
      reads Repr
    {
      && Owns()
      && Distinct(polygons)
      && (forall i :: 0 <= i < |polygons| ==> WellFormed(polygons[i].Value(), width, height))
    }

    /** `DNA.mutate`: deep-copy the polygon list, mutate polygon `rand` of the
        copy with draws `d`, and wrap the copy in a new genome. The method
        modifies nothing that existed before the call. */
    method Mutate(rand: int, d: MutationDraws) returns (child: Dna)
      requires Valid()
      requires InRange(rand, 0, |polygons|)
      requires d.Fits(polygons[rand].points.Length, width, height)
      ensures fresh(child) && fresh(child.Repr) && child.Repr !! Repr
      ensures child.Valid()
      ensures child.width == width && child.height == height
      ensures |child.polygons| == |polygons|
      ensures forall i :: 0 <= i < |polygons| && i != rand ==> child.polygons[i].Value() == polygons[i].Value()
      ensures child.polygons[rand].Value() == MutatedValue(polygons[rand].Value(), width, height, d)
      ensures forall i :: 0 <= i < |polygons| ==> polygons[i].Value() == old(polygons[i].Value())
    {
      var copies := DeepCopy(polygons);
      copies[rand].Mutate(width, height, d);
      child := new Dna(width, height, copies);
    }
  }

  /** `copy.deepcopy` of a polygon list: a new polygon with a new point
      array and the same contents for every position, no two positions
      sharing an object. */
  method DeepCopy(ps: seq<Polygon>) returns (copies: seq<Polygon>)
    ensures |copies| == |ps|
    ensures forall k :: 0 <= k < |ps| ==> fresh(copies[k]) && fresh(copies[k].points)
    ensures forall k :: 0 <= k < |ps| ==> copies[k].Value() == ps[k].Value()
    ensures Distinct(copies)
  {
    copies := [];
    for i := 0 to |ps|
      invariant |copies| == i
      invariant forall k :: 0 <= k < i ==> fresh(copies[k]) && fresh(copies[k].points)
      invariant forall k :: 0 <= k < i ==> copies[k].Value() == ps[k].Value()
      invariant forall k, l :: 0 <= k < l < i ==> copies[k] != copies[l] && copies[k].points != copies[l].points
    {
      var c := ps[i].Copy();
      copies := copies + [c];
    }
  }

  /** The corners `generate_dna` draws for one polygon. */
  function DrawnPoints(d: PolygonDraws, width: int, height: int, fixedColor: bool): (pts: seq<Point>)
    requires d.Fits(width, height, fixedColor)
    ensures |pts| == d.count
    ensures forall j :: 0 <= j < |pts| ==> InMargin(pts[j], width, height)
  {
    seq(|d.corners|, j requires 0 <= j < |d.corners| => GeneratePoint(width, height, d.corners[j].0, d.corners[j].1))
  }

  /** `generate_dna`: `PolygonCount` polygons, each with the drawn number of
      drawn corners and either the drawn colour or opaque white. The
      requested size `dnaSize` (`dna_size`) is never read. */
  method GenerateDna(width: nat, height: nat, dnaSize: int, fixedColor: bool, draws: seq<PolygonDraws>)
    returns (dna: Dna)
    requires |draws| == PolygonCount
    requires forall i :: 0 <= i < |draws| ==> draws[i].Fits(width, height, fixedColor)
    ensures fresh(dna) && fresh(dna.Repr)
    ensures dna.Valid()
    ensures dna.width == width && dna.height == height
    ensures |dna.polygons| == PolygonCount
    ensures forall i :: 0 <= i < PolygonCount ==>
              dna.polygons[i].Value() == PolygonValue(DrawnColor(draws[i], width, height, fixedColor),
                                                      DrawnPoints(draws[i], width, height, fixedColor))
    ensures fixedColor ==> forall i :: 0 <= i < PolygonCount ==> dna.polygons[i].color == White
  {
    var polygons: seq<Polygon> := [];
    for i := 0 to PolygonCount
      invariant |polygons| == i
      invariant forall k :: 0 <= k < i ==> fresh(polygons[k]) && fresh(polygons[k].points)
      invariant forall k :: 0 <= k < i ==>
                  polygons[k].Value() == PolygonValue(DrawnColor(draws[k], width, height, fixedColor),
                                                      DrawnPoints(draws[k], width, height, fixedColor))
      invariant forall k, l :: 0 <= k < l < i ==>
                  polygons[k] != polygons[l] && polygons[k].points != polygons[l].points
    {
      var count := draws[i].count;
      var points: seq<Point> := [];
      for j := 0 to count
        invariant points == DrawnPoints(draws[i], width, height, fixedColor)[..j]
      {
        var point := GeneratePoint(width, height, draws[i].corners[j].0, draws[i].corners[j].1);
        points := points + [point];
      }
      var color := if fixedColor then White
                   else GenerateColor(draws[i].channels.0, draws[i].channels.1, draws[i].channels.2, draws[i].channels.3);
      var polygon := new Polygon(color, points);
      polygons := polygons + [polygon];
    }
    dna := new Dna(width, height, polygons);
  }
}
