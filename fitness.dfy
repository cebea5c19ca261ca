/** The fitness function: the sum, over every pixel of the first image, of the
    Euclidean distance between the two images' red, green and blue values.
    The square root is a parameter `root` of which only what the properties
    need is assumed (`IsRoot`); floating-point rounding is not modelled. */
module Fitness {

  datatype Rgb = Rgb(r: int, g: int, b: int)

  /** A `width` x `height` grid of pixels, row by row: `pixels[y][x]`. */
  datatype Image = Image(width: nat, height: nat, pixels: seq<seq<Rgb>>) {

    ghost predicate Valid() {
      |pixels| == height && forall y :: 0 <= y < height ==> |pixels[y]| == width
    }

    predicate Inside(c: Coord) {
      0 <= c.x < width && 0 <= c.y < height
    }

    /** `getpixel((x, y))`. */
    function At(c: Coord): Rgb
      requires Valid() && Inside(c)
    {
      pixels[c.y][c.x]
    }
  }

  datatype Coord = Coord(x: int, y: int)

  /** What the fitness loop yields: the total, or the index error `getpixel`
      raises when the second image lacks a pixel of the first. */
  datatype Score = Scored(total: real) | PixelOutOfRange

  /** The square root is non-negative and zero exactly at zero. */
  ghost predicate IsRoot(root: nat -> real) {
    root(0) == 0.0 && forall n: nat :: n > 0 ==> root(n) > 0.0
  }

  /** `d * d` is a square: never negative, zero only at zero. */
  lemma SquareFacts(d: int)
    ensures d * d >= 0
    ensures d * d == 0 <==> d == 0
  {
    if d < 0 {
      assert d * d == (-d) * (-d);
    }
  }

  /** The squared distance of two pixels on red, green and blue: zero
      exactly when they agree. */
  function SquaredDistance(p: Rgb, q: Rgb): (n: nat)
    ensures n == 0 <==> p == q
  {
    var dr, db, dg := p.r - q.r, p.b - q.b, p.g - q.g;
    SquareFacts(dr);
    SquareFacts(dg);
    SquareFacts(db);
    dr * dr + dg * dg + db * db
  }

  /** The distance of one pixel pair (`math.sqrt` of the squared distance):
      never negative and zero exactly when they agree. */
  function PixelDistance(p: Rgb, q: Rgb, root: nat -> real): (d: real)
    requires IsRoot(root)
    ensures d >= 0.0
    ensures d == 0.0 <==> p == q
  {
    root(SquaredDistance(p, q))
  }

  /** Channel differences are squared, so their sign does not matter. */
  lemma PixelDistanceSymmetric(p: Rgb, q: Rgb, root: nat -> real)
    requires IsRoot(root)
    ensures PixelDistance(p, q, root) == PixelDistance(q, p, root)
  {
    assert SquaredDistance(p, q) == SquaredDistance(q, p) by {
      assert (q.r - p.r) * (q.r - p.r) == (p.r - q.r) * (p.r - q.r);
      assert (q.g - p.g) * (q.g - p.g) == (p.g - q.g) * (p.g - q.g);
      assert (q.b - p.b) * (q.b - p.b) == (p.b - q.b) * (p.b - q.b);
    }
  }

  /** Both images hold coordinate `c`. */
  predicate InBoth(a: Image, b: Image, c: Coord) {
    a.Inside(c) && b.Inside(c)
  }

  /** Both images hold every coordinate of `cs`. */
  predicate AllInBoth(a: Image, b: Image, cs: seq<Coord>) {
    forall k :: 0 <= k < |cs| ==> InBoth(a, b, cs[k])
  }

  /** The sum of the pixel distances at the coordinates `cs`, in order. */
  function SumAt(a: Image, b: Image, cs: seq<Coord>, root: nat -> real): real
    requires a.Valid() && b.Valid() && IsRoot(root)
    requires AllInBoth(a, b, cs)
    decreases |cs|
  {
    if cs == [] then 0.0
    else
      var last := cs[|cs| - 1];
      assert InBoth(a, b, last);
      SumAt(a, b, cs[..|cs| - 1], root) + PixelDistance(a.At(last), b.At(last), root)
  }

  /** Row `y`, columns `0 .. n-1`, left to right. */
  function RowOrder(y: int, n: nat): seq<Coord> {
    if n == 0 then [] else RowOrder(y, n - 1) + [Coord(n - 1, y)]
  }

  /** Rows `0 .. m-1` of a `width`-wide image, top to bottom: the order in
      which the fitness loop visits pixels. */
  function RasterOrder(width: nat, m: nat): seq<Coord> {
    if m == 0 then [] else RasterOrder(width, m - 1) + RowOrder(m - 1, width)
  }

  /** Every pixel `getpixel` is asked for on the second image exists there. */
  predicate Readable(a: Image, b: Image) {
    a.width == 0 || a.height == 0 || (a.width <= b.width && a.height <= b.height)
  }

  /** The fitness of `a` against `b`: the pixel distances summed over the
      whole of `a` in raster order. */
  function TotalDistance(a: Image, b: Image, root: nat -> real): real
    requires a.Valid() && b.Valid() && IsRoot(root) && Readable(a, b)
  {
    RasterOrderInside(a, b, a.height);
    SumAt(a, b, RasterOrder(a.width, a.height), root)
  }

  lemma {:induction false} RowOrderCount(y: int, n: nat, c: Coord)
    ensures multiset(RowOrder(y, n))[c] == if c.y == y && 0 <= c.x < n then 1 else 0
  {
    if n > 0 {
      var k: nat := n - 1;
      var before := RowOrder(y, k);
      assert RowOrder(y, n) == before + [Coord(k, y)];
      RowOrderCount(y, k, c);
      assert multiset(before + [Coord(k, y)]) == multiset(before) + multiset{Coord(k, y)};
    }
  }

  /** The raster order lists every pixel of a `width` x `m` image exactly
      once, and nothing else. */
  lemma {:induction false} RasterOrderCount(width: nat, m: nat, c: Coord)
    ensures multiset(RasterOrder(width, m))[c] == if 0 <= c.x < width && 0 <= c.y < m then 1 else 0
  {
    if m > 0 {
      var k: nat := m - 1;
      RasterOrderCount(width, k, c);
      RowOrderCount(k, width, c);
      RasterOrderSplit(width, k, c);
      CountStep(width, k, c, multiset(RasterOrder(width, k))[c], multiset(RowOrder(k, width))[c]);
    }
  }

  /** A pixel occurs in the first `k + 1` rows as often as in the first `k`
      rows and in row `k` together. */
  lemma RasterOrderSplit(width: nat, k: nat, c: Coord)
    ensures multiset(RasterOrder(width, k + 1))[c] == multiset(RasterOrder(width, k))[c] + multiset(RowOrder(k, width))[c]
  {
    var above, row := RasterOrder(width, k), RowOrder(k, width);
    assert RasterOrder(width, k + 1) == above + row;
    assert multiset(above + row) == multiset(above) + multiset(row);
  }

  /** One more row adds one occurrence of exactly the pixels of that row. */
  lemma CountStep(width: nat, k: nat, c: Coord, above: int, row: int)
    ensures above == (if 0 <= c.x < width && 0 <= c.y < k then 1 else 0)
            && row == (if c.y == k && 0 <= c.x < width then 1 else 0)
            ==> above + row == if 0 <= c.x < width && 0 <= c.y < k + 1 then 1 else 0
  {
  }

  /** The last pixel in raster order is the bottom-right one. */
  lemma RasterOrderLast(width: nat, m: nat)
    requires width > 0 && m > 0
    ensures |RasterOrder(width, m)| > 0 && RasterOrder(width, m)[|RasterOrder(width, m)| - 1] == Coord(width - 1, m - 1)
  {
    var row := RowOrder(m - 1, width);
    assert row == RowOrder(m - 1, width - 1) + [Coord(width - 1, m - 1)];
    assert RasterOrder(width, m) == RasterOrder(width, m - 1) + row;
  }

  lemma RasterOrderMember(width: nat, m: nat, c: Coord)
    ensures c in RasterOrder(width, m) <==> 0 <= c.x < width && 0 <= c.y < m
  {
    RasterOrderCount(width, m, c);
  }

  lemma RasterOrderInside(a: Image, b: Image, m: nat)
    requires Readable(a, b) && m <= a.height
    ensures AllInBoth(a, b, RasterOrder(a.width, m))
  {
    forall k | 0 <= k < |RasterOrder(a.width, m)|
      ensures InBoth(a, b, RasterOrder(a.width, m)[k])
    {
      RasterOrderMember(a.width, m, RasterOrder(a.width, m)[k]);
    }
  }

  /** Reading one more pixel adds its distance to the sum. */
  lemma SumAtSnoc(a: Image, b: Image, cs: seq<Coord>, c: Coord, root: nat -> real)
    requires a.Valid() && b.Valid() && IsRoot(root)
    requires AllInBoth(a, b, cs)
    requires InBoth(a, b, c)
    ensures AllInBoth(a, b, cs + [c])
    ensures SumAt(a, b, cs + [c], root) == SumAt(a, b, cs, root) + PixelDistance(a.At(c), b.At(c), root)
  {
    assert (cs + [c])[..|cs|] == cs;
  }

  /** The pixels the fitness loop has read when it is at column `x` of row `y`. */
  function ReadSoFar(width: nat, y: nat, x: nat): seq<Coord> {
    RasterOrder(width, y) + RowOrder(y, x)
  }

  /** Reading pixel `(x, y)`, found in both images, extends what was read by
      it and the sum by its distance. */
  lemma ReadStep(a: Image, b: Image, y: nat, x: nat, root: nat -> real)
    requires a.Valid() && b.Valid() && IsRoot(root)
    requires InBoth(a, b, Coord(x, y))
    requires AllInBoth(a, b, ReadSoFar(a.width, y, x))
    ensures AllInBoth(a, b, ReadSoFar(a.width, y, x + 1))
    ensures SumAt(a, b, ReadSoFar(a.width, y, x + 1), root)
            == SumAt(a, b, ReadSoFar(a.width, y, x), root) + PixelDistance(a.pixels[y][x], b.pixels[y][x], root)
  {
    assert RowOrder(y, x + 1) == RowOrder(y, x) + [Coord(x, y)];
    assert ReadSoFar(a.width, y, x + 1) == ReadSoFar(a.width, y, x) + [Coord(x, y)];
    SumAtSnoc(a, b, ReadSoFar(a.width, y, x), Coord(x, y), root);
  }

  /** The end of one row is the start of the next. */
  lemma RowEnd(width: nat, y: nat)
    ensures ReadSoFar(width, y, width) == ReadSoFar(width, y + 1, 0)
  {
    assert RowOrder(y + 1, 0) == [];
  }

  /** Once every pixel of `a` has been found in `b`, `b` is large enough. */
  lemma AllReadImpliesReadable(a: Image, b: Image)
    requires AllInBoth(a, b, ReadSoFar(a.width, a.height, 0))
    ensures Readable(a, b)
    ensures ReadSoFar(a.width, a.height, 0) == RasterOrder(a.width, a.height)
  {
    var cs := RasterOrder(a.width, a.height);
    assert RowOrder(a.height, 0) == [];
    assert ReadSoFar(a.width, a.height, 0) == cs + [] == cs;
    if a.width > 0 && a.height > 0 {
      RasterOrderLast(a.width, a.height);
      assert InBoth(a, b, cs[|cs| - 1]);
    }
  }

  /** `fitness(img_1, img_2)`: the double loop over rows and columns of
      `img_1`, accumulating the distance of each pixel it reads. It fails
      exactly when `img_2` lacks one of `img_1`'s pixels; otherwise it
      returns `TotalDistance`, the sum over the raster order. */
  method ComputeFitness(img1: Image, img2: Image, root: nat -> real) returns (score: Score)
    requires img1.Valid() && img2.Valid() && IsRoot(root)
    ensures score.PixelOutOfRange? <==> !Readable(img1, img2)
    ensures score.Scored? ==> Readable(img1, img2) && score.total == TotalDistance(img1, img2, root)
  {
    var fitness := 0.0;
    assert ReadSoFar(img1.width, 0, 0) == [];
    for y := 0 to img1.height
      invariant AllInBoth(img1, img2, ReadSoFar(img1.width, y, 0))
      invariant fitness == SumAt(img1, img2, ReadSoFar(img1.width, y, 0), root)
    {
      for x := 0 to img1.width
        invariant AllInBoth(img1, img2, ReadSoFar(img1.width, y, x))
        invariant fitness == SumAt(img1, img2, ReadSoFar(img1.width, y, x), root)
      {
        if x >= img2.width || y >= img2.height {
          return PixelOutOfRange;
        }
        var pixelFitness := root(SquaredDistance(img1.pixels[y][x], img2.pixels[y][x]));
        ReadStep(img1, img2, y, x, root);
        fitness := fitness + pixelFitness;
      }
      RowEnd(img1.width, y);
    }
    AllReadImpliesReadable(img1, img2);
    score := Scored(fitness);
  }

  lemma {:induction false} SumAtNonNegative(a: Image, b: Image, cs: seq<Coord>, root: nat -> real)
    requires a.Valid() && b.Valid() && IsRoot(root)
    requires AllInBoth(a, b, cs)
    ensures SumAt(a, b, cs, root) >= 0.0
    decreases |cs|
  {
    if cs != [] {
      SumAtNonNegative(a, b, cs[..|cs| - 1], root);
    }
  }

  lemma {:induction false} SumAtZero(a: Image, b: Image, cs: seq<Coord>, root: nat -> real)
    requires a.Valid() && b.Valid() && IsRoot(root)
    requires AllInBoth(a, b, cs)
    ensures SumAt(a, b, cs, root) == 0.0 <==> forall k :: 0 <= k < |cs| ==> a.At(cs[k]) == b.At(cs[k])
    decreases |cs|
  {
    if cs != [] {
      var init := cs[..|cs| - 1];
      SumAtZero(a, b, init, root);
      SumAtNonNegative(a, b, init, root);
    }
  }

  lemma {:induction false} SumAtSymmetric(a: Image, b: Image, cs: seq<Coord>, root: nat -> real)
    requires a.Valid() && b.Valid() && IsRoot(root)
    requires AllInBoth(a, b, cs)
    ensures SumAt(a, b, cs, root) == SumAt(b, a, cs, root)
    decreases |cs|
  {
    if cs != [] {
      SumAtSymmetric(a, b, cs[..|cs| - 1], root);
    }
  }

  /** The fitness is never negative. */
  lemma FitnessNonNegative(a: Image, b: Image, root: nat -> real)
    requires a.Valid() && b.Valid() && IsRoot(root) && Readable(a, b)
    ensures TotalDistance(a, b, root) >= 0.0
  {
    RasterOrderInside(a, b, a.height);
    SumAtNonNegative(a, b, RasterOrder(a.width, a.height), root);
  }

  /** The fitness is zero exactly when the images agree on red, green and
      blue at every pixel of the first. */
  lemma FitnessZeroIff(a: Image, b: Image, root: nat -> real)
    requires a.Valid() && b.Valid() && IsRoot(root) && Readable(a, b)
    ensures TotalDistance(a, b, root) == 0.0 <==>
              forall x, y :: 0 <= x < a.width && 0 <= y < a.height ==> a.pixels[y][x] == b.pixels[y][x]
  {
    var cs := RasterOrder(a.width, a.height);
    RasterOrderInside(a, b, a.height);
    SumAtZero(a, b, cs, root);
    if forall x, y :: 0 <= x < a.width && 0 <= y < a.height ==> a.pixels[y][x] == b.pixels[y][x] {
      forall k | 0 <= k < |cs| ensures a.At(cs[k]) == b.At(cs[k]) {
        RasterOrderMember(a.width, a.height, cs[k]);
      }
    }
    if TotalDistance(a, b, root) == 0.0 {
      forall x, y | 0 <= x < a.width && 0 <= y < a.height ensures a.pixels[y][x] == b.pixels[y][x] {
        RasterOrderMember(a.width, a.height, Coord(x, y));
        var k :| 0 <= k < |cs| && cs[k] == Coord(x, y);
        assert a.At(cs[k]) == b.At(cs[k]);
      }
    }
  }

  /** An image compared with itself scores zero. */
  lemma FitnessOfSelf(a: Image, root: nat -> real)
    requires a.Valid() && IsRoot(root)
    ensures Readable(a, a) && TotalDistance(a, a, root) == 0.0
  {
    FitnessZeroIff(a, a, root);
  }

  /** For images of one size the fitness does not depend on the order of
      its arguments. */
  lemma FitnessSymmetric(a: Image, b: Image, root: nat -> real)
    requires a.Valid() && b.Valid() && IsRoot(root)
    requires a.width == b.width && a.height == b.height
    ensures Readable(a, b) && Readable(b, a)
    ensures TotalDistance(a, b, root) == TotalDistance(b, a, root)
  {
    RasterOrderInside(a, b, a.height);
    SumAtSymmetric(a, b, RasterOrder(a.width, a.height), root);
  }

  /** A second image that differs from the first at some pixel scores
      strictly worse against it than the first does against itself. */
  lemma FitnessDetectsDifference(a: Image, b: Image, root: nat -> real, x: int, y: int)
    requires a.Valid() && b.Valid() && IsRoot(root)
    requires a.width == b.width && a.height == b.height
    requires 0 <= x < a.width && 0 <= y < a.height && a.pixels[y][x] != b.pixels[y][x]
    ensures Readable(a, b) && Readable(a, a)
    ensures TotalDistance(a, b, root) > TotalDistance(a, a, root)
  {
    FitnessOfSelf(a, root);
    FitnessNonNegative(a, b, root);
    FitnessZeroIff(a, b, root);
  }
}
