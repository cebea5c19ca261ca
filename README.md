# Polygon image evolver — a Dafny model

`working.py` approximates a target picture with 50 polygons composited by
their alpha. It runs a (1+1) hill climber:

- It starts from a genome (`DNA`) of random polygons.
- Each generation deep-copies the genome and mutates one polygon of the copy.
  It then renders the copy and scores it with `fitness`, the summed per-pixel
  RGB distance to the target.
- The copy replaces the held genome only when its score is strictly lower.
- Every 100 generations the held genome is saved as a snapshot.

This project models the data and decision side of that program in Dafny:

- `primitives.dfy` (module `Primitives`): the constants, points and RGBA
  colours, `generate_point` and `generate_color`.
- `polygon.dfy` (module `Polygons`): `Polygon`, a class with a colour field
  and an array of points. `Polygon.Mutate` overwrites one colour channel or
  one array slot in place. `MutatedValue` is its specification.
- `genome.dfy` (module `Genome`):
  - `Dna`, a class over a sequence of `Polygon` objects;
  - `GenerateDna`, the nested construction loop;
  - `Dna.Mutate`, which deep-copies, mutates one polygon of the copy, and
    modifies no object that existed before the call.
- `fitness.dfy` (module `Fitness`): images as grids of integer RGB triples and
  the double loop of `fitness`. Its properties are proved:
  - it is never negative;
  - it is zero exactly when the second image agrees with the first at every
    pixel of the first;
  - it is symmetric for images of one size;
  - the loop visits every pixel of the first image exactly once.
- `evolution.dfy` (module `Evolution`): the accept/count/snapshot state
  machine of the main loop, both as a pure function `Select` iterated by
  `Run` and as the class `Evolver` whose `Step` updates its fields.

Every call of `random.random` or `random.randrange` becomes a parameter. Its
precondition is the half-open range the call draws from:

- `MutationDraws` holds the draws of one `Polygon.mutate`;
- `PolygonDraws` holds those of one polygon of `generate_dna`;
- `Dna.Mutate` takes the polygon index `rand`.

`math.sqrt` becomes a parameter `root: nat -> real` of which only `IsRoot` is
known: it is 0 at 0 and positive elsewhere. Rendering is outside the model, so
the child's fitness is an input to `Evolver.Step`.

A distance between two images would be expected to reject mismatched sizes.
The code does not check sizes. It walks the first image's rows and columns and
reads the same coordinate from the second image. It therefore fails (an
`IndexError` from `getpixel`) exactly when the second image lacks one of those
pixels, and it silently accepts a larger second image. The model follows the
code: `ComputeFitness` returns `PixelOutOfRange` exactly when `Readable`
fails, and otherwise the sum over the first image's pixels.

## Model

| member | source | states |
|---|---|---|
| Primitives.WithChannel | working.py:36-38 | overwriting colour channel `idx` sets exactly that channel to the value, keeps the other three, and keeps every channel in `[0, 256)` |
| Primitives.GeneratePoint | working.py:109-112 | the point lies in `[-10, width + 10) x [-10, height + 10)` |
| Primitives.GenerateColor | working.py:114-119 | every one of the four channels lies in `[0, 256)` |
| Polygons.MutatedValue | working.py:30-43 | colour branch (`coin <= 0.5`): only channel `idx` changes, to `value`, and the points are untouched; point branch: the colour and the point count are kept, only point `idx` changes, and it becomes the freshly drawn point `(x, y)`, within the `generate_point` bounds; a well-formed polygon stays well formed |
| Polygons.Polygon.constructor | working.py:20-22 | the polygon holds the given colour and a freshly allocated array with the given points |
| Polygons.Polygon.Mutate | working.py:30-43 | the in-place update leaves the polygon at `MutatedValue` of its old value; the colour branch does not touch the point array and the point branch does not touch the colour |
| Polygons.Polygon.Copy | working.py:86 | the deep copy of one polygon is a new object with a new point array and the same colour and points |
| Genome.DrawnColor | working.py:133 | the colour is valid; it is opaque white when the colour is fixed and the drawn channels otherwise |
| Genome.DrawnPoints | working.py:127-131 | one point per drawn corner, every one within the `generate_point` bounds |
| Genome.Dna.constructor | working.py:46-48 | a genome over a list with no shared polygon or point array and only well-formed polygons is valid, and its footprint is exactly those polygons and arrays |
| Genome.DeepCopy | working.py:86 | `copy.deepcopy` of the polygon list: a list of the same length, each entry a new polygon with a new point array and the same value, with no two entries sharing an object |
| Genome.Dna.Mutate | working.py:85-91 | the child is new, is built from new objects only, and is valid. It has the parent's size and polygon count. Every polygon except `rand` equals the parent's, and polygon `rand` is `MutatedValue` of the parent's. The method has no `modifies` clause, so no parent object changes, and the parent's polygon values are equal before and after |
| Genome.GenerateDna | working.py:121-138 | exactly 50 polygons whatever `dnaSize` is. Polygon `i` has the colour and points drawn for it: 3 to 5 points within the `generate_point` bounds, and opaque white when the colour is fixed. The genome is new and valid |
| Fitness.SquaredDistance | working.py:100-104 | the squared RGB distance is zero exactly when the two pixels are equal |
| Fitness.PixelDistance | working.py:104 | a pixel's distance is never negative and is zero exactly when the two pixels are equal |
| Fitness.PixelDistanceSymmetric | working.py:100-104 | the pixel distance does not depend on the order of the two pixels |
| Fitness.RowOrderCount | working.py:96 | the inner loop visits each column of its row exactly once and no other coordinate |
| Fitness.RasterOrderCount | working.py:95-96 | the double loop visits every `(x, y)` with `0 <= x < width`, `0 <= y < height` exactly once and no other coordinate |
| Fitness.RasterOrderMember | working.py:95-96 | a coordinate is visited iff it lies inside the first image |
| Fitness.ComputeFitness | working.py:93-107 | the loop fails iff the second image lacks a pixel of the first; otherwise it returns `TotalDistance`, the sum of the pixel distances over the first image in raster order |
| Fitness.SumAtNonNegative | working.py:104-106 | a sum of pixel distances is never negative |
| Fitness.SumAtZero | working.py:104-106 | a sum of pixel distances is zero iff the images agree at every summed coordinate |
| Fitness.SumAtSymmetric | working.py:100-106 | swapping the images does not change a sum of pixel distances |
| Fitness.FitnessNonNegative | working.py:93-107 | the fitness is never negative |
| Fitness.FitnessZeroIff | working.py:93-107 | the fitness is zero iff the two images agree on red, green and blue at every pixel of the first |
| Fitness.FitnessOfSelf | working.py:93-107 | an image scores zero against itself |
| Fitness.FitnessSymmetric | working.py:93-107 | for images of one size the fitness is symmetric in its arguments |
| Fitness.FitnessDetectsDifference | working.py:93-107 | an image of the same size that differs at some pixel scores strictly higher than the target against itself |
| Evolution.Select | working.py:160-168 | the child replaces the held genome and fitness iff its fitness is strictly lower, so the held fitness never rises. `generations` grows by one. From any state, `pic_nr` grows by one when the new count is a multiple of 100 and stays the same otherwise, and `pic_nr == generations / 100` is preserved |
| Evolution.RunInvariant | working.py:156-168 | after `n` generations the count has grown by `n` and `pic_nr` equals the number of completed intervals. The held fitness is at most the start's and every child's, and the held pair is the start's or one of the children's |
| Evolution.SnapshotCount | working.py:155-168 | starting from zero, after `n` generations `pic_nr == n / 100` |
| Evolution.Evolver.constructor | working.py:150-155 | the loop starts from a new, valid genome of 50 polygons, polygon `i` being opaque white with exactly the points drawn for it by `generate_dna`, with its fitness and both counters at zero |
| Evolution.Evolver.Record | working.py:160-169 | the fields move to `Select` of the old state. A snapshot of the held genome is appended exactly when the new generation count is a multiple of 100. The invariant `pic_nr == generations / 100 == number of snapshots` is kept |
| Evolution.Evolver.Step | working.py:156-169 | one loop pass. The child comes from `Dna.Mutate` and leaves the old held genome's polygons unchanged. The state moves to `Select` of the old state, with a snapshot on every hundredth generation |

## Left out

- Rendering (`DNA.draw`: alpha compositing, the Gaussian blur, `show`, `save`, the temporary file name) is PIL and file I/O. The model takes the rendered child's fitness as an input.
- `load_image`, the `argv` check and `sys.exit` are process plumbing and are not modelled.
- All `print` calls and the `__str__`, `__unicode__` and `print_polygons` helpers only format output and are not modelled.
- The random number generator is not modelled. Each draw is a parameter constrained to its range, so every property holds for every outcome of the draws.
- Floating point is not modelled. `math.sqrt` is the parameter `root`, known only to be 0 at 0 and positive elsewhere. The accumulator is an exact `real`, so rounding in the running sum is not captured.
- The `generation` field of `DNA` is never read and is not modelled.
- The shared mutable default arguments `points=[]` and `polygons=[]` are never relied on, because every call passes its own list. The model gives every object its own fresh storage.
- Genome.DeepCopy: `copy.deepcopy` keeps sharing inside the copied list, but `DeepCopy` always gives every entry new objects. The two agree on the genomes the program builds, because `Dna.Valid` rules out sharing and `GenerateDna` and `Dna.Mutate` never create it.
- Fitness.ComputeFitness: the model's pixels are RGB triples. A target whose pixels are not RGB triples (an alpha, greyscale or palette image) makes the three-way unpacking of `getpixel` fail; that failure is not modelled.
- The snapshot sink receives the held genome itself (`Evolver.snapshots`). The rendered, blurred picture written to disk is not modelled.
- Evolution.Evolver.Step covers one pass of the endless `while True` loop. Repeating it forever is covered by `Run` and `RunInvariant` over any finite number of passes.
