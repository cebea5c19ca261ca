/** The body of the main loop: mutate the held genome, keep the child only if
    its fitness is strictly lower, count the generation, and every
    `SnapshotInterval` generations hand the held genome to the snapshot sink.
    Rendering and scoring the child happen outside; its fitness is an input. */
module Evolution {
  import opened Primitives
  import opened Polygons
  import opened Genome

  /** Generations between two snapshots. */
  const SnapshotInterval := 100

  /** What the loop carries from one generation to the next: the held genome
      and its fitness, the generation count and the snapshot number. */
  datatype LoopState<G> = LoopState(genome: G, fitness: real, generations: nat, picNr: nat)

  /** One snapshot has been taken per completed interval of generations. */
  predicate SnapshotsOnTime<G>(s: LoopState<G>) {
    s.picNr == s.generations / SnapshotInterval
  }

  /** Adding a generation completes an interval exactly when the new count is
      a multiple of the interval. */
  lemma IntervalStep(g: nat)
    ensures (g + 1) / SnapshotInterval == g / SnapshotInterval + (if (g + 1) % SnapshotInterval == 0 then 1 else 0)
  {
  }

  /** One generation of the loop, given the child and its fitness. */
  function Select<G>(s: LoopState<G>, child: G, childFitness: real): (t: LoopState<G>)
    // greedy acceptance: the child replaces the held pair iff it is strictly better
    ensures childFitness < s.fitness ==> t.genome == child && t.fitness == childFitness
    ensures !(childFitness < s.fitness) ==> t.genome == s.genome && t.fitness == s.fitness
    ensures t.fitness <= s.fitness && t.fitness <= childFitness
    ensures t.generations == s.generations + 1
    ensures t.picNr == s.picNr + (if t.generations % SnapshotInterval == 0 then 1 else 0)
    ensures SnapshotsOnTime(s) ==> SnapshotsOnTime(t)
  {
    IntervalStep(s.generations);
    var accepted := childFitness < s.fitness;
    var generations := s.generations + 1;
    LoopState(if accepted then child else s.genome,
              if accepted then childFitness else s.fitness,
              generations,
              if generations % SnapshotInterval == 0 then s.picNr + 1 else s.picNr)
  }

  /** The loop run over a sequence of (child, child fitness) pairs. */
  function Run<G>(s: LoopState<G>, children: seq<(G, real)>): LoopState<G>
    decreases |children|
  {
    if children == [] then s
    else
      var last := children[|children| - 1];
      Select(Run(s, children[..|children| - 1]), last.0, last.1)
  }

  /** After any number of generations the count has grown by that number,
      the snapshot number is the number of completed intervals, the held
      fitness is no higher than the start's or any child's, and the held pair
      is the start's or one of the children's. */
  lemma {:induction false} RunInvariant<G>(s: LoopState<G>, children: seq<(G, real)>)
    requires SnapshotsOnTime(s)
    ensures Run(s, children).generations == s.generations + |children|
    ensures SnapshotsOnTime(Run(s, children))
    ensures Run(s, children).fitness <= s.fitness
    ensures forall i :: 0 <= i < |children| ==> Run(s, children).fitness <= children[i].1
    ensures (Run(s, children).genome == s.genome && Run(s, children).fitness == s.fitness)
            || exists i :: 0 <= i < |children| && children[i] == (Run(s, children).genome, Run(s, children).fitness)
    decreases |children|
  {
    if children != [] {
      var init := children[..|children| - 1];
      RunInvariant(s, init);
      var r := Run(s, init);
      assert forall i :: 0 <= i < |init| ==> init[i] == children[i];
      if r.genome == s.genome && r.fitness == s.fitness {
      } else {
        var i :| 0 <= i < |init| && init[i] == (r.genome, r.fitness);
        assert children[i] == (r.genome, r.fitness);
      }
    }
  }

  /** Starting from generation 0, after `n` generations the snapshot number
      is `n / SnapshotInterval`. */
  lemma SnapshotCount<G>(genome: G, fitness: real, children: seq<(G, real)>)
    ensures Run(LoopState(genome, fitness, 0, 0), children).picNr == |children| / SnapshotInterval
  {
    RunInvariant(LoopState(genome, fitness, 0, 0), children);
  }

  /** The state of `main`: the held genome `dna`, `fitness_parent`,
      `generations`, `pic_nr`, and the genomes sent to the snapshot sink. */
  class Evolver {
    var best: Dna
    var bestFitness: real
    var generations: nat
    var picNr: nat
    /** Snapshot `k + 1` shows `snapshots[k]`. */
    var snapshots: seq<Dna>

    ghost function State(): LoopState<Dna>
      reads this
    {
      LoopState(best, bestFitness, generations, picNr)
    }

    ghost predicate Valid()
      reads this, best.Repr
    {
      best.Valid() && this !in best.Repr && SnapshotsOnTime(State()) && |snapshots| == picNr
    }

    /** Start-up: a genome of white polygons from `generate_dna`, its fitness
        against the target (computed outside), and both counters at zero. */
    constructor (width: nat, height: nat, draws: seq<PolygonDraws>, fitness: real)
      requires |draws| == PolygonCount
      requires forall i :: 0 <= i < |draws| ==> draws[i].Fits(width, height, true)
      ensures Valid() && fresh(best)
      ensures best.width == width && best.height == height && |best.polygons| == PolygonCount
      ensures fresh(best.Repr)
      ensures forall i :: 0 <= i < PolygonCount ==>
                best.polygons[i].Value() == PolygonValue(White, DrawnPoints(draws[i], width, height, true))
      ensures bestFitness == fitness && generations == 0 && picNr == 0 && snapshots == []
    {
      var dna := GenerateDna(width, height, PolygonCount, true, draws);
      best := dna;
      bestFitness := fitness;
      generations, picNr := 0, 0;
      snapshots := [];
    }

    /** The bookkeeping half of one pass: keep the child if it is strictly
        better, count the generation, and take a snapshot on every multiple
        of `SnapshotInterval`. */
    method Record(child: Dna, childFitness: real)
      requires Valid() && child.Valid() && this !in child.Repr
      modifies this
      ensures Valid()
      ensures State() == Select(old(State()), child, childFitness)
      ensures snapshots == old(snapshots) + if generations % SnapshotInterval == 0 then [best] else []
    {
      if childFitness < bestFitness {
        best := child;
        bestFitness := childFitness;
      }
      generations := generations + 1;
      IntervalStep(generations - 1);
      if generations % SnapshotInterval == 0 {
        picNr := picNr + 1;
        snapshots := snapshots + [best];
      }
    }

    /** One pass of the `while True` body. The child is built by
        `Dna.Mutate` from draws `rand` and `d`; `childFitness` is its score. */
    method Step(rand: int, d: MutationDraws, childFitness: real) returns (child: Dna)
      requires Valid()
      requires InRange(rand, 0, |best.polygons|)
      requires d.Fits(best.polygons[rand].points.Length, best.width, best.height)
      modifies this
      ensures Valid()
      ensures fresh(child) && child.Valid() && child.width == old(best).width && child.height == old(best).height
      ensures |child.polygons| == |old(best).polygons|
      ensures forall i :: 0 <= i < |child.polygons| && i != rand ==>
                child.polygons[i].Value() == old(best.polygons[i].Value())
      ensures child.polygons[rand].Value() == MutatedValue(old(best.polygons[rand].Value()), child.width, child.height, d)
      ensures forall i :: 0 <= i < |child.polygons| ==> old(best).polygons[i].Value() == old(best.polygons[i].Value())
      ensures State() == Select(old(State()), child, childFitness)
      ensures snapshots == old(snapshots) + if generations % SnapshotInterval == 0 then [best] else []
    {
      child := best.Mutate(rand, d);
      Record(child, childFitness);
    }
  }
}
