/**
  The bounded discrete-logarithm solver: a table of baby steps and a walk of giant steps.
  It is an exact decision procedure for the multiples `0*G .. bound*G` of the generator.
 */
module DiscreteLog {
  import opened Common
  import opened Modular

  datatype Solver = Solver(bound: nat, width: nat, babies: map<Point, nat>, negativeGiant: Point)

  /** `v` times the generator, as the canonical point that serves as a table key. */
  function PointTimes(q: int, G: Point, v: int): (p: Point)
    requires q > 0
    ensures 0 <= p < q
  {
    v * G % q
  }

  /** Small multiples of a generator are distinct. */
  lemma TimesInjective(q: int, G: Point, v: int, w: int)
    requires Prime(q) && G % q != 0 && 0 <= v < q && 0 <= w < q && PointTimes(q, G, v) == PointTimes(q, G, w)
    ensures v == w
  {
    Cancel(q, G, v, w);
    ModSmall(q, v);
    ModSmall(q, w);
  }

  /** Point addition. */
  function Add(q: int, a: Point, b: Point): Point
    requires q > 0
  {
    (a + b) % q
  }

  lemma TimesNext(q: int, G: Point, v: int, w: int)
    requires q > 0
    ensures (PointTimes(q, G, v) + PointTimes(q, G, w)) % q == PointTimes(q, G, v + w)
    ensures (-PointTimes(q, G, v)) % q == PointTimes(q, G, -v)
  {
    ModAdd(q, v * G, PointTimes(q, G, w));
    ModAdd(q, v * G, w * G);
    assert (v + w) * G == v * G + w * G;
    ModCong(q, v * G);
    CongNeg(q, PointTimes(q, G, v), v * G);
    assert (-v) * G == -(v * G);
  }

  /** The table holds exactly the first `width` multiples, each with its own index. */
  ghost predicate Babies(q: int, G: Point, babies: map<Point, nat>, width: nat)
    requires q > 0
  {
    (forall j :: 0 <= j < width ==> PointTimes(q, G, j) in babies && babies[PointTimes(q, G, j)] == j) &&
    (forall p :: p in babies ==> babies[p] < width && p == PointTimes(q, G, babies[p]))
  }

  ghost predicate Valid(q: int, G: Point, s: Solver) {
    && Prime(q) && G % q != 0
    && 0 < s.width <= q && s.bound < q && s.bound < s.width * s.width
    && Babies(q, G, s.babies, s.width)
    && s.negativeGiant == PointTimes(q, G, 0 - s.width)
  }

  /**
    The solver for a bound, from whatever square-root estimate the floating-point unit gives.
    All its arithmetic stays within 64 bits.
   */
  method NewSolver(q: int, G: Point, bound: nat, estimate: nat) returns (s: Solver)
    requires Prime(q) && G % q != 0 && bound < q
    requires estimate <= q && estimate < 0x8000_0000 && bound <= 0x1_0000_0000
    ensures Valid(q, G, s) && s.bound == bound
    ensures s.width * s.width + s.width < WORD
  {
    var rangeSize := bound + 1;
    var width := estimate;
    while width * width < rangeSize
      invariant width <= q && width < 0x8000_0000
      decreases rangeSize - width
    {
      assert width < rangeSize by {
        if width > 0 { assert width * width >= width; }
      }
      assert width < 65537 by {
        assert width >= 65537 ==> width * width >= 65537 * 65537;
      }
      width := width + 1;
    }
    assert width > 0;
    assert width * width < 0x8000_0000 * 0x8000_0000;
    var babies := BabySteps(q, G, width);
    ModSmall(q, 0);
    var giant := PointTimes(q, G, width);
    TimesNext(q, G, width, 0);
    s := Solver(bound, width, babies, (-giant) % q);
  }

  method BabySteps(q: int, G: Point, width: nat) returns (babies: map<Point, nat>)
    requires Prime(q) && G % q != 0 && width <= q
    ensures Babies(q, G, babies, width)
  {
    babies := map[];
    var current := 0;
    ModSmall(q, 0);
    for j := 0 to width
      invariant current == PointTimes(q, G, j)
      invariant Babies(q, G, babies, j)
    {
      forall k | 0 <= k < j ensures PointTimes(q, G, k) != current {
        if PointTimes(q, G, k) == current {
          TimesInjective(q, G, k, j);
        }
      }
      babies := babies[current := j];
      TimesNext(q, G, j, 1);
      ModAdd(q, current, G);
      current := (current + G) % q;
    }
  }

  /** Some multiple of the generator within the bound is the target. */
  ghost predicate Solvable(q: int, G: Point, bound: nat, target: Point)
    requires q > 0
  {
    exists v: nat :: v <= bound && PointTimes(q, G, v) == target
  }

  /** No multiple below `limit` is the target. */
  ghost predicate NoneBelow(q: int, G: Point, bound: nat, target: Point, limit: int)
    requires q > 0
  {
    forall v: nat :: v <= bound && v < limit ==> PointTimes(q, G, v) != target
  }

  /** The exact answer: the one multiple within the bound, or a failure for any other point. */
  method Solve(q: int, G: Point, s: Solver, target: Point) returns (r: Option<nat>)
    requires Valid(q, G, s) && 0 <= target < q
    ensures r.Some? <==> Solvable(q, G, s.bound, target)
    ensures r.Some? ==> r.value <= s.bound && PointTimes(q, G, r.value) == target
    ensures forall v: nat :: v <= s.bound && PointTimes(q, G, v) == target ==> r == Some(v)
  {
    hide PointTimes, Valid, Walk, Add, Multiple;
    ValidBounds(q, G, s);
    var candidate := target;
    ghost var start := 0;
    StartWalk(q, G, target);
    for i := 0 to s.width + 1
      invariant start == i * s.width && candidate == Walk(q, G, target, start)
      invariant NoneBelow(q, G, s.bound, target, start)
    {
      if candidate in s.babies {
        var j := s.babies[candidate];
        BabyIndex(q, G, s, candidate);
        var value := i * s.width + j;
        StepBack(q, G, target, start, j);
        if value <= s.bound {
          OnlyAnswer(q, G, s, target, value);
          return Some(value);
        }
      }
      NoneInWindow(q, G, s, target, start);
      GiantStep(q, G, s, target, start);
      NextStart(i, s.width);
      candidate := Add(q, candidate, s.negativeGiant);
      start := start + s.width;
    }
    NextStart(s.width, s.width);
    r := None;
  }

  /** The target moved back by `start` steps. */
  function Walk(q: int, G: Point, target: Point, start: int): Point
    requires q > 0
  {
    (target - Multiple(start, G)) % q
  }

  lemma StartWalk(q: int, G: Point, target: Point)
    requires 0 <= target < q
    ensures Walk(q, G, target, 0) == target
  {
    ModSmall(q, target);
  }

  lemma NextStart(i: nat, width: nat)
    ensures (i + 1) * width == i * width + width
  {}

  lemma ValidBounds(q: int, G: Point, s: Solver)
    requires Valid(q, G, s)
    ensures q > 0 && s.bound < s.width * s.width
  {}

  lemma BabyIndex(q: int, G: Point, s: Solver, p: Point)
    requires Valid(q, G, s) && p in s.babies
    ensures s.babies[p] < s.width && p == PointTimes(q, G, s.babies[p])
  {}

  lemma OnlyAnswer(q: int, G: Point, s: Solver, target: Point, value: nat)
    requires Valid(q, G, s) && value <= s.bound && PointTimes(q, G, value) == target
    ensures forall v: nat :: v <= s.bound && PointTimes(q, G, v) == target ==> v == value
  {
    forall v: nat | v <= s.bound && PointTimes(q, G, v) == target ensures v == value {
      TimesInjective(q, G, v, value);
    }
  }

  /** When the candidate is no baby, or one beyond the bound, no multiple in this window is the target. */
  lemma NoneInWindow(q: int, G: Point, s: Solver, target: Point, start: nat)
    requires Valid(q, G, s) && 0 <= target < q
    requires var candidate := Walk(q, G, target, start);
             candidate in s.babies ==> start + s.babies[candidate] > s.bound
    requires NoneBelow(q, G, s.bound, target, start)
    ensures NoneBelow(q, G, s.bound, target, start + s.width)
  {
    forall v: nat | v <= s.bound && v < start + s.width ensures PointTimes(q, G, v) != target {
      if v >= start {
        StepBack(q, G, target, start, v - start);
        assert PointTimes(q, G, v - start) in s.babies && s.babies[PointTimes(q, G, v - start)] == v - start;
      }
    }
  }

  /** A candidate is a baby exactly when the target is that many steps further. */
  lemma StepBack(q: int, G: Point, target: Point, start: int, j: int)
    requires q > 0 && 0 <= target < q
    ensures Walk(q, G, target, start) == PointTimes(q, G, j) <==> PointTimes(q, G, start + j) == target
  {
    assert (start + j) * G == start * G + j * G;
    ModSmall(q, target);
    CongZero(q, target - start * G, j * G);
    CongZero(q, (start + j) * G, target);
    var d := target - start * G - j * G;
    assert (start + j) * G - target == -d;
    if d % q == 0 {
      ModSmall(q, 0);
      CongNeg(q, d, 0);
    }
    if (-d) % q == 0 {
      ModSmall(q, 0);
      CongNeg(q, -d, 0);
    }
  }

  lemma GiantStep(q: int, G: Point, s: Solver, target: Point, start: int)
    requires Valid(q, G, s)
    ensures Add(q, Walk(q, G, target, start), s.negativeGiant) == Walk(q, G, target, start + s.width)
  {
    var back := (0 - s.width) * G;
    ModAdd(q, target - start * G, PointTimes(q, G, 0 - s.width));
    ModAdd(q, target - start * G, back);
    MultipleSum(start, s.width, G);
  }

  lemma MultipleSum(a: int, b: int, g: int)
    ensures Multiple(a + b, g) == Multiple(a, g) + Multiple(b, g) && (0 - b) * g == -Multiple(b, g)
  {}
}
