/** Surface picking: bisection of the mouse ray inside one terrain block,
    snapping of the hit to a voxel centre, and the scan over all blocks that
    keeps the nearest hit. `track` itself, which writes these results into the
    editor, is in module Tracking. */
module Cursor {
  import opened Engine

  /** A sample closer to zero than this is on the surface. */
  const Tolerance: real := 0.001

  /** The depth counter value at which bisection gives up. */
  const MaxDepth: nat := 200

  /** Cursor radius when voxel selection is off. */
  const FreeCursorSize: real := 32.0

  /** The published cursor: the hit point, the block it lies in, and the
      radius of the cursor wire frame. */
  datatype State = State(position: Vec3, block: Vec3i, cursorSize: real)

  function Abs(r: real): real { if r < 0.0 then -r else r }

  /** t lies between a and b, in whichever order they come. */
  predicate Between(a: real, b: real, t: real) { (a <= t <= b) || (b <= t <= a) }

  /** The lower corner of a block, subtracted from a world point before sampling. */
  function Offset(b: Block): Vec3 { ToReal(b.boundMin) }

  /** What one bisection reads: the ray, the block, and the block's loaded density. */
  datatype Sampler = Sampler(ray: Ray, block: Block, density: Density) {

    /** Both `unwrap`s of the ray succeed. */
    predicate Ready() { ray.origin.Some? && ray.direction.Some? }

    /** The point `direction * t + origin`. */
    function PointAt(t: real): Vec3
      requires Ready()
    {
      Add(Scale(ray.direction.value, t), ray.origin.value)
    }

    /** The sample at distance t exists (the `expect` does not fire). */
    predicate Inside(t: real)
      requires Ready()
    {
      density(block.voxelSize, Sub(PointAt(t), Offset(block))).Some?
    }

    function ValueAt(t: real): real
      requires Ready() && Inside(t)
    {
      density(block.voxelSize, Sub(PointAt(t), Offset(block))).value
    }

    /** Every distance between lo and hi can be sampled. */
    ghost predicate Covers(lo: real, hi: real)
    {
      Ready() && forall t :: Between(lo, hi, t) ==> Inside(t)
    }
  }

  /** `binary_search`: bisect [distanceMin, distanceMax] until the midpoint
      sample is within Tolerance of zero, or give up once the depth counter
      has reached MaxDepth. A negative sample keeps the upper half, any other
      sample the lower half. */
  function BinarySearch(distanceMin: real, distanceMax: real, s: Sampler, count: nat): (r: Option<(Vec3, real)>)
    requires count <= MaxDepth
    requires s.Covers(distanceMin, distanceMax)
    decreases MaxDepth - count
    ensures r.Some? ==> Between(distanceMin, distanceMax, r.value.1)
    ensures r.Some? ==>
      s.Inside(r.value.1) && r.value.0 == s.PointAt(r.value.1) && Abs(s.ValueAt(r.value.1)) < Tolerance
  {
    var distance := distanceMin + (distanceMax - distanceMin) / 2.0;
    var point := s.PointAt(distance);
    var value := s.ValueAt(distance);
    if Abs(value) < Tolerance then
      Some((point, distance))
    else if count == MaxDepth then
      None
    else
      var (lo, hi) := if value < 0.0 then (distance, distanceMax) else (distanceMin, distance);
      BinarySearch(lo, hi, s, count + 1)
  }

  // ---------------------------------------------------------------------
  // An iteration-indexed view of the bisection: the k-th bracket.

  datatype Interval = Interval(lo: real, hi: real)

  function Mid(iv: Interval): real { iv.lo + (iv.hi - iv.lo) / 2.0 }

  function Width(iv: Interval): real { iv.hi - iv.lo }

  /** The half kept after sampling `value` at the midpoint. */
  function Narrow(iv: Interval, value: real): Interval
  {
    if value < 0.0 then Interval(Mid(iv), iv.hi) else Interval(iv.lo, Mid(iv))
  }

  /** The midpoint sample of iv is on the surface. */
  ghost predicate Hits(s: Sampler, iv: Interval)
    requires s.Covers(iv.lo, iv.hi)
  {
    Abs(s.ValueAt(Mid(iv))) < Tolerance
  }

  /** One bisection step: the half that the midpoint sample selects. */
  function Next(s: Sampler, iv: Interval): (b: Interval)
    requires s.Covers(iv.lo, iv.hi)
    ensures Between(iv.lo, iv.hi, b.lo) && Between(iv.lo, iv.hi, b.hi)
    ensures s.Covers(b.lo, b.hi)
  {
    Narrow(iv, s.ValueAt(Mid(iv)))
  }

  /** The bracket after k bisection steps from iv. */
  function Bracket(s: Sampler, iv: Interval, k: nat): (b: Interval)
    requires s.Covers(iv.lo, iv.hi)
    decreases k
    ensures Between(iv.lo, iv.hi, b.lo) && Between(iv.lo, iv.hi, b.hi)
    ensures s.Covers(b.lo, b.hi)
  {
    if k == 0 then iv else Bracket(s, Next(s, iv), k - 1)
  }

  function Pow2(k: nat): (p: nat)
    ensures p >= 1
  {
    if k == 0 then 1 else 2 * Pow2(k - 1)
  }

  /** w halved k times. */
  function Halved(w: real, k: nat): real
    decreases k
  {
    if k == 0 then w else Halved(w / 2.0, k - 1)
  }

  /** Halving k times is dividing by 2^k. */
  lemma {:induction false} HalvedIsPow2(w: real, k: nat)
    decreases k
    ensures Halved(w, k) * (Pow2(k) as real) == w
  {
    if k > 0 {
      HalvedIsPow2(w / 2.0, k - 1);
      Doubling(Halved(w / 2.0, k - 1), Pow2(k - 1) as real, w / 2.0);
    }
  }

  lemma Doubling(h: real, p: real, half: real)
    requires h * p == half
    ensures h * (2.0 * p) == half * 2.0
  {
  }

  /** Each step halves the bracket: after k steps it is 2^-k of the original. */
  lemma {:induction false} BracketWidth(s: Sampler, iv: Interval, k: nat)
    requires s.Covers(iv.lo, iv.hi)
    decreases k
    ensures Width(Bracket(s, iv, k)) == Halved(Width(iv), k)
  {
    if k > 0 {
      var next := Next(s, iv);
      BracketWidth(s, next, k - 1);
      assert Width(next) == Width(iv) / 2.0;
    }
  }

  /** A bracket that starts with a negative sample at its lower end and a
      positive one at its upper end keeps that sign change while no midpoint
      has hit the surface. */
  lemma {:induction false} BracketKeepsSignChange(s: Sampler, iv: Interval, k: nat)
    requires s.Covers(iv.lo, iv.hi)
    requires s.ValueAt(iv.lo) < 0.0 < s.ValueAt(iv.hi)
    requires forall j :: 0 <= j < k ==> !Hits(s, Bracket(s, iv, j))
    decreases k
    ensures s.ValueAt(Bracket(s, iv, k).lo) < 0.0 < s.ValueAt(Bracket(s, iv, k).hi)
  {
    if k > 0 {
      assert !Hits(s, Bracket(s, iv, 0));
      var next := Next(s, iv);
      forall j | 0 <= j < k - 1
        ensures !Hits(s, Bracket(s, next, j))
      {
        assert Bracket(s, iv, j + 1) == Bracket(s, next, j);
      }
      BracketKeepsSignChange(s, next, k - 1);
    }
  }

  /** Below depth MaxDepth and off the surface, `binary_search` recurses
      into the half that the bracket view calls Next. */
  lemma SearchStep(lo: real, hi: real, s: Sampler, count: nat)
    requires count < MaxDepth
    requires s.Covers(lo, hi)
    requires !Hits(s, Interval(lo, hi))
    ensures BinarySearch(lo, hi, s, count)
      == BinarySearch(Next(s, Interval(lo, hi)).lo, Next(s, Interval(lo, hi)).hi, s, count + 1)
  {
  }

  /** Bracket k is the midpoint of the first of brackets 0..k to hit the surface. */
  ghost predicate FirstHitAt(s: Sampler, iv: Interval, k: nat)
    requires s.Covers(iv.lo, iv.hi)
  {
    Hits(s, Bracket(s, iv, k)) && forall j :: 0 <= j < k ==> !Hits(s, Bracket(s, iv, j))
  }

  /** `binary_search` called at depth `count` gives up exactly when none of
      brackets 0 to MaxDepth - count hits the surface: it samples the density
      at most MaxDepth - count + 1 times. */
  lemma {:induction false} SearchFailsIffNoHit(lo: real, hi: real, s: Sampler, count: nat)
    requires count <= MaxDepth
    requires s.Covers(lo, hi)
    decreases MaxDepth - count
    ensures BinarySearch(lo, hi, s, count).None? <==> NoHitUpTo(s, Interval(lo, hi), MaxDepth - count)
  {
    var iv := Interval(lo, hi);
    assert Bracket(s, iv, 0) == iv;
    if Hits(s, iv) {
      assert BinarySearch(lo, hi, s, count).Some?;
      assert !(forall k :: 0 <= k <= MaxDepth - count ==> !Hits(s, Bracket(s, iv, k)));
    } else if count == MaxDepth {
      assert BinarySearch(lo, hi, s, count).None?;
      forall k | 0 <= k <= MaxDepth - count
        ensures !Hits(s, Bracket(s, iv, k))
      {
        assert k == 0;
      }
    } else {
      var next := Next(s, iv);
      SearchFailsIffNoHit(next.lo, next.hi, s, count + 1);
      assert Interval(next.lo, next.hi) == next;
      NoHitShift(s, iv, MaxDepth - count);
      SearchStep(lo, hi, s, count);
    }
  }

  /** None of brackets 0..m of iv has its midpoint on the surface. */
  ghost predicate NoHitUpTo(s: Sampler, iv: Interval, m: nat)
    requires s.Covers(iv.lo, iv.hi)
  {
    forall k :: 0 <= k <= m ==> !Hits(s, Bracket(s, iv, k))
  }

  /** Brackets 0..m of iv miss the surface exactly when iv does and brackets
      0..m-1 of Next(iv) do. */
  lemma NoHitShift(s: Sampler, iv: Interval, m: nat)
    requires s.Covers(iv.lo, iv.hi) && m > 0
    ensures NoHitUpTo(s, iv, m) <==> !Hits(s, iv) && NoHitUpTo(s, Next(s, iv), m - 1)
  {
    var next := Next(s, iv);
    assert Bracket(s, iv, 0) == iv;
    if NoHitUpTo(s, iv, m) {
      forall k | 0 <= k <= m - 1
        ensures !Hits(s, Bracket(s, next, k))
      {
        assert Bracket(s, iv, k + 1) == Bracket(s, next, k);
      }
    }
    if !Hits(s, iv) && NoHitUpTo(s, next, m - 1) {
      forall k | 0 <= k <= m
        ensures !Hits(s, Bracket(s, iv, k))
      {
        if k > 0 {
          assert Bracket(s, iv, k) == Bracket(s, next, k - 1);
        }
      }
    }
  }

  /** When `binary_search` succeeds, the distance it returns is the midpoint
      of the first bracket whose midpoint sample is on the surface. */
  lemma {:induction false} SearchReturnsFirstHit(lo: real, hi: real, s: Sampler, count: nat)
    requires count <= MaxDepth
    requires s.Covers(lo, hi)
    requires BinarySearch(lo, hi, s, count).Some?
    decreases MaxDepth - count
    ensures exists k :: (0 <= k <= MaxDepth - count
      && FirstHitAt(s, Interval(lo, hi), k)
      && BinarySearch(lo, hi, s, count).value.1 == Mid(Bracket(s, Interval(lo, hi), k)))
  {
    var iv := Interval(lo, hi);
    assert Bracket(s, iv, 0) == iv;
    if Hits(s, iv) {
      assert FirstHitAt(s, iv, 0);
    } else {
      var next := Next(s, iv);
      SearchStep(lo, hi, s, count);
      SearchReturnsFirstHit(next.lo, next.hi, s, count + 1);
      assert Interval(next.lo, next.hi) == next;
      var k :| 0 <= k <= MaxDepth - count - 1
        && FirstHitAt(s, next, k)
        && BinarySearch(next.lo, next.hi, s, count + 1).value.1 == Mid(Bracket(s, next, k));
      assert Bracket(s, iv, k + 1) == Bracket(s, next, k);
      forall j | 0 < j < k + 1
        ensures !Hits(s, Bracket(s, iv, j))
      {
        assert Bracket(s, iv, j) == Bracket(s, next, j - 1);
      }
      assert FirstHitAt(s, iv, k + 1);
    }
  }

  /** Once every sample over the bracket is below -Tolerance, each step keeps
      the upper half, so bisection never reaches the surface. */
  lemma {:induction false} NoHitWhereAllNegative(lo: real, hi: real, s: Sampler, count: nat)
    requires count <= MaxDepth
    requires s.Covers(lo, hi)
    requires forall t :: Between(lo, hi, t) ==> s.ValueAt(t) <= -Tolerance
    decreases MaxDepth - count
    ensures BinarySearch(lo, hi, s, count).None?
  {
    var mid := lo + (hi - lo) / 2.0;
    assert Between(lo, hi, mid);
    if count < MaxDepth {
      assert forall t :: Between(mid, hi, t) ==> Between(lo, hi, t);
      NoHitWhereAllNegative(mid, hi, s, count + 1);
    }
  }

  /** How much a line with the given slope rises over a width w. */
  function Rise(slope: real, w: real): real { slope * w }

  /** The straight line through `root` with the given slope. */
  function Linear(slope: real, root: real, t: real): real { slope * (t - root) }

  /** A density that rises linearly along the ray through a root strictly
      inside [lo, hi] is found, provided halving the interval MaxDepth times
      makes it fine enough for the slope. */
  lemma RisingLinearFieldIsFound(lo: real, hi: real, s: Sampler, slope: real, root: real)
    requires s.Covers(lo, hi)
    requires lo < root < hi && slope > 0.0
    requires forall t {:trigger Linear(slope, root, t)} :: lo <= t <= hi ==> s.ValueAt(t) == Linear(slope, root, t)
    requires Rise(slope, Halved(hi - lo, MaxDepth)) < 2.0 * Tolerance
    ensures BinarySearch(lo, hi, s, 0).Some?
  {
    RisingLinearFieldFoundFrom(lo, hi, s, slope, root, 0);
  }

  /** RisingLinearFieldIsFound for a search entered at any depth `count`,
      which has MaxDepth - count halvings left. */
  lemma RisingLinearFieldFoundFrom(lo: real, hi: real, s: Sampler, slope: real, root: real, count: nat)
    requires count <= MaxDepth
    requires s.Covers(lo, hi)
    requires lo < root < hi && slope > 0.0
    requires forall t {:trigger Linear(slope, root, t)} :: lo <= t <= hi ==> s.ValueAt(t) == Linear(slope, root, t)
    requires Rise(slope, Halved(hi - lo, MaxDepth - count)) < 2.0 * Tolerance
    ensures BinarySearch(lo, hi, s, count).Some?
  {
    SearchFailsIffNoHit(lo, hi, s, count);
    if BinarySearch(lo, hi, s, count).None? {
      var n := MaxDepth - count;
      assert !Hits(s, Bracket(s, Interval(lo, hi), n));
      RisingLinearFieldHitsBy(lo, hi, s, slope, root, n);
    }
  }

  /** The bracket argument behind RisingLinearFieldIsFound, at any depth n:
      while no midpoint hits, the root stays strictly inside the bracket, so
      the n-th midpoint is within half the n-th width of it. */
  lemma RisingLinearFieldHitsBy(lo: real, hi: real, s: Sampler, slope: real, root: real, n: nat)
    requires s.Covers(lo, hi)
    requires lo < root < hi && slope > 0.0
    requires forall t {:trigger Linear(slope, root, t)} :: lo <= t <= hi ==> s.ValueAt(t) == Linear(slope, root, t)
    requires Rise(slope, Halved(hi - lo, n)) < 2.0 * Tolerance
    requires forall j :: 0 <= j < n ==> !Hits(s, Bracket(s, Interval(lo, hi), j))
    ensures Hits(s, Bracket(s, Interval(lo, hi), n))
  {
    var w := Halved(hi - lo, n);
    var iv := Interval(lo, hi);
    LinearEnds(s, slope, root, lo, hi);
    BracketKeepsSignChange(s, iv, n);
    BracketWidth(s, iv, n);
    var b := Bracket(s, iv, n);
    assert b.hi - b.lo == w;
    LinearBracketHit(s, slope, root, lo, hi, b.lo, b.hi, w);
  }

  /** A rising line through a root inside [lo, hi] is negative at lo and
      positive at hi. */
  lemma LinearEnds(s: Sampler, slope: real, root: real, lo: real, hi: real)
    requires s.Covers(lo, hi)
    requires lo < root < hi && slope > 0.0
    requires forall t {:trigger Linear(slope, root, t)} :: lo <= t <= hi ==> s.ValueAt(t) == Linear(slope, root, t)
    ensures s.ValueAt(lo) < 0.0 < s.ValueAt(hi)
  {
    assert s.ValueAt(lo) == Linear(slope, root, lo);
    assert s.ValueAt(hi) == Linear(slope, root, hi);
    LinearSign(slope, root, lo);
    LinearSign(slope, root, hi);
  }

  /** A sub-bracket [a, c] of [lo, hi] of width w across the root has its
      midpoint sample within slope * w / 2 of zero. */
  lemma LinearBracketHit(s: Sampler, slope: real, root: real, lo: real, hi: real, a: real, c: real, w: real)
    requires s.Covers(lo, hi) && slope > 0.0
    requires forall t {:trigger Linear(slope, root, t)} :: lo <= t <= hi ==> s.ValueAt(t) == Linear(slope, root, t)
    requires lo <= a <= hi
    requires lo <= c <= hi
    requires s.ValueAt(a) < 0.0 < s.ValueAt(c)
    requires c - a == w
    requires Rise(slope, w) < 2.0 * Tolerance
    ensures Abs(s.ValueAt(a + (c - a) / 2.0)) < Tolerance
  {
    assert s.ValueAt(a) == Linear(slope, root, a);
    assert s.ValueAt(c) == Linear(slope, root, c);
    FineBracket(slope, root, a, c, w);
    var m := a + (c - a) / 2.0;
    assert lo <= m <= hi;
    assert s.ValueAt(m) == Linear(slope, root, m);
  }

  /** The arithmetic of the last bracket [a, c]: a rising line negative at a
      and positive at c has its root inside, so at the midpoint it is within
      slope * (c - a) / 2 of zero. */
  lemma FineBracket(slope: real, root: real, a: real, c: real, w: real)
    requires slope > 0.0
    requires c - a == w
    requires Rise(slope, w) < 2.0 * Tolerance
    requires Linear(slope, root, a) < 0.0
    requires 0.0 < Linear(slope, root, c)
    ensures Abs(Linear(slope, root, a + (c - a) / 2.0)) < Tolerance
  {
    LinearSign(slope, root, a);
    LinearSign(slope, root, c);
    var m := a + (c - a) / 2.0;
    assert Abs(m - root) < w / 2.0;
    AbsLinear(slope, root, m);
    HalfScaled(slope, m - root, w);
  }

  /** A rising line is negative before its root and positive after it. */
  lemma LinearSign(slope: real, root: real, t: real)
    requires slope > 0.0
    ensures Linear(slope, root, t) < 0.0 <==> t < root
    ensures Linear(slope, root, t) > 0.0 <==> t > root
  {
  }

  lemma AbsLinear(slope: real, root: real, t: real)
    requires slope > 0.0
    ensures Abs(Linear(slope, root, t)) == slope * Abs(t - root)
  {
  }

  lemma HalfScaled(slope: real, x: real, w: real)
    requires slope > 0.0 && Abs(x) < w / 2.0 && slope * w < 2.0 * Tolerance
    ensures slope * Abs(x) < Tolerance
  {
    ScaledBound(slope, Abs(x), w / 2.0);
  }

  lemma ScaledBound(slope: real, a: real, b: real)
    requires slope > 0.0 && a < b
    ensures slope * a < slope * b
  {
  }

  /** A density that falls along the ray (slope < 0) is missed as soon as
      the first midpoint lies past the root by more than Tolerance / |slope|:
      every negative sample sends the search further from the root. */
  lemma FallingLinearFieldIsMissed(lo: real, hi: real, s: Sampler, slope: real, root: real)
    requires s.Covers(lo, hi) && lo <= hi && slope < 0.0
    requires forall t {:trigger Linear(slope, root, t)} :: lo <= t <= hi ==> s.ValueAt(t) == Linear(slope, root, t)
    requires Linear(slope, root, lo + (hi - lo) / 2.0) <= -Tolerance
    ensures BinarySearch(lo, hi, s, 0).None?
  {
    var mid := lo + (hi - lo) / 2.0;
    assert Between(lo, hi, mid);
    forall t | Between(mid, hi, t)
      ensures s.ValueAt(t) <= -Tolerance
    {
      assert Between(lo, hi, t);
      assert s.ValueAt(t) == Linear(slope, root, t);
      FallingBelow(slope, root, mid, t);
    }
    NoHitWhereAllNegative(mid, hi, s, 1);
  }

  lemma FallingBelow(slope: real, root: real, a: real, b: real)
    requires slope < 0.0 && a <= b
    ensures Linear(slope, root, b) <= Linear(slope, root, a)
  {
    assert Linear(slope, root, b) - Linear(slope, root, a) == slope * (b - a);
  }

  // ---------------------------------------------------------------------
  // Voxel snapping.

  /** `(p / v).floor() * v + v / 2`: the centre of the voxel cell of edge v
      that contains p. The result is half a cell above a multiple of v, and p
      lies in the half-open cell around it. */
  /** c is the centre of a voxel cell of edge v, and that cell, half-open
      at the top, holds p. */
  predicate CentreOf(c: real, p: real, v: real)
    requires v > 0.0
  {
    && c - v / 2.0 <= p < c + v / 2.0
    && (c - v / 2.0) / v == ((c - v / 2.0) / v).Floor as real
  }

  function SnapAxis(p: real, v: real): (c: real)
    requires v > 0.0
    ensures CentreOf(c, p, v)
  {
    var k := (p / v).Floor;
    FloorCell(p, v, k);
    CellIndex(k, v);
    k as real * v + v / 2.0
  }

  /** floor(p / v) = k places p in [k v, (k + 1) v). */
  lemma FloorCell(p: real, v: real, k: int)
    requires v > 0.0 && k == (p / v).Floor
    ensures k as real * v <= p < (k as real + 1.0) * v
  {
    var q := p / v;
    DivMul(p, v);
    CellBounds(p, v, k, q);
  }

  /** FloorCell once the quotient q is named: k <= q < k + 1 and q v = p. */
  lemma CellBounds(p: real, v: real, k: int, q: real)
    requires v > 0.0 && q * v == p && k as real <= q < k as real + 1.0
    ensures k as real * v <= p < (k as real + 1.0) * v
  {
    var lo, hi := k as real, k as real + 1.0;
    MulMono(v, lo, q);
    MulStrict(v, q, hi);
    assert lo * v <= p < hi * v;
  }

  /** Dividing by v and multiplying back by v is the identity. */
  lemma DivMul(p: real, v: real)
    requires v != 0.0
    ensures (p / v) * v == p
  {
  }

  /** Multiplying by a positive v keeps a non-strict order. */
  lemma MulMono(v: real, a: real, b: real)
    requires v > 0.0 && a <= b
    ensures a * v <= b * v
  {
  }

  /** Multiplying by a positive v keeps a strict order. */
  lemma MulStrict(v: real, a: real, b: real)
    requires v > 0.0 && a < b
    ensures a * v < b * v
  {
  }

  /** One more cell is one more v. */
  lemma SuccMul(j: int, v: real)
    ensures (j + 1) as real * v == j as real * v + v
  {
  }

  lemma CellIndex(k: int, v: real)
    requires v > 0.0
    ensures (k as real * v) / v == k as real
  {
  }

  lemma DivExact(x: real, y: real, v: real)
    requires v != 0.0 && x == y * v
    ensures x / v == y
  {
  }

  /** Snapping a voxel centre gives the same centre back. */
  lemma SnapAxisIdempotent(p: real, v: real)
    requires v > 0.0
    ensures SnapAxis(SnapAxis(p, v), v) == SnapAxis(p, v)
  {
    var k := (p / v).Floor;
    var c := SnapAxis(p, v);
    assert c == k as real * v + v / 2.0;
    assert c == (k as real + 0.5) * v;
    DivExact(c, k as real + 0.5, v);
    assert (c / v).Floor == k;
  }

  /** The snap is the only cell centre whose cell contains p: any c half a
      cell above a multiple of v, with p in [c - v/2, c + v/2), is it. */
  lemma SnapAxisUnique(p: real, v: real, c: real)
    requires v > 0.0
    requires CentreOf(c, p, v)
    ensures c == SnapAxis(p, v)
  {
    var j := ((c - v / 2.0) / v).Floor;
    var k := (p / v).Floor;
    DivMul(c - v / 2.0, v);
    assert j as real * v == c - v / 2.0;
    FloorCell(p, v, k);
    SuccMul(j, v);
    SuccMul(k, v);
    CancelScale(v, j, k + 1, p);
    CancelScale(v, k, j + 1, p);
    assert j == k;
  }

  /** Cancelling a positive factor from a strict order of multiples. */
  lemma CancelScale(v: real, a: int, b: int, p: real)
    requires v > 0.0 && a as real * v <= p < b as real * v
    ensures a < b
  {
    if a >= b {
      MulMono(v, b as real, a as real);
    }
  }

  /** `((p / v).floor() * v + v / 2)` per axis: the snapped point used when
      voxel selection is on. */
  function Snap(p: Vec3, voxelSize: nat): (c: Vec3)
    requires voxelSize > 0
    ensures CentreOf(c.x, p.x, voxelSize as real)
    ensures CentreOf(c.y, p.y, voxelSize as real)
    ensures CentreOf(c.z, p.z, voxelSize as real)
  {
    var v := voxelSize as real;
    Vec3(SnapAxis(p.x, v), SnapAxis(p.y, v), SnapAxis(p.z, v))
  }

  /** For example, a hit at (1.3, 0.1, 5.9) with voxels of edge 2 snaps to
      (1, 1, 5); negative coordinates round down, -0.5 to -1. */
  lemma SnapExamples()
    ensures Snap(Vec3(1.3, 0.1, 5.9), 2) == Vec3(1.0, 1.0, 5.0)
    ensures Snap(Vec3(-0.5, -2.0, -3.9), 2) == Vec3(-1.0, -1.0, -3.0)
  {
    assert (1.3 / 2.0).Floor == 0 && (0.1 / 2.0).Floor == 0 && (5.9 / 2.0).Floor == 2;
    assert (-0.5 / 2.0).Floor == -1 && (-2.0 / 2.0).Floor == -1 && (-3.9 / 2.0).Floor == -2;
  }

  // ---------------------------------------------------------------------
  // The scan over terrain blocks.

  /** A row of the world query: whether the block's model is disabled, and the block. */
  datatype Entry = Entry(disabled: bool, block: Block)

  /** A kept hit: the (possibly snapped) point, the ray distance of the raw
      hit, the cursor radius, and the block's grid position. */
  datatype Hit = Hit(point: Vec3, distance: real, cursorSize: real, block: Vec3i)

  /** The box passed to the ray test, from the block's integer bounds. */
  function Bounds(b: Block): (Vec3, Vec3) { (ToReal(b.boundMin), ToReal(b.boundMax)) }

  function SamplerFor(ray: Ray, grid: Grid, b: Block): Sampler
  {
    Sampler(ray, b, grid(b.boundMin))
  }

  /** `binary_search` can run on this entry without any `unwrap` or
      `expect` failing, and a snap has a voxel size to divide by. */
  ghost predicate Pickable(e: Entry, ray: Ray, grid: Grid, voxelSelect: bool)
  {
    && (voxelSelect ==> e.block.voxelSize > 0)
    && (!e.disabled && ray.intersectAlignedBox(Bounds(e.block)).Some? ==>
          SamplerFor(ray, grid, e.block).Covers(
            ray.intersectAlignedBox(Bounds(e.block)).value.0,
            ray.intersectAlignedBox(Bounds(e.block)).value.1))
  }

  ghost predicate AllPickable(es: seq<Entry>, ray: Ray, grid: Grid, voxelSelect: bool)
  {
    forall i :: 0 <= i < |es| ==> Pickable(es[i], ray, grid, voxelSelect)
  }

  /** The point and cursor radius published for a raw hit in block b: the
      centre of the voxel containing the point and half a voxel edge, or the
      point itself and FreeCursorSize. */
  function Present(point: Vec3, b: Block, voxelSelect: bool): (r: (Vec3, real))
    requires voxelSelect ==> b.voxelSize > 0
    ensures voxelSelect ==> r.0 == Snap(point, b.voxelSize) && r.1 == b.voxelSize as real / 2.0
    ensures voxelSelect ==> r.0.x - r.1 <= point.x < r.0.x + r.1
    ensures voxelSelect ==> r.0.y - r.1 <= point.y < r.0.y + r.1
    ensures voxelSelect ==> r.0.z - r.1 <= point.z < r.0.z + r.1
    ensures !voxelSelect ==> r.0 == point && r.1 == FreeCursorSize
  {
    if voxelSelect then (Snap(point, b.voxelSize), b.voxelSize as real / 2.0)
    else (point, FreeCursorSize)
  }

  /** The hit one entry contributes: none for a disabled model, a missed box
      (the density is then never loaded) or a bisection that gives up;
      otherwise the bisection's hit, presented as the cursor shows it. */
  function HitFor(e: Entry, ray: Ray, grid: Grid, voxelSelect: bool): (r: Option<Hit>)
    requires Pickable(e, ray, grid, voxelSelect)
    ensures r.Some? ==> !e.disabled && ray.intersectAlignedBox(Bounds(e.block)).Some?
    ensures !e.disabled && ray.intersectAlignedBox(Bounds(e.block)).Some? ==>
      var box := ray.intersectAlignedBox(Bounds(e.block)).value;
      var found := BinarySearch(box.0, box.1, SamplerFor(ray, grid, e.block), 0);
      && (r.Some? <==> found.Some?)
      && (r.Some? ==> r.value.distance == found.value.1
                      && (r.value.point, r.value.cursorSize) == Present(found.value.0, e.block, voxelSelect))
    ensures r.Some? ==> r.value.block == e.block.position
    ensures r.Some? ==> Between(ray.intersectAlignedBox(Bounds(e.block)).value.0,
      ray.intersectAlignedBox(Bounds(e.block)).value.1, r.value.distance)
  {
    if e.disabled then None
    else
      match ray.intersectAlignedBox(Bounds(e.block))
      case None => None
      case Some((lo, hi)) =>
        match BinarySearch(lo, hi, SamplerFor(ray, grid, e.block), 0)
        case None => None
        case Some((point, distance)) =>
          var (p, size) := Present(point, e.block, voxelSelect);
          Some(Hit(p, distance, size, e.block.position))
  }

  /** One step of the scan: a hit replaces the kept one only when it is
      strictly nearer; an entry without a hit changes nothing. */
  function Accept(acc: Option<Hit>, h: Option<Hit>): (r: Option<Hit>)
    ensures r == acc || r == h
    ensures r.Some? <==> acc.Some? || h.Some?
    ensures acc.Some? ==> r.Some? && r.value.distance <= acc.value.distance
    ensures h.Some? ==> r.Some? && r.value.distance <= h.value.distance
    ensures acc.Some? && h.Some? && h.value.distance >= acc.value.distance ==> r == acc
  {
    if h.Some? && (acc.None? || h.value.distance < acc.value.distance) then h else acc
  }

  /** The hit kept after offering the hits in order. */
  function Pick(hs: seq<Option<Hit>>): (r: Option<Hit>)
    ensures r.Some? ==> r in hs
    ensures forall j :: 0 <= j < |hs| && hs[j].Some? ==> r.Some? && r.value.distance <= hs[j].value.distance
  {
    if hs == [] then None
    else
      var n := |hs| - 1;
      Accept(Pick(hs[..n]), hs[n])
  }

  /** The hits of the entries, in query order. */
  function Candidates(es: seq<Entry>, ray: Ray, grid: Grid, voxelSelect: bool): (hs: seq<Option<Hit>>)
    requires AllPickable(es, ray, grid, voxelSelect)
    ensures |hs| == |es|
    ensures forall j :: 0 <= j < |es| ==> hs[j] == HitFor(es[j], ray, grid, voxelSelect)
  {
    if es == [] then []
    else
      var n := |es| - 1;
      assert forall j :: 0 <= j < n ==> es[..n][j] == es[j];
      Candidates(es[..n], ray, grid, voxelSelect) + [HitFor(es[n], ray, grid, voxelSelect)]
  }

  /** The hit `track` keeps after scanning the query. */
  function Scan(es: seq<Entry>, ray: Ray, grid: Grid, voxelSelect: bool): Option<Hit>
    requires AllPickable(es, ray, grid, voxelSelect)
  {
    Pick(Candidates(es, ray, grid, voxelSelect))
  }

  /** The cursor state that mirrors a kept hit. */
  function CursorOf(h: Option<Hit>): Option<State>
  {
    match h
    case None => None
    case Some(hit) => Some(State(hit.point, hit.block, hit.cursorSize))
  }

  /** Hit w is at least as near as every other hit, and strictly nearer than
      every earlier one. */
  ghost predicate NearestFirst(hs: seq<Option<Hit>>, w: int)
  {
    && 0 <= w < |hs|
    && hs[w].Some?
    && (forall j :: 0 <= j < w && hs[j].Some? ==> hs[j].value.distance > hs[w].value.distance)
    && (forall j :: w < j < |hs| && hs[j].Some? ==> hs[j].value.distance >= hs[w].value.distance)
  }

  /** At most one hit is the first nearest one. */
  lemma NearestFirstUnique(hs: seq<Option<Hit>>, w1: int, w2: int)
    requires NearestFirst(hs, w1) && NearestFirst(hs, w2)
    ensures w1 == w2
  {
  }

  /** The scan keeps nothing exactly when no hit is offered. */
  lemma {:induction false} PickNoneIff(hs: seq<Option<Hit>>)
    ensures Pick(hs).None? <==> forall j :: 0 <= j < |hs| ==> hs[j].None?
  {
    if hs != [] {
      var n := |hs| - 1;
      PickNoneIff(hs[..n]);
      assert forall j :: 0 <= j < n ==> hs[..n][j] == hs[j];
    }
  }

  /** A kept hit is the first of the nearest hits: later ties do not
      replace it. */
  lemma {:induction false} PickNearestFirst(hs: seq<Option<Hit>>)
    requires Pick(hs).Some?
    ensures exists w :: NearestFirst(hs, w) && Pick(hs) == hs[w]
  {
    var n := |hs| - 1;
    var init := hs[..n];
    assert forall j :: 0 <= j < n ==> init[j] == hs[j];
    if Pick(init).Some? {
      PickNearestFirst(init);
      var w :| NearestFirst(init, w) && Pick(init) == init[w];
      if hs[n].Some? && hs[n].value.distance < hs[w].value.distance {
        assert NearestFirst(hs, n);
      } else {
        assert NearestFirst(hs, w);
      }
    } else {
      PickNoneIff(init);
      assert NearestFirst(hs, n);
    }
  }

  /** Offering one more hit is one more Accept. */
  lemma PickSnoc(hs: seq<Option<Hit>>, h: Option<Hit>)
    ensures Pick(hs + [h]) == Accept(Pick(hs), h)
  {
    assert (hs + [h])[..|hs|] == hs;
  }

  /** Scanning one more entry appends its hit to the candidates. */
  lemma CandidatesSnoc(es: seq<Entry>, e: Entry, ray: Ray, grid: Grid, voxelSelect: bool)
    requires AllPickable(es, ray, grid, voxelSelect) && Pickable(e, ray, grid, voxelSelect)
    ensures AllPickable(es + [e], ray, grid, voxelSelect)
    ensures Candidates(es + [e], ray, grid, voxelSelect)
      == Candidates(es, ray, grid, voxelSelect) + [HitFor(e, ray, grid, voxelSelect)]
  {
    assert forall j :: 0 <= j < |es| ==> (es + [e])[j] == es[j];
    assert (es + [e])[..|es|] == es;
  }

  /** The scan keeps one of the entries' hits, and none is nearer. */
  lemma ScanIsNearest(es: seq<Entry>, ray: Ray, grid: Grid, voxelSelect: bool)
    requires AllPickable(es, ray, grid, voxelSelect)
    ensures Scan(es, ray, grid, voxelSelect).Some? ==>
      exists j :: 0 <= j < |es| && Scan(es, ray, grid, voxelSelect) == HitFor(es[j], ray, grid, voxelSelect)
    ensures forall j :: 0 <= j < |es| && HitFor(es[j], ray, grid, voxelSelect).Some? ==>
      && Scan(es, ray, grid, voxelSelect).Some?
      && Scan(es, ray, grid, voxelSelect).value.distance <= HitFor(es[j], ray, grid, voxelSelect).value.distance
  {
    var hs := Candidates(es, ray, grid, voxelSelect);
    if Pick(hs).Some? {
      var j :| 0 <= j < |hs| && hs[j] == Pick(hs);
      assert Pick(hs) == HitFor(es[j], ray, grid, voxelSelect);
    }
  }

  /** The scan finds nothing exactly when no entry has a hit. */
  lemma ScanEmptyIffNoHit(es: seq<Entry>, ray: Ray, grid: Grid, voxelSelect: bool)
    requires AllPickable(es, ray, grid, voxelSelect)
    ensures Scan(es, ray, grid, voxelSelect).None?
      <==> forall j :: 0 <= j < |es| ==> HitFor(es[j], ray, grid, voxelSelect).None?
  {
    PickNoneIff(Candidates(es, ray, grid, voxelSelect));
  }

  /** When the scan keeps a hit, it is the hit of the first entry with the
      smallest distance. */
  lemma ScanKeepsNearestFirst(es: seq<Entry>, ray: Ray, grid: Grid, voxelSelect: bool)
    requires AllPickable(es, ray, grid, voxelSelect)
    requires Scan(es, ray, grid, voxelSelect).Some?
    ensures exists w :: (NearestFirst(Candidates(es, ray, grid, voxelSelect), w)
      && Scan(es, ray, grid, voxelSelect) == HitFor(es[w], ray, grid, voxelSelect))
  {
    PickNearestFirst(Candidates(es, ray, grid, voxelSelect));
  }
}
