/** Integer-valued distance metrics between grid points (src/geometry/mod.rs).
    Every metric is built from per-axis differences max(a, b) - min(a, b);
    the square root of the Pythagoras metrics is kept symbolic. */
module Geometry {

  datatype Point = Point(x: int, y: int)
  datatype Point3 = Point3(x: int, y: int, z: int)

  datatype DistanceAlg = Pythagoras | PythagorasSquared | Manhattan | Chebyshev

  /** A distance as returned by distance2d/distance3d: either an exact value,
      or the square root of an exact value (what f32::sqrt is applied to). */
  datatype Distance = Exact(value: int) | SquareRootOf(radicand: int)

  function Max(a: int, b: int): int { if a >= b then a else b }
  function Abs(a: int): int { if a >= 0 then a else -a }

  /** The per-axis difference max(a, b) - min(a, b) of the source, with
      std::cmp::max and std::cmp::min written out. */
  function AxisDelta(a: int, b: int): (d: int)
    ensures d >= 0
    ensures d == Abs(a - b)
    ensures d == 0 <==> a == b
  {
    (if a >= b then a else b) - (if a <= b then a else b)
  }

  function Distance2dPythagorasSquared(start: Point, end: Point): (d: int)
    ensures d == (start.x - end.x) * (start.x - end.x) + (start.y - end.y) * (start.y - end.y)
  {
    var dx := AxisDelta(start.x, end.x);
    var dy := AxisDelta(start.y, end.y);
    dx * dx + dy * dy
  }

  function Distance2dManhattan(start: Point, end: Point): (d: int)
    ensures d == Abs(start.x - end.x) + Abs(start.y - end.y)
  {
    var dx := AxisDelta(start.x, end.x);
    var dy := AxisDelta(start.y, end.y);
    dx + dy
  }

  function Distance3dManhattan(start: Point3, end: Point3): (d: int)
    ensures d == Abs(start.x - end.x) + Abs(start.y - end.y) + Abs(start.z - end.z)
  {
    var dx := AxisDelta(start.x, end.x);
    var dy := AxisDelta(start.y, end.y);
    var dz := AxisDelta(start.z, end.z);
    dx + dy + dz
  }

  /** Both branches of the source reduce to the larger axis difference. */
  function Distance2dChebyshev(start: Point, end: Point): (d: int)
    ensures d == Max(Abs(start.x - end.x), Abs(start.y - end.y))
  {
    var dx := AxisDelta(start.x, end.x);
    var dy := AxisDelta(start.y, end.y);
    if dx > dy then (dx - dy) + 1 * dy else (dy - dx) + 1 * dx
  }

  function Distance3dPythagorasSquared(start: Point3, end: Point3): (d: int)
    ensures d == (start.x - end.x) * (start.x - end.x) + (start.y - end.y) * (start.y - end.y)
                 + (start.z - end.z) * (start.z - end.z)
  {
    var dx := AxisDelta(start.x, end.x);
    var dy := AxisDelta(start.y, end.y);
    var dz := AxisDelta(start.z, end.z);
    dx * dx + dy * dy + dz * dz
  }

  function Distance2d(algorithm: DistanceAlg, start: Point, end: Point): (r: Distance)
    ensures algorithm == Pythagoras <==> r.SquareRootOf?
    ensures algorithm == Pythagoras ==>
      r == SquareRootOf((start.x - end.x) * (start.x - end.x) + (start.y - end.y) * (start.y - end.y))
    ensures algorithm == PythagorasSquared ==>
      r == Exact((start.x - end.x) * (start.x - end.x) + (start.y - end.y) * (start.y - end.y))
    ensures algorithm == Manhattan ==> r == Exact(Abs(start.x - end.x) + Abs(start.y - end.y))
    ensures algorithm == Chebyshev ==> r == Exact(Max(Abs(start.x - end.x), Abs(start.y - end.y)))
  {
    match algorithm
    case Pythagoras => SquareRootOf(Distance2dPythagorasSquared(start, end))
    case PythagorasSquared => Exact(Distance2dPythagorasSquared(start, end))
    case Manhattan => Exact(Distance2dManhattan(start, end))
    case Chebyshev => Exact(Distance2dChebyshev(start, end))
  }

  /** The Chebyshev arm dispatches to the 3D Pythagoras distance, square root included. */
  function Distance3d(algorithm: DistanceAlg, start: Point3, end: Point3): (r: Distance)
    ensures algorithm == Pythagoras || algorithm == Chebyshev <==> r.SquareRootOf?
    ensures algorithm == Pythagoras || algorithm == Chebyshev ==>
      r == SquareRootOf((start.x - end.x) * (start.x - end.x) + (start.y - end.y) * (start.y - end.y) +
                        (start.z - end.z) * (start.z - end.z))
    ensures algorithm == PythagorasSquared ==>
      r == Exact((start.x - end.x) * (start.x - end.x) + (start.y - end.y) * (start.y - end.y) +
                 (start.z - end.z) * (start.z - end.z))
    ensures algorithm == Manhattan ==> r == Exact(Abs(start.x - end.x) + Abs(start.y - end.y) + Abs(start.z - end.z))
  {
    match algorithm
    case Pythagoras => SquareRootOf(Distance3dPythagorasSquared(start, end))
    case PythagorasSquared => Exact(Distance3dPythagorasSquared(start, end))
    case Manhattan => Exact(Distance3dManhattan(start, end))
    case Chebyshev => SquareRootOf(Distance3dPythagorasSquared(start, end))
  }

  /** What a value of each kind is in the real numbers: the square root of a
      non-negative radicand is the non-negative root. */
  ghost predicate Denotes(d: Distance, v: real)
  {
    match d
    case Exact(n) => v == n as real
    case SquareRootOf(n) => v >= 0.0 && v * v == n as real
  }

  /** Every metric is non-negative, is zero exactly on equal points, and does
      not depend on the order of its arguments. */
  lemma Metrics2dAreDistances(a: Point, b: Point)
    ensures 0 <= Distance2dManhattan(a, b) == Distance2dManhattan(b, a)
    ensures 0 <= Distance2dChebyshev(a, b) == Distance2dChebyshev(b, a)
    ensures 0 <= Distance2dPythagorasSquared(a, b) == Distance2dPythagorasSquared(b, a)
    ensures Distance2dManhattan(a, b) == 0 <==> a == b
    ensures Distance2dChebyshev(a, b) == 0 <==> a == b
    ensures Distance2dPythagorasSquared(a, b) == 0 <==> a == b
  {
    var dx, dy := AxisDelta(a.x, b.x), AxisDelta(a.y, b.y);
    assert Distance2dPythagorasSquared(a, b) == dx * dx + dy * dy;
    assert dx * dx >= 0 && dy * dy >= 0;
    assert dx * dx == 0 <==> dx == 0;
    assert dy * dy == 0 <==> dy == 0;
  }

  lemma Metrics3dAreDistances(a: Point3, b: Point3)
    ensures 0 <= Distance3dManhattan(a, b) == Distance3dManhattan(b, a)
    ensures 0 <= Distance3dPythagorasSquared(a, b) == Distance3dPythagorasSquared(b, a)
    ensures Distance3dManhattan(a, b) == 0 <==> a == b
    ensures Distance3dPythagorasSquared(a, b) == 0 <==> a == b
  {
    var dx, dy, dz := AxisDelta(a.x, b.x), AxisDelta(a.y, b.y), AxisDelta(a.z, b.z);
    assert Distance3dPythagorasSquared(a, b) == dx * dx + dy * dy + dz * dz;
    assert dx * dx >= 0 && dy * dy >= 0 && dz * dz >= 0;
    assert dx * dx == 0 <==> dx == 0;
    assert dy * dy == 0 <==> dy == 0;
    assert dz * dz == 0 <==> dz == 0;
  }

  /** Chebyshev never exceeds Manhattan, and Manhattan is at most twice Chebyshev. */
  lemma ChebyshevManhattanBounds(a: Point, b: Point)
    ensures Distance2dChebyshev(a, b) <= Distance2dManhattan(a, b) <= 2 * Distance2dChebyshev(a, b)
  {
  }

  lemma ManhattanTriangle(a: Point, b: Point, c: Point)
    ensures Distance2dManhattan(a, c) <= Distance2dManhattan(a, b) + Distance2dManhattan(b, c)
  {
  }

  /** The module's tests measure from the origin to (±5, 0), (0, ±5) and (5, 5)
      in 2D, and to (±5, 0, 0) and (5, 5, 5) in 3D; these lemmas state the
      same values for every offset k. */
  lemma AxisAlignedValues(k: int)
    ensures Distance2dManhattan(Point(0, 0), Point(k, 0)) == Abs(k)
    ensures Distance2dManhattan(Point(0, 0), Point(0, k)) == Abs(k)
    ensures Distance2dChebyshev(Point(0, 0), Point(k, 0)) == Abs(k)
    ensures Distance2dChebyshev(Point(0, 0), Point(0, k)) == Abs(k)
    ensures Distance2dPythagorasSquared(Point(0, 0), Point(k, 0)) == k * k
    ensures Distance2dPythagorasSquared(Point(0, 0), Point(0, k)) == k * k
    ensures Distance3dManhattan(Point3(0, 0, 0), Point3(k, 0, 0)) == Abs(k)
    ensures Distance3dPythagorasSquared(Point3(0, 0, 0), Point3(k, 0, 0)) == k * k
  {
  }

  lemma DiagonalValues(k: int)
    ensures Distance2dManhattan(Point(0, 0), Point(k, k)) == 2 * Abs(k)
    ensures Distance2dChebyshev(Point(0, 0), Point(k, k)) == Abs(k)
    ensures Distance2dPythagorasSquared(Point(0, 0), Point(k, k)) == 2 * k * k
    ensures Distance3dManhattan(Point3(0, 0, 0), Point3(k, k, k)) == 3 * Abs(k)
    ensures Distance3dPythagorasSquared(Point3(0, 0, 0), Point3(k, k, k)) == 3 * k * k
  {
  }

  /** The exact Pythagoras values the tests pin down (the tests compare the
      rounded f32 root; only the exact ones are stated here). */
  lemma PinnedRoots(k: int)
    ensures Denotes(Distance2d(Pythagoras, Point(0, 0), Point(k, 0)), Abs(k) as real)
    ensures Denotes(Distance3d(Pythagoras, Point3(0, 0, 0), Point3(k, 0, 0)), Abs(k) as real)
  {
    assert Distance2d(Pythagoras, Point(0, 0), Point(k, 0)) == SquareRootOf(k * k);
    assert Distance3d(Pythagoras, Point3(0, 0, 0), Point3(k, 0, 0)) == SquareRootOf(k * k);
    var a := Abs(k);
    assert a * a == k * k;
    assert (a as real) * (a as real) == (a * a) as real;
  }
}
