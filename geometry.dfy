/**
 Points, the closeness test on them, and the square cell of the uniform grid a
 point falls into (cell side = the distance threshold).
 */
module Geometry {

  /** A point of the plane. Coordinates are exact integers. */
  datatype Point = Point(x: int, y: int)

  /** A cell of the uniform grid: each coordinate divided by the side, rounded down. */
  datatype Cell = Cell(i: int, j: int)

  function Abs(n: int): nat
  {
    if n < 0 then -n else n
  }

  /** `points_sont_proches`: the squared distance is at most the squared threshold. */
  predicate Close(p: Point, q: Point, d: int)
  {
    var dx, dy := p.x - q.x, p.y - q.y;
    dx * dx + dy * dy <= d * d
  }

  /** Closeness is symmetric, and every point is close to itself, whatever the threshold. */
  lemma CloseSymmetricReflexive(p: Point, q: Point, d: int)
    ensures Close(p, q, d) == Close(q, p, d)
    ensures Close(p, p, d)
  {
    assert (q.x - p.x) * (q.x - p.x) == (p.x - q.x) * (p.x - q.x);
    assert (q.y - p.y) * (q.y - p.y) == (p.y - q.y) * (p.y - q.y);
  }

  /** Python's `//` on a nonzero divisor (Dafny's `/` is Euclidean, so negate for a negative divisor). */
  function FloorDiv(x: int, d: int): int
    requires d != 0
  {
    if d > 0 then x / d else (-x) / (-d)
  }

  /** `FloorDiv` is the exact quotient rounded down, for either sign of the divisor. */
  lemma FloorDivBounds(x: int, d: int)
    requires d != 0
    ensures d > 0 ==> FloorDiv(x, d) * d <= x < FloorDiv(x, d) * d + d
    ensures d < 0 ==> FloorDiv(x, d) * d + d < x <= FloorDiv(x, d) * d
  {
    if d < 0 {
      var q := (-x) / (-d);
      assert q * (-d) <= -x < q * (-d) + (-d);
      assert q * (-d) == -(q * d);
    }
  }

  /** `creer_cellule_point`: the cell of side `d` holding `p`. */
  function CellOf(p: Point, d: int): Cell
    requires d != 0
  {
    Cell(FloorDiv(p.x, d), FloorDiv(p.y, d))
  }

  /** Two cells that lie in one 3x3 block: at most one apart on each axis. */
  predicate Neighbouring(a: Cell, b: Cell)
  {
    Abs(a.i - b.i) <= 1 && Abs(a.j - b.j) <= 1
  }

  /** A product of non-negatives is non-negative; stated apart so that the callers' nonlinear steps stay small. */
  lemma MulNonNegative(a: int, b: int)
    requires a >= 0 && b >= 0
    ensures a * b >= 0
  {
  }

  /** A square bounds the magnitude of its root. */
  lemma SquareBoundsMagnitude(a: int, b: int)
    requires a * a <= b * b
    ensures Abs(a) <= Abs(b)
  {
    var m, n := Abs(a), Abs(b);
    assert m * m == a * a && n * n == b * b;
    if m > n {
      MulNonNegative(m - n - 1, m + n);
      assert false;
    }
  }

  /** Within the threshold in the plane means within it on each axis. */
  lemma CloseOnEachAxis(p: Point, q: Point, d: int)
    requires Close(p, q, d)
    ensures Abs(p.x - q.x) <= Abs(d) && Abs(p.y - q.y) <= Abs(d)
  {
    var dx, dy := p.x - q.x, p.y - q.y;
    MulNonNegative(Abs(dx), Abs(dx));
    MulNonNegative(Abs(dy), Abs(dy));
    assert Abs(dx) * Abs(dx) == dx * dx && Abs(dy) * Abs(dy) == dy * dy;
    SquareBoundsMagnitude(dx, d);
    SquareBoundsMagnitude(dy, d);
  }

  /** Coordinates at most one side apart fall into cells at most one apart. */
  lemma FloorDivNear(a: int, b: int, side: int)
    requires side > 0 && Abs(a - b) <= side
    ensures Abs(FloorDiv(a, side) - FloorDiv(b, side)) <= 1
  {
    var qa, qb := FloorDiv(a, side), FloorDiv(b, side);
    FloorDivBounds(a, side);
    FloorDivBounds(b, side);
    if qa >= qb + 2 {
      MulNonNegative(qa - qb - 2, side);
      assert false;
    }
    if qb >= qa + 2 {
      MulNonNegative(qb - qa - 2, side);
      assert false;
    }
  }

  /** Grid exhaustiveness: two close points lie in neighbouring cells. */
  lemma CloseCellsNeighbour(p: Point, q: Point, d: int)
    requires d != 0 && Close(p, q, d)
    ensures Neighbouring(CellOf(p, d), CellOf(q, d))
  {
    CloseOnEachAxis(p, q, d);
    if d > 0 {
      FloorDivNear(p.x, q.x, d);
      FloorDivNear(p.y, q.y, d);
    } else {
      FloorDivNear(-p.x, -q.x, -d);
      FloorDivNear(-p.y, -q.y, -d);
    }
  }
}
