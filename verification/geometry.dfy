/** Points, splitting axes and (squared) Euclidean distance in the plane.

    The source stores `Vec2` values of `f32`; here coordinates are integers and
    every distance is the SQUARED Euclidean distance. Since the square root is
    monotone, `a < b` on distances holds exactly when `a*a < b*b`, so for
    exact values every comparison the search makes is preserved; `f32`
    rounding can differ. */
module Geometry {

  /** A point of the plane (`Vec2`). */
  datatype Point = Point(x: int, y: int)

  /** Number of dimensions of the tree (`DIMENSION`). */
  const Dimension: nat := 2

  /** An axis index: 0 is x, 1 is y. */
  type Axis = a: nat | a < Dimension

  /** A branch slot of a node: 0 holds the "less or equal" side, 1 the "greater" side. */
  type Slot = s: nat | s < 2

  /** The splitting axis of a node at the given depth (`depth % DIMENSION`). */
  function AxisOf(depth: nat): Axis
  {
    depth % Dimension
  }

  /** The coordinate of `p` on axis `a` (`<[f32; 2]>::from(p)[a]`). */
  function Coord(p: Point, a: Axis): int
  {
    if a == 0 then p.x else p.y
  }

  /** The branch slot a point `p` takes at a node located at `loc` whose
      splitting axis is chosen by `depth`: slot 0 when `p` is less than or
      equal to the node on that axis, slot 1 otherwise. */
  function Side(p: Point, loc: Point, depth: nat): Slot
  {
    if Coord(p, AxisOf(depth)) <= Coord(loc, AxisOf(depth)) then 0 else 1
  }

  /** The slot NOT taken by `p` at that node (the "unexplored side"). */
  function OtherSide(s: Slot): Slot
  {
    1 - s
  }

  function Abs(v: int): nat
  {
    if v < 0 then -v else v
  }

  function Sq(v: int): nat
  {
    Abs(v) * Abs(v)
  }

  /** Squared Euclidean distance between two points. */
  function DistSq(a: Point, b: Point): nat
  {
    Sq(a.x - b.x) + Sq(a.y - b.y)
  }

  /** `|a[axis] - b[axis]|`: the distance between the two points along one axis. */
  function AxisGap(a: Point, b: Point, axis: Axis): nat
  {
    Abs(Coord(a, axis) - Coord(b, axis))
  }

  /** Squaring is monotone on non-negative numbers. */
  lemma SqMonotone(u: nat, v: nat)
    requires u <= v
    ensures u * u <= v * v
  {
    assert u * u <= u * v by {
      if u > 0 {
        assert u * v - u * u == u * (v - u);
      }
    }
    assert u * v <= v * v by {
      assert v * v - u * v == v * (v - u);
    }
  }

  /** The gap along either axis bounds the Euclidean distance from below:
      this is why a node whose axis gap already reaches the best distance
      cannot be closer than the best. */
  lemma GapBoundsDistance(a: Point, b: Point, axis: Axis)
    ensures Sq(AxisGap(a, b, axis)) <= DistSq(a, b)
  {
    if axis == 0 {
      assert Sq(AxisGap(a, b, axis)) == Sq(a.x - b.x);
    } else {
      assert Sq(AxisGap(a, b, axis)) == Sq(a.y - b.y);
    }
  }

  /** A point lying on the far side of a splitting line from the query is at
      least as far from the query as the line itself (in squared distance). */
  lemma FarSideBound(x: Point, q: Point, loc: Point, axis: Axis)
    requires Coord(q, axis) <= Coord(loc, axis) <= Coord(x, axis)
          || Coord(x, axis) <= Coord(loc, axis) <= Coord(q, axis)
    ensures Sq(AxisGap(loc, q, axis)) <= DistSq(x, q)
  {
    SqMonotone(AxisGap(loc, q, axis), AxisGap(x, q, axis));
    GapBoundsDistance(x, q, axis);
  }
}
