/** Integer axis-aligned bounding boxes, the coordinates of the broad phase
    (`AABB<i32>`). Coordinates are unbounded integers: 32-bit overflow of
    `x + width` is not modelled. */
module Bounds {

  datatype Point = Point(x: int, y: int)

  datatype Aabb = Aabb(min: Point, max: Point)

  /** `AABB::new(x, y, width, height)`: the box from `(x, y)` to `(x + width, y + height)`. */
  function New(x: int, y: int, width: int, height: int): (b: Aabb)
    ensures Width(b) == width && Height(b) == height
    ensures b.min == Point(x, y)
  {
    Aabb(Point(x, y), Point(x + width, y + height))
  }

  function Width(b: Aabb): int {
    b.max.x - b.min.x
  }

  function Height(b: Aabb): int {
    b.max.y - b.min.y
  }

  /** A box whose corners are ordered. */
  predicate Proper(b: Aabb) {
    b.min.x <= b.max.x && b.min.y <= b.max.y
  }

  /** Closed-interval overlap on both axes: touching boxes intersect. */
  predicate Intersects(a: Aabb, b: Aabb) {
    a.min.x <= b.max.x && b.min.x <= a.max.x &&
    a.min.y <= b.max.y && b.min.y <= a.max.y
  }

  /** `b` lies inside `outer` (borders included). */
  predicate Within(b: Aabb, outer: Aabb) {
    outer.min.x <= b.min.x && b.max.x <= outer.max.x &&
    outer.min.y <= b.min.y && b.max.y <= outer.max.y
  }

  /** Integer `n / 2` as Rust computes it on `i32`: rounded toward zero. */
  function Half(n: int): (h: int)
    ensures n >= 0 ==> 0 <= h && h + h <= n < h + h + 2
    ensures n < 0 ==> h <= 0 && n <= h + h < n + 2
    ensures n % 2 == 0 ==> h + h == n
  {
    if n >= 0 then n / 2 else -((-n) / 2)
  }

  lemma IntersectsSymmetric(a: Aabb, b: Aabb)
    ensures Intersects(a, b) <==> Intersects(b, a)
  {
  }

  /** A proper box intersects every box containing it, in particular itself. */
  lemma ProperWithinIntersects(b: Aabb, outer: Aabb)
    requires Proper(b) && Within(b, outer)
    ensures Intersects(b, outer)
  {
  }
}
