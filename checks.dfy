/** The narrow-phase contact tests of `src/checks.rs`: box against box along
    the axis of least penetration, circle against circle with a fixed answer
    for coincident centres, and box against circle through the point of the
    box closest to the circle's centre. Square roots come from a function
    parameter; the lemmas assume it is a square root (`IsSqrt`). */
module Checks {
  import opened Vectors
  import opened Wrappers
  import opened Bodies

  /** `ShapeKind`. */
  datatype ShapeKind = CircleKind | AabbKind

  /** What the tests read of a body: its position, `shape.get_kind()`,
      `shape.get_radius()` and `get_aabb()`. */
  datatype Solid = Solid(position: Vec2, kind: ShapeKind, radius: real, aabb: RectBox)

  /** A contact between the two bodies it names, `a` first. */
  datatype Hit = Hit(penetration_depth: real, normal: Vec2, a: Solid, b: Solid)

  function BoxWidth(b: RectBox): real {
    b.max.x - b.min.x
  }

  function BoxHeight(b: RectBox): real {
    b.max.y - b.min.y
  }

  /** `v.x^2 + v.y^2`: zero exactly for the zero vector. */
  function DistanceSquared(v: Vec2): (r: real)
    ensures r >= 0.0
    ensures r == 0.0 <==> v == Zero
  {
    SquareSign(v.x);
    SquareSign(v.y);
    Mul(v.x, v.x) + Mul(v.y, v.y)
  }

  lemma MulPositive(x: real, y: real)
    requires x > 0.0 && y > 0.0
    ensures Mul(x, y) > 0.0
  {
  }

  lemma MulNegative(x: real, y: real)
    requires x < 0.0 && y < 0.0
    ensures Mul(x, y) > 0.0
  {
  }

  /** A square is never negative, and zero only for zero. */
  lemma SquareSign(x: real)
    ensures Mul(x, x) >= 0.0
    ensures x == 0.0 || Mul(x, x) > 0.0
  {
    if x > 0.0 {
      MulPositive(x, x);
    } else if x < 0.0 {
      MulNegative(x, x);
    }
  }

  /** `check_collision`: the test for the two shape kinds; a circle and a
      box, in either order, go to `aabb_vs_circle` with the box first. */
  function CheckCollision(a: Solid, b: Solid, sqrt: real -> real): Option<Hit>
    requires a.kind == AabbKind && b.kind == CircleKind ==> Clampable(a)
    requires a.kind == CircleKind && b.kind == AabbKind ==> Clampable(b)
  {
    match (a.kind, b.kind)
    case (CircleKind, CircleKind) => CircleVsCircle(a, b, sqrt)
    case (AabbKind, AabbKind) => AabbVsAabb(a, b)
    case (CircleKind, AabbKind) => AabbVsCircle(b, a, sqrt)
    case (AabbKind, CircleKind) => AabbVsCircle(a, b, sqrt)
  }

  /** A circle and a box collide the same way whichever comes first: the
      box is the contact's `a`, the circle its `b`. */
  lemma MixedPairSymmetric(a: Solid, b: Solid, sqrt: real -> real)
    requires a.kind != b.kind
    requires a.kind == AabbKind ==> Clampable(a)
    requires b.kind == AabbKind ==> Clampable(b)
    ensures CheckCollision(a, b, sqrt) == CheckCollision(b, a, sqrt)
    ensures CheckCollision(a, b, sqrt).Some? ==>
      CheckCollision(a, b, sqrt).value.a.kind == AabbKind && CheckCollision(a, b, sqrt).value.b.kind == CircleKind
  {
  }

  /** The overlap of two boxes on each axis: the sum of the half extents
      less the distance between the positions. */
  function Penetration(a: Solid, b: Solid): Vec2 {
    Sub(Add(b.aabb.half, a.aabb.half), Abs(Sub(b.position, a.position)))
  }

  /** `aabb_vs_aabb`: no contact unless the boxes overlap on both axes;
      otherwise the contact lies along the axis of smaller overlap (`y` on a
      tie), its normal the sign of the offset on that axis. */
  function AabbVsAabb(a: Solid, b: Solid): Option<Hit> {
    var d := Sub(b.position, a.position);
    var pen := Sub(Add(b.aabb.half, a.aabb.half), Abs(d));
    if pen.x <= 0.0 || pen.y <= 0.0 then None
    else if pen.x < pen.y then
      var sx := Signum(d.x);
      Some(Hit(Mul(pen.x, sx), Vec2(sx, 0.0), a, b))
    else
      var sy := Signum(d.y);
      Some(Hit(Mul(pen.y, sy), Vec2(0.0, sy), a, b))
  }

  /** Boxes collide exactly when they overlap on both axes. On a contact
      the normal is a unit vector along one axis pointing from `a` towards
      `b`, and the depth is the smaller overlap, negative exactly when the
      normal points down its axis. */
  lemma AabbContact(a: Solid, b: Solid)
    ensures AabbVsAabb(a, b).None? <==> Penetration(a, b).x <= 0.0 || Penetration(a, b).y <= 0.0
    ensures AabbVsAabb(a, b).Some? ==> AxisContact(AabbVsAabb(a, b).value, Penetration(a, b), Sub(b.position, a.position))
  {
    var d, pen := Sub(b.position, a.position), Penetration(a, b);
    if pen.x > 0.0 && pen.y > 0.0 {
      if pen.x < pen.y {
        AabbContactX(a, b);
      } else {
        AabbContactY(a, b);
      }
    }
  }

  /** What a box contact promises, given the overlaps `pen` and the offset
      `d` from `a` to `b`: a unit normal along one axis pointing along the
      offset, the depth the smaller overlap, negative exactly when the
      normal points down its axis, and the axis `x` exactly when the overlap
      in `x` is the smaller. */
  predicate AxisContact(h: Hit, pen: Vec2, d: Vec2) {
    h.normal in {Vec2(1.0, 0.0), Vec2(-1.0, 0.0), Vec2(0.0, 1.0), Vec2(0.0, -1.0)} &&
    (h.normal.x < 0.0 ==> d.x < 0.0) && (h.normal.x > 0.0 ==> d.x >= 0.0) &&
    (h.normal.y < 0.0 ==> d.y < 0.0) && (h.normal.y > 0.0 ==> d.y >= 0.0) &&
    AbsReal(h.penetration_depth) == Min(pen.x, pen.y) &&
    (h.penetration_depth < 0.0 <==> h.normal.x + h.normal.y < 0.0) &&
    (h.normal.x != 0.0 <==> pen.x < pen.y)
  }

  lemma AabbContactX(a: Solid, b: Solid)
    requires 0.0 < Penetration(a, b).x < Penetration(a, b).y
    ensures AabbVsAabb(a, b).Some?
    ensures AxisContact(AabbVsAabb(a, b).value, Penetration(a, b), Sub(b.position, a.position))
  {
    var d, pen := Sub(b.position, a.position), Penetration(a, b);
    if d.x < 0.0 {
      assert Signum(d.x) == -1.0;
      assert Mul(pen.x, -1.0) == -pen.x;
      assert AabbVsAabb(a, b).value == Hit(-pen.x, Vec2(-1.0, 0.0), a, b);
    } else {
      assert Signum(d.x) == 1.0;
      assert Mul(pen.x, 1.0) == pen.x;
      assert AabbVsAabb(a, b).value == Hit(pen.x, Vec2(1.0, 0.0), a, b);
    }
  }

  lemma AabbContactY(a: Solid, b: Solid)
    requires 0.0 < Penetration(a, b).y <= Penetration(a, b).x
    ensures AabbVsAabb(a, b).Some?
    ensures AxisContact(AabbVsAabb(a, b).value, Penetration(a, b), Sub(b.position, a.position))
  {
    var d, pen := Sub(b.position, a.position), Penetration(a, b);
    if d.y < 0.0 {
      assert Signum(d.y) == -1.0;
      assert Mul(pen.y, -1.0) == -pen.y;
      assert AabbVsAabb(a, b).value == Hit(-pen.y, Vec2(0.0, -1.0), a, b);
    } else {
      assert Signum(d.y) == 1.0;
      assert Mul(pen.y, 1.0) == pen.y;
      assert AabbVsAabb(a, b).value == Hit(pen.y, Vec2(0.0, 1.0), a, b);
    }
  }

  /** Swapping the boxes gives a contact exactly when the original order
      does, along the same axis with the same overlap; the normal turns
      round unless the offset on that axis is zero. */
  lemma AabbSwap(a: Solid, b: Solid)
    ensures AabbVsAabb(b, a).Some? <==> AabbVsAabb(a, b).Some?
    ensures AabbVsAabb(a, b).Some? ==>
      var h, g := AabbVsAabb(a, b).value, AabbVsAabb(b, a).value;
      (h.normal.x != 0.0 <==> g.normal.x != 0.0) &&
      (a.position.x != b.position.x && h.normal.x != 0.0 ==> g.normal.x == -h.normal.x) &&
      (a.position.y != b.position.y && h.normal.y != 0.0 ==> g.normal.y == -h.normal.y)
  {
    assert Penetration(a, b) == Penetration(b, a);
  }

  /** `circle_vs_circle`: no contact when the squared distance between the
      centres exceeds the squared sum of the radii; otherwise the depth is
      the sum of the radii less the distance and the normal the offset over
      the distance, or, for coincident centres, `a`'s radius along `(1, 0)`. */
  function CircleVsCircle(a: Solid, b: Solid, sqrt: real -> real): Option<Hit> {
    var normal := Sub(b.position, a.position);
    var radius := Mul(a.radius + b.radius, a.radius + b.radius);
    var distanceSqr := DistanceSquared(normal);
    if distanceSqr > radius then None
    else
      var distance := sqrt(distanceSqr);
      if distance != 0.0 then
        Some(Hit(a.radius + b.radius - distance, Div(normal, distance), a, b))
      else
        Some(Hit(a.radius, Vec2(1.0, 0.0), a, b))
  }

  lemma QuotProduct(a: real, b: real, l: real, m: real)
    requires l != 0.0 && m != 0.0
    ensures Mul(a / l, b / m) == Mul(a, b) / Mul(l, m)
  {
  }

  lemma AddQuot(x: real, y: real, l: real)
    requires l != 0.0
    ensures x / l + y / l == (x + y) / l
  {
  }

  /** Dividing a vector by its length gives a unit vector. */
  lemma UnitAfterDivision(v: Vec2, len: real)
    requires len > 0.0 && Mul(len, len) == DistanceSquared(v)
    ensures DistanceSquared(Div(v, len)) == 1.0
  {
    QuotProduct(v.x, v.x, len, len);
    QuotProduct(v.y, v.y, len, len);
    var l2 := Mul(len, len);
    MulPositive(len, len);
    AddQuot(Mul(v.x, v.x), Mul(v.y, v.y), l2);
    assert DistanceSquared(Div(v, len)) == (Mul(v.x, v.x) + Mul(v.y, v.y)) / l2;
    assert l2 / l2 == 1.0;
  }

  lemma QuotTimes(a: real, l: real)
    requires l != 0.0
    ensures (a / l) * l == a
  {
  }

  /** For non-negative reals, a smaller square means a smaller number. */
  lemma SquareMonotone(x: real, y: real)
    requires x >= 0.0 && y >= 0.0 && Mul(x, x) <= Mul(y, y)
    ensures x <= y
  {
    if x > y {
      MulMonotone(x, x, y, y);
    }
  }

  lemma MulMonotone(a: real, b: real, c: real, d: real)
    requires a > c >= 0.0 && b > d >= 0.0
    ensures Mul(a, b) > Mul(c, d)
  {
  }

  /** The square root of a positive squared distance is positive. */
  lemma RootPositive(d2: real, sqrt: real -> real)
    requires IsSqrt(sqrt) && d2 > 0.0
    ensures sqrt(d2) > 0.0 && Mul(sqrt(d2), sqrt(d2)) == d2
  {
    assert Mul(0.0, 0.0) == 0.0;
  }

  /** Circles collide exactly when their centres are no farther apart than
      the sum of the radii, touching included. */
  lemma CircleContactExists(a: Solid, b: Solid, sqrt: real -> real)
    ensures CircleVsCircle(a, b, sqrt).None? <==>
      DistanceSquared(Sub(b.position, a.position)) > Mul(a.radius + b.radius, a.radius + b.radius)
  {
  }

  /** With distinct centres, the normal of a circle contact is the unit
      vector from `a`'s centre to `b`'s, it times the distance is the
      offset, and the depth is the sum of the radii less the distance, never
      negative for non-negative radii. */
  lemma CircleContactApart(a: Solid, b: Solid, sqrt: real -> real)
    requires IsSqrt(sqrt) && a.position != b.position && CircleVsCircle(a, b, sqrt).Some?
    ensures var d := Sub(b.position, a.position);
      var h, dist := CircleVsCircle(a, b, sqrt).value, sqrt(DistanceSquared(d));
      dist > 0.0 && DistanceSquared(h.normal) == 1.0 && Scale(h.normal, dist) == d &&
      h.penetration_depth == a.radius + b.radius - dist &&
      (a.radius >= 0.0 && b.radius >= 0.0 ==> h.penetration_depth >= 0.0)
  {
    var d := Sub(b.position, a.position);
    var d2 := DistanceSquared(d);
    DistinctOffset(a.position, b.position);
    RootPositive(d2, sqrt);
    var dist := sqrt(d2);
    CircleContactExists(a, b, sqrt);
    CircleHitValue(a, b, sqrt);
    UnitAfterDivision(d, dist);
    QuotTimes(d.x, dist);
    QuotTimes(d.y, dist);
    if a.radius >= 0.0 && b.radius >= 0.0 {
      SquareMonotone(dist, a.radius + b.radius);
    }
  }

  /** Coincident centres always collide, along `(1, 0)` with `a`'s radius. */
  lemma CircleContactCoincident(a: Solid, b: Solid, sqrt: real -> real)
    requires IsSqrt(sqrt) && a.position == b.position
    ensures CircleVsCircle(a, b, sqrt) == Some(Hit(a.radius, Vec2(1.0, 0.0), a, b))
  {
    var d := Sub(b.position, a.position);
    var d2 := DistanceSquared(d);
    ZeroOffset(a.position, b.position);
    SquareSign(a.radius + b.radius);
    CircleContactExists(a, b, sqrt);
    RootOfZero(d2, sqrt);
    CircleHitValue(a, b, sqrt);
  }

  lemma DistinctOffset(p: Vec2, q: Vec2)
    requires p != q
    ensures DistanceSquared(Sub(q, p)) > 0.0
  {
    assert Sub(q, p) != Zero;
  }

  lemma ZeroOffset(p: Vec2, q: Vec2)
    requires p == q
    ensures DistanceSquared(Sub(q, p)) == 0.0
  {
    assert Sub(q, p) == Zero;
  }

  lemma RootOfZero(d2: real, sqrt: real -> real)
    requires IsSqrt(sqrt) && d2 == 0.0
    ensures sqrt(d2) == 0.0
  {
    SquareSign(sqrt(d2));
  }

  /** The contact `circle_vs_circle` reports when there is one. */
  lemma CircleHitValue(a: Solid, b: Solid, sqrt: real -> real)
    requires CircleVsCircle(a, b, sqrt).Some?
    ensures var d := Sub(b.position, a.position);
      var dist := sqrt(DistanceSquared(d));
      CircleVsCircle(a, b, sqrt).value ==
        if dist != 0.0 then Hit(a.radius + b.radius - dist, Div(d, dist), a, b)
        else Hit(a.radius, Vec2(1.0, 0.0), a, b)
  {
  }

  /** The box can be clamped to: its width and height are not negative. */
  predicate Clampable(a: Solid) {
    BoxWidth(a.aabb) >= 0.0 && BoxHeight(a.aabb) >= 0.0
  }

  /** The point of the box (relative to its position) nearest to `n`. */
  function Clamped(a: Solid, n: Vec2): (c: Vec2)
    requires Clampable(a)
    ensures -(BoxWidth(a.aabb) / 2.0) <= c.x <= BoxWidth(a.aabb) / 2.0
    ensures -(BoxHeight(a.aabb) / 2.0) <= c.y <= BoxHeight(a.aabb) / 2.0
  {
    var xExtent, yExtent := BoxWidth(a.aabb) / 2.0, BoxHeight(a.aabb) / 2.0;
    Vec2(Clamp(n.x, -xExtent, xExtent), Clamp(n.y, -yExtent, yExtent))
  }

  /** The centre offset `n` lies in the box: clamping leaves it unchanged. */
  predicate CentreInside(a: Solid, n: Vec2)
    requires Clampable(a)
  {
    n == Clamped(a, n)
  }

  /** The point the contact is measured from: the clamped offset, or, with
      the centre inside, a point on a face in `x` when `|n.x| > |n.y|` and on
      a face in `y` otherwise (whichever face is nearer to the centre), on
      the side the clamped component's sign picks. */
  function Closest(a: Solid, n: Vec2): Vec2
    requires Clampable(a)
  {
    var xExtent, yExtent := BoxWidth(a.aabb) / 2.0, BoxHeight(a.aabb) / 2.0;
    var c := Clamped(a, n);
    if !CentreInside(a, n) then c
    else if AbsReal(n.x) > AbsReal(n.y) then c.(x := if c.x > 0.0 then xExtent else -xExtent)
    else c.(y := if c.y > 0.0 then yExtent else -yExtent)
  }

  /** `aabb_vs_circle`: with the circle's centre outside the box, no contact
      when the squared distance to the closest point exceeds the squared
      radius; otherwise, or with the centre inside, a contact of depth
      `radius - sqrt(squared distance)`. Its normal is the offset divided by
      the radius when inside and by the squared distance when outside. */
  function AabbVsCircle(a: Solid, b: Solid, sqrt: real -> real): Option<Hit>
    requires Clampable(a)
  {
    var normal := Sub(b.position, a.position);
    var inside := CentreInside(a, normal);
    var closest := Closest(a, normal);
    var distance := DistanceSquared(Sub(normal, closest));
    var radius := b.radius;
    if distance > Mul(radius, radius) && !inside then None
    else
      var root := sqrt(distance);
      if inside then Some(Hit(radius - root, DivTotal(normal, radius), a, b))
      else
        ApartWhenOutside(a, normal);
        Some(Hit(radius - root, Div(normal, distance), a, b))
  }

  /** A centre outside the box is at a positive distance from the closest point. */
  lemma ApartWhenOutside(a: Solid, n: Vec2)
    requires Clampable(a) && !CentreInside(a, n)
    ensures DistanceSquared(Sub(n, Closest(a, n))) > 0.0
  {
    var d := Sub(n, Closest(a, n));
    assert d != Zero;
    assert DistanceSquared(d) != 0.0;
  }

  /** The centre lies inside exactly when its offset is within the half
      extents on both axes. */
  lemma CentreInsideBounds(a: Solid, n: Vec2)
    requires Clampable(a)
    ensures CentreInside(a, n) <==>
      AbsReal(n.x) <= BoxWidth(a.aabb) / 2.0 && AbsReal(n.y) <= BoxHeight(a.aabb) / 2.0
  {
  }

  /** With the circle's centre inside the box there is always a contact.
      It is measured from the face in `x` exactly when `|n.x| > |n.y|`, the
      positive face exactly when that component of the offset is positive,
      its depth is the radius less the distance to that face point, and its
      normal is the offset over the radius. */
  lemma AabbCircleInside(a: Solid, b: Solid, sqrt: real -> real)
    requires Clampable(a) && CentreInside(a, Sub(b.position, a.position))
    ensures var n := Sub(b.position, a.position);
      var c, xe, ye := Closest(a, n), BoxWidth(a.aabb) / 2.0, BoxHeight(a.aabb) / 2.0;
      AabbVsCircle(a, b, sqrt).Some? &&
      AabbVsCircle(a, b, sqrt).value.normal == DivTotal(n, b.radius) &&
      AabbVsCircle(a, b, sqrt).value.penetration_depth == b.radius - sqrt(DistanceSquared(Sub(n, c))) &&
      (AbsReal(n.x) > AbsReal(n.y) ==> c == Vec2(if n.x > 0.0 then xe else -xe, n.y)) &&
      (AbsReal(n.x) <= AbsReal(n.y) ==> c == Vec2(n.x, if n.y > 0.0 then ye else -ye))
  {
  }

  /** With the circle's centre outside the box, the contact exists exactly
      when the closest point of the box is within the radius; its depth is
      the radius less the distance to that point, and its normal is the
      offset divided by the squared distance. */
  lemma AabbCircleOutside(a: Solid, b: Solid, sqrt: real -> real)
    requires Clampable(a) && !CentreInside(a, Sub(b.position, a.position))
    ensures var n := Sub(b.position, a.position);
      var dist2 := DistanceSquared(Sub(n, Clamped(a, n)));
      dist2 > 0.0 &&
      (AabbVsCircle(a, b, sqrt).None? <==> dist2 > Mul(b.radius, b.radius)) &&
      (AabbVsCircle(a, b, sqrt).Some? ==>
        AabbVsCircle(a, b, sqrt).value.penetration_depth == b.radius - sqrt(dist2) &&
        AabbVsCircle(a, b, sqrt).value.normal == Div(n, dist2))
  {
    var n := Sub(b.position, a.position);
    assert Sub(n, Clamped(a, n)) != Zero;
  }
}
