/** The value types the two physics worlds share: rigid bodies, their
    shapes, the contacts the narrow phase reports, and the narrow-phase
    dispatch on the pair of shapes. The shape tests themselves and the
    conversion of a body to its integer bounding box are not part of the
    worlds' source; they enter as parameters. */
module Bodies {
  import opened Vectors
  import opened Wrappers
  import M = QuadModel

  /** An `f32` axis-aligned box: corners and half extents. */
  datatype RectBox = RectBox(min: Vec2, max: Vec2, half: Vec2)

  /** `Shape`: a circle of some radius, or a box. */
  datatype Shape = Circle(radius: real) | Rect(rect: RectBox)

  /** `Body`. `inv_mass` is stored next to `mass`; nothing ties them here. */
  datatype Body = Body(
    position: Vec2,
    velocity: Vec2,
    force: Vec2,
    mass: real,
    inv_mass: real,
    restitution: real,
    friction: real,
    fixed: bool,
    sensor: bool,
    shape: Shape)

  /** `Contact`: how deep two bodies overlap and along which direction. */
  datatype Contact = Contact(penetration_depth: real, normal: Vec2)

  /** `Collision`: the pair of handles and their contact. */
  datatype Collision = Collision(pair: M.Pair, contact: Contact)

  /** The three shape tests the worlds call: circle against circle (two
      radii), box against box, and box against circle, each given the two
      bodies' positions. */
  datatype Narrow = Narrow(
    circleVsCircle: (real, real, Vec2, Vec2) -> Option<Contact>,
    rectVsRect: (RectBox, RectBox, Vec2, Vec2) -> Option<Contact>,
    rectVsCircle: (RectBox, real, Vec2, Vec2) -> Option<Contact>)

  /** The narrow-phase match on the pair of shapes. A mixed pair always goes
      to the box-against-circle test with the box and the circle in that
      order, but the positions stay in the pair's order. */
  function NarrowContact(tests: Narrow, a: Body, b: Body): Option<Contact> {
    match (a.shape, b.shape)
    case (Circle(ra), Circle(rb)) => tests.circleVsCircle(ra, rb, a.position, b.position)
    case (Rect(ba), Rect(bb)) => tests.rectVsRect(ba, bb, a.position, b.position)
    case (Circle(r), Rect(box)) => tests.rectVsCircle(box, r, a.position, b.position)
    case (Rect(box), Circle(r)) => tests.rectVsCircle(box, r, a.position, b.position)
  }

  /** For a circle `c` and a box `x` at different positions, the box test
      sees the same shapes in both orders of the pair, but the box's own
      position comes first only when the box comes first in the pair. */
  lemma MixedPairOrder(tests: Narrow, c: Body, x: Body)
    requires c.shape.Circle? && x.shape.Rect?
    ensures NarrowContact(tests, x, c) == tests.rectVsCircle(x.shape.rect, c.shape.radius, x.position, c.position)
    ensures NarrowContact(tests, c, x) == tests.rectVsCircle(x.shape.rect, c.shape.radius, c.position, x.position)
  {
  }

  /** A body is neither fixed nor a sensor: the bodies the step re-indexes. */
  predicate Movable(b: Body) {
    !b.fixed && !b.sensor
  }
}
