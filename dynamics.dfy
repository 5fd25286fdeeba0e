/** The physics both worlds apply to one body or one contact: the impulse
    that resolves a collision, the positional correction that pushes the
    bodies apart, and the explicit Euler step of `calc_velocity`. The
    stores they act on differ between the two worlds; the formulas do not. */
module Dynamics {
  import opened Vectors
  import opened Wrappers
  import opened Bodies

  /** The fraction of the penetration beyond the slop that one correction removes. */
  const PENETRATION_PERCENTAGE: real := 0.5
  /** The penetration depth tolerated without correction. */
  const K_SLOP: real := 0.01

  /** How fast `b` moves away from `a` along `n`; negative while they approach. */
  function VelocityAlongNormal(a: Body, b: Body, n: Vec2): real {
    Dot(Sub(b.velocity, a.velocity), n)
  }

  /** The inverse masses that share an impulse: both when neither body is
      fixed, otherwise the one of the body that is not. */
  function ImpulseShare(a: Body, b: Body): real
    requires !(a.fixed && b.fixed)
  {
    if !a.fixed && !b.fixed then a.inv_mass + b.inv_mass
    else if !a.fixed then a.inv_mass
    else b.inv_mass
  }

  /** The impulse vector of `resolve_collision`: the normal scaled by
      `-(1 + e) * v_n` divided by the shared inverse mass, where `e` is the
      smaller restitution and `v_n` the velocity along the normal. */
  function ImpulseVector(a: Body, b: Body, n: Vec2): Vec2
    requires !(a.fixed && b.fixed)
  {
    var impulse := -(1.0 + Min(a.restitution, b.restitution)) * VelocityAlongNormal(a, b, n);
    Scale(n, Quot(impulse, ImpulseShare(a, b)))
  }

  /** The velocity a non-fixed `a` is left with: the impulse subtracted,
      scaled by `a`'s inverse mass. */
  function PushedA(a: Body, iv: Vec2): Body {
    if a.fixed then a else a.(velocity := Sub(a.velocity, Scale(iv, a.inv_mass)))
  }

  /** The velocity a non-fixed `b` is left with: the impulse added. */
  function PushedB(b: Body, iv: Vec2): Body {
    if b.fixed then b else b.(velocity := Add(b.velocity, Scale(iv, b.inv_mass)))
  }

  /** The inverse mass a body contributes to a contact: none when fixed. */
  function Mobility(x: Body): real {
    if x.fixed then 0.0 else x.inv_mass
  }

  lemma ShareIsMobility(a: Body, b: Body)
    requires !(a.fixed && b.fixed)
    ensures ImpulseShare(a, b) == Mobility(a) + Mobility(b)
  {
  }

  /** The velocity of `b` relative to `a` after the impulse. */
  lemma PushedRelative(a: Body, b: Body, iv: Vec2)
    ensures Sub(PushedB(b, iv).velocity, PushedA(a, iv).velocity) ==
      Add(Sub(b.velocity, a.velocity), Scale(iv, Mobility(a) + Mobility(b)))
  {
    SubScaleZero(a.velocity, iv);
    SubScaleZero(b.velocity, iv);
    OpposedShift(a.velocity, b.velocity, iv, Mobility(a), Mobility(b));
  }

  /** Spread over the bodies' mobilities, the impulse vector adds up to the
      normal times the impulse. */
  lemma ImpulseTotal(a: Body, b: Body, n: Vec2)
    requires !(a.fixed && b.fixed) && ImpulseShare(a, b) != 0.0
    ensures Scale(ImpulseVector(a, b, n), Mobility(a) + Mobility(b)) ==
      Scale(n, -(1.0 + Min(a.restitution, b.restitution)) * VelocityAlongNormal(a, b, n))
  {
    var j := -(1.0 + Min(a.restitution, b.restitution)) * VelocityAlongNormal(a, b, n);
    var s := ImpulseShare(a, b);
    ShareIsMobility(a, b);
    ScaleScale(n, Quot(j, s), s);
    assert Quot(j, s) * s == j;
  }

  /** Newton's law of restitution: for two distinct bodies, not both fixed,
      meeting along a unit normal, the impulse turns the velocity along the
      normal into `-e` times what it was. */
  lemma RestitutionLaw(a: Body, b: Body, n: Vec2)
    requires !(a.fixed && b.fixed) && ImpulseShare(a, b) != 0.0 && Dot(n, n) == 1.0
    ensures var iv := ImpulseVector(a, b, n);
      VelocityAlongNormal(PushedA(a, iv), PushedB(b, iv), n) ==
        -Min(a.restitution, b.restitution) * VelocityAlongNormal(a, b, n)
  {
    var e, van := Min(a.restitution, b.restitution), VelocityAlongNormal(a, b, n);
    var iv := ImpulseVector(a, b, n);
    PushedRelative(a, b, iv);
    ImpulseTotal(a, b, n);
    DotAddScale(Sub(b.velocity, a.velocity), n, -(1.0 + e) * van);
    assert van + -(1.0 + e) * van * 1.0 == -e * van;
  }

  /** Momentum balance: for two distinct bodies that are not fixed, with
      non-zero inverse masses, the mass-weighted velocity changes cancel. */
  lemma MomentumBalance(a: Body, b: Body, n: Vec2)
    requires !a.fixed && !b.fixed && a.inv_mass != 0.0 && b.inv_mass != 0.0
    ensures var iv := ImpulseVector(a, b, n);
      Add(Scale(Sub(PushedA(a, iv).velocity, a.velocity), 1.0 / a.inv_mass),
          Scale(Sub(PushedB(b, iv).velocity, b.velocity), 1.0 / b.inv_mass)) == Zero
  {
    var iv := ImpulseVector(a, b, n);
    assert a.inv_mass * (1.0 / a.inv_mass) == 1.0;
    assert b.inv_mass * (1.0 / b.inv_mass) == 1.0;
    assert Scale(Sub(PushedA(a, iv).velocity, a.velocity), 1.0 / a.inv_mass) == Vec2(-iv.x, -iv.y);
    assert Scale(Sub(PushedB(b, iv).velocity, b.velocity), 1.0 / b.inv_mass) == iv;
  }

  /** The correction scalar of `correct_position`: the penetration beyond the
      slop (never negative), divided by `a`'s inverse mass when `b` is fixed,
      by `b`'s when `a` is, by their sum otherwise, times the percentage. */
  function CorrectionScalar(a: Body, b: Body, depth: real): real {
    var maximum := Max(0.0, depth - K_SLOP);
    if b.fixed then Quot(maximum, a.inv_mass) * PENETRATION_PERCENTAGE
    else if a.fixed then Quot(maximum, b.inv_mass) * PENETRATION_PERCENTAGE
    else Quot(maximum, a.inv_mass + b.inv_mass) * PENETRATION_PERCENTAGE
  }

  /** A penetration no deeper than the slop gives no correction. */
  lemma WithinSlopNoCorrection(a: Body, b: Body, depth: real)
    requires depth <= K_SLOP
    ensures CorrectionScalar(a, b, depth) == 0.0
  {
  }

  function MovedA(a: Body, correction: Vec2): Body {
    if a.fixed then a else a.(position := Sub(a.position, Scale(correction, a.inv_mass)))
  }

  function MovedB(b: Body, correction: Vec2): Body {
    if b.fixed then b else b.(position := Add(b.position, Scale(correction, b.inv_mass)))
  }

  /** The position of `b` relative to `a` after the correction. */
  lemma MovedRelative(a: Body, b: Body, corr: Vec2)
    ensures Sub(MovedB(b, corr).position, MovedA(a, corr).position) ==
      Add(Sub(b.position, a.position), Scale(corr, Mobility(a) + Mobility(b)))
  {
    SubScaleZero(a.position, corr);
    SubScaleZero(b.position, corr);
    OpposedShift(a.position, b.position, corr, Mobility(a), Mobility(b));
  }

  /** Spread over the bodies' mobilities, the correction adds up to the
      percentage of the penetration beyond the slop. */
  lemma CorrectionTotal(a: Body, b: Body, depth: real)
    requires !(a.fixed && b.fixed) && ImpulseShare(a, b) != 0.0
    ensures CorrectionScalar(a, b, depth) * (Mobility(a) + Mobility(b)) ==
      PENETRATION_PERCENTAGE * Max(0.0, depth - K_SLOP)
  {
    var maximum := Max(0.0, depth - K_SLOP);
    var s := ImpulseShare(a, b);
    ShareIsMobility(a, b);
    assert CorrectionScalar(a, b, depth) == Quot(maximum, s) * PENETRATION_PERCENTAGE;
    assert Quot(maximum, s) * s == maximum;
  }

  /** For two distinct bodies, not both fixed, with a non-zero share of
      inverse mass, the correction moves `b` away from `a` along the normal
      by half the penetration beyond the slop, however the share splits. */
  lemma CorrectionSeparates(a: Body, b: Body, c: Contact)
    requires !(a.fixed && b.fixed) && ImpulseShare(a, b) != 0.0
    ensures var corr := Scale(c.normal, CorrectionScalar(a, b, c.penetration_depth));
      Sub(MovedB(b, corr).position, MovedA(a, corr).position) ==
        Add(Sub(b.position, a.position),
            Scale(c.normal, PENETRATION_PERCENTAGE * Max(0.0, c.penetration_depth - K_SLOP)))
  {
    var k := CorrectionScalar(a, b, c.penetration_depth);
    MovedRelative(a, b, Scale(c.normal, k));
    ScaleScale(c.normal, k, Mobility(a) + Mobility(b));
    CorrectionTotal(a, b, c.penetration_depth);
  }

  /** The velocity after the applied force and the friction of one step,
      before the snap to rest. */
  function Damped(b: Body, dt: real): Vec2 {
    var v := Add(b.velocity, Scale(DivTotal(b.force, b.mass), dt));
    Sub(v, Scale(Scale(v, b.friction), dt))
  }

  /** One body's step in `calc_velocity`: accelerate by `force / mass`,
      clear the force, subtract `velocity * friction * dt`, snap the velocity
      to rest when its absolute value is below `(0.1, 0.1)` in `Vec2`'s
      derived (lexicographic) order, then advance the position. */
  function Integrate(b: Body, dt: real): (r: Body)
    ensures r.force == Zero
    ensures r.velocity == Zero || r.velocity == Damped(b, dt)
    ensures r.position == Add(b.position, Scale(r.velocity, dt))
    ensures r == b.(position := r.position, velocity := r.velocity, force := r.force)
  {
    var v := Damped(b, dt);
    var v' := if Less(Abs(v), Vec2(0.1, 0.1)) then Zero else v;
    b.(velocity := v', force := Zero, position := Add(b.position, Scale(v', dt)))
  }

  /** The snap to rest is decided by the `x` component alone unless it is
      exactly `0.1` in absolute value: below, the body stops however fast it
      moves along `y`; above, it keeps its damped velocity; on the tie, it
      stops exactly when the `y` component is below `0.1` in absolute value. */
  lemma SnapDrivenByX(b: Body, dt: real)
    ensures AbsReal(Damped(b, dt).x) < 0.1 ==> Integrate(b, dt).velocity == Zero
    ensures AbsReal(Damped(b, dt).x) > 0.1 ==> Integrate(b, dt).velocity == Damped(b, dt)
    ensures AbsReal(Damped(b, dt).x) == 0.1 ==>
      (Integrate(b, dt).velocity == Zero <==> AbsReal(Damped(b, dt).y) < 0.1)
  {
    LessDrivenByX(Abs(Damped(b, dt)), Vec2(0.1, 0.1));
  }

  /** A body moving straight along `y` at speed 5, with no force and no
      friction, is brought to rest by one step of length 1 and does not move. */
  lemma {:induction false} VerticalMotionStops(b: Body)
    requires b.velocity == Vec2(0.0, 5.0) && b.force == Zero && b.friction == 0.0
    ensures Integrate(b, 1.0).velocity == Zero && Integrate(b, 1.0).position == b.position
  {
    assert Quot(0.0, b.mass) == 0.0;
    assert DivTotal(b.force, b.mass) == Zero;
    assert Add(b.velocity, Scale(Zero, 1.0)) == Vec2(0.0, 5.0);
    assert Scale(Scale(Vec2(0.0, 5.0), 0.0), 1.0) == Zero;
    assert Damped(b, 1.0) == Vec2(0.0, 5.0);
    SnapDrivenByX(b, 1.0);
  }
}
