/** Two-dimensional vectors over the reals: the `Vec2` value type of the
    physics code, with the componentwise operators the core uses. Rounding,
    NaN and signed zeros of `f32` are not modelled. */
module Vectors {

  datatype Vec2 = Vec2(x: real, y: real)

  const Zero := Vec2(0.0, 0.0)

  function Add(a: Vec2, b: Vec2): Vec2 {
    Vec2(a.x + b.x, a.y + b.y)
  }

  function Sub(a: Vec2, b: Vec2): Vec2 {
    Vec2(a.x - b.x, a.y - b.y)
  }

  /** `v * s` for a scalar `s`. */
  function Scale(v: Vec2, s: real): Vec2 {
    Vec2(v.x * s, v.y * s)
  }

  /** `v / s` for a non-zero scalar `s`. */
  function Div(v: Vec2, s: real): Vec2
    requires s != 0.0
  {
    Vec2(v.x / s, v.y / s)
  }

  /** `x / y` where the model needs it for every `y`: exact for a non-zero
      `y`; for zero, where `f32` gives an infinity or NaN, zero. */
  function Quot(x: real, y: real): real {
    if y == 0.0 then 0.0 else x / y
  }

  /** `v / s` componentwise, with `Quot`'s convention for `s == 0`. */
  function DivTotal(v: Vec2, s: real): Vec2 {
    Vec2(Quot(v.x, s), Quot(v.y, s))
  }

  /** `f32::min` and `f32::max` away from NaN. */
  function Min(a: real, b: real): real {
    if a <= b then a else b
  }

  function Max(a: real, b: real): real {
    if a <= b then b else a
  }

  /** The product of two reals, named so that facts about squares can be
      stated once, by lemmas about `Mul`, and used without re-deriving them. */
  function Mul(a: real, b: real): real {
    a * b
  }

  function Dot(a: Vec2, b: Vec2): real {
    a.x * b.x + a.y * b.y
  }

  function AbsReal(r: real): real {
    if r < 0.0 then -r else r
  }

  /** Elementwise absolute value. */
  function Abs(v: Vec2): Vec2 {
    Vec2(AbsReal(v.x), AbsReal(v.y))
  }

  /** The `<` of the derived `PartialOrd` of a two-field struct: the fields
      are compared in declaration order, so `x` decides unless it ties. */
  predicate Less(a: Vec2, b: Vec2) {
    a.x < b.x || (a.x == b.x && a.y < b.y)
  }

  /** `f32::signum` away from NaN and signed zero: -1 for negatives, 1 otherwise. */
  function Signum(r: real): (s: real)
    ensures s == 1.0 || s == -1.0
    ensures Mul(s, r) == AbsReal(r)
  {
    if r < 0.0 then -1.0 else 1.0
  }

  /** `clamp(v, lo, hi)`, which the standard library only allows for `lo <= hi`. */
  function Clamp(v: real, lo: real, hi: real): (r: real)
    requires lo <= hi
    ensures lo <= r <= hi
    ensures lo <= v <= hi ==> r == v
    ensures v < lo ==> r == lo
    ensures hi < v ==> r == hi
  {
    if v < lo then lo else if v > hi then hi else v
  }

  /** What the code asks of `f32::sqrt` on non-negative arguments. */
  ghost predicate IsSqrt(sqrt: real -> real) {
    forall r: real {:trigger sqrt(r)} :: 0.0 <= r ==> 0.0 <= sqrt(r) && Mul(sqrt(r), sqrt(r)) == r
  }

  lemma ScaleScale(v: Vec2, k: real, s: real)
    ensures Scale(Scale(v, k), s) == Scale(v, k * s)
  {
  }

  /** Moving `b` by `+d * kb` and `a` by `-d * ka` changes `b - a` by `d * (ka + kb)`. */
  lemma OpposedShift(a: Vec2, b: Vec2, d: Vec2, ka: real, kb: real)
    ensures Sub(Add(b, Scale(d, kb)), Sub(a, Scale(d, ka))) == Add(Sub(b, a), Scale(d, ka + kb))
  {
    assert d.x * kb + d.x * ka == d.x * (ka + kb);
    assert d.y * kb + d.y * ka == d.y * (ka + kb);
  }

  lemma DotAddScale(v: Vec2, n: Vec2, j: real)
    ensures Dot(Add(v, Scale(n, j)), n) == Dot(v, n) + j * Dot(n, n)
  {
    assert (v.x + n.x * j) * n.x == v.x * n.x + j * (n.x * n.x);
    assert (v.y + n.y * j) * n.y == v.y * n.y + j * (n.y * n.y);
  }

  /** Scaling by zero leaves a difference unchanged. */
  lemma SubScaleZero(v: Vec2, d: Vec2)
    ensures Sub(v, Scale(d, 0.0)) == v && Add(v, Scale(d, 0.0)) == v
  {
  }

  /** The less-than-lexicographic order is driven by `x`: whenever `a.x < b.x`
      the `y` components play no part. */
  lemma LessDrivenByX(a: Vec2, b: Vec2)
    ensures a.x < b.x ==> Less(a, b)
    ensures b.x < a.x ==> !Less(a, b)
  {
  }
}
