/** How the quadrants of a split cover their parent. `split` halves the
    width and height with integer division, so the four quadrants cover the
    parent exactly only while every width and height on the way down is even;
    otherwise the last column or row of the parent belongs to no child. */
module QuadGeometry {
  import opened Bounds
  import opened QuadModel

  /** `p` lies in `b`, borders included. */
  predicate InBox(p: Point, b: Aabb) {
    b.min.x <= p.x <= b.max.x && b.min.y <= p.y <= b.max.y
  }

  /** `n` can be halved exactly `k` times in a row. */
  predicate HalvesExactly(n: int, k: nat)
    decreases k
  {
    k == 0 || (n % 2 == 0 && HalvesExactly(n / 2, k - 1))
  }

  /** Every split that can still happen below a node at `level` with bounds
      `b` halves exactly: the width and height are non-negative and can be
      halved `MAX_DEPTH - level` times. A `1024 x 1024` root at level 0 is one. */
  predicate Halvable(b: Aabb, level: nat) {
    0 <= Width(b) && 0 <= Height(b) &&
    HalvesExactly(Width(b), Rank(level)) && HalvesExactly(Height(b), Rank(level))
  }

  /** The quadrants of a halvable box are halvable one level deeper, and its
      width and height are even. */
  lemma HalvableQuadrant(b: Aabb, level: nat, j: nat)
    requires Halvable(b, level) && level < MAX_DEPTH && j < 4
    ensures Width(b) == Half(Width(b)) + Half(Width(b))
    ensures Height(b) == Half(Height(b)) + Half(Height(b))
    ensures Halvable(Quadrant(b, j), level + 1)
  {
  }

  /** With an even width and height, every point of the parent lies in one of
      its four quadrants. */
  lemma PointInQuadrant(b: Aabb, p: Point) returns (j: nat)
    requires InBox(p, b)
    requires Width(b) == Half(Width(b)) + Half(Width(b)) && Height(b) == Half(Height(b)) + Half(Height(b))
    ensures j < 4 && InBox(p, Quadrant(b, j))
  {
    var right := if p.x <= b.min.x + Half(Width(b)) then 0 else 1;
    var lower := if p.y <= b.min.y + Half(Height(b)) then 0 else 2;
    j := right + lower;
  }

  /** Two ordered boxes that intersect share a point: the larger of the two
      minimum corners. */
  lemma CommonPoint(a: Aabb, b: Aabb) returns (p: Point)
    requires Proper(a) && Proper(b) && Intersects(a, b)
    ensures InBox(p, a) && InBox(p, b)
  {
    p := Point(if a.min.x < b.min.x then b.min.x else a.min.x,
               if a.min.y < b.min.y then b.min.y else a.min.y);
  }

  /** With an odd width the quadrants miss the parent's last column: for the
      `3 x 3` box at the origin, the halves are `1` wide, the quadrants end at
      `x = 2`, and a box at `(3, 3)` meets the parent but no quadrant. */
  lemma {:induction false} OddWidthLosesColumn()
    ensures var b := New(0, 0, 3, 3);
      var e := New(3, 3, 0, 0);
      Intersects(e, b) && forall j | 0 <= j < 4 :: !Intersects(e, Quadrant(b, j))
  {
    var b := New(0, 0, 3, 3);
    assert Half(3) == 1;
    forall j | 0 <= j < 4
      ensures Quadrant(b, j).max.x <= 2
    {
    }
  }
}
