/** What the two read-only queries report. `check` answers exactly the
    handles of stored entries whose boxes meet the query. The second half
    needs the tree to be indexed and its splits to halve exactly.
    `check_collisions` reports exactly the intersecting pairs that share a
    leaf, and in an indexed tree every two stored entries that overlap
    inside the root are reported in one order or the other. */
module QuadQueryProps {
  import opened Bounds
  import opened QuadModel
  import opened QuadGeometry
  import opened QuadInsertProps

  /** Every handle `check` reports belongs to a stored entry whose box meets
      the query. */
  lemma {:induction false} CheckSound(t: Tree, q: Aabb)
    ensures forall h | h in Check(t, q) :: exists m :: m in Members(t) && m.handle == h && Intersects(q, m.aabb)
  {
    if Intersects(q, t.bounds) {
      match t.node
      case Leaf(es) =>
        forall h | h in Check(t, q)
          ensures exists m :: m in Members(t) && m.handle == h && Intersects(q, m.aabb)
        {
          var k :| 0 <= k < |es| && Intersects(q, es[k].aabb) && es[k].handle == h;
          assert es[k] in Members(t);
        }
      case Branch(q0, q1, q2, q3) =>
        CheckSound(q0, q);
        CheckSound(q1, q);
        CheckSound(q2, q);
        CheckSound(q3, q);
    }
  }

  /** Where every split halves exactly, a placed entry is reported for every
      query that shares a point with it inside the node's bounds. */
  lemma {:induction false} CheckComplete(t: Tree, q: Aabb, m: Element, p: Point)
    requires Wf(t) && Halvable(t.bounds, t.level) && Placed(t, m)
    requires InBox(p, q) && InBox(p, m.aabb) && InBox(p, t.bounds)
    ensures m.handle in Check(t, q)
    decreases t
  {
    match t.node
    case Leaf(es) =>
      var k :| 0 <= k < |es| && es[k] == m;
    case Branch(q0, q1, q2, q3) =>
      HalvableQuadrant(t.bounds, t.level, 0);
      var j := PointInQuadrant(t.bounds, p);
      HalvableQuadrant(t.bounds, t.level, j);
      if j == 0 {
        CheckComplete(q0, q, m, p);
      } else if j == 1 {
        CheckComplete(q1, q, m, p);
      } else if j == 2 {
        CheckComplete(q2, q, m, p);
      } else {
        CheckComplete(q3, q, m, p);
      }
  }

  /** In an indexed tree whose splits halve exactly, `check` on an ordered
      query inside the root returns exactly the handles of the stored entries
      whose boxes meet the query. */
  lemma CheckExact(t: Tree, q: Aabb)
    requires Wf(t) && Halvable(t.bounds, t.level) && Indexed(t)
    requires Proper(q) && Within(q, t.bounds)
    ensures Check(t, q) == set m | m in Members(t) && Intersects(q, m.aabb) :: m.handle
  {
    CheckSound(t, q);
    forall m | m in Members(t) && Intersects(q, m.aabb)
      ensures m.handle in Check(t, q)
    {
      var p := CommonPoint(q, m.aabb);
      CheckComplete(t, q, m, p);
    }
  }

  /** `x` comes before `y` in one leaf of `t`. */
  predicate SameLeaf(t: Tree, x: Element, y: Element) {
    match t.node
    case Leaf(es) => exists i, j | 0 <= i < j < |es| :: es[i] == x && es[j] == y
    case Branch(q0, q1, q2, q3) =>
      SameLeaf(q0, x, y) || SameLeaf(q1, x, y) || SameLeaf(q2, x, y) || SameLeaf(q3, x, y)
  }

  /** Every pair `inner_check_collisions` collects comes from two entries of
      one leaf, the first before the second, whose boxes meet. */
  lemma {:induction false} PairsSound(t: Tree, p: Pair)
    requires p in Pairs(t)
    ensures exists x, y :: SameLeaf(t, x, y) && Intersects(x.aabb, y.aabb) && p == Pair(x.handle, y.handle)
  {
    match t.node
    case Leaf(es) =>
      var i, j :| 0 <= i < j < |es| && Intersects(es[i].aabb, es[j].aabb) && p == Pair(es[i].handle, es[j].handle);
      assert SameLeaf(t, es[i], es[j]);
    case Branch(q0, q1, q2, q3) =>
      var k := if p in Pairs(q0) then q0 else if p in Pairs(q1) then q1 else if p in Pairs(q2) then q2 else q3;
      PairsSound(k, p);
      var x, y :| SameLeaf(k, x, y) && Intersects(x.aabb, y.aabb) && p == Pair(x.handle, y.handle);
      assert SameLeaf(t, x, y);
  }

  /** Two entries of one leaf, the first before the second, whose boxes meet
      are collected as the pair of their handles. */
  lemma {:induction false} SameLeafPaired(t: Tree, x: Element, y: Element)
    requires SameLeaf(t, x, y) && Intersects(x.aabb, y.aabb)
    ensures Pair(x.handle, y.handle) in Pairs(t)
  {
    match t.node
    case Leaf(es) =>
      var i, j :| 0 <= i < j < |es| && es[i] == x && es[j] == y;
    case Branch(q0, q1, q2, q3) =>
      if SameLeaf(q0, x, y) {
        SameLeafPaired(q0, x, y);
      } else if SameLeaf(q1, x, y) {
        SameLeafPaired(q1, x, y);
      } else if SameLeaf(q2, x, y) {
        SameLeafPaired(q2, x, y);
      } else {
        SameLeafPaired(q3, x, y);
      }
  }

  /** Where every split halves exactly, two distinct placed entries that
      share a point inside the node's bounds are reported as a pair, in one
      order or the other. */
  lemma {:induction false} PairsComplete(t: Tree, x: Element, y: Element, p: Point)
    requires Wf(t) && Halvable(t.bounds, t.level) && Placed(t, x) && Placed(t, y) && x != y
    requires InBox(p, x.aabb) && InBox(p, y.aabb) && InBox(p, t.bounds)
    ensures Pair(x.handle, y.handle) in Pairs(t) || Pair(y.handle, x.handle) in Pairs(t)
    decreases t
  {
    match t.node
    case Leaf(es) =>
      var i :| 0 <= i < |es| && es[i] == x;
      var j :| 0 <= j < |es| && es[j] == y;
      assert Intersects(x.aabb, y.aabb);
      if i < j {
        assert Pair(x.handle, y.handle) in LeafPairs(es);
      } else {
        assert Pair(y.handle, x.handle) in LeafPairs(es);
      }
    case Branch(q0, q1, q2, q3) =>
      HalvableQuadrant(t.bounds, t.level, 0);
      var j := PointInQuadrant(t.bounds, p);
      HalvableQuadrant(t.bounds, t.level, j);
      if j == 0 {
        PairsComplete(q0, x, y, p);
      } else if j == 1 {
        PairsComplete(q1, x, y, p);
      } else if j == 2 {
        PairsComplete(q2, x, y, p);
      } else {
        PairsComplete(q3, x, y, p);
      }
  }
}
