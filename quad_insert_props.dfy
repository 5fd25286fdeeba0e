/** What `inner_insert` and `split` guarantee. Three facts are proved by
    induction along the mutual recursion of `Insert`, `Split` and
    `InsertAll`:
    - every leaf entry meets that leaf's bounds;
    - inserting adds no entry other than the inserted one;
    - an inserted entry is stored in every leaf whose bounds it meets.
    Where every split halves exactly, the last fact turns into "nothing is
    ever lost". */
module QuadInsertProps {
  import opened Bounds
  import opened QuadModel
  import opened QuadGeometry

  /** Every entry of a leaf meets the leaf's bounds. */
  predicate Inside(t: Tree) {
    match t.node
    case Leaf(es) => forall x | x in es :: Intersects(x.aabb, t.bounds)
    case Branch(q0, q1, q2, q3) => Inside(q0) && Inside(q1) && Inside(q2) && Inside(q3)
  }

  function Elements(es: seq<Element>): set<Element> {
    set x | x in es
  }

  lemma {:induction false} InsideInsert(t: Tree, e: Element)
    requires Wf(t) && Inside(t)
    ensures Inside(Insert(t, e))
    decreases Rank(t.level), 1, 0
  {
    if Intersects(e.aabb, t.bounds) {
      match t.node
      case Branch(q0, q1, q2, q3) =>
        InsideInsert(q0, e);
        InsideInsert(q1, e);
        InsideInsert(q2, e);
        InsideInsert(q3, e);
      case Leaf(es) =>
        if |es + [e]| > MAX_CHILDREN && t.level < MAX_DEPTH {
          InsideSplit(t.bounds, t.level, es + [e]);
        }
    }
  }

  lemma {:induction false} InsideSplit(b: Aabb, level: nat, es: seq<Element>)
    requires level < MAX_DEPTH
    ensures Inside(Split(b, level, es))
    decreases Rank(level), 0, 0
  {
    forall j | 0 <= j < 4
      ensures Inside(InsertAll(NewTree(level + 1, Quadrant(b, j)), es))
    {
      InsideInsertAll(NewTree(level + 1, Quadrant(b, j)), es);
    }
  }

  lemma {:induction false} InsideInsertAll(t: Tree, es: seq<Element>)
    requires Wf(t) && Inside(t)
    ensures Inside(InsertAll(t, es))
    decreases Rank(t.level), 2, |es|
  {
    if es != [] {
      InsideInsertAll(t, es[..|es| - 1]);
      InsideInsert(InsertAll(t, es[..|es| - 1]), es[|es| - 1]);
    }
  }

  /** Inserting adds at most the inserted entry, and only when it meets the
      node's bounds: an element outside the root is never indexed. */
  lemma {:induction false} MembersInsert(t: Tree, e: Element)
    requires Wf(t)
    ensures Members(Insert(t, e)) <= Members(t) + (if Intersects(e.aabb, t.bounds) then {e} else {})
    decreases Rank(t.level), 1, 0
  {
    if Intersects(e.aabb, t.bounds) {
      match t.node
      case Branch(q0, q1, q2, q3) =>
        MembersInsert(q0, e);
        MembersInsert(q1, e);
        MembersInsert(q2, e);
        MembersInsert(q3, e);
      case Leaf(es) =>
        if |es + [e]| > MAX_CHILDREN && t.level < MAX_DEPTH {
          MembersSplit(t.bounds, t.level, es + [e]);
          assert Elements(es + [e]) == Members(t) + {e};
        }
    }
  }

  lemma {:induction false} MembersSplit(b: Aabb, level: nat, es: seq<Element>)
    requires level < MAX_DEPTH
    ensures Members(Split(b, level, es)) <= Elements(es)
    decreases Rank(level), 0, 0
  {
    forall j | 0 <= j < 4
      ensures Members(InsertAll(NewTree(level + 1, Quadrant(b, j)), es)) <= Elements(es)
    {
      MembersInsertAll(NewTree(level + 1, Quadrant(b, j)), es);
    }
  }

  lemma {:induction false} MembersInsertAll(t: Tree, es: seq<Element>)
    requires Wf(t)
    ensures Members(InsertAll(t, es)) <= Members(t) + Elements(es)
    decreases Rank(t.level), 2, |es|
  {
    if es != [] {
      var init, last := es[..|es| - 1], es[|es| - 1];
      MembersInsertAll(t, init);
      MembersInsert(InsertAll(t, init), last);
      assert es == init + [last];
      assert Elements(es) == Elements(init) + {last};
    }
  }

  /** `m` is stored in every leaf whose bounds it meets, on every path down
      from `t` along which it meets the bounds. */
  predicate Placed(t: Tree, m: Element) {
    Intersects(m.aabb, t.bounds) ==>
      match t.node
      case Leaf(es) => m in es
      case Branch(q0, q1, q2, q3) => Placed(q0, m) && Placed(q1, m) && Placed(q2, m) && Placed(q3, m)
  }

  /** Inserting `e` places it, and keeps every entry that was placed placed:
      a branch hands it to all four children and a split re-inserts every
      former entry into every child it meets. */
  lemma {:induction false} PlacedInsert(t: Tree, e: Element, m: Element)
    requires Wf(t) && (m == e || Placed(t, m))
    ensures Placed(Insert(t, e), m)
    decreases Rank(t.level), 1, 0
  {
    if Intersects(e.aabb, t.bounds) && Intersects(m.aabb, t.bounds) {
      match t.node
      case Branch(q0, q1, q2, q3) =>
        PlacedInsert(q0, e, m);
        PlacedInsert(q1, e, m);
        PlacedInsert(q2, e, m);
        PlacedInsert(q3, e, m);
      case Leaf(es) =>
        if |es + [e]| > MAX_CHILDREN && t.level < MAX_DEPTH {
          PlacedSplit(t.bounds, t.level, es + [e], m);
        }
    }
  }

  lemma {:induction false} PlacedSplit(b: Aabb, level: nat, es: seq<Element>, m: Element)
    requires level < MAX_DEPTH && m in es
    ensures Placed(Split(b, level, es), m)
    decreases Rank(level), 0, 0
  {
    forall j | 0 <= j < 4
      ensures Placed(InsertAll(NewTree(level + 1, Quadrant(b, j)), es), m)
    {
      PlacedInsertAll(NewTree(level + 1, Quadrant(b, j)), es, m);
    }
  }

  lemma {:induction false} PlacedInsertAll(t: Tree, es: seq<Element>, m: Element)
    requires Wf(t) && (m in es || Placed(t, m))
    ensures Placed(InsertAll(t, es), m)
    decreases Rank(t.level), 2, |es|
  {
    if es != [] {
      var init, last := es[..|es| - 1], es[|es| - 1];
      assert es == init + [last];
      if m != last {
        PlacedInsertAll(t, init, m);
      }
      PlacedInsert(InsertAll(t, init), last, m);
    }
  }

  /** Where every split halves exactly, a placed entry that shares a point
      with the node's bounds is stored in some leaf. */
  lemma {:induction false} PlacedIsMember(t: Tree, m: Element, p: Point)
    requires Wf(t) && Halvable(t.bounds, t.level) && Placed(t, m)
    requires InBox(p, m.aabb) && InBox(p, t.bounds)
    ensures m in Members(t)
    decreases t
  {
    match t.node
    case Leaf(es) =>
    case Branch(q0, q1, q2, q3) =>
      HalvableQuadrant(t.bounds, t.level, 0);
      var j := PointInQuadrant(t.bounds, p);
      HalvableQuadrant(t.bounds, t.level, j);
      if j == 0 {
        PlacedIsMember(q0, m, p);
      } else if j == 1 {
        PlacedIsMember(q1, m, p);
      } else if j == 2 {
        PlacedIsMember(q2, m, p);
      } else {
        PlacedIsMember(q3, m, p);
      }
  }

  /** The invariant the broad phase keeps when every split halves exactly:
      every stored entry has an ordered box that meets the root and is placed. */
  ghost predicate Indexed(t: Tree) {
    forall m | m in Members(t) :: Proper(m.aabb) && Intersects(m.aabb, t.bounds) && Placed(t, m)
  }

  /** The empty tree is indexed. */
  lemma NewTreeIndexed(level: nat, b: Aabb)
    ensures Members(NewTree(level, b)) == {} && Indexed(NewTree(level, b))
  {
  }

  /** Inserting an ordered box into an indexed tree whose splits halve
      exactly stores exactly that entry more, if it meets the root, and loses
      nothing; the tree stays indexed. */
  lemma InsertExact(t: Tree, e: Element)
    requires Wf(t) && Halvable(t.bounds, t.level) && Indexed(t) && Proper(e.aabb)
    ensures Members(Insert(t, e)) == Members(t) + (if Intersects(e.aabb, t.bounds) then {e} else {})
    ensures Indexed(Insert(t, e))
  {
    var r := Insert(t, e);
    MembersInsert(t, e);
    forall m | m in Members(t) + (if Intersects(e.aabb, t.bounds) then {e} else {})
      ensures Placed(r, m) && m in Members(r)
    {
      PlacedInsert(t, e, m);
      var p := CommonPoint(m.aabb, t.bounds);
      PlacedIsMember(r, m, p);
    }
    forall m | m in Members(r)
      ensures Proper(m.aabb) && Intersects(m.aabb, r.bounds) && Placed(r, m)
    {
    }
  }

  /** Entries appended to a leaf stay in that leaf while it is at
      `MAX_DEPTH` or holds at most `MAX_CHILDREN` of them. */
  lemma {:induction false} LeafAppends(t: Tree, es: seq<Element>)
    requires t.node.Leaf?
    requires forall x | x in es :: Intersects(x.aabb, t.bounds)
    requires t.level >= MAX_DEPTH || |t.node.entries| + |es| <= MAX_CHILDREN
    ensures InsertAll(t, es) == Tree(t.bounds, t.level, Leaf(t.node.entries + es))
  {
    if es != [] {
      var init := es[..|es| - 1];
      LeafAppends(t, init);
      assert t.node.entries + init + [es[|es| - 1]] == t.node.entries + es;
    }
  }

  /** The capacity rule: `MAX_CHILDREN` entries that meet the bounds of an
      empty leaf above `MAX_DEPTH` leave it a leaf holding them in order, and
      one more entry that meets the bounds splits it. */
  lemma CapacityScenario(level: nat, b: Aabb, es: seq<Element>, e: Element)
    requires level < MAX_DEPTH && |es| == MAX_CHILDREN
    requires forall x | x in es :: Intersects(x.aabb, b)
    requires Intersects(e.aabb, b)
    ensures InsertAll(NewTree(level, b), es) == Tree(b, level, Leaf(es))
    ensures Insert(InsertAll(NewTree(level, b), es), e).node.Branch?
  {
    var t0 := NewTree(level, b);
    LeafAppends(t0, es);
    assert t0.node.entries + es == es;
    var full := InsertAll(t0, es);
    assert full == Tree(b, level, Leaf(es));
    assert |full.node.entries + [e]| > MAX_CHILDREN;
    assert Insert(full, e) == Split(b, level, es + [e]);
  }

  /** A leaf at `MAX_DEPTH` never splits: it keeps every entry that meets it. */
  lemma DeepLeafGrows(t: Tree, es: seq<Element>)
    requires t.node.Leaf? && t.level >= MAX_DEPTH
    requires forall x | x in es :: Intersects(x.aabb, t.bounds)
    ensures InsertAll(t, es) == Tree(t.bounds, t.level, Leaf(t.node.entries + es))
    ensures Len(InsertAll(t, es)) == Len(t) + |es|
  {
    LeafAppends(t, es);
  }
}
