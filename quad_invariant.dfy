/** The invariant a broad phase keeps under `insert`, `remove` and
    `clean_up` when every insertion carries a handle not already stored and
    every removal names an entry that is stored (or a handle that is not):
    the entries of one handle are copies of a single element, placed where
    that element's box leads. Where every split halves exactly, the tree is
    also indexed, and then its entries are exactly those inserted and not yet
    removed. */
module QuadInvariant {
  import opened Bounds
  import opened QuadModel
  import opened QuadGeometry
  import opened QuadInsertProps
  import opened QuadRemoveProps

  /** `clean_up` keeps every entry: `len` and the stored entries are unchanged. */
  lemma {:induction false} CleanUpKeeps(t: Tree)
    ensures Len(CleanUp(t).0) == Len(t)
    ensures Members(CleanUp(t).0) == Members(t)
  {
    match t.node
    case Leaf(_) =>
    case Branch(q0, q1, q2, q3) =>
      CleanUpKeeps(q0);
      CleanUpKeeps(q1);
      CleanUpKeeps(q2);
      CleanUpKeeps(q3);
  }

  /** `clean_up` keeps each entry tracked. */
  lemma {:induction false} TrackedCleanUp(t: Tree, m: Element)
    requires Tracked(t, m)
    ensures Tracked(CleanUp(t).0, m)
  {
    CleanUpKeeps(t);
    if Intersects(m.aabb, t.bounds) {
      match t.node
      case Leaf(_) =>
      case Branch(q0, q1, q2, q3) =>
        TrackedCleanUp(q0, m);
        TrackedCleanUp(q1, m);
        TrackedCleanUp(q2, m);
        TrackedCleanUp(q3, m);
    }
  }

  /** Where every split halves exactly, `clean_up` keeps an ordered placed
      entry placed: a subtree it collapses holds no entry, so such an entry
      does not meet it. */
  lemma {:induction false} PlacedCleanUp(t: Tree, m: Element)
    requires Wf(t) && Halvable(t.bounds, t.level) && Proper(m.aabb) && Placed(t, m)
    ensures Placed(CleanUp(t).0, m)
    decreases t
  {
    if Intersects(m.aabb, t.bounds) && t.node.Branch? {
      var q0, q1, q2, q3 := t.node.q0, t.node.q1, t.node.q2, t.node.q3;
      if CleanUp(q0).1 && CleanUp(q1).1 && CleanUp(q2).1 && CleanUp(q3).1 {
        CleanUpKeeps(t);
        var p := CommonPoint(m.aabb, t.bounds);
        PlacedIsMember(t, m, p);
        assert false;
      }
      assert CleanUp(t).0.node == Branch(CleanUp(q0).0, CleanUp(q1).0, CleanUp(q2).0, CleanUp(q3).0);
      PlacedCleanUpKids(t, m);
    }
  }

  /** The four recursive calls of `PlacedCleanUp`, one per quadrant. */
  lemma {:induction false} PlacedCleanUpKids(t: Tree, m: Element)
    requires Wf(t) && Halvable(t.bounds, t.level) && Proper(m.aabb) && Placed(t, m)
    requires Intersects(m.aabb, t.bounds) && t.node.Branch?
    ensures Placed(CleanUp(t.node.q0).0, m) && Placed(CleanUp(t.node.q1).0, m)
    ensures Placed(CleanUp(t.node.q2).0, m) && Placed(CleanUp(t.node.q3).0, m)
    decreases t, 0
  {
    HalvableQuadrant(t.bounds, t.level, 0);
    HalvableQuadrant(t.bounds, t.level, 1);
    HalvableQuadrant(t.bounds, t.level, 2);
    HalvableQuadrant(t.bounds, t.level, 3);
    PlacedCleanUp(t.node.q0, m);
    PlacedCleanUp(t.node.q1, m);
    PlacedCleanUp(t.node.q2, m);
    PlacedCleanUp(t.node.q3, m);
  }

  /** A stored entry is the only element stored under its handle. */
  lemma {:induction false} TrackedUnique(t: Tree, m: Element, x: Element)
    requires Tracked(t, m) && x in Members(t) && x.handle == m.handle
    ensures x == m
  {
    if Intersects(m.aabb, t.bounds) {
      match t.node
      case Leaf(es) =>
        var k :| 0 <= k < |es| && es[k] == x;
      case Branch(q0, q1, q2, q3) =>
        if x in Members(q0) {
          TrackedUnique(q0, m, x);
        } else if x in Members(q1) {
          TrackedUnique(q1, m, x);
        } else if x in Members(q2) {
          TrackedUnique(q2, m, x);
        } else {
          TrackedUnique(q3, m, x);
        }
    }
  }

  /** Well formed, and every stored entry tracked: each handle stands for one
      element, stored wherever its box leads. */
  ghost predicate Coherent(t: Tree) {
    Wf(t) && forall m | m in Members(t) :: Tracked(t, m)
  }

  /** The empty tree is coherent. */
  lemma NewTreeCoherent(level: nat, b: Aabb)
    ensures Coherent(NewTree(level, b)) && Members(NewTree(level, b)) == {}
  {
  }

  /** Inserting a handle not stored yet keeps the tree coherent and adds at
      most the new entry; where every split halves exactly and the tree is
      indexed, it adds exactly that entry when its box meets the root. */
  lemma InsertCoherent(t: Tree, e: Element)
    requires Coherent(t) && HandleFree(t, e.handle)
    ensures Coherent(Insert(t, e))
    ensures Members(Insert(t, e)) <= Members(t) + {e}
    ensures Halvable(t.bounds, t.level) && Indexed(t) && Proper(e.aabb) ==>
      Indexed(Insert(t, e)) &&
      Members(Insert(t, e)) == Members(t) + (if Intersects(e.aabb, t.bounds) then {e} else {})
  {
    var r := Insert(t, e);
    MembersInsert(t, e);
    forall m | m in Members(r)
      ensures Tracked(r, m)
    {
      if m == e {
        FreeTracked(t, e);
        TrackedInsert(t, e, e);
      } else {
        TrackedInsert(t, e, m);
      }
    }
    if Halvable(t.bounds, t.level) && Indexed(t) && Proper(e.aabb) {
      InsertExact(t, e);
    }
  }

  /** Removing a stored entry, or a handle that is not stored, keeps the tree
      coherent and drops exactly that entry; an indexed tree stays indexed. */
  lemma RemoveCoherent(t: Tree, e: Element)
    requires Coherent(t) && (e in Members(t) || HandleFree(t, e.handle))
    ensures Coherent(Remove(t, e))
    ensures Members(Remove(t, e)) == Members(t) - {e}
    ensures HandleFree(Remove(t, e), e.handle)
    ensures Indexed(t) ==> Indexed(Remove(t, e))
  {
    var r := Remove(t, e);
    if e in Members(t) {
      TrackedRemoved(t, e);
      RemoveMembers(t, e);
      forall m | m in Members(t) && m != e
        ensures m in Members(r)
      {
        if m.handle == e.handle {
          TrackedUnique(t, e, m);
        }
      }
      forall m | m in Members(r)
        ensures Tracked(r, m) && (Placed(t, m) ==> Placed(r, m))
      {
        TrackedRemove(t, e, m);
        if Placed(t, m) {
          RemovePlaced(t, e, m);
        }
      }
    } else {
      RemoveAbsent(t, e);
    }
  }

  /** `clean_up` keeps the tree coherent, its entries and `len`; where every
      split halves exactly, an indexed tree stays indexed. */
  lemma CleanUpCoherent(t: Tree)
    requires Coherent(t)
    ensures Coherent(CleanUp(t).0)
    ensures Members(CleanUp(t).0) == Members(t) && Len(CleanUp(t).0) == Len(t)
    ensures Halvable(t.bounds, t.level) && Indexed(t) ==> Indexed(CleanUp(t).0)
  {
    var r := CleanUp(t).0;
    CleanUpKeeps(t);
    forall m | m in Members(r)
      ensures Tracked(r, m)
    {
      TrackedCleanUp(t, m);
    }
    if Halvable(t.bounds, t.level) && Indexed(t) {
      forall m | m in Members(r)
        ensures Placed(r, m)
      {
        PlacedCleanUp(t, m);
      }
    }
  }
}
