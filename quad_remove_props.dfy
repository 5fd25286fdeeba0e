/** What `remove` guarantees. It visits the leaves whose bounds the
    element's box meets and drops, in each, the first entry with the same
    handle. Entries with other handles are never touched, and an absent
    handle changes nothing. Every copy of an entry disappears only when its
    copies sit where the same box leads: one per leaf, on leaves that box
    meets. Inserting a fresh handle leaves exactly that situation, so
    removing what was just inserted gives back the entries held before. */
module QuadRemoveProps {
  import opened Bounds
  import opened QuadModel
  import opened QuadGeometry
  import opened QuadInsertProps

  /** No stored entry carries handle `h`. */
  ghost predicate HandleFree(t: Tree, h: Handle) {
    forall m | m in Members(t) :: m.handle != h
  }

  /** `es` holds at most one entry with `m`'s handle, and that entry is `m`. */
  predicate OneCopy(es: seq<Element>, m: Element) {
    forall i, j | 0 <= i < |es| && 0 <= j < |es| && es[i].handle == m.handle && es[j].handle == m.handle ::
      i == j && es[i] == m
  }

  /** The entries of `t` with `m`'s handle are copies of `m`, at most one per
      leaf, and only in leaves reached along bounds that `m`'s box meets. */
  ghost predicate Tracked(t: Tree, m: Element) {
    if !Intersects(m.aabb, t.bounds) then HandleFree(t, m.handle)
    else match t.node
      case Leaf(es) => OneCopy(es, m)
      case Branch(q0, q1, q2, q3) => Tracked(q0, m) && Tracked(q1, m) && Tracked(q2, m) && Tracked(q3, m)
  }

  /** `remove` never adds an entry, and keeps every entry with another handle. */
  lemma {:induction false} RemoveMembers(t: Tree, e: Element)
    ensures Members(Remove(t, e)) <= Members(t)
    ensures forall m | m in Members(t) && m.handle != e.handle :: m in Members(Remove(t, e))
  {
    if Intersects(e.aabb, t.bounds) {
      match t.node
      case Leaf(es) =>
        FindHandleFirst(es, e.handle);
        if FindHandle(es, e.handle).Some? {
          var i := FindHandle(es, e.handle).value;
          SwapRemoveElements(es, i);
        }
      case Branch(q0, q1, q2, q3) =>
        RemoveMembers(q0, e);
        RemoveMembers(q1, e);
        RemoveMembers(q2, e);
        RemoveMembers(q3, e);
    }
  }

  /** Removing a handle that no entry carries leaves the tree as it was. */
  lemma {:induction false} RemoveAbsent(t: Tree, e: Element)
    requires HandleFree(t, e.handle)
    ensures Remove(t, e) == t
  {
    if Intersects(e.aabb, t.bounds) {
      match t.node
      case Leaf(es) =>
        FindHandleFirst(es, e.handle);
        assert forall k | 0 <= k < |es| :: es[k] in Members(t);
      case Branch(q0, q1, q2, q3) =>
        RemoveAbsent(q0, e);
        RemoveAbsent(q1, e);
        RemoveAbsent(q2, e);
        RemoveAbsent(q3, e);
    }
  }

  /** Each visited leaf loses at most one entry, so `len` never grows. */
  lemma {:induction false} RemoveLen(t: Tree, e: Element)
    ensures Len(Remove(t, e)) <= Len(t)
  {
    if Intersects(e.aabb, t.bounds) {
      match t.node
      case Leaf(es) =>
        if FindHandle(es, e.handle).Some? {
          SwapRemoveShape(es, FindHandle(es, e.handle).value);
        }
      case Branch(q0, q1, q2, q3) =>
        RemoveLen(q0, e);
        RemoveLen(q1, e);
        RemoveLen(q2, e);
        RemoveLen(q3, e);
    }
  }

  /** An entry with another handle stays placed. */
  lemma {:induction false} RemovePlaced(t: Tree, e: Element, m: Element)
    requires Placed(t, m) && m.handle != e.handle
    ensures Placed(Remove(t, e), m)
  {
    if Intersects(e.aabb, t.bounds) && Intersects(m.aabb, t.bounds) {
      match t.node
      case Leaf(es) =>
        RemoveMembers(t, e);
        assert m in Members(t);
      case Branch(q0, q1, q2, q3) =>
        RemovePlaced(q0, e, m);
        RemovePlaced(q1, e, m);
        RemovePlaced(q2, e, m);
        RemovePlaced(q3, e, m);
    }
  }

  /** A tree without `m`'s handle tracks `m`. */
  lemma {:induction false} FreeTracked(t: Tree, m: Element)
    requires HandleFree(t, m.handle)
    ensures Tracked(t, m)
  {
    if Intersects(m.aabb, t.bounds) {
      match t.node
      case Leaf(es) =>
        assert forall i | 0 <= i < |es| :: es[i] in Members(t);
      case Branch(q0, q1, q2, q3) =>
        FreeTracked(q0, m);
        FreeTracked(q1, m);
        FreeTracked(q2, m);
        FreeTracked(q3, m);
    }
  }

  /** When `m`'s copies sit where `m`'s box leads, removing `m` removes
      every entry with its handle. */
  lemma {:induction false} TrackedRemoved(t: Tree, m: Element)
    requires Tracked(t, m)
    ensures HandleFree(Remove(t, m), m.handle)
  {
    if Intersects(m.aabb, t.bounds) {
      match t.node
      case Leaf(es) =>
        FindHandleFirst(es, m.handle);
        if FindHandle(es, m.handle).Some? {
          var i := FindHandle(es, m.handle).value;
          var r := SwapRemove(es, i);
          SwapRemoveShape(es, i);
          forall x | x in r
            ensures x.handle != m.handle
          {
            var k :| 0 <= k < |r| && r[k] == x;
            var src := if k == i then |es| - 1 else k;
            assert x == es[src] && src != i;
          }
        } else {
          assert forall x | x in es :: x.handle != m.handle;
        }
      case Branch(q0, q1, q2, q3) =>
        TrackedRemoved(q0, m);
        TrackedRemoved(q1, m);
        TrackedRemoved(q2, m);
        TrackedRemoved(q3, m);
    }
  }

  /** Removing another handle keeps `m` tracked. */
  lemma {:induction false} TrackedRemove(t: Tree, e: Element, m: Element)
    requires Tracked(t, m) && e.handle != m.handle
    ensures Tracked(Remove(t, e), m)
  {
    RemoveMembers(t, e);
    if Intersects(e.aabb, t.bounds) && Intersects(m.aabb, t.bounds) {
      match t.node
      case Leaf(es) =>
        if FindHandle(es, e.handle).Some? {
          var i := FindHandle(es, e.handle).value;
          var r := SwapRemove(es, i);
          SwapRemoveShape(es, i);
          forall a, b | 0 <= a < |r| && 0 <= b < |r| && r[a].handle == m.handle && r[b].handle == m.handle
            ensures a == b && r[a] == m
          {
            var sa := if a == i then |es| - 1 else a;
            var sb := if b == i then |es| - 1 else b;
            assert r[a] == es[sa] && r[b] == es[sb];
          }
        }
      case Branch(q0, q1, q2, q3) =>
        TrackedRemove(q0, e, m);
        TrackedRemove(q1, e, m);
        TrackedRemove(q2, e, m);
        TrackedRemove(q3, e, m);
    }
  }

  /** Inserting another handle, or inserting `m` itself while its handle is
      absent, keeps `m` tracked. */
  lemma {:induction false} TrackedInsert(t: Tree, e: Element, m: Element)
    requires Wf(t) && Tracked(t, m)
    requires e.handle != m.handle || (e == m && HandleFree(t, m.handle))
    ensures Tracked(Insert(t, e), m)
    decreases Rank(t.level), 1, 0
  {
    MembersInsert(t, e);
    if Intersects(e.aabb, t.bounds) && Intersects(m.aabb, t.bounds) {
      match t.node
      case Branch(q0, q1, q2, q3) =>
        TrackedInsert(q0, e, m);
        TrackedInsert(q1, e, m);
        TrackedInsert(q2, e, m);
        TrackedInsert(q3, e, m);
      case Leaf(es) =>
        assert e.handle == m.handle ==> forall x | x in es :: x.handle != m.handle;
        if |es + [e]| > MAX_CHILDREN && t.level < MAX_DEPTH {
          TrackedSplit(t.bounds, t.level, es + [e], m);
        }
    }
  }

  lemma {:induction false} TrackedSplit(b: Aabb, level: nat, es: seq<Element>, m: Element)
    requires level < MAX_DEPTH && Intersects(m.aabb, b) && OneCopy(es, m)
    ensures Tracked(Split(b, level, es), m)
    decreases Rank(level), 0, 0
  {
    forall j | 0 <= j < 4
      ensures Tracked(InsertAll(NewTree(level + 1, Quadrant(b, j)), es), m)
    {
      TrackedInsertAll(NewTree(level + 1, Quadrant(b, j)), es, m);
    }
  }

  lemma {:induction false} TrackedInsertAll(t: Tree, es: seq<Element>, m: Element)
    requires Wf(t) && Tracked(t, m) && OneCopy(es, m)
    requires (exists k | 0 <= k < |es| :: es[k].handle == m.handle) ==> HandleFree(t, m.handle)
    ensures Tracked(InsertAll(t, es), m)
    decreases Rank(t.level), 2, |es|
  {
    if es != [] {
      var init, last := es[..|es| - 1], es[|es| - 1];
      assert forall k | 0 <= k < |init| :: init[k] == es[k];
      if last.handle == m.handle {
        assert forall k | 0 <= k < |init| :: init[k].handle != m.handle;
        TrackedInsertAll(t, init, m);
        MembersInsertAll(t, init);
        TrackedInsert(InsertAll(t, init), last, m);
      } else {
        TrackedInsertAll(t, init, m);
        TrackedInsert(InsertAll(t, init), last, m);
      }
    }
  }

  /** Removing what was just inserted under a fresh handle gives back the
      entries held before; where every split halves exactly and the tree is
      indexed, that is exactly the original set of entries. */
  lemma InsertThenRemove(t: Tree, e: Element)
    requires Wf(t) && HandleFree(t, e.handle)
    ensures Members(Remove(Insert(t, e), e)) == Members(Insert(t, e)) - {e}
    ensures Halvable(t.bounds, t.level) && Indexed(t) && Proper(e.aabb) ==>
      Members(Remove(Insert(t, e), e)) == Members(t)
  {
    var r := Insert(t, e);
    MembersInsert(t, e);
    FreeTracked(t, e);
    TrackedInsert(t, e, e);
    TrackedRemoved(r, e);
    RemoveMembers(r, e);
    if Halvable(t.bounds, t.level) && Indexed(t) && Proper(e.aabb) {
      InsertExact(t, e);
    }
  }
}
