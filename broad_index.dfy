/** How the broad phase of a physics world stands to the world's bodies.
    The world keeps one quadtree entry per body, carrying the body's handle
    and the integer box `get_aabb` gives it. `Sync` says every stored entry
    is the current box of a live body and the tree is coherent; `Exact` adds
    that every live body whose box meets the root is stored, in a tree whose
    splits halve exactly. The lemmas here are the value-level effect of
    adding, removing and updating a body, and what the broad phase then
    reports. */
module BroadIndex {
  import opened Bounds
  import opened Bodies
  import M = QuadModel
  import opened QuadGeometry
  import opened QuadInsertProps
  import opened QuadRemoveProps
  import opened QuadQueryProps
  import opened QuadInvariant

  /** The live bodies of a world by handle. */
  type Store = map<M.Handle, Body>

  /** The broad-phase entry of the live body `h`. */
  function Entry(bodies: Store, h: M.Handle, aabbOf: Body -> Aabb): M.Element
    requires h in bodies
  {
    M.Element(h, aabbOf(bodies[h]))
  }

  /** The tree is coherent and each stored entry is the current entry of a
      live body. */
  ghost predicate Sync(t: M.Tree, bodies: Store, aabbOf: Body -> Aabb) {
    Coherent(t) &&
    forall m | m in M.Members(t) :: m.handle in bodies && m.aabb == aabbOf(bodies[m.handle])
  }

  /** Every split halves exactly, the tree is indexed, every live body has an
      ordered box, and every live body whose box meets the root is stored. */
  ghost predicate Exact(t: M.Tree, bodies: Store, aabbOf: Body -> Aabb) {
    Halvable(t.bounds, t.level) && Indexed(t) &&
    forall h | h in bodies ::
      Proper(aabbOf(bodies[h])) &&
      (Intersects(aabbOf(bodies[h]), t.bounds) ==> Entry(bodies, h, aabbOf) in M.Members(t))
  }

  /** An empty tree indexes the empty world, exactly when it halves exactly. */
  lemma EmptyIndex(level: nat, b: Aabb, aabbOf: Body -> Aabb)
    ensures Sync(M.NewTree(level, b), map[], aabbOf)
    ensures Halvable(b, level) ==> Exact(M.NewTree(level, b), map[], aabbOf)
  {
    NewTreeCoherent(level, b);
    NewTreeIndexed(level, b);
  }

  /** In a synchronised and exact index the stored entries are precisely
      the entries of the live bodies whose boxes meet the root. */
  lemma ExactMembers(t: M.Tree, bodies: Store, aabbOf: Body -> Aabb)
    requires Sync(t, bodies, aabbOf) && Exact(t, bodies, aabbOf)
    ensures M.Members(t) ==
      set h | h in bodies && Intersects(aabbOf(bodies[h]), t.bounds) :: Entry(bodies, h, aabbOf)
  {
    forall m | m in M.Members(t)
      ensures m.handle in bodies && Intersects(aabbOf(bodies[m.handle]), t.bounds)
      ensures m == Entry(bodies, m.handle, aabbOf)
    {
    }
  }

  /** An index stays synchronised with a store that agrees on the box of
      every stored handle. */
  lemma SyncFrame(t: M.Tree, bodies: Store, bodies': Store, aabbOf: Body -> Aabb)
    requires Sync(t, bodies, aabbOf)
    requires forall m | m in M.Members(t) :: m.handle in bodies' && aabbOf(bodies'[m.handle]) == aabbOf(bodies[m.handle])
    ensures Sync(t, bodies', aabbOf)
  {
  }

  /** Removing a live body's current entry leaves its handle unstored and
      drops exactly that entry. */
  lemma SyncRemove(t: M.Tree, bodies: Store, aabbOf: Body -> Aabb, h: M.Handle)
    requires Sync(t, bodies, aabbOf) && h in bodies
    ensures var r := M.Remove(t, Entry(bodies, h, aabbOf));
      Sync(r, bodies, aabbOf) && HandleFree(r, h) &&
      M.Members(r) == M.Members(t) - {Entry(bodies, h, aabbOf)} &&
      (Exact(t, bodies, aabbOf) ==> Exact(r, bodies - {h}, aabbOf))
  {
    var e := Entry(bodies, h, aabbOf);
    if !HandleFree(t, h) {
      var m :| m in M.Members(t) && m.handle == h;
      assert m == e;
    }
    RemoveCoherent(t, e);
  }

  /** Inserting the entry of a live body whose handle is not stored keeps
      the index synchronised, and exact when the body's box is ordered. */
  lemma SyncInsert(t: M.Tree, bodies: Store, aabbOf: Body -> Aabb, h: M.Handle)
    requires Sync(t, bodies, aabbOf) && h in bodies && HandleFree(t, h)
    ensures Sync(M.Insert(t, Entry(bodies, h, aabbOf)), bodies, aabbOf)
    ensures Exact(t, bodies - {h}, aabbOf) && Proper(aabbOf(bodies[h])) ==>
      Exact(M.Insert(t, Entry(bodies, h, aabbOf)), bodies, aabbOf)
  {
    var e := Entry(bodies, h, aabbOf);
    InsertCoherent(t, e);
    if Exact(t, bodies - {h}, aabbOf) && Proper(aabbOf(bodies[h])) {
      var r := M.Insert(t, e);
      forall k | k in bodies
        ensures Proper(aabbOf(bodies[k]))
        ensures Intersects(aabbOf(bodies[k]), r.bounds) ==> Entry(bodies, k, aabbOf) in M.Members(r)
      {
        if k != h {
          assert (bodies - {h})[k] == bodies[k];
        }
      }
    }
  }

  /** `add_body` on values: a fresh handle's entry joins a synchronised
      index, which stays exact when the new box is ordered. */
  lemma SyncAdd(t: M.Tree, bodies: Store, aabbOf: Body -> Aabb, h: M.Handle, body: Body)
    requires Sync(t, bodies, aabbOf) && h !in bodies
    ensures var r := M.Insert(t, M.Element(h, aabbOf(body)));
      Sync(r, bodies[h := body], aabbOf) &&
      (Exact(t, bodies, aabbOf) && Proper(aabbOf(body)) ==> Exact(r, bodies[h := body], aabbOf))
  {
    var bodies' := bodies[h := body];
    SyncFrame(t, bodies, bodies', aabbOf);
    assert bodies' - {h} == bodies;
    SyncInsert(t, bodies', aabbOf, h);
  }

  /** `remove_body` on values: dropping a live body and its current entry
      keeps the index synchronised and exact, and no entry keeps its handle. */
  lemma SyncDrop(t: M.Tree, bodies: Store, aabbOf: Body -> Aabb, h: M.Handle)
    requires Sync(t, bodies, aabbOf) && h in bodies
    ensures var r := M.Remove(t, Entry(bodies, h, aabbOf));
      Sync(r, bodies - {h}, aabbOf) && HandleFree(r, h) &&
      (Exact(t, bodies, aabbOf) ==> Exact(r, bodies - {h}, aabbOf))
  {
    SyncRemove(t, bodies, aabbOf, h);
    SyncFrame(M.Remove(t, Entry(bodies, h, aabbOf)), bodies, bodies - {h}, aabbOf);
  }

  /** `update` on values: taking out a live body's old entry and putting in
      the entry of its new value keeps the index synchronised, and exact when
      the new box is ordered. */
  lemma SyncReplace(t: M.Tree, bodies: Store, aabbOf: Body -> Aabb, h: M.Handle, body: Body)
    requires Sync(t, bodies, aabbOf) && h in bodies
    ensures var r := M.Insert(M.Remove(t, Entry(bodies, h, aabbOf)), M.Element(h, aabbOf(body)));
      Sync(r, bodies[h := body], aabbOf) &&
      (Exact(t, bodies, aabbOf) && Proper(aabbOf(body)) ==> Exact(r, bodies[h := body], aabbOf))
  {
    var t1 := M.Remove(t, Entry(bodies, h, aabbOf));
    var bodies' := bodies[h := body];
    SyncRemove(t, bodies, aabbOf, h);
    SyncFrame(t1, bodies, bodies', aabbOf);
    assert bodies' - {h} == bodies - {h};
    SyncInsert(t1, bodies', aabbOf, h);
  }

  /** The two entries of a pair sharing a leaf are stored. */
  lemma {:induction false} SameLeafMembers(t: M.Tree, x: M.Element, y: M.Element)
    requires SameLeaf(t, x, y)
    ensures x in M.Members(t) && y in M.Members(t)
  {
    match t.node
    case Leaf(es) =>
      var i, j :| 0 <= i < j < |es| && es[i] == x && es[j] == y;
    case Branch(q0, q1, q2, q3) =>
      if SameLeaf(q0, x, y) {
        SameLeafMembers(q0, x, y);
      } else if SameLeaf(q1, x, y) {
        SameLeafMembers(q1, x, y);
      } else if SameLeaf(q2, x, y) {
        SameLeafMembers(q2, x, y);
      } else {
        SameLeafMembers(q3, x, y);
      }
  }

  /** Two entries sharing a leaf of a tree that tracks the first carry
      different handles. */
  lemma {:induction false} SameLeafDistinct(t: M.Tree, x: M.Element, y: M.Element)
    requires SameLeaf(t, x, y) && Tracked(t, x)
    ensures x.handle != y.handle
  {
    SameLeafMembers(t, x, y);
    if !Intersects(x.aabb, t.bounds) {
      assert false;
    }
    match t.node
    case Leaf(es) =>
      var i, j :| 0 <= i < j < |es| && es[i] == x && es[j] == y;
      assert OneCopy(es, x);
    case Branch(q0, q1, q2, q3) =>
      if SameLeaf(q0, x, y) {
        SameLeafDistinct(q0, x, y);
      } else if SameLeaf(q1, x, y) {
        SameLeafDistinct(q1, x, y);
      } else if SameLeaf(q2, x, y) {
        SameLeafDistinct(q2, x, y);
      } else {
        SameLeafDistinct(q3, x, y);
      }
  }

  /** Every pair the broad phase of a synchronised index reports names two
      different live bodies whose current boxes meet. */
  lemma BroadPhaseSound(t: M.Tree, bodies: Store, aabbOf: Body -> Aabb, p: M.Pair)
    requires Sync(t, bodies, aabbOf) && p in M.Pairs(t)
    ensures p.a in bodies && p.b in bodies && p.a != p.b
    ensures Intersects(aabbOf(bodies[p.a]), aabbOf(bodies[p.b]))
  {
    PairsSound(t, p);
    var x, y :| SameLeaf(t, x, y) && Intersects(x.aabb, y.aabb) && p == M.Pair(x.handle, y.handle);
    SameLeafMembers(t, x, y);
    SameLeafDistinct(t, x, y);
  }

  /** In a synchronised and exact index, two different live bodies whose
      boxes share a point inside the root are reported as a pair, in one
      order or the other. */
  lemma BroadPhaseComplete(t: M.Tree, bodies: Store, aabbOf: Body -> Aabb, x: M.Handle, y: M.Handle, p: Point)
    requires Sync(t, bodies, aabbOf) && Exact(t, bodies, aabbOf)
    requires x in bodies && y in bodies && x != y
    requires InBox(p, aabbOf(bodies[x])) && InBox(p, aabbOf(bodies[y])) && InBox(p, t.bounds)
    ensures M.Pair(x, y) in M.Pairs(t) || M.Pair(y, x) in M.Pairs(t)
  {
    var ex, ey := Entry(bodies, x, aabbOf), Entry(bodies, y, aabbOf);
    assert Intersects(ex.aabb, t.bounds) && Intersects(ey.aabb, t.bounds);
    PairsComplete(t, ex, ey, p);
  }
}
