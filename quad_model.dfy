/** The value-level meaning of the quadtree broad phase: a tree of nodes, each
    with integer bounds and a level, that is either a leaf holding a list of
    `(handle, aabb)` entries or a branch of exactly four children. Branches
    hold no entries; an entry that straddles quadrants is copied into every
    child it touches. The class in module QuadTrees is proved to follow these
    functions step by step; modules QuadInsertProps, QuadRemoveProps, QuadQueryProps and
    QuadInvariant prove what they guarantee. */
module QuadModel {
  import opened Bounds
  import opened Wrappers

  type Handle = nat

  /** `BroadPhaseElement`: a handle together with the box it was indexed under. */
  datatype Element = Element(handle: Handle, aabb: Aabb)

  /** `CollisionPair`: an ordered pair of handles. */
  datatype Pair = Pair(a: Handle, b: Handle)

  const MAX_DEPTH: nat := 8
  const MAX_CHILDREN: nat := 16

  datatype Tree = Tree(bounds: Aabb, level: nat, node: Node)

  datatype Node =
    | Leaf(entries: seq<Element>)
    | Branch(q0: Tree, q1: Tree, q2: Tree, q3: Tree)

  /** `QuadTree::new`: an empty leaf. */
  function NewTree(level: nat, bounds: Aabb): Tree {
    Tree(bounds, level, Leaf([]))
  }

  /** The bounds of child `i` of a node split at `b`: the `(w/2) x (h/2)` boxes
      starting at `b.min`, in the order `(x, y)`, `(x + w/2, y)`,
      `(x, y + h/2)`, `(x + w/2, y + h/2)`. */
  function Quadrant(b: Aabb, i: nat): (q: Aabb)
    requires i < 4
    ensures Width(q) == Half(Width(b)) && Height(q) == Half(Height(b))
    ensures q.min.x == b.min.x + (if i % 2 == 1 then Half(Width(b)) else 0)
    ensures q.min.y == b.min.y + (if i >= 2 then Half(Height(b)) else 0)
  {
    var hw := Half(Width(b));
    var hh := Half(Height(b));
    New(b.min.x + (if i % 2 == 1 then hw else 0), b.min.y + (if i >= 2 then hh else 0), hw, hh)
  }

  /** Child `i` of a branch. */
  function Kid(n: Node, i: nat): Tree
    requires n.Branch? && i < 4
  {
    if i == 0 then n.q0 else if i == 1 then n.q1 else if i == 2 then n.q2 else n.q3
  }

  predicate IsQuadrant(parent: Tree, kid: Tree, i: nat)
    requires i < 4
  {
    kid.level == parent.level + 1 && kid.bounds == Quadrant(parent.bounds, i)
  }

  /** The shape every reachable tree has: a branch exists only below
      `MAX_DEPTH`, and its children are its four quadrants one level deeper. */
  predicate Wf(t: Tree) {
    match t.node
    case Leaf(_) => true
    case Branch(q0, q1, q2, q3) =>
      t.level < MAX_DEPTH &&
      IsQuadrant(t, q0, 0) && IsQuadrant(t, q1, 1) && IsQuadrant(t, q2, 2) && IsQuadrant(t, q3, 3) &&
      Wf(q0) && Wf(q1) && Wf(q2) && Wf(q3)
  }

  /** How many more times a node at `level` may still split. */
  function Rank(level: nat): nat {
    if level < MAX_DEPTH then MAX_DEPTH - level else 0
  }

  /** `inner_insert`: ignored outside the bounds; a branch passes the element
      to all four children; a leaf appends it and splits once it holds more
      than `MAX_CHILDREN` entries while below `MAX_DEPTH`. */
  function Insert(t: Tree, e: Element): (r: Tree)
    requires Wf(t)
    ensures Wf(r) && r.bounds == t.bounds && r.level == t.level
    decreases Rank(t.level), 1, 0
  {
    if !Intersects(e.aabb, t.bounds) then t
    else match t.node
      case Branch(q0, q1, q2, q3) =>
        Tree(t.bounds, t.level, Branch(Insert(q0, e), Insert(q1, e), Insert(q2, e), Insert(q3, e)))
      case Leaf(es) =>
        if |es + [e]| > MAX_CHILDREN && t.level < MAX_DEPTH then Split(t.bounds, t.level, es + [e])
        else Tree(t.bounds, t.level, Leaf(es + [e]))
  }

  /** `split`: four fresh quadrant leaves one level deeper, then every former
      entry, in order, inserted into each of them. */
  function Split(bounds: Aabb, level: nat, es: seq<Element>): (r: Tree)
    requires level < MAX_DEPTH
    ensures Wf(r) && r.bounds == bounds && r.level == level && r.node.Branch?
    decreases Rank(level), 0, 0
  {
    Tree(bounds, level, Branch(
      InsertAll(NewTree(level + 1, Quadrant(bounds, 0)), es),
      InsertAll(NewTree(level + 1, Quadrant(bounds, 1)), es),
      InsertAll(NewTree(level + 1, Quadrant(bounds, 2)), es),
      InsertAll(NewTree(level + 1, Quadrant(bounds, 3)), es)))
  }

  /** The entries `es` inserted one after another. */
  function InsertAll(t: Tree, es: seq<Element>): (r: Tree)
    requires Wf(t)
    ensures Wf(r) && r.bounds == t.bounds && r.level == t.level
    decreases Rank(t.level), 2, |es|
  {
    if es == [] then t else Insert(InsertAll(t, es[..|es| - 1]), es[|es| - 1])
  }

  /** The index of the first entry carrying `h` (`Iterator::position`). */
  function FindHandle(es: seq<Element>, h: Handle): (r: Option<nat>)
    ensures r.Some? ==> r.value < |es|
  {
    if es == [] then None
    else if es[0].handle == h then Some(0)
    else match FindHandle(es[1..], h)
      case None => None
      case Some(i) => Some(i + 1)
  }

  /** `FindHandle` finds the first entry with handle `h`, and reports `None`
      only when there is none. */
  lemma {:induction false} FindHandleFirst(es: seq<Element>, h: Handle)
    ensures FindHandle(es, h).Some? ==>
      FindHandle(es, h).value < |es| && es[FindHandle(es, h).value].handle == h &&
      forall k :: 0 <= k < FindHandle(es, h).value ==> es[k].handle != h
    ensures FindHandle(es, h).None? <==> forall k :: 0 <= k < |es| ==> es[k].handle != h
  {
    if es != [] && es[0].handle != h {
      FindHandleFirst(es[1..], h);
      assert forall k :: 1 <= k < |es| ==> es[k] == es[1..][k - 1];
    }
  }

  /** `Vec::swap_remove(i)`: the last entry takes the place of entry `i`. */
  function SwapRemove(es: seq<Element>, i: nat): seq<Element>
    requires i < |es|
  {
    var last := |es| - 1;
    if i == last then es[..last] else es[..i] + [es[last]] + es[i + 1..last]
  }

  /** The list shrinks by one, keeps every other position, and the last entry
      fills position `i`. */
  lemma SwapRemoveShape(es: seq<Element>, i: nat)
    requires i < |es|
    ensures |SwapRemove(es, i)| == |es| - 1
    ensures forall k :: 0 <= k < |es| - 1 && k != i ==> SwapRemove(es, i)[k] == es[k]
    ensures i < |es| - 1 ==> SwapRemove(es, i)[i] == es[|es| - 1]
  {
  }

  /** Exactly the one entry at `i` leaves the multiset. */
  lemma SwapRemoveMultiset(es: seq<Element>, i: nat)
    requires i < |es|
    ensures multiset(SwapRemove(es, i)) == multiset(es) - multiset{es[i]}
  {
    var last := |es| - 1;
    if i == last {
      assert es == es[..last] + [es[last]];
    } else {
      assert es == es[..i] + [es[i]] + es[i + 1..last] + [es[last]];
      assert SwapRemove(es, i) == es[..i] + [es[last]] + es[i + 1..last];
    }
  }

  /** Swap-removal keeps every entry but the one at `i` and adds none. */
  lemma SwapRemoveElements(es: seq<Element>, i: nat)
    requires i < |es|
    ensures forall x | x in SwapRemove(es, i) :: x in es
    ensures forall x | x in es && x != es[i] :: x in SwapRemove(es, i)
  {
    SwapRemoveMultiset(es, i);
    forall x | x in SwapRemove(es, i)
      ensures x in es
    {
      assert x in multiset(SwapRemove(es, i));
    }
    forall x | x in es && x != es[i]
      ensures x in SwapRemove(es, i)
    {
      assert x in multiset(es) - multiset{es[i]};
    }
  }

  /** `remove`: ignored outside the bounds; a branch passes the element to all
      four children; a leaf drops its first entry with the same handle, if any. */
  function Remove(t: Tree, e: Element): (r: Tree)
    ensures r.bounds == t.bounds && r.level == t.level
    ensures r.node.Leaf? == t.node.Leaf?
    ensures Wf(t) ==> Wf(r)
  {
    if !Intersects(e.aabb, t.bounds) then t
    else match t.node
      case Branch(q0, q1, q2, q3) =>
        Tree(t.bounds, t.level, Branch(Remove(q0, e), Remove(q1, e), Remove(q2, e), Remove(q3, e)))
      case Leaf(es) =>
        match FindHandle(es, e.handle)
        case None => t
        case Some(i) => Tree(t.bounds, t.level, Leaf(SwapRemove(es, i)))
  }

  /** The handles of a leaf's entries whose boxes meet `q`. */
  function LeafHits(es: seq<Element>, q: Aabb): set<Handle> {
    set k | 0 <= k < |es| && Intersects(q, es[k].aabb) :: es[k].handle
  }

  /** Scanning one more entry adds its handle exactly when its box meets `q`. */
  lemma LeafHitsSnoc(es: seq<Element>, k: nat, q: Aabb)
    requires k < |es|
    ensures LeafHits(es[..k + 1], q) == LeafHits(es[..k], q) + (if Intersects(q, es[k].aabb) then {es[k].handle} else {})
  {
    var a := es[..k + 1];
    forall h | h in LeafHits(a, q)
      ensures h in LeafHits(es[..k], q) + (if Intersects(q, es[k].aabb) then {es[k].handle} else {})
    {
      var m :| 0 <= m < |a| && Intersects(q, a[m].aabb) && a[m].handle == h;
      if m < k {
        assert es[..k][m] == a[m];
      }
    }
    forall h | h in LeafHits(es[..k], q)
      ensures h in LeafHits(a, q)
    {
      var m :| 0 <= m < k && Intersects(q, es[..k][m].aabb) && es[..k][m].handle == h;
      assert a[m] == es[..k][m];
    }
    if Intersects(q, es[k].aabb) {
      assert a[k] == es[k];
    }
  }

  /** `check`: the handles collected for the region `q`, visiting only nodes
      whose bounds meet `q`. */
  function Check(t: Tree, q: Aabb): set<Handle> {
    if !Intersects(q, t.bounds) then {}
    else match t.node
      case Branch(q0, q1, q2, q3) => Check(q0, q) + Check(q1, q) + Check(q2, q) + Check(q3, q)
      case Leaf(es) => LeafHits(es, q)
  }

  /** The pairs one leaf contributes: entries `i < j` whose boxes intersect. */
  function LeafPairs(es: seq<Element>): set<Pair> {
    set i, j | 0 <= i < j < |es| && Intersects(es[i].aabb, es[j].aabb) :: Pair(es[i].handle, es[j].handle)
  }

  /** The pairs entry `i` forms with the later entries before position `m`. */
  function RowPairs(es: seq<Element>, i: nat, m: nat): set<Pair>
    requires i < |es| && m <= |es|
  {
    set j | i < j < m && Intersects(es[i].aabb, es[j].aabb) :: Pair(es[i].handle, es[j].handle)
  }

  /** The pairs whose first entry lies before position `n`. */
  function PairsBefore(es: seq<Element>, n: nat): set<Pair>
    requires n <= |es|
  {
    set i, j | 0 <= i < n && i < j < |es| && Intersects(es[i].aabb, es[j].aabb) :: Pair(es[i].handle, es[j].handle)
  }

  lemma RowPairsSnoc(es: seq<Element>, i: nat, m: nat)
    requires i < |es| && m < |es|
    ensures RowPairs(es, i, m + 1) ==
      RowPairs(es, i, m) + (if i < m && Intersects(es[i].aabb, es[m].aabb) then {Pair(es[i].handle, es[m].handle)} else {})
  {
  }

  lemma PairsBeforeSnoc(es: seq<Element>, i: nat)
    requires i < |es|
    ensures PairsBefore(es, i + 1) == PairsBefore(es, i) + RowPairs(es, i, |es|)
  {
  }

  lemma PairsBeforeAll(es: seq<Element>)
    ensures PairsBefore(es, |es|) == LeafPairs(es)
  {
  }

  /** `inner_check_collisions`: the union of the pairs of every leaf. */
  function Pairs(t: Tree): set<Pair> {
    match t.node
    case Branch(q0, q1, q2, q3) => Pairs(q0) + Pairs(q1) + Pairs(q2) + Pairs(q3)
    case Leaf(es) => LeafPairs(es)
  }

  /** `len`: the number of entries over all leaves, copies included. */
  function Len(t: Tree): nat {
    match t.node
    case Branch(q0, q1, q2, q3) => Len(q0) + Len(q1) + Len(q2) + Len(q3)
    case Leaf(es) => |es|
  }

  /** `clear`: an empty leaf with the same bounds and level. */
  function Clear(t: Tree): Tree {
    Tree(t.bounds, t.level, Leaf([]))
  }

  /** `clean_up`: the tree after one pass and whether it reported itself empty.
      A leaf reports whether it has no entries; a branch cleans all four
      children, becomes an empty leaf when all four reported empty, and
      always reports false. */
  function CleanUp(t: Tree): (r: (Tree, bool))
    ensures r.0.bounds == t.bounds && r.0.level == t.level
    ensures Wf(t) ==> Wf(r.0)
    ensures r.1 <==> t.node == Leaf([])
  {
    match t.node
    case Leaf(es) => (t, es == [])
    case Branch(q0, q1, q2, q3) =>
      var (r0, e0) := CleanUp(q0);
      var (r1, e1) := CleanUp(q1);
      var (r2, e2) := CleanUp(q2);
      var (r3, e3) := CleanUp(q3);
      if e0 && e1 && e2 && e3 then (Clear(t), false)
      else (Tree(t.bounds, t.level, Branch(r0, r1, r2, r3)), false)
  }

  /** Every entry stored in any leaf of `t`. */
  function Members(t: Tree): set<Element> {
    match t.node
    case Branch(q0, q1, q2, q3) => Members(q0) + Members(q1) + Members(q2) + Members(q3)
    case Leaf(es) => set x | x in es
  }

  /** `is_empty` (`len() == 0`) holds exactly when no leaf stores an entry. */
  lemma {:induction false} LenZeroIffNoMembers(t: Tree)
    ensures Len(t) == 0 <==> Members(t) == {}
  {
    match t.node
    case Leaf(es) =>
      if |es| > 0 {
        assert es[0] in Members(t);
      }
    case Branch(q0, q1, q2, q3) =>
      LenZeroIffNoMembers(q0);
      LenZeroIffNoMembers(q1);
      LenZeroIffNoMembers(q2);
      LenZeroIffNoMembers(q3);
  }
}
