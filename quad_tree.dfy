/** The quadtree broad phase as the program runs it. A `QuadTree` object is
    the mutable root the physics world owns; its `node` field is replaced by
    each operation. The children of a branch are owned boxes that nothing
    else can reach, so they are carried as values: the recursive operations
    below take a node value and return the updated one, with the loops of the
    program over the four children and over a leaf's entries. Every operation
    is proved to compute the matching function of module QuadModel. */
module QuadTrees {
  import opened Bounds
  import M = QuadModel

  class QuadTree {
    const bounds: Aabb
    const level: nat
    var node: M.Node

    /** The tree this object currently holds. */
    function Value(): M.Tree
      reads this
    {
      M.Tree(bounds, level, node)
    }

    ghost predicate Valid()
      reads this
    {
      M.Wf(Value())
    }

    /** `QuadTree::new`: an empty leaf with the given level and bounds. */
    constructor (level: nat, bounds: Aabb)
      ensures Valid() && Value() == M.NewTree(level, bounds)
    {
      this.level := level;
      this.bounds := bounds;
      node := M.Leaf([]);
    }

    /** `insert`, which hands the element to `inner_insert`. */
    method Insert(e: M.Element)
      requires Valid()
      modifies this
      ensures Valid() && Value() == M.Insert(old(Value()), e)
    {
      var r := InsertNode(Value(), e);
      node := r.node;
    }

    /** `remove`. */
    method Remove(e: M.Element)
      requires Valid()
      modifies this
      ensures Valid() && Value() == M.Remove(old(Value()), e)
    {
      var r := RemoveNode(Value(), e);
      node := r.node;
    }

    /** `len`: the number of stored entries over all leaves, copies included. */
    function Len(): nat
      reads this
    {
      M.Len(Value())
    }

    /** `is_empty`: `len() == 0`, which holds exactly when no leaf stores an entry. */
    function IsEmpty(): (r: bool)
      reads this
      ensures r <==> M.Members(Value()) == {}
    {
      M.LenZeroIffNoMembers(Value());
      Len() == 0
    }

    /** `check`: adds to `collisions` the handles found for the region `q`. */
    method Check(q: Aabb, collisions: set<M.Handle>) returns (out: set<M.Handle>)
      ensures out == collisions + M.Check(Value(), q)
    {
      out := CheckNode(Value(), q, collisions);
    }

    /** `check_collisions`: the candidate pairs as a list without repeats
        (`HashSet::into_iter().collect()`; the order is unspecified). */
    method CheckCollisions() returns (r: seq<M.Pair>)
      ensures forall p :: p in r <==> p in M.Pairs(Value())
      ensures forall i, j | 0 <= i < j < |r| :: r[i] != r[j]
    {
      var found := PairsNode(Value(), {});
      r := Enumerate(found);
    }

    /** `clear`: the node becomes an empty leaf. */
    method Clear()
      modifies this
      ensures Valid() && Value() == M.Clear(old(Value()))
    {
      node := M.Leaf([]);
    }

    /** `clean_up`. */
    method CleanUp() returns (empty: bool)
      requires Valid()
      modifies this
      ensures Valid() && (Value(), empty) == M.CleanUp(old(Value()))
    {
      var r;
      r, empty := CleanUpNode(Value());
      node := r.node;
    }
  }

  /** `HashSet::into_iter().collect()`: the elements of `s` listed once each. */
  method Enumerate(s: set<M.Pair>) returns (r: seq<M.Pair>)
    ensures forall p :: p in r <==> p in s
    ensures forall i, j | 0 <= i < j < |r| :: r[i] != r[j]
  {
    r := [];
    var rest := s;
    while rest != {}
      invariant rest <= s
      invariant forall i | 0 <= i < |r| :: r[i] in s && r[i] !in rest
      invariant forall x | x in s && x !in rest :: x in r
      invariant forall i, j | 0 <= i < j < |r| :: r[i] != r[j]
      decreases |rest|
    {
      var p :| p in rest;
      r := r + [p];
      rest := rest - {p};
    }
  }

  /** `inner_insert` on one node: ignored outside the bounds; a branch passes
      the element to each of its four children in turn; a leaf pushes it and
      splits once it holds more than `MAX_CHILDREN` entries below `MAX_DEPTH`. */
  method InsertNode(t: M.Tree, e: M.Element) returns (r: M.Tree)
    requires M.Wf(t)
    ensures r == M.Insert(t, e)
    decreases M.Rank(t.level), 1
  {
    if !Intersects(e.aabb, t.bounds) {
      return t;
    }
    match t.node {
      case Branch(q0, q1, q2, q3) =>
        var kids := [q0, q1, q2, q3];
        var i := 0;
        while i < 4
          invariant 0 <= i <= 4 && |kids| == 4
          invariant forall j | 0 <= j < i :: kids[j] == M.Insert(M.Kid(t.node, j), e)
          invariant forall j | i <= j < 4 :: kids[j] == M.Kid(t.node, j)
        {
          var k := InsertNode(kids[i], e);
          kids := kids[i := k];
          i := i + 1;
        }
        r := M.Tree(t.bounds, t.level, M.Branch(kids[0], kids[1], kids[2], kids[3]));
      case Leaf(es) =>
        var pushed := es + [e];
        if |pushed| > M.MAX_CHILDREN && t.level < M.MAX_DEPTH {
          r := SplitNode(t.bounds, t.level, pushed);
        } else {
          r := M.Tree(t.bounds, t.level, M.Leaf(pushed));
        }
    }
  }

  /** `split`: four empty quadrant children one level deeper, then every former
      entry, in order, inserted into each child. */
  method SplitNode(bounds: Aabb, level: nat, es: seq<M.Element>) returns (r: M.Tree)
    requires level < M.MAX_DEPTH
    ensures r == M.Split(bounds, level, es)
    decreases M.Rank(level), 0
  {
    var kids := [M.NewTree(level + 1, M.Quadrant(bounds, 0)), M.NewTree(level + 1, M.Quadrant(bounds, 1)),
                 M.NewTree(level + 1, M.Quadrant(bounds, 2)), M.NewTree(level + 1, M.Quadrant(bounds, 3))];
    var k := 0;
    while k < |es|
      invariant 0 <= k <= |es| && |kids| == 4
      invariant forall j | 0 <= j < 4 :: kids[j] == M.InsertAll(M.NewTree(level + 1, M.Quadrant(bounds, j)), es[..k])
    {
      assert es[..k + 1][..k] == es[..k];
      var i := 0;
      while i < 4
        invariant 0 <= i <= 4 && |kids| == 4
        invariant forall j | 0 <= j < i :: kids[j] == M.InsertAll(M.NewTree(level + 1, M.Quadrant(bounds, j)), es[..k + 1])
        invariant forall j | i <= j < 4 :: kids[j] == M.InsertAll(M.NewTree(level + 1, M.Quadrant(bounds, j)), es[..k])
      {
        var n := InsertNode(kids[i], es[k]);
        kids := kids[i := n];
        i := i + 1;
      }
      k := k + 1;
    }
    assert es[..|es|] == es;
    r := M.Tree(bounds, level, M.Branch(kids[0], kids[1], kids[2], kids[3]));
  }

  /** `remove` on one node: ignored outside the bounds; a branch passes the
      element to each child; a leaf `swap_remove`s the first entry with the
      element's handle (`position`), if there is one. */
  method RemoveNode(t: M.Tree, e: M.Element) returns (r: M.Tree)
    ensures r == M.Remove(t, e)
    decreases t
  {
    if !Intersects(e.aabb, t.bounds) {
      return t;
    }
    match t.node {
      case Branch(q0, q1, q2, q3) =>
        var kids := [q0, q1, q2, q3];
        var i := 0;
        while i < 4
          invariant 0 <= i <= 4 && |kids| == 4
          invariant forall j | 0 <= j < i :: kids[j] == M.Remove(M.Kid(t.node, j), e)
          invariant forall j | i <= j < 4 :: kids[j] == M.Kid(t.node, j)
        {
          var k := RemoveNode(kids[i], e);
          kids := kids[i := k];
          i := i + 1;
        }
        r := M.Tree(t.bounds, t.level, M.Branch(kids[0], kids[1], kids[2], kids[3]));
      case Leaf(es) =>
        var found := M.FindHandle(es, e.handle);
        if found.Some? {
          r := M.Tree(t.bounds, t.level, M.Leaf(M.SwapRemove(es, found.value)));
        } else {
          r := t;
        }
    }
  }

  /** `check` on one node, adding to `collisions`. */
  method CheckNode(t: M.Tree, q: Aabb, collisions: set<M.Handle>) returns (out: set<M.Handle>)
    ensures out == collisions + M.Check(t, q)
    decreases t
  {
    out := collisions;
    if !Intersects(q, t.bounds) {
      return;
    }
    match t.node {
      case Branch(q0, q1, q2, q3) =>
        var kids := [q0, q1, q2, q3];
        var i := 0;
        while i < 4
          invariant 0 <= i <= 4
          invariant out == collisions
            + (if i > 0 then M.Check(q0, q) else {})
            + (if i > 1 then M.Check(q1, q) else {})
            + (if i > 2 then M.Check(q2, q) else {})
            + (if i > 3 then M.Check(q3, q) else {})
        {
          out := CheckNode(kids[i], q, out);
          i := i + 1;
        }
      case Leaf(es) =>
        out := CollectHits(es, q, out);
    }
  }

  /** The leaf case of `check`: each entry whose box meets `q` adds its handle. */
  method CollectHits(es: seq<M.Element>, q: Aabb, collisions: set<M.Handle>) returns (out: set<M.Handle>)
    ensures out == collisions + M.LeafHits(es, q)
  {
    out := collisions;
    var k := 0;
    while k < |es|
      invariant 0 <= k <= |es|
      invariant out == collisions + M.LeafHits(es[..k], q)
    {
      M.LeafHitsSnoc(es, k, q);
      if Intersects(q, es[k].aabb) {
        out := out + {es[k].handle};
      }
      k := k + 1;
    }
    assert es[..|es|] == es;
  }

  /** `inner_check_collisions` on one node, adding to `pairs`. */
  method PairsNode(t: M.Tree, pairs: set<M.Pair>) returns (out: set<M.Pair>)
    ensures out == pairs + M.Pairs(t)
    decreases t
  {
    out := pairs;
    match t.node {
      case Branch(q0, q1, q2, q3) =>
        var kids := [q0, q1, q2, q3];
        var i := 0;
        while i < 4
          invariant 0 <= i <= 4
          invariant out == pairs
            + (if i > 0 then M.Pairs(q0) else {})
            + (if i > 1 then M.Pairs(q1) else {})
            + (if i > 2 then M.Pairs(q2) else {})
            + (if i > 3 then M.Pairs(q3) else {})
        {
          out := PairsNode(kids[i], out);
          i := i + 1;
        }
      case Leaf(es) =>
        out := CollectPairs(es, out);
    }
  }

  /** The leaf case of `inner_check_collisions`: each entry against every
      later entry of the same leaf. */
  method CollectPairs(es: seq<M.Element>, pairs: set<M.Pair>) returns (out: set<M.Pair>)
    ensures out == pairs + M.LeafPairs(es)
  {
    out := pairs;
    var i := 0;
    while i < |es|
      invariant 0 <= i <= |es|
      invariant out == pairs + M.PairsBefore(es, i)
    {
      out := CollectRow(es, i, out);
      M.PairsBeforeSnoc(es, i);
      i := i + 1;
    }
    M.PairsBeforeAll(es);
  }

  /** One pass of the inner loop of `inner_check_collisions`: entry `i`
      against every later entry. */
  method CollectRow(es: seq<M.Element>, i: nat, pairs: set<M.Pair>) returns (out: set<M.Pair>)
    requires i < |es|
    ensures out == pairs + M.RowPairs(es, i, |es|)
  {
    out := pairs;
    var j := i + 1;
    assert M.RowPairs(es, i, j) == {};
    while j < |es|
      invariant i + 1 <= j <= |es|
      invariant out == pairs + M.RowPairs(es, i, j)
    {
      M.RowPairsSnoc(es, i, j);
      if Intersects(es[i].aabb, es[j].aabb) {
        out := out + {M.Pair(es[i].handle, es[j].handle)};
      }
      j := j + 1;
    }
  }

  /** `clean_up` on one node, with the program's two flags: a leaf sets
      `childrenIsEmpty`; a branch cleans every child and clears
      `allAreEmpty` when one of them is not empty, then becomes an empty leaf
      if all of them were. */
  method CleanUpNode(t: M.Tree) returns (r: M.Tree, empty: bool)
    ensures (r, empty) == M.CleanUp(t)
    decreases t
  {
    var childrenIsEmpty := false;
    var allAreEmpty := true;
    r := t;
    match t.node {
      case Branch(q0, q1, q2, q3) =>
        var kids := [q0, q1, q2, q3];
        var i := 0;
        while i < 4
          invariant 0 <= i <= 4 && |kids| == 4
          invariant forall j | 0 <= j < i :: kids[j] == M.CleanUp(M.Kid(t.node, j)).0
          invariant forall j | i <= j < 4 :: kids[j] == M.Kid(t.node, j)
          invariant allAreEmpty <==> forall j | 0 <= j < i :: M.CleanUp(M.Kid(t.node, j)).1
        {
          var k, e := CleanUpNode(kids[i]);
          kids := kids[i := k];
          if !e {
            allAreEmpty := false;
          }
          i := i + 1;
        }
        r := M.Tree(t.bounds, t.level, M.Branch(kids[0], kids[1], kids[2], kids[3]));
      case Leaf(es) =>
        childrenIsEmpty := es == [];
    }
    if allAreEmpty && r.node.Branch? {
      r := M.Clear(r);
    }
    empty := childrenIsEmpty && allAreEmpty;
  }
}
