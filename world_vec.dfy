/** The physics world of `src/world.rs`: bodies in a vector addressed by
    index, a stack of removed indices that `add_body` reuses last-in first-out,
    and a quadtree over a fixed root. Removing a body only pushes its index
    and takes its entry out of the tree: the body stays in the vector, so
    `get_body` still returns it and `calc_velocity` still moves it. The live
    bodies are the slots not on the stack. Unlike the world of
    `src/world/mod.rs`, resolution and correction leave a pair alone when
    either body is a sensor, and the step ends without a clean-up pass. */
module VecWorld {
  import opened Vectors
  import opened Wrappers
  import opened Bounds
  import opened Bodies
  import opened Dynamics
  import M = QuadModel
  import opened QuadGeometry
  import opened QuadRemoveProps
  import opened BroadIndex
  import opened QuadTrees
  import A = ArenaWorld

  /** Both indices of the collision address the vector. */
  predicate Holds(bodies: seq<Body>, c: Collision) {
    c.pair.a < |bodies| && c.pair.b < |bodies|
  }

  /** Either body of the collision is a sensor. */
  predicate SensorPair(bodies: seq<Body>, c: Collision)
    requires Holds(bodies, c)
  {
    bodies[c.pair.a].sensor || bodies[c.pair.b].sensor
  }

  /** Every slot of the vector by index. */
  function AsMap(bodies: seq<Body>): (r: Store)
    ensures forall i: nat :: i in r <==> i < |bodies|
  {
    map i: nat | i < |bodies| :: bodies[i]
  }

  /** The live bodies: the slots whose index is not on the removed stack. */
  function LiveOf(bodies: seq<Body>, removed: seq<nat>): (r: Store)
    ensures forall i: nat :: i in r <==> i < |bodies| && i !in removed
  {
    map i: nat | i < |bodies| && i !in removed :: bodies[i]
  }

  /** No index is on the removed stack twice. */
  predicate NoDup(removed: seq<nat>) {
    forall i, j | 0 <= i < j < |removed| :: removed[i] != removed[j]
  }

  /** `resolve_collision` of this world on values: nothing happens when both
      bodies are fixed, either is a sensor, or they already separate along
      the normal; otherwise each body that is not fixed takes its share of
      the impulse, `a` first. */
  function Resolved(bodies: seq<Body>, c: Collision): (r: seq<Body>)
    requires Holds(bodies, c)
    ensures |r| == |bodies|
    ensures forall i | 0 <= i < |bodies| :: r[i] == bodies[i].(velocity := r[i].velocity)
    ensures forall i | 0 <= i < |bodies| && (bodies[i].fixed || SensorPair(bodies, c) || (i != c.pair.a && i != c.pair.b)) ::
      r[i] == bodies[i]
  {
    var a, b := bodies[c.pair.a], bodies[c.pair.b];
    if (a.fixed && b.fixed) || a.sensor || b.sensor then bodies
    else if VelocityAlongNormal(a, b, c.contact.normal) > 0.0 then bodies
    else
      var iv := ImpulseVector(a, b, c.contact.normal);
      var first := bodies[c.pair.a := PushedA(a, iv)];
      first[c.pair.b := PushedB(first[c.pair.b], iv)]
  }

  /** `resolve_collision` as the program runs it on the slice of bodies. */
  method ResolveCollision(bodies: seq<Body>, c: Collision) returns (r: seq<Body>)
    requires Holds(bodies, c)
    ensures r == Resolved(bodies, c)
  {
    r := bodies;
    var a, b := bodies[c.pair.a], bodies[c.pair.b];
    if (a.fixed && b.fixed) || a.sensor || b.sensor {
      return;
    }
    var van := Dot(Sub(b.velocity, a.velocity), c.contact.normal);
    if van > 0.0 {
      return;
    }
    var iv := ImpulseVector(a, b, c.contact.normal);
    if !a.fixed {
      r := r[c.pair.a := r[c.pair.a].(velocity := Sub(r[c.pair.a].velocity, Scale(iv, a.inv_mass)))];
    }
    if !b.fixed {
      r := r[c.pair.b := r[c.pair.b].(velocity := Add(r[c.pair.b].velocity, Scale(iv, b.inv_mass)))];
    }
  }

  /** Away from sensors, this world resolves a collision exactly as the arena
      world does; with a sensor in the pair it changes nothing. */
  lemma ResolvedAgrees(bodies: seq<Body>, c: Collision)
    requires Holds(bodies, c)
    ensures AsMap(Resolved(bodies, c)) ==
      if SensorPair(bodies, c) then AsMap(bodies) else A.Resolved(AsMap(bodies), c)
  {
    if !SensorPair(bodies, c) {
      var r, m := Resolved(bodies, c), A.Resolved(AsMap(bodies), c);
      var a, b := bodies[c.pair.a], bodies[c.pair.b];
      if !(a.fixed && b.fixed) && VelocityAlongNormal(a, b, c.contact.normal) <= 0.0 {
        var iv := ImpulseVector(a, b, c.contact.normal);
        assert r[c.pair.a] == m[c.pair.a] && r[c.pair.b] == m[c.pair.b];
      }
      assert forall i: nat | i < |bodies| :: AsMap(r)[i] == m[i];
    }
  }

  /** `correct_position` of this world on values: nothing happens when both
      bodies are fixed or either is a sensor; otherwise each body that is not
      fixed moves by its share of the correction, `a` backwards and `b`
      forwards. */
  function Corrected(bodies: seq<Body>, c: Collision): (r: seq<Body>)
    requires Holds(bodies, c)
    ensures |r| == |bodies|
    ensures forall i | 0 <= i < |bodies| :: r[i] == bodies[i].(position := r[i].position)
    ensures forall i | 0 <= i < |bodies| && (bodies[i].fixed || SensorPair(bodies, c) || (i != c.pair.a && i != c.pair.b)) ::
      r[i] == bodies[i]
  {
    var a, b := bodies[c.pair.a], bodies[c.pair.b];
    if (a.fixed && b.fixed) || a.sensor || b.sensor then bodies
    else
      var corr := Scale(c.contact.normal, CorrectionScalar(a, b, c.contact.penetration_depth));
      var first := bodies[c.pair.a := MovedA(a, corr)];
      first[c.pair.b := MovedB(first[c.pair.b], corr)]
  }

  /** `correct_position` as the program runs it on the slice of bodies. */
  method CorrectPosition(bodies: seq<Body>, c: Collision) returns (r: seq<Body>)
    requires Holds(bodies, c)
    ensures r == Corrected(bodies, c)
  {
    r := bodies;
    var a, b := bodies[c.pair.a], bodies[c.pair.b];
    if (a.fixed && b.fixed) || a.sensor || b.sensor {
      return;
    }
    var maximum := Max(0.0, c.contact.penetration_depth - K_SLOP);
    var scalar;
    if b.fixed {
      scalar := Quot(maximum, a.inv_mass) * PENETRATION_PERCENTAGE;
    } else if a.fixed {
      scalar := Quot(maximum, b.inv_mass) * PENETRATION_PERCENTAGE;
    } else {
      scalar := Quot(maximum, a.inv_mass + b.inv_mass) * PENETRATION_PERCENTAGE;
    }
    var corr := Scale(c.contact.normal, scalar);
    if !a.fixed {
      r := r[c.pair.a := r[c.pair.a].(position := Sub(r[c.pair.a].position, Scale(corr, a.inv_mass)))];
    }
    if !b.fixed {
      r := r[c.pair.b := r[c.pair.b].(position := Add(r[c.pair.b].position, Scale(corr, b.inv_mass)))];
    }
  }

  /** Away from sensors, this world corrects positions exactly as the arena
      world does; with a sensor in the pair it changes nothing. */
  lemma CorrectedAgrees(bodies: seq<Body>, c: Collision)
    requires Holds(bodies, c)
    ensures AsMap(Corrected(bodies, c)) ==
      if SensorPair(bodies, c) then AsMap(bodies) else A.Corrected(AsMap(bodies), c)
  {
    if !SensorPair(bodies, c) {
      var r, m := Corrected(bodies, c), A.Corrected(AsMap(bodies), c);
      var a, b := bodies[c.pair.a], bodies[c.pair.b];
      if !(a.fixed && b.fixed) {
        var corr := Scale(c.contact.normal, CorrectionScalar(a, b, c.contact.penetration_depth));
        assert r[c.pair.a] == m[c.pair.a] && r[c.pair.b] == m[c.pair.b];
      }
      assert forall i: nat | i < |bodies| :: AsMap(r)[i] == m[i];
    }
  }

  /** The integration step applied to every slot, live or removed. */
  function IntegratedAll(bodies: seq<Body>, dt: real): (r: seq<Body>)
    ensures |r| == |bodies|
    ensures forall i | 0 <= i < |r| :: r[i].force == Zero && r[i].fixed == bodies[i].fixed && r[i].sensor == bodies[i].sensor
  {
    seq(|bodies|, i requires 0 <= i < |bodies| => Integrate(bodies[i], dt))
  }

  /** On the live bodies, this world's integration step is the arena world's. */
  lemma IntegratedAgrees(bodies: seq<Body>, removed: seq<nat>, dt: real)
    ensures LiveOf(IntegratedAll(bodies, dt), removed) == A.Integrated(LiveOf(bodies, removed), dt)
  {
    var l, r := LiveOf(IntegratedAll(bodies, dt), removed), A.Integrated(LiveOf(bodies, removed), dt);
    assert forall i: nat | i in l :: l[i] == r[i];
  }

  /** Pushing an index on the removed stack takes it out of the live bodies. */
  lemma LivePush(bodies: seq<Body>, removed: seq<nat>, h: nat)
    ensures LiveOf(bodies, removed + [h]) == LiveOf(bodies, removed) - {h}
  {
    assert forall i: nat :: i in removed + [h] <==> i in removed || i == h;
  }

  /** Popping an index off a stack without repeats brings back exactly that
      slot, with the body written there. */
  lemma LivePop(bodies: seq<Body>, removed: seq<nat>, body: Body)
    requires removed != [] && NoDup(removed) && removed[|removed| - 1] < |bodies|
    ensures var h := removed[|removed| - 1];
      h !in LiveOf(bodies, removed) &&
      LiveOf(bodies[h := body], removed[..|removed| - 1]) == LiveOf(bodies, removed)[h := body]
  {
    var h, rest := removed[|removed| - 1], removed[..|removed| - 1];
    assert removed == rest + [h];
    forall i: nat
      ensures i in rest <==> i in removed && i != h
    {
      if i in rest {
        var k :| 0 <= k < |rest| && rest[k] == i;
        assert removed[k] == i;
      }
    }
  }

  /** Appending a body makes a new live slot at the old length. */
  lemma LiveAppend(bodies: seq<Body>, removed: seq<nat>, body: Body)
    requires forall k | k in removed :: k < |bodies|
    ensures |bodies| !in LiveOf(bodies, removed)
    ensures LiveOf(bodies + [body], removed) == LiveOf(bodies, removed)[|bodies| := body]
  {
  }

  /** The tree and the vector between two collisions of a step. */
  datatype Stage = Stage(tree: M.Tree, bodies: seq<Body>)

  /** One collision of the step: the entries of the bodies that are neither
      fixed nor sensors are removed under their current boxes, the collision
      is resolved and corrected, and those entries are inserted with the
      boxes after the correction. */
  function Settle(s: Stage, c: Collision, aabbOf: Body -> Aabb): (r: Stage)
    requires Holds(s.bodies, c) && M.Wf(s.tree)
    ensures |r.bodies| == |s.bodies| && M.Wf(r.tree)
  {
    var a, b := c.pair.a, c.pair.b;
    var moveA, moveB := Movable(s.bodies[a]), Movable(s.bodies[b]);
    var t1 := if moveA then M.Remove(s.tree, M.Element(a, aabbOf(s.bodies[a]))) else s.tree;
    var t2 := if moveB then M.Remove(t1, M.Element(b, aabbOf(s.bodies[b]))) else t1;
    var moved := Corrected(Resolved(s.bodies, c), c);
    var t3 := if moveA then M.Insert(t2, M.Element(a, aabbOf(moved[a]))) else t2;
    var t4 := if moveB then M.Insert(t3, M.Element(b, aabbOf(moved[b]))) else t3;
    Stage(t4, moved)
  }

  /** Every collision of the list addresses the vector. */
  predicate AllLive(bodies: seq<Body>, cs: seq<Collision>) {
    forall c | c in cs :: Holds(bodies, c)
  }

  /** The collisions of `cs` settled in order. */
  function SettleAll(s: Stage, cs: seq<Collision>, aabbOf: Body -> Aabb): (r: Stage)
    requires AllLive(s.bodies, cs) && M.Wf(s.tree)
    ensures |r.bodies| == |s.bodies| && M.Wf(r.tree)
  {
    if cs == [] then s
    else
      var prev := SettleAll(s, cs[..|cs| - 1], aabbOf);
      assert cs[|cs| - 1] in cs;
      Settle(prev, cs[|cs| - 1], aabbOf)
  }

  /** Settling never moves or pushes a fixed body or a sensor. */
  lemma {:induction false} SettleStill(s: Stage, cs: seq<Collision>, aabbOf: Body -> Aabb, i: nat)
    requires AllLive(s.bodies, cs) && M.Wf(s.tree) && i < |s.bodies|
    requires s.bodies[i].fixed || s.bodies[i].sensor
    ensures SettleAll(s, cs, aabbOf).bodies[i] == s.bodies[i]
  {
    if cs != [] {
      SettleStill(s, cs[..|cs| - 1], aabbOf, i);
    }
  }

  /** Settling keeps every body's flags and the set of live slots. */
  lemma {:induction false} SettleFlags(s: Stage, cs: seq<Collision>, aabbOf: Body -> Aabb)
    requires AllLive(s.bodies, cs) && M.Wf(s.tree)
    ensures var r := SettleAll(s, cs, aabbOf).bodies;
      forall i | 0 <= i < |r| :: r[i].fixed == s.bodies[i].fixed && r[i].sensor == s.bodies[i].sensor
  {
    if cs != [] {
      SettleFlags(s, cs[..|cs| - 1], aabbOf);
    }
  }

  /** Settling one collision between two different live bodies keeps a
      synchronised index synchronised, sensors included. */
  lemma SettleKeepsSync(s: Stage, c: Collision, aabbOf: Body -> Aabb, removed: seq<nat>)
    requires Holds(s.bodies, c) && Sync(s.tree, LiveOf(s.bodies, removed), aabbOf)
    requires c.pair.a != c.pair.b && c.pair.a !in removed && c.pair.b !in removed
    ensures Sync(Settle(s, c, aabbOf).tree, LiveOf(Settle(s, c, aabbOf).bodies, removed), aabbOf)
  {
    var a, b := c.pair.a, c.pair.b;
    var live := LiveOf(s.bodies, removed);
    var moveA, moveB := Movable(s.bodies[a]), Movable(s.bodies[b]);
    var moved := Corrected(Resolved(s.bodies, c), c);
    var live' := LiveOf(moved, removed);
    assert Entry(live, a, aabbOf) == M.Element(a, aabbOf(s.bodies[a]));
    assert Entry(live, b, aabbOf) == M.Element(b, aabbOf(s.bodies[b]));
    var t1 := if moveA then M.Remove(s.tree, Entry(live, a, aabbOf)) else s.tree;
    if moveA {
      SyncRemove(s.tree, live, aabbOf, a);
    }
    var t2 := if moveB then M.Remove(t1, Entry(live, b, aabbOf)) else t1;
    if moveB {
      SyncRemove(t1, live, aabbOf, b);
      if moveA {
        A.RemoveKeepsFree(t1, Entry(live, b, aabbOf), a);
      }
    }
    assert moveA ==> HandleFree(t2, a);
    assert moveB ==> HandleFree(t2, b);
    SyncFrame(t2, live, live', aabbOf);
    assert Entry(live', a, aabbOf) == M.Element(a, aabbOf(moved[a]));
    assert Entry(live', b, aabbOf) == M.Element(b, aabbOf(moved[b]));
    var t3 := if moveA then M.Insert(t2, Entry(live', a, aabbOf)) else t2;
    if moveA {
      SyncInsert(t2, live', aabbOf, a);
      if moveB {
        A.InsertKeepsFree(t2, Entry(live', a, aabbOf), b);
      }
    }
    if moveB {
      SyncInsert(t3, live', aabbOf, b);
    }
  }

  /** Settling collisions in order, each between two different live bodies,
      keeps a synchronised index synchronised. */
  lemma {:induction false} SettleAllKeepsSync(s: Stage, cs: seq<Collision>, aabbOf: Body -> Aabb, removed: seq<nat>)
    requires AllLive(s.bodies, cs) && M.Wf(s.tree) && Sync(s.tree, LiveOf(s.bodies, removed), aabbOf)
    requires forall c | c in cs :: c.pair.a != c.pair.b && c.pair.a !in removed && c.pair.b !in removed
    ensures Sync(SettleAll(s, cs, aabbOf).tree, LiveOf(SettleAll(s, cs, aabbOf).bodies, removed), aabbOf)
  {
    if cs != [] {
      var init := cs[..|cs| - 1];
      assert forall c | c in init :: c in cs;
      SettleAllKeepsSync(s, init, aabbOf, removed);
      assert cs[|cs| - 1] in cs;
      SettleKeepsSync(SettleAll(s, init, aabbOf), cs[|cs| - 1], aabbOf, removed);
    }
  }

  /** The fixed root of the default world, from `(-1000, -1000)` to `(0, 0)`. */
  function DefaultRoot(): Aabb {
    New(-1000, -1000, 1000, 1000)
  }

  /** The default root's width, 1000, halves exactly only three times, so
      the eight levels of splits below it do not cover it exactly. */
  lemma DefaultRootNotHalvable()
    ensures !Halvable(DefaultRoot(), 0)
  {
    assert Width(DefaultRoot()) == 1000;
    assert !HalvesExactly(125, 5);
    assert !HalvesExactly(1000, 8);
  }

  /** A box entirely right of or below the default root is never stored. */
  lemma DefaultRootMisses(e: M.Element)
    requires e.aabb.min.x > 0 || e.aabb.min.y > 0
    ensures M.Insert(M.NewTree(0, DefaultRoot()), e) == M.NewTree(0, DefaultRoot())
  {
  }

  /** `PhysicsWorld` of `src/world.rs`: the vector of bodies, the stack of
      removed indices, and the quadtree it owns. */
  class PhysicsWorld {
    var bodies: seq<Body>
    var removed: seq<nat>
    const tree: QuadTree
    const aabbOf: Body -> Aabb
    const narrow: Narrow

    /** The tree is well formed and every removed index addresses a slot. */
    ghost predicate Valid()
      reads this, tree
    {
      tree.Valid() && forall k | k in removed :: k < |bodies|
    }

    /** No index was removed twice, and the tree indexes exactly the current
        boxes of the live bodies. */
    ghost predicate Synced()
      reads this, tree
    {
      Valid() && NoDup(removed) && Sync(tree.Value(), Live(), aabbOf)
    }

    /** The live bodies by index. */
    function Live(): Store
      reads this
    {
      LiveOf(bodies, removed)
    }

    /** `PhysicsWorld::default`: no bodies, and an empty tree at level 0 over
        the default root. */
    constructor Default(aabbOf: Body -> Aabb, narrow: Narrow)
      ensures Synced() && fresh(tree)
      ensures bodies == [] && removed == [] && tree.Value() == M.NewTree(0, DefaultRoot())
      ensures this.aabbOf == aabbOf && this.narrow == narrow
    {
      bodies := [];
      removed := [];
      tree := new QuadTree(0, DefaultRoot());
      this.aabbOf := aabbOf;
      this.narrow := narrow;
      new;
      EmptyIndex(0, DefaultRoot(), aabbOf);
      assert Live() == map[];
    }

    /** `get_body`: the body in the slot, removed or not; none past the end. */
    function GetBody(h: nat): (r: Option<Body>)
      reads this
      ensures r.Some? <==> h < |bodies|
      ensures r.Some? ==> r.value == bodies[h]
    {
      if h < |bodies| then Some(bodies[h]) else None
    }

    /** `add_body`: the last removed index is popped and its slot overwritten
        when there is one; otherwise the body is appended. Either way its
        entry goes into the tree. */
    method AddBody(body: Body) returns (h: nat)
      requires Valid()
      modifies this, tree
      ensures Valid() && h < |bodies| && GetBody(h) == Some(body)
      ensures old(removed) != [] ==>
        h == old(removed)[|old(removed)| - 1] && h < |old(bodies)| &&
        removed == old(removed)[..|old(removed)| - 1] && bodies == old(bodies)[h := body]
      ensures old(removed) == [] ==> h == |old(bodies)| && removed == [] && bodies == old(bodies) + [body]
      ensures tree.Value() == M.Insert(old(tree.Value()), M.Element(h, aabbOf(body)))
      ensures old(Synced()) ==> Synced() && h !in old(Live()) && Live() == old(Live())[h := body]
    {
      if |removed| > 0 {
        h := removed[|removed| - 1];
        assert h in removed;
        var rest := removed[..|removed| - 1];
        forall k | k in rest
          ensures k < |bodies|
        {
          var i :| 0 <= i < |rest| && rest[i] == k;
          assert removed[i] in removed;
        }
        if Synced() {
          LivePop(bodies, removed, body);
          SyncAdd(tree.Value(), Live(), aabbOf, h, body);
          assert NoDup(removed[..|removed| - 1]);
        }
        removed := rest;
        tree.Insert(M.Element(h, aabbOf(body)));
        bodies := bodies[h := body];
      } else {
        h := |bodies|;
        if Synced() {
          LiveAppend(bodies, removed, body);
          SyncAdd(tree.Value(), Live(), aabbOf, h, body);
        }
        tree.Insert(M.Element(h, aabbOf(body)));
        bodies := bodies + [body];
      }
    }

    /** `remove_body`: the index must address a slot. It is pushed on the
        removed stack and the body's current entry leaves the tree; the body
        stays in its slot. Removing a live body keeps the world
        synchronised; removing one twice puts its index on the stack twice. */
    method RemoveBody(h: nat)
      requires Valid() && h < |bodies|
      modifies this, tree
      ensures Valid() && bodies == old(bodies) && removed == old(removed) + [h]
      ensures GetBody(h) == old(GetBody(h))
      ensures tree.Value() == M.Remove(old(tree.Value()), M.Element(h, aabbOf(bodies[h])))
      ensures old(Synced()) && h !in old(removed) ==>
        Synced() && Live() == old(Live()) - {h} && HandleFree(tree.Value(), h)
      ensures h in old(removed) ==> !NoDup(removed)
    {
      if Synced() && h !in removed {
        SyncDrop(tree.Value(), Live(), aabbOf, h);
        LivePush(bodies, removed, h);
      }
      if h in removed {
        var k :| 0 <= k < |removed| && removed[k] == h;
        assert (removed + [h])[k] == (removed + [h])[|removed|];
      }
      removed := removed + [h];
      tree.Remove(M.Element(h, aabbOf(bodies[h])));
    }

    /** `calc_velocity`: every slot, live or removed, takes one integration step. */
    method CalcVelocity(dt: real)
      modifies this
      ensures bodies == IntegratedAll(old(bodies), dt) && removed == old(removed)
    {
      var i := 0;
      while i < |bodies|
        invariant 0 <= i <= |bodies| == |old(bodies)| && removed == old(removed)
        invariant forall k | 0 <= k < |bodies| :: bodies[k] == if k < i then Integrate(old(bodies)[k], dt) else old(bodies)[k]
      {
        bodies := bodies[i := Integrate(bodies[i], dt)];
        i := i + 1;
      }
    }

    /** One pass of the loop of `update_with_quad`. */
    method SettleOne(c: Collision)
      requires tree.Valid() && Holds(bodies, c)
      modifies this, tree
      ensures tree.Valid() && removed == old(removed)
      ensures Stage(tree.Value(), bodies) == Settle(Stage(old(tree.Value()), old(bodies)), c, aabbOf)
    {
      var aStays := bodies[c.pair.a].fixed || bodies[c.pair.a].sensor;
      var bStays := bodies[c.pair.b].fixed || bodies[c.pair.b].sensor;
      if !aStays {
        tree.Remove(M.Element(c.pair.a, aabbOf(bodies[c.pair.a])));
      }
      if !bStays {
        tree.Remove(M.Element(c.pair.b, aabbOf(bodies[c.pair.b])));
      }
      bodies := ResolveCollision(bodies, c);
      bodies := CorrectPosition(bodies, c);
      if !aStays {
        tree.Insert(M.Element(c.pair.a, aabbOf(bodies[c.pair.a])));
      }
      if !bStays {
        tree.Insert(M.Element(c.pair.b, aabbOf(bodies[c.pair.b])));
      }
    }

    /** The loop of `update_with_quad` over the collisions, in order. */
    method SettleCollisions(cs: seq<Collision>)
      requires tree.Valid() && AllLive(bodies, cs)
      modifies this, tree
      ensures tree.Valid() && removed == old(removed)
      ensures Stage(tree.Value(), bodies) == SettleAll(Stage(old(tree.Value()), old(bodies)), cs, aabbOf)
    {
      ghost var start := Stage(tree.Value(), bodies);
      var k := 0;
      while k < |cs|
        invariant 0 <= k <= |cs|
        invariant tree.Valid() && |bodies| == |start.bodies| && removed == old(removed)
        invariant Stage(tree.Value(), bodies) == SettleAll(start, cs[..k], aabbOf)
      {
        assert cs[..k + 1][..k] == cs[..k];
        assert cs[k] in cs;
        SettleOne(cs[k]);
        k := k + 1;
      }
      assert cs[..k] == cs;
    }

    /** `update_with_quad`: one step. The program unwraps the bodies of every
        pair the tree reports, so those indices must address slots (they do
        whenever the world is synchronised). The collisions returned are the
        narrow phase over the tree's pairs, and the new state is the settling
        of those collisions in order; the removed stack does not change. */
    method UpdateWithQuad(dt: real) returns (collisions: seq<Collision>, ghost pairs: seq<M.Pair>)
      requires Valid()
      requires forall p | p in M.Pairs(tree.Value()) :: p.a < |bodies| && p.b < |bodies|
      modifies this, tree
      ensures Valid() && removed == old(removed) && |bodies| == |old(bodies)|
      ensures forall p :: p in pairs <==> p in M.Pairs(old(tree.Value()))
      ensures A.AllHold(AsMap(IntegratedAll(old(bodies), dt)), pairs)
      ensures collisions == A.NarrowPhase(narrow, AsMap(IntegratedAll(old(bodies), dt)), pairs)
      ensures A.OnePerPair(collisions) && AllLive(IntegratedAll(old(bodies), dt), collisions)
      ensures var s := SettleAll(Stage(old(tree.Value()), IntegratedAll(old(bodies), dt)), collisions, aabbOf);
        bodies == s.bodies && tree.Value() == s.tree
    {
      CalcVelocity(dt);
      var found := tree.CheckCollisions();
      pairs := found;
      collisions := A.NarrowCollisions(narrow, AsMap(bodies), found);
      A.NarrowPhaseDistinct(narrow, AsMap(bodies), found);
      SettleCollisions(collisions);
    }
  }

  /** A synchronised world's tree reports only pairs of two different live
      bodies, so the step's unwraps succeed. */
  lemma SyncedPairsLive(t: M.Tree, bodies: seq<Body>, removed: seq<nat>, aabbOf: Body -> Aabb, p: M.Pair)
    requires Sync(t, LiveOf(bodies, removed), aabbOf) && p in M.Pairs(t)
    ensures p.a < |bodies| && p.b < |bodies| && p.a != p.b && p.a !in removed && p.b !in removed
  {
    BroadPhaseSound(t, LiveOf(bodies, removed), aabbOf, p);
  }
}
