/** The physics world of `src/world/mod.rs`: bodies in a generational arena,
    indexed by a quadtree broad phase. The arena is modelled as a map from
    handle to body whose handles are never reused (a fresh counter stands in
    for the arena's generations). One step of `update_with_quad` integrates
    every body, asks the broad phase for candidate pairs, runs the narrow
    phase on each, and settles each collision in turn: the entries of the
    bodies that are neither fixed nor sensors come out of the tree, the
    collision is resolved and corrected, and those entries go back in with
    the new boxes; a clean-up pass ends the step.

    The world of this file does not exempt sensors from resolution and
    correction, so a sensor that is not fixed is pushed like any body while
    its entry stays where it was. Entries are also taken out with the box
    the body has after the integration step, not the box they were stored
    under; module BroadIndex states what keeps the tree synchronised, and
    `IndexGoesStale` below shows the step itself does not. */
module ArenaWorld {
  import opened Vectors
  import opened Wrappers
  import opened Bounds
  import opened Bodies
  import opened Dynamics
  import M = QuadModel
  import opened QuadRemoveProps
  import opened BroadIndex
  import opened QuadTrees

  /** Both bodies of the collision are live. */
  predicate Holds(bodies: Store, c: Collision) {
    c.pair.a in bodies && c.pair.b in bodies
  }

  /** `resolve_collision` on values: nothing happens when both bodies are
      fixed or they already separate along the normal; otherwise each body
      that is not fixed takes its share of the impulse, `a` first. */
  function Resolved(bodies: Store, c: Collision): (r: Store)
    requires Holds(bodies, c)
    ensures r.Keys == bodies.Keys
    ensures forall h | h in bodies :: r[h] == bodies[h].(velocity := r[h].velocity)
    ensures forall h | h in bodies && (bodies[h].fixed || (h != c.pair.a && h != c.pair.b)) :: r[h] == bodies[h]
  {
    var a, b := bodies[c.pair.a], bodies[c.pair.b];
    if a.fixed && b.fixed then bodies
    else if VelocityAlongNormal(a, b, c.contact.normal) > 0.0 then bodies
    else
      var iv := ImpulseVector(a, b, c.contact.normal);
      var first := bodies[c.pair.a := PushedA(a, iv)];
      first[c.pair.b := PushedB(first[c.pair.b], iv)]
  }

  /** `resolve_collision` as the program runs it: read both bodies, return
      early on the two guards, then update `a`'s velocity and `b`'s in place. */
  method ResolveCollision(bodies: Store, c: Collision) returns (r: Store)
    requires Holds(bodies, c)
    ensures r == Resolved(bodies, c)
  {
    r := bodies;
    var a, b := bodies[c.pair.a], bodies[c.pair.b];
    if a.fixed && b.fixed {
      return;
    }
    var van := Dot(Sub(b.velocity, a.velocity), c.contact.normal);
    if van > 0.0 {
      return;
    }
    var iv := ImpulseVector(a, b, c.contact.normal);
    if !a.fixed {
      r := r[c.pair.a := r[c.pair.a].(velocity := Sub(r[c.pair.a].velocity, Scale(iv, a.inv_mass)))];
    }
    if !b.fixed {
      r := r[c.pair.b := r[c.pair.b].(velocity := Add(r[c.pair.b].velocity, Scale(iv, b.inv_mass)))];
    }
  }

  /** Resolving two distinct bodies, not both fixed, with a non-zero share of
      inverse mass, along a unit normal: bodies that approach leave with
      `-e` times their velocity along the normal (`e` the smaller
      restitution); bodies that separate are left alone. */
  lemma ResolveRestitution(bodies: Store, c: Collision)
    requires Holds(bodies, c) && c.pair.a != c.pair.b
    requires var a, b := bodies[c.pair.a], bodies[c.pair.b];
      !(a.fixed && b.fixed) && ImpulseShare(a, b) != 0.0 && Dot(c.contact.normal, c.contact.normal) == 1.0
    ensures var a, b, n := bodies[c.pair.a], bodies[c.pair.b], c.contact.normal;
      var r := Resolved(bodies, c);
      VelocityAlongNormal(r[c.pair.a], r[c.pair.b], n) ==
        if VelocityAlongNormal(a, b, n) > 0.0 then VelocityAlongNormal(a, b, n)
        else -Min(a.restitution, b.restitution) * VelocityAlongNormal(a, b, n)
  {
    var a, b, n := bodies[c.pair.a], bodies[c.pair.b], c.contact.normal;
    if VelocityAlongNormal(a, b, n) <= 0.0 {
      var iv := ImpulseVector(a, b, n);
      assert Resolved(bodies, c)[c.pair.a] == PushedA(a, iv);
      assert Resolved(bodies, c)[c.pair.b] == PushedB(b, iv);
      RestitutionLaw(a, b, n);
    }
  }

  /** `correct_position` on values: nothing happens when both bodies are
      fixed; otherwise each body that is not fixed moves by its share of the
      correction along the normal, `a` backwards and `b` forwards. */
  function Corrected(bodies: Store, c: Collision): (r: Store)
    requires Holds(bodies, c)
    ensures r.Keys == bodies.Keys
    ensures forall h | h in bodies :: r[h] == bodies[h].(position := r[h].position)
    ensures forall h | h in bodies && (bodies[h].fixed || (h != c.pair.a && h != c.pair.b)) :: r[h] == bodies[h]
  {
    var a, b := bodies[c.pair.a], bodies[c.pair.b];
    if a.fixed && b.fixed then bodies
    else
      var corr := Scale(c.contact.normal, CorrectionScalar(a, b, c.contact.penetration_depth));
      var first := bodies[c.pair.a := MovedA(a, corr)];
      first[c.pair.b := MovedB(first[c.pair.b], corr)]
  }

  /** `correct_position` as the program runs it. */
  method CorrectPosition(bodies: Store, c: Collision) returns (r: Store)
    requires Holds(bodies, c)
    ensures r == Corrected(bodies, c)
  {
    r := bodies;
    var a, b := bodies[c.pair.a], bodies[c.pair.b];
    if a.fixed && b.fixed {
      return;
    }
    var maximum := Max(0.0, c.contact.penetration_depth - K_SLOP);
    var scalar;
    if b.fixed {
      scalar := Quot(maximum, a.inv_mass) * PENETRATION_PERCENTAGE;
    } else if a.fixed {
      scalar := Quot(maximum, b.inv_mass) * PENETRATION_PERCENTAGE;
    } else {
      scalar := Quot(maximum, a.inv_mass + b.inv_mass) * PENETRATION_PERCENTAGE;
    }
    var corr := Scale(c.contact.normal, scalar);
    if !a.fixed {
      r := r[c.pair.a := r[c.pair.a].(position := Sub(r[c.pair.a].position, Scale(corr, a.inv_mass)))];
    }
    if !b.fixed {
      r := r[c.pair.b := r[c.pair.b].(position := Add(r[c.pair.b].position, Scale(corr, b.inv_mass)))];
    }
  }

  /** Correcting two distinct bodies, not both fixed, with a non-zero share
      of inverse mass moves `b` away from `a` along the normal by half the
      penetration beyond the slop. */
  lemma CorrectSeparates(bodies: Store, c: Collision)
    requires Holds(bodies, c) && c.pair.a != c.pair.b
    requires !(bodies[c.pair.a].fixed && bodies[c.pair.b].fixed)
    requires ImpulseShare(bodies[c.pair.a], bodies[c.pair.b]) != 0.0
    ensures var r := Corrected(bodies, c);
      Sub(r[c.pair.b].position, r[c.pair.a].position) ==
        Add(Sub(bodies[c.pair.b].position, bodies[c.pair.a].position),
            Scale(c.contact.normal, PENETRATION_PERCENTAGE * Max(0.0, c.contact.penetration_depth - K_SLOP)))
  {
    var a, b := bodies[c.pair.a], bodies[c.pair.b];
    var corr := Scale(c.contact.normal, CorrectionScalar(a, b, c.contact.penetration_depth));
    assert Corrected(bodies, c)[c.pair.a] == MovedA(a, corr);
    assert Corrected(bodies, c)[c.pair.b] == MovedB(b, corr);
    CorrectionSeparates(a, b, c.contact);
  }

  /** A penetration within the slop moves nobody. */
  lemma CorrectWithinSlop(bodies: Store, c: Collision)
    requires Holds(bodies, c) && c.contact.penetration_depth <= K_SLOP
    ensures Corrected(bodies, c) == bodies
  {
    var a, b := bodies[c.pair.a], bodies[c.pair.b];
    WithinSlopNoCorrection(a, b, c.contact.penetration_depth);
    var corr := Scale(c.contact.normal, CorrectionScalar(a, b, c.contact.penetration_depth));
    assert corr == Zero;
    SubScaleZero(a.position, corr);
    SubScaleZero(b.position, corr);
  }

  /** The pairs of `pairs` whose handles are all live. */
  predicate AllHold(bodies: Store, pairs: seq<M.Pair>) {
    forall p | p in pairs :: p.a in bodies && p.b in bodies
  }

  /** The narrow-phase fold: in the order of `pairs`, the collision of each
      pair whose shapes the narrow phase finds in contact. */
  function NarrowPhase(tests: Narrow, bodies: Store, pairs: seq<M.Pair>): (r: seq<Collision>)
    requires AllHold(bodies, pairs)
    ensures |r| <= |pairs|
    ensures forall c | c in r :: c.pair in pairs
  {
    if pairs == [] then []
    else
      var init := NarrowPhase(tests, bodies, pairs[..|pairs| - 1]);
      var p := pairs[|pairs| - 1];
      match NarrowContact(tests, bodies[p.a], bodies[p.b])
      case Some(contact) => init + [Collision(p, contact)]
      case None => init
  }

  /** A collision is reported exactly when its pair is a candidate and the
      narrow phase gives its contact for that pair. */
  lemma {:induction false} NarrowPhaseReports(tests: Narrow, bodies: Store, pairs: seq<M.Pair>, c: Collision)
    requires AllHold(bodies, pairs)
    ensures c in NarrowPhase(tests, bodies, pairs) <==>
      c.pair in pairs && NarrowContact(tests, bodies[c.pair.a], bodies[c.pair.b]) == Some(c.contact)
  {
    if pairs != [] {
      var init := pairs[..|pairs| - 1];
      NarrowPhaseReports(tests, bodies, init, c);
      assert pairs == init + [pairs[|pairs| - 1]];
    }
  }

  /** No pair has two collisions in `cs`. */
  predicate OnePerPair(cs: seq<Collision>) {
    forall i, j | 0 <= i < j < |cs| :: cs[i].pair != cs[j].pair
  }

  /** Candidates listed once give collisions listed once. */
  lemma {:induction false} NarrowPhaseDistinct(tests: Narrow, bodies: Store, pairs: seq<M.Pair>)
    requires AllHold(bodies, pairs)
    requires forall i, j | 0 <= i < j < |pairs| :: pairs[i] != pairs[j]
    ensures OnePerPair(NarrowPhase(tests, bodies, pairs))
  {
    if pairs != [] {
      var init, last := pairs[..|pairs| - 1], pairs[|pairs| - 1];
      var r0, r := NarrowPhase(tests, bodies, init), NarrowPhase(tests, bodies, pairs);
      NarrowPhaseDistinct(tests, bodies, init);
      forall c | c in r0
        ensures c.pair != last
      {
        var i :| 0 <= i < |init| && init[i] == c.pair;
      }
      forall i, j | 0 <= i < j < |r|
        ensures r[i].pair != r[j].pair
      {
        if r == r0 {
          assert r0[i].pair != r0[j].pair;
        } else {
          assert r == r0 + [r[|r0|]] && r[|r0|].pair == last;
          if j == |r0| {
            assert r[i] in r0;
          } else {
            assert r[i] == r0[i] && r[j] == r0[j];
            assert r0[i].pair != r0[j].pair;
          }
        }
      }
    }
  }

  /** The narrow-phase fold as the program runs it over the broad phase's pairs. */
  method NarrowCollisions(tests: Narrow, bodies: Store, pairs: seq<M.Pair>) returns (r: seq<Collision>)
    requires AllHold(bodies, pairs)
    ensures r == NarrowPhase(tests, bodies, pairs)
  {
    r := [];
    var i := 0;
    while i < |pairs|
      invariant 0 <= i <= |pairs|
      invariant r == NarrowPhase(tests, bodies, pairs[..i])
    {
      var p := pairs[i];
      assert pairs[..i + 1][..i] == pairs[..i];
      var maybe := NarrowContact(tests, bodies[p.a], bodies[p.b]);
      if maybe.Some? {
        r := r + [Collision(p, maybe.value)];
      }
      i := i + 1;
    }
    assert pairs[..i] == pairs;
  }

  /** The integration step applied to every body of the arena. */
  function Integrated(bodies: Store, dt: real): (r: Store)
    ensures r.Keys == bodies.Keys
    ensures forall h | h in r ::
      (r[h].force == Zero && r[h] == bodies[h].(position := r[h].position, velocity := r[h].velocity, force := Zero))
  {
    map h | h in bodies :: Integrate(bodies[h], dt)
  }

  /** The integration step leaves the index out of date: once a stored body's
      box changes, its entry no longer matches it. */
  lemma IndexGoesStale(t: M.Tree, bodies: Store, aabbOf: Body -> Aabb, dt: real, h: M.Handle)
    requires Sync(t, bodies, aabbOf) && h in bodies && Entry(bodies, h, aabbOf) in M.Members(t)
    requires aabbOf(Integrate(bodies[h], dt)) != aabbOf(bodies[h])
    ensures !Sync(t, Integrated(bodies, dt), aabbOf)
  {
    var m := Entry(bodies, h, aabbOf);
    assert m.aabb != aabbOf(Integrated(bodies, dt)[m.handle]);
  }

  /** The tree and the arena between two collisions of a step. */
  datatype Stage = Stage(tree: M.Tree, bodies: Store)

  /** One collision of the step: the entries of the bodies that are neither
      fixed nor sensors are removed under their current boxes, the collision
      is resolved and corrected, and those entries are inserted with the
      boxes after the correction. */
  function Settle(s: Stage, c: Collision, aabbOf: Body -> Aabb): (r: Stage)
    requires Holds(s.bodies, c) && M.Wf(s.tree)
    ensures r.bodies.Keys == s.bodies.Keys && M.Wf(r.tree)
  {
    var a, b := c.pair.a, c.pair.b;
    var moveA, moveB := Movable(s.bodies[a]), Movable(s.bodies[b]);
    var t1 := if moveA then M.Remove(s.tree, Entry(s.bodies, a, aabbOf)) else s.tree;
    var t2 := if moveB then M.Remove(t1, Entry(s.bodies, b, aabbOf)) else t1;
    var moved := Corrected(Resolved(s.bodies, c), c);
    var t3 := if moveA then M.Insert(t2, Entry(moved, a, aabbOf)) else t2;
    var t4 := if moveB then M.Insert(t3, Entry(moved, b, aabbOf)) else t3;
    Stage(t4, moved)
  }

  /** Every collision of the list names live bodies. */
  predicate AllLive(bodies: Store, cs: seq<Collision>) {
    forall c | c in cs :: Holds(bodies, c)
  }

  /** The collisions of `cs` settled in order. */
  function SettleAll(s: Stage, cs: seq<Collision>, aabbOf: Body -> Aabb): (r: Stage)
    requires AllLive(s.bodies, cs) && M.Wf(s.tree)
    ensures r.bodies.Keys == s.bodies.Keys && M.Wf(r.tree)
  {
    if cs == [] then s
    else
      var prev := SettleAll(s, cs[..|cs| - 1], aabbOf);
      assert cs[|cs| - 1] in cs;
      Settle(prev, cs[|cs| - 1], aabbOf)
  }

  /** Settling never moves or pushes a fixed body. */
  lemma {:induction false} SettleFixed(s: Stage, cs: seq<Collision>, aabbOf: Body -> Aabb, h: M.Handle)
    requires AllLive(s.bodies, cs) && M.Wf(s.tree) && h in s.bodies && s.bodies[h].fixed
    ensures SettleAll(s, cs, aabbOf).bodies[h] == s.bodies[h]
  {
    if cs != [] {
      SettleFixed(s, cs[..|cs| - 1], aabbOf, h);
    }
  }

  /** Settling leaves every body that no collision names as it was. */
  lemma {:induction false} SettleUntouched(s: Stage, cs: seq<Collision>, aabbOf: Body -> Aabb, h: M.Handle)
    requires AllLive(s.bodies, cs) && M.Wf(s.tree) && h in s.bodies
    requires forall i | 0 <= i < |cs| :: cs[i].pair.a != h && cs[i].pair.b != h
    ensures SettleAll(s, cs, aabbOf).bodies[h] == s.bodies[h]
  {
    if cs != [] {
      SettleUntouched(s, cs[..|cs| - 1], aabbOf, h);
    }
  }

  /** Settling one collision between two different bodies, each either
      fixed or neither fixed nor a sensor, keeps a synchronised index
      synchronised. */
  lemma SettleKeepsSync(s: Stage, c: Collision, aabbOf: Body -> Aabb)
    requires Holds(s.bodies, c) && Sync(s.tree, s.bodies, aabbOf) && c.pair.a != c.pair.b
    requires s.bodies[c.pair.a].fixed || Movable(s.bodies[c.pair.a])
    requires s.bodies[c.pair.b].fixed || Movable(s.bodies[c.pair.b])
    ensures Sync(Settle(s, c, aabbOf).tree, Settle(s, c, aabbOf).bodies, aabbOf)
  {
    var a, b := c.pair.a, c.pair.b;
    var moveA, moveB := Movable(s.bodies[a]), Movable(s.bodies[b]);
    var moved := Corrected(Resolved(s.bodies, c), c);
    var t1 := if moveA then M.Remove(s.tree, Entry(s.bodies, a, aabbOf)) else s.tree;
    if moveA {
      SyncRemove(s.tree, s.bodies, aabbOf, a);
    }
    var t2 := if moveB then M.Remove(t1, Entry(s.bodies, b, aabbOf)) else t1;
    if moveB {
      SyncRemove(t1, s.bodies, aabbOf, b);
      if moveA {
        RemoveKeepsFree(t1, Entry(s.bodies, b, aabbOf), a);
      }
    }
    assert moveA ==> HandleFree(t2, a);
    assert moveB ==> HandleFree(t2, b);
    SyncFrame(t2, s.bodies, moved, aabbOf);
    var t3 := if moveA then M.Insert(t2, Entry(moved, a, aabbOf)) else t2;
    if moveA {
      SyncInsert(t2, moved, aabbOf, a);
      if moveB {
        InsertKeepsFree(t2, Entry(moved, a, aabbOf), b);
      }
    }
    if moveB {
      SyncInsert(t3, moved, aabbOf, b);
    }
  }

  /** Settling keeps every body's flags. */
  lemma {:induction false} SettleFlags(s: Stage, cs: seq<Collision>, aabbOf: Body -> Aabb)
    requires AllLive(s.bodies, cs) && M.Wf(s.tree)
    ensures var r := SettleAll(s, cs, aabbOf).bodies;
      forall h | h in r :: r[h].fixed == s.bodies[h].fixed && r[h].sensor == s.bodies[h].sensor
  {
    if cs != [] {
      SettleFlags(s, cs[..|cs| - 1], aabbOf);
    }
  }

  /** A sensor that is not fixed: the world of this file pushes it without
      re-indexing it. */
  predicate FreeSensor(b: Body) {
    b.sensor && !b.fixed
  }

  /** Settling collisions in order, each between two different bodies
      neither of which is a sensor that is not fixed, keeps a synchronised
      index synchronised. */
  lemma {:induction false} SettleAllKeepsSync(s: Stage, cs: seq<Collision>, aabbOf: Body -> Aabb)
    requires AllLive(s.bodies, cs) && M.Wf(s.tree) && Sync(s.tree, s.bodies, aabbOf)
    requires forall c | c in cs ::
      c.pair.a != c.pair.b && !FreeSensor(s.bodies[c.pair.a]) && !FreeSensor(s.bodies[c.pair.b])
    ensures Sync(SettleAll(s, cs, aabbOf).tree, SettleAll(s, cs, aabbOf).bodies, aabbOf)
  {
    if cs != [] {
      var init, last := cs[..|cs| - 1], cs[|cs| - 1];
      assert forall c | c in init :: c in cs;
      assert last in cs;
      SettleAllKeepsSync(s, init, aabbOf);
      SettleFlags(s, init, aabbOf);
      SettleKeepsSync(SettleAll(s, init, aabbOf), last, aabbOf);
    }
  }

  /** Removing an entry frees no handle it did not free already, and keeps
      a free handle free. */
  lemma RemoveKeepsFree(t: M.Tree, e: M.Element, h: M.Handle)
    requires HandleFree(t, h)
    ensures HandleFree(M.Remove(t, e), h)
  {
    RemoveMembers(t, e);
  }

  /** Inserting an entry with another handle keeps a free handle free. */
  lemma InsertKeepsFree(t: M.Tree, e: M.Element, h: M.Handle)
    requires M.Wf(t) && HandleFree(t, h) && e.handle != h
    ensures HandleFree(M.Insert(t, e), h)
  {
    QuadInsertProps.MembersInsert(t, e);
  }

  /** `PhysicsWorld`: the arena, the next fresh handle, and the broad phase
      it owns; the box of a body and the narrow-phase tests are fixed
      functions of the world. */
  class PhysicsWorld {
    var bodies: Store
    var next: M.Handle
    const broad: QuadTree
    const aabbOf: Body -> Aabb
    const narrow: Narrow

    /** The broad phase is well formed and every live handle was handed out. */
    ghost predicate Valid()
      reads this, broad
    {
      broad.Valid() && forall h | h in bodies :: h < next
    }

    /** The broad phase indexes exactly the current boxes of the live bodies. */
    ghost predicate Synced()
      reads this, broad
    {
      Valid() && Sync(broad.Value(), bodies, aabbOf)
    }

    /** `PhysicsWorld::new`: an empty arena around the given broad phase. */
    constructor (broad: QuadTree, aabbOf: Body -> Aabb, narrow: Narrow)
      requires broad.Valid()
      ensures Valid() && bodies == map[] && this.broad == broad
      ensures this.aabbOf == aabbOf && this.narrow == narrow
      ensures Synced() <==> M.Members(broad.Value()) == {}
    {
      this.bodies := map[];
      this.next := 0;
      this.broad := broad;
      this.aabbOf := aabbOf;
      this.narrow := narrow;
    }

    /** `get_body`: the body under a live handle, none otherwise. */
    function GetBody(h: M.Handle): (r: Option<Body>)
      reads this
      ensures r.Some? <==> h in bodies
      ensures r.Some? ==> r.value == bodies[h]
    {
      if h in bodies then Some(bodies[h]) else None
    }

    /** `add_body`: a fresh handle for the body, and its entry in the broad phase. */
    method AddBody(body: Body) returns (h: M.Handle)
      requires Valid()
      modifies this, broad
      ensures Valid() && h == old(next) && next == old(next) + 1
      ensures h !in old(bodies) && bodies == old(bodies)[h := body]
      ensures GetBody(h) == Some(body)
      ensures broad.Value() == M.Insert(old(broad.Value()), M.Element(h, aabbOf(body)))
      ensures old(Synced()) ==> Synced()
      ensures old(Synced() && Exact(broad.Value(), bodies, aabbOf)) && Proper(aabbOf(body)) ==>
        Exact(broad.Value(), bodies, aabbOf)
    {
      h := next;
      if Synced() {
        SyncAdd(broad.Value(), bodies, aabbOf, h, body);
      }
      bodies := bodies[h := body];
      next := next + 1;
      broad.Insert(M.Element(h, aabbOf(body)));
    }

    /** `remove_body`: the handle must be live; its body leaves the arena and
      its current entry leaves the broad phase. */
    method RemoveBody(h: M.Handle)
      requires Valid() && h in bodies
      modifies this, broad
      ensures Valid() && next == old(next)
      ensures bodies == old(bodies) - {h}
      ensures GetBody(h) == None
      ensures broad.Value() == M.Remove(old(broad.Value()), M.Element(h, aabbOf(old(bodies)[h])))
      ensures old(Synced()) ==> Synced() && HandleFree(broad.Value(), h)
      ensures old(Synced() && Exact(broad.Value(), bodies, aabbOf)) ==> Exact(broad.Value(), bodies, aabbOf)
    {
      var body := bodies[h];
      if Synced() {
        SyncDrop(broad.Value(), bodies, aabbOf, h);
      }
      bodies := bodies - {h};
      broad.Remove(M.Element(h, aabbOf(body)));
    }

    /** `update`: the handle must be live; its entry comes out under the old
      box, `func` changes the body, and the entry goes back with the new box. */
    method Update(h: M.Handle, func: Body -> Body)
      requires Valid() && h in bodies
      modifies this, broad
      ensures Valid() && next == old(next)
      ensures bodies == old(bodies)[h := func(old(bodies)[h])]
      ensures broad.Value() == M.Insert(M.Remove(old(broad.Value()), M.Element(h, aabbOf(old(bodies)[h]))),
        M.Element(h, aabbOf(func(old(bodies)[h]))))
      ensures old(Synced()) ==> Synced()
      ensures old(Synced() && Exact(broad.Value(), bodies, aabbOf)) && Proper(aabbOf(func(old(bodies)[h]))) ==>
        Exact(broad.Value(), bodies, aabbOf)
    {
      var body := bodies[h];
      if Synced() {
        SyncReplace(broad.Value(), bodies, aabbOf, h, func(body));
      }
      broad.Remove(M.Element(h, aabbOf(body)));
      var changed := func(body);
      bodies := bodies[h := changed];
      broad.Insert(M.Element(h, aabbOf(changed)));
    }

    /** `calc_velocity`: every body of the arena takes one integration step. */
    method CalcVelocity(dt: real)
      modifies this
      ensures bodies == Integrated(old(bodies), dt) && next == old(next)
    {
      ghost var start := bodies;
      var todo := bodies.Keys;
      while todo != {}
        invariant todo <= start.Keys && bodies.Keys == start.Keys && next == old(next)
        invariant forall h | h in start :: bodies[h] == if h in todo then start[h] else Integrate(start[h], dt)
        decreases todo
      {
        var h :| h in todo;
        bodies := bodies[h := Integrate(bodies[h], dt)];
        todo := todo - {h};
      }
    }

    /** One pass of the loop of `update_with_quad`: the entries of the
      bodies that are neither fixed nor sensors come out under their current
      boxes, the collision is resolved and corrected, and those entries go
      back in with the new boxes. */
    method SettleOne(c: Collision)
      requires broad.Valid() && Holds(bodies, c)
      modifies this, broad
      ensures broad.Valid() && next == old(next)
      ensures Stage(broad.Value(), bodies) == Settle(Stage(old(broad.Value()), old(bodies)), c, aabbOf)
    {
      var aStays := bodies[c.pair.a].fixed || bodies[c.pair.a].sensor;
      var bStays := bodies[c.pair.b].fixed || bodies[c.pair.b].sensor;
      if !aStays {
        broad.Remove(M.Element(c.pair.a, aabbOf(bodies[c.pair.a])));
      }
      if !bStays {
        broad.Remove(M.Element(c.pair.b, aabbOf(bodies[c.pair.b])));
      }
      bodies := ResolveCollision(bodies, c);
      bodies := CorrectPosition(bodies, c);
      if !aStays {
        broad.Insert(M.Element(c.pair.a, aabbOf(bodies[c.pair.a])));
      }
      if !bStays {
        broad.Insert(M.Element(c.pair.b, aabbOf(bodies[c.pair.b])));
      }
    }

    /** The loop of `update_with_quad` over the collisions, in order. */
    method SettleCollisions(cs: seq<Collision>)
      requires broad.Valid() && AllLive(bodies, cs)
      modifies this, broad
      ensures broad.Valid() && next == old(next)
      ensures Stage(broad.Value(), bodies) == SettleAll(Stage(old(broad.Value()), old(bodies)), cs, aabbOf)
    {
      ghost var start := Stage(broad.Value(), bodies);
      var k := 0;
      while k < |cs|
        invariant 0 <= k <= |cs|
        invariant broad.Valid() && bodies.Keys == start.bodies.Keys && next == old(next)
        invariant Stage(broad.Value(), bodies) == SettleAll(start, cs[..k], aabbOf)
      {
        assert cs[..k + 1][..k] == cs[..k];
        assert cs[k] in cs;
        SettleOne(cs[k]);
        k := k + 1;
      }
      assert cs[..k] == cs;
    }

    /** `update_with_quad`: one step. The program unwraps the bodies of every
      pair the broad phase reports, so those handles must be live (they are
      whenever the world is synchronised, see `BroadPhaseSound`). The
      collisions returned are the narrow phase over the broad phase's pairs,
      in the order the broad phase listed them, and the new state is the
      settling of those collisions in that order, followed by a clean-up. */
    method UpdateWithQuad(dt: real) returns (collisions: seq<Collision>, ghost pairs: seq<M.Pair>)
      requires Valid()
      requires forall p | p in M.Pairs(broad.Value()) :: p.a in bodies && p.b in bodies
      modifies this, broad
      ensures Valid() && next == old(next) && bodies.Keys == old(bodies).Keys
      ensures forall p :: p in pairs <==> p in M.Pairs(old(broad.Value()))
      ensures forall i, j | 0 <= i < j < |pairs| :: pairs[i] != pairs[j]
      ensures AllHold(Integrated(old(bodies), dt), pairs)
      ensures collisions == NarrowPhase(narrow, Integrated(old(bodies), dt), pairs) && OnePerPair(collisions)
      ensures AllLive(Integrated(old(bodies), dt), collisions)
      ensures var s := SettleAll(Stage(old(broad.Value()), Integrated(old(bodies), dt)), collisions, aabbOf);
        bodies == s.bodies && broad.Value() == M.CleanUp(s.tree).0
    {
      CalcVelocity(dt);
      var found := broad.CheckCollisions();
      pairs := found;
      collisions := NarrowCollisions(narrow, bodies, found);
      NarrowPhaseDistinct(narrow, bodies, found);
      SettleCollisions(collisions);
      var empty := broad.CleanUp();
    }
  }
}
