# phusis in Dafny

A model of the core of **phusis**, a small 2D rigid-body physics library in Rust,
with proofs about it. The model covers four parts:

- the quadtree broad phase (`src/quad_tree/mod.rs`);
- the two physics worlds that use it (`src/world/mod.rs` and `src/world.rs`);
- the shape-against-shape contact tests (`src/checks.rs`).

The quadtree has two layers:

- **Values.** Module `QuadModel` gives a value-level tree. Each node is a leaf
  holding a sequence of `(handle, box)` entries, or a branch of four quadrants.
  `Insert`, `Split`, `Remove`, `Check`, `Pairs` and `CleanUp` follow
  `inner_insert`, `split`, `remove`, `check`, `inner_check_collisions` and
  `clean_up` branch by branch.
- **Class.** `QuadTrees.QuadTree` is the mutable quadtree. Its methods update
  the tree in place, and each is proved equal to the value function.

The model keeps the source's quadtree behaviour:

- An element is inserted into every quadrant its box touches, so it may be
  stored several times.
- A leaf splits once it holds more than 16 entries, while its level is below 8.
- `remove` takes out the first entry with the element's handle in every leaf
  that the element's box reaches.
- Quadrant sizes come from integer halving (`i32 / 2`). On an odd width the
  four quadrants miss the last column (`OddWidthLosesColumn`). For that reason
  completeness of queries is proved for roots whose sides halve exactly, once
  for each of the 8 levels.

Modules `QuadInsertProps`, `QuadRemoveProps`, `QuadQueryProps` and
`QuadInvariant` prove these properties:

- Every entry stays in each leaf its box meets.
- No handle appears twice in a leaf.
- `check` reports exactly the stored handles whose boxes meet the query.
- Every collision pair comes from two entries of one leaf whose boxes meet.
- Any two stored boxes that share a point inside the root are paired.

`BroadIndex` relates a tree to the live bodies of a world:

- `Sync`: every entry is the current box of a live body.
- `Exact`: every live body inside the root is stored.

It also proves what adding, removing and updating a body do to these two
relations.

`ArenaWorld` models `src/world/mod.rs`. Bodies live in a generational arena,
modelled as a map from handles that are never reused. One step of
`update_with_quad` does the following, in order:

1. integrates every body;
2. asks the broad phase for candidate pairs;
3. runs the narrow phase;
4. settles each collision: the entries of bodies that are neither fixed nor
   sensors come out of the tree, the collision is resolved and corrected, and
   the entries go back in;
5. cleans up the tree.

Two behaviours of this file are made explicit:

- Entries are removed with the box the body has *after* integration. The
  integration step alone therefore leaves the index stale (`IndexGoesStale`).
- A sensor that is not fixed still gets pushed by resolution and correction,
  but it is never re-indexed. So the synchronisation proof
  (`SettleAllKeepsSync`) excludes such sensors.

`VecWorld` models `src/world.rs`, where bodies live in a vector:

- Removed indices go on a stack, and `add_body` reuses them last-in first-out.
- Removing a body only pushes its index and takes its entry out of the tree.
  The body stays in the vector, so `get_body` still returns it and
  `calc_velocity` still moves it.
- Removing the same index twice puts it on the stack twice.
- Resolution and correction skip pairs involving a sensor.
- The step has no clean-up pass.
- The default root, `AABB::new(-1000, -1000, 1000, 1000)`, runs from
  `(-1000, -1000)` to `(0, 0)`. Boxes with a positive minimum coordinate are
  never stored, and the root's side halves exactly only three times.

This file still uses older names from before the collision type was
reworked:

- a `Collision` with fields `a`, `b`;
- `QuadElement`.

The model gives it the current `Collision { pair, contact }`.

The narrow phase of both worlds passes the positions in pair order. For a
box–circle pair this means the box's own position comes first only when the
box comes first in the pair (`Bodies.MixedPairOrder`).

In `checks.rs`:

- `aabb_vs_circle` divides the outside-case normal by the *squared* distance
  (`AabbCircleOutside` states it as written).
- `circle_vs_circle` returns a unit normal (`CircleContactApart`).

`f32` values are modelled as `real`, `i32` box coordinates as `int`, and
`sqrt` as a parameter constrained by `IsSqrt`.

## Model

| member | source | states |
|---|---|---|
| Bounds.New | src/shape/aabb.rs:13-19 | the box starts at `(x, y)` and has the given width and height |
| Bounds.Half | src/quad_tree/mod.rs:59-60 | `i32` halving rounds toward zero: bounds on both signs, exact on even numbers |
| Bounds.IntersectsSymmetric | src/quad_tree/mod.rs:99-101 | box intersection does not depend on the order of its arguments |
| Vectors.Signum | src/checks.rs:34 | the sign is ±1 and times the value gives its absolute value |
| Vectors.Clamp | src/checks.rs:94-95 | the result lies in `[lo, hi]`, equals `v` inside it and the nearer end outside it |
| Vectors.LessDrivenByX | src/world/mod.rs:172 | the derived `Vec2` order is decided by `x` unless the `x` values tie |
| Bodies.MixedPairOrder | src/world/mod.rs:193-203 | for a box–circle pair both orders call the box test, with the box's position first only when the box comes first |
| Checks.DistanceSquared | src/checks.rs:10-12 | non-negative, and zero exactly for the zero vector |
| Checks.MixedPairSymmetric | src/checks.rs:14-21 | a box–circle pair gives the same result in both orders, with the box as `a` |
| Checks.AabbContact | src/checks.rs:23-49 | no contact iff the penetration is not positive on some axis; a contact has an axis-aligned unit normal toward `b` and depth equal to the smaller overlap, signed by the normal |
| Checks.AabbContactX | src/checks.rs:33-40 | a smaller `x` overlap gives a contact along `x` |
| Checks.AabbContactY | src/checks.rs:42-48 | a `y` overlap no larger than the `x` overlap gives a contact along `y` |
| Checks.AabbSwap | src/checks.rs:23-49 | swapping the boxes keeps whether they touch and the axis, and flips the normal when the positions differ on that axis |
| Checks.UnitAfterDivision | src/checks.rs:69 | an offset divided by its length has length 1 |
| Checks.CircleContactExists | src/checks.rs:56-62 | circles miss iff the squared distance exceeds the squared sum of radii |
| Checks.CircleContactApart | src/checks.rs:63-72 | at distinct centres the normal is the unit offset, the depth is the sum of radii minus the distance, and it is non-negative for non-negative radii |
| Checks.CircleContactCoincident | src/checks.rs:74-81 | at equal centres the contact has depth `a`'s radius and normal `(1, 0)` |
| Checks.Clamped | src/checks.rs:91-95 | the clamped offset lies within the box's half extents |
| Checks.CentreInsideBounds | src/checks.rs:97-100 | the centre counts as inside iff the offset is within the half extents on both axes |
| Checks.ApartWhenOutside | src/checks.rs:116 | outside the box the centre is at a positive distance from the closest point |
| Checks.AabbCircleInside | src/checks.rs:97-133 | inside the box there is always a contact; the closest point is moved to an `x` face iff `abs(n.x) > abs(n.y)` (whatever the box's extents), to the positive face iff that offset component is positive; the depth is the radius less the distance to that point, and the normal is the offset over the radius |
| Checks.AabbCircleOutside | src/checks.rs:116-141 | outside the box there is no contact iff the squared distance exceeds the squared radius; otherwise the depth is radius minus distance and the normal is the offset over the squared distance |
| Dynamics.ShareIsMobility | src/world/mod.rs:40-45 | the impulse share is the sum of the inverse masses of the bodies that are not fixed |
| Dynamics.PushedRelative | src/world/mod.rs:52-57 | after the push the relative velocity changes by the impulse times the combined mobility |
| Dynamics.ImpulseTotal | src/world/mod.rs:37-47 | the impulse times the share is `-(1 + e)` times the normal speed along the normal |
| Dynamics.RestitutionLaw | src/world/mod.rs:22-58 | after resolution the normal speed is `-e` times the one before, with `e` the smaller restitution |
| Dynamics.MomentumBalance | src/world/mod.rs:52-57 | for two movable bodies the momentum changes cancel |
| Dynamics.WithinSlopNoCorrection | src/world/mod.rs:69-77 | a depth within `K_SLOP` gives a zero correction |
| Dynamics.MovedRelative | src/world/mod.rs:82-87 | after the correction the relative position changes by the correction times the combined mobility |
| Dynamics.CorrectionTotal | src/world/mod.rs:69-77 | the correction times the share is `PENETRATION_PERCENTAGE` of the depth beyond the slop |
| Dynamics.CorrectionSeparates | src/world/mod.rs:60-88 | the bodies separate along the normal by `PENETRATION_PERCENTAGE` of the depth beyond the slop |
| Dynamics.Integrate | src/world/mod.rs:160-176 | the force is cleared, the velocity is either zero or the damped velocity (when it is zero is stated by `SnapDrivenByX`), the position advances by velocity times `dt`, and nothing else changes |
| Dynamics.SnapDrivenByX | src/world/mod.rs:172-174 | the lexicographic snap rule in full: the velocity snaps to rest when its `x` magnitude is below 0.1 and is kept when above, regardless of `y`; when the `x` magnitude is exactly 0.1 it snaps iff the `y` magnitude is below 0.1 |
| Dynamics.VerticalMotionStops | src/world/mod.rs:172-174 | an illustration of `SnapDrivenByX` on one body: a purely vertical velocity of 5 is zeroed, so the body does not move |
| QuadGeometry.HalvableQuadrant | src/quad_tree/mod.rs:59-85 | the quadrants of an exactly halving box halve exactly one level deeper |
| QuadGeometry.PointInQuadrant | src/quad_tree/mod.rs:59-85 | every point of an evenly sized box lies in one of its quadrants |
| QuadGeometry.OddWidthLosesColumn | src/quad_tree/mod.rs:59-85 | a 3×3 root has a point box that meets the root but none of its quadrants |
| QuadModel.Quadrant | src/quad_tree/mod.rs:59-85 | the quadrant is half the size, offset by half the width and height as its index says |
| QuadModel.Insert | src/quad_tree/mod.rs:98-115 | insertion keeps the tree well formed, with the same bounds and level |
| QuadModel.Split | src/quad_tree/mod.rs:55-96 | a split gives a well-formed branch with the same bounds and level |
| QuadModel.InsertAll | src/quad_tree/mod.rs:87-92 | re-inserting entries keeps the tree well formed |
| QuadModel.FindHandleFirst | src/quad_tree/mod.rs:171-173 | `position` finds the first entry with the handle, and none iff no entry has it |
| QuadModel.SwapRemoveShape | src/quad_tree/mod.rs:175 | `swap_remove` drops one entry and moves the last entry into the gap |
| QuadModel.SwapRemoveMultiset | src/quad_tree/mod.rs:175 | `swap_remove` takes out exactly one copy of the removed entry |
| QuadModel.SwapRemoveElements | src/quad_tree/mod.rs:175 | `swap_remove` keeps every other entry and adds none |
| QuadModel.Remove | src/quad_tree/mod.rs:159-179 | removal keeps the bounds, the level, the node kind and well-formedness |
| QuadModel.LeafHitsSnoc | src/quad_tree/mod.rs:192-196 | each scanned entry adds its handle iff its box meets the query |
| QuadModel.RowPairsSnoc | src/quad_tree/mod.rs:127-133 | each later entry adds a pair iff the two boxes meet |
| QuadModel.PairsBeforeAll | src/quad_tree/mod.rs:124-135 | the nested loop over a leaf collects the pairs `i < j` whose boxes meet |
| QuadModel.CleanUp | src/quad_tree/mod.rs:213-234 | clean-up keeps the bounds, level and well-formedness, and reports empty iff the node is an empty leaf |
| QuadModel.LenZeroIffNoMembers | src/quad_tree/mod.rs:148-157 | `is_empty` holds iff no leaf stores an entry |
| QuadInsertProps.InsideInsert | src/quad_tree/mod.rs:98-115 | leaves only hold entries whose boxes meet the leaf |
| QuadInsertProps.MembersInsert | src/quad_tree/mod.rs:98-115 | insertion adds at most the new entry, and only when it meets the bounds |
| QuadInsertProps.PlacedInsert | src/quad_tree/mod.rs:98-115 | the new entry and every entry already placed end up in every leaf their boxes meet |
| QuadInsertProps.PlacedSplit | src/quad_tree/mod.rs:87-92 | a split re-places every former entry in every child it meets |
| QuadInsertProps.PlacedIsMember | src/quad_tree/mod.rs:98-115 | in an exactly halving tree, a placed entry with a point inside the root is stored |
| QuadInsertProps.NewTreeIndexed | src/quad_tree/mod.rs:44-50 | a new tree is empty and indexed |
| QuadInsertProps.InsertExact | src/quad_tree/mod.rs:144-146 | in an indexed tree, `insert` adds exactly the new entry when it meets the root, and keeps the tree indexed |
| QuadInsertProps.LeafAppends | src/quad_tree/mod.rs:108-113 | a leaf within capacity, or at the depth limit, just appends |
| QuadInsertProps.CapacityScenario | src/quad_tree/mod.rs:110-112 | 16 entries stay in one leaf, and a 17th splits it |
| QuadInsertProps.DeepLeafGrows | src/quad_tree/mod.rs:110 | a leaf at the depth limit grows without bound |
| QuadRemoveProps.RemoveMembers | src/quad_tree/mod.rs:159-179 | removal adds nothing and keeps every entry with another handle |
| QuadRemoveProps.RemoveAbsent | src/quad_tree/mod.rs:170-176 | removing a handle that is not stored changes nothing |
| QuadRemoveProps.RemoveLen | src/quad_tree/mod.rs:148-179 | removal never increases `len` |
| QuadRemoveProps.RemovePlaced | src/quad_tree/mod.rs:159-179 | removal keeps entries with other handles in every leaf they meet |
| QuadRemoveProps.TrackedRemoved | src/quad_tree/mod.rs:159-179 | removing a tracked entry leaves no entry with its handle |
| QuadRemoveProps.TrackedRemove | src/quad_tree/mod.rs:159-179 | removing another handle keeps an entry tracked |
| QuadRemoveProps.TrackedInsert | src/quad_tree/mod.rs:98-115 | inserting another handle, or the entry itself when its handle is free, keeps it tracked |
| QuadRemoveProps.InsertThenRemove | src/quad_tree/mod.rs:144-179 | removing a freshly inserted entry takes out just that entry, and in an indexed tree restores the stored set |
| QuadQueryProps.CheckSound | src/quad_tree/mod.rs:181-199 | every handle `check` reports belongs to a stored entry whose box meets the query |
| QuadQueryProps.CheckComplete | src/quad_tree/mod.rs:181-199 | a placed entry sharing a point with the query inside the root is reported |
| QuadQueryProps.CheckExact | src/quad_tree/mod.rs:181-199 | for a query within an indexed root, `check` reports exactly the handles of stored entries meeting the query |
| QuadQueryProps.PairsSound | src/quad_tree/mod.rs:117-138 | every collected pair comes from two entries of one leaf, in leaf order, whose boxes meet |
| QuadQueryProps.SameLeafPaired | src/quad_tree/mod.rs:124-135 | two meeting entries of one leaf are paired |
| QuadQueryProps.PairsComplete | src/quad_tree/mod.rs:117-138 | two placed entries sharing a point inside the root are paired in some order |
| QuadInvariant.CleanUpKeeps | src/quad_tree/mod.rs:213-234 | clean-up keeps `len` and the stored entries |
| QuadInvariant.TrackedCleanUp | src/quad_tree/mod.rs:213-234 | clean-up keeps an entry tracked |
| QuadInvariant.PlacedCleanUp | src/quad_tree/mod.rs:213-234 | clean-up keeps an entry in every leaf it meets |
| QuadInvariant.TrackedUnique | src/quad_tree/mod.rs:159-179 | a tracked entry is the only stored entry with its handle |
| QuadInvariant.NewTreeCoherent | src/quad_tree/mod.rs:44-50 | a new tree is coherent and empty |
| QuadInvariant.InsertCoherent | src/quad_tree/mod.rs:144-146 | inserting a free handle keeps the tree coherent and adds at most that entry |
| QuadInvariant.RemoveCoherent | src/quad_tree/mod.rs:159-179 | removal keeps coherence and indexing, takes out exactly that entry, and frees its handle |
| QuadInvariant.CleanUpCoherent | src/quad_tree/mod.rs:213-234 | clean-up keeps coherence, the stored entries, `len` and indexing |
| QuadTrees.QuadTree.constructor | src/quad_tree/mod.rs:44-50 | a new tree is an empty leaf with the given level and bounds |
| QuadTrees.QuadTree.Insert | src/quad_tree/mod.rs:144-146 | the tree becomes the value-level insertion |
| QuadTrees.QuadTree.Remove | src/quad_tree/mod.rs:159-179 | the tree becomes the value-level removal |
| QuadTrees.QuadTree.IsEmpty | src/quad_tree/mod.rs:155-157 | true iff no entry is stored |
| QuadTrees.QuadTree.Check | src/quad_tree/mod.rs:181-199 | adds the handles of the entries meeting the query to the given set |
| QuadTrees.QuadTree.CheckCollisions | src/quad_tree/mod.rs:201-207 | lists each collected pair exactly once |
| QuadTrees.QuadTree.Clear | src/quad_tree/mod.rs:209-211 | the tree becomes an empty leaf with the same bounds and level |
| QuadTrees.QuadTree.CleanUp | src/quad_tree/mod.rs:213-234 | the tree and its emptiness report are the value-level clean-up |
| QuadTrees.Enumerate | src/quad_tree/mod.rs:206 | turning the set into a vector lists each pair exactly once |
| QuadTrees.InsertNode | src/quad_tree/mod.rs:98-115 | recursive insertion computes `Insert` |
| QuadTrees.SplitNode | src/quad_tree/mod.rs:55-96 | building the four children and re-inserting computes `Split` |
| QuadTrees.RemoveNode | src/quad_tree/mod.rs:159-179 | recursive removal computes `Remove` |
| QuadTrees.CheckNode | src/quad_tree/mod.rs:181-199 | the recursive query adds exactly `Check` |
| QuadTrees.CollectHits | src/quad_tree/mod.rs:192-196 | the leaf loop adds exactly the handles of entries meeting the query |
| QuadTrees.PairsNode | src/quad_tree/mod.rs:117-138 | the recursive walk adds exactly `Pairs` |
| QuadTrees.CollectPairs | src/quad_tree/mod.rs:124-135 | the outer leaf loop adds exactly the leaf's pairs |
| QuadTrees.CollectRow | src/quad_tree/mod.rs:127-133 | the inner loop adds the pairs of one entry with the later entries |
| QuadTrees.CleanUpNode | src/quad_tree/mod.rs:213-234 | the recursive clean-up computes `CleanUp` |
| BroadIndex.EmptyIndex | src/world/mod.rs:108-113 | an empty tree is in sync with the empty world, and exact when it halves exactly |
| BroadIndex.ExactMembers | src/world/mod.rs:115-129 | in sync and exact, the stored entries are exactly those of the live bodies meeting the root |
| BroadIndex.SyncRemove | src/world/mod.rs:123-129 | removing a live body's entry keeps sync, frees its handle, and takes out exactly that entry |
| BroadIndex.SyncInsert | src/world/mod.rs:115-121 | inserting a live body with a free handle keeps sync, and exactness for a proper box |
| BroadIndex.SyncAdd | src/world/mod.rs:115-121 | adding a fresh body and its entry keeps sync, and exactness for a proper box |
| BroadIndex.SyncDrop | src/world/mod.rs:123-129 | dropping a body and its entry keeps sync and exactness, and frees the handle |
| BroadIndex.SyncReplace | src/world/mod.rs:131-144 | swapping a body's entry for its new value's entry keeps sync, and exactness for a proper box |
| BroadIndex.BroadPhaseSound | src/world/mod.rs:183-191 | every pair of a synced tree names two different live bodies whose boxes meet |
| BroadIndex.BroadPhaseComplete | src/world/mod.rs:183 | in sync and exact, two live bodies sharing a point inside the root are paired |
| ArenaWorld.Resolved | src/world/mod.rs:22-58 | only velocities change, and fixed bodies and bodies outside the pair do not change |
| ArenaWorld.ResolveCollision | src/world/mod.rs:22-58 | the in-order updates compute `Resolved` |
| ArenaWorld.ResolveRestitution | src/world/mod.rs:22-58 | the normal speed stays when separating, and otherwise becomes `-e` times itself |
| ArenaWorld.Corrected | src/world/mod.rs:60-88 | only positions change, and fixed bodies and bodies outside the pair do not change |
| ArenaWorld.CorrectPosition | src/world/mod.rs:60-88 | the in-order updates compute `Corrected` |
| ArenaWorld.CorrectSeparates | src/world/mod.rs:60-88 | the pair separates along the normal by the percentage of the depth beyond the slop |
| ArenaWorld.CorrectWithinSlop | src/world/mod.rs:69-77 | a depth within the slop changes nothing |
| ArenaWorld.NarrowPhase | src/world/mod.rs:186-213 | at most one collision per candidate, each for a candidate pair |
| ArenaWorld.NarrowPhaseReports | src/world/mod.rs:186-213 | a collision is reported iff its pair is a candidate and the shapes' contact test returns its contact |
| ArenaWorld.NarrowPhaseDistinct | src/world/mod.rs:186-213 | distinct candidates give collisions with distinct pairs |
| ArenaWorld.NarrowCollisions | src/world/mod.rs:186-213 | the fold computes `NarrowPhase` |
| ArenaWorld.Integrated | src/world/mod.rs:158-178 | every body keeps its handle, its force is cleared, and only position and velocity change |
| ArenaWorld.IndexGoesStale | src/world/mod.rs:181-183 | integration that moves a stored body's box breaks sync |
| ArenaWorld.Settle | src/world/mod.rs:216-250 | settling one collision keeps the handles and a well-formed tree |
| ArenaWorld.SettleAll | src/world/mod.rs:215-251 | settling in order keeps the handles and a well-formed tree |
| ArenaWorld.SettleFixed | src/world/mod.rs:215-251 | fixed bodies never change |
| ArenaWorld.SettleUntouched | src/world/mod.rs:215-251 | bodies named in no collision never change |
| ArenaWorld.SettleKeepsSync | src/world/mod.rs:216-250 | one settled collision between fixed or movable bodies keeps sync |
| ArenaWorld.SettleFlags | src/world/mod.rs:215-251 | settling never changes whether a body is fixed or a sensor |
| ArenaWorld.SettleAllKeepsSync | src/world/mod.rs:215-251 | settling collisions that involve no non-fixed sensor keeps sync |
| ArenaWorld.PhysicsWorld.constructor | src/world/mod.rs:108-113 | a world with no bodies over the given broad phase, in sync iff that broad phase is empty |
| ArenaWorld.PhysicsWorld.GetBody | src/world/mod.rs:148-150 | returns a body iff the handle is live, and then that body |
| ArenaWorld.PhysicsWorld.AddBody | src/world/mod.rs:115-121 | a fresh handle maps to the body, its entry is inserted, and sync and exactness are kept |
| ArenaWorld.PhysicsWorld.RemoveBody | src/world/mod.rs:123-129 | the body and its entry are removed, its handle is no longer found, and sync and exactness are kept |
| ArenaWorld.PhysicsWorld.Update | src/world/mod.rs:131-144 | the body becomes `func` of itself, its entry is replaced, and sync and exactness are kept |
| ArenaWorld.PhysicsWorld.CalcVelocity | src/world/mod.rs:158-178 | the bodies become `Integrated` |
| ArenaWorld.PhysicsWorld.SettleOne | src/world/mod.rs:216-250 | the state becomes `Settle` of the old state |
| ArenaWorld.PhysicsWorld.SettleCollisions | src/world/mod.rs:215-251 | the state becomes `SettleAll` of the old state |
| ArenaWorld.PhysicsWorld.UpdateWithQuad | src/world/mod.rs:180-255 | the candidates are the old tree's pairs, once each; the collisions are the narrow phase over the integrated bodies, one per pair; the new state is the settled one after a clean-up |
| VecWorld.Resolved | src/world.rs:18-54 | as in the arena world, and also nothing changes when either body is a sensor |
| VecWorld.ResolveCollision | src/world.rs:18-54 | the in-place updates compute `Resolved` |
| VecWorld.ResolvedAgrees | src/world.rs:23 | equals the arena world's resolution except that sensor pairs are skipped |
| VecWorld.Corrected | src/world.rs:56-85 | as in the arena world, and also nothing changes when either body is a sensor |
| VecWorld.CorrectPosition | src/world.rs:56-85 | the in-place updates compute `Corrected` |
| VecWorld.CorrectedAgrees | src/world.rs:62 | equals the arena world's correction except that sensor pairs are skipped |
| VecWorld.IntegratedAll | src/world.rs:163-183 | every slot is integrated, with the force cleared and the flags kept |
| VecWorld.IntegratedAgrees | src/world.rs:163-183 | on the live slots this is the arena world's integration |
| VecWorld.LivePush | src/world.rs:135-141 | pushing an index on the stack removes it from the live bodies |
| VecWorld.LivePop | src/world.rs:110-123 | popping a reused index makes exactly that slot live with the new body |
| VecWorld.LiveAppend | src/world.rs:124-132 | appending makes the new last slot live |
| VecWorld.Settle | src/world.rs:223-257 | settling one collision keeps the slot count and a well-formed tree |
| VecWorld.SettleAll | src/world.rs:222-258 | settling in order keeps the slot count and a well-formed tree |
| VecWorld.SettleStill | src/world.rs:222-258 | fixed bodies and sensors never change |
| VecWorld.SettleFlags | src/world.rs:222-258 | settling never changes whether a body is fixed or a sensor |
| VecWorld.SettleKeepsSync | src/world.rs:223-257 | one settled collision between two live slots keeps sync |
| VecWorld.SettleAllKeepsSync | src/world.rs:222-258 | settling collisions between live slots keeps sync |
| VecWorld.DefaultRootNotHalvable | src/world.rs:102 | the default root does not halve exactly down to the depth limit |
| VecWorld.DefaultRootMisses | src/world.rs:102 | a box with positive minimum `x` or `y` is never stored under the default root |
| VecWorld.PhysicsWorld.Default | src/world.rs:98-106 | an empty world over a fresh tree on the default root, in sync |
| VecWorld.PhysicsWorld.GetBody | src/world.rs:155-157 | returns the slot's body iff the index is in range, removed or not |
| VecWorld.PhysicsWorld.AddBody | src/world.rs:109-133 | reuses the last removed index, or else appends; inserts the entry; keeps sync with the new body live |
| VecWorld.PhysicsWorld.RemoveBody | src/world.rs:135-141 | the vector is unchanged, the index is pushed, the entry is removed, sync is kept for a first removal, and a second removal duplicates the index |
| VecWorld.PhysicsWorld.CalcVelocity | src/world.rs:163-183 | every slot, removed or not, becomes `IntegratedAll` |
| VecWorld.PhysicsWorld.SettleOne | src/world.rs:223-257 | the state becomes `Settle` of the old state |
| VecWorld.PhysicsWorld.SettleCollisions | src/world.rs:222-258 | the state becomes `SettleAll` of the old state |
| VecWorld.PhysicsWorld.UpdateWithQuad | src/world.rs:185-261 | the candidates are the old tree's pairs; the collisions are the narrow phase over the integrated slots, one per pair; the new state is the settled one, with no clean-up |
| VecWorld.SyncedPairsLive | src/world.rs:188-197 | every pair of a synced tree names two different live slots in range |

## Left out

- Floating point: `f32` is modelled as `real`, so rounding, NaN, infinities and signed zero are not modelled. A division by zero is modelled as 0 (`Vectors.Quot`). `Vectors.Signum` gives 1 for zero.
- Integer widths: `i32` box arithmetic and the `u8` level are modelled as unbounded integers, so overflow is not modelled.
- Foreign code:
  - `sqrt` is a parameter constrained by `IsSqrt`.
  - `get_aabb` is a parameter.
  - The shape tests `circle_vs_circle`, `rect_vs_rect` and `rect_vs_circle` used by both worlds live outside the modelled files and are a parameter (`Narrow`). `src/checks.rs` is modelled on its own, over `Solid`.
- Output: the `println!` in `update_with_quad` of `src/world.rs` (line 190).
- Generational arena: generations are not modelled. Handles are natural numbers drawn from a counter and never reused, which is the guarantee generations give.
- In-place children: quadtree children are values rebuilt on each update, so sharing of `Box`ed children is not modelled.
- `HashSet` order: `check_collisions` is modelled as some duplicate-free listing of the pair set, because the iteration order is unspecified.
- ArenaWorld.PhysicsWorld.UpdateWithQuad: the narrow phase runs over that listing, which the contract names as a ghost output rather than fixing its order. The precondition that every candidate pair is live stands in for the `unwrap` panics; `BroadIndex.BroadPhaseSound` discharges it for a synced tree.
- VecWorld.PhysicsWorld.UpdateWithQuad: the precondition that every pair index is in range stands in for the `unwrap` panics; `VecWorld.SyncedPairsLive` discharges it for a synced tree.
- Bounds.Intersects: the `i32` box type of the quadtree (`AABB<i32>` with `new`, `intersects`) is not part of this model's source files, so its intersection test is an assumption: closed intervals on both axes, so touching boxes intersect. VecWorld.DefaultRootMisses depends on it (a box with minimum `x` equal to 0 touches the default root and is stored).
- ArenaWorld.PhysicsWorld.RemoveBody: `requires h in bodies` stands in for the `unwrap` panic of `remove_body` on a handle that is not live (`src/world/mod.rs` line 124).
- ArenaWorld.PhysicsWorld.Update: `requires h in bodies` stands in for the `unwrap` panic of `update` on a handle that is not live (`src/world/mod.rs` line 134).
- VecWorld.PhysicsWorld.RemoveBody: `requires h < |bodies|` stands in for the `unwrap` panic of `remove_body` on an index past the vector (`src/world.rs` line 139, after the push at line 136).
- Checks.CheckCollision: `requires Clampable` on the box of a box–circle pair stands in for the panic of `f32::clamp` when its minimum exceeds its maximum (`src/checks.rs` lines 94-95).
- Checks.MixedPairSymmetric: `requires Clampable` on the box stands in for the same `f32::clamp` panic.
- Checks.AabbVsCircle: `requires Clampable` stands in for the same `f32::clamp` panic.
- `get_body_mut` of both worlds: it hands out a mutable reference, and its effect is `Update`.
- `remove_from_quad_tree` and `insert_into_quad_tree` of `src/world.rs` (lines 143-152): these are thin wrappers. Their effect appears inside `RemoveBody` and `UpdateWithQuad`.
- `get_quad_tree_aabb` of `src/world.rs`: a debugging accessor.
- The `FnMut` closure of `update` is modelled as a pure function `Body -> Body`.
- The generic `BroadPhase` trait of `src/world/broad.rs` is instantiated with the quadtree, its only implementation.
- Bevy integration, benchmarks and examples are not part of this model.
