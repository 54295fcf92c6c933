# PreVis-Scene4 physics core in Dafny

A model of the rigid-body physics in PreVis-Scene4 and of the application
loop that drives it.

`PhysicsObject` is a body with a position, a velocity, force and impulse
accumulators, a mass with its stored inverse, friction and elasticity, and
a collider that holds the contacts found against other bodies this tick.
One fixed tick of `PhysicsObject::update` does the following, in order:

- adds gravity;
- drops edge and vertex contacts that lie just behind a face contact of another body;
- resolves each remaining contact with an impulse, which also adds normal force and friction;
- pushes the body out of immovable bodies;
- reports the hardest impact;
- clears the contacts;
- applies impulse and quadratic drag, and integrates with a per-axis deadzone.

The application does three things:

- switches through a fixed sequence of scenes (`nextScene`);
- runs a physics tick (`updatePhysics`): every pair `i < j` is checked once with `i` as the initiator, then every body is updated in list order;
- drains the elapsed frame time in fixed steps (the accumulator loop of `main`).

The project has six modules:

- `Options` (option.dfy): the `Option` datatype, for nullable pointers and absent results.
- `Vectors` (vectors.dfy): 3-vectors over `real`, `dot` and `proj`. The glm helpers `length`, `normalize` and `intersectRayPlane` are uninterpreted functions, passed in a `Glm` record.
- `Collisions` (collisions.dfy): contacts and the edge-contact filter. The filter is a specification function `Filter`, with its properties as lemmas, plus the two loops that compute the removal set.
- `Dynamics` (dynamics.dfy): one tick of one body as a function on values. `Step` is built from `ResolveOne`, `ResolveAll` and `Integrate`. The physical properties of a tick are lemmas about it.
- `PhysicsObjects` (physics_object.dfy): the class `PhysicsObject`. Its methods change the fields step by step as the source does, and each is proved to produce exactly the corresponding specification function. `Update` produces `Step`.
- `App` (application.dfy): the scene machine, the call trace of a tick, and the class `Application`. In `Application`, `UpdatePhysics` states every body's new state as `Step` of the state it had when the tick began. `RunFixedSteps` states the number of ticks and the remaining balance.

Detection itself (the shape tests of the sphere and mesh colliders) is not part of this model. The contacts the test of pair `(i, j)` reports are a parameter `detect(i, j)`. `GRAVITY`, `DRAG_COEFFICIENT` and `Time.physicsDeltaTime` are fields of the parameter `Env`. The elapsed time of a frame is a parameter of `RunFixedSteps`.

## Model

| member | source | states |
|---|---|---|
| Vectors.Proj | src/physics/PhysicsObject.cpp:102 | for a non-zero normal the result lies along the normal (`dot(n,n) * p == dot(a,n) * n`) and what remains of `a` is orthogonal to it, which fixes it as the projection |
| Collisions.RemovalSet | src/physics/PhysicsObject.cpp:52-68 | only edge or vertex contacts are ever marked for removal, and every mark is an index of the list |
| Collisions.KeepIsSubsequence | src/physics/PhysicsObject.cpp:69-77 | erasing the marked contacts leaves exactly the unmarked ones, at ascending indices, in their original order |
| Collisions.FilterSurvivors | src/physics/PhysicsObject.cpp:36-77 | the filtered list is a subsequence of the input in order; a contact survives iff it is a face contact or no face contact of a different body lies within 0.1 behind it |
| Collisions.FilterSubset | src/physics/PhysicsObject.cpp:36-77 | every surviving contact is one of the input contacts |
| Collisions.FilterKeepsFaces | src/physics/PhysicsObject.cpp:36-77 | filtering never removes a face contact |
| Collisions.FilterIdempotent | src/physics/PhysicsObject.cpp:36-77 | filtering a filtered list changes nothing |
| Collisions.PartitionByGeom | src/physics/PhysicsObject.cpp:37-51 | the two lists hold, in ascending order, exactly the indices of the face contacts and of the edge/vertex contacts |
| Collisions.MarkSuppressed | src/physics/PhysicsObject.cpp:52-68 | the nested loop marks exactly the contacts the filter specification removes |
| Collisions.MarkedByAll | src/physics/PhysicsObject.cpp:53-68 | running over all face contacts marks a contact iff some face contact suppresses it |
| Dynamics.ResolveOne | src/physics/PhysicsObject.cpp:84-131 | a contact that is not solid-on-solid or is separating changes nothing; mass, friction, elasticity, impulse and acceleration never change; an immovable body keeps velocity and position; position moves only against an immovable partner; the maximum impact never decreases, and the remembered collision changes only with it |
| Dynamics.ResolveAll | src/physics/PhysicsObject.cpp:79-132 | over a whole contact list: inertia untouched, an immovable body does not move, the maximum impact never decreases |
| Dynamics.Advance | src/physics/PhysicsObject.cpp:152-163 | a position component changes only when its velocity component exceeds the 0.01 deadzone |
| Dynamics.Integrate | src/physics/PhysicsObject.cpp:139-166 | afterwards force and impulse accumulators are zero; an immovable body keeps its velocity and has no acceleration; each axis moves only past the deadzone |
| Dynamics.Step | src/physics/PhysicsObject.cpp:31-167 | after a tick the force and impulse accumulators are zero; inertia is untouched; an immovable body keeps its velocity, and stays put when at rest; a reported hard collision has a positive impact |
| Dynamics.RestitutionAgainstImmovable | src/physics/PhysicsObject.cpp:88-95 | against an immovable body along a unit normal, the body separates at `min(elasticity, other.elasticity)` times its approach speed |
| Dynamics.ElasticExchangeEqualMasses | src/physics/PhysicsObject.cpp:88-95 | two equal masses with restitution 1: the body takes the other's normal velocity |
| Dynamics.BouncedNormalSpeed | src/physics/PhysicsObject.cpp:93-95 | the impulse raises the normal relative speed by the body's share `invMass * j` |
| Dynamics.ImpulseAlongNormal | src/physics/PhysicsObject.cpp:94-95 | taking `w * j * n` off a velocity raises the relative speed along a unit `n` by `w * j` |
| Dynamics.CorrectionAgainstImmovable | src/physics/PhysicsObject.cpp:118-124 | against an immovable body the new position is the old one plus `0.2 * max(penetration - 0.01, 0)` times `-normal`, whatever the body's mass |
| Dynamics.FrictionIsTangential | src/physics/PhysicsObject.cpp:102-115 | for a non-zero normal and a tangent not normalised (length at most 0.1), the force friction adds is orthogonal to the contact normal |
| Dynamics.FrictionlessAddsNothing | src/physics/PhysicsObject.cpp:110-114 | a body with friction coefficient 0 gains no friction force |
| Dynamics.Impacts | src/physics/PhysicsObject.cpp:126-131 | every candidate for the hard-collision report has a positive impact and is one of the contacts |
| Dynamics.StepReport | src/physics/PhysicsObject.cpp:126-136 | a tick reports a hard collision exactly when some surviving contact was resolved; the report carries the tick's largest impact speed and names the first contact resolved at that speed |
| Dynamics.MaxImpactIsFirstLargest | src/physics/PhysicsObject.cpp:79-136 | after the loop the maximum is positive iff some contact was resolved; it is then the largest impact, and the reported collision is the first one resolved at that speed |
| Dynamics.MaxImpactStep | src/physics/PhysicsObject.cpp:126-130 | one more contact keeps the remembered collision the first largest impact so far |
| Dynamics.SafeWhenImmovablesAgree | src/physics/PhysicsObject.cpp:90-122 | with non-negative inverse masses, when immovable solid partners move alike, no resolved contact divides by zero |
| Dynamics.ResolvableWhenImmovablesAgree | src/physics/PhysicsObject.cpp:31-132 | under the same condition a whole tick of the body can run |
| Dynamics.SafePrefix | src/physics/PhysicsObject.cpp:81-132 | a loop that can run over a list can run over each of its prefixes |
| Dynamics.ResolveAllNext | src/physics/PhysicsObject.cpp:81-132 | the loop over one more contact is the loop so far followed by that contact |
| Dynamics.NoContactsResolvable | src/physics/PhysicsObject.cpp:31-167 | a tick with no contacts can always run and the filter yields nothing |
| Dynamics.FreeFallTick | src/physics/PhysicsObject.cpp:33-151 | a free body under gravity alone gains `gravity * dt` of vertical velocity per tick |
| Dynamics.IntegrateUnderGravity | src/physics/PhysicsObject.cpp:139-151 | integrating a body that carries only its weight adds `gravity * dt` to its vertical velocity |
| PhysicsObjects.InverseMass | src/physics/PhysicsObject.cpp:240-245 | the inverse mass is 0 exactly for mass 0, its product with a non-zero mass is 1, and it is positive exactly for positive mass |
| PhysicsObjects.Tagged | src/physics/PhysicsObject.cpp:193 | a shape test's contacts become pending collisions naming the other body, one per contact, in order |
| PhysicsObjects.PhysicsObject.constructor | src/physics/PhysicsObject.cpp:12-29 | a new body has the given transform, zero velocity, forces, impulse, mass and inverse mass, is solid, does not ignore collisions, has no pending contacts and gets a mesh collider when none is given |
| PhysicsObjects.PhysicsObject.SetMass | src/physics/PhysicsObject.cpp:240-245 | stores the mass and its inverse (0 for a massless body) |
| PhysicsObjects.PhysicsObject.SetFriction | src/physics/PhysicsObject.cpp:247-250 | stores the friction coefficient and changes nothing else |
| PhysicsObjects.PhysicsObject.SetElasticity | src/physics/PhysicsObject.cpp:252-255 | stores the elasticity and changes nothing else |
| PhysicsObjects.PhysicsObject.SetVelocity | src/physics/PhysicsObject.cpp:257-260 | stores the velocity and changes nothing else |
| PhysicsObjects.PhysicsObject.GetVelocity | src/physics/PhysicsObject.cpp:262-265 | returns the current velocity |
| PhysicsObjects.PhysicsObject.ApplyImpulse | src/physics/PhysicsObject.cpp:235-238 | adds the argument to the accumulated impulse and changes nothing else |
| PhysicsObjects.PhysicsObject.CheckCollision | src/physics/PhysicsObject.cpp:189-195 | contacts are added only when both bodies have colliders and neither ignores collisions; otherwise nothing changes |
| PhysicsObjects.PhysicsObject.GetRadius | src/physics/PhysicsObject.cpp:197-211 | 0 without a collider, the stored bounding radius at unit scale, the collider's scaled radius otherwise |
| PhysicsObjects.PhysicsObject.GetCenterPos | src/physics/PhysicsObject.cpp:213-226 | the body's position without a collider or with a centred one; offset by exactly `center * scale` under identity orientation; the rotated offset otherwise |
| PhysicsObjects.PhysicsObject.ClearCollisions | src/physics/PhysicsObject.cpp:267-273 | with a collider the pending list becomes empty; without one nothing changes |
| PhysicsObjects.PhysicsObject.RemoveMarked | src/physics/PhysicsObject.cpp:69-77 | the backward erase loop leaves exactly the unmarked contacts, in order |
| PhysicsObjects.PhysicsObject.FilterPending | src/physics/PhysicsObject.cpp:36-77 | the three filter loops leave exactly `Filter` of the old pending list |
| PhysicsObjects.PhysicsObject.ResolveContact | src/physics/PhysicsObject.cpp:84-131 | one iteration of the resolution loop yields exactly `ResolveOne` of the old state |
| PhysicsObjects.PhysicsObject.Respond | src/physics/PhysicsObject.cpp:92-124 | the statements of the response produce the bounced velocity, the added normal force, the friction and the correction of the specification |
| PhysicsObjects.PhysicsObject.ResolvePending | src/physics/PhysicsObject.cpp:79-132 | the resolution loop yields exactly `ResolveAll` of the old state over the surviving contacts |
| PhysicsObjects.PhysicsObject.Update | src/physics/PhysicsObject.cpp:31-167 | the new state and the hard-collision report are exactly `Step` of the old state and contacts; the pending list is empty afterwards |
| PhysicsObjects.PhysicsObject.ApplyForces | src/physics/PhysicsObject.cpp:139-166 | the tail of the tick yields exactly `Integrate` of the old state |
| PhysicsObjects.PhysicsObject.Move | src/physics/PhysicsObject.cpp:152-163 | each axis moves by `velocity * dt` only past the deadzone |
| PhysicsObjects.KeepUnmarkedPrefix | src/physics/PhysicsObject.cpp:69-77 | when the walk has used every mark, the untouched prefix plus the kept suffix is the whole filtered list |
| App.Next | src/main.cpp:356-390 | the last scene stays put; every other scene moves exactly one place on |
| App.RankInjective | src/main.cpp:115 | no two scenes share a place in the sequence |
| App.AfterRank | src/main.cpp:356-390 | after `k` calls the scene has moved `k` places, stopping at the last |
| App.ReachesAll | src/main.cpp:356-390 | from any scene the last scene is reached after exactly `7 - rank` calls (at most 7) and not earlier |
| App.RowIsPartnersInOrder | src/main.cpp:442-444 | row `i` of the pair loop checks `i+1, i+2, …` in turn, once each |
| App.RowsArePairsInOrder | src/main.cpp:441-445 | the pair loop checks exactly the pairs `a < b`, with the lower index as initiator, in strictly increasing lexicographic order |
| App.EachPairOnce | src/main.cpp:441-445 | no pair is checked twice in a tick |
| App.UpdatesInOrder | src/main.cpp:446-448 | the update loop updates body `m` as its `m`-th call, each body exactly once |
| App.ChecksBeforeUpdates | src/main.cpp:441-448 | in the call trace of a tick every check precedes every update |
| App.Partners | src/main.cpp:446-448 | every body of the list is in the map, showing its present state to the others' ticks |
| App.Positions | src/main.cpp:441-448 | the map gives the place of every body in the list, and nothing else |
| App.DetectedForward | src/main.cpp:441-445 | the contacts handed to body `k` name only bodies after it in the list |
| App.AppendReady | src/main.cpp:264-283 | appending new bodies with colliders, no contacts, non-negative inverse mass and immovable ones at rest keeps the list ready for ticks |
| App.ReadyIsSettled | src/main.cpp:440-449 | the facts a tick relies on hold for a ready list |
| App.SettledResolvable | src/main.cpp:446-448 | no contact of a settled tick divides by zero |
| App.ProgressReady | src/main.cpp:446-448 | after every update of a settled tick the list is ready for the next one |
| App.UpdateBody | src/main.cpp:447 | one body's update inside the tick yields exactly `Step` against the bodies after it as they are |
| App.UpdateNth | src/main.cpp:446-448 | updating body `k` moves the loop on: bodies before it have run `Step`, later ones are untouched |
| App.UpdateLoop | src/main.cpp:446-448 | the loop updates every body once in list order, each by `Step` against the tick's starting world, writing only the fields a tick writes |
| App.WithdrawnIsProduct | src/main.cpp:869-871 | `ticks` withdrawals of `dt` take exactly `ticks * dt` |
| App.EnoughSteps | src/main.cpp:869-871 | some whole number of steps covers any balance, so the loop ends |
| App.TicksAreFloor | src/main.cpp:868-872 | a balance of `ticks` steps plus less than one step holds exactly `floor(balance / dt)` steps |
| App.NewBody | src/main.cpp:267-281 | a new body at the given place with the given collider, identity orientation and unit scale, at rest, with zero force, normal force, impulse and acceleration, massless, with elasticity 0.5 and friction 0.25, solid, not ignoring collisions and with no contacts |
| App.SceneObjects | src/main.cpp:264-283 | the three new scene bodies: a ball of mass 5, a massless ball and a massless cube, the balls unturned and the cube turned by the given rotation, all at unit scale, at rest, with zero force, impulse and acceleration, elasticity 0.5 and friction 0.25, solid, colliding and with no contacts, in that order |
| App.Application.constructor | src/main.cpp:93-116 | the application starts at the opening scene with no bodies, ready for ticks |
| App.Application.InitPhysicsObjects | src/main.cpp:264-283 | appends the three scene bodies in order, each fully set up as `SceneObjects` states (so the first tick starts from zero accumulators and colliding bodies), keeps the earlier bodies, and keeps the list ready for ticks |
| App.Application.NextScene | src/main.cpp:356-390 | the scene becomes `Next` of the old one |
| App.Application.CheckRow | src/main.cpp:442-444 | body `i` checks bodies `i+1 …` in order; only its own pending list changes |
| App.Application.CheckPairs | src/main.cpp:441-445 | the pair loop's calls are exactly the ordered pairs `i < j`, and each body holds the contacts it initiated, partner by partner |
| App.Application.UpdateAll | src/main.cpp:446-448 | each body in turn runs exactly `Step` over its contacts against the state the tick began with; every tick is divide-safe; the list stays ready; only position, velocity, forces, impulse, acceleration and pending contacts may change |
| App.Application.BeginTick | src/main.cpp:441-445 | detection leaves each body's state unchanged and its pending list holding the contacts it initiated |
| App.Application.UpdatePhysics | src/main.cpp:440-449 | one tick checks every pair once, then updates every body once; each body's new state and hard-collision report are exactly `Step` of its state before the tick, over its contacts, against all bodies as they were before the tick; the list stays ready; orientation, scale, speed, mass and the other fields a tick does not write stay as they were |
| App.Application.RunFixedSteps | src/main.cpp:868-872 | the remainder is the balance minus `ticks * dt` and below one step; for a non-negative balance it runs exactly `floor(balance / dt)` ticks and leaves `0 <= rest < dt`; no field outside a tick's frame changes |

## Left out

- Floating point: all quantities are exact reals. The NaN guard on the friction force (src/physics/PhysicsObject.cpp:111) is not modelled; friction is always added when the tangent has length. Rounding and `1.0f / mass` single precision are not modelled.
- The unsigned counter of the erase loop (src/physics/PhysicsObject.cpp:69) never wraps in the model: the loop stops once every mark is used, before the counter could pass 0.
- Shape detection (`ColliderSphere`, `ColliderMesh`, `Collider::checkCollision`) is not part of this model. What a pair's test reports is the parameter `detect(i, j)`. The contacts are added to the initiator's pending list only.
- `length`, `normalize` and `intersectRayPlane` are uninterpreted; no property of them is needed, so none is assumed. A ray that misses the plane gives an arbitrary distance, as glm leaves `d` unset.
- `Vectors.Proj` answers the zero vector for a zero normal, where glm divides zero by zero.
- `PhysicsObjects.PhysicsObject.GetCenterPos`: the rotated branch (`mat4_cast`) is the parameter `rotate`. `PhysicsObjects.PhysicsObject.GetRadius`: the collider's radius under scale is the parameter `radiusUnderScale`.
- The delegating constructors (src/physics/PhysicsObject.cpp:8, 10) only supply identity orientation and unit scale; they are not separate members. The mesh collider made from the model is represented by its bounding sphere `meshBox`.
- `onHardCollision` has an empty body; the tick returns the report (`hard`) instead of calling it.
- `solid` and `ignoreCollision` are constant fields: nothing in the modelled code assigns them after the constructor, which sets them to true and false, so every modelled body is solid and takes part in collisions. The non-solid and ignoring branches of `checkCollision` and the resolution loop are still modelled and stated, through `CanCollide` and `Approaching`.
- `start`, `lateUpdate`, `physicsUpdate` and `latePhysicsUpdate` are empty and not modelled. `inRange` (src/physics/PhysicsObject.cpp:3-6) is unused by the core. The `speed` field is only initialised.
- `App.Application.UpdatePhysics` requires the list to be `Ready`, which is more than the source checks. It requires distinct bodies, each with a collider and no contacts between ticks, and no negative inverse mass. It also requires solid immovable bodies to move alike. Without these the source may divide by zero (src/physics/PhysicsObject.cpp:93, 122) when two immovable bodies approach each other.
- `App.Application.RunFixedSteps` states only that the list stays ready across ticks, not the bodies' states after several ticks (each tick is stated by `UpdatePhysics`).
- The accumulator and `Time.physicsDeltaTime` are reals; the frame's elapsed time, measured with `chrono`, is a parameter.
- `nextScene`'s scene set-up calls (`setupMilesScene` …), `setCulling`, the collider radius from the sphere's size, `findEdges`, rendering, OpenGL, shaders, splines and model loading are not modelled.
- The cube's turn `rotate(quat(1, 0, 0, 0), 45.0f, vec3(0, 1, 0))` (src/main.cpp:282; glm reads the angle in radians, so this is 45 radians about the y axis) is the parameter `cubeTurn`.
