/**
 * `PhysicsObject` (src/physics/PhysicsObject.cpp): a rigid body whose
 * fields the setters and the per-tick `update` change in place. The
 * collider's pending-collision list is kept on the body, since each body
 * owns its collider.
 */
module PhysicsObjects {
  import opened Vectors
  import opened Options
  import opened Collisions
  import opened Dynamics

  /** An orientation quaternion `(w, x, y, z)`. */
  datatype Quat = Quat(w: real, x: real, y: real, z: real)

  /** `quat(1, 0, 0, 0)`, no rotation. */
  function Identity(): Quat { Quat(1.0, 0.0, 0.0, 0.0) }

  /** `vec3(1)`, the unit scale. */
  function Unit(): Vec3 { Vec3(1.0, 1.0, 1.0) }

  /** A collider's bounding sphere: its centre in model space and its radius. */
  datatype BoundingBox = BoundingBox(center: Vec3, radius: real)

  /** A sphere collider of a given radius, or a collider over the body's mesh. */
  datatype ColliderKind = SphereCollider(radius: real) | MeshCollider

  datatype Collider = Collider(kind: ColliderKind, bbox: BoundingBox)

  /**
   * The inverse mass `setMass` stores: `1 / mass`, and 0 for a massless
   * body, which impulses and corrections never move.
   */
  function InverseMass(mass: real): (w: real)
    ensures w == 0.0 <==> mass == 0.0
    ensures mass != 0.0 ==> w * mass == 1.0
    ensures w > 0.0 <==> mass > 0.0
  {
    if mass == 0.0 then 0.0 else 1.0 / mass
  }

  /** The contacts one shape test found against `other`, as pending collisions. */
  function Tagged(other: PhysicsObject, found: seq<Contact>): (cs: seq<Collision<PhysicsObject>>)
    ensures |cs| == |found|
    ensures forall k :: 0 <= k < |cs| ==> cs[k].other == other && cs[k].contact == found[k]
  {
    seq(|found|, k requires 0 <= k < |found| => Collision(other, found[k]))
  }

  /** The other bodies the contacts name. */
  function Others(cs: seq<Collision<PhysicsObject>>): set<PhysicsObject>
  {
    set c | c in cs :: c.other
  }

  /** `view` holds the present state of every other body the contacts name. */
  predicate Sees(cs: seq<Collision<PhysicsObject>>, view: map<PhysicsObject, Partner>)
    reads Others(cs)`velocity, Others(cs)`elasticity, Others(cs)`invMass
  {
    forall c :: c in cs ==> c.other in view && view[c.other] == c.other.AsPartner()
  }

  class PhysicsObject {
    var position: Vec3
    var orientation: Quat
    var scale: Vec3
    var velocity: Vec3
    var netForce: Vec3
    var normForce: Vec3
    var impulse: Vec3
    var acceleration: Vec3
    var mass: real
    var invMass: real
    var friction: real
    var elasticity: real
    var speed: real
    const solid: bool
    const ignoreCollision: bool
    const collider: Option<Collider>
    /** The collider's `pendingCollisions`: contacts found this tick. */
    var pending: seq<Collision<PhysicsObject>>

    /** The fields a tick reads and writes, as a value. */
    function State(): Body
      reads this`position, this`velocity, this`netForce, this`normForce, this`impulse
      reads this`acceleration, this`mass, this`invMass, this`friction, this`elasticity
    {
      Body(position, velocity, netForce, normForce, impulse, acceleration,
           mass, invMass, friction, elasticity, solid)
    }

    /** What another body's tick reads of this one. */
    function AsPartner(): Partner
      reads this`velocity, this`elasticity, this`invMass
    {
      Partner(solid, velocity, elasticity, invMass)
    }

    /**
     * A body at rest with the given transform: no mass (immovable until
     * `setMass`), no forces, solid, colliding, and a mesh collider over its
     * model (whose bounding sphere is `meshBox`) when none is given.
     */
    constructor(position: Vec3, orientation: Quat, scale: Vec3, collider: Option<Collider>, meshBox: BoundingBox)
      ensures this.position == position && this.orientation == orientation && this.scale == scale
      ensures this.collider == if collider.Some? then collider else Some(Collider(MeshCollider, meshBox))
      ensures netForce == Zero() && impulse == Zero() && acceleration == Zero()
      ensures velocity == Zero() && normForce == Zero()
      ensures mass == 0.0 && invMass == 0.0 && friction == 0.0 && elasticity == 0.0 && speed == 0.0
      ensures solid && !ignoreCollision
      ensures pending == []
    {
      this.position := position;
      this.orientation := orientation;
      this.scale := scale;
      this.collider := if collider.Some? then collider else Some(Collider(MeshCollider, meshBox));
      netForce := Zero();
      impulse := Zero();
      acceleration := Zero();
      velocity := Zero();
      mass := 0.0;
      invMass := 0.0;
      normForce := Zero();
      friction := 0.0;
      elasticity := 0.0;
      speed := 0.0;
      ignoreCollision := false;
      solid := true;
      pending := [];
    }

    method SetMass(mass: real)
      modifies this`mass, this`invMass
      ensures this.mass == mass && invMass == InverseMass(mass)
    {
      this.mass := mass;
      if mass == 0.0 {
        invMass := 0.0;
      } else {
        invMass := 1.0 / mass;
      }
    }

    method SetFriction(friction: real)
      modifies this`friction
      ensures this.friction == friction
    {
      this.friction := friction;
    }

    method SetElasticity(elasticity: real)
      modifies this`elasticity
      ensures this.elasticity == elasticity
    {
      this.elasticity := elasticity;
    }

    method SetVelocity(velocity: Vec3)
      modifies this`velocity
      ensures this.velocity == velocity
    {
      this.velocity := velocity;
    }

    method GetVelocity() returns (v: Vec3)
      ensures v == velocity
    {
      v := velocity;
    }

    /** Adds to the impulse the next tick applies; nothing else changes. */
    method ApplyImpulse(j: Vec3)
      modifies this`impulse
      ensures impulse == Add(old(impulse), j)
    {
      impulse := Add(impulse, j);
    }

    /** Shape tests run only between two bodies with colliders, neither exempt. */
    predicate CanCollide(other: PhysicsObject)
    {
      other.collider.Some? && collider.Some? && !other.ignoreCollision && !ignoreCollision
    }

    /**
     * Pair detection with this body as the initiator. The shape test itself
     * is not part of this model: `found` is what it reports, and only this
     * body's pending list receives the contacts.
     */
    method CheckCollision(other: PhysicsObject, found: seq<Contact>)
      modifies this`pending
      ensures CanCollide(other) ==> pending == old(pending) + Tagged(other, found)
      ensures !CanCollide(other) ==> pending == old(pending)
    {
      if other.collider.Some? && collider.Some? && !other.ignoreCollision && !ignoreCollision {
        pending := pending + Tagged(other, found);
      }
    }

    /**
     * The radius of the collider's bounding sphere under the body's scale:
     * 0 without a collider, the stored radius at unit scale, and otherwise
     * what the collider computes for the scale (`radiusUnderScale`).
     */
    function GetRadius(radiusUnderScale: (Collider, Vec3) -> real): (r: real)
      reads this
      ensures collider.None? ==> r == 0.0
      ensures collider.Some? && scale == Unit() ==> r == collider.value.bbox.radius
      ensures collider.Some? && scale != Unit() ==> r == radiusUnderScale(collider.value, scale)
    {
      if collider.None? then 0.0
      else if scale == Unit() then collider.value.bbox.radius
      else radiusUnderScale(collider.value, scale)
    }

    /**
     * The world position of the collider's centre: the body's position when
     * there is no collider or the centre is the origin, the scaled centre
     * offset from it without rotation, and the offset turned by the
     * orientation (`rotate`) otherwise.
     */
    function GetCenterPos(rotate: (Quat, Vec3) -> Vec3): (p: Vec3)
      reads this
      ensures collider.None? || collider.value.bbox.center == Zero() ==> p == position
      ensures collider.Some? && orientation == Identity() ==> Sub(p, position) == Mul(collider.value.bbox.center, scale)
      ensures collider.Some? && collider.value.bbox.center != Zero() && orientation != Identity()
              ==> p == Add(position, rotate(orientation, Mul(collider.value.bbox.center, scale)))
    {
      if collider.None? || collider.value.bbox.center == Zero() then position
      else if orientation == Identity() then Add(position, Mul(collider.value.bbox.center, scale))
      else Add(position, rotate(orientation, Mul(collider.value.bbox.center, scale)))
    }

    method ClearCollisions()
      modifies this`pending
      ensures collider.Some? ==> pending == []
      ensures collider.None? ==> pending == old(pending)
    {
      if collider.Some? {
        pending := [];
      }
    }

    /**
     * Erases the marked contacts in place, walking the list from the back
     * and stopping once every mark is used; the others keep their order.
     */
    method RemoveMarked(rm: set<nat>)
      requires forall k :: k in rm ==> k < |pending|
      modifies this`pending
      ensures pending == Keep(old(pending), rm, 0)
    {
      ghost var cs := pending;
      var left := rm;
      var i: nat := |pending|;
      while left != {}
        invariant i <= |cs|
        invariant left == set k | k in rm && k < i
        invariant pending == cs[..i] + Keep(cs, rm, i)
        decreases i
      {
        ghost var k :| k in left;
        i := i - 1;
        if i in left {
          left := left - {i};
          EraseStep(cs, rm, i, pending);
          pending := pending[..i] + pending[i + 1..];
        } else {
          SkipStep(cs, rm, i);
        }
      }
      assert forall k :: k in rm && k < i ==> k in left;
      KeepUnmarkedPrefix(cs, rm, i);
    }

    /**
     * One pass of the resolution loop against `c` (PhysicsObject.cpp:84-131):
     * skip unless both bodies are solid and approach along the normal,
     * respond, and keep the first hardest impact.
     */
    method ResolveContact(env: Env, c: Collision<PhysicsObject>, maxImpact: real, hit: Option<Collision<PhysicsObject>>)
      returns (maxImpact': real, hit': Option<Collision<PhysicsObject>>)
      requires c.other != this
      requires Divisible(State(), c, c.other.AsPartner())
      modifies this`velocity, this`normForce, this`netForce, this`position
      ensures Resolution(State(), maxImpact', hit')
           == ResolveOne(env, Resolution(old(State()), maxImpact, hit), c, c.other.AsPartner())
    {
      var other := c.other;
      maxImpact', hit' := maxImpact, hit;
      if !solid || !other.solid {
        return;
      }
      var relVel := Sub(other.velocity, velocity);
      var velAlongNormal := Dot(relVel, c.contact.normal);
      if velAlongNormal < 0.0 {
        Respond(env, c, relVel);
        if Abs(velAlongNormal) > maxImpact' {
          maxImpact' := Abs(velAlongNormal);
          hit' := Some(c);
        }
      }
    }

    /**
     * The response to an approaching contact (PhysicsObject.cpp:92-124):
     * the impulse, the normal force, friction and positional correction,
     * statement by statement.
     */
    method Respond(env: Env, c: Collision<PhysicsObject>, relVel: Vec3)
      requires c.other != this
      requires invMass + c.other.invMass != 0.0
      requires relVel == Sub(c.other.velocity, velocity)
      modifies this`velocity, this`normForce, this`netForce, this`position
      ensures var b, p, n := old(State()), c.other.AsPartner(), c.contact.normal;
        State() == b.(velocity := Bounced(b, c, p),
                      normForce := Add(b.normForce, ContactNormalForce(b, n)),
                      netForce := WithFriction(env, b, n, p),
                      position := Corrected(b, c, p))
    {
      ghost var b, p := State(), c.other.AsPartner();
      var other := c.other;
      assert b.velocity == velocity && b.invMass == invMass && b.elasticity == elasticity;
      assert p.velocity == other.velocity && p.invMass == other.invMass && p.elasticity == other.elasticity;
      var n := c.contact.normal;
      var velAlongNormal := Dot(relVel, n);
      assert velAlongNormal == NormalSpeed(b, c, p);
      var e := Min(other.elasticity, elasticity);
      assert e == Restitution(b, p);
      var j := Impulse(e, velAlongNormal, invMass + other.invMass);
      assert j == ImpulseMagnitude(b, c, p);
      var colImpulse := Scale(j, n);
      velocity := Sub(velocity, Scale(invMass, colImpulse));
      assert velocity == Bounced(b, c, p);
      var localNormForce := Scale(Dot(netForce, Neg(n)), n);
      assert localNormForce == ContactNormalForce(b, n);
      normForce := Add(normForce, localNormForce);
      var frictionDir := Sub(relVel, Proj(relVel, n));
      ghost var tangent := frictionDir;
      assert tangent == Tangent(b, n, p);
      var frictionLen := env.glm.length(frictionDir);
      if frictionLen > 0.0 {
        if frictionLen > FrictionEpsilon {
          frictionDir := env.glm.normalize(frictionDir);
        }
        assert frictionDir == FrictionDirection(env, tangent);
        var frictionForce := Scale(FrictionMagnitude(env.glm.length(localNormForce), friction), frictionDir);
        netForce := Add(netForce, frictionForce);
      }
      assert netForce == WithFriction(env, b, n, p);
      if other.invMass == 0.0 {
        var correction := Scale(Max(c.contact.penetration - Slop, 0.0) / (invMass + other.invMass) * CorrectionPercent, Neg(n));
        assert correction == Scale(CorrectionDepth(b, c, p), Neg(n));
        position := Add(position, Scale(invMass, correction));
      }
      assert position == Corrected(b, c, p);
    }

    /**
     * The resolution loop over the surviving contacts (PhysicsObject.cpp:79-132),
     * starting from `maxImpact = -1` and no collision.
     */
    method ResolvePending(env: Env, ghost view: map<PhysicsObject, Partner>)
      returns (maxImpact: real, hit: Option<Collision<PhysicsObject>>)
      requires forall c :: c in pending ==> c.other != this
      requires Sees(pending, view)
      requires SafeToResolve(env, Resolution(State(), -1.0, None), pending, view)
      modifies this`velocity, this`normForce, this`netForce, this`position
      ensures Resolution(State(), maxImpact, hit)
           == ResolveAll(env, Resolution(old(State()), -1.0, None), pending, view)
    {
      ghost var r0 := Resolution(State(), -1.0, None);
      maxImpact, hit := -1.0, None;
      var cs := pending;
      var i := 0;
      while i < |cs|
        invariant i <= |cs|
        invariant Sees(cs, view)
        invariant AllKnown(cs[..i], view) && SafeToResolve(env, r0, cs[..i], view)
        invariant Resolution(State(), maxImpact, hit) == ResolveAll(env, r0, cs[..i], view)
      {
        ResolveAllNext(env, r0, cs, view, i);
        maxImpact, hit := ResolveContact(env, cs[i], maxImpact, hit);
        i := i + 1;
      }
      assert cs[..i] == cs;
    }

    /**
     * One fixed tick (PhysicsObject.cpp:31-167): gravity, filtering,
     * resolution, the hard-collision report (returned rather than passed to
     * the empty `onHardCollision`), clearing the contacts, then integration.
     * The new state is exactly `Step` of the old one.
     */
    method Update(env: Env, ghost view: map<PhysicsObject, Partner>) returns (hard: Option<Hit<PhysicsObject>>)
      requires collider.Some?
      requires forall c :: c in pending ==> c.other != this
      requires Sees(pending, view) && Resolvable(env, State(), pending, view)
      modifies this`position, this`velocity, this`netForce, this`normForce
      modifies this`impulse, this`acceleration, this`pending
      ensures State() == Step(env, old(State()), old(pending), view).body
      ensures hard == Step(env, old(State()), old(pending), view).hard
      ensures pending == []
    {
      ghost var b0, cs0 := State(), pending;
      normForce := Zero();
      netForce := netForce.(y := netForce.y + env.gravity * mass);
      assert Start<PhysicsObject>(env, b0) == Resolution(State(), -1.0, None);

      FilterPending(env.glm);
      FilterSubset(env.glm, cs0);

      var maxImpact, hit := ResolvePending(env, view);
      ghost var res := ResolveAll(env, Start(env, b0), Filter(env.glm, cs0), view);
      assert Resolution(State(), maxImpact, hit) == res;
      if maxImpact > 0.0 {
        hard := Some(Hit(maxImpact, hit.value));
      } else {
        hard := None;
      }
      ghost var b2 := State();
      assert collider.Some?;
      ClearCollisions();
      assert State() == b2 && pending == [];
      ApplyForces(env);
      assert State() == Integrate(env, res.body);
    }

    /**
     * The contact filter (PhysicsObject.cpp:36-77): partition by geometry,
     * mark the non-face contacts a face contact of another body suppresses,
     * and erase them.
     */
    method FilterPending(g: Glm)
      modifies this`pending
      ensures pending == Filter(g, old(pending))
    {
      var faces, nonFaces := PartitionByGeom(pending);
      var rm := MarkSuppressed(g, pending, faces, nonFaces);
      RemoveMarked(rm);
    }

    /**
     * The tail of the tick (PhysicsObject.cpp:139-166): normal force,
     * impulse, drag, then semi-implicit Euler with the per-axis deadzone,
     * and the accumulators reset.
     */
    method ApplyForces(env: Env)
      modifies this`position, this`velocity, this`netForce, this`impulse, this`acceleration
      ensures State() == Integrate(env, old(State()))
    {
      ghost var b1 := State();
      netForce := Add(netForce, normForce);
      velocity := Add(velocity, Scale(invMass, impulse));
      ghost var v := velocity;
      assert v == Add(b1.velocity, Scale(b1.invMass, b1.impulse));
      if velocity != Zero() {
        netForce := Add(netForce, Scale(env.drag, Scale(Dot(velocity, velocity), Neg(env.glm.normalize(velocity)))));
      }
      assert netForce == WithDrag(env, Add(b1.netForce, b1.normForce), v);
      acceleration := Scale(invMass, netForce);
      velocity := Add(velocity, Scale(env.dt, acceleration));
      assert acceleration == Scale(b1.invMass, WithDrag(env, Add(b1.netForce, b1.normForce), v));
      assert velocity == Add(v, Scale(env.dt, acceleration));
      Move(env.dt);
      impulse := Zero();
      netForce := Zero();
    }

    /**
     * The position update (PhysicsObject.cpp:152-163): each axis moves by
     * `velocity * dt` only when that velocity component exceeds the deadzone.
     */
    method Move(dt: real)
      modifies this`position
      ensures position == Moved(old(position), velocity, dt)
    {
      if Abs(velocity.x) > Deadzone {
        position := position.(x := position.x + velocity.x * dt);
      }
      if Abs(velocity.y) > Deadzone {
        position := position.(y := position.y + velocity.y * dt);
      }
      if Abs(velocity.z) > Deadzone {
        position := position.(z := position.z + velocity.z * dt);
      }
    }
  }

  /** Erasing the marked element `i` extends the kept suffix down to `i`. */
  lemma EraseStep(cs: seq<Collision<PhysicsObject>>, rm: set<nat>, i: nat, pending: seq<Collision<PhysicsObject>>)
    requires i < |cs| && i in rm
    requires pending == cs[..i + 1] + Keep(cs, rm, i + 1)
    ensures pending[..i] + pending[i + 1..] == cs[..i] + Keep(cs, rm, i)
  {
    assert Keep(cs, rm, i) == [] + Keep(cs, rm, i + 1);
    assert pending[..i] == cs[..i + 1][..i] == cs[..i];
    assert pending[i + 1..] == Keep(cs, rm, i + 1);
  }

  /** An unmarked element `i` moves from the untouched prefix into the kept suffix. */
  lemma SkipStep(cs: seq<Collision<PhysicsObject>>, rm: set<nat>, i: nat)
    requires i < |cs| && i !in rm
    ensures cs[..i + 1] + Keep(cs, rm, i + 1) == cs[..i] + Keep(cs, rm, i)
  {
    assert cs[..i + 1] == cs[..i] + [cs[i]];
  }

  /** Without marks below `i`, keeping from 0 keeps the whole prefix before `i`. */
  lemma {:induction false} KeepUnmarkedPrefix(cs: seq<Collision<PhysicsObject>>, rm: set<nat>, i: nat)
    requires i <= |cs|
    requires forall k :: k in rm ==> i <= k
    ensures Keep(cs, rm, 0) == cs[..i] + Keep(cs, rm, i)
  {
    KeepFrom(cs, rm, 0, i);
  }

  lemma {:induction false} KeepFrom(cs: seq<Collision<PhysicsObject>>, rm: set<nat>, from: nat, i: nat)
    requires from <= i <= |cs|
    requires forall k :: k in rm ==> i <= k
    ensures Keep(cs, rm, from) == cs[from..i] + Keep(cs, rm, i)
    decreases i - from
  {
    if from < i {
      KeepFrom(cs, rm, from + 1, i);
      assert from !in rm;
      assert Keep(cs, rm, from) == [cs[from]] + Keep(cs, rm, from + 1);
      assert cs[from..i] == [cs[from]] + cs[from + 1..i];
    }
  }
}
