/**
 * One fixed tick of `PhysicsObject::update` (PhysicsObject.cpp:31-167) as a
 * function on values: the fields of the body the tick reads and writes, the
 * pending collisions, and what the tick reads of each other body.
 * The class `PhysicsObject` runs the same tick step by step and is proved
 * to produce exactly `Step`.
 */
module Dynamics {
  import opened Vectors
  import opened Options
  import opened Collisions

  /**
   * What a tick reads besides the body: `GRAVITY` and `DRAG_COEFFICIENT`
   * (process-wide constants), `Time.physicsDeltaTime`, and the glm helpers.
   */
  datatype Env = Env(gravity: real, drag: real, dt: real, glm: Glm)

  /** Allowed penetration before positional correction (`slop`). */
  const Slop: real := 0.01
  /** Share of the remaining penetration corrected per tick (`percent`). */
  const CorrectionPercent: real := 0.2
  /** Friction directions longer than this are normalised. */
  const FrictionEpsilon: real := 0.1
  /** A position axis moves only when its velocity component exceeds this. */
  const Deadzone: real := 0.01

  /** The fields of a `PhysicsObject` that a tick reads or writes. */
  datatype Body = Body(
    position: Vec3,
    velocity: Vec3,
    netForce: Vec3,
    normForce: Vec3,
    impulse: Vec3,
    acceleration: Vec3,
    mass: real,
    invMass: real,
    friction: real,
    elasticity: real,
    solid: bool)

  /** What resolving a contact reads of the other body. */
  datatype Partner = Partner(solid: bool, velocity: Vec3, elasticity: real, invMass: real)

  /**
   * The state of the resolution loop: the body, `maxImpact` and
   * `maxImpactCollision` (absent until a contact sets it).
   */
  datatype Resolution<O> = Resolution(body: Body, maxImpact: real, hit: Option<Collision<O>>)

  /** The arguments of `onHardCollision(impactVel, collision)`. */
  datatype Hit<O> = Hit(impact: real, collision: Collision<O>)

  /** The body after a tick, and the hard-collision report if it fired. */
  datatype StepResult<O> = StepResult(body: Body, hard: Option<Hit<O>>)

  /** The fields no part of a tick writes. */
  predicate SameInertia(a: Body, b: Body)
  {
    a.mass == b.mass && a.invMass == b.invMass && a.friction == b.friction
    && a.elasticity == b.elasticity && a.solid == b.solid
  }

  /** `velAlongNormal`: the other body's velocity relative to this one, along the normal. */
  function NormalSpeed<O>(b: Body, c: Collision<O>, p: Partner): real
  {
    Dot(Sub(p.velocity, b.velocity), c.contact.normal)
  }

  /** Both bodies are solid and they approach along the normal: the contact is resolved. */
  predicate Approaching<O>(b: Body, c: Collision<O>, p: Partner)
  {
    b.solid && p.solid && NormalSpeed(b, c, p) < 0.0
  }

  /** The impulse of a resolved contact divides by the sum of the inverse masses. */
  predicate Divisible<O>(b: Body, c: Collision<O>, p: Partner)
  {
    Approaching(b, c, p) ==> b.invMass + p.invMass != 0.0
  }

  /** The restitution of a contact: the smaller of the two elasticities. */
  function Restitution(b: Body, p: Partner): real
  {
    Min(p.elasticity, b.elasticity)
  }

  /** `j`, the magnitude of the impulse that resolves an approaching contact. */
  function ImpulseMagnitude<O>(b: Body, c: Collision<O>, p: Partner): real
    requires b.invMass + p.invMass != 0.0
  {
    Impulse(Restitution(b, p), NormalSpeed(b, c, p), b.invMass + p.invMass)
  }

  /** `-(1 + e) * velAlongNormal / (invMass + other.invMass)`. */
  function Impulse(e: real, velAlongNormal: real, invMassSum: real): real
    requires invMassSum != 0.0
  {
    (-(1.0 + e) * velAlongNormal) / invMassSum
  }

  /**
   * How far a contact against an immovable body pushes the body back, per
   * unit of inverse mass: the penetration beyond the slop, times the
   * correction percentage, over the sum of inverse masses.
   */
  function CorrectionDepth<O>(b: Body, c: Collision<O>, p: Partner): real
    requires b.invMass + p.invMass != 0.0
  {
    Max(c.contact.penetration - Slop, 0.0) / (b.invMass + p.invMass) * CorrectionPercent
  }

  /**
   * One iteration of the resolution loop (PhysicsObject.cpp:84-131):
   * impulse along the normal with restitution `min` of the two elasticities,
   * normal force, friction, positional correction against an immovable
   * body, and the running maximum impact.
   */
  function ResolveOne<O>(env: Env, r: Resolution<O>, c: Collision<O>, p: Partner): (r': Resolution<O>)
    requires Divisible(r.body, c, p)
    ensures !Approaching(r.body, c, p) ==> r' == r
    ensures SameInertia(r'.body, r.body)
    ensures r'.body.impulse == r.body.impulse && r'.body.acceleration == r.body.acceleration
    ensures r.body.invMass == 0.0 ==> r'.body.velocity == r.body.velocity && r'.body.position == r.body.position
    ensures p.invMass != 0.0 ==> r'.body.position == r.body.position
    ensures r'.maxImpact >= r.maxImpact
    ensures r'.maxImpact != r.maxImpact ==> r'.hit.Some?
    ensures r'.maxImpact == r.maxImpact ==> r'.hit == r.hit
  {
    var b := r.body;
    if !Approaching(b, c, p) then r
    else
      var impact := Abs(NormalSpeed(b, c, p));
      Resolution(
        b.(velocity := Bounced(b, c, p),
           normForce := Add(b.normForce, ContactNormalForce(b, c.contact.normal)),
           netForce := WithFriction(env, b, c.contact.normal, p),
           position := Corrected(b, c, p)),
        if impact > r.maxImpact then impact else r.maxImpact,
        if impact > r.maxImpact then Some(c) else r.hit)
  }

  /** The velocity after the contact's impulse `j * normal`, scaled by the inverse mass. */
  function Bounced<O>(b: Body, c: Collision<O>, p: Partner): Vec3
    requires b.invMass + p.invMass != 0.0
  {
    Sub(b.velocity, Scale(b.invMass, Scale(ImpulseMagnitude(b, c, p), c.contact.normal)))
  }

  /** `localNormForce`: the part of the net force pressing into the contact, along the normal. */
  function ContactNormalForce(b: Body, n: Vec3): Vec3
  {
    Scale(Dot(b.netForce, Neg(n)), n)
  }

  /**
   * The net force with friction added: along the tangential relative
   * velocity (normalised when longer than 0.1), scaled by the friction
   * coefficient and the length of the contact's normal force; nothing when
   * the tangential relative velocity has no length.
   */
  function WithFriction(env: Env, b: Body, n: Vec3, p: Partner): Vec3
  {
    if env.glm.length(Tangent(b, n, p)) > 0.0 then
      Add(b.netForce, Scale(FrictionMagnitude(env.glm.length(ContactNormalForce(b, n)), b.friction), FrictionDirection(env, Tangent(b, n, p))))
    else b.netForce
  }

  /** The friction force's magnitude: the normal force's length times the friction coefficient. */
  function FrictionMagnitude(normalForceLength: real, friction: real): real
  {
    normalForceLength * friction
  }

  /**
   * Friction acts in the contact plane: when the tangent is short enough to
   * be used as it is (not normalised), the force friction adds is
   * orthogonal to the contact normal.
   */
  lemma FrictionIsTangential(env: Env, b: Body, n: Vec3, p: Partner)
    requires Dot(n, n) != 0.0 && env.glm.length(Tangent(b, n, p)) <= FrictionEpsilon
    ensures Dot(Sub(WithFriction(env, b, n, p), b.netForce), n) == 0.0
  {
    var t := Tangent(b, n, p);
    var relVel := Sub(p.velocity, b.velocity);
    assert Dot(t, n) == 0.0;
    if env.glm.length(t) > 0.0 {
      var mag := FrictionMagnitude(env.glm.length(ContactNormalForce(b, n)), b.friction);
      assert FrictionDirection(env, t) == t;
      assert Sub(WithFriction(env, b, n, p), b.netForce) == Scale(mag, t);
      DotScale(mag, t, n);
    } else {
      assert Sub(WithFriction(env, b, n, p), b.netForce) == Zero();
    }
  }

  /** A body without a friction coefficient gains no friction force. */
  lemma FrictionlessAddsNothing(env: Env, b: Body, n: Vec3, p: Partner)
    requires b.friction == 0.0
    ensures WithFriction(env, b, n, p) == b.netForce
  {
    if env.glm.length(Tangent(b, n, p)) > 0.0 {
      assert FrictionMagnitude(env.glm.length(ContactNormalForce(b, n)), b.friction) == 0.0;
    }
  }

  /** `frictionDir`: the relative velocity with its component along the normal removed. */
  function Tangent(b: Body, n: Vec3, p: Partner): Vec3
  {
    var relVel := Sub(p.velocity, b.velocity);
    Sub(relVel, Proj(relVel, n))
  }

  /** The tangent, normalised only when longer than 0.1. */
  function FrictionDirection(env: Env, t: Vec3): Vec3
  {
    if env.glm.length(t) > FrictionEpsilon then env.glm.normalize(t) else t
  }

  /** The position after positional correction, which happens only against an immovable body. */
  function Corrected<O>(b: Body, c: Collision<O>, p: Partner): Vec3
    requires b.invMass + p.invMass != 0.0
  {
    if p.invMass == 0.0 then
      Add(b.position, Scale(b.invMass, Scale(CorrectionDepth(b, c, p), Neg(c.contact.normal))))
    else b.position
  }

  /** Every other body named by a contact has a known state. */
  predicate AllKnown<O(==)>(cs: seq<Collision<O>>, view: map<O, Partner>)
  {
    forall c :: c in cs ==> c.other in view
  }

  /**
   * No resolved contact of the loop divides by zero. `update` divides
   * unguarded (PhysicsObject.cpp:93 and 122); two immovable solid bodies
   * approaching each other would give a non-finite velocity there.
   */
  predicate SafeToResolve<O(==)>(env: Env, r: Resolution<O>, cs: seq<Collision<O>>, view: map<O, Partner>)
    requires AllKnown(cs, view)
    decreases |cs|, 0
  {
    cs == [] ||
    (var last := cs[|cs| - 1];
     && SafeToResolve(env, r, cs[..|cs| - 1], view)
     && Divisible(ResolveAll(env, r, cs[..|cs| - 1], view).body, last, view[last.other]))
  }

  /** The resolution loop over the surviving contacts, in order (PhysicsObject.cpp:81-132). */
  function ResolveAll<O(==)>(env: Env, r: Resolution<O>, cs: seq<Collision<O>>, view: map<O, Partner>): (r': Resolution<O>)
    requires AllKnown(cs, view) && SafeToResolve(env, r, cs, view)
    ensures SameInertia(r'.body, r.body)
    ensures r'.body.impulse == r.body.impulse && r'.body.acceleration == r.body.acceleration
    ensures r.body.invMass == 0.0 ==> r'.body.velocity == r.body.velocity && r'.body.position == r.body.position
    ensures r'.maxImpact >= r.maxImpact
    ensures r'.maxImpact != r.maxImpact ==> r'.hit.Some?
    decreases |cs|, 1
  {
    if cs == [] then r
    else
      var last := cs[|cs| - 1];
      ResolveOne(env, ResolveAll(env, r, cs[..|cs| - 1], view), last, view[last.other])
  }

  /** The loop's state before the first contact: gravity added, normal force and maximum reset. */
  function Start<O>(env: Env, b: Body): Resolution<O>
  {
    Resolution(
      b.(normForce := Zero(), netForce := b.netForce.(y := b.netForce.y + env.gravity * b.mass)),
      -1.0, None)
  }

  /** The tick can run: every contact's other body is known and no resolution divides by zero. */
  predicate Resolvable<O(==)>(env: Env, b: Body, cs: seq<Collision<O>>, view: map<O, Partner>)
  {
    && AllKnown(cs, view)
    && (FilterSubset(env.glm, cs);
        SafeToResolve(env, Start(env, b), Filter(env.glm, cs), view))
  }

  /** Sets a position component by the deadzone rule (PhysicsObject.cpp:152-163). */
  function Advance(position: real, velocity: real, dt: real): (q: real)
    ensures q != position ==> Abs(velocity) > Deadzone
  {
    if Abs(velocity) > Deadzone then position + velocity * dt else position
  }

  /**
   * The tail of the tick (PhysicsObject.cpp:139-166): normal force, impulse
   * and drag, then semi-implicit Euler integration with a per-axis deadzone,
   * then the accumulators are reset.
   */
  function Integrate(env: Env, b: Body): (r: Body)
    ensures r.netForce == Zero() && r.impulse == Zero()
    ensures SameInertia(r, b) && r.normForce == b.normForce
    ensures b.invMass == 0.0 ==> r.velocity == b.velocity && r.acceleration == Zero()
    ensures r.position.x != b.position.x ==> Abs(r.velocity.x) > Deadzone
    ensures r.position.y != b.position.y ==> Abs(r.velocity.y) > Deadzone
    ensures r.position.z != b.position.z ==> Abs(r.velocity.z) > Deadzone
  {
    var v := Add(b.velocity, Scale(b.invMass, b.impulse));
    var a := Scale(b.invMass, WithDrag(env, Add(b.netForce, b.normForce), v));
    var v' := Add(v, Scale(env.dt, a));
    b.(acceleration := a, velocity := v', position := Moved(b.position, v', env.dt),
       impulse := Zero(), netForce := Zero())
  }

  /** The force with quadratic drag against a non-zero velocity added. */
  function WithDrag(env: Env, force: Vec3, v: Vec3): Vec3
  {
    if v != Zero() then Add(force, Scale(env.drag, Scale(Dot(v, v), Neg(env.glm.normalize(v)))))
    else force
  }

  /** The position after one step at velocity `v`, axis by axis with the deadzone. */
  function Moved(position: Vec3, v: Vec3, dt: real): Vec3
  {
    Vec3(Advance(position.x, v.x, dt), Advance(position.y, v.y, dt), Advance(position.z, v.z, dt))
  }

  /**
   * One whole tick of one body: gravity, filtering, resolution, the
   * hard-collision report, then integration.
   */
  function Step<O(==)>(env: Env, b: Body, cs: seq<Collision<O>>, view: map<O, Partner>): (r: StepResult<O>)
    requires Resolvable(env, b, cs, view)
    ensures r.body.netForce == Zero() && r.body.impulse == Zero()
    ensures SameInertia(r.body, b)
    ensures b.invMass == 0.0 ==> r.body.velocity == b.velocity
    ensures b.invMass == 0.0 && b.velocity == Zero() ==> r.body.position == b.position
    ensures r.hard.Some? ==> r.hard.value.impact > 0.0
  {
    FilterSubset(env.glm, cs);
    var res := ResolveAll(env, Start(env, b), Filter(env.glm, cs), view);
    var hard := if res.maxImpact > 0.0 then Some(Hit(res.maxImpact, res.hit.value)) else None;
    StepResult(Integrate(env, res.body), hard)
  }

  /**
   * Against an immovable body and with a unit normal, resolution reflects
   * the normal speed scaled by the restitution `min(elasticity,
   * other.elasticity)`: afterwards the bodies separate at `e` times the
   * speed at which they approached.
   */
  lemma RestitutionAgainstImmovable<O>(env: Env, r: Resolution<O>, c: Collision<O>, p: Partner)
    requires Approaching(r.body, c, p) && p.invMass == 0.0 && r.body.invMass != 0.0
    requires Dot(c.contact.normal, c.contact.normal) == 1.0
    ensures NormalSpeed(ResolveOne(env, r, c, p).body, c, p)
         == -Restitution(r.body, p) * NormalSpeed(r.body, c, p)
  {
    var b := r.body;
    var x := -(1.0 + Restitution(b, p)) * NormalSpeed(b, c, p);
    assert ImpulseMagnitude(b, c, p) == x / b.invMass;
    CancelDivision(b.invMass, x);
    BouncedNormalSpeed(b, c, p);
  }

  /**
   * Two bodies of equal mass, perfectly elastic: resolving the contact gives
   * this body the other body's velocity along a unit normal, the exchange of
   * normal velocities of a head-on elastic collision (this body's half).
   */
  lemma ElasticExchangeEqualMasses<O>(env: Env, r: Resolution<O>, c: Collision<O>, p: Partner)
    requires Approaching(r.body, c, p) && r.body.invMass == p.invMass && p.invMass != 0.0
    requires Restitution(r.body, p) == 1.0
    requires Dot(c.contact.normal, c.contact.normal) == 1.0
    ensures Dot(ResolveOne(env, r, c, p).body.velocity, c.contact.normal) == Dot(p.velocity, c.contact.normal)
  {
    var b, n := r.body, c.contact.normal;
    var x := -(1.0 + 1.0) * NormalSpeed(b, c, p);
    assert ImpulseMagnitude(b, c, p) == x / (b.invMass + b.invMass);
    ShareDivision(b.invMass, x);
    BouncedNormalSpeed(b, c, p);
    DotSub(p.velocity, Bounced(b, c, p), n);
  }

  /** After the impulse, the normal speed grows by the body's share `invMass * j`. */
  lemma BouncedNormalSpeed<O>(b: Body, c: Collision<O>, p: Partner)
    requires b.invMass + p.invMass != 0.0
    requires Dot(c.contact.normal, c.contact.normal) == 1.0
    ensures NormalSpeed(b.(velocity := Bounced(b, c, p)), c, p)
         == NormalSpeed(b, c, p) + b.invMass * ImpulseMagnitude(b, c, p)
  {
    ImpulseAlongNormal(p.velocity, b.velocity, c.contact.normal, b.invMass, ImpulseMagnitude(b, c, p));
  }

  /** Taking `w * j * n` off a velocity raises the relative speed along a unit `n` by `w * j`. */
  lemma ImpulseAlongNormal(pv: Vec3, bv: Vec3, n: Vec3, w: real, j: real)
    requires Dot(n, n) == 1.0
    ensures Dot(Sub(pv, Sub(bv, Scale(w, Scale(j, n)))), n) == Dot(Sub(pv, bv), n) + w * j
  {
    DotSub(pv, Sub(bv, Scale(w, Scale(j, n))), n);
    DotSub(bv, Scale(w, Scale(j, n)), n);
    DotScale(w, Scale(j, n), n);
    DotScale(j, n, n);
    DotSub(pv, bv, n);
  }

  lemma CancelDivision(w: real, x: real)
    requires w != 0.0
    ensures w * (x / w) == x
  {
  }

  lemma ShareDivision(w: real, x: real)
    requires w != 0.0
    ensures w * (x / (w + w)) == x / 2.0
  {
  }

  /**
   * Positional correction against an immovable body moves this body along
   * `-normal` by 20% of the penetration beyond the 0.01 slop, whatever its
   * mass: the body's own inverse mass cancels against the sum of inverse masses.
   */
  lemma CorrectionAgainstImmovable<O>(env: Env, r: Resolution<O>, c: Collision<O>, p: Partner)
    requires Approaching(r.body, c, p) && p.invMass == 0.0 && r.body.invMass != 0.0
    ensures ResolveOne(env, r, c, p).body.position
         == Add(r.body.position, Scale(CorrectionPercent * Max(c.contact.penetration - Slop, 0.0), Neg(c.contact.normal)))
  {
    var b, n := r.body, c.contact.normal;
    var k := CorrectionDepth(b, c, p);
    var m := CorrectionPercent * Max(c.contact.penetration - Slop, 0.0);
    assert b.invMass * k == m;
    assert ResolveOne(env, r, c, p).body.position == Add(b.position, Scale(b.invMass, Scale(k, Neg(n))));
    ScaleScale(b.invMass, k, Neg(n));
  }

  /**
   * The resolved contacts, in order, with the impact speed `|velAlongNormal|`
   * each was resolved at: the candidates for `onHardCollision`.
   */
  function Impacts<O(==)>(env: Env, r: Resolution<O>, cs: seq<Collision<O>>, view: map<O, Partner>): (hs: seq<Hit<O>>)
    requires AllKnown(cs, view) && SafeToResolve(env, r, cs, view)
    ensures forall t :: 0 <= t < |hs| ==> hs[t].impact > 0.0 && hs[t].collision in cs
    decreases |cs|
  {
    if cs == [] then []
    else
      var last := cs[|cs| - 1];
      var before := ResolveAll(env, r, cs[..|cs| - 1], view).body;
      var p := view[last.other];
      Impacts(env, r, cs[..|cs| - 1], view)
        + if Approaching(before, last, p) then [Hit(Abs(NormalSpeed(before, last, p)), last)] else []
  }

  /**
   * The hard-collision report of a tick: present exactly when some surviving
   * contact was resolved; it then carries the largest impact speed of the
   * tick and names the first contact resolved at that speed.
   */
  lemma StepReport<O>(env: Env, b: Body, cs: seq<Collision<O>>, view: map<O, Partner>)
    requires Resolvable(env, b, cs, view)
    ensures (FilterSubset(env.glm, cs);
      var hs := Impacts(env, Start(env, b), Filter(env.glm, cs), view);
      var hard := Step(env, b, cs, view).hard;
      && (hard.Some? <==> hs != [])
      && (hard.Some? ==> forall u :: 0 <= u < |hs| ==> hs[u].impact <= hard.value.impact)
      && (hard.Some? ==> exists t :: 0 <= t < |hs| && hs[t] == hard.value
                                     && forall u :: 0 <= u < t ==> hs[u].impact < hard.value.impact))
  {
    FilterSubset(env.glm, cs);
    MaxImpactIsFirstLargest(env, Start(env, b), Filter(env.glm, cs), view);
  }

  /**
   * `maxImpact` and `maxImpactCollision` after the loop: the maximum is
   * positive exactly when some contact was resolved; it is then the largest
   * impact speed, and the collision reported is the first one resolved at
   * that speed.
   */
  lemma {:induction false} MaxImpactIsFirstLargest<O>(env: Env, r: Resolution<O>, cs: seq<Collision<O>>, view: map<O, Partner>)
    requires AllKnown(cs, view) && SafeToResolve(env, r, cs, view)
    requires r.maxImpact == -1.0 && r.hit == None
    ensures FirstLargest(r, ResolveAll(env, r, cs, view), Impacts(env, r, cs, view))
    decreases |cs|
  {
    if cs != [] {
      var prefix, last := cs[..|cs| - 1], cs[|cs| - 1];
      MaxImpactIsFirstLargest(env, r, prefix, view);
      var res0 := ResolveAll(env, r, prefix, view);
      MaxImpactStep(env, r, res0, Impacts(env, r, prefix, view), last, view[last.other]);
    }
  }

  /**
   * The maximum is positive exactly when some contact was resolved (and
   * otherwise nothing changed); it is then the largest impact speed, and the
   * collision reported is the first one resolved at that speed.
   */
  predicate FirstLargest<O(==)>(r: Resolution<O>, res: Resolution<O>, hs: seq<Hit<O>>)
  {
    && (res.maxImpact > 0.0 <==> hs != [])
    && (hs == [] ==> res == r)
    && (forall u :: 0 <= u < |hs| ==> hs[u].impact <= res.maxImpact)
    && (hs != [] ==> res.hit.Some? && exists t :: 0 <= t < |hs| && hs[t] == Hit(res.maxImpact, res.hit.value)
                                                 && forall u :: 0 <= u < t ==> hs[u].impact < res.maxImpact)
  }

  /** One more contact keeps the maximum the first largest impact so far. */
  lemma MaxImpactStep<O>(env: Env, r: Resolution<O>, res0: Resolution<O>, hs0: seq<Hit<O>>, c: Collision<O>, p: Partner)
    requires r.maxImpact == -1.0 && r.hit == None
    requires Divisible(res0.body, c, p) && FirstLargest(r, res0, hs0)
    requires forall u :: 0 <= u < |hs0| ==> hs0[u].impact > 0.0
    ensures FirstLargest(r, ResolveOne(env, res0, c, p),
                         hs0 + if Approaching(res0.body, c, p) then [Hit(Abs(NormalSpeed(res0.body, c, p)), c)] else [])
  {
    var res := ResolveOne(env, res0, c, p);
    if Approaching(res0.body, c, p) {
      var impact := Abs(NormalSpeed(res0.body, c, p));
      var hs := hs0 + [Hit(impact, c)];
      if impact > res0.maxImpact {
        assert res.maxImpact == impact && res.hit == Some(c);
        assert hs[|hs0|] == Hit(res.maxImpact, res.hit.value);
      } else {
        assert res.maxImpact == res0.maxImpact && res.hit == res0.hit;
        var t :| 0 <= t < |hs0| && hs0[t] == Hit(res0.maxImpact, res0.hit.value)
                 && forall u :: 0 <= u < t ==> hs0[u].impact < res0.maxImpact;
        assert hs[t] == hs0[t];
      }
    } else {
      assert hs0 + [] == hs0;
    }
  }

  /**
   * Each contact's other body has a non-negative inverse mass, as the body
   * has, and two solid immovable bodies in contact move alike.
   */
  predicate ImmovablesAgree<O(==)>(b: Body, cs: seq<Collision<O>>, view: map<O, Partner>)
    requires AllKnown(cs, view)
  {
    forall c :: c in cs ==>
      var p := view[c.other];
      && p.invMass >= 0.0
      && (b.solid && p.solid && b.invMass == 0.0 && p.invMass == 0.0 ==> p.velocity == b.velocity)
  }

  /**
   * With non-negative inverse masses, a division by zero needs two
   * immovable bodies approaching each other; when immovable bodies in
   * contact move alike, no contact of the loop divides by zero.
   */
  lemma {:induction false} SafeWhenImmovablesAgree<O>(env: Env, r: Resolution<O>, cs: seq<Collision<O>>, view: map<O, Partner>)
    requires AllKnown(cs, view) && r.body.invMass >= 0.0 && ImmovablesAgree(r.body, cs, view)
    ensures SafeToResolve(env, r, cs, view)
    decreases |cs|
  {
    if cs != [] {
      var prefix, last := cs[..|cs| - 1], cs[|cs| - 1];
      assert forall c :: c in prefix ==> c in cs;
      SafeWhenImmovablesAgree(env, r, prefix, view);
      var b := ResolveAll(env, r, prefix, view).body;
      var p := view[last.other];
      if b.invMass + p.invMass == 0.0 {
        assert b.invMass == 0.0 && p.invMass == 0.0;
        if b.solid && p.solid {
          assert Sub(p.velocity, b.velocity) == Zero();
          assert NormalSpeed(b, last, p) == 0.0;
        }
      }
    }
  }

  /** A body whose contacts' immovable partners move alike can run its tick. */
  lemma ResolvableWhenImmovablesAgree<O>(env: Env, b: Body, cs: seq<Collision<O>>, view: map<O, Partner>)
    requires AllKnown(cs, view) && b.invMass >= 0.0 && ImmovablesAgree(b, cs, view)
    ensures Resolvable(env, b, cs, view)
  {
    FilterSubset(env.glm, cs);
    var start: Resolution<O> := Start(env, b);
    SafeWhenImmovablesAgree(env, start, Filter(env.glm, cs), view);
  }

  /** The loop's state after any prefix of the contacts is again one the loop can continue from. */
  lemma {:induction false} SafePrefix<O>(env: Env, r: Resolution<O>, cs: seq<Collision<O>>, view: map<O, Partner>, k: nat)
    requires AllKnown(cs, view) && SafeToResolve(env, r, cs, view) && k <= |cs|
    ensures AllKnown(cs[..k], view) && SafeToResolve(env, r, cs[..k], view)
    decreases |cs|
  {
    if k < |cs| {
      SafePrefix(env, r, cs[..|cs| - 1], view, k);
      assert cs[..|cs| - 1][..k] == cs[..k];
    } else {
      assert cs[..k] == cs;
    }
  }

  /** The loop after one more contact: that contact is divisible and resolved last. */
  lemma ResolveAllNext<O>(env: Env, r: Resolution<O>, cs: seq<Collision<O>>, view: map<O, Partner>, i: nat)
    requires i < |cs| && AllKnown(cs, view) && SafeToResolve(env, r, cs, view)
    ensures AllKnown(cs[..i], view) && SafeToResolve(env, r, cs[..i], view)
    ensures Divisible(ResolveAll(env, r, cs[..i], view).body, cs[i], view[cs[i].other])
    ensures AllKnown(cs[..i + 1], view) && SafeToResolve(env, r, cs[..i + 1], view)
    ensures ResolveAll(env, r, cs[..i + 1], view)
         == ResolveOne(env, ResolveAll(env, r, cs[..i], view), cs[i], view[cs[i].other])
  {
    SafePrefix(env, r, cs, view, i + 1);
    assert cs[..i + 1][..i] == cs[..i];
  }

  /** With no contacts, every tick can run. */
  lemma NoContactsResolvable<O>(env: Env, b: Body, view: map<O, Partner>)
    ensures Resolvable(env, b, [], view)
    ensures Filter<O>(env.glm, []) == []
  {
    var none: seq<Collision<O>> := [];
    assert Filter(env.glm, none) == Keep(none, RemovalSet(env.glm, none), 0);
  }

  /**
   * Gravity alone for one tick (no contacts, no drag, no pending impulse or
   * force, `mass * invMass == 1`): semi-implicit Euler adds `gravity * dt`
   * to the vertical velocity.
   */
  lemma FreeFallTick<O>(env: Env, b: Body, view: map<O, Partner>)
    requires b.netForce == Zero() && b.impulse == Zero() && env.drag == 0.0
    requires b.mass * b.invMass == 1.0
    ensures Resolvable(env, b, [], view)
    ensures Step(env, b, [], view).body.velocity == Add(b.velocity, Vec3(0.0, env.gravity * env.dt, 0.0))
  {
    NoContactsResolvable(env, b, view);
    var s := Start<O>(env, b);
    assert Step(env, b, [], view).body == Integrate(env, s.body);
    IntegrateUnderGravity(env, s.body);
  }

  /** Integration of a body carrying only its weight, with no drag. */
  lemma IntegrateUnderGravity(env: Env, b: Body)
    requires b.netForce == Vec3(0.0, env.gravity * b.mass, 0.0) && b.normForce == Zero()
    requires b.impulse == Zero() && env.drag == 0.0 && b.mass * b.invMass == 1.0
    ensures Integrate(env, b).velocity == Add(b.velocity, Vec3(0.0, env.gravity * env.dt, 0.0))
  {
    assert Scale(b.invMass, b.impulse) == Zero();
    var v := b.velocity;
    assert Add(b.netForce, b.normForce) == b.netForce;
    if v != Zero() {
      var d := Scale(Dot(v, v), Neg(env.glm.normalize(v)));
      assert Scale(env.drag, d) == Zero();
    }
    Cancel(b.mass, b.invMass, env.gravity);
    assert Scale(b.invMass, b.netForce) == Vec3(0.0, env.gravity, 0.0);
    assert Scale(env.dt, Vec3(0.0, env.gravity, 0.0)) == Vec3(0.0, env.gravity * env.dt, 0.0);
  }

  lemma Cancel(m: real, w: real, g: real)
    requires m * w == 1.0
    ensures w * (g * m) == g
  {
    assert w * (g * m) == g * (m * w);
  }
}
