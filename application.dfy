/**
 * The application around the bodies (main.cpp): the linear sequence of
 * scenes, one physics tick over every body (all-pairs detection, then one
 * update per body), and the fixed-timestep accumulator that runs the ticks.
 */
module App {
  import opened Vectors
  import opened Options
  import opened Collisions
  import Dynamics
  import opened PhysicsObjects

  // ---------------------------------------------------------------- scenes

  /** The scenes, in the order the story shows them (main.cpp:115). */
  datatype Scene = Start | Miles | Gwen | NoirBite | NoirPortal | Pig | Minecraft | All

  /** The place of a scene in the sequence: 0 for the opening, 7 for the last. */
  function Rank(s: Scene): nat
  {
    match s
    case Start => 0
    case Miles => 1
    case Gwen => 2
    case NoirBite => 3
    case NoirPortal => 4
    case Pig => 5
    case Minecraft => 6
    case All => 7
  }

  /** No two scenes share a place in the sequence. */
  lemma RankInjective(s: Scene, t: Scene)
    requires Rank(s) == Rank(t)
    ensures s == t
  {
  }

  /**
   * The scene `nextScene` switches to: the following one in the sequence,
   * and the last scene stays where it is.
   */
  function Next(s: Scene): (t: Scene)
    ensures s == All ==> t == All
    ensures s != All ==> Rank(t) == Rank(s) + 1
  {
    match s
    case Start => Miles
    case Miles => Gwen
    case Gwen => NoirBite
    case NoirBite => NoirPortal
    case NoirPortal => Pig
    case Pig => Minecraft
    case Minecraft => All
    case All => All
  }

  /** The scene after `k` calls of `nextScene`. */
  function After(s: Scene, k: nat): Scene
  {
    if k == 0 then s else Next(After(s, k - 1))
  }

  /** Each call moves one place along the sequence until the last scene. */
  lemma {:induction false} AfterRank(s: Scene, k: nat)
    ensures Rank(After(s, k)) == if Rank(s) + k < 7 then Rank(s) + k else 7
  {
    if k > 0 {
      AfterRank(s, k - 1);
    }
  }

  /**
   * From any scene, the last scene is reached after exactly `7 - Rank(s)`
   * calls (at most 7), and never earlier.
   */
  lemma ReachesAll(s: Scene, k: nat)
    ensures After(s, k) == All <==> k >= 7 - Rank(s)
  {
    AfterRank(s, k);
    if Rank(After(s, k)) == 7 {
      RankInjective(After(s, k), All);
    }
  }

  // ------------------------------------------------------ the call trace

  /** A call the physics tick makes: a pair check or a body update. */
  datatype Call = CheckCall(initiator: nat, partner: nat) | UpdateCall(body: nat)

  /** The checks of row `i` of the pair loop, for partners `i+1 .. j-1`. */
  function Row(i: nat, j: nat): seq<Call>
    decreases j
  {
    if j <= i + 1 then [] else Row(i, j - 1) + [CheckCall(i, j - 1)]
  }

  /** The checks of rows `0 .. i-1` of the pair loop over `n` bodies. */
  function Rows(i: nat, n: nat): seq<Call>
  {
    if i == 0 then [] else Rows(i - 1, n) + Row(i - 1, n)
  }

  /** The updates of bodies `0 .. k-1`. */
  function Updates(k: nat): seq<Call>
  {
    if k == 0 then [] else Updates(k - 1) + [UpdateCall(k - 1)]
  }

  /** Lexicographic order on pair checks. */
  predicate Precedes(x: Call, y: Call)
  {
    x.CheckCall? && y.CheckCall?
    && (x.initiator < y.initiator || (x.initiator == y.initiator && x.partner < y.partner))
  }

  /** Row `i` checks `i+1, i+2, ...` in turn. */
  lemma {:induction false} RowIsPartnersInOrder(i: nat, j: nat)
    ensures |Row(i, j)| == if j <= i + 1 then 0 else j - i - 1
    ensures forall p :: 0 <= p < |Row(i, j)| ==> Row(i, j)[p] == CheckCall(i, i + 1 + p)
    decreases j
  {
    if j > i + 1 {
      RowIsPartnersInOrder(i, j - 1);
    }
  }

  /**
   * The pair loop checks exactly the pairs `a < b` of the first `i` rows,
   * with the lower index as initiator, in strictly increasing lexicographic
   * order (so each pair once).
   */
  lemma {:induction false} RowsArePairsInOrder(i: nat, n: nat)
    ensures forall p :: 0 <= p < |Rows(i, n)| ==> Rows(i, n)[p].CheckCall?
    ensures forall a: nat, b: nat :: CheckCall(a, b) in Rows(i, n) <==> a < i && a < b < n
    ensures forall p, q :: 0 <= p < q < |Rows(i, n)| ==> Precedes(Rows(i, n)[p], Rows(i, n)[q])
  {
    if i > 0 {
      RowsArePairsInOrder(i - 1, n);
      RowIsPartnersInOrder(i - 1, n);
      var before, row := Rows(i - 1, n), Row(i - 1, n);
      assert Rows(i, n) == before + row;
      forall a: nat, b: nat
        ensures CheckCall(a, b) in Rows(i, n) <==> a < i && a < b < n
      {
        if a == i - 1 && a < b < n {
          assert row[b - i] == CheckCall(a, b);
        }
      }
      forall p, q | 0 <= p < q < |Rows(i, n)|
        ensures Precedes(Rows(i, n)[p], Rows(i, n)[q])
      {
        if q >= |before| && p < |before| {
          assert CheckCall(before[p].initiator, before[p].partner) in before;
        }
      }
    }
  }

  /** No pair is checked twice in a tick. */
  lemma EachPairOnce(n: nat)
    ensures forall p, q :: 0 <= p < q < |Rows(n, n)| ==> Rows(n, n)[p] != Rows(n, n)[q]
  {
    RowsArePairsInOrder(n, n);
  }

  /** The update loop updates body `m` as its `m`-th call, each body once. */
  lemma {:induction false} UpdatesInOrder(k: nat)
    ensures |Updates(k)| == k
    ensures forall m :: 0 <= m < k ==> Updates(k)[m] == UpdateCall(m)
  {
    if k > 0 {
      UpdatesInOrder(k - 1);
    }
  }

  /** In the trace of a tick, every check comes before every update. */
  lemma ChecksBeforeUpdates(n: nat)
    ensures var t := Rows(n, n) + Updates(n);
      forall p, q :: 0 <= p < q < |t| && t[q].CheckCall? ==> t[p].CheckCall?
  {
    RowsArePairsInOrder(n, n);
    UpdatesInOrder(n);
  }

  // ------------------------------------------------------------ the world

  /** No body appears twice in the list. */
  predicate Distinct(objs: seq<PhysicsObject>)
  {
    forall a, b :: 0 <= a < b < |objs| ==> objs[a] != objs[b]
  }

  /** A solid body that nothing can move. */
  predicate Immovable(o: PhysicsObject)
    reads o`invMass
  {
    o.solid && o.invMass == 0.0
  }

  /**
   * The contacts the pair loop hands body `i` as initiator, from partners
   * `i+1 .. j-1` in that order; `detect(i, j)` stands for what the shape
   * test of the pair reports.
   */
  function Detected(objs: seq<PhysicsObject>, detect: (nat, nat) -> seq<Contact>, i: nat, j: nat): (cs: seq<Collision<PhysicsObject>>)
    requires i < |objs| && j <= |objs|
    decreases j
  {
    if j <= i + 1 then []
    else
      var o := objs[j - 1];
      Detected(objs, detect, i, j - 1) + if objs[i].CanCollide(o) then Tagged(o, detect(i, j - 1)) else []
  }

  /** Every body as the others' ticks read it. */
  function Partners(objs: seq<PhysicsObject>): (world: map<PhysicsObject, Dynamics.Partner>)
    reads (set o | o in objs)`velocity
    reads (set o | o in objs)`elasticity, (set o | o in objs)`invMass
    ensures forall k :: 0 <= k < |objs| ==> objs[k] in world && world[objs[k]] == objs[k].AsPartner()
  {
    map o | o in objs :: o.AsPartner()
  }

  /** Every body's state, in list order. */
  function States(objs: seq<PhysicsObject>): (states: seq<Dynamics.Body>)
    reads (set o | o in objs)`position, (set o | o in objs)`velocity, (set o | o in objs)`netForce
    reads (set o | o in objs)`normForce, (set o | o in objs)`impulse, (set o | o in objs)`acceleration
    reads (set o | o in objs)`mass, (set o | o in objs)`invMass, (set o | o in objs)`friction
    reads (set o | o in objs)`elasticity
    ensures |states| == |objs| && forall k :: 0 <= k < |objs| ==> states[k] == objs[k].State()
  {
    if objs == [] then [] else States(objs[..|objs| - 1]) + [objs[|objs| - 1].State()]
  }

  /** `index` gives the place of every body in the list, and nothing else. */
  predicate Indexed(objs: seq<PhysicsObject>, index: map<PhysicsObject, nat>)
  {
    && (forall m :: 0 <= m < |objs| ==> objs[m] in index && index[objs[m]] == m)
    && (forall o :: o in index ==> index[o] < |objs| && objs[index[o]] == o)
  }

  /** The places of distinct bodies. */
  function Positions(objs: seq<PhysicsObject>): (index: map<PhysicsObject, nat>)
    requires Distinct(objs)
    ensures Indexed(objs, index)
  {
    if objs == [] then map[]
    else
      var init := objs[..|objs| - 1];
      assert Distinct(init);
      Positions(init)[objs[|objs| - 1] := |objs| - 1]
  }

  /** Each of the contacts names a body after body `k` in the list. */
  predicate Forward(index: map<PhysicsObject, nat>, k: nat, cs: seq<Collision<PhysicsObject>>)
  {
    forall c :: c in cs ==> c.other in index && index[c.other] > k
  }

  /** The contacts the pair loop hands each body. */
  function AllDetected(objs: seq<PhysicsObject>, detect: (nat, nat) -> seq<Contact>): (css: seq<seq<Collision<PhysicsObject>>>)
    ensures |css| == |objs| && forall k :: 0 <= k < |objs| ==> css[k] == Detected(objs, detect, k, |objs|)
  {
    seq(|objs|, k requires 0 <= k < |objs| => Detected(objs, detect, k, |objs|))
  }

  /** The contacts handed to body `k` name only later bodies. */
  lemma {:induction false} DetectedForward(objs: seq<PhysicsObject>, index: map<PhysicsObject, nat>,
                                           detect: (nat, nat) -> seq<Contact>, k: nat, j: nat)
    requires k < |objs| && j <= |objs| && Indexed(objs, index)
    ensures Forward(index, k, Detected(objs, detect, k, j))
    decreases j
  {
    if j > k + 1 {
      DetectedForward(objs, index, detect, k, j - 1);
      assert index[objs[j - 1]] == j - 1;
    }
  }

  /**
   * What every tick relies on: distinct bodies, each with a collider and no
   * pending contacts between ticks, no negative inverse mass, and solid
   * immovable bodies moving alike (so no contact divides by zero).
   */
  predicate Ready(objs: seq<PhysicsObject>)
    reads (set o | o in objs)`pending, (set o | o in objs)`invMass, (set o | o in objs)`velocity
  {
    && Distinct(objs)
    && (forall k :: 0 <= k < |objs| ==> objs[k].collider.Some? && objs[k].pending == [] && objs[k].invMass >= 0.0)
    && (forall a, b :: 0 <= a < b < |objs| && Immovable(objs[a]) && Immovable(objs[b]) ==>
          objs[a].velocity == objs[b].velocity)
  }

  /**
   * Appending bodies not yet in the list, each with a collider, no pending
   * contacts, a non-negative inverse mass and, when immovable, at rest, to
   * a ready list whose immovable bodies are at rest keeps it ready.
   */
  lemma AppendReady(objs: seq<PhysicsObject>, more: seq<PhysicsObject>)
    requires Ready(objs) && Distinct(more)
    requires forall k :: 0 <= k < |objs| && Immovable(objs[k]) ==> objs[k].velocity == Zero()
    requires forall k :: 0 <= k < |more| ==> more[k] !in objs
    requires forall k :: 0 <= k < |more| ==> more[k].collider.Some? && more[k].pending == [] && more[k].invMass >= 0.0
    requires forall k :: 0 <= k < |more| && Immovable(more[k]) ==> more[k].velocity == Zero()
    ensures Ready(objs + more)
  {
    var all := objs + more;
    forall a, b | 0 <= a < b < |all|
      ensures all[a] != all[b]
    {
      if a < |objs| && b >= |objs| {
        assert all[b] == more[b - |objs|] && all[a] in objs;
      }
    }
    forall a, b | 0 <= a < b < |all| && Immovable(all[a]) && Immovable(all[b])
      ensures all[a].velocity == all[b].velocity
    {
      assert all[a].velocity == Zero() by {
        if a < |objs| { assert all[a] == objs[a]; } else { assert all[a] == more[a - |objs|]; }
      }
      assert all[b].velocity == Zero() by {
        if b < |objs| { assert all[b] == objs[b]; } else { assert all[b] == more[b - |objs|]; }
      }
    }
  }

  /** The time withdrawn by `ticks` steps of `dt`, one step at a time. */
  function Withdrawn(dt: real, ticks: nat): real
  {
    if ticks == 0 then 0.0 else Withdrawn(dt, ticks - 1) + dt
  }

  /** `ticks` withdrawals of `dt` take `ticks * dt`. */
  lemma {:induction false} WithdrawnIsProduct(dt: real, ticks: nat)
    ensures Withdrawn(dt, ticks) == ticks as real * dt
  {
    if ticks > 0 {
      WithdrawnIsProduct(dt, ticks - 1);
    }
  }

  /** Some whole number of steps, plus one, covers any balance. */
  lemma EnoughSteps(balance: real, dt: real) returns (n: nat)
    requires dt > 0.0
    ensures balance < Withdrawn(dt, n + 1)
  {
    if balance < 0.0 {
      n := 0;
      assert Withdrawn(dt, 1) == dt;
    } else {
      var q := balance / dt;
      n := q.Floor;
      WithdrawnIsProduct(dt, n + 1);
      assert q * dt == balance;
      assert ((n + 1) as real - q) * dt > 0.0;
    }
  }

  /** A balance of `ticks` steps plus less than one step holds `ticks` whole steps. */
  lemma TicksAreFloor(balance: real, dt: real, ticks: nat, rest: real)
    requires dt > 0.0 && 0.0 <= rest < dt && rest == balance - ticks as real * dt
    ensures (balance / dt).Floor == ticks
  {
    var q := rest / dt;
    assert q * dt == rest;
    assert q < dt / dt == 1.0;
    assert (ticks as real + q) * dt == balance;
    assert balance / dt == ticks as real + q;
  }

  /** What a body shows the other bodies' ticks, as a function of its state. */
  function PartnerOf(b: Dynamics.Body): Dynamics.Partner
  {
    Dynamics.Partner(b.solid, b.velocity, b.elasticity, b.invMass)
  }

  /** A solid body that nothing can move, as a state. */
  predicate Fixed(b: Dynamics.Body)
  {
    b.solid && b.invMass == 0.0
  }

  /**
   * The facts about the bodies at the start of a tick that every update in
   * it relies on, as values: `states` and `world` are the bodies' states and
   * what they show each other, `css` the contacts each was handed.
   */
  predicate Settled(objs: seq<PhysicsObject>, index: map<PhysicsObject, nat>, css: seq<seq<Collision<PhysicsObject>>>,
                    states: seq<Dynamics.Body>, world: map<PhysicsObject, Dynamics.Partner>)
  {
    && Distinct(objs) && Indexed(objs, index) && |css| == |states| == |objs|
    && (forall m :: 0 <= m < |objs| ==>
          && objs[m].collider.Some? && states[m].invMass >= 0.0 && Forward(index, m, css[m])
          && objs[m] in world && world[objs[m]] == PartnerOf(states[m]))
    && (forall a, b :: 0 <= a < b < |objs| && Fixed(states[a]) && Fixed(states[b]) ==>
          states[a].velocity == states[b].velocity)
  }

  /**
   * How far the update loop has got: bodies before `k` have run their tick
   * (`hard` holds what each reported), later ones are as the tick found them.
   */
  predicate Progress(env: Dynamics.Env, objs: seq<PhysicsObject>, css: seq<seq<Collision<PhysicsObject>>>,
                     states: seq<Dynamics.Body>, world: map<PhysicsObject, Dynamics.Partner>,
                     hard: seq<Option<Dynamics.Hit<PhysicsObject>>>, k: nat)
    requires |css| == |states| == |objs|
    reads (set o | o in objs)`position, (set o | o in objs)`velocity, (set o | o in objs)`netForce
    reads (set o | o in objs)`normForce, (set o | o in objs)`impulse, (set o | o in objs)`acceleration
    reads (set o | o in objs)`mass, (set o | o in objs)`invMass, (set o | o in objs)`friction
    reads (set o | o in objs)`elasticity, (set o | o in objs)`pending
  {
    && k <= |objs| && |hard| == k
    && (forall m :: 0 <= m < k ==>
          && Dynamics.Resolvable(env, states[m], css[m], world)
          && objs[m].State() == Dynamics.Step(env, states[m], css[m], world).body
          && hard[m] == Dynamics.Step(env, states[m], css[m], world).hard
          && objs[m].pending == [])
    && (forall m :: k <= m < |objs| ==> objs[m].State() == states[m] && objs[m].pending == css[m])
  }

  /** After every update of a settled tick the bodies are ready for the next one. */
  lemma ProgressReady(env: Dynamics.Env, objs: seq<PhysicsObject>, index: map<PhysicsObject, nat>,
                      css: seq<seq<Collision<PhysicsObject>>>, states: seq<Dynamics.Body>,
                      world: map<PhysicsObject, Dynamics.Partner>, hard: seq<Option<Dynamics.Hit<PhysicsObject>>>)
    requires Settled(objs, index, css, states, world) && Progress(env, objs, css, states, world, hard, |objs|)
    ensures Ready(objs)
  {
    forall a, b | 0 <= a < b < |objs| && Immovable(objs[a]) && Immovable(objs[b])
      ensures objs[a].velocity == objs[b].velocity
    {
      assert Fixed(states[a]) && Fixed(states[b]);
    }
  }

  /** The facts a tick relies on hold of a ready list of bodies. */
  lemma ReadyIsSettled(objs: seq<PhysicsObject>, index: map<PhysicsObject, nat>, css: seq<seq<Collision<PhysicsObject>>>,
                       states: seq<Dynamics.Body>, world: map<PhysicsObject, Dynamics.Partner>)
    requires Ready(objs) && Indexed(objs, index) && |css| == |objs|
    requires forall m :: 0 <= m < |objs| ==> Forward(index, m, css[m])
    requires states == States(objs) && world == Partners(objs)
    ensures Settled(objs, index, css, states, world)
  {
    forall a, b | 0 <= a < b < |objs| && Fixed(states[a]) && Fixed(states[b])
      ensures states[a].velocity == states[b].velocity
    {
      assert Immovable(objs[a]) && Immovable(objs[b]);
    }
  }

  /** No contact of a settled tick divides by zero. */
  lemma SettledResolvable(env: Dynamics.Env, objs: seq<PhysicsObject>, index: map<PhysicsObject, nat>,
                          css: seq<seq<Collision<PhysicsObject>>>, states: seq<Dynamics.Body>,
                          world: map<PhysicsObject, Dynamics.Partner>, k: nat)
    requires Settled(objs, index, css, states, world) && k < |objs|
    ensures Dynamics.Resolvable(env, states[k], css[k], world)
  {
    forall c | c in css[k]
      ensures c.other in world
      ensures var p := world[c.other];
        && p.invMass >= 0.0
        && (states[k].solid && p.solid && states[k].invMass == 0.0 && p.invMass == 0.0 ==> p.velocity == states[k].velocity)
    {
      var m := index[c.other];
      assert objs[m] == c.other && k < m;
    }
    Dynamics.ResolvableWhenImmovablesAgree(env, states[k], css[k], world);
  }

  /**
   * One body's update inside the tick: its contacts name only later bodies,
   * each of which shows the tick its present state.
   */
  method UpdateBody(env: Dynamics.Env, objs: seq<PhysicsObject>, ghost index: map<PhysicsObject, nat>, k: nat,
                    o: PhysicsObject, ghost view: map<PhysicsObject, Dynamics.Partner>)
    returns (h: Option<Dynamics.Hit<PhysicsObject>>)
    requires k < |objs| && o == objs[k] && Indexed(objs, index)
    requires o.collider.Some? && Forward(index, k, o.pending)
    requires Dynamics.Resolvable(env, o.State(), o.pending, view)
    requires forall m :: k < m < |objs| ==> objs[m] in view && view[objs[m]] == objs[m].AsPartner()
    modifies o`position, o`velocity, o`netForce, o`normForce, o`impulse, o`acceleration, o`pending
    ensures var b, cs := old(o.State()), old(o.pending);
      && o.State() == Dynamics.Step(env, b, cs, view).body
      && h == Dynamics.Step(env, b, cs, view).hard
      && o.pending == []
  {
    forall c | c in o.pending
      ensures c.other != o && c.other in view && view[c.other] == c.other.AsPartner()
    {
      assert objs[index[c.other]] == c.other;
    }
    h := o.Update(env, view);
  }

  /** The update of body `k` moves the update loop on by one body. */
  method UpdateNth(env: Dynamics.Env, objs: seq<PhysicsObject>, ghost index: map<PhysicsObject, nat>,
                   ghost css: seq<seq<Collision<PhysicsObject>>>, ghost states: seq<Dynamics.Body>,
                   ghost world: map<PhysicsObject, Dynamics.Partner>, hard: seq<Option<Dynamics.Hit<PhysicsObject>>>,
                   k: nat, o: PhysicsObject)
    returns (hard': seq<Option<Dynamics.Hit<PhysicsObject>>>)
    requires Distinct(objs) && Indexed(objs, index) && |css| == |states| == |objs| && k < |objs| && o == objs[k]
    requires o.collider.Some? && Forward(index, k, css[k]) && Dynamics.Resolvable(env, states[k], css[k], world)
    requires forall m :: k < m < |objs| ==> objs[m] in world && world[objs[m]] == PartnerOf(states[m])
    requires Progress(env, objs, css, states, world, hard, k)
    modifies o`position, o`velocity, o`netForce, o`normForce, o`impulse, o`acceleration, o`pending
    ensures Progress(env, objs, css, states, world, hard', k + 1)
  {
    forall m | k < m < |objs|
      ensures objs[m].AsPartner() == world[objs[m]]
    {
      assert objs[m].State() == states[m];
    }
    assert o.State() == states[k] && o.pending == css[k];
    var h := UpdateBody(env, objs, index, k, o, world);
    hard' := hard + [h];
  }

  /** The update loop itself (main.cpp:446-448): body `k` runs its tick as the `k`-th call. */
  method UpdateLoop(env: Dynamics.Env, objs: seq<PhysicsObject>, ghost index: map<PhysicsObject, nat>,
                    ghost css: seq<seq<Collision<PhysicsObject>>>, ghost states: seq<Dynamics.Body>,
                    ghost world: map<PhysicsObject, Dynamics.Partner>)
    returns (hard: seq<Option<Dynamics.Hit<PhysicsObject>>>, ghost calls: seq<Call>)
    requires Settled(objs, index, css, states, world)
    requires Progress(env, objs, css, states, world, [], 0)
    modifies (set o | o in objs)`position, (set o | o in objs)`velocity
    modifies (set o | o in objs)`netForce, (set o | o in objs)`normForce
    modifies (set o | o in objs)`impulse, (set o | o in objs)`acceleration
    modifies (set o | o in objs)`pending
    ensures calls == Updates(|objs|)
    ensures Progress(env, objs, css, states, world, hard, |objs|)
  {
    hard, calls := [], [];
    for k := 0 to |objs|
      invariant calls == Updates(k)
      invariant Progress(env, objs, css, states, world, hard, k)
    {
      SettledResolvable(env, objs, index, css, states, world, k);
      hard := UpdateNth(env, objs, index, css, states, world, hard, k, objs[k]);
      calls := calls + [UpdateCall(k)];
    }
  }

  /**
   * A body as the scene sets it up: at the given place with the given
   * collider and unit scale, at rest, with no force, impulse or acceleration
   * yet, the given mass, elasticity 0.5 and friction 0.25, solid, colliding
   * and with no pending contacts.
   */
  predicate SceneBody(o: PhysicsObject, position: Vec3, collider: Collider, mass: real)
    reads o`position, o`scale, o`velocity, o`netForce, o`normForce, o`impulse, o`acceleration, o`speed
    reads o`mass, o`invMass, o`elasticity, o`friction, o`pending
  {
    && o.position == position && o.scale == Unit() && o.collider == Some(collider)
    && o.velocity == Zero() && o.speed == 0.0
    && o.netForce == Zero() && o.normForce == Zero() && o.impulse == Zero() && o.acceleration == Zero()
    && o.mass == mass && o.invMass == InverseMass(mass) && o.elasticity == 0.5 && o.friction == 0.25
    && o.solid && !o.ignoreCollision && o.pending == []
  }

  /** A body of the scene before its mass is set (main.cpp:266-283), with the identity orientation. */
  method NewBody(position: Vec3, collider: Collider) returns (o: PhysicsObject)
    ensures fresh(o) && SceneBody(o, position, collider, 0.0) && o.orientation == Identity()
  {
    o := new PhysicsObject(position, Identity(), Unit(), Some(collider), collider.bbox);
    o.SetElasticity(0.5);
    o.SetFriction(0.25);
  }

  /**
   * The bodies of the scene (main.cpp:264-283), in the order they join the
   * list: a ball of mass 5, a massless ball and a massless cube turned by
   * `cubeTurn`, all new, at rest and with no pending contacts.
   */
  method SceneObjects(ballCollider: Collider, cubeCollider: Collider, cubeTurn: Quat) returns (more: seq<PhysicsObject>)
    ensures |more| == 3 && Distinct(more)
    ensures forall k :: 0 <= k < |more| ==> fresh(more[k]) && more[k].pending == [] && more[k].invMass >= 0.0
    ensures SceneBody(more[0], Vec3(0.0, 0.0, -10.0), ballCollider, 5.0)
    ensures SceneBody(more[1], Vec3(-1.0, -3.0, -10.0), ballCollider, 0.0)
    ensures more[0].orientation == Identity() && more[1].orientation == Identity()
    ensures SceneBody(more[2], Vec3(2.0, -4.0, -10.0), cubeCollider, 0.0) && more[2].orientation == cubeTurn
  {
    var ball := NewBody(Vec3(0.0, 0.0, -10.0), ballCollider);
    ball.SetMass(5.0);
    var ball2 := NewBody(Vec3(-1.0, -3.0, -10.0), ballCollider);
    var cube := NewBody(Vec3(2.0, -4.0, -10.0), cubeCollider);
    cube.orientation := cubeTurn;
    more := [ball, ball2, cube];
  }

  class Application {
    var currentScene: Scene
    var physicsObjects: seq<PhysicsObject>

    /** The application starts at the opening scene (main.cpp:116) with no bodies (main.cpp:93). */
    constructor()
      ensures currentScene == Start && physicsObjects == []
      ensures Valid()
    {
      currentScene := Start;
      physicsObjects := [];
    }

    /**
     * The bodies of the scene (main.cpp:264-283), appended in this order: a
     * ball of mass 5, a massless ball and a massless cube turned by
     * `cubeTurn`, each with elasticity 0.5 and friction 0.25. The two
     * massless bodies are immovable and at rest, so the world stays ready
     * for ticks when the bodies already there that are immovable are at rest.
     */
    method InitPhysicsObjects(ballCollider: Collider, cubeCollider: Collider, cubeTurn: Quat)
      requires Valid()
      requires forall k :: 0 <= k < |physicsObjects| && Immovable(physicsObjects[k]) ==> physicsObjects[k].velocity == Zero()
      modifies this`physicsObjects
      ensures Valid()
      ensures |physicsObjects| == old(|physicsObjects|) + 3 && physicsObjects[..old(|physicsObjects|)] == old(physicsObjects)
      ensures var n := old(|physicsObjects|);
        && SceneBody(physicsObjects[n], Vec3(0.0, 0.0, -10.0), ballCollider, 5.0)
        && SceneBody(physicsObjects[n + 1], Vec3(-1.0, -3.0, -10.0), ballCollider, 0.0)
        && SceneBody(physicsObjects[n + 2], Vec3(2.0, -4.0, -10.0), cubeCollider, 0.0)
        && physicsObjects[n].orientation == Identity() && physicsObjects[n + 1].orientation == Identity()
        && physicsObjects[n + 2].orientation == cubeTurn
    {
      var more := SceneObjects(ballCollider, cubeCollider, cubeTurn);
      ghost var before := physicsObjects;
      physicsObjects := physicsObjects + more;
      AppendReady(before, more);
    }

    /** `nextScene` (main.cpp:356-390); the scene set-up calls are not modelled. */
    method NextScene()
      modifies this`currentScene
      ensures currentScene == Next(old(currentScene))
    {
      match currentScene
      case Start =>
        currentScene := Miles;
      case Miles =>
        currentScene := Gwen;
      case Gwen =>
        currentScene := NoirBite;
      case NoirBite =>
        currentScene := NoirPortal;
      case NoirPortal =>
        currentScene := Pig;
      case Pig =>
        currentScene := Minecraft;
      case Minecraft =>
        currentScene := All;
      case All =>
    }

    /**
     * All-pairs detection (main.cpp:441-445): body `i` checks every later
     * body `j` once, and only `i` receives the contacts.
     */
    method CheckPairs(detect: (nat, nat) -> seq<Contact>) returns (ghost calls: seq<Call>)
      requires Distinct(physicsObjects)
      requires forall k :: 0 <= k < |physicsObjects| ==> physicsObjects[k].pending == []
      modifies (set o | o in physicsObjects)`pending
      ensures calls == Rows(|physicsObjects|, |physicsObjects|)
      ensures forall k :: 0 <= k < |physicsObjects| ==>
                physicsObjects[k].pending == Detected(physicsObjects, detect, k, |physicsObjects|)
    {
      var objs := physicsObjects;
      var n := |objs|;
      ghost var css := AllDetected(objs, detect);
      calls := [];
      for i := 0 to n
        invariant calls == Rows(i, n)
        invariant forall k :: 0 <= k < i ==> objs[k].pending == css[k]
        invariant forall k :: i <= k < n ==> objs[k].pending == []
      {
        var row := CheckRow(detect, i);
        assert Rows(i + 1, n) == Rows(i, n) + Row(i, n);
        calls := calls + row;
      }
    }

    /** One row of the pair loop (main.cpp:442-444): body `i` checks bodies `i+1 ..` in order. */
    method CheckRow(detect: (nat, nat) -> seq<Contact>, i: nat) returns (ghost calls: seq<Call>)
      requires i < |physicsObjects| && physicsObjects[i].pending == [] && Distinct(physicsObjects)
      modifies {physicsObjects[i]}`pending
      ensures calls == Row(i, |physicsObjects|)
      ensures physicsObjects[i].pending == Detected(physicsObjects, detect, i, |physicsObjects|)
      ensures forall k :: 0 <= k < |physicsObjects| && k != i ==> physicsObjects[k].pending == old(physicsObjects[k].pending)
    {
      var objs := physicsObjects;
      var n := |objs|;
      calls := [];
      for j := i + 1 to n
        invariant calls == Row(i, j)
        invariant objs[i].pending == Detected(objs, detect, i, j)
      {
        objs[i].CheckCollision(objs[j], detect(i, j));
        calls := calls + [CheckCall(i, j)];
      }
    }

    /**
     * The update loop (main.cpp:447-448): every body runs its tick once, in
     * list order, over the contacts `css` the pair loop handed it. A body's
     * contacts name only later bodies, which have not run yet, so each tick
     * sees its partners as `world` holds them.
     */
    method UpdateAll(env: Dynamics.Env, ghost index: map<PhysicsObject, nat>, ghost css: seq<seq<Collision<PhysicsObject>>>,
                     ghost states: seq<Dynamics.Body>, ghost world: map<PhysicsObject, Dynamics.Partner>)
      returns (hard: seq<Option<Dynamics.Hit<PhysicsObject>>>, ghost calls: seq<Call>)
      requires Settled(physicsObjects, index, css, states, world)
      requires Progress(env, physicsObjects, css, states, world, [], 0)
      modifies (set o | o in physicsObjects)`position, (set o | o in physicsObjects)`velocity
      modifies (set o | o in physicsObjects)`netForce, (set o | o in physicsObjects)`normForce
      modifies (set o | o in physicsObjects)`impulse, (set o | o in physicsObjects)`acceleration
      modifies (set o | o in physicsObjects)`pending
      ensures calls == Updates(|physicsObjects|) && Valid()
      ensures |hard| == |physicsObjects|
      ensures forall k :: 0 <= k < |physicsObjects| ==>
        && Dynamics.Resolvable(env, states[k], css[k], world)
        && physicsObjects[k].State() == Dynamics.Step(env, states[k], css[k], world).body
        && hard[k] == Dynamics.Step(env, states[k], css[k], world).hard
    {
      hard, calls := UpdateLoop(env, physicsObjects, index, css, states, world);
      ProgressReady(env, physicsObjects, index, css, states, world, hard);
    }

    /**
     * The detection half of a tick (main.cpp:441-445), with what the update
     * half relies on: the bodies' states and what they show each other as
     * the tick found them, the contacts each body was handed, and the
     * place of each body in the list.
     */
    method BeginTick(env: Dynamics.Env, detect: (nat, nat) -> seq<Contact>)
      returns (ghost calls: seq<Call>, ghost index: map<PhysicsObject, nat>, ghost css: seq<seq<Collision<PhysicsObject>>>,
               ghost states: seq<Dynamics.Body>, ghost world: map<PhysicsObject, Dynamics.Partner>)
      requires Valid()
      modifies (set o | o in physicsObjects)`pending
      ensures calls == Rows(|physicsObjects|, |physicsObjects|)
      ensures world == old(Partners(physicsObjects)) && |states| == |css| == |physicsObjects|
      ensures forall k :: 0 <= k < |physicsObjects| ==>
        states[k] == old(physicsObjects[k].State()) && css[k] == Detected(physicsObjects, detect, k, |physicsObjects|)
      ensures Settled(physicsObjects, index, css, states, world)
      ensures Progress(env, physicsObjects, css, states, world, [], 0)
    {
      var objs := physicsObjects;
      world, states, index := Partners(objs), States(objs), Positions(objs);
      css := AllDetected(objs, detect);
      forall k | 0 <= k < |objs|
        ensures Forward(index, k, css[k])
      {
        DetectedForward(objs, index, detect, k, |objs|);
      }
      ReadyIsSettled(objs, index, css, states, world);
      calls := CheckPairs(detect);
      forall m | 0 <= m < |objs|
        ensures objs[m].State() == states[m] && objs[m].pending == css[m]
      {
      }
    }

    /**
     * One physics tick (main.cpp:440-449): all-pairs detection, then every
     * body's update. Each body's new state is its own tick over the contacts
     * it initiated, against every body as it was before the tick; the world
     * stays ready for the next tick.
     */
    method UpdatePhysics(env: Dynamics.Env, detect: (nat, nat) -> seq<Contact>)
      returns (hard: seq<Option<Dynamics.Hit<PhysicsObject>>>, ghost calls: seq<Call>)
      requires Valid()
      modifies (set o | o in physicsObjects)`position, (set o | o in physicsObjects)`velocity
      modifies (set o | o in physicsObjects)`netForce, (set o | o in physicsObjects)`normForce
      modifies (set o | o in physicsObjects)`impulse, (set o | o in physicsObjects)`acceleration
      modifies (set o | o in physicsObjects)`pending
      ensures Valid()
      ensures calls == Rows(|physicsObjects|, |physicsObjects|) + Updates(|physicsObjects|)
      ensures |hard| == |physicsObjects|
      ensures forall k :: 0 <= k < |physicsObjects| ==>
        var b, world := old(physicsObjects[k].State()), old(Partners(physicsObjects));
        var cs := Detected(physicsObjects, detect, k, |physicsObjects|);
        && Dynamics.Resolvable(env, b, cs, world)
        && physicsObjects[k].State() == Dynamics.Step(env, b, cs, world).body
        && hard[k] == Dynamics.Step(env, b, cs, world).hard
    {
      ghost var checks, index, css, states, world := BeginTick(env, detect);
      ghost var updates;
      hard, updates := UpdateAll(env, index, css, states, world);
      calls := checks + updates;
    }


    /**
     * The fixed-timestep part of one frame (main.cpp:868-872): bank the
     * frame's elapsed time, then, while at least one step `dt` is banked,
     * run a physics tick and withdraw `dt`. `detect(t)` is what the shape
     * tests report in tick `t` of the frame. For a non-negative balance it
     * runs `floor(balance / dt)` ticks and leaves less than one step, never
     * a negative amount.
     */
    method RunFixedSteps(env: Dynamics.Env, accumulator: real, deltaTime: real, detect: nat -> (nat, nat) -> seq<Contact>)
      returns (ticks: nat, rest: real)
      requires env.dt > 0.0 && Valid()
      modifies (set o | o in physicsObjects)`position, (set o | o in physicsObjects)`velocity
      modifies (set o | o in physicsObjects)`netForce, (set o | o in physicsObjects)`normForce
      modifies (set o | o in physicsObjects)`impulse, (set o | o in physicsObjects)`acceleration
      modifies (set o | o in physicsObjects)`pending
      ensures Valid()
      ensures var balance := accumulator + deltaTime;
        && rest == balance - ticks as real * env.dt && rest < env.dt
        && (balance >= 0.0 ==> 0.0 <= rest && ticks == (balance / env.dt).Floor)
    {
      ticks, rest := 0, accumulator + deltaTime;
      ghost var balance := rest;
      ghost var budget := EnoughSteps(balance, env.dt);
      while rest >= env.dt
        invariant Valid()
        invariant rest == balance - Withdrawn(env.dt, ticks)
        invariant balance >= 0.0 ==> rest >= 0.0
        invariant rest < Withdrawn(env.dt, budget + 1)
        decreases budget
      {
        var hard;
        ghost var calls;
        hard, calls := UpdatePhysics(env, detect(ticks));
        rest := rest - env.dt;
        ticks := ticks + 1;
        budget := budget - 1;
      }
      WithdrawnIsProduct(env.dt, ticks);
      if balance >= 0.0 {
        TicksAreFloor(balance, env.dt, ticks, rest);
      }
    }

    predicate Valid()
      reads this`physicsObjects
      reads (set o | o in physicsObjects)`pending, (set o | o in physicsObjects)`invMass
      reads (set o | o in physicsObjects)`velocity
    {
      Ready(physicsObjects)
    }
  }
}
