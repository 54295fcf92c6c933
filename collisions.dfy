/**
 * Pending contacts and the edge-contact filter that runs at the start of
 * `PhysicsObject::update`: a contact classified as an edge or vertex hit is
 * dropped when a face contact with a different body lies just behind it.
 *
 * A collision names the other body it was found against; the module is
 * generic in the type of that name `O`, which only needs equality (the
 * physics object module instantiates it with its class, compared by
 * reference as PhysicsObject.cpp compares `PhysicsObject *` pointers).
 */
module Collisions {
  import opened Vectors

  /** Which feature of the other shape was hit (`Collision::geom`). */
  datatype Geom = Face | Edge | Vert

  /**
   * What narrow-phase detection reports about one contact: the feature hit,
   * the contact point, the surface normal, the penetration depth and, for a
   * face contact, the first vertex of that face (`v[0]`), a point of its plane.
   */
  datatype Contact = Contact(geom: Geom, pos: Vec3, normal: Vec3, penetration: real, v0: Vec3)

  /** One pending collision of a body: the other body and the contact. */
  datatype Collision<O> = Collision(other: O, contact: Contact)

  predicate IsFace<O>(c: Collision<O>) { c.contact.geom == Face }

  /**
   * The test of PhysicsObject.cpp:57-65: face contact `f` suppresses contact
   * `k` when `k` is an edge or vertex contact against a different body and the
   * ray cast from `k`'s point against `f`'s normal meets `f`'s plane closer
   * than 0.1.
   */
  predicate Suppresses<O(==)>(g: Glm, f: Collision<O>, k: Collision<O>)
  {
    && f.contact.geom == Face
    && k.contact.geom != Face
    && f.other != k.other
    && g.rayPlane(k.contact.pos, Neg(f.contact.normal), f.contact.v0, f.contact.normal) < 0.1
  }

  /** Some contact of `cs` suppresses the contact at index `k`. */
  predicate Suppressed<O(==)>(g: Glm, cs: seq<Collision<O>>, k: nat)
    requires k < |cs|
  {
    exists f :: 0 <= f < |cs| && Suppresses(g, cs[f], cs[k])
  }

  /** The indices of the contacts the filter removes (`collisionsToRemove`). */
  function RemovalSet<O(==)>(g: Glm, cs: seq<Collision<O>>): (rm: set<nat>)
    ensures forall k :: k in rm ==> k < |cs| && !IsFace(cs[k])
  {
    set k: nat | k < |cs| && Suppressed(g, cs, k)
  }

  /** The contacts of `cs[from..]` whose index is not in `rm`, in their order. */
  function Keep<O>(cs: seq<Collision<O>>, rm: set<nat>, from: nat): seq<Collision<O>>
    requires from <= |cs|
    decreases |cs| - from
  {
    if from == |cs| then []
    else (if from in rm then [] else [cs[from]]) + Keep(cs, rm, from + 1)
  }

  /** The indices `Keep` keeps, ascending. */
  function KeptIndices(n: nat, rm: set<nat>, from: nat): seq<nat>
    requires from <= n
    decreases n - from
  {
    if from == n then []
    else (if from in rm then [] else [from]) + KeptIndices(n, rm, from + 1)
  }

  /** The pending contacts that survive the filter. */
  function Filter<O(==)>(g: Glm, cs: seq<Collision<O>>): seq<Collision<O>>
  {
    Keep(cs, RemovalSet(g, cs), 0)
  }

  predicate Ascending(s: seq<nat>)
  {
    forall a, b :: 0 <= a < b < |s| ==> s[a] < s[b]
  }

  /**
   * `Keep` is the subsequence of `cs` at exactly the indices at or after
   * `from` that are not in `rm`, in ascending order.
   */
  lemma {:induction false} KeepIsSubsequence<O>(cs: seq<Collision<O>>, rm: set<nat>, from: nat)
    requires from <= |cs|
    ensures var idx := KeptIndices(|cs|, rm, from);
      && |Keep(cs, rm, from)| == |idx|
      && Ascending(idx)
      && (forall t :: 0 <= t < |idx| ==> from <= idx[t] < |cs| && Keep(cs, rm, from)[t] == cs[idx[t]])
      && (forall k :: from <= k < |cs| ==> (k in idx <==> k !in rm))
    decreases |cs| - from
  {
    if from < |cs| {
      KeepIsSubsequence(cs, rm, from + 1);
      var tail := KeptIndices(|cs|, rm, from + 1);
      assert forall t :: 0 <= t < |tail| ==> from < tail[t];
      assert KeptIndices(|cs|, rm, from) == (if from in rm then [] else [from]) + tail;
      assert Keep(cs, rm, from) == (if from in rm then [] else [cs[from]]) + Keep(cs, rm, from + 1);
    }
  }

  /** With nothing to remove, `Keep` is the suffix from `from`. */
  lemma {:induction false} KeepNothing<O>(cs: seq<Collision<O>>, from: nat)
    requires from <= |cs|
    ensures Keep(cs, {}, from) == cs[from..]
    decreases |cs| - from
  {
    if from < |cs| {
      KeepNothing(cs, from + 1);
      assert cs[from..] == [cs[from]] + cs[from + 1..];
    }
  }

  /**
   * What the filter does, contact by contact: the survivors are the contacts
   * of `cs` in their original order, and the contact at index `k` survives
   * exactly when it is a face contact or no face contact against a different
   * body suppresses it.
   */
  lemma FilterSurvivors<O>(g: Glm, cs: seq<Collision<O>>)
    ensures var idx := KeptIndices(|cs|, RemovalSet(g, cs), 0);
      && |Filter(g, cs)| == |idx|
      && Ascending(idx)
      && (forall t :: 0 <= t < |idx| ==> idx[t] < |cs| && Filter(g, cs)[t] == cs[idx[t]])
      && (forall k :: 0 <= k < |cs| ==> (k in idx <==> IsFace(cs[k]) || !Suppressed(g, cs, k)))
  {
    KeepIsSubsequence(cs, RemovalSet(g, cs), 0);
  }

  /** The survivors are contacts of the input. */
  lemma FilterSubset<O>(g: Glm, cs: seq<Collision<O>>)
    ensures forall c :: c in Filter(g, cs) ==> c in cs
  {
    FilterSurvivors(g, cs);
  }

  /** Filtering never removes a face contact. */
  lemma FilterKeepsFaces<O>(g: Glm, cs: seq<Collision<O>>, k: nat)
    requires k < |cs| && IsFace(cs[k])
    ensures k in KeptIndices(|cs|, RemovalSet(g, cs), 0)
    ensures cs[k] in Filter(g, cs)
  {
    FilterSurvivors(g, cs);
    var idx := KeptIndices(|cs|, RemovalSet(g, cs), 0);
    var t :| 0 <= t < |idx| && idx[t] == k;
    assert Filter(g, cs)[t] == cs[k];
  }

  /**
   * Filtering is idempotent: every face contact survives and a surviving
   * edge or vertex contact was suppressed by none of them, so a second pass
   * removes nothing.
   */
  lemma FilterIdempotent<O>(g: Glm, cs: seq<Collision<O>>)
    ensures Filter(g, Filter(g, cs)) == Filter(g, cs)
  {
    var r := Filter(g, cs);
    var idx := KeptIndices(|cs|, RemovalSet(g, cs), 0);
    FilterSurvivors(g, cs);
    forall k: nat | k < |r|
      ensures !Suppressed(g, r, k)
    {
      assert r[k] == cs[idx[k]] && idx[k] in idx;
      forall f | 0 <= f < |r|
        ensures !Suppresses(g, r[f], r[k])
      {
        assert r[f] == cs[idx[f]];
      }
    }
    assert RemovalSet(g, r) == {};
    KeepNothing(r, 0);
  }

  /**
   * `faces` and `nonFaces` list, in ascending order, the indices of the face
   * contacts and of the other contacts of `cs`.
   */
  predicate Partitioned<O>(cs: seq<Collision<O>>, faces: seq<nat>, nonFaces: seq<nat>)
  {
    && Ascending(faces) && Ascending(nonFaces)
    && (forall t :: 0 <= t < |faces| ==> faces[t] < |cs| && IsFace(cs[faces[t]]))
    && (forall t :: 0 <= t < |nonFaces| ==> nonFaces[t] < |cs| && !IsFace(cs[nonFaces[t]]))
    && (forall k :: 0 <= k < |cs| && IsFace(cs[k]) ==> k in faces)
    && (forall k :: 0 <= k < |cs| && !IsFace(cs[k]) ==> k in nonFaces)
  }

  /**
   * The first loop of `update` (PhysicsObject.cpp:37-51): split the pending
   * contacts into face and non-face contacts, keeping their order. The
   * C++ loop collects pointers into `pendingCollisions`; the model collects
   * indices.
   */
  method PartitionByGeom<O>(cs: seq<Collision<O>>) returns (faces: seq<nat>, nonFaces: seq<nat>)
    ensures Partitioned(cs, faces, nonFaces)
  {
    faces, nonFaces := [], [];
    var i := 0;
    while i < |cs|
      invariant 0 <= i <= |cs|
      invariant Ascending(faces) && Ascending(nonFaces)
      invariant forall t :: 0 <= t < |faces| ==> faces[t] < i && IsFace(cs[faces[t]])
      invariant forall t :: 0 <= t < |nonFaces| ==> nonFaces[t] < i && !IsFace(cs[nonFaces[t]])
      invariant forall k :: 0 <= k < i && IsFace(cs[k]) ==> k in faces
      invariant forall k :: 0 <= k < i && !IsFace(cs[k]) ==> k in nonFaces
    {
      match cs[i].contact.geom {
        case Face =>
          faces := faces + [i];
        case Edge =>
          nonFaces := nonFaces + [i];
        case Vert =>
          nonFaces := nonFaces + [i];
      }
      i := i + 1;
    }
  }

  /** One of the first `i` faces listed in `faces` suppresses the contact at index `k`. */
  predicate MarkedBy<O(==)>(g: Glm, cs: seq<Collision<O>>, faces: seq<nat>, i: nat, k: nat)
    requires i <= |faces| && k < |cs|
    requires forall t :: 0 <= t < |faces| ==> faces[t] < |cs|
  {
    exists t :: 0 <= t < i && Suppresses(g, cs[faces[t]], cs[k])
  }

  lemma MarkedByNext<O>(g: Glm, cs: seq<Collision<O>>, faces: seq<nat>, i: nat, k: nat)
    requires i < |faces| && k < |cs|
    requires forall t :: 0 <= t < |faces| ==> faces[t] < |cs|
    ensures MarkedBy(g, cs, faces, i + 1, k)
      <==> MarkedBy(g, cs, faces, i, k) || Suppresses(g, cs[faces[i]], cs[k])
  {
  }

  lemma MarkedByAll<O>(g: Glm, cs: seq<Collision<O>>, faces: seq<nat>, nonFaces: seq<nat>, k: nat)
    requires Partitioned(cs, faces, nonFaces) && k < |cs|
    ensures MarkedBy(g, cs, faces, |faces|, k) <==> Suppressed(g, cs, k)
  {
    if Suppressed(g, cs, k) {
      var f :| 0 <= f < |cs| && Suppresses(g, cs[f], cs[k]);
      assert f in faces;
      var t :| 0 <= t < |faces| && faces[t] == f;
    }
  }

  /**
   * The nested loop of PhysicsObject.cpp:52-68: every (face, non-face) pair
   * against different bodies whose ray-plane distance is below 0.1 marks the
   * non-face contact for removal.
   */
  method MarkSuppressed<O(==)>(g: Glm, cs: seq<Collision<O>>, faces: seq<nat>, nonFaces: seq<nat>)
    returns (rm: set<nat>)
    requires Partitioned(cs, faces, nonFaces)
    ensures rm == RemovalSet(g, cs)
  {
    rm := {};
    var i := 0;
    while i < |faces|
      invariant 0 <= i <= |faces|
      invariant forall k :: k in rm ==> k < |cs|
      invariant forall k: nat :: k < |cs| ==> (k in rm <==> MarkedBy(g, cs, faces, i, k))
    {
      var j := 0;
      while j < |nonFaces|
        invariant 0 <= j <= |nonFaces|
        invariant forall k :: k in rm ==> k < |cs|
        invariant forall k: nat :: k < |cs| ==>
          (k in rm <==> MarkedBy(g, cs, faces, i, k)
                        || (Suppresses(g, cs[faces[i]], cs[k]) && exists u :: 0 <= u < j && nonFaces[u] == k))
      {
        var f, n := cs[faces[i]], cs[nonFaces[j]];
        if f.other != n.other {
          var d := g.rayPlane(n.contact.pos, Neg(f.contact.normal), f.contact.v0, f.contact.normal);
          if d < 0.1 {
            rm := rm + {nonFaces[j]};
          }
        }
        j := j + 1;
      }
      forall k: nat | k < |cs|
        ensures k in rm <==> MarkedBy(g, cs, faces, i + 1, k)
      {
        MarkedByNext(g, cs, faces, i, k);
        if Suppresses(g, cs[faces[i]], cs[k]) {
          assert k in nonFaces;
        }
      }
      i := i + 1;
    }
    forall k: nat | k < |cs|
      ensures k in rm <==> Suppressed(g, cs, k)
    {
      MarkedByAll(g, cs, faces, nonFaces, k);
    }
  }
}
