/**
 The contact-reporting pass of the physics step: once per step it walks the
 collision registry, sends the `Collision`, `CollisionStarted` and
 `CollisionEnded` events, and keeps every entity's `CollidingEntities` set in
 step with the registry's two touching flags.

 Entities (`E`) and the contact geometry (`M`) are type parameters: the pass
 only compares entities for equality and never looks inside the geometry.
 */
module ContactReporting {
  import opened Sequences

  /** The registry's record of one entity pair: whether the pair touched in the
      step just completed and in the step before it, and the contact manifolds,
      which the pass forwards untouched. */
  datatype Contacts<E, M> = Contacts(
    entity1: E,
    entity2: E,
    duringCurrentFrame: bool,
    duringPreviousFrame: bool,
    manifolds: M)

  /** Sent for every pair that touches in the current step; carries the pair's
      whole contact record. */
  datatype Collision<E, M> = Collision(contacts: Contacts<E, M>)

  /** Sent when two entities start touching. */
  datatype CollisionStarted<E> = CollisionStarted(entity1: E, entity2: E)

  /** Sent when two entities stop touching. */
  datatype CollisionEnded<E> = CollisionEnded(entity1: E, entity2: E)

  /** The four ways the two flags of a record can combine. */
  datatype Transition = Started | Continuing | Ended | Idle

  function Classify<E, M>(c: Contacts<E, M>): (t: Transition)
    ensures t == Started <==> !c.duringPreviousFrame && c.duringCurrentFrame
    ensures t == Continuing <==> c.duringPreviousFrame && c.duringCurrentFrame
    ensures t == Ended <==> c.duringPreviousFrame && !c.duringCurrentFrame
    ensures t == Idle <==> !c.duringPreviousFrame && !c.duringCurrentFrame
  {
    if c.duringCurrentFrame then
      if c.duringPreviousFrame then Continuing else Started
    else
      if c.duringPreviousFrame then Ended else Idle
  }

  predicate IsCurrent<E, M>(c: Contacts<E, M>)
  {
    c.duringCurrentFrame
  }

  predicate IsStarted<E, M>(c: Contacts<E, M>)
  {
    Classify(c) == Started
  }

  predicate IsEnded<E, M>(c: Contacts<E, M>)
  {
    Classify(c) == Ended
  }

  // ---------------------------------------------------------------------------
  // The events one record gives rise to, and the three streams of a pass.

  /** The `Collision` a record gives rise to: one, carrying the record
      unchanged, exactly when the pair touches in the current step. */
  function CollisionOf<E, M>(c: Contacts<E, M>): (r: seq<Collision<E, M>>)
    ensures |r| == (if c.duringCurrentFrame then 1 else 0)
    ensures forall ev :: ev in r ==> ev.contacts == c
  {
    if IsCurrent(c) then [Collision(c)] else []
  }

  /** The `CollisionStarted` a record gives rise to: one, naming the record's
      two entities in order, exactly when the pair touches now and did not
      before. */
  function StartedOf<E, M>(c: Contacts<E, M>): (r: seq<CollisionStarted<E>>)
    ensures |r| == (if !c.duringPreviousFrame && c.duringCurrentFrame then 1 else 0)
    ensures forall ev :: ev in r ==> ev.entity1 == c.entity1 && ev.entity2 == c.entity2
  {
    if IsStarted(c) then [CollisionStarted(c.entity1, c.entity2)] else []
  }

  /** The `CollisionEnded` a record gives rise to: one, naming the record's two
      entities in order, exactly when the pair touched before and does not
      now. */
  function EndedOf<E, M>(c: Contacts<E, M>): (r: seq<CollisionEnded<E>>)
    ensures |r| == (if c.duringPreviousFrame && !c.duringCurrentFrame then 1 else 0)
    ensures forall ev :: ev in r ==> ev.entity1 == c.entity1 && ev.entity2 == c.entity2
  {
    if IsEnded(c) then [CollisionEnded(c.entity1, c.entity2)] else []
  }

  /** The `Collision` events of a pass over `registry`, in registry order: one
      per record that touches now. */
  function CollisionEvents<E, M>(registry: seq<Contacts<E, M>>): (r: seq<Collision<E, M>>)
    ensures |r| == Count(registry, IsCurrent)
  {
    FlatMapLength(registry, CollisionOf, IsCurrent);
    FlatMap(registry, CollisionOf)
  }

  /** The `CollisionStarted` events of a pass over `registry`, in registry
      order: one per started record. */
  function StartedEvents<E, M>(registry: seq<Contacts<E, M>>): (r: seq<CollisionStarted<E>>)
    ensures |r| == Count(registry, IsStarted)
  {
    FlatMapLength(registry, StartedOf, IsStarted);
    FlatMap(registry, StartedOf)
  }

  /** The `CollisionEnded` events of a pass over `registry`, in registry order:
      one per ended record. */
  function EndedEvents<E, M>(registry: seq<Contacts<E, M>>): (r: seq<CollisionEnded<E>>)
    ensures |r| == Count(registry, IsEnded)
  {
    FlatMapLength(registry, EndedOf, IsEnded);
    FlatMap(registry, EndedOf)
  }

  // ---------------------------------------------------------------------------
  // The `CollidingEntities` sets. An entity that can no longer be resolved
  // (despawned, or without the component) has no entry in the map.

  /** Adds `other` to the set of `owner`, or does nothing when `owner` cannot be
      resolved. */
  function InsertInto<E>(colliders: map<E, set<E>>, owner: E, other: E): (r: map<E, set<E>>)
    ensures r.Keys == colliders.Keys
    ensures owner in colliders ==> r[owner] == colliders[owner] + {other}
    ensures forall e :: e in colliders && e != owner ==> r[e] == colliders[e]
  {
    if owner in colliders then colliders[owner := colliders[owner] + {other}] else colliders
  }

  /** Removes `other` from the set of `owner`, or does nothing when `owner`
      cannot be resolved. */
  function RemoveFrom<E>(colliders: map<E, set<E>>, owner: E, other: E): (r: map<E, set<E>>)
    ensures r.Keys == colliders.Keys
    ensures owner in colliders ==> r[owner] == colliders[owner] - {other}
    ensures forall e :: e in colliders && e != owner ==> r[e] == colliders[e]
  {
    if owner in colliders then colliders[owner := colliders[owner] - {other}] else colliders
  }

  /** The sets after the pass has handled one record. */
  function StepColliders<E, M>(colliders: map<E, set<E>>, c: Contacts<E, M>): (r: map<E, set<E>>)
    ensures r.Keys == colliders.Keys
    ensures forall e :: e in colliders && e != c.entity1 && e != c.entity2 ==> r[e] == colliders[e]
    ensures !IsStarted(c) && !IsEnded(c) ==> r == colliders
  {
    match Classify(c)
    case Started =>
      InsertInto(InsertInto(colliders, c.entity1, c.entity2), c.entity2, c.entity1)
    case Ended =>
      RemoveFrom(RemoveFrom(colliders, c.entity1, c.entity2), c.entity2, c.entity1)
    case _ => colliders
  }

  /** The sets after the pass has handled every record of `registry`, in order. */
  function CollidersAfter<E, M>(colliders: map<E, set<E>>, registry: seq<Contacts<E, M>>): (r: map<E, set<E>>)
    ensures r.Keys == colliders.Keys
  {
    if registry == [] then colliders
    else StepColliders(CollidersAfter(colliders, registry[..|registry| - 1]), registry[|registry| - 1])
  }

  /** Handling one more record of the registry extends the streams by that
      record's events and applies that record's step to the sets. */
  lemma PassExtends<E, M>(colliders: map<E, set<E>>, registry: seq<Contacts<E, M>>, i: nat)
    requires i < |registry|
    ensures CollidersAfter(colliders, registry[..i + 1])
         == StepColliders(CollidersAfter(colliders, registry[..i]), registry[i])
    ensures CollisionEvents(registry[..i + 1]) == CollisionEvents(registry[..i]) + CollisionOf(registry[i])
    ensures StartedEvents(registry[..i + 1]) == StartedEvents(registry[..i]) + StartedOf(registry[i])
    ensures EndedEvents(registry[..i + 1]) == EndedEvents(registry[..i]) + EndedOf(registry[i])
  {
    var done := registry[..i + 1];
    assert done[..i] == registry[..i] && done[i] == registry[i];
  }

  // ---------------------------------------------------------------------------
  // The pass itself.

  /**
   The body of the pass for one registry record: the events of its class are
   appended to the writers, and the sets of its resolvable entities updated.
   */
  method ReportPair<E, M>(
    contacts: Contacts<E, M>,
    colliders: map<E, set<E>>,
    collisions: seq<Collision<E, M>>,
    started: seq<CollisionStarted<E>>,
    ended: seq<CollisionEnded<E>>)
    returns (
      newColliders: map<E, set<E>>,
      newCollisions: seq<Collision<E, M>>,
      newStarted: seq<CollisionStarted<E>>,
      newEnded: seq<CollisionEnded<E>>)
    ensures newColliders == StepColliders(colliders, contacts)
    ensures newCollisions == collisions + CollisionOf(contacts)
    ensures newStarted == started + StartedOf(contacts)
    ensures newEnded == ended + EndedOf(contacts)
  {
    newColliders, newCollisions, newStarted, newEnded := colliders, collisions, started, ended;
    var entity1, entity2 := contacts.entity1, contacts.entity2;
    if contacts.duringCurrentFrame {
      newCollisions := newCollisions + [Collision(contacts)];

      // Collision started
      if !contacts.duringPreviousFrame {
        newStarted := newStarted + [CollisionStarted(entity1, entity2)];

        if entity1 in newColliders {
          newColliders := newColliders[entity1 := newColliders[entity1] + {entity2}];
        }
        if entity2 in newColliders {
          newColliders := newColliders[entity2 := newColliders[entity2] + {entity1}];
        }
      }
    }

    // Collision ended
    if !contacts.duringCurrentFrame && contacts.duringPreviousFrame {
      newEnded := newEnded + [CollisionEnded(entity1, entity2)];

      if entity1 in newColliders {
        newColliders := newColliders[entity1 := newColliders[entity1] - {entity2}];
      }
      if entity2 in newColliders {
        newColliders := newColliders[entity2 := newColliders[entity2] - {entity1}];
      }
    }
  }

  /**
   One run of the contact-reporting system. The three event writers are
   append-only streams passed in and returned extended; `colliders` holds the
   `CollidingEntities` set of every entity that can be resolved. `elapsed` is
   the duration the caller's clock measured for the pass; it is written to the
   diagnostics slot once, whatever the registry holds.
   */
  method ReportContacts<E, M>(
    registry: seq<Contacts<E, M>>,
    colliders: map<E, set<E>>,
    collisionWriter: seq<Collision<E, M>>,
    startedWriter: seq<CollisionStarted<E>>,
    endedWriter: seq<CollisionEnded<E>>,
    elapsed: nat)
    returns (
      newColliders: map<E, set<E>>,
      collisions: seq<Collision<E, M>>,
      started: seq<CollisionStarted<E>>,
      ended: seq<CollisionEnded<E>>,
      collisionEventsTime: nat)
    ensures newColliders == CollidersAfter(colliders, registry)
    ensures newColliders.Keys == colliders.Keys
    ensures collisions == collisionWriter + CollisionEvents(registry)
    ensures started == startedWriter + StartedEvents(registry)
    ensures ended == endedWriter + EndedEvents(registry)
    ensures collisionEventsTime == elapsed
  {
    newColliders, collisions, started, ended := colliders, collisionWriter, startedWriter, endedWriter;
    var i := 0;
    while i < |registry|
      invariant 0 <= i <= |registry|
      invariant newColliders == CollidersAfter(colliders, registry[..i])
      invariant collisions == collisionWriter + CollisionEvents(registry[..i])
      invariant started == startedWriter + StartedEvents(registry[..i])
      invariant ended == endedWriter + EndedEvents(registry[..i])
    {
      PassExtends(colliders, registry, i);
      AppendAssociative(collisionWriter, CollisionEvents(registry[..i]), CollisionOf(registry[i]));
      AppendAssociative(startedWriter, StartedEvents(registry[..i]), StartedOf(registry[i]));
      AppendAssociative(endedWriter, EndedEvents(registry[..i]), EndedOf(registry[i]));
      newColliders, collisions, started, ended := ReportPair(registry[i], newColliders, collisions, started, ended);
      i := i + 1;
    }
    assert registry[..i] == registry;
    collisionEventsTime := elapsed;
  }
}
