/**
 What the contact-reporting pass guarantees, stated over the specification
 functions that `ReportContacts` is proved to compute.

 The registry is keyed by entity pair, so a well-formed registry
 (`ValidRegistry`) holds no self-pair and at most one record per unordered
 pair. Only the lemmas that identify a pair's one record rely on that: the
 closed form of the sets and what follows from it (`TransitionEffects`,
 `CollidersTrackCurrentFrame`, the two order-independence lemmas) and
 `EmittedExactlyOnce`. Everything else holds for any registry.
 */
module ContactProperties {
  import opened Sequences
  import opened ContactReporting

  /** c is a record of the pair {x, y}. */
  ghost predicate Connects<E, M>(c: Contacts<E, M>, x: E, y: E)
  {
    (c.entity1 == x && c.entity2 == y) || (c.entity2 == x && c.entity1 == y)
  }

  /** c and d are records of the same unordered pair. */
  ghost predicate SamePair<E, M>(c: Contacts<E, M>, d: Contacts<E, M>)
  {
    Connects(c, d.entity1, d.entity2)
  }

  ghost predicate ValidRegistry<E, M>(registry: seq<Contacts<E, M>>)
  {
    && (forall i :: 0 <= i < |registry| ==> registry[i].entity1 != registry[i].entity2)
    && (forall i, j :: 0 <= i < j < |registry| ==> !SamePair(registry[i], registry[j]))
  }

  /** The entities paired with x by some record of `registry` of class t. */
  ghost function Partners<E, M>(registry: seq<Contacts<E, M>>, x: E, t: Transition): set<E>
  {
    (set c | c in registry && Classify(c) == t && c.entity1 == x :: c.entity2)
    + (set c | c in registry && Classify(c) == t && c.entity2 == x :: c.entity1)
  }

  /** The sets agree with one of the registry's flags: for every record, each
      resolvable side holds the other side exactly when the flag is set. */
  ghost predicate SetsReflect<E, M>(colliders: map<E, set<E>>, registry: seq<Contacts<E, M>>, current: bool)
  {
    forall c :: c in registry ==>
      var flag := if current then c.duringCurrentFrame else c.duringPreviousFrame;
      && (c.entity1 in colliders ==> (c.entity2 in colliders[c.entity1] <==> flag))
      && (c.entity2 in colliders ==> (c.entity1 in colliders[c.entity2] <==> flag))
  }

  // ---------------------------------------------------------------------------
  // Helpers about well-formed registries.

  lemma ValidPrefix<E, M>(registry: seq<Contacts<E, M>>, n: nat)
    requires ValidRegistry(registry) && n <= |registry|
    ensures ValidRegistry(registry[..n])
  {
    var p := registry[..n];
    forall i | 0 <= i < |p| ensures p[i].entity1 != p[i].entity2 {
      assert p[i] == registry[i];
    }
    forall i, j | 0 <= i < j < |p| ensures !SamePair(p[i], p[j]) {
      assert p[i] == registry[i] && p[j] == registry[j];
    }
  }

  /** A well-formed registry holds each record at most once. */
  lemma {:induction false} ValidAtMostOnce<E, M>(registry: seq<Contacts<E, M>>, c: Contacts<E, M>)
    requires ValidRegistry(registry)
    ensures multiset(registry)[c] <= 1
    decreases |registry|
  {
    if registry != [] {
      var n := |registry| - 1;
      var prefix := registry[..n];
      assert registry == prefix + [registry[n]];
      ValidPrefix(registry, n);
      ValidAtMostOnce(prefix, c);
      forall j | 0 <= j < n ensures prefix[j] != registry[n] {
        assert !SamePair(registry[j], registry[n]);
      }
    }
  }

  /** Any reordering of a well-formed registry is well-formed. */
  lemma ValidPermutation<E, M>(r1: seq<Contacts<E, M>>, r2: seq<Contacts<E, M>>)
    requires ValidRegistry(r1) && multiset(r1) == multiset(r2)
    ensures ValidRegistry(r2)
  {
    forall i | 0 <= i < |r2| ensures r2[i].entity1 != r2[i].entity2 {
      assert r2[i] in multiset(r1);
    }
    forall i, j | 0 <= i < j < |r2| ensures !SamePair(r2[i], r2[j]) {
      Occurrences(r2, i, j);
      ValidAtMostOnce(r1, r2[i]);
      assert r2[i] in multiset(r1) && r2[j] in multiset(r1);
      var p :| 0 <= p < |r1| && r1[p] == r2[i];
      var q :| 0 <= q < |r1| && r1[q] == r2[j];
      if p < q {
        assert !SamePair(r1[p], r1[q]);
      } else {
        assert !SamePair(r1[q], r1[p]);
      }
    }
  }

  /** In a well-formed registry the record of a pair is the only one connecting
      its two entities. */
  lemma OnlyRecordOfPair<E, M>(registry: seq<Contacts<E, M>>, i: nat, j: nat, x: E, y: E)
    requires ValidRegistry(registry) && i < |registry| && j < |registry|
    requires Connects(registry[i], x, y) && Connects(registry[j], x, y)
    ensures i == j
  {
  }

  lemma PartnerWitness<E, M>(registry: seq<Contacts<E, M>>, x: E, y: E, t: Transition)
    requires y in Partners(registry, x, t)
    ensures exists j :: 0 <= j < |registry| && Classify(registry[j]) == t && Connects(registry[j], x, y)
  {
    var c :| c in registry && Classify(c) == t && Connects(c, x, y);
    var j :| 0 <= j < |registry| && registry[j] == c;
  }

  /** Partners are decided by the one record of the pair: y is a partner of x
      of class t exactly when the record connecting them has class t. */
  lemma PartnersOfPair<E, M>(registry: seq<Contacts<E, M>>, i: nat, x: E, y: E, t: Transition)
    requires ValidRegistry(registry) && i < |registry|
    requires Connects(registry[i], x, y)
    ensures y in Partners(registry, x, t) <==> Classify(registry[i]) == t
  {
    if y in Partners(registry, x, t) {
      PartnerWitness(registry, x, y, t);
      var j :| 0 <= j < |registry| && Classify(registry[j]) == t && Connects(registry[j], x, y);
      OnlyRecordOfPair(registry, i, j, x, y);
    }
    if Classify(registry[i]) == t {
      var c := registry[i];
      assert c in registry;
      if c.entity1 == x {
        assert y in (set d | d in registry && Classify(d) == t && d.entity1 == x :: d.entity2);
      } else {
        assert y in (set d | d in registry && Classify(d) == t && d.entity2 == x :: d.entity1);
      }
    }
  }

  lemma PartnersSnoc<E, M>(registry: seq<Contacts<E, M>>, c: Contacts<E, M>, x: E, t: Transition)
    ensures Partners(registry + [c], x, t)
         == Partners(registry, x, t)
          + (if Classify(c) == t && c.entity1 == x then {c.entity2} else {})
          + (if Classify(c) == t && c.entity2 == x then {c.entity1} else {})
  {
    var r := registry + [c];
    assert forall d :: d in r <==> d in registry || d == c;
  }

  // ---------------------------------------------------------------------------
  // The `CollidingEntities` sets after a pass.

  /**
   The set of a resolvable entity x after the pass is its set before, plus every
   entity x started touching, minus every entity x stopped touching. No other
   change is made, whatever the order of the registry.
   */
  lemma {:induction false} CollidersAfterClosedForm<E, M>(colliders: map<E, set<E>>, registry: seq<Contacts<E, M>>, x: E)
    requires ValidRegistry(registry)
    requires x in colliders
    ensures x in CollidersAfter(colliders, registry)
    ensures CollidersAfter(colliders, registry)[x]
         == colliders[x] + Partners(registry, x, Started) - Partners(registry, x, Ended)
    decreases |registry|
  {
    if registry == [] {
      assert Partners(registry, x, Started) == {};
      assert Partners(registry, x, Ended) == {};
    } else {
      var n := |registry| - 1;
      var prefix, c := registry[..n], registry[n];
      assert registry == prefix + [c];
      ValidPrefix(registry, n);
      CollidersAfterClosedForm(colliders, prefix, x);
      PartnersSnoc(prefix, c, x, Started);
      PartnersSnoc(prefix, c, x, Ended);
      var before := CollidersAfter(colliders, prefix);
      StepOnEntity(before, c, x);
      if IsStarted(c) && (c.entity1 == x || c.entity2 == x) {
        var y := if c.entity1 == x then c.entity2 else c.entity1;
        assert Connects(c, x, y);
        PartnersOfPair(registry, n, x, y, Ended);
        assert y !in Partners(prefix, x, Ended);
      }
    }
  }

  /** What handling record c does to the set of a resolvable entity x. */
  lemma StepOnEntity<E, M>(before: map<E, set<E>>, c: Contacts<E, M>, x: E)
    requires x in before
    ensures x in StepColliders(before, c)
    ensures StepColliders(before, c)[x]
         == if c.entity1 != x && c.entity2 != x then before[x]
            else
              var y := if c.entity1 == x then c.entity2 else c.entity1;
              if IsStarted(c) then before[x] + {y}
              else if IsEnded(c) then before[x] - {y}
              else before[x]
  {
  }

  /**
   The effect of one record on its own two entities, for each class. A started
   pair ends up in each resolvable side's set and an ended pair is gone from
   each; a continuing or idle pair leaves each side's knowledge of the other as
   it was. An unresolvable side stays unresolvable (no set is created for it)
   while the other side is still updated.
   */
  lemma TransitionEffects<E, M>(colliders: map<E, set<E>>, registry: seq<Contacts<E, M>>, i: nat)
    requires ValidRegistry(registry) && i < |registry|
    ensures var c, after := registry[i], CollidersAfter(colliders, registry);
      && (c.entity1 in after <==> c.entity1 in colliders)
      && (c.entity2 in after <==> c.entity2 in colliders)
      && (IsStarted(c) ==>
            && (c.entity1 in colliders ==> c.entity2 in after[c.entity1])
            && (c.entity2 in colliders ==> c.entity1 in after[c.entity2]))
      && (IsEnded(c) ==>
            && (c.entity1 in colliders ==> c.entity2 !in after[c.entity1])
            && (c.entity2 in colliders ==> c.entity1 !in after[c.entity2]))
      && (!IsStarted(c) && !IsEnded(c) ==>
            && (c.entity1 in colliders ==> (c.entity2 in after[c.entity1] <==> c.entity2 in colliders[c.entity1]))
            && (c.entity2 in colliders ==> (c.entity1 in after[c.entity2] <==> c.entity1 in colliders[c.entity2])))
  {
    var c := registry[i];
    assert Connects(c, c.entity1, c.entity2) && Connects(c, c.entity2, c.entity1);
    if c.entity1 in colliders {
      CollidersAfterClosedForm(colliders, registry, c.entity1);
      PartnersOfPair(registry, i, c.entity1, c.entity2, Started);
      PartnersOfPair(registry, i, c.entity1, c.entity2, Ended);
    }
    if c.entity2 in colliders {
      CollidersAfterClosedForm(colliders, registry, c.entity2);
      PartnersOfPair(registry, i, c.entity2, c.entity1, Started);
      PartnersOfPair(registry, i, c.entity2, c.entity1, Ended);
    }
  }

  /** The set of an entity that no started or ended record involves is left
      exactly as it was. */
  lemma {:induction false} UntouchedSetsUnchanged<E, M>(colliders: map<E, set<E>>, registry: seq<Contacts<E, M>>, x: E)
    requires x in colliders
    requires forall i :: 0 <= i < |registry| && (IsStarted(registry[i]) || IsEnded(registry[i])) ==>
               registry[i].entity1 != x && registry[i].entity2 != x
    ensures CollidersAfter(colliders, registry)[x] == colliders[x]
    decreases |registry|
  {
    if registry != [] {
      var prefix := registry[..|registry| - 1];
      assert forall i :: 0 <= i < |prefix| ==> prefix[i] == registry[i];
      UntouchedSetsUnchanged(colliders, prefix, x);
    }
  }

  /**
   The per-step invariant of the sets: if before the pass they agree with the
   previous-frame flags of the registry, then after the pass they agree with
   its current-frame flags. Started pairs are added, ended pairs removed, and
   continuing pairs were already present.
   */
  lemma CollidersTrackCurrentFrame<E, M>(colliders: map<E, set<E>>, registry: seq<Contacts<E, M>>)
    requires ValidRegistry(registry)
    requires SetsReflect(colliders, registry, false)
    ensures SetsReflect(CollidersAfter(colliders, registry), registry, true)
  {
    forall c | c in registry
      ensures var after := CollidersAfter(colliders, registry);
        && (c.entity1 in after ==> (c.entity2 in after[c.entity1] <==> c.duringCurrentFrame))
        && (c.entity2 in after ==> (c.entity1 in after[c.entity2] <==> c.duringCurrentFrame))
    {
      var i :| 0 <= i < |registry| && registry[i] == c;
      TransitionEffects(colliders, registry, i);
    }
  }

  // ---------------------------------------------------------------------------
  // The events of a pass.

  /**
   Every record produces exactly the events of its class, once each: a
   `Collision` carrying the record unchanged when the pair touches now, a
   `CollisionStarted` for its two entities only when it starts, and a
   `CollisionEnded` only when it ends.
   */
  lemma EmittedExactlyOnce<E, M>(registry: seq<Contacts<E, M>>, i: nat)
    requires ValidRegistry(registry) && i < |registry|
    ensures var c := registry[i];
      && multiset(CollisionEvents(registry))[Collision(c)] == (if c.duringCurrentFrame then 1 else 0)
      && multiset(StartedEvents(registry))[CollisionStarted(c.entity1, c.entity2)]
           == (if !c.duringPreviousFrame && c.duringCurrentFrame then 1 else 0)
      && multiset(EndedEvents(registry))[CollisionEnded(c.entity1, c.entity2)]
           == (if c.duringPreviousFrame && !c.duringCurrentFrame then 1 else 0)
  {
    var c := registry[i];
    forall j | 0 <= j < |registry| && j != i
      ensures Collision(c) !in CollisionOf(registry[j])
      ensures CollisionStarted(c.entity1, c.entity2) !in StartedOf(registry[j])
      ensures CollisionEnded(c.entity1, c.entity2) !in EndedOf(registry[j])
    {
      if i < j {
        assert !SamePair(registry[i], registry[j]);
      } else {
        assert !SamePair(registry[j], registry[i]);
      }
    }
    FlatMapOnlyFrom(registry, CollisionOf, i, Collision(c));
    FlatMapOnlyFrom(registry, StartedOf, i, CollisionStarted(c.entity1, c.entity2));
    FlatMapOnlyFrom(registry, EndedOf, i, CollisionEnded(c.entity1, c.entity2));
  }

  /** Every event comes from a record of its class in the registry. */
  lemma EventsComeFromRegistry<E, M>(registry: seq<Contacts<E, M>>)
    ensures forall ev :: ev in CollisionEvents(registry) ==>
      ev.contacts in registry && ev.contacts.duringCurrentFrame
    ensures forall ev :: ev in StartedEvents(registry) ==>
      exists c :: c in registry && IsStarted(c) && ev == CollisionStarted(c.entity1, c.entity2)
    ensures forall ev :: ev in EndedEvents(registry) ==>
      exists c :: c in registry && IsEnded(c) && ev == CollisionEnded(c.entity1, c.entity2)
  {
    forall ev | ev in CollisionEvents(registry)
      ensures ev.contacts in registry && ev.contacts.duringCurrentFrame
    {
      FlatMapMember(registry, CollisionOf, ev);
    }
    forall ev | ev in StartedEvents(registry)
      ensures exists c :: c in registry && IsStarted(c) && ev == CollisionStarted(c.entity1, c.entity2)
    {
      FlatMapMember(registry, StartedOf, ev);
      var j :| 0 <= j < |registry| && ev in StartedOf(registry[j]);
      assert registry[j] in registry;
    }
    forall ev | ev in EndedEvents(registry)
      ensures exists c :: c in registry && IsEnded(c) && ev == CollisionEnded(c.entity1, c.entity2)
    {
      FlatMapMember(registry, EndedOf, ev);
      var j :| 0 <= j < |registry| && ev in EndedOf(registry[j]);
      assert registry[j] in registry;
    }
  }

  /**
   Each stream follows registry order: the event of record i sits at the
   position given by the number of events of the records before it, and for
   i < j the event of record i comes before the event of record j.
   */
  lemma EventsFollowRegistryOrder<E, M>(registry: seq<Contacts<E, M>>, i: nat, j: nat)
    requires i < j < |registry|
    ensures IsCurrent(registry[i]) && IsCurrent(registry[j]) ==>
      var p, q := |CollisionEvents(registry[..i])|, |CollisionEvents(registry[..j])|;
      && p < q < |CollisionEvents(registry)|
      && CollisionEvents(registry)[p] == Collision(registry[i])
      && CollisionEvents(registry)[q] == Collision(registry[j])
    ensures IsStarted(registry[i]) && IsStarted(registry[j]) ==>
      var p, q := |StartedEvents(registry[..i])|, |StartedEvents(registry[..j])|;
      && p < q < |StartedEvents(registry)|
      && StartedEvents(registry)[p] == CollisionStarted(registry[i].entity1, registry[i].entity2)
      && StartedEvents(registry)[q] == CollisionStarted(registry[j].entity1, registry[j].entity2)
    ensures IsEnded(registry[i]) && IsEnded(registry[j]) ==>
      var p, q := |EndedEvents(registry[..i])|, |EndedEvents(registry[..j])|;
      && p < q < |EndedEvents(registry)|
      && EndedEvents(registry)[p] == CollisionEnded(registry[i].entity1, registry[i].entity2)
      && EndedEvents(registry)[q] == CollisionEnded(registry[j].entity1, registry[j].entity2)
  {
    FlatMapPosition(registry, CollisionOf, i, j);
    FlatMapPosition(registry, CollisionOf, j, |registry|);
    FlatMapPosition(registry, StartedOf, i, j);
    FlatMapPosition(registry, StartedOf, j, |registry|);
    FlatMapPosition(registry, EndedOf, i, j);
    FlatMapPosition(registry, EndedOf, j, |registry|);
  }

  // ---------------------------------------------------------------------------
  // Whole-pass consequences.

  /**
   The registry's iteration order is unspecified. Two passes over registries
   holding the same records in different orders leave the same sets and send
   the same events, possibly in another order.
   */
  lemma OrderIndependence<E, M>(colliders: map<E, set<E>>, r1: seq<Contacts<E, M>>, r2: seq<Contacts<E, M>>)
    requires ValidRegistry(r1)
    requires multiset(r1) == multiset(r2)
    ensures CollidersAfter(colliders, r1) == CollidersAfter(colliders, r2)
    ensures multiset(CollisionEvents(r1)) == multiset(CollisionEvents(r2))
    ensures multiset(StartedEvents(r1)) == multiset(StartedEvents(r2))
    ensures multiset(EndedEvents(r1)) == multiset(EndedEvents(r2))
  {
    FlatMapPermutation(r1, r2, CollisionOf);
    FlatMapPermutation(r1, r2, StartedOf);
    FlatMapPermutation(r1, r2, EndedOf);
    CollidersOrderIndependent(colliders, r1, r2);
  }

  lemma PartnersOfSameRecords<E, M>(r1: seq<Contacts<E, M>>, r2: seq<Contacts<E, M>>, x: E, t: Transition)
    requires forall c :: c in r1 <==> c in r2
    ensures Partners(r1, x, t) == Partners(r2, x, t)
  {
  }

  lemma CollidersOrderIndependent<E, M>(colliders: map<E, set<E>>, r1: seq<Contacts<E, M>>, r2: seq<Contacts<E, M>>)
    requires ValidRegistry(r1)
    requires multiset(r1) == multiset(r2)
    ensures CollidersAfter(colliders, r1) == CollidersAfter(colliders, r2)
  {
    ValidPermutation(r1, r2);
    forall c ensures c in r1 <==> c in r2 {
      assert c in r1 <==> c in multiset(r1);
      assert c in r2 <==> c in multiset(r2);
    }
    var a1, a2 := CollidersAfter(colliders, r1), CollidersAfter(colliders, r2);
    forall x | x in colliders ensures a1[x] == a2[x] {
      CollidersAfterClosedForm(colliders, r1, x);
      CollidersAfterClosedForm(colliders, r2, x);
      PartnersOfSameRecords(r1, r2, x, Started);
      PartnersOfSameRecords(r1, r2, x, Ended);
    }
  }

  /** A registry with only idle records sends nothing and changes no set. */
  lemma {:induction false} IdleRegistryIsSilent<E, M>(colliders: map<E, set<E>>, registry: seq<Contacts<E, M>>)
    requires forall i :: 0 <= i < |registry| ==> Classify(registry[i]) == Idle
    ensures CollisionEvents(registry) == [] && StartedEvents(registry) == [] && EndedEvents(registry) == []
    ensures CollidersAfter(colliders, registry) == colliders
    decreases |registry|
  {
    if registry != [] {
      var prefix := registry[..|registry| - 1];
      assert forall i :: 0 <= i < |prefix| ==> prefix[i] == registry[i];
      IdleRegistryIsSilent(colliders, prefix);
    }
  }

  /**
   A pair over three steps: it starts touching, keeps touching, then separates.
   The first pass sends a `Collision` and a `CollisionStarted` and links the two
   sets, the second sends only a `Collision`, and the third sends a
   `CollisionEnded` and empties both sets again.
   */
  lemma ContactLifecycle<E, M>(a: E, b: E, manifolds: M)
    requires a != b
    ensures
      var step1 := [Contacts(a, b, true, false, manifolds)];
      var step2 := [Contacts(a, b, true, true, manifolds)];
      var step3 := [Contacts(a, b, false, true, manifolds)];
      var sets0 := map[a := {}, b := {}];
      var sets1 := CollidersAfter(sets0, step1);
      var sets2 := CollidersAfter(sets1, step2);
      && CollisionEvents(step1) == [Collision(step1[0])]
      && StartedEvents(step1) == [CollisionStarted(a, b)]
      && EndedEvents(step1) == []
      && sets1 == map[a := {b}, b := {a}]
      && CollisionEvents(step2) == [Collision(step2[0])]
      && StartedEvents(step2) == [] && EndedEvents(step2) == []
      && sets2 == sets1
      && CollisionEvents(step3) == [] && StartedEvents(step3) == []
      && EndedEvents(step3) == [CollisionEnded(a, b)]
      && CollidersAfter(sets2, step3) == sets0
  {
    var step1 := [Contacts(a, b, true, false, manifolds)];
    var step2 := [Contacts(a, b, true, true, manifolds)];
    var step3 := [Contacts(a, b, false, true, manifolds)];
    var sets0: map<E, set<E>> := map[a := {}, b := {}];
    var half: map<E, set<E>> := map[a := {b}, b := {}];
    var sets1: map<E, set<E>> := map[a := {b}, b := {a}];
    SinglePass(sets0, step1[0]);
    SinglePass(sets1, step2[0]);
    SinglePass(sets1, step3[0]);
    assert sets0[a] + {b} == {b};
    assert sets0[a := {b}] == half;
    assert half[b] + {a} == {a};
    assert half[b := {a}] == sets1;
    assert RemoveFrom(sets1, a, b) == map[a := {}, b := {a}];
    assert RemoveFrom(map[a := {}, b := {a}], b, a) == sets0;
  }

  /** A pass over a one-record registry. */
  lemma SinglePass<E, M>(colliders: map<E, set<E>>, c: Contacts<E, M>)
    ensures CollisionEvents([c]) == CollisionOf(c)
    ensures StartedEvents([c]) == StartedOf(c)
    ensures EndedEvents([c]) == EndedOf(c)
    ensures CollidersAfter(colliders, [c]) == StepColliders(colliders, c)
  {
    FlatMapSingleton(c, CollisionOf);
    FlatMapSingleton(c, StartedOf);
    FlatMapSingleton(c, EndedOf);
    assert [c][..0] == [];
  }
}
