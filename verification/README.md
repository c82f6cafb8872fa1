# Contact reporting, modelled in Dafny

This project models the contact-reporting system of a rigid-body physics engine
(`report_contacts` in `src/collision/contact_reporting.rs`). Once per physics
step the system walks the collision registry. Each registry record describes
one entity pair with two flags, `during_current_frame` and
`during_previous_frame`, plus the contact manifolds. From the two flags the
system classifies the pair, writes the `Collision`, `CollisionStarted` and
`CollisionEnded` events, and updates the `CollidingEntities` set of each of the
pair's entities:

| class | flags | events | `CollidingEntities` |
|---|---|---|---|
| started | `!prev && cur` | `Collision`, `CollisionStarted` | each side gains the other |
| continuing | `prev && cur` | `Collision` | unchanged |
| ended | `prev && !cur` | `CollisionEnded` | each side loses the other |
| idle | `!prev && !cur` | none | unchanged |

An entity whose set cannot be looked up (despawned, or without the component)
is skipped. Its events are still written, and the other side is still updated.

Files:

- `sequences.dfy` (module `Sequences`): `FlatMap`, which concatenates, in
  order, what a function yields for each element of a sequence. It comes with
  lemmas on splitting, membership, multiplicity, length, position and
  permutation.
- `contact_reporting.dfy` (module `ContactReporting`): the data model
  (`Contacts`, `Transition`, and the three event types `Collision`,
  `CollisionStarted` and `CollisionEnded`, declared at lines 93, 124 and 155
  of `src/collision/contact_reporting.rs`) and the specification
  functions. Each event stream is a `FlatMap` of per-record events.
  `CollidersAfter` folds `StepColliders` over the registry. The pass itself is
  `ReportContacts`, a loop over the registry whose body is `ReportPair`; both
  are proved to compute the specification functions.
- `contact_properties.dfy` (module `ContactProperties`): what the pass
  guarantees. The registry is keyed by entity pair, so a well-formed registry
  (`ValidRegistry`) pairs no entity with itself and holds no unordered pair
  twice. Only the lemmas that identify a pair's one record assume it:
  `CollidersAfterClosedForm`, `TransitionEffects`,
  `CollidersTrackCurrentFrame`, `EmittedExactlyOnce`, `OrderIndependence` and
  `CollidersOrderIndependent` (the last two only of the first registry; any
  reordering of a well-formed registry is well-formed). The pass and every
  other lemma hold for any registry.

The model passes the engine's state in and out as values. The registry is a
`seq<Contacts<E, M>>` in iteration order; that order is arbitrary, and every
lemma holds for any order. The `CollidingEntities` sets are a
`map<E, set<E>>` in which a missing key means the entity cannot be resolved.
Each event writer is a sequence that the pass returns extended. The
diagnostics slot is an out-parameter. `E` (entities) and `M` (contact
manifolds) are type parameters, because the pass only compares entities and
forwards the manifolds unchanged.

## Model

| member | source | states |
|---|---|---|
| `ContactReporting.ReportContacts` | src/collision/contact_reporting.rs:158-200 | The final sets equal `CollidersAfter(colliders, registry)` and keep the same key set. Each writer ends up as its old contents followed by that stream's events, in registry order. The diagnostics slot holds the clock reading. No precondition on the registry. |
| `ContactReporting.ReportPair` | src/collision/contact_reporting.rs:170-196 | Handling one record appends exactly that record's `Collision`, `CollisionStarted` and `CollisionEnded` events and applies `StepColliders`. Each side is updated through a lookup that may fail. |
| `ContactReporting.Classify` | src/collision/contact_reporting.rs:170-187 | Each of the four classes holds if and only if its combination of the two flags holds. |
| `ContactReporting.CollisionOf` | src/collision/contact_reporting.rs:170-171 | A record gives rise to one `Collision` when `during_current_frame` holds and none otherwise, and that event carries the record unchanged. |
| `ContactReporting.StartedOf` | src/collision/contact_reporting.rs:170-175 | A record gives rise to one `CollisionStarted` when it touches now and did not before, and none otherwise. The event names the record's two entities in their order. |
| `ContactReporting.EndedOf` | src/collision/contact_reporting.rs:187-188 | A record gives rise to one `CollisionEnded` when it touched before and does not now, and none otherwise. The event names the record's two entities in their order. |
| `ContactReporting.CollisionEvents` | src/collision/contact_reporting.rs:169-171 | The `Collision` writer receives one event per record touching now, in registry order. |
| `ContactReporting.StartedEvents` | src/collision/contact_reporting.rs:169-175 | The `CollisionStarted` writer receives one event per started record, in registry order. |
| `ContactReporting.EndedEvents` | src/collision/contact_reporting.rs:169-188 | The `CollisionEnded` writer receives one event per ended record, in registry order. |
| `ContactReporting.InsertInto` | src/collision/contact_reporting.rs:177-182 | Inserting into a resolvable entity's set adds exactly that entity. Every other set and the key set are unchanged. An unresolvable owner changes nothing and gets no set. |
| `ContactReporting.RemoveFrom` | src/collision/contact_reporting.rs:190-195 | Removing from a resolvable entity's set takes out exactly that entity. Every other set and the key set are unchanged. An unresolvable owner changes nothing. |
| `ContactReporting.StepColliders` | src/collision/contact_reporting.rs:170-196 | One record touches only the sets of its own two entities and never adds or drops a key. A continuing or idle record changes nothing. |
| `ContactReporting.CollidersAfter` | src/collision/contact_reporting.rs:169-197 | A whole pass never adds or drops a key: no set is created for an unresolvable entity. |
| `ContactReporting.PassExtends` | src/collision/contact_reporting.rs:169-197 | Handling the next record extends each stream by that record's events and applies that record's step to the sets. This is the loop invariant's step. |
| `ContactProperties.CollidersAfterClosedForm` | src/collision/contact_reporting.rs:169-197 | For a resolvable entity x, its set afterwards is its old set, plus every entity x started touching, minus every entity x stopped touching. Nothing else changes, in any registry order. |
| `ContactProperties.StepOnEntity` | src/collision/contact_reporting.rs:174-195 | One record changes the set of a resolvable x only when x is one of its entities. It then adds the other entity when started, removes it when ended, and otherwise leaves the set alone. |
| `ContactProperties.TransitionEffects` | src/collision/contact_reporting.rs:170-196 | For record i: if it started, each resolvable side holds the other afterwards; if it ended, neither resolvable side holds the other. If it is continuing or idle, each side's membership of the other is as before. Each side stays resolvable, or stays unresolvable, independently of the other side. |
| `ContactProperties.UntouchedSetsUnchanged` | src/collision/contact_reporting.rs:169-197 | The set of an entity that no started or ended record involves is exactly as before, for any registry. |
| `ContactProperties.CollidersTrackCurrentFrame` | src/collision/contact_reporting.rs:169-197 | Suppose the sets agree with every record's previous-frame flag before the pass. Then afterwards they agree with every record's current-frame flag, for each resolvable side. |
| `ContactProperties.EmittedExactlyOnce` | src/collision/contact_reporting.rs:170-188 | For record i, `Collision(record)` occurs exactly once when the pair touches now and never otherwise. `CollisionStarted(e1, e2)` occurs exactly once when the pair started and never otherwise. `CollisionEnded(e1, e2)` occurs exactly once when the pair ended and never otherwise. |
| `ContactProperties.EventsComeFromRegistry` | src/collision/contact_reporting.rs:169-188 | Every `Collision` carries a registry record touching now. Every `CollisionStarted` names the entities of a started record, and every `CollisionEnded` those of an ended record. |
| `ContactProperties.EventsFollowRegistryOrder` | src/collision/contact_reporting.rs:169-197 | In each stream, the event of record i sits at the position given by the number of that stream's events from earlier records. For i < j, record i's event comes before record j's. |
| `ContactProperties.OrderIndependence` | src/collision/contact_reporting.rs:169 | Any reordering of a well-formed registry gives the same final sets and the same multiset of events in each stream. |
| `ContactProperties.CollidersOrderIndependent` | src/collision/contact_reporting.rs:169-197 | The final sets do not depend on registry order. |
| `ContactProperties.IdleRegistryIsSilent` | src/collision/contact_reporting.rs:170-187 | A registry holding only idle records writes no events and leaves every set unchanged. |
| `ContactProperties.ContactLifecycle` | src/collision/contact_reporting.rs:169-196 | Over three steps, a pair starts, continues, then ends. Step one writes `Collision` and `CollisionStarted(a, b)` and the sets become `a: {b}` and `b: {a}`. Step two writes only `Collision` and leaves the sets alone. Step three writes only `CollisionEnded(a, b)` and both sets are empty again. |
| `Sequences.FlatMapPermutation` | src/collision/contact_reporting.rs:169 | Reordering the registry only reorders each event stream: the multiset of events is unchanged. |

## Left out

- `ContactReportingPlugin::build` and `finish` (lines 45-62) are not modelled. They register the event types, add the system to the physics schedule and register diagnostics, all of which is host-framework wiring.
- The clock (`Instant::now()` and `start.elapsed()`, lines 166 and 199) is left out. The caller supplies the measured duration as `elapsed`, and the pass writes it to the slot once, unconditionally.
- The engine's `Query`, `Res`, `EventWriter` and `ResMut` parameters become plain values: a map, a sequence and out-parameters. Event-reader fan-out and event buffering between frames are not modelled.
- The `Contacts` and `Collisions` types are defined in other files of the repository, which are not part of this model. The record keeps only the two entities and the two flags. The manifolds and every other field are the opaque payload `M`.
- The model takes a pair's entities from the record. The source iterates `((entity1, entity2), contacts)` and writes the key's entities into the events; the model assumes the key and the record name the same entities.
- The registry is a hash map whose iteration order is unspecified. The model takes an arbitrary sequence and proves its results hold for every order, up to a reordering of each stream.
- `ReportPair` and `ReportContacts`: the relative order of writes to different streams is not stated, for example that a pair's `Collision` is written before its `CollisionStarted`. The three writers are independent queues, so a reader cannot observe that order. The contracts keep the order within each stream only, although `ReportPair` writes them in the source's order.
- `CollidingEntities` is a set of entities, modelled as `set<E>`. Its hashing and allocation are not modelled.
