# Reactive entity–component core, modelled in Dafny

This project models the core of a small TypeScript entity–component system (ECS). It has three parts.

- **Components** (`components.dfy`) are typed payloads. A component's
  discriminator (its `type`) comes from the name of its class: the first
  letter is lower-cased and one trailing `Component` is stripped.
- **Entities** (`entities.dfy`) are objects that change in place. An entity holds at most one component per
  discriminator. Adding a component runs the component's attach hook and
  then every change listener of the entity, in subscription order. Removing
  one runs the detach hook and then the listeners. `reset` detaches every
  component, the most recently added first, then draws a fresh id from a
  module-wide counter and drops the listeners. `renew` adds a batch and
  throws at the first duplicate.
- **Archetypes** (`archetypes.dfy`) are a fixed conjunction of filters
  (`include`, `exclude`, `only`, `any` or a custom test) plus the list of entities that
  currently match it. An archetype updates that list one change at a time.
  Each addition is announced to the add listeners and then to the change
  listeners. Each removal is announced to the remove listeners and then to
  the change listeners.

`sequences.dfy` models the JavaScript built-ins that these parts rely on:
- an insertion-ordered `Set` as a duplicate-free sequence;
- `indexOf`;
- `reverse`;
- deleting one key from an insertion-ordered key list.

`scenarios.dfy` proves concrete scenarios about the model. One is the
opponent-cards archetype of the card-game example.

Listener callbacks and the hooks are modelled by identity. What each would
be told is recorded in order in a ghost `trace`, and the contracts state
that trace exactly.

Three behaviours of the code differ from what a reader of the API would
expect. The model follows the code:
- **Duplicates in `only`.** `only(ts)` reads as "the entity's keys are
  exactly `ts`". The code compares `ts.length` with the number of keys and
  checks each of `ts`. When `ts` repeats a key, an entity with extra
  components therefore also matches (`OnlyRepeatedKeyAcceptsMore`).
- **`renew` stops at a duplicate.** A failed add attaches nothing, and that holds for
  `addComponent`. But `renew` is a `forEach` that stops at the throwing
  element, and the components before it stay attached (`Renew`, `Create`).
- **Empty class names.** A class without a usable name is not rejected. The code
  derives the empty string for it (`ComponentTypeFromClass`).

## Model

| member | source | states |
|---|---|---|
| Sequences.IndexOf | src/ecs/Archetype.ts:81-83 | `indexOf` gives -1 exactly when the element is absent; otherwise it gives its first position |
| Sequences.SetAdd | src/ecs/Entity.ts:54 | `Set.add` gives the old elements plus the new one, with no duplicates |
| Sequences.Without | src/ecs/Entity.ts:55 | `Set.delete` or a key deletion keeps exactly the other elements, and keeps them duplicate-free; deleting an absent element changes nothing |
| Sequences.Reversed | src/ecs/Entity.ts:47 | `reverse` gives the element at mirrored positions |
| Sequences.ReversedElements | src/ecs/Entity.ts:47 | the reversed key list holds the same keys |
| Sequences.WithoutLast | src/ecs/Entity.ts:92 | deleting the most recently inserted key drops exactly the last position of the key order |
| Sequences.SpliceRemoves | src/ecs/Archetype.ts:128 | `splice(idx, 1)` removes exactly the element at `idx`; the list stays duplicate-free and gets one shorter |
| Sequences.DistinctCardinality | src/ecs/Archetype.ts:40 | a duplicate-free key list is as long as its set of keys |
| Sequences.SameLengthSubsetIsEqual | src/ecs/Archetype.ts:40-41 | two duplicate-free lists of equal length, one covering the other, hold the same keys |
| Components.ComponentTypeFromClass | src/ecs/Component.ts:3-6 | an empty name gives an empty key. Otherwise the key's first character is the lower-cased first letter. The rest is the name's rest, minus one trailing `Component` exactly when it ends with one |
| Components.TypeLength | src/ecs/Component.ts:4-6 | the key is nine characters shorter than the name when the suffix was stripped, and as long otherwise |
| Components.DerivationInvertsNaming | src/ecs/Component.ts:4-6 | naming a class `<Key>Component` and deriving its key gives the key back, for every key that does not start with an upper-case letter |
| Components.LowerChar | src/ecs/Component.ts:5 | `toLowerCase` on the first character turns an upper-case letter into its lower-case partner and keeps anything else |
| Components.StripSuffix | src/ecs/Component.ts:3-6 | `replace(/Component$/, '')` removes one trailing `Component` when there is one, and otherwise leaves the string alone |
| Components.NewComponent | src/ecs/Component.ts:9-11 | an instance's `type` is derived from its class name and its `value` is the constructor argument; the properties are stated in `TypeDependsOnClassOnly` |
| Components.BareComponentClass | src/ecs/Component.ts:5-6 | a class named `Component` gets the key `component`, because the strip applies only after the first character |
| Components.InnerOccurrenceSurvives | src/ecs/Component.ts:3 | the anchored regex leaves a non-trailing `Component` in place: `XComponentHolder` gives `xComponentHolder` |
| Components.OneOccurrenceStripped | src/ecs/Component.ts:3 | the replacement runs once: `XComponentComponent` gives `xComponent` |
| Components.TypeDependsOnClassOnly | src/ecs/Component.ts:9-11 | the discriminator fixed at construction depends on the class and not on the payload; the payload is the constructor argument |
| Components.PlayerKey | examples/cards-threejs/src/components/index.ts:19 | `PlayerComponent` is registered under `player` |
| Components.PositionKey | examples/cards-threejs/src/components/index.ts:20 | `PositionComponent` is registered under `position` |
| Components.CardKey | examples/cards-threejs/src/components/index.ts:22 | `CardComponent` is registered under `card` |
| Components.BoxShadowKey | examples/cards-threejs/src/components/index.ts:27 | `BoxShadowComponent` is registered under `boxShadow` |
| Components.BorderRadiusKey | examples/cards-threejs/src/components/index.ts:28 | `BorderRadiusComponent` is registered under `borderRadius` |
| Entities.TeardownEvents | src/ecs/Entity.ts:47 | defines the events of removing stored components one key after another, each the detach hook then the listeners; its properties are stated in `TeardownDetachesInOrder` and `ResetDetachesInReverse` |
| Entities.AddablePrefix | src/ecs/Entity.ts:41-44 | defines how far the stopping `forEach` of `renew` gets, at most the whole batch; the properties are stated in `AddablePrefixStep` and `AddablePrefixStopsAtDuplicate` |
| Entities.IsMergeable | src/ecs/Entity.ts:144 | `typeof v === 'object' && !Array.isArray(v)`: an object or null |
| Entities.ObjectAssign | src/ecs/Entity.ts:145 | `Object.assign` fails exactly on a null or undefined target. Unless both sides are objects, the target comes back unchanged |
| Entities.Notifications | src/ecs/Entity.ts:75-77 | one notification per listener, in subscription order, each carrying the change and the component |
| Entities.AddablePrefixStep | src/ecs/Entity.ts:42 | `renew` goes on past a component exactly when its key is new |
| Entities.AddablePrefixStopsAtDuplicate | src/ecs/Entity.ts:41-44 | every component `renew` adds has a new key. The one it stops at duplicates a key that was present before or was added earlier in the batch |
| Entities.RenewAddsAllDistinct | src/ecs/Entity.ts:41-44 | a batch of distinct new keys is added in full |
| Entities.RenewOfEmptyOrdersKeys | src/ecs/Entity.ts:36-39 | `new Entity(cs)` with distinct keys adds all of `cs`, and its key order is their discriminators in order |
| Entities.UpdatedValue | src/ecs/Entity.ts:144-148 | the merged keys are the old keys plus the patch's keys. A patched field takes the patch's value and the other fields keep theirs. A non-object value replaces the stored one. Merging onto null or undefined fails |
| Entities.SetValueExamples | src/ecs/Entity.ts:144-148 | `{x: 1, y: 2}` patched with `{x: 5}` is `{x: 5, y: 2}`; an array replaces an array wholesale |
| Entities.InstanceCounter.constructor | src/ecs/Entity.ts:24 | the id counter starts at 0 |
| Entities.InstanceCounter.Next | src/ecs/Entity.ts:48 | `++instanceIdx`: the counter grows by one and the new value is returned |
| Entities.Entity.constructor | src/ecs/Entity.ts:27-37 | a new entity is empty and has no listeners. Its id is the next counter value |
| Entities.Entity.Create | src/ecs/Entity.ts:36-39 | `new Entity(cs)` adds the longest duplicate-free prefix of `cs`. It fails exactly when it stops early, naming the duplicate key. Its map, key order and trace are those of adding that prefix |
| Entities.Entity.ComponentTypes | src/ecs/Entity.ts:30-32 | the key list holds each stored key once, and only stored keys |
| Entities.Entity.HasComponent | src/ecs/Entity.ts:58-60 | a key is present exactly when it is among the keys `componentTypes` lists |
| Entities.Entity.HasComponents | src/ecs/Entity.ts:65-67 | true exactly when every listed key is present; true for an empty list |
| Entities.Entity.GetComponent | src/ecs/Entity.ts:124-126 | gives a component exactly when one is stored under the key. It never throws, and what it gives carries that key |
| Entities.Entity.GetComponentValue | src/ecs/Entity.ts:128-134 | throws exactly when the key is absent, with the missing-component error; otherwise gives the stored payload |
| Entities.Entity.NotifyListeners | src/ecs/Entity.ts:75-77 | the loop tells every listener in order, and nothing else |
| Entities.Entity.AddComponent | src/ecs/Entity.ts:69-83 | a duplicate throws and changes nothing. Otherwise the component is stored under its key and the key is appended. The attach hook runs, then each listener hears `add`. The one-per-key invariant is kept |
| Entities.Entity.RemoveComponent | src/ecs/Entity.ts:88-100 | an absent key changes nothing. Otherwise that key alone is removed from the map and the order. The detach hook runs with the removed component, then each listener hears `remove` |
| Entities.Entity.ToggleComponent | src/ecs/Entity.ts:105-118 | afterwards the class's key is present exactly when the flag is set. A missing key is filled with a default instance. A present key is removed when the flag is clear. Otherwise nothing changes |
| Entities.Entity.SetComponentValue | src/ecs/Entity.ts:139-152 | an absent key throws and changes nothing. Otherwise only that component's payload changes, to the merge or the replacement that `UpdatedValue` describes |
| Entities.Entity.Renew | src/ecs/Entity.ts:41-44 | adds the duplicate-free prefix in order, appending its keys and its events. It fails exactly when it stops early, naming the duplicate |
| Entities.Entity.RemoveNext | src/ecs/Entity.ts:47 | one step of the teardown loop removes the next key in reversed order, which is the last key still present |
| Entities.Entity.RemoveAll | src/ecs/Entity.ts:47 | every component is removed, newest first. The trace is the removal events over the reversed key order |
| Entities.Entity.Reset | src/ecs/Entity.ts:46-51 | the entity ends empty and without listeners. Its id is fresh and larger than before. The teardown is told to the listeners it had before |
| Entities.Entity.OnChange | src/ecs/Entity.ts:53-54 | subscribing adds the listener once; subscribing it again changes nothing |
| Entities.Entity.OffChange | src/ecs/Entity.ts:55 | the unsubscribe function removes exactly that listener and reports whether it was subscribed |
| Entities.NotificationsDetachNothing | src/ecs/Entity.ts:96-98 | listener notifications detach no component |
| Entities.DetachmentsAppend | src/ecs/Entity.ts:47 | the detachments of two event runs in a row are those of the first, then those of the second |
| Entities.RemovalDetachesOne | src/ecs/Entity.ts:88-100 | removing one component detaches exactly that component |
| Entities.TeardownDetachmentsSnoc | src/ecs/Entity.ts:47 | removing one more key detaches its component, last |
| Entities.TeardownDetachesInOrder | src/ecs/Entity.ts:47 | removing a list of keys detaches each key's component once, in list order |
| Entities.ResetDetachesInReverse | src/ecs/Entity.ts:46-51 | `reset` detaches the i-th component from last as its i-th detachment |
| Entities.ResetDetachesThreeInReverse | src/ecs/Entity.ts:46-51 | components added as A, B, C are detached as C, B, A |
| Archetypes.Holds | src/ecs/Archetype.ts:27-45 | defines the four filter builders and a custom test; what each means is stated in `IncludeMeansSubset`, `ExcludeMeansDisjoint`, `OnlyDistinctMeansSameKeys` and `AnyMeansOverlap` |
| Archetypes.AllHold | src/ecs/Archetype.ts:78 | defines `filters.every(...)` by recursion; `AllHoldAreAll` states that it is the conjunction over positions |
| Archetypes.Deliveries | src/ecs/Archetype.ts:110-111 | one delivery per listener of a group, in subscription order, each carrying the same event |
| Archetypes.AllHoldAreAll | src/ecs/Archetype.ts:78 | `every` over the filters holds exactly when each filter holds |
| Archetypes.IncludeMeansSubset | src/ecs/Archetype.ts:27-30 | `include(ts)` holds exactly when the keys of `ts` are among the entity's keys |
| Archetypes.ExcludeMeansDisjoint | src/ecs/Archetype.ts:32-35 | `exclude(ts)` holds exactly when no key of `ts` is present |
| Archetypes.AnyMeansOverlap | src/ecs/Archetype.ts:43-45 | `any(ts)` holds exactly when some key of `ts` is present, so it never holds for an empty list |
| Archetypes.OnlyDistinctMeansSameKeys | src/ecs/Archetype.ts:37-41 | for distinct `ts`, `only(ts)` holds exactly when the entity's keys are the keys of `ts` |
| Archetypes.OnlyRepeatedKeyAcceptsMore | src/ecs/Archetype.ts:37-41 | with a repeated key, `only('a', 'a')` matches an entity holding `a` and `b`, although the two key sets differ |
| Archetypes.OnlyIsStricterThanInclude | src/ecs/Archetype.ts:27-41 | an entity holding card and player fails `only('card')` but passes `include('card')` |
| Archetypes.NoFiltersMatchEverything | src/ecs/Archetype.ts:57-60 | an archetype built without filters matches every entity |
| Archetypes.Archetype.constructor | src/ecs/Archetype.ts:57-60 | a new archetype keeps its id and filters and starts with no entities and no listeners |
| Archetypes.Archetype.MatchesEntity | src/ecs/Archetype.ts:77-79 | an entity matches exactly when every filter holds |
| Archetypes.Archetype.HasEntity | src/ecs/Archetype.ts:81-83 | true exactly when the entity, compared by identity, is listed |
| Archetypes.Archetype.Deliver | src/ecs/Archetype.ts:110-111 | the `forEach` delivers the event to each listener of the group, in order |
| Archetypes.Archetype.HandleEntityAdd | src/ecs/Archetype.ts:99-114 | an entity that does not match, or is already listed, changes nothing. Otherwise the entity is pushed. The add listeners, then the change listeners, hear `add` |
| Archetypes.Archetype.HandleEntityRemove | src/ecs/Archetype.ts:116-133 | an unlisted entity changes nothing. Otherwise it is spliced out at its index. The remove listeners, then the change listeners, hear `remove` |
| Archetypes.Archetype.HandleEntityChange | src/ecs/Archetype.ts:85-97 | afterwards the entity is listed exactly when it matches, and no other entity's membership changed. The add, remove and no-op cases are stated in full |
| Archetypes.Archetype.OnChange | src/ecs/Archetype.ts:62-63 | subscribes a change listener once |
| Archetypes.Archetype.OffChange | src/ecs/Archetype.ts:64 | unsubscribes exactly that change listener and reports whether it was subscribed |
| Archetypes.Archetype.OnAdd | src/ecs/Archetype.ts:67-68 | subscribes an add listener once |
| Archetypes.Archetype.OffAdd | src/ecs/Archetype.ts:69 | unsubscribes exactly that add listener and reports whether it was subscribed |
| Archetypes.Archetype.OnRemove | src/ecs/Archetype.ts:72-73 | subscribes a remove listener once |
| Archetypes.Archetype.OffRemove | src/ecs/Archetype.ts:74 | unsubscribes exactly that remove listener and reports whether it was subscribed |
| Scenarios.CardLeavesArchetype | src/ecs/Archetype.ts:85-97 | a card entity is listed by `include('card')`. Once its card is removed, the next change unlists it, and the one change listener hears a single `remove` carrying that entity and the card |
| Scenarios.DuplicateCardThrows | src/ecs/Entity.ts:69-83 | `new Entity([card, card])` throws at the second card and keeps the first. Adding a card again throws and leaves the keys alone |
| Scenarios.ResetDetachesInReverseOrder | src/ecs/Entity.ts:46-51 | player, position and card, added in that order, are detached as card, position, player. The entity ends empty, without listeners and with a larger id |
| Scenarios.MergeKeepsSiblings | src/ecs/Entity.ts:144-145 | setting `{x: 5}` over `{x: 1, y: 2}` reads back as `{x: 5, y: 2}` |
| Scenarios.ArrayReplaces | src/ecs/Entity.ts:146-148 | setting an array reads back as that array |
| Scenarios.MissingKeyThrows | src/ecs/Entity.ts:124-152 | on an entity without a card, reading and writing its value throw the missing-component error, and `getComponent` gives nothing |
| Scenarios.IdsIncrease | src/ecs/Entity.ts:46-51 | ids drawn from the counter increase across entities and across `reset` |
| Scenarios.OpponentCardsMeaning | examples/cards/src/archetypes/OpponentCardsArchetype.ts:5-9 | the opponent-cards archetype matches exactly the entities holding a card and a player whose payload has `id` 0 |
| Scenarios.OpponentCardsScenario | examples/cards/src/archetypes/OpponentCardsArchetype.ts:5-9 | the card of player 0 matches, and the card of player 1 does not |

## Left out

- **JavaScript numbers.** Numbers are modelled as unbounded integers. There is no floating point and no `NaN`.
- **Case conversion.** `toLowerCase` is modelled for the ASCII letters only. There is no Unicode case mapping.
- **Values, not references.** Components and their payloads are values. `Object.assign` mutates the stored payload object in place, and any other holder of that object would see the change. This aliasing is not modelled.
- **`Object.assign` on other targets.** On a primitive target the wrapper is discarded and the stored value stays as it was; this is modelled. On a string target, a patch with an index key such as `0` throws in the source, but the model leaves the string as it was. On an array target, the source writes the patch's keys into the array: an index key such as `0` or `length` changes its elements, and other keys add named properties. The model leaves the array as it was.
- **Hooks and listeners.**
  - `onAttach` and `onDetach` are the default no-op hooks. A subclass overriding them is not modelled; each call is recorded as an event.
  - Listener callbacks are identities. What they do, including re-entering the entity or the archetype, is not modelled.
  - Each listener receives the whole event object. The trace records the change, the component and, for archetypes, the entity and the group. The `archetype` field of the event is implied by the trace's owner.
- **Return values.**
  - `renew` and `reset` return `this`; the model drops the result.
  - The unsubscribe closures that `onChange`, `onAdd` and `onRemove` return are the separate methods `OffChange`, `OffAdd` and `OffRemove`.
- **A throwing constructor.** `Entities.Entity.Create` returns the partly built entity together with the failure. In the source the caller never gets the object, but its components' hooks have run and its id was drawn; the model shows that state.
- **Aliases.** The aliases `has`, `add`, `remove`, `toggle`, `get` and `set` are the same members as `HasComponent`, `AddComponent`, `RemoveComponent`, `ToggleComponent`, `GetComponentValue` and `SetComponentValue`.
- **Truthiness in `hasComponent`.** `!!this.components[type]` is modelled as key presence. Stored components are objects, so they are always truthy. The source's lookup also finds keys inherited from `Object.prototype`, such as `constructor` or `toString`, so it reports them present on an empty entity; key presence leaves this out.
- **Key order.** `Object.keys` lists integer-like keys first, in numeric order. A derived key starts with the first character of a class name, which is never a digit, so no key is integer-like. `keyOrder` is therefore plain insertion order.
- **Custom filters.** The opponent-cards test reads `entity.components.player!.value.id`. On an entity without a player, `every` stops at the failing `include('player')` first and never reaches the test, so returning false there is exact.
- Scenarios.OpponentCardsMeaning: when the player component is present but its payload is null or undefined, `every` does reach the test. `null.id` then throws a TypeError out of `matchesEntity` and `handleEntityChange`, but the model reports no match. For example, `toggleComponent(PlayerComponent, true)` stores an undefined payload. The model's filters are total functions, so they cannot throw.
- **The manager.** The entity manager is not part of this model, and neither are the systems, the assemblages, the rendering code and the generated `dist/` declarations. `Scenarios.PropagateChange` is a harness standing in for the manager's fan-out of a change to every archetype; it is not a model of source code.
- **`Entities.TeardownEvents`.** It emits nothing for a key with nothing stored under it. The `reset` loop only visits stored keys, so this case is never reached.
