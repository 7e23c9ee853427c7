# EntityRegistry: a Dafny model of the ts-entt entity-component store

This project models `EntityRegistry`, the storage and query half of a small
entity-component system written in TypeScript. The registry owns one
`Map` from entity id to *entity record*. A record maps a component name to
that component's state. Every operation works on that map:

- `create` and `destroy` manage entity lifetime;
- `emplace`, `emplaceOrReplace`, `remove`, `removeIfExists` and `clear` attach and detach components;
- `has`, `allOf`, `get` and `view` are queries.

How the model is built:

- `seqs.dfy` (module `Seqs`) holds facts about sequences: no repetitions, subsequence, deleting an element, and cardinality.
- `registry.dfy` (module `Registry`) holds the class `EntityRegistry<S>`, where `S` is the type of component states.
- The source's `Map` is two fields. `entities: map<EntityId, Record<S>>` holds the contents. `order: seq<EntityId>` holds the keys in insertion order, which is the order in which `entities.values()` visits the records.
- `Valid()` is the class invariant. It says `order` lists every live id exactly once and every live id is below the id counter `nextId`.
- State-changing operations are methods with `modifies` clauses. Each one states its whole new state in terms of the old state.
- Read-only queries are functions that read the registry. `view` is specified through `MatchingIds`, the ids of the entities that match.
- A failing Deno `assert` becomes an error value: an `Outcome` for mutations and a `Result` for queries. The three errors are `UnknownEntity`, `DuplicateComponent` and `MissingComponent`. A failed operation leaves the registry unchanged, as the source does, because each `assert` runs before any mutation.
- A component is "present" when its name is a key of the record, and states are opaque values of type `S`. The source tests presence by truthiness (`!!entity[name]`), and states are declared as objects, so a stored state is always truthy. The one way this differs, names inherited from `Object.prototype`, is recorded under "Findings".

Two behaviours that a reader might expect to differ follow the source:

- `destroy` on an unknown id does nothing. It calls `Map.delete` directly and never looks the entity up, so it cannot fail.
- `view` returns the whole records of the matching entities, not records narrowed to the requested names. Only the static type `ViewOf` narrows them.

## Model

| member | source | states |
|---|---|---|
| `Registry.HasAll` | core/registry.ts:71 | the `every` test holds exactly when each listed name is a key of the record; so it holds for an empty list |
| `Registry.Values` | core/registry.ts:78 | `Array.from(entities.values())` over an id order: one record per id, at the same position, each being that id's record |
| `Registry.Filter` | core/registry.ts:78 | `filter` keeps only records of the input that carry every name, keeps every such record, and never grows the sequence |
| `Registry.MatchingIds` | core/registry.ts:78 | the matching ids are exactly the live ids in the order whose record carries every name; they form a subsequence of the order and have no repetitions when the order has none |
| `Registry.FilterValuesIsMatching` | core/registry.ts:78 | filtering the records visited in insertion order gives the records of the matching ids, in the same order |
| `Registry.MatchingNoNames` | core/registry.ts:78 | with no names, every id of the order matches, in the same order |
| `Registry.ClearAll` | core/registry.ts:105-109 | after clearing a name, the id set is the same, no record carries the name, no key is added, and every other key keeps its value |
| `Registry.ClearAllIdempotent` | core/registry.ts:105-109 | clearing a name twice gives the same map as clearing it once |
| `Registry.ClearAllAbsent` | core/registry.ts:105-109 | clearing a name that no record carries leaves the map unchanged |
| `Registry.HasAsWritten` | core/registry.ts:62 | the truthiness test on a record built from `{}` holds for every attached name, and also for any name inherited from `Object.prototype` |
| `Registry.InheritedNameLooksAttached` | core/registry.ts:62 | on an empty record, the test as written says `toString` is attached, while the intended test says it is not |
| `Seqs.Without` | core/registry.ts:33 | after `Map.delete(x)` the key order holds exactly the other keys, in their old relative order, still without repetitions; it is unchanged when `x` was absent |
| `Registry.EntityRegistry.constructor` | core/registry.ts:6 | a new registry has no entities and satisfies the invariant |
| `Registry.EntityRegistry.GetEntity` | core/registry.ts:12-16 | the lookup succeeds exactly for a live id and yields its record; otherwise it fails with `UnknownEntity` |
| `Registry.EntityRegistry.Has` | core/registry.ts:60-63 | fails with `UnknownEntity` exactly for an id that is not live; otherwise true exactly when the name is a key of the record |
| `Registry.EntityRegistry.AllOf` | core/registry.ts:69-72 | fails exactly when `has` fails; otherwise true exactly when `has` is true for every listed name, so true for no names |
| `Registry.EntityRegistry.Get` | core/registry.ts:85-90 | succeeds exactly when `has` returns true and then yields the stored state; otherwise fails with `MissingComponent` for a live id and `UnknownEntity` for an unknown one |
| `Registry.EntityRegistry.View` | core/registry.ts:77-79 | returns one record per matching id, at the same position: exactly the live entities carrying every name, in insertion order, each at most once |
| `Registry.EntityRegistry.ViewNoNames` | core/registry.ts:77-79 | a view on no names lists every live record in insertion order, empty ones included, and its length is the number of live entities |
| `Registry.EntityRegistry.EmptyRecordHasNothing` | core/registry.ts:24 | an entity whose record is the fresh empty record carries no component under any name |
| `Registry.EntityRegistry.Create` | core/registry.ts:22-26 | returns the counter's value, which was not live and was never handed out before, and advances the counter by one; that id maps to an empty record at the end of the insertion order; every other entity is unchanged |
| `Registry.EntityRegistry.Destroy` | core/registry.ts:32-34 | never fails; removes the id and its record from the map and the key order, and leaves every other record unchanged; an unknown id leaves everything unchanged |
| `Registry.EntityRegistry.Emplace` | core/registry.ts:40-44 | fails with `UnknownEntity` or `DuplicateComponent` exactly when the id is not live or the name is already attached, and then changes nothing; otherwise the record gains exactly `name ↦ state`, and `get` returns `state` |
| `Registry.EntityRegistry.Remove` | core/registry.ts:50-54 | fails with `UnknownEntity` or `MissingComponent` exactly when the id is not live or the name is absent, and then changes nothing; otherwise it deletes only that key, and `has` becomes false |
| `Registry.EntityRegistry.EmplaceOrReplace` | core/registry.ts:92-95 | fails only for an unknown id, and then changes nothing; otherwise the record maps the name to `state`, every other key and entity is unchanged, and `get` returns `state` |
| `Registry.EntityRegistry.RemoveIfExists` | core/registry.ts:97-100 | fails only for an unknown id; otherwise deletes only that key, `has` becomes false afterwards, and with the name already absent nothing changes, so a second call is a no-op |
| `Registry.EntityRegistry.Clear` | core/registry.ts:105-109 | never fails; its loop over the live records leaves the map equal to `ClearAll` of the old map, and unchanged when no record carried the name |

## Left out

- Id generation by `Math.random()` (core/registry.ts:23): replaced by the counter `nextId`. The floating-point source is not modelled. The case where a random id collides with a live one, and `set(id, {})` overwrites that entity, cannot arise in the model.
- The public `entities` getter (core/registry.ts:8-10): it hands out the internal map itself, for callers to mutate outside any operation. No contract covers it.
- Aliasing of component states: in the source, `get` and `view` return the stored objects themselves, so a caller's later mutation of a returned state or record shows up in the registry. Here states are opaque values and the queries return values, so in-place mutation through returned references is not modelled.
- The static type `ViewOf` (core/utils.ts) and the interfaces in core/types.ts: these are type-level only. They shape the Dafny signatures (`Name` is a string and `EntityId` is a natural number) and have no behaviour of their own.
- The demonstration game loop in mod.test.ts: it does floating-point physics updates and console output, and it states no registry contract.
- The Deno `assert` import: each assertion is modelled as an error result, not as a call into that library.
- The order of keys inside a record: records are maps, since nothing in the registry depends on that order.
- What `Object.assign` does when the name is `__proto__`: it replaces the record's prototype instead of adding a key. It is part of the finding below, and the model stores the name as an ordinary key.

## Findings

| source | as written | input that shows it | evidently intended | confidence | as-written member | corrected member |
|---|---|---|---|---|---|---|
| core/registry.ts:62 | presence is tested as `!!entity[name]` (also at lines 42, 52, 71, 78 and 88) on records created as `{}`, so the lookup also finds names inherited from `Object.prototype` | `has(create(), "toString")` returns true on an entity with no components. `emplace(id, "toString", s)` then fails as a duplicate, and `remove(id, "toString")` passes its check but deletes nothing | a name counts as attached only when `emplace` or `emplaceOrReplace` attached it | high, by JavaScript property lookup semantics; not executed | `Registry.InheritedNameLooksAttached` | `Registry.EntityRegistry.EmptyRecordHasNothing` |
