/**
  The entity registry of an entity-component store: entities are opaque ids,
  each owning a record that maps component names to component states.
  The registry's state is one insertion-ordered map from id to record; every
  operation below is an operation on that map, and the queries are filters
  over it.
 */
module Registry {
  import opened Seqs

  /** An entity handle, drawn from a counter so that no id is ever handed out twice. */
  type EntityId = nat

  /** A component name, the discriminator that fixes the shape of the component's state. */
  type Name = string

  /** An entity record: the state of every component attached to one entity, by name. */
  type Record<S> = map<Name, S>

  /** The three ways a registry operation refuses to run. */
  datatype Error =
    | UnknownEntity(id: EntityId)
    | DuplicateComponent(id: EntityId, name: Name)
    | MissingComponent(id: EntityId, name: Name)

  /** The value of a query, or the error it signals instead. */
  datatype Result<T> = Ok(value: T) | Err(error: Error)

  /** Whether a mutation took effect, or the error it signals instead. */
  datatype Outcome = Pass | Fail(error: Error)

  /** The test `names.every(name => !!entity[name])`: every name is attached to `rec`. */
  function HasAll<S>(rec: Record<S>, names: seq<Name>): (b: bool)
    ensures b <==> forall i :: 0 <= i < |names| ==> names[i] in rec
  {
    if |names| == 0 then true else names[0] in rec && HasAll(rec, names[1..])
  }

  /** The records of `ids`, in the order of `ids`: `ids.map(id => entities.get(id))`. */
  function Values<S>(ids: seq<EntityId>, entities: map<EntityId, Record<S>>): (vs: seq<Record<S>>)
    requires forall i :: 0 <= i < |ids| ==> ids[i] in entities
    ensures |vs| == |ids|
    ensures forall k :: 0 <= k < |ids| ==> vs[k] == entities[ids[k]]
  {
    if |ids| == 0 then [] else [entities[ids[0]]] + Values(ids[1..], entities)
  }

  /** `recs.filter(rec => names.every(name => rec[name]))`. */
  function Filter<S>(recs: seq<Record<S>>, names: seq<Name>): (r: seq<Record<S>>)
    ensures |r| <= |recs|
    ensures forall k :: 0 <= k < |r| ==> r[k] in recs && HasAll(r[k], names)
    ensures forall k :: 0 <= k < |recs| && HasAll(recs[k], names) ==> recs[k] in r
  {
    if |recs| == 0 then []
    else (if HasAll(recs[0], names) then [recs[0]] else []) + Filter(recs[1..], names)
  }

  /** The ids, in `order`, of the live entities whose record carries every name in `names`. */
  ghost function MatchingIds<S>(order: seq<EntityId>, entities: map<EntityId, Record<S>>, names: seq<Name>): (ids: seq<EntityId>)
    ensures forall id :: id in ids <==> id in order && id in entities && HasAll(entities[id], names)
    ensures IsSubseq(ids, order)
    ensures Distinct(order) ==> Distinct(ids)
  {
    if |order| == 0 then []
    else
      var rest := MatchingIds(order[1..], entities, names);
      assert Distinct(order) ==> Distinct(order[1..]) && order[0] !in order[1..] by {
        if Distinct(order) {
          forall i, j | 0 <= i < j < |order[1..]| ensures order[1..][i] != order[1..][j] {
            assert order[1..][i] == order[i + 1] && order[1..][j] == order[j + 1];
          }
          forall j | 0 <= j < |order[1..]| ensures order[1..][j] != order[0] {
            assert order[1..][j] == order[j + 1];
          }
        }
      }
      if order[0] in entities && HasAll(entities[order[0]], names) then
        assert Distinct(order) ==> Distinct([order[0]] + rest) by {
          if Distinct(order) { ConsDistinct(order[0], rest); }
        }
        [order[0]] + rest
      else
        rest
  }

  /** Filtering the records of `order` gives the records of the matching ids of `order`. */
  lemma {:induction false} FilterValuesIsMatching<S>(order: seq<EntityId>, entities: map<EntityId, Record<S>>, names: seq<Name>)
    requires forall i :: 0 <= i < |order| ==> order[i] in entities
    ensures forall i :: 0 <= i < |MatchingIds(order, entities, names)| ==> MatchingIds(order, entities, names)[i] in entities
    ensures Filter(Values(order, entities), names) == Values(MatchingIds(order, entities, names), entities)
  {
    if |order| != 0 {
      FilterValuesIsMatching(order[1..], entities, names);
      var vs := Values(order, entities);
      assert vs[0] == entities[order[0]];
      assert vs[1..] == Values(order[1..], entities);
      var rest := MatchingIds(order[1..], entities, names);
      if HasAll(entities[order[0]], names) {
        var ids := [order[0]] + rest;
        assert ids[0] == order[0] && ids[1..] == rest;
      }
    }
  }

  /** With no names to test, every id of `order` matches. */
  lemma {:induction false} MatchingNoNames<S>(order: seq<EntityId>, entities: map<EntityId, Record<S>>)
    requires forall i :: 0 <= i < |order| ==> order[i] in entities
    ensures MatchingIds(order, entities, []) == order
  {
    if |order| != 0 {
      assert HasAll(entities[order[0]], []);
      assert MatchingIds(order, entities, []) == [order[0]] + MatchingIds(order[1..], entities, []);
      MatchingNoNames(order[1..], entities);
      assert order == [order[0]] + order[1..];
    }
  }

  /** The entity map after `clear(name)`: every record with `name` deleted. */
  function ClearAll<S>(entities: map<EntityId, Record<S>>, name: Name): (r: map<EntityId, Record<S>>)
    ensures r.Keys == entities.Keys
    ensures forall id :: id in r ==> name !in r[id]
    ensures forall id, n :: id in r && n in r[id] ==> n in entities[id] && r[id][n] == entities[id][n]
    ensures forall id, n :: id in entities && n in entities[id] && n != name ==> n in r[id]
  {
    map id | id in entities :: entities[id] - {name}
  }

  /** Clearing a name twice is the same as clearing it once. */
  lemma ClearAllIdempotent<S>(entities: map<EntityId, Record<S>>, name: Name)
    ensures ClearAll(ClearAll(entities, name), name) == ClearAll(entities, name)
  {
    var once := ClearAll(entities, name);
    var twice := ClearAll(once, name);
    forall id | id in once ensures twice[id] == once[id] {
      assert twice[id].Keys == once[id].Keys;
    }
  }

  /** Clearing a name that no entity carries changes nothing. */
  lemma ClearAllAbsent<S>(entities: map<EntityId, Record<S>>, name: Name)
    requires forall id :: id in entities ==> name !in entities[id]
    ensures ClearAll(entities, name) == entities
  {
    var r := ClearAll(entities, name);
    forall id | id in entities ensures r[id] == entities[id] {
      assert r[id].Keys == entities[id].Keys;
    }
  }

  /** Names every plain JavaScript object inherits from `Object.prototype`. */
  const InheritedKeys: set<Name> := {
    "constructor", "hasOwnProperty", "isPrototypeOf", "propertyIsEnumerable",
    "toLocaleString", "toString", "valueOf", "__proto__",
    "__defineGetter__", "__defineSetter__", "__lookupGetter__", "__lookupSetter__"
  }

  /**
    The presence test `!!entity[name]` as JavaScript evaluates it on a record
    that started as `{}`: a property lookup also finds the names the record
    inherits, and those hold functions or objects, which are truthy.
   */
  function HasAsWritten<S>(rec: Record<S>, name: Name): (b: bool)
    ensures name in rec ==> b
    ensures name in InheritedKeys ==> b
    ensures b && name !in rec ==> name in InheritedKeys
  {
    name in rec || name in InheritedKeys
  }

  /** On a fresh, empty record the test as written reports `toString` as attached. */
  lemma InheritedNameLooksAttached<S>()
    ensures HasAsWritten<S>(map[], "toString")
    ensures !HasAll<S>(map[], ["toString"])
  {
  }

  /**
    The registry. `entities` and `order` together are the source's
    `Map<EntityId, record>`: `order` lists its keys in insertion order, which
    is the order `entities.values()` visits the records.
   */
  class EntityRegistry<S> {
    var entities: map<EntityId, Record<S>>
    var order: seq<EntityId>
    /** Every id handed out so far is below `nextId`. */
    var nextId: nat

    /** `order` lists each live id exactly once, and every live id came from the counter. */
    ghost predicate Valid()
      reads this
    {
      && (forall id :: id in entities <==> id in order)
      && Distinct(order)
      && (forall id :: id in entities ==> id < nextId)
    }

    /** A registry without entities. */
    constructor ()
      ensures Valid()
      ensures entities == map[] && order == [] && nextId == 0
    {
      entities := map[];
      order := [];
      nextId := 0;
    }

    /** The record of `id`, or `UnknownEntity` when `id` is not live. */
    function GetEntity(id: EntityId): (r: Result<Record<S>>)
      reads this
      ensures r.Ok? <==> id in entities
      ensures r.Ok? ==> r.value == entities[id]
      ensures r.Err? ==> r.error == UnknownEntity(id)
    {
      if id in entities then Ok(entities[id]) else Err(UnknownEntity(id))
    }

    /** Whether `name` is attached to entity `id`. */
    function Has(id: EntityId, name: Name): (r: Result<bool>)
      reads this
      ensures r.Ok? <==> id in entities
      ensures r.Err? ==> r.error == UnknownEntity(id)
      ensures r.Ok? ==> (r.value <==> name in entities[id])
    {
      match GetEntity(id)
      case Err(e) => Err(e)
      case Ok(rec) => Ok(name in rec)
    }

    /** Whether every name in `names` is attached to entity `id`; true for no names. */
    function AllOf(id: EntityId, names: seq<Name>): (r: Result<bool>)
      reads this
      ensures r.Ok? <==> id in entities
      ensures r.Err? ==> r.error == UnknownEntity(id)
      ensures r.Ok? ==> (r.value <==> forall i :: 0 <= i < |names| ==> Has(id, names[i]) == Ok(true))
      ensures r.Ok? && |names| == 0 ==> r.value
    {
      match GetEntity(id)
      case Err(e) => Err(e)
      case Ok(rec) => Ok(HasAll(rec, names))
    }

    /** The state of component `name` on entity `id`. */
    function Get(id: EntityId, name: Name): (r: Result<S>)
      reads this
      ensures r.Ok? <==> Has(id, name) == Ok(true)
      ensures r.Ok? ==> r.value == entities[id][name]
      ensures r.Err? ==> r.error == if id in entities then MissingComponent(id, name) else UnknownEntity(id)
    {
      match GetEntity(id)
      case Err(e) => Err(e)
      case Ok(rec) => if name in rec then Ok(rec[name]) else Err(MissingComponent(id, name))
    }

    /**
      The records, in insertion order, of the live entities that carry every
      name in `names`: `Array.from(entities.values()).filter(...)`.
     */
    function View(names: seq<Name>): (v: seq<Record<S>>)
      reads this
      requires Valid()
      ensures var ids := MatchingIds(order, entities, names);
        && |v| == |ids|
        && (forall id :: id in ids <==> id in entities && HasAll(entities[id], names))
        && (forall k :: 0 <= k < |ids| ==> v[k] == entities[ids[k]])
        && IsSubseq(ids, order)
        && Distinct(ids)
    {
      FilterValuesIsMatching(order, entities, names);
      Filter(Values(order, entities), names)
    }

    /** A view on no names lists the record of every live entity, empty ones included. */
    lemma ViewNoNames()
      requires Valid()
      ensures View([]) == Values(order, entities)
      ensures |View([])| == |entities|
    {
      MatchingNoNames(order, entities);
      FilterValuesIsMatching(order, entities, []);
      LiveCount();
    }

    /** There are as many live entities as keys in the insertion order. */
    lemma LiveCount()
      requires Valid()
      ensures |entities| == |order|
    {
      DistinctCardinality(order, entities.Keys);
    }

    /** A freshly created entity carries no component, whatever the name. */
    lemma EmptyRecordHasNothing(id: EntityId, name: Name)
      requires id in entities && entities[id] == map[]
      ensures Has(id, name) == Ok(false)
      ensures AllOf(id, [name]) == Ok(false)
    {
    }

    /** Registers a new entity with an empty record and returns its id. */
    method Create() returns (id: EntityId)
      requires Valid()
      modifies this
      ensures Valid()
      ensures id !in old(entities)
      ensures entities == old(entities)[id := map[]]
      ensures order == old(order) + [id]
      ensures id == old(nextId) && nextId == old(nextId) + 1
    {
      id := nextId;
      assert id !in order;
      SnocDistinct(order, id);
      nextId := nextId + 1;
      entities := entities[id := map[]];
      order := order + [id];
    }

    /** Forgets entity `id` and all its components; an unknown id is ignored. */
    method Destroy(id: EntityId)
      requires Valid()
      modifies this`entities, this`order
      ensures Valid()
      ensures entities == old(entities) - {id}
      ensures order == Without(old(order), id)
      ensures id !in old(entities) ==> entities == old(entities) && order == old(order)
    {
      entities := entities - {id};
      order := Without(order, id);
    }

    /** Attaches `state` under `name`; refuses an unknown entity or a name already attached. */
    method Emplace(id: EntityId, name: Name, state: S) returns (r: Outcome)
      requires Valid()
      modifies this`entities
      ensures Valid()
      ensures r == Pass <==> id in old(entities) && name !in old(entities)[id]
      ensures r.Fail? ==> entities == old(entities)
      ensures r.Fail? ==> r.error == if id in old(entities) then DuplicateComponent(id, name) else UnknownEntity(id)
      ensures r == Pass ==> entities == old(entities)[id := old(entities)[id][name := state]]
      ensures r == Pass ==> Get(id, name) == Ok(state)
    {
      var found := GetEntity(id);
      if found.Err? {
        return Fail(found.error);
      }
      var rec := found.value;
      if name in rec {
        return Fail(DuplicateComponent(id, name));
      }
      entities := entities[id := rec[name := state]];
      r := Pass;
    }

    /** Detaches `name`; refuses an unknown entity or a name that is not attached. */
    method Remove(id: EntityId, name: Name) returns (r: Outcome)
      requires Valid()
      modifies this`entities
      ensures Valid()
      ensures r == Pass <==> id in old(entities) && name in old(entities)[id]
      ensures r.Fail? ==> entities == old(entities)
      ensures r.Fail? ==> r.error == if id in old(entities) then MissingComponent(id, name) else UnknownEntity(id)
      ensures r == Pass ==> entities == old(entities)[id := old(entities)[id] - {name}]
      ensures r == Pass ==> Has(id, name) == Ok(false)
    {
      var found := GetEntity(id);
      if found.Err? {
        return Fail(found.error);
      }
      var rec := found.value;
      if name !in rec {
        return Fail(MissingComponent(id, name));
      }
      entities := entities[id := rec - {name}];
      r := Pass;
    }

    /** Attaches `state` under `name`, replacing any state already there; refuses only an unknown entity. */
    method EmplaceOrReplace(id: EntityId, name: Name, state: S) returns (r: Outcome)
      requires Valid()
      modifies this`entities
      ensures Valid()
      ensures r == Pass <==> id in old(entities)
      ensures r.Fail? ==> entities == old(entities) && r.error == UnknownEntity(id)
      ensures r == Pass ==> entities == old(entities)[id := old(entities)[id][name := state]]
      ensures r == Pass ==> Get(id, name) == Ok(state)
    {
      var found := GetEntity(id);
      if found.Err? {
        return Fail(found.error);
      }
      entities := entities[id := found.value[name := state]];
      r := Pass;
    }

    /** Detaches `name` if it is attached; refuses only an unknown entity. */
    method RemoveIfExists(id: EntityId, name: Name) returns (r: Outcome)
      requires Valid()
      modifies this`entities
      ensures Valid()
      ensures r == Pass <==> id in old(entities)
      ensures r.Fail? ==> entities == old(entities) && r.error == UnknownEntity(id)
      ensures r == Pass ==> entities == old(entities)[id := old(entities)[id] - {name}]
      ensures r == Pass ==> Has(id, name) == Ok(false)
      ensures r == Pass && name !in old(entities)[id] ==> entities == old(entities)
    {
      var found := GetEntity(id);
      if found.Err? {
        return Fail(found.error);
      }
      if name !in found.value {
        assert found.value - {name} == found.value;
      }
      entities := entities[id := found.value - {name}];
      r := Pass;
    }

    /** Detaches `name` from every entity that carries it; never fails. */
    method Clear(name: Name)
      requires Valid()
      modifies this`entities
      ensures Valid()
      ensures entities == ClearAll(old(entities), name)
      ensures (forall id :: id in old(entities) ==> name !in old(entities)[id]) ==> entities == old(entities)
    {
      var i := 0;
      while i < |order|
        invariant 0 <= i <= |order|
        invariant entities.Keys == old(entities).Keys
        invariant forall id :: id in entities ==>
          entities[id] == if id in order[..i] then old(entities)[id] - {name} else old(entities)[id]
      {
        var id := order[i];
        assert id !in order[..i] by {
          forall k | 0 <= k < i ensures order[..i][k] != id {
            assert order[..i][k] == order[k];
          }
        }
        assert order[..i + 1] == order[..i] + [id];
        entities := entities[id := entities[id] - {name}];
        i := i + 1;
      }
      assert order[..i] == order;
      ghost var cleared := ClearAll(old(entities), name);
      forall id | id in entities ensures entities[id] == cleared[id] {
        assert entities[id].Keys == cleared[id].Keys;
      }
      if forall id :: id in old(entities) ==> name !in old(entities)[id] {
        ClearAllAbsent(old(entities), name);
      }
    }
  }
}
