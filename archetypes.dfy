/** Archetypes: a fixed conjunction of filters over entities, and the list of
    entities currently matching it, kept up to date one change at a time. The
    listeners are modelled by their identities; what each would be told is
    recorded, in order, in a ghost trace. */
module Archetypes {
  import opened Sequences
  import opened Components
  import opened Entities

  /** The filter builders, and a custom predicate over what an entity holds. */
  datatype Filter =
    | Include(types: seq<string>)   // Archetype.include(...types)
    | Exclude(types: seq<string>)   // Archetype.exclude(...types)
    | Only(types: seq<string>)      // Archetype.only(...types)
    | Any(types: seq<string>)       // Archetype.any(...types)
    | Custom(test: EntityView -> bool)

  /** Whether entity `e` passes filter `f`. */
  predicate Holds(f: Filter, e: Entity)
    reads e
    requires e.Valid()
  {
    match f
    case Include(ts) => e.HasComponents(ts)
    case Exclude(ts) => forall i :: 0 <= i < |ts| ==> !e.HasComponent(ts[i])
    case Only(ts) => |ts| == |e.ComponentTypes()| && e.HasComponents(ts)
    case Any(ts) => exists i :: 0 <= i < |ts| && e.HasComponent(ts[i])
    case Custom(test) => test(e.View())
  }

  /** `fs.every(filter => filter(e))`. */
  predicate AllHold(fs: seq<Filter>, e: Entity)
    reads e
    requires e.Valid()
  {
    fs == [] || (Holds(fs[0], e) && AllHold(fs[1..], e))
  }

  /** The listener group an archetype event is delivered to. */
  datatype Group = AddGroup | RemoveGroup | ChangeGroup

  /** Listener `listener` of `group` receives `{type: change, entity, component}`. */
  datatype ArchetypeEvent =
    Delivered(group: Group, listener: Listener, change: ChangeType, entity: Entity, component: Option<Component>)

  /** One delivery per listener, in subscription order. */
  ghost function Deliveries(group: Group, ls: seq<Listener>, change: ChangeType, e: Entity, c: Option<Component>)
    : (r: seq<ArchetypeEvent>)
    ensures |r| == |ls|
    ensures forall i :: 0 <= i < |ls| ==> r[i] == Delivered(group, ls[i], change, e, c)
  {
    if ls == [] then []
    else Deliveries(group, ls[..|ls| - 1], change, e, c) + [Delivered(group, ls[|ls| - 1], change, e, c)]
  }

  class Archetype {
    const id: int
    const filters: seq<Filter>
    /** The matching entities, by identity, in the order they joined. */
    var entities: seq<Entity>
    var changeListeners: seq<Listener>
    var addListeners: seq<Listener>
    var removeListeners: seq<Listener>
    ghost var trace: seq<ArchetypeEvent>

    /** No entity is listed twice, and each listener set is a set. */
    ghost predicate Valid()
      reads this
    {
      NoDuplicates(entities) &&
      NoDuplicates(changeListeners) && NoDuplicates(addListeners) && NoDuplicates(removeListeners)
    }

    constructor(id: int, filters: seq<Filter>)
      ensures Valid()
      ensures this.id == id && this.filters == filters
      ensures entities == [] && trace == []
      ensures changeListeners == [] && addListeners == [] && removeListeners == []
    {
      this.id := id;
      this.filters := filters;
      entities, changeListeners, addListeners, removeListeners, trace := [], [], [], [], [];
    }

    /** `matchesEntity(e)`: every filter holds; with no filters, every entity matches. */
    predicate MatchesEntity(e: Entity)
      reads e
      requires e.Valid()
      ensures MatchesEntity(e) <==> forall i :: 0 <= i < |filters| ==> Holds(filters[i], e)
    {
      AllHoldAreAll(filters, e);
      AllHold(filters, e)
    }

    /** `hasEntity(e)`: `e`, compared by identity, is listed. */
    function HasEntity(e: Entity): (b: bool)
      reads this
      ensures b <==> e in entities
    {
      IndexOf(entities, e) != -1
    }

    /** What an addition delivers: the add listeners, then the change listeners. */
    ghost function AddEvents(e: Entity, c: Option<Component>): seq<ArchetypeEvent>
      reads this
    {
      Deliveries(AddGroup, addListeners, Add, e, c) + Deliveries(ChangeGroup, changeListeners, Add, e, c)
    }

    /** What a removal delivers: the remove listeners, then the change listeners. */
    ghost function RemoveEvents(e: Entity, c: Option<Component>): seq<ArchetypeEvent>
      reads this
    {
      Deliveries(RemoveGroup, removeListeners, Remove, e, c) + Deliveries(ChangeGroup, changeListeners, Remove, e, c)
    }

    /** `ls.forEach(listener => listener(ev))`. */
    method Deliver(group: Group, ls: seq<Listener>, change: ChangeType, e: Entity, c: Option<Component>)
      modifies this`trace
      ensures trace == old(trace) + Deliveries(group, ls, change, e, c)
    {
      var i := 0;
      while i < |ls|
        invariant 0 <= i <= |ls|
        invariant trace == old(trace) + Deliveries(group, ls[..i], change, e, c)
      {
        assert ls[..i + 1][..i] == ls[..i];
        trace := trace + [Delivered(group, ls[i], change, e, c)];
        i := i + 1;
      }
      assert ls[..i] == ls;
    }

    /** `handleEntityAdd(e, c)`: a matching entity that is not yet listed is
        pushed and announced; otherwise nothing happens. */
    method HandleEntityAdd(e: Entity, c: Option<Component>)
      requires Valid() && e.Valid()
      modifies this`entities, this`trace
      ensures Valid()
      ensures !MatchesEntity(e) || old(HasEntity(e)) ==>
        entities == old(entities) && trace == old(trace)
      ensures MatchesEntity(e) && !old(HasEntity(e)) ==>
        entities == old(entities) + [e] && trace == old(trace) + AddEvents(e, c)
    {
      if MatchesEntity(e) {
        if !HasEntity(e) {
          entities := entities + [e];
          Deliver(AddGroup, addListeners, Add, e, c);
          Deliver(ChangeGroup, changeListeners, Add, e, c);
        }
      }
    }

    /** `handleEntityRemove(e, c)`: a listed entity is spliced out at its
        index and the removal announced; otherwise nothing happens. */
    method HandleEntityRemove(e: Entity, c: Option<Component>)
      requires Valid()
      modifies this`entities, this`trace
      ensures Valid()
      ensures !old(HasEntity(e)) ==> entities == old(entities) && trace == old(trace)
      ensures old(HasEntity(e)) ==>
        var i := IndexOf(old(entities), e);
        entities == old(entities)[..i] + old(entities)[i + 1..] &&
        trace == old(trace) + RemoveEvents(e, c)
    {
      if HasEntity(e) {
        var idx := IndexOf(entities, e);
        if idx != -1 {
          SpliceRemoves(entities, idx);
          entities := entities[..idx] + entities[idx + 1..];
          Deliver(RemoveGroup, removeListeners, Remove, e, c);
          Deliver(ChangeGroup, changeListeners, Remove, e, c);
        }
      }
    }

    /** `handleEntityChange(e, c)`: removes a listed entity that no longer
        matches, adds an unlisted one that now does. Afterwards `e` is listed
        exactly when it matches, and no other entity's membership changed. */
    method HandleEntityChange(e: Entity, c: Option<Component>)
      requires Valid() && e.Valid()
      modifies this`entities, this`trace
      ensures Valid()
      ensures HasEntity(e) == MatchesEntity(e)
      ensures forall x :: x != e ==> (x in entities <==> x in old(entities))
      ensures old(HasEntity(e)) == MatchesEntity(e) ==>
        entities == old(entities) && trace == old(trace)
      ensures old(HasEntity(e)) && !MatchesEntity(e) ==>
        var i := IndexOf(old(entities), e);
        entities == old(entities)[..i] + old(entities)[i + 1..] &&
        trace == old(trace) + RemoveEvents(e, c)
      ensures !old(HasEntity(e)) && MatchesEntity(e) ==>
        entities == old(entities) + [e] && trace == old(trace) + AddEvents(e, c)
    {
      if HasEntity(e) {
        if !MatchesEntity(e) {
          SpliceRemoves(entities, IndexOf(entities, e));
          HandleEntityRemove(e, c);
        }
      } else {
        if MatchesEntity(e) {
          HandleEntityAdd(e, c);
        }
      }
    }

    /** `onChange(l)`: subscribes `l` to every change. */
    method OnChange(l: Listener)
      requires Valid()
      modifies this`changeListeners
      ensures Valid()
      ensures changeListeners == SetAdd(old(changeListeners), l)
    {
      changeListeners := SetAdd(changeListeners, l);
    }

    /** The function `onChange(l)` returns: unsubscribes `l`, and says
        whether it was subscribed. */
    method OffChange(l: Listener) returns (deleted: bool)
      requires Valid()
      modifies this`changeListeners
      ensures Valid()
      ensures deleted == (l in old(changeListeners))
      ensures changeListeners == Without(old(changeListeners), l)
    {
      deleted := l in changeListeners;
      changeListeners := Without(changeListeners, l);
    }

    /** `onAdd(l)`: subscribes `l` to additions. */
    method OnAdd(l: Listener)
      requires Valid()
      modifies this`addListeners
      ensures Valid()
      ensures addListeners == SetAdd(old(addListeners), l)
    {
      addListeners := SetAdd(addListeners, l);
    }

    /** The function `onAdd(l)` returns. */
    method OffAdd(l: Listener) returns (deleted: bool)
      requires Valid()
      modifies this`addListeners
      ensures Valid()
      ensures deleted == (l in old(addListeners))
      ensures addListeners == Without(old(addListeners), l)
    {
      deleted := l in addListeners;
      addListeners := Without(addListeners, l);
    }

    /** `onRemove(l)`: subscribes `l` to removals. */
    method OnRemove(l: Listener)
      requires Valid()
      modifies this`removeListeners
      ensures Valid()
      ensures removeListeners == SetAdd(old(removeListeners), l)
    {
      removeListeners := SetAdd(removeListeners, l);
    }

    /** The function `onRemove(l)` returns. */
    method OffRemove(l: Listener) returns (deleted: bool)
      requires Valid()
      modifies this`removeListeners
      ensures Valid()
      ensures deleted == (l in old(removeListeners))
      ensures removeListeners == Without(old(removeListeners), l)
    {
      deleted := l in removeListeners;
      removeListeners := Without(removeListeners, l);
    }
  }

  // ---------------------------------------------------------------------
  // Properties

  /** `every` over a list of filters is the conjunction over its positions. */
  lemma {:induction false} AllHoldAreAll(fs: seq<Filter>, e: Entity)
    requires e.Valid()
    ensures AllHold(fs, e) <==> forall i :: 0 <= i < |fs| ==> Holds(fs[i], e)
  {
    if fs != [] {
      AllHoldAreAll(fs[1..], e);
      assert forall i :: 1 <= i < |fs| ==> fs[i] == fs[1..][i - 1];
    }
  }

  /** `include(ts)` holds exactly when the keys `ts` are among the entity's. */
  lemma {:induction false} IncludeMeansSubset(ts: seq<string>, e: Entity)
    requires e.Valid()
    ensures Holds(Include(ts), e) <==> Elements(ts) <= e.components.Keys
  {
    if Elements(ts) <= e.components.Keys {
      forall i | 0 <= i < |ts| ensures e.HasComponent(ts[i]) {
        assert ts[i] in Elements(ts);
      }
    }
  }

  /** `exclude(ts)` holds exactly when no key of `ts` is the entity's. */
  lemma {:induction false} ExcludeMeansDisjoint(ts: seq<string>, e: Entity)
    requires e.Valid()
    ensures Holds(Exclude(ts), e) <==> Elements(ts) !! e.components.Keys
  {
    if !(Elements(ts) !! e.components.Keys) {
      var t :| t in Elements(ts) && t in e.components.Keys;
      var i :| 0 <= i < |ts| && ts[i] == t;
      assert e.HasComponent(ts[i]);
    }
  }

  /** `any(ts)` holds exactly when some key of `ts` is the entity's. */
  lemma {:induction false} AnyMeansOverlap(ts: seq<string>, e: Entity)
    requires e.Valid()
    ensures Holds(Any(ts), e) <==> Elements(ts) * e.components.Keys != {}
  {
    if Elements(ts) * e.components.Keys != {} {
      var t :| t in Elements(ts) * e.components.Keys;
      var i :| 0 <= i < |ts| && ts[i] == t;
      assert e.HasComponent(ts[i]);
    }
    if Holds(Any(ts), e) {
      var i :| 0 <= i < |ts| && e.HasComponent(ts[i]);
      assert ts[i] in Elements(ts) * e.components.Keys;
    }
  }

  /** For distinct keys, `only(ts)` holds exactly when the entity's keys are
      those of `ts`. */
  lemma {:induction false} OnlyDistinctMeansSameKeys(ts: seq<string>, e: Entity)
    requires e.Valid() && NoDuplicates(ts)
    ensures Holds(Only(ts), e) <==> Elements(ts) == e.components.Keys
  {
    var keys := e.ComponentTypes();
    assert Elements(keys) == e.components.Keys;
    IncludeMeansSubset(ts, e);
    DistinctCardinality(ts);
    DistinctCardinality(keys);
    if Holds(Only(ts), e) {
      SameLengthSubsetIsEqual(ts, keys);
    }
  }

  /** With a repeated key, `only` compares lengths, not sets: `only(a, a)`
      accepts an entity holding `a` and `b`. */
  lemma {:induction false} OnlyRepeatedKeyAcceptsMore(e: Entity)
    requires e.Valid() && e.components.Keys == {"a", "b"}
    ensures Holds(Only(["a", "a"]), e)
    ensures Elements(["a", "a"]) != e.components.Keys
  {
    DistinctCardinality(e.keyOrder);
    assert Elements(e.keyOrder) == {"a", "b"};
    assert |{"a", "b"}| == 2;
    assert "b" !in Elements(["a", "a"]);
  }

  /** `only('card')` rejects an entity holding `card` and `player`, which
      `include('card')` accepts. */
  lemma {:induction false} OnlyIsStricterThanInclude(e: Entity)
    requires e.Valid() && e.components.Keys == {"card", "player"}
    ensures !Holds(Only(["card"]), e)
    ensures Holds(Include(["card"]), e)
  {
    OnlyDistinctMeansSameKeys(["card"], e);
    assert Elements(["card"]) == {"card"};
    assert "player" !in Elements(["card"]);
  }

  /** An archetype without filters matches every entity. */
  lemma {:induction false} NoFiltersMatchEverything(a: Archetype, e: Entity)
    requires a.filters == [] && e.Valid()
    ensures a.MatchesEntity(e)
  {
  }
}
