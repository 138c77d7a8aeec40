/** Worked scenarios over entities and archetypes, and a fan-out harness that
    stands in for the entity manager, which is not part of this model. */
module Scenarios {
  import opened Sequences
  import opened Components
  import opened Entities
  import opened Archetypes

  /** An entity holding only `c`. */
  method EntityWith(ids: InstanceCounter, c: Component) returns (e: Entity)
    modifies ids
    ensures fresh(e) && e.Valid() && e.ids == ids && e.id == ids.last
    ensures e.components == map[c.kind := c] && e.keyOrder == [c.kind] && e.listeners == []
  {
    e := new Entity(ids);
    var r := e.AddComponent(c);
  }

  /** An entity holding a card, listed by an `include('card')` archetype
      that has one change listener. */
  method CardMember(ids: InstanceCounter) returns (e: Entity, a: Archetype)
    modifies ids
    ensures fresh(e) && fresh(a) && e.Valid() && a.Valid()
    ensures e.components == map["card" := Component("card", Null)]
    ensures a.filters == [Include(["card"])] && a.entities == [e]
    ensures a.changeListeners == [7] && a.removeListeners == []
  {
    var card := Component("card", Null);
    e := EntityWith(ids, card);
    a := new Archetype(1, [Include(["card"])]);
    a.OnChange(7);
    assert e.HasComponents(["card"]) by {
      assert e.HasComponent("card") && ["card"][1..] == [];
    }
    assert Holds(a.filters[0], e);
    a.HandleEntityChange(e, Some(card));
  }

  /** An entity holding a card is listed by an `include('card')` archetype;
      once the card is removed, the next change takes it out, and the one
      change listener hears a single removal carrying the card. */
  method CardLeavesArchetype()
    returns (joined: bool, left: bool, ghost entity: Entity, ghost heard: seq<ArchetypeEvent>)
    ensures joined && left
    ensures |heard| == 1 && heard[0].group == ChangeGroup && heard[0].listener == 7
    ensures heard[0].entity == entity
    ensures heard[0].change == Remove && heard[0].component == Some(Component("card", Null))
  {
    var ids := new InstanceCounter();
    var e, a := CardMember(ids);
    joined := a.HasEntity(e);
    ghost var before := a.trace;
    var card := e.components["card"];
    e.RemoveComponent("card");
    assert !Holds(a.filters[0], e) by {
      assert !e.HasComponent(["card"][0]);
    }
    a.HandleEntityChange(e, Some(card));
    left := !a.HasEntity(e);
    assert Deliveries(RemoveGroup, [], Remove, e, Some(card)) == [];
    heard := a.trace[|before|..];
    entity := e;
  }

  /** `new Entity([card, card])` adds the first card and throws at the
      second; adding a card to an entity that has one throws and changes
      nothing. */
  method DuplicateCardThrows() returns (created: Outcome, keys: seq<string>, again: Outcome, keysAfter: seq<string>)
    ensures created == Fail(DuplicateComponent("card")) && keys == ["card"]
    ensures again == Fail(DuplicateComponent("card")) && keysAfter == ["card"]
  {
    var ids := new InstanceCounter();
    var card := NewComponent("CardComponent", Null);
    CardKey();
    assert AddablePrefix({}, [card, card]) == 1 by {
      assert [card, card][1..] == [card];
    }
    assert [card, card][..1] == [card];
    var e;
    e, created := Entity.Create(ids, [card, card]);
    keys := e.keyOrder;
    again := e.AddComponent(card);
    keysAfter := e.keyOrder;
  }

  /** An entity to which player, position and card were added in that
      order, with one listener. `Component("player", Null)` is what
      `new PlayerComponent(null)` makes (`PlayerKey`), and so on. */
  method PlayerPositionCard(ids: InstanceCounter) returns (e: Entity)
    modifies ids
    ensures fresh(e) && e.Valid() && e.ids == ids && e.id == ids.last
    ensures e.keyOrder == ["player", "position", "card"] && e.listeners == [3]
    ensures e.components["player"] == Component("player", Null)
    ensures e.components["position"] == Component("position", Null)
    ensures e.components["card"] == Component("card", Null)
  {
    e := EntityWith(ids, Component("player", Null));
    assert !e.HasComponent("position");
    var r := e.AddComponent(Component("position", Null));
    assert e.keyOrder == ["player", "position"];
    assert e.components["player"] == Component("player", Null);
    assert !e.HasComponent("card");
    r := e.AddComponent(Component("card", Null));
    assert e.keyOrder == ["player", "position", "card"];
    e.OnChange(3);
  }

  /** Components added as player, position, card are detached by `reset`
      as card, position, player; afterwards the entity is empty, has no
      listeners and a larger id. */
  method ResetDetachesInReverseOrder()
    returns (keysAfter: seq<string>, listenersAfter: seq<Listener>, idGrew: bool, ghost detached: seq<Component>)
    ensures keysAfter == [] && listenersAfter == [] && idGrew
    ensures detached == [Component("card", Null), Component("position", Null), Component("player", Null)]
  {
    var ids := new InstanceCounter();
    var e := PlayerPositionCard(ids);
    var oldId := e.id;
    ghost var order, comps, ls, before := e.keyOrder, e.components, e.listeners, e.trace;
    e.Reset();
    keysAfter := e.keyOrder;
    listenersAfter := e.listeners;
    idGrew := e.id > oldId;
    ReversedElements(order);
    ghost var teardown := TeardownEvents(comps, Reversed(order), ls);
    assert e.trace[|before|..] == teardown;
    detached := Detachments(teardown);
    ResetDetachesThreeInReverse(comps, "player", "position", "card", ls);
  }

  /** `setComponentValue('position', {x: 5})` over `{x: 1, y: 2}` keeps `y`. */
  method MergeKeepsSiblings() returns (merged: Result<Value>)
    ensures merged == Ok(Obj(map["x" := Num(5), "y" := Num(2)]))
  {
    var ids := new InstanceCounter();
    var e := new Entity(ids);
    var r := e.AddComponent(Component("position", Obj(map["x" := Num(1), "y" := Num(2)])));
    assert e.components == map["position" := Component("position", Obj(map["x" := Num(1), "y" := Num(2)]))];
    SetValueExamples();
    r := e.SetComponentValue("position", Obj(map["x" := Num(5)]));
    assert e.components == map["position" := Component("position", Obj(map["x" := Num(5), "y" := Num(2)]))];
    merged := e.GetComponentValue("position");
  }

  /** On an entity without a card, reading or writing the card's value
      throws, and asking for the card gives nothing. */
  method MissingKeyThrows() returns (got: Result<Value>, written: Outcome, component: Option<Component>)
    ensures got == Err(MissingComponent("card"))
    ensures written == Fail(MissingComponent("card"))
    ensures component == None
  {
    var ids := new InstanceCounter();
    var e := new Entity(ids);
    var r := e.AddComponent(Component("position", Null));
    got := e.GetComponentValue("card");
    component := e.GetComponent("card");
    written := e.SetComponentValue("card", Num(1));
  }

  /** Setting an array replaces the stored array wholesale. */
  method ArrayReplaces() returns (replaced: Result<Value>)
    ensures replaced == Ok(Arr([Num(3)]))
  {
    var ids := new InstanceCounter();
    var e := new Entity(ids);
    var r := e.AddComponent(Component("position", Arr([Num(1), Num(2)])));
    SetValueExamples();
    r := e.SetComponentValue("position", Arr([Num(3)]));
    assert e.components == map["position" := Component("position", Arr([Num(3)]))];
    replaced := e.GetComponentValue("position");
  }

  /** Entities drawing from one counter get increasing ids. */
  method IdsIncrease() returns (first: nat, second: nat, renewed: nat)
    ensures first < second < renewed
  {
    var ids := new InstanceCounter();
    var a := new Entity(ids);
    var b := new Entity(ids);
    first, second := a.id, b.id;
    a.Reset();
    renewed := a.id;
  }

  /** `value.id === 0` on a payload: false for a payload that is not an
      object or has no `id`. */
  predicate IdIsZero(v: Value) {
    v.Obj? && "id" in v.fields && v.fields["id"] == Num(0)
  }

  /** The opponent's cards: `include('card')`, `include('player')` and a
      custom test that the player's payload has `id` 0. The source's test
      would throw on an entity without a player, but `every` never reaches
      it then. It also throws on a player whose payload is null or
      undefined; the model returns false there. */
  function OpponentCardsFilters(): seq<Filter> {
    [Include(["card"]), Include(["player"]),
     Custom((v: EntityView) => "player" in v.components && IdIsZero(v.components["player"].value))]
  }

  /** An entity is one of the opponent's cards exactly when it holds a card
      and a player whose payload has `id` 0. */
  lemma {:induction false} OpponentCardsMeaning(a: Archetype, e: Entity)
    requires a.filters == OpponentCardsFilters() && e.Valid()
    ensures a.MatchesEntity(e) <==>
      e.HasComponent("card") && e.HasComponent("player") && IdIsZero(e.components["player"].value)
  {
    var fs := OpponentCardsFilters();
    assert Holds(fs[0], e) <==> e.HasComponent("card") by {
      assert fs[0].types == ["card"];
    }
    assert Holds(fs[1], e) <==> e.HasComponent("player") by {
      assert fs[1].types == ["player"];
    }
    assert Holds(fs[2], e) <==> "player" in e.components && IdIsZero(e.components["player"].value) by {
      assert e.View().components == e.components;
    }
    assert |fs| == 3;
  }

  /** An entity holding a card and a player whose payload is `{id: n}`. */
  method CardOfPlayer(ids: InstanceCounter, n: int) returns (e: Entity)
    modifies ids
    ensures fresh(e) && e.Valid()
    ensures e.components == map["card" := Component("card", Null), "player" := Component("player", Obj(map["id" := Num(n)]))]
  {
    e := new Entity(ids);
    var r := e.AddComponent(Component("card", Null));
    r := e.AddComponent(Component("player", Obj(map["id" := Num(n)])));
  }

  /** A card of player 0 belongs to the opponent's cards; a card of player 1
      does not. */
  method OpponentCardsScenario() returns (theirs: bool, mine: bool)
    ensures theirs && !mine
  {
    var ids := new InstanceCounter();
    var a := new Archetype(2, OpponentCardsFilters());
    var e := CardOfPlayer(ids, 0);
    var f := CardOfPlayer(ids, 1);
    OpponentCardsMeaning(a, e);
    OpponentCardsMeaning(a, f);
    assert IdIsZero(e.components["player"].value);
    assert !IdIsZero(f.components["player"].value);
    theirs := a.MatchesEntity(e);
    mine := a.MatchesEntity(f);
  }

  /** Harness, not a model of source code: after a change to `e`, every
      archetype is told in turn, as an entity manager would; afterwards each
      lists `e` exactly when it matches. */
  method PropagateChange(archetypes: seq<Archetype>, e: Entity, c: Option<Component>)
    requires NoDuplicates(archetypes) && e.Valid()
    requires forall i :: 0 <= i < |archetypes| ==> archetypes[i].Valid()
    modifies set i | 0 <= i < |archetypes| :: archetypes[i]
    ensures forall i :: 0 <= i < |archetypes| ==>
      archetypes[i].Valid() && archetypes[i].HasEntity(e) == archetypes[i].MatchesEntity(e)
  {
    var k := 0;
    while k < |archetypes|
      invariant 0 <= k <= |archetypes|
      invariant forall i :: 0 <= i < |archetypes| ==> archetypes[i].Valid()
      invariant forall i :: 0 <= i < k ==> archetypes[i].HasEntity(e) == archetypes[i].MatchesEntity(e)
    {
      archetypes[k].HandleEntityChange(e, c);
      k := k + 1;
    }
  }
}
