/** Entities: a mutable bag of at most one component per discriminator, with
    attach/detach hooks and change listeners. Listener callbacks are modelled
    by their identities; what a hook or a listener would be told is recorded,
    in order, in a ghost trace. */
module Entities {
  import opened Sequences
  import opened Components

  /** A change listener, compared by identity as a JavaScript `Set` does. */
  type Listener = nat

  datatype ChangeType = Add | Remove

  datatype EntityEvent =
    | Attached(component: Component)   // component.onAttach(entity)
    | Detached(component: Component)   // component.onDetach(entity)
    | Notified(listener: Listener, change: ChangeType, component: Component)

  /** The errors the entity throws. */
  datatype Error =
    | DuplicateComponent(kind: string)     // "Entity already contains component of type …"
    | MissingComponent(kind: string)       // "Entity does not contain component of type …"
    | CannotConvertToObject(kind: string)  // Object.assign onto a null or undefined value

  datatype Outcome = Pass | Fail(error: Error)
  datatype Result<T> = Ok(value: T) | Err(error: Error)
  datatype Option<T> = None | Some(value: T)

  /** What a custom archetype filter may look at. */
  datatype EntityView = EntityView(id: int, components: map<string, Component>, componentTypes: seq<string>)

  // ---------------------------------------------------------------------
  // The events an operation emits

  /** One notification per listener, in the order the listeners subscribed. */
  ghost function Notifications(ls: seq<Listener>, change: ChangeType, c: Component): (r: seq<EntityEvent>)
    ensures |r| == |ls|
    ensures forall i :: 0 <= i < |ls| ==> r[i] == Notified(ls[i], change, c)
  {
    if ls == [] then []
    else Notifications(ls[..|ls| - 1], change, c) + [Notified(ls[|ls| - 1], change, c)]
  }

  /** Adding `c`: the attach hook, then every listener. */
  ghost function AdditionEvents(c: Component, ls: seq<Listener>): seq<EntityEvent> {
    [Attached(c)] + Notifications(ls, Add, c)
  }

  /** Removing `c`: the detach hook, then every listener. */
  ghost function RemovalEvents(c: Component, ls: seq<Listener>): seq<EntityEvent> {
    [Detached(c)] + Notifications(ls, Remove, c)
  }

  /** Removing the components stored in `comps` under `keys`, one after the
      other; a key with nothing stored under it emits nothing. */
  ghost function TeardownEvents(comps: map<string, Component>, keys: seq<string>, ls: seq<Listener>): seq<EntityEvent> {
    if keys == [] then []
    else
      var k := keys[|keys| - 1];
      TeardownEvents(comps, keys[..|keys| - 1], ls) + (if k in comps then RemovalEvents(comps[k], ls) else [])
  }

  /** Adding the components `cs`, one after the other. */
  ghost function RenewEvents(cs: seq<Component>, ls: seq<Listener>): seq<EntityEvent> {
    if cs == [] then []
    else RenewEvents(cs[..|cs| - 1], ls) + AdditionEvents(cs[|cs| - 1], ls)
  }

  /** The components a trace detaches, in the order it detaches them. */
  ghost function Detachments(tr: seq<EntityEvent>): seq<Component> {
    if tr == [] then []
    else Detachments(tr[..|tr| - 1]) + (if tr[|tr| - 1].Detached? then [tr[|tr| - 1].component] else [])
  }

  // ---------------------------------------------------------------------
  // Bulk addition (`renew`)

  /** The discriminators of `cs`, in order. */
  function Types(cs: seq<Component>): (ts: seq<string>)
    ensures |ts| == |cs| && forall i :: 0 <= i < |cs| ==> ts[i] == cs[i].kind
  {
    seq(|cs|, i requires 0 <= i < |cs| => cs[i].kind)
  }

  /** The component map after adding `cs` in order to `m`. */
  function AddAll(m: map<string, Component>, cs: seq<Component>): map<string, Component> {
    if cs == [] then m else AddAll(m, cs[..|cs| - 1])[cs[|cs| - 1].kind := cs[|cs| - 1]]
  }

  /** How many components of `cs`, from the front, can be added one after the
      other to an entity holding the keys `present` before one is a duplicate. */
  function AddablePrefix(present: set<string>, cs: seq<Component>): (k: nat)
    decreases |cs|
    ensures k <= |cs|
  {
    if cs == [] || cs[0].kind in present then 0
    else 1 + AddablePrefix(present + {cs[0].kind}, cs[1..])
  }

  /** One more component of `cs` added, in the bookkeeping of `renew`. */
  lemma {:induction false} RenewStep(m: map<string, Component>, o: seq<string>, t: seq<EntityEvent>,
                  cs: seq<Component>, i: nat, ls: seq<Listener>)
    requires i < |cs|
    ensures AddAll(m, cs[..i + 1]) == AddAll(m, cs[..i])[cs[i].kind := cs[i]]
    ensures o + Types(cs[..i + 1]) == o + Types(cs[..i]) + [cs[i].kind]
    ensures t + RenewEvents(cs[..i + 1], ls) == t + RenewEvents(cs[..i], ls) + AdditionEvents(cs[i], ls)
  {
    var pre, next := cs[..i], cs[..i + 1];
    assert next[..i] == pre && next[i] == cs[i];
    assert AddAll(m, next) == AddAll(m, pre)[cs[i].kind := cs[i]];
    TypesSnoc(pre, next, cs[i]);
    AppendAssociates(o, Types(pre), [cs[i].kind]);
    assert RenewEvents(next, ls) == RenewEvents(pre, ls) + AdditionEvents(cs[i], ls);
    AppendAssociates(t, RenewEvents(pre, ls), AdditionEvents(cs[i], ls));
  }

  lemma {:induction false} TypesSnoc(pre: seq<Component>, next: seq<Component>, c: Component)
    requires next == pre + [c]
    ensures Types(next) == Types(pre) + [c.kind]
  {
  }

  lemma {:induction false} AppendAssociates<T>(a: seq<T>, b: seq<T>, c: seq<T>)
    ensures a + (b + c) == a + b + c
  {
  }

  /** One more key removed, in the bookkeeping of `reset`: the next key in
      reversed order is the last of the keys still present. */
  lemma {:induction false} TeardownStep(comps: map<string, Component>, t: seq<EntityEvent>, order: seq<string>,
                     i: nat, ls: seq<Listener>)
    requires i < |order|
    requires forall k :: k in order ==> k in comps
    ensures var keys := Reversed(order);
      (forall k :: k in keys ==> k in comps) &&
      keys[i] == order[..|order| - i][|order| - i - 1] &&
      order[..|order| - i][..|order| - i - 1] == order[..|order| - (i + 1)] &&
      t + TeardownEvents(comps, keys[..i + 1], ls) ==
        t + TeardownEvents(comps, keys[..i], ls) + RemovalEvents(comps[keys[i]], ls)
  {
    var keys := Reversed(order);
    ReversedElements(order);
    assert keys[..i + 1][..i] == keys[..i];
  }

  /** `renew` goes on past `cs[i]` exactly when its key is new. */
  lemma {:induction false} AddablePrefixStep(present: set<string>, cs: seq<Component>, i: nat)
    requires i < |cs|
    ensures cs[i].kind in present ==> AddablePrefix(present, cs[i..]) == 0
    ensures cs[i].kind !in present ==>
      AddablePrefix(present, cs[i..]) == 1 + AddablePrefix(present + {cs[i].kind}, cs[i + 1..])
  {
    assert cs[i..][0] == cs[i] && cs[i..][1..] == cs[i + 1..];
  }

  /** The components `renew` adds are new keys, and the one it stops at is a
      duplicate of a key present before or added earlier in the same call. */
  lemma {:induction false} AddablePrefixStopsAtDuplicate(present: set<string>, cs: seq<Component>)
    decreases |cs|
    ensures var k := AddablePrefix(present, cs);
      (forall i :: 0 <= i < k ==> cs[i].kind !in present && forall j :: 0 <= j < i ==> cs[j].kind != cs[i].kind) &&
      (k < |cs| ==> cs[k].kind in present || exists i :: 0 <= i < k && cs[i].kind == cs[k].kind)
  {
    if cs != [] && cs[0].kind !in present {
      var p' := present + {cs[0].kind};
      var rest := cs[1..];
      AddablePrefixStopsAtDuplicate(p', rest);
      var k' := AddablePrefix(p', rest);
      forall i | 0 <= i < k' + 1
        ensures cs[i].kind !in present && forall j :: 0 <= j < i ==> cs[j].kind != cs[i].kind
      {
        if i > 0 {
          assert cs[i] == rest[i - 1];
          forall j | 0 <= j < i ensures cs[j].kind != cs[i].kind {
            if j > 0 { assert cs[j] == rest[j - 1]; }
          }
        }
      }
      if k' + 1 < |cs| {
        assert cs[k' + 1] == rest[k'];
        if rest[k'].kind !in p' {
          var i :| 0 <= i < k' && rest[i].kind == rest[k'].kind;
          assert cs[i + 1] == rest[i];
        }
      }
    }
  }

  // ---------------------------------------------------------------------
  // Setting a value

  /** `typeof v === 'object' && !Array.isArray(v)`. */
  predicate IsMergeable(v: Value) {
    v.Obj? || v.Null?
  }

  /** `Object.assign(target, source)` for a source that is an object or null.
      A null or undefined target throws; a primitive target is wrapped, the
      wrapper discarded, so the stored primitive stays as it was; a null source
      contributes no fields. */
  function ObjectAssign(target: Value, source: Value): (r: Option<Value>)
    requires IsMergeable(source)
    ensures r.None? <==> target.Undefined? || target.Null?
    ensures r.Some? && !(target.Obj? && source.Obj?) ==> r.value == target
  {
    if target.Undefined? || target.Null? then None
    else if target.Obj? && source.Obj? then Some(Obj(target.fields + source.fields))
    else Some(target)
  }

  /** The value stored by `setComponentValue(type, v)` over `stored`; None when
      it throws. */
  function UpdatedValue(stored: Value, v: Value): (r: Option<Value>)
    ensures r.None? <==> IsMergeable(v) && (stored.Undefined? || stored.Null?)
    ensures !IsMergeable(v) ==> r == Some(v)
    ensures stored.Obj? && v.Obj? ==>
      r.Some? && r.value.Obj? &&
      r.value.fields.Keys == stored.fields.Keys + v.fields.Keys &&
      (forall k :: k in v.fields ==> r.value.fields[k] == v.fields[k]) &&
      (forall k :: k in stored.fields && k !in v.fields ==> r.value.fields[k] == stored.fields[k])
  {
    if IsMergeable(v) then ObjectAssign(stored, v) else Some(v)
  }

  /** The module-level `instanceIdx` counter that entity ids are drawn from. */
  class InstanceCounter {
    var last: nat

    constructor()
      ensures last == 0
    {
      last := 0;
    }

    /** `++instanceIdx`. */
    method Next() returns (id: nat)
      modifies this
      ensures last == old(last) + 1 && id == last
    {
      last := last + 1;
      id := last;
    }
  }

  class Entity {
    var id: nat
    /** The `components` object: discriminator to component. */
    var components: map<string, Component>
    /** The order of `Object.keys(components)`: insertion order. Keys are
        derived from class names, which never start with a digit, so no key
        is an array index and JavaScript keeps them in insertion order. */
    var keyOrder: seq<string>
    /** `onChangeListeners`, a Set, in subscription order. */
    var listeners: seq<Listener>
    ghost var trace: seq<EntityEvent>
    /** The counter `reset` draws fresh ids from. */
    const ids: InstanceCounter

    /** At most one component per discriminator, each stored under its own
        discriminator, and the key order lists exactly the stored keys. */
    ghost predicate Valid()
      reads this
    {
      NoDuplicates(keyOrder) && NoDuplicates(listeners) &&
      (forall t :: t in components <==> t in keyOrder) &&
      (forall t :: t in components ==> components[t].kind == t)
    }

    /** The id was drawn from the counter: no later id equals it. */
    ghost predicate IdIssued()
      reads this, ids
    {
      id <= ids.last
    }

    /** The fields of the entity `new Entity()` creates, before the body of
        its constructor runs `reset()`; then that `reset()`. */
    constructor(ids: InstanceCounter)
      modifies ids
      ensures Valid() && IdIssued() && this.ids == ids
      ensures components == map[] && keyOrder == [] && listeners == [] && trace == []
      ensures ids.last == old(ids.last) + 1 && id == ids.last
    {
      this.ids := ids;
      id, components, keyOrder, listeners, trace := 0, map[], [], [], [];
      new;
      Reset();
    }

    /** `new Entity(cs)`: the constructor above, then `renew(cs)`; it throws
        when `r` is a failure, after the components before the duplicate were
        added. */
    static method Create(ids: InstanceCounter, cs: seq<Component>) returns (e: Entity, r: Outcome)
      modifies ids
      ensures fresh(e) && e.Valid() && e.IdIssued() && e.ids == ids
      ensures ids.last == old(ids.last) + 1 && e.id == ids.last && e.listeners == []
      ensures var k := AddablePrefix({}, cs);
        (r == Pass <==> k == |cs|) &&
        (r != Pass ==> r == Fail(DuplicateComponent(cs[k].kind))) &&
        e.components == AddAll(map[], cs[..k]) &&
        e.keyOrder == Types(cs[..k]) &&
        e.trace == RenewEvents(cs[..k], [])
    {
      e := new Entity(ids);
      assert e.components.Keys == {};
      r := e.Renew(cs);
      ghost var k := AddablePrefix({}, cs);
      assert [] + Types(cs[..k]) == Types(cs[..k]);
      assert [] + RenewEvents(cs[..k], []) == RenewEvents(cs[..k], []);
    }

    /** A snapshot of what the entity holds. */
    function View(): EntityView
      reads this
    {
      EntityView(id, components, keyOrder)
    }

    /** `hasComponent(type)`: a component is stored under `t`. */
    predicate HasComponent(t: string)
      reads this
      ensures Valid() ==> (HasComponent(t) <==> t in keyOrder)
    {
      t in components
    }

    /** `componentTypes`: the stored keys, each once, in insertion order. */
    function ComponentTypes(): (ts: seq<string>)
      reads this
      requires Valid()
      ensures NoDuplicates(ts)
      ensures forall t :: t in ts <==> HasComponent(t)
      ensures |ts| == |components|
    {
      DistinctCardinality(keyOrder);
      assert Elements(keyOrder) == components.Keys;
      keyOrder
    }

    /** `hasComponents(...ts)`: every one of `ts` is present; true for none. */
    function HasComponents(ts: seq<string>): (b: bool)
      reads this
      ensures b <==> forall i :: 0 <= i < |ts| ==> HasComponent(ts[i])
    {
      ts == [] || (HasComponent(ts[0]) && HasComponents(ts[1..]))
    }

    /** `getComponent(type)`: the component stored under `t`, if any. */
    function GetComponent(t: string): (r: Option<Component>)
      reads this
      requires Valid()
      ensures r.Some? <==> HasComponent(t)
      ensures r.Some? ==> r.value.kind == t && t in ComponentTypes()
    {
      if t in components then Some(components[t]) else None
    }

    /** `getComponentValue(type)`: throws exactly when `t` is absent. */
    function GetComponentValue(t: string): (r: Result<Value>)
      reads this
      requires Valid()
      ensures r.Err? <==> !HasComponent(t)
      ensures r.Err? ==> r.error == MissingComponent(t)
      ensures r.Ok? ==> GetComponent(t).Some? && GetComponent(t).value.value == r.value
    {
      if t in components then Ok(components[t].value) else Err(MissingComponent(t))
    }

    /** Tells every listener, in subscription order. */
    method NotifyListeners(change: ChangeType, c: Component)
      modifies this`trace
      ensures trace == old(trace) + Notifications(listeners, change, c)
    {
      var i := 0;
      while i < |listeners|
        invariant 0 <= i <= |listeners|
        invariant trace == old(trace) + Notifications(listeners[..i], change, c)
      {
        assert listeners[..i + 1][..i] == listeners[..i];
        trace := trace + [Notified(listeners[i], change, c)];
        i := i + 1;
      }
      assert listeners[..i] == listeners;
    }

    /** `addComponent(c)`: throws on a duplicate and changes nothing; otherwise
        stores `c` under its discriminator, appends the key, runs the attach
        hook and then tells the listeners. */
    method AddComponent(c: Component) returns (r: Outcome)
      requires Valid()
      modifies this`components, this`keyOrder, this`trace
      ensures Valid()
      ensures old(HasComponent(c.kind)) ==>
        r == Fail(DuplicateComponent(c.kind)) &&
        components == old(components) && keyOrder == old(keyOrder) && trace == old(trace)
      ensures !old(HasComponent(c.kind)) ==>
        r == Pass &&
        components == old(components)[c.kind := c] &&
        keyOrder == old(keyOrder) + [c.kind] &&
        trace == old(trace) + AdditionEvents(c, listeners)
    {
      var t := c.kind;
      if t !in components {
        assert keyOrder + [t] == SetAdd(keyOrder, t);
        components := components[t := c];
        keyOrder := keyOrder + [t];
        trace := trace + [Attached(c)];   // the default onAttach changes nothing
        NotifyListeners(Add, c);
        r := Pass;
      } else {
        r := Fail(DuplicateComponent(t));
      }
    }

    /** `removeComponent(t)`: nothing happens when `t` is absent; otherwise
        the component is unstored, its key dropped from the order, the detach
        hook runs and then the listeners are told. */
    method RemoveComponent(t: string)
      requires Valid()
      modifies this`components, this`keyOrder, this`trace
      ensures Valid()
      ensures !old(HasComponent(t)) ==>
        components == old(components) && keyOrder == old(keyOrder) && trace == old(trace)
      ensures old(HasComponent(t)) ==>
        components == old(components) - {t} &&
        keyOrder == Without(old(keyOrder), t) &&
        trace == old(trace) + RemovalEvents(old(components)[t], listeners)
    {
      if t in components {
        var c := components[t];
        components := components - {t};
        keyOrder := Without(keyOrder, t);
        trace := trace + [Detached(c)];   // the default onDetach changes nothing
        NotifyListeners(Remove, c);
      }
    }

    /** `toggleComponent(klass, predicate)`: when `present` (the source's
        `predicate`) holds, adds a default instance of the class unless its key
        is already there; otherwise removes it. */
    method ToggleComponent(className: string, present: bool)
      requires Valid()
      modifies this`components, this`keyOrder, this`trace
      ensures Valid()
      ensures present ==> HasComponent(ComponentTypeFromClass(className))
      ensures !present ==> !HasComponent(ComponentTypeFromClass(className))
      ensures old(HasComponent(ComponentTypeFromClass(className))) == present ==>
        components == old(components) && keyOrder == old(keyOrder) && trace == old(trace)
      ensures present && !old(HasComponent(ComponentTypeFromClass(className))) ==>
        components == old(components)[ComponentTypeFromClass(className) := NewComponent(className, Undefined)] &&
        keyOrder == old(keyOrder) + [ComponentTypeFromClass(className)] &&
        trace == old(trace) + AdditionEvents(NewComponent(className, Undefined), listeners)
      ensures !present && old(HasComponent(ComponentTypeFromClass(className))) ==>
        components == old(components) - {ComponentTypeFromClass(className)} &&
        keyOrder == Without(old(keyOrder), ComponentTypeFromClass(className)) &&
        trace == old(trace) + RemovalEvents(old(components)[ComponentTypeFromClass(className)], listeners)
    {
      var t := ComponentTypeFromClass(className);
      if present {
        if !HasComponent(t) {
          var _ := AddComponent(NewComponent(className, Undefined));
        }
      } else {
        RemoveComponent(t);
      }
    }

    /** `setComponentValue(t, v)`: throws when `t` is absent; merges an object
        into the stored value field by field; stores any other value as is. */
    method SetComponentValue(t: string, v: Value) returns (r: Outcome)
      requires Valid()
      modifies this`components
      ensures Valid()
      ensures !old(HasComponent(t)) ==> r == Fail(MissingComponent(t)) && components == old(components)
      ensures old(HasComponent(t)) && UpdatedValue(old(components)[t].value, v).None? ==>
        r == Fail(CannotConvertToObject(t)) && components == old(components)
      ensures old(HasComponent(t)) && UpdatedValue(old(components)[t].value, v).Some? ==>
        r == Pass &&
        components == old(components)[t := Component(t, UpdatedValue(old(components)[t].value, v).value)]
    {
      if t in components {
        var c := components[t];
        var u := UpdatedValue(c.value, v);
        if u.Some? {
          components := components[t := Component(c.kind, u.value)];
          r := Pass;
        } else {
          r := Fail(CannotConvertToObject(t));
        }
      } else {
        r := Fail(MissingComponent(t));
      }
    }

    /** `renew(cs)`: adds `cs` in order, stopping at (and throwing for) the
        first duplicate; the ones before it stay added. */
    method Renew(cs: seq<Component>) returns (r: Outcome)
      requires Valid()
      modifies this`components, this`keyOrder, this`trace
      ensures Valid()
      ensures var k := AddablePrefix(old(components).Keys, cs);
        (r == Pass <==> k == |cs|) &&
        (r != Pass ==> r == Fail(DuplicateComponent(cs[k].kind))) &&
        components == AddAll(old(components), cs[..k]) &&
        keyOrder == old(keyOrder) + Types(cs[..k]) &&
        trace == old(trace) + RenewEvents(cs[..k], listeners)
    {
      ghost var k := AddablePrefix(components.Keys, cs);
      r := Pass;
      var i := 0;
      while i < |cs|
        invariant Valid() && 0 <= i <= |cs|
        invariant k == i + AddablePrefix(components.Keys, cs[i..])
        invariant components == AddAll(old(components), cs[..i])
        invariant keyOrder == old(keyOrder) + Types(cs[..i])
        invariant trace == old(trace) + RenewEvents(cs[..i], listeners)
        invariant r == Pass
      {
        RenewStep(old(components), old(keyOrder), old(trace), cs, i, listeners);
        AddablePrefixStep(components.Keys, cs, i);
        ghost var before := components;
        r := AddComponent(cs[i]);
        if r.Fail? {
          assert k == i && r == Fail(DuplicateComponent(cs[k].kind));
          return;
        }
        assert components.Keys == before.Keys + {cs[i].kind};
        i := i + 1;
      }
      assert cs[..i] == cs;
    }

    /** The state after the first `i` keys of `Reversed(order)` have been
        removed from an entity that held `comps` under the key order `order`
        when its trace was `t`. */
    ghost predicate TornDown(comps: map<string, Component>, order: seq<string>, t: seq<EntityEvent>, i: nat)
      reads this
    {
      i <= |order| && keyOrder == order[..|order| - i] &&
      (forall k :: k in components ==> k in comps && components[k] == comps[k]) &&
      trace == t + TeardownEvents(comps, Reversed(order)[..i], listeners)
    }

    /** One step of the removal loop of `reset`: removes the next key. */
    method RemoveNext(ghost comps: map<string, Component>, ghost order: seq<string>, ghost t: seq<EntityEvent>,
                      keys: seq<string>, i: nat)
      requires Valid() && TornDown(comps, order, t, i) && i < |order| && keys == Reversed(order)
      requires forall k :: k in order ==> k in comps
      modifies this`components, this`keyOrder, this`trace
      ensures Valid() && TornDown(comps, order, t, i + 1)
    {
      TeardownStep(comps, t, order, i, listeners);
      WithoutLast(keyOrder);
      assert keys[i] in components;
      RemoveComponent(keys[i]);
    }

    /** `this.componentTypes.reverse().forEach(this.removeComponent)`: removes
        every component, the most recently added first, telling the listeners
        each time. */
    method RemoveAll()
      requires Valid()
      modifies this`components, this`keyOrder, this`trace
      ensures Valid()
      ensures components == map[] && keyOrder == []
      ensures forall k :: k in old(keyOrder) ==> k in old(components)
      ensures trace == old(trace) + TeardownEvents(old(components), Reversed(old(keyOrder)), listeners)
    {
      ghost var comps, order, t := components, keyOrder, trace;
      var keys := Reversed(keyOrder);
      var n := |keys|;
      var i := 0;
      assert order[..n] == order;
      while i < n
        invariant Valid() && 0 <= i <= n && TornDown(comps, order, t, i)
      {
        RemoveNext(comps, order, t, keys, i);
        i := i + 1;
      }
      assert keys[..i] == keys;
      assert components == map[] by {
        assert forall k :: k !in components;
      }
    }

    /** `reset()`: removes every component as `RemoveAll` does, telling the
        current listeners; then draws a fresh id and drops every listener. */
    method Reset()
      requires Valid()
      modifies this`id, this`components, this`keyOrder, this`listeners, this`trace, ids
      ensures Valid() && IdIssued()
      ensures components == map[] && keyOrder == [] && listeners == []
      ensures ids.last == old(ids.last) + 1 && id == ids.last
      ensures old(IdIssued()) ==> id > old(id)
      ensures forall k :: k in old(keyOrder) ==> k in old(components)
      ensures trace == old(trace) + TeardownEvents(old(components), Reversed(old(keyOrder)), old(listeners))
    {
      RemoveAll();
      id := ids.Next();
      listeners := [];
    }

    /** `onChange(l)`: subscribes `l`; a second subscription is a no-op. */
    method OnChange(l: Listener)
      requires Valid()
      modifies this`listeners
      ensures Valid()
      ensures listeners == SetAdd(old(listeners), l)
    {
      listeners := SetAdd(listeners, l);
    }

    /** The function `onChange(l)` returns: unsubscribes `l`, and says whether
        it was subscribed. */
    method OffChange(l: Listener) returns (deleted: bool)
      requires Valid()
      modifies this`listeners
      ensures Valid()
      ensures deleted == (l in old(listeners))
      ensures listeners == Without(old(listeners), l)
    {
      deleted := l in listeners;
      listeners := Without(listeners, l);
    }
  }

  // ---------------------------------------------------------------------
  // Properties

  /** Listener notifications detach nothing. */
  lemma {:induction false} NotificationsDetachNothing(ls: seq<Listener>, change: ChangeType, c: Component)
    ensures Detachments(Notifications(ls, change, c)) == []
  {
    if ls != [] {
      NotificationsDetachNothing(ls[..|ls| - 1], change, c);
      var pre := Notifications(ls[..|ls| - 1], change, c);
      var all := Notifications(ls, change, c);
      assert all[..|all| - 1] == pre;
    }
  }

  lemma {:induction false} DetachmentsAppend(a: seq<EntityEvent>, b: seq<EntityEvent>)
    ensures Detachments(a + b) == Detachments(a) + Detachments(b)
  {
    if b == [] {
      assert a + b == a;
    } else {
      DetachmentsAppend(a, b[..|b| - 1]);
      assert (a + b)[..|a + b| - 1] == a + b[..|b| - 1];
    }
  }

  /** Removing one component detaches exactly that component. */
  lemma {:induction false} RemovalDetachesOne(c: Component, ls: seq<Listener>)
    ensures Detachments(RemovalEvents(c, ls)) == [c]
  {
    DetachmentsAppend([Detached(c)], Notifications(ls, Remove, c));
    NotificationsDetachNothing(ls, Remove, c);
    assert [Detached(c)][..0] == [];
  }

  /** Removing one more key detaches one more component, at the end. */
  lemma {:induction false} TeardownDetachmentsSnoc(comps: map<string, Component>, keys: seq<string>, ls: seq<Listener>)
    requires keys != [] && forall k :: k in keys ==> k in comps
    ensures Detachments(TeardownEvents(comps, keys, ls)) ==
      Detachments(TeardownEvents(comps, keys[..|keys| - 1], ls)) + [comps[keys[|keys| - 1]]]
  {
    var last := comps[keys[|keys| - 1]];
    DetachmentsAppend(TeardownEvents(comps, keys[..|keys| - 1], ls), RemovalEvents(last, ls));
    RemovalDetachesOne(last, ls);
  }

  /** Removing components detaches each one once, in the order of removal. */
  lemma {:induction false} TeardownDetachesInOrder(comps: map<string, Component>, keys: seq<string>, ls: seq<Listener>)
    requires forall k :: k in keys ==> k in comps
    ensures var d := Detachments(TeardownEvents(comps, keys, ls));
      |d| == |keys| && forall i :: 0 <= i < |keys| ==> d[i] == comps[keys[i]]
  {
    if keys != [] {
      var pre := keys[..|keys| - 1];
      TeardownDetachesInOrder(comps, pre, ls);
      TeardownDetachmentsSnoc(comps, keys, ls);
      var d := Detachments(TeardownEvents(comps, keys, ls));
      var dpre := Detachments(TeardownEvents(comps, pre, ls));
      var last := comps[keys[|keys| - 1]];
      assert |dpre| == |pre| && d == dpre + [last];
      forall i | 0 <= i < |keys| ensures d[i] == comps[keys[i]] {
        if i < |pre| {
          assert d[i] == dpre[i] && keys[i] == pre[i];
        } else {
          assert i == |dpre| && d[i] == last;
        }
      }
    }
  }

  /** `reset` detaches the components in reverse insertion order: the i-th
      detached component is the one added i-th from last. */
  lemma {:induction false} ResetDetachesInReverse(comps: map<string, Component>, order: seq<string>, ls: seq<Listener>)
    requires forall k :: k in order ==> k in comps
    ensures var d := Detachments(TeardownEvents(comps, Reversed(order), ls));
      |d| == |order| && forall i :: 0 <= i < |order| ==> d[i] == comps[order[|order| - 1 - i]]
  {
    TeardownDetachesInOrder(comps, Reversed(order), ls);
  }

  /** Components added in the order A, B, C are detached as C, B, A. */
  lemma {:induction false} ResetDetachesThreeInReverse(comps: map<string, Component>, a: string, b: string, c: string, ls: seq<Listener>)
    requires a in comps && b in comps && c in comps
    ensures Detachments(TeardownEvents(comps, Reversed([a, b, c]), ls)) == [comps[c], comps[b], comps[a]]
  {
    ResetDetachesInReverse(comps, [a, b, c], ls);
  }

  /** Distinct components, none of them present, are all added by `renew`. */
  lemma {:induction false} RenewAddsAllDistinct(present: set<string>, cs: seq<Component>)
    requires NoDuplicates(Types(cs))
    requires forall i :: 0 <= i < |cs| ==> cs[i].kind !in present
    ensures AddablePrefix(present, cs) == |cs|
    decreases |cs|
  {
    if cs != [] {
      var rest := cs[1..];
      assert Types(rest) == Types(cs)[1..];
      SplitFirst(Types(cs));
      forall i | 0 <= i < |rest| ensures rest[i].kind !in present + {cs[0].kind} {
        assert rest[i].kind == Types(cs)[i + 1];
      }
      RenewAddsAllDistinct(present + {cs[0].kind}, rest);
    }
  }

  /** The key order after renewing an empty entity with distinct components
      is the components' keys. */
  lemma {:induction false} RenewOfEmptyOrdersKeys(cs: seq<Component>)
    requires NoDuplicates(Types(cs))
    ensures AddablePrefix({}, cs) == |cs|
    ensures Types(cs[..AddablePrefix({}, cs)]) == Types(cs)
  {
    var none: set<string> := {};
    assert forall i :: 0 <= i < |cs| ==> cs[i].kind !in none;
    RenewAddsAllDistinct(none, cs);
    assert none == {};
    assert cs[..|cs|] == cs;
  }

  /** The merge example: `{x: 1, y: 2}` set with `{x: 5}` becomes
      `{x: 5, y: 2}`; an array replaces an array wholesale. */
  lemma SetValueExamples()
    ensures UpdatedValue(Obj(map["x" := Num(1), "y" := Num(2)]), Obj(map["x" := Num(5)]))
         == Some(Obj(map["x" := Num(5), "y" := Num(2)]))
    ensures UpdatedValue(Arr([Num(1), Num(2)]), Arr([Num(3)])) == Some(Arr([Num(3)]))
  {
    var m := map["x" := Num(1), "y" := Num(2)] + map["x" := Num(5)];
    assert m.Keys == {"x", "y"};
    assert m == map["x" := Num(5), "y" := Num(2)];
  }
}
