/** Components: typed payloads attached to entities, and the derivation of a
    component's discriminator (its `type`) from the name of its class. */
module Components {

  /** The JavaScript values a component payload can hold. Numbers are
      modelled as integers. */
  datatype Value =
    | Undefined
    | Null
    | Bool(b: bool)
    | Num(n: int)
    | Str(s: string)
    | Arr(items: seq<Value>)
    | Obj(fields: map<string, Value>)

  /** The suffix that `/Component$/` strips. */
  const Suffix: string := "Component"

  /** `String.prototype.toLowerCase` on one character, for the ASCII letters:
      an upper-case letter becomes its lower-case partner, anything else is
      kept. */
  function LowerChar(c: char): (r: char)
    ensures 'A' <= c <= 'Z' ==> 'a' <= r <= 'z' && UpperChar(r) == c
    ensures !('A' <= c <= 'Z') ==> r == c
  {
    if 'A' <= c <= 'Z' then (c as int + 32) as char else c
  }

  /** The inverse of `LowerChar` on the ASCII letters. */
  function UpperChar(c: char): char {
    if 'a' <= c <= 'z' then (c as int - 32) as char else c
  }

  predicate EndsWith(s: string, suffix: string) {
    |suffix| <= |s| && s[|s| - |suffix|..] == suffix
  }

  /** `s.replace(/Component$/, '')`: the anchored, non-global regex removes
      one trailing occurrence and nothing else. */
  function StripSuffix(s: string): (r: string)
    ensures EndsWith(s, Suffix) ==> r + Suffix == s
    ensures !EndsWith(s, Suffix) ==> r == s
  {
    if EndsWith(s, Suffix) then s[..|s| - |Suffix|] else s
  }

  /** `getComponentTypeFromClass`: the first character lower-cased, then the
      rest of the name with one trailing `Component` removed. */
  function ComponentTypeFromClass(name: string): (r: string)
    ensures name == [] <==> r == []
    ensures name != [] ==> r[0] == LowerChar(name[0])
    ensures name != [] && EndsWith(name[1..], Suffix) ==> r[1..] + Suffix == name[1..]
    ensures name != [] && !EndsWith(name[1..], Suffix) ==> r[1..] == name[1..]
  {
    var first := if name == [] then [] else [LowerChar(name[0])];
    var rest := if name == [] then [] else name[1..];
    first + StripSuffix(rest)
  }

  /** The conventional class name of the component stored under `key`. */
  function ClassNameFor(key: string): string
    requires key != []
  {
    [UpperChar(key[0])] + key[1..] + Suffix
  }

  /** A component instance: its `type` discriminator (here `kind`), fixed
      when the instance is created, and its payload. */
  datatype Component = Component(kind: string, value: Value)

  /** `new SomeComponent(value)`: the `type` field initialiser derives the
      discriminator from the constructor's name. */
  function NewComponent(className: string, value: Value): Component {
    Component(ComponentTypeFromClass(className), value)
  }

  /** The discriminator depends on the class alone: two instances of one
      class share it whatever their payloads, and it is the key derived
      from the class name. */
  lemma {:induction false} TypeDependsOnClassOnly(className: string, v: Value, w: Value)
    ensures NewComponent(className, v).kind == NewComponent(className, w).kind
    ensures NewComponent(className, v).kind == ComponentTypeFromClass(className)
    ensures NewComponent(className, v).value == v
  {
  }

  /** How long the derived key is: nine characters shorter than the class
      name when the suffix was stripped, as long as it otherwise. */
  lemma {:induction false} TypeLength(name: string)
    ensures name != [] && EndsWith(name[1..], Suffix) ==>
      |ComponentTypeFromClass(name)| == |name| - 9
    ensures !(name != [] && EndsWith(name[1..], Suffix)) ==>
      |ComponentTypeFromClass(name)| == |name|
  {
    var r := ComponentTypeFromClass(name);
    if name != [] {
      assert |r| == 1 + |r[1..]|;
    }
  }

  /** Naming a class by the convention and deriving its key gives the key
      back, for every key that does not start with an upper-case letter. */
  lemma {:induction false} DerivationInvertsNaming(key: string, name: string)
    requires key != [] && !('A' <= key[0] <= 'Z') && name == ClassNameFor(key)
    ensures ComponentTypeFromClass(name) == key
  {
    assert name[0] == UpperChar(key[0]);
    assert LowerChar(UpperChar(key[0])) == key[0];
    assert name[1..] == key[1..] + Suffix;
    assert EndsWith(name[1..], Suffix);
    var r := ComponentTypeFromClass(name);
    assert r[1..] + Suffix == key[1..] + Suffix;
    assert r[1..] == key[1..];
    assert r == [r[0]] + r[1..];
  }

  /** A class named exactly `Component`: the strip applies to `omponent`
      only, so the key is `component`, not the empty string. */
  lemma BareComponentClass()
    ensures ComponentTypeFromClass("Component") == "component"
  {
    assert !EndsWith("omponent", Suffix);
  }

  /** The regex is anchored: an occurrence of `Component` that does not end
      the name survives. */
  lemma InnerOccurrenceSurvives()
    ensures ComponentTypeFromClass("XComponentHolder") == "xComponentHolder"
  {
    assert !EndsWith("ComponentHolder", Suffix);
  }

  /** The replacement runs once: of two trailing occurrences, only the last
      is stripped. */
  lemma OneOccurrenceStripped()
    ensures ComponentTypeFromClass("XComponentComponent") == "xComponent"
  {
    DerivationInvertsNaming("xComponent", "XComponentComponent");
  }

  // Test vectors: classes of the three.js example and the keys they are
  // registered under.

  lemma PlayerKey()
    ensures ComponentTypeFromClass("PlayerComponent") == "player"
  {
    DerivationInvertsNaming("player", "PlayerComponent");
  }

  lemma PositionKey()
    ensures ComponentTypeFromClass("PositionComponent") == "position"
  {
    DerivationInvertsNaming("position", "PositionComponent");
  }

  lemma CardKey()
    ensures ComponentTypeFromClass("CardComponent") == "card"
  {
    DerivationInvertsNaming("card", "CardComponent");
  }

  lemma BoxShadowKey()
    ensures ComponentTypeFromClass("BoxShadowComponent") == "boxShadow"
  {
    DerivationInvertsNaming("boxShadow", "BoxShadowComponent");
  }

  lemma BorderRadiusKey()
    ensures ComponentTypeFromClass("BorderRadiusComponent") == "borderRadius"
  {
    DerivationInvertsNaming("borderRadius", "BorderRadiusComponent");
  }
}
