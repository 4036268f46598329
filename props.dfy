/** The prop-name rules: which props are event bindings, how a prop name
    maps to an attribute name, and what writing a prop to a DOM element
    does (as an action value, since the element itself is not modelled). */
module PropRules {
  import opened Strings
  import opened Wrappers
  import opened JsValues

  /** True of keys matching `/^on[A-Za-z]+/`. */
  predicate IsEventKey(key: string) {
    |key| >= 3 && key[0] == 'o' && key[1] == 'n' && IsAsciiLetter(key[2])
  }

  /** `getEventName`: for an `on<Letter>...` prop, the rest of the key
      lower-cased; otherwise nothing. */
  function GetEventName(key: string): (r: Option<string>)
    ensures r.Some? <==> IsEventKey(key)
    ensures r.Some? ==> |r.value| == |key| - 2 && r.value != []
    ensures r.Some? ==> forall i :: 0 <= i < |r.value| ==> r.value[i] == LowerChar(key[i + 2])
  {
    if IsEventKey(key) then Some(Lower(key[2..])) else None
  }

  lemma EventNameOfOn(rest: string)
    requires rest != [] && IsAsciiLetter(rest[0])
    ensures GetEventName("on" + rest) == Some(Lower(rest))
  {
    assert ("on" + rest)[2..] == rest;
  }

  lemma EventNameExamples()
    ensures GetEventName("onClick") == Some("click")
    ensures GetEventName("onInput") == Some("input")
    ensures GetEventName("children") == None
    ensures GetEventName("on") == None
    ensures GetEventName("on1") == None
    ensures GetEventName("className") == None
  {
    assert "on" + "Click" == "onClick";
    EventNameIs("Click", "click");
    assert "on" + "Input" == "onInput";
    EventNameIs("Input", "input");
  }

  /** The event name of `on` + `rest` is `name` when `name` is `rest` lower-cased. */
  lemma EventNameIs(rest: string, name: string)
    requires rest != [] && IsAsciiLetter(rest[0])
    requires |name| == |rest| && forall i :: 0 <= i < |rest| ==> LowerChar(rest[i]) == name[i]
    ensures GetEventName("on" + rest) == Some(name)
  {
    EventNameOfOn(rest);
    assert Lower(rest) == name;
  }

  /** `propKeyMap`: `className` is written as the `class` attribute. */
  function PropKeyMap(key: string): (r: string)
    ensures key == "className" ==> r == "class"
    ensures key != "className" ==> r == key
  {
    if key == "className" then "class" else key
  }

  /** What writing a prop does to the element. */
  datatype PropAction =
    | NoOp
      /** `element.value = v` */
    | AssignValue(v: Value)
      /** `element.setAttribute(name, v)` */
    | SetAttribute(name: string, v: Value)

  /** `setProp` of src/utils.js, which maps the key first. */
  function SetProp(key: string, value: Value): (a: PropAction)
    ensures key == "children" <==> a == NoOp
    ensures a.AssignValue? <==> key == "value"
    ensures a.SetAttribute? ==> a.name == PropKeyMap(key) && a.name != "value" && a.v == value
    ensures a.AssignValue? ==> a.v == value
  {
    if key == "children" then NoOp
    else
      var k := PropKeyMap(key);
      if k == "value" then AssignValue(value) else SetAttribute(k, value)
  }

  /** `setProp` of src/react-tiny.js, which the reconciler calls: it does
      not map the key, so `className` is written as a `className` attribute. */
  function TinySetProp(key: string, value: Value): (a: PropAction)
    ensures key == "children" <==> a == NoOp
    ensures a.AssignValue? <==> key == "value"
    ensures a.SetAttribute? ==> a.name == key && a.v == value
    ensures a.AssignValue? ==> a.v == value
  {
    if key == "children" then NoOp
    else if key == "value" then AssignValue(value)
    else SetAttribute(key, value)
  }

  /** The two copies of `setProp` differ only on `className`. */
  lemma SetPropCopiesAgree(key: string, value: Value)
    ensures key != "className" ==> SetProp(key, value) == TinySetProp(key, value)
    ensures SetProp("className", value) == SetAttribute("class", value)
    ensures TinySetProp("className", value) == SetAttribute("className", value)
  {
  }
}
