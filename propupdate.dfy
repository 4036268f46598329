/** What a DOM component does with its props: at mount, the markup
    attributes it writes and the event callbacks it registers; at update,
    the plan of `_updateProps`, which walks the previous props only. */
module PropUpdate {
  import opened Wrappers
  import opened Strings
  import opened JsValues
  import opened PropRules
  import Events
  import Assoc

  /** The attribute text a mount writes for one prop. */
  function AttrFor(key: string, value: Value): string {
    if GetEventName(key).Some? || key == "children" then "" else key + "=" + JsString(value) + " "
  }

  /** The attribute text of the opening tag, prop by prop in order. */
  function MountAttrs(props: Props): string
    decreases |props|
  {
    if props == [] then ""
    else
      var n := |props| - 1;
      MountAttrs(props[..n]) + AttrFor(props[n].0, props[n].1)
  }

  /** Registering every event prop of a component mounted at `id`. */
  function MountBindings(m: Events.Buckets, id: string, props: Props): Events.Buckets
    decreases |props|
  {
    if props == [] then m
    else
      var n := |props| - 1;
      var m' := MountBindings(m, id, props[..n]);
      match GetEventName(props[n].0)
      case Some(e) => Events.Bind(m', id, e, props[n].1)
      case None => m'
  }

  /** One more prop extends the attributes and the bindings by that prop's. */
  lemma MountSnoc(m: Events.Buckets, id: string, props: Props, i: nat)
    requires i < |props|
    ensures MountAttrs(props[..i + 1]) == MountAttrs(props[..i]) + AttrFor(props[i].0, props[i].1)
    ensures MountBindings(m, id, props[..i + 1]) ==
      match GetEventName(props[i].0)
      case Some(e) => Events.Bind(MountBindings(m, id, props[..i]), id, e, props[i].1)
      case None => MountBindings(m, id, props[..i])
  {
    assert props[..i + 1][..i] == props[..i];
  }

  /** Mounting touches only the component's own bucket. */
  lemma {:induction false} MountBindingsFrame(m: Events.Buckets, id: string, props: Props)
    ensures forall id', e :: id' != id ==> Events.Find(MountBindings(m, id, props), id', e) == Events.Find(m, id', e)
    decreases |props|
  {
    if props != [] {
      MountBindingsFrame(m, id, props[..|props| - 1]);
    }
  }

  /** The callback registered for an event is that of the last prop whose
      key names it. */
  lemma {:induction false} MountBindingsLastWins(m: Events.Buckets, id: string, props: Props, i: nat)
    requires i < |props| && GetEventName(props[i].0).Some?
    requires forall j :: i < j < |props| ==> GetEventName(props[j].0) != GetEventName(props[i].0)
    ensures Events.Find(MountBindings(m, id, props), id, GetEventName(props[i].0).value) == props[i].1
    decreases |props|
  {
    var n := |props| - 1;
    if i < n {
      forall j | i < j < n ensures GetEventName(props[..n][j].0) != GetEventName(props[..n][i].0) {
        assert props[..n][j] == props[j];
      }
      assert props[..n][i] == props[i];
      MountBindingsLastWins(m, id, props[..n], i);
    }
  }

  /** An event no prop names keeps its callback. */
  lemma {:induction false} MountBindingsUnnamed(m: Events.Buckets, id: string, props: Props, e: string)
    requires forall j :: 0 <= j < |props| ==> GetEventName(props[j].0) != Some(e)
    ensures Events.Find(MountBindings(m, id, props), id, e) == Events.Find(m, id, e)
    decreases |props|
  {
    if props != [] {
      var n := |props| - 1;
      forall j | 0 <= j < n ensures GetEventName(props[..n][j].0) != Some(e) {
        assert props[..n][j] == props[j];
      }
      MountBindingsUnnamed(m, id, props[..n], e);
    }
  }

  /** For `<div id="a" onClick={f}>…</div>`: only the id is written and the
      callback is registered under `click`. */
  lemma MountExample(m: Events.Buckets, f: FnRef)
    ensures var props := [("id", Str("a")), ("onClick", Fn(f)), ("children", Arr([]))];
      && MountAttrs(ForEachEntries(props)) == "id=a "
      && Events.Find(MountBindings(m, "0", ForEachEntries(props)), "0", "click") == Fn(f)
  {
    var props := [("id", Str("a")), ("onClick", Fn(f)), ("children", Arr([]))];
    OwnKeysWalked(props);
    MountOwnExample(m, f, props);
  }

  /** A props object without a `length` key is walked by its own keys. */
  lemma OwnKeysWalked(props: Props)
    requires "length" !in Assoc.Keys(props)
    ensures ForEachEntries(props) == props
  {
  }

  lemma MountOwnExample(m: Events.Buckets, f: FnRef, props: Props)
    requires props == [("id", Str("a")), ("onClick", Fn(f)), ("children", Arr([]))]
    ensures MountAttrs(props) == "id=a "
    ensures Events.Find(MountBindings(m, "0", props), "0", "click") == Fn(f)
  {
    EventNameExamples();
    assert GetEventName("id") == None;
    assert props[..2][..1] == [("id", Str("a"))];
    assert props[..1][..0] == [];
    assert MountAttrs(props[..1]) == "id=a ";
    assert MountAttrs(props[..2]) == "id=a ";
    MountBindingsLastWins(m, "0", props, 1);
  }

  // ---------------------------------------------------------------
  // `_updateProps`

  datatype Change =
      /** `removeEventListener(rootID, event)` */
    | Unbind(event: string)
      /** `setEventListener(rootID, event, value)` */
    | Rebind(event: string, value: Value)
      /** `setProp(element, key, value)` */
    | Write(action: PropAction)

  datatype PropStep = PropStep(key: string, change: Change)

  /** What `_updateProps` does for the previous prop `key: value`: a prop
      that is `undefined` in the next props is removed, one whose next value
      is not `===` to the previous one is re-applied, any other is left. */
  function StepFor(key: string, value: Value, next: Props): (ss: seq<PropStep>)
    ensures |ss| <= 1 && forall s :: s in ss ==> s.key == key
  {
    if key == "children" then []
    else
      var ev := GetEventName(key);
      var nv := Get(next, key);
      if nv == Undef then
        [PropStep(key, if ev.Some? then Unbind(ev.value) else Write(TinySetProp(key, Null)))]
      else if !StrictEquals(value, nv) then
        [PropStep(key, if ev.Some? then Rebind(ev.value, nv) else Write(TinySetProp(key, nv)))]
      else []
  }

  function PropPlan(prev: Props, next: Props): seq<PropStep>
    decreases |prev|
  {
    if prev == [] then []
    else
      var n := |prev| - 1;
      PropPlan(prev[..n], next) + StepFor(prev[n].0, prev[n].1, next)
  }

  lemma PropPlanSnoc(prev: Props, i: nat, next: Props)
    requires i < |prev|
    ensures PropPlan(prev[..i + 1], next) == PropPlan(prev[..i], next) + StepFor(prev[i].0, prev[i].1, next)
  {
    assert prev[..i + 1][..i] == prev[..i];
  }

  /** The steps of a plan that concern `key`. */
  function StepsOn(steps: seq<PropStep>, key: string): seq<PropStep>
    decreases |steps|
  {
    if steps == [] then []
    else
      var n := |steps| - 1;
      StepsOn(steps[..n], key) + (if steps[n].key == key then [steps[n]] else [])
  }

  lemma {:induction false} StepsOnAppend(a: seq<PropStep>, b: seq<PropStep>, key: string)
    ensures StepsOn(a + b, key) == StepsOn(a, key) + StepsOn(b, key)
    decreases |b|
  {
    if b == [] {
      assert a + b == a;
    } else {
      var n := |b| - 1;
      assert (a + b)[..|a| + n] == a + b[..n];
      StepsOnAppend(a, b[..n], key);
    }
  }

  /** The steps of one previous prop that concern `key`. */
  lemma StepsOnStep(k: string, v: Value, next: Props, key: string)
    ensures StepsOn(StepFor(k, v, next), key) == if k == key then StepFor(k, v, next) else []
  {
    var s := StepFor(k, v, next);
    if s != [] {
      assert s == [s[0]] && s[..0] == [];
    }
  }

  /** `_updateProps` touches each previous prop once, as `StepFor` says,
      and nothing that only the next props have. */
  lemma {:induction false} PropPlanPerKey(prev: Props, next: Props, key: string)
    requires Assoc.UniqueKeys(prev)
    ensures key !in Assoc.Keys(prev) ==> StepsOn(PropPlan(prev, next), key) == []
    ensures forall i :: 0 <= i < |prev| && prev[i].0 == key ==>
      StepsOn(PropPlan(prev, next), key) == StepFor(key, prev[i].1, next)
    decreases |prev|
  {
    if prev != [] {
      var n := |prev| - 1;
      var init := prev[..n];
      var last := prev[n];
      var s := StepFor(last.0, last.1, next);
      assert PropPlan(prev, next) == PropPlan(init, next) + s;
      Assoc.KeysInit(prev);
      Assoc.UniqueInit(prev);
      PropPlanPerKey(init, next, key);
      StepsOnAppend(PropPlan(init, next), s, key);
      StepsOnStep(last.0, last.1, next, key);
      if last.0 == key {
        assert StepsOn(PropPlan(prev, next), key) == s;
        forall i | 0 <= i < |prev| && prev[i].0 == key
          ensures StepsOn(PropPlan(prev, next), key) == StepFor(key, prev[i].1, next)
        {
          assert i == n;
        }
      } else {
        assert StepsOn(PropPlan(prev, next), key) == StepsOn(PropPlan(init, next), key);
        forall i | 0 <= i < |prev| && prev[i].0 == key
          ensures StepsOn(PropPlan(prev, next), key) == StepFor(key, prev[i].1, next)
        {
          assert init[i] == prev[i];
          assert Assoc.Keys(init)[i] == key;
        }
      }
    }
  }

  /** Props whose values, apart from `children` (which the prop diff skips),
      are defined and compared by `===` as equal to themselves (an array or
      element is a fresh object in this model). */
  predicate Primitive(props: Props) {
    forall i :: 0 <= i < |props| && props[i].0 != "children" ==> SelfEqual(props[i].1)
  }

  /** A value that is defined and `===` to itself. */
  predicate SelfEqual(v: Value) {
    !v.Arr? && !v.Elem? && v != Undef
  }

  /** Updating to the very same primitive props does nothing. A prop whose
      value is `undefined` is not covered: it is removed on every update. */
  lemma {:induction false} PropPlanIdle(props: Props, k: nat)
    requires Assoc.UniqueKeys(props) && Primitive(props) && k <= |props|
    ensures PropPlan(props[..k], props) == []
    decreases k
  {
    if k > 0 {
      assert props[..k][..k - 1] == props[..k - 1];
      PropPlanIdle(props, k - 1);
      if props[k - 1].0 != "children" {
        Assoc.FindUnique(props, k - 1);
        assert Get(props, props[k - 1].0) == props[k - 1].1;
      }
    }
  }

  /** The registry after the event steps of a plan, for the component at `id`. */
  function ApplySteps(m: Events.Buckets, id: string, steps: seq<PropStep>): Events.Buckets
    decreases |steps|
  {
    if steps == [] then m
    else
      var n := |steps| - 1;
      var m' := ApplySteps(m, id, steps[..n]);
      match steps[n].change
      case Unbind(e) => Events.Unbind(m', id, e)
      case Rebind(e, v) => Events.Bind(m', id, e, v)
      case Write(_) => m'
  }

  /** The DOM writes of a plan, in order. */
  function Writes(steps: seq<PropStep>): seq<PropAction>
    decreases |steps|
  {
    if steps == [] then []
    else
      var n := |steps| - 1;
      Writes(steps[..n]) + (if steps[n].change.Write? then [steps[n].change.action] else [])
  }

  /** Updating props touches only the component's own bucket. */
  lemma {:induction false} ApplyStepsFrame(m: Events.Buckets, id: string, steps: seq<PropStep>)
    ensures forall id', e :: id' != id ==> Events.Find(ApplySteps(m, id, steps), id', e) == Events.Find(m, id', e)
    decreases |steps|
  {
    if steps != [] {
      ApplyStepsFrame(m, id, steps[..|steps| - 1]);
    }
  }

  /** A prop set to `undefined` is removed again by every update. */
  lemma UndefinedPropRemovedAgain(key: string)
    requires key != "children" && GetEventName(key).None?
    ensures PropPlan(ForEachEntries([(key, Undef)]), [(key, Undef)]) == [PropStep(key, Write(TinySetProp(key, Null)))]
  {
    assert ForEachEntries([(key, Undef)]) == [(key, Undef)];
    assert [(key, Undef)][..0] == [];
  }

  /** A removed event prop leaves no callback, unless a later step binds
      the same event again. */
  lemma {:induction false} UnbindSticks(m: Events.Buckets, id: string, steps: seq<PropStep>, i: nat, e: string)
    requires i < |steps| && steps[i].change == Unbind(e)
    requires forall j :: i < j < |steps| ==> !(steps[j].change.Rebind? && steps[j].change.event == e)
    ensures !Truthy(Events.Find(ApplySteps(m, id, steps), id, e))
    decreases |steps|
  {
    var n := |steps| - 1;
    if i < n {
      forall j | i < j < n ensures !(steps[..n][j].change.Rebind? && steps[..n][j].change.event == e) {
        assert steps[..n][j] == steps[j];
      }
      assert steps[..n][i] == steps[i];
      UnbindSticks(m, id, steps[..n], i, e);
    }
  }

  // ---------------------------------------------------------------
  // Props objects that lodash `forEach` walks by index

  /** A decimal index name is neither an event prop nor `children`. */
  lemma IndexNameIsPlain(i: nat)
    ensures GetEventName(Decimal(i)) == None && Decimal(i) != "children"
  {
    DecimalIsDigits(i);
    assert IsDigit(Decimal(i)[0]);
  }

  /** The attribute text of the indices below `n` of an array-like props
      object: `i=props[i] ` for each, in order. */
  function IndexAttrs(props: Props, n: nat): string
    decreases n
  {
    if n == 0 then "" else IndexAttrs(props, n - 1) + IndexAttr(props, n - 1)
  }

  /** `i=props[i] `. */
  function IndexAttr(props: Props, i: nat): string {
    Decimal(i) + "=" + JsString(Get(props, Decimal(i))) + " "
  }

  /** Mounting an array-like props object writes one attribute per index
      and registers no event, whatever its other keys are. */
  lemma ArrayLikeMount(m: Events.Buckets, id: string, props: Props)
    requires ArrayLike(props)
    ensures MountAttrs(ForEachEntries(props)) == IndexAttrs(props, |ForEachEntries(props)|)
    ensures MountBindings(m, id, ForEachEntries(props)) == m
  {
    var es := ForEachEntries(props);
    IndexMount(m, id, props, es, |es|);
    assert es[..|es|] == es;
  }

  lemma {:induction false} IndexMount(m: Events.Buckets, id: string, props: Props, es: Props, n: nat)
    requires n <= |es| && forall i :: 0 <= i < |es| ==> es[i].0 == Decimal(i) && es[i].1 == Get(props, Decimal(i))
    ensures MountAttrs(es[..n]) == IndexAttrs(props, n)
    ensures MountBindings(m, id, es[..n]) == m
  {
    IndexAttrsMount(props, es, n);
    IndexBindingsMount(m, id, es, n);
  }

  lemma {:induction false} IndexAttrsMount(props: Props, es: Props, n: nat)
    requires n <= |es| && forall i :: 0 <= i < |es| ==> es[i].0 == Decimal(i) && es[i].1 == Get(props, Decimal(i))
    ensures MountAttrs(es[..n]) == IndexAttrs(props, n)
    decreases n
  {
    if n > 0 {
      var k := n - 1;
      IndexAttrsMount(props, es, k);
      assert es[..n][..k] == es[..k];
      assert es[..n][k] == es[k];
      IndexNameIsPlain(k);
      PlainAttr(es[k].0, es[k].1);
    }
  }

  lemma {:induction false} IndexBindingsMount(m: Events.Buckets, id: string, es: Props, n: nat)
    requires n <= |es| && forall i :: 0 <= i < |es| ==> es[i].0 == Decimal(i)
    ensures MountBindings(m, id, es[..n]) == m
    decreases n
  {
    if n > 0 {
      var k := n - 1;
      IndexBindingsMount(m, id, es, k);
      assert es[..n][..k] == es[..k];
      IndexNameIsPlain(k);
    }
  }

  /** The attribute text of a prop that is neither an event nor `children`. */
  lemma PlainAttr(key: string, value: Value)
    requires GetEventName(key) == None && key != "children"
    ensures AttrFor(key, value) == key + "=" + JsString(value) + " "
  {
  }

  /** An update from an array-like props object only writes attributes: it
      never binds or unbinds an event. */
  lemma ArrayLikeUpdate(m: Events.Buckets, id: string, prev: Props, next: Props)
    requires ArrayLike(prev)
    ensures forall s :: s in PropPlan(ForEachEntries(prev), next) ==> s.change.Write?
    ensures ApplySteps(m, id, PropPlan(ForEachEntries(prev), next)) == m
  {
    var es := ForEachEntries(prev);
    forall i | 0 <= i < |es| ensures GetEventName(es[i].0) == None {
      IndexNameIsPlain(i);
    }
    PlainPlanWrites(es, next);
    WritesKeepRegistry(m, id, PropPlan(es, next));
  }

  lemma {:induction false} PlainPlanWrites(es: Props, next: Props)
    requires forall i :: 0 <= i < |es| ==> GetEventName(es[i].0) == None
    ensures forall s :: s in PropPlan(es, next) ==> s.change.Write?
    decreases |es|
  {
    if es != [] {
      var n := |es| - 1;
      forall i | 0 <= i < n ensures GetEventName(es[..n][i].0) == None {
        assert es[..n][i] == es[i];
      }
      PlainPlanWrites(es[..n], next);
    }
  }

  lemma {:induction false} WritesKeepRegistry(m: Events.Buckets, id: string, steps: seq<PropStep>)
    requires forall s :: s in steps ==> s.change.Write?
    ensures ApplySteps(m, id, steps) == m
    decreases |steps|
  {
    if steps != [] {
      var n := |steps| - 1;
      assert steps[n] in steps;
      forall s | s in steps[..n] ensures s.change.Write? {
        assert s in steps;
      }
      WritesKeepRegistry(m, id, steps[..n]);
    }
  }

  /** `{length: 1, id: 'x', onClick: f}` is array-like: its mount writes
      `0=undefined ` and binds nothing. */
  lemma ArrayLikeExample(m: Events.Buckets, f: FnRef)
    ensures var props := [("length", Num(1)), ("id", Str("x")), ("onClick", Fn(f))];
      && MountAttrs(ForEachEntries(props)) == "0=undefined "
      && MountBindings(m, "0", ForEachEntries(props)) == m
  {
    var props := [("length", Num(1)), ("id", Str("x")), ("onClick", Fn(f))];
    assert Get(props, "length") == Num(1);
    assert Decimal(0) == "0";
    assert "0" !in Assoc.Keys(props);
    ArrayLikeMount(m, "0", props);
    assert |ForEachEntries(props)| == 1;
    assert IndexAttrs(props, 1) == "0=undefined ";
  }

  /** Entries that `next` maps, key by key, to the same self-equal values
      produce no update steps. */
  lemma {:induction false} PropPlanSettled(es: Props, next: Props)
    requires forall i :: 0 <= i < |es| && es[i].0 != "children" ==>
      Get(next, es[i].0) == es[i].1 && SelfEqual(es[i].1)
    ensures PropPlan(es, next) == []
    decreases |es|
  {
    if es != [] {
      var n := |es| - 1;
      forall i | 0 <= i < n && es[..n][i].0 != "children"
        ensures Get(next, es[..n][i].0) == es[..n][i].1 && SelfEqual(es[..n][i].1)
      {
        assert es[..n][i] == es[i];
      }
      PropPlanSettled(es[..n], next);
    }
  }

  /** `_updateProps(props, props)` does nothing when every value `forEach`
      visits, other than `children`, is self-equal: the own props of a
      plain object, the values at the indices of an array-like one. */
  lemma UpdateIdle(props: Props)
    requires Assoc.UniqueKeys(props)
    requires !ArrayLike(props) ==> Primitive(props)
    requires ArrayLike(props) ==> forall i: nat :: i < Get(props, "length").n ==> SelfEqual(Get(props, Decimal(i)))
    ensures PropPlan(ForEachEntries(props), props) == []
  {
    var es := ForEachEntries(props);
    if ArrayLike(props) {
      forall i | 0 <= i < |es| && es[i].0 != "children"
        ensures Get(props, es[i].0) == es[i].1 && SelfEqual(es[i].1)
      {
        assert es[i] == (Decimal(i), Get(props, Decimal(i)));
      }
      PropPlanSettled(es, props);
    } else {
      PropPlanIdle(props, |props|);
      assert props[..|props|] == props;
    }
  }
}
