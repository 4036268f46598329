/** The reconciler: mounting a component tree to markup and updating it
    in place when a component receives a new element. Components are
    values carrying their identity (`uid`); the `Reconciler` object holds
    the allocator of identities, the shared event controller and the user
    code (component constructors, `render`, `shouldComponentUpdate`),
    which is a parameter of the model. The DOM is not modelled: updates
    return the patches they would apply, in order. */
module Reconciliation {
  import opened Wrappers
  import opened Strings
  import opened JsValues
  import opened ReactIds
  import opened PropRules
  import opened Components
  import opened Diffing
  import opened PropUpdate
  import Events
  import Assoc

  /** The errors a mount or update throws. */
  datatype Failure =
      /** "ReactDOMComponent's ReactElement.type must be string" */
    | DomTypeNotString
      /** "ReactCompositeComponent's ReactElement.type must be function" */
    | CompositeTypeNotFunction
      /** updating a composite component that was never mounted reads
          `state` of `undefined` */
    | NotMounted
      /** nesting of composite renders beyond the model's bound */
    | OutOfFuel

  /** A DOM change an update makes. */
  datatype Patch =
      /** `domElement.innerText = text` */
    | SetText(id: string, text: string)
      /** `setProp` on the component's element */
    | PropWrite(id: string, action: PropAction)
      /** the diff entries applied to `parentNode`, the element found by
          the id prefix (`None`: the prefix `undefined`) */
    | ChildDiffs(parentNode: Option<string>, diffs: seq<Diff>)
      /** `domElement.replaceWith(markup)` */
    | ReplaceNode(id: string, html: string)

  /** User code of component classes: the state a class's constructor
      leaves, its `render` and its `shouldComponentUpdate`. */
  datatype UserCode = UserCode(
    initialState: (FnRef, Props) -> Value,
    render: (FnRef, Props, Value) -> Value,
    shouldUpdate: (FnRef, Props, Value) -> Value)

  /** The markup that opens a DOM component's tag, before its attributes. */
  function OpenTag(tag: string, rootID: string): string {
    "<" + tag + " data-reactid=" + rootID + " "
  }

  /** `<span data-reactid=ID>text</span>` */
  function TextMarkup(rootID: string, text: string): string {
    "<span data-reactid=" + rootID + ">" + text + "</span>"
  }

  /** `receiveComponent(next)` of a text component as written: the new
      text is assigned to `_text`, a field nothing reads, so `_element`
      keeps the text the component was mounted with. */
  function TextReceiveAsWritten(c: Component, next: Value): (r: (Component, seq<Patch>))
    requires c.kind.TextKind?
    ensures r.0 == c
    ensures r.1 == [] <==> c.kind.text == LodashToString(next)
  {
    var text := LodashToString(next);
    (c, if c.kind.text != text then [SetText(c.rootID, text)] else [])
  }

  /** The intended `receiveComponent` of a text component: the element is
      rewritten when the text differs, and the text is recorded. */
  function TextReceive(c: Component, next: Value): (r: (Component, seq<Patch>))
    requires c.kind.TextKind?
    ensures r.0 == c.(kind := TextKind(LodashToString(next)))
    ensures r.1 == [] <==> c.kind.text == LodashToString(next)
    ensures r.1 != [] ==> r.1 == [SetText(c.rootID, LodashToString(next))]
  {
    var text := LodashToString(next);
    (c.(kind := TextKind(text)), if c.kind.text != text then [SetText(c.rootID, text)] else [])
  }

  /** The text a text component's element shows after a receive's patches. */
  function ShownAfter(shown: string, ps: seq<Patch>): string {
    if ps != [] && ps[0].SetText? then ps[0].text else shown
  }

  /** Receiving each value in turn, from a component and the text its
      element shows: the final component and text. */
  function TextReceives(c: Component, shown: string, nexts: seq<Value>, asWritten: bool): (r: (Component, string))
    requires c.kind.TextKind?
    ensures r.0.kind.TextKind?
    decreases |nexts|
  {
    if nexts == [] then (c, shown)
    else
      var (c', ps) := if asWritten then TextReceiveAsWritten(c, nexts[0]) else TextReceive(c, nexts[0]);
      TextReceives(c', ShownAfter(shown, ps), nexts[1..], asWritten)
  }

  /** With the text recorded, the element always shows the component's
      text, so after any non-empty series of receives it shows the last
      value received. */
  lemma {:induction false} TextShowsLast(c: Component, nexts: seq<Value>)
    requires c.kind.TextKind? && nexts != []
    ensures TextReceives(c, c.kind.text, nexts, false).1 == LodashToString(nexts[|nexts| - 1])
    ensures TextReceives(c, c.kind.text, nexts, false).0.kind.text == LodashToString(nexts[|nexts| - 1])
    decreases |nexts|
  {
    var (c', ps) := TextReceive(c, nexts[0]);
    assert ShownAfter(c.kind.text, ps) == c'.kind.text;
    if |nexts| > 1 {
      TextShowsLast(c', nexts[1..]);
    }
  }

  /** As written, changing a text and changing it back leaves the
      element showing the changed text. */
  lemma TextRevertLostAsWritten()
    ensures TextReceives(Component(1, "0.0", 0, TextKind("a")), "a", [Str("b"), Str("a")], true).1 == "b"
    ensures TextReceives(Component(1, "0.0", 0, TextKind("a")), "a", [Str("b"), Str("a")], false).1 == "a"
  {
    var c := Component(1, "0.0", 0, TextKind("a"));
    var nexts := [Str("b"), Str("a")];
    assert nexts[1..] == [Str("a")] && nexts[1..][1..] == [];
    assert LodashToString(Str("b")) == "b" && LodashToString(Str("a")) == "a";
    assert TextReceiveAsWritten(c, Str("b")) == (c, [SetText("0.0", "b")]);
    assert TextReceiveAsWritten(c, Str("a")) == (c, []);
    assert TextReceive(c, Str("b")) == (c.(kind := TextKind("b")), [SetText("0.0", "b")]);
  }

  /** The markup of a mounted DOM component. */
  function DomMarkup(tag: string, rootID: string, attrs: string, inner: string): string {
    OpenTag(tag, rootID) + attrs + ">" + inner + "</" + tag + ">"
  }

  /** Markup that starts with `open` and ends with `close`. */
  predicate Wraps(html: string, open: string, close: string) {
    |html| >= |open| + |close| && html[..|open|] == open && html[|html| - |close|..] == close
  }

  lemma DomMarkupWraps(tag: string, rootID: string, attrs: string, inner: string)
    ensures Wraps(DomMarkup(tag, rootID, attrs, inner), OpenTag(tag, rootID) + attrs + ">", "</" + tag + ">")
  {
    var open := OpenTag(tag, rootID) + attrs + ">";
    var close := "</" + tag + ">";
    var h := DomMarkup(tag, rootID, attrs, inner);
    assert h == open + inner + close;
    assert h[..|open|] == open;
    assert h[|h| - |close|..] == close;
  }

  /** The registry changed only at ids that start with `prefix`. */
  ghost predicate OnlyUnder(m: Events.Buckets, m': Events.Buckets, prefix: string) {
    forall id, e :: !(prefix <= id) ==> Events.Find(m', id, e) == Events.Find(m, id, e)
  }

  lemma OnlyUnderTrans(a: Events.Buckets, b: Events.Buckets, c: Events.Buckets, p: string, q: string)
    requires OnlyUnder(a, b, p) && OnlyUnder(b, c, q) && p <= q
    ensures OnlyUnder(a, c, p)
  {
  }

  /** Registering a DOM component's events and then mounting its children
      leaves its own bucket as the registration made it. */
  lemma DomBuckets(m0: Events.Buckets, m1: Events.Buckets, m2: Events.Buckets, rootID: string, props: Props)
    requires m1 == MountBindings(m0, rootID, props)
    requires OnlyUnder(m1, m2, rootID + ['.'])
    ensures OnlyUnder(m0, m2, rootID)
    ensures forall e :: Events.Find(m2, rootID, e) == Events.Find(m1, rootID, e)
  {
    MountBindingsFrame(m0, rootID, props);
    assert !(rootID + ['.'] <= rootID);
  }

  /** A child's id and every id below it start with the parent's id and
      the separator. */
  lemma ChildIDUnder(parent: string, split: Sep, index: nat)
    ensures parent + [SepChar(split)] <= ChildID(parent, split, index)
    ensures parent <= parent + [SepChar(split)]
  {
  }

  /** What mounting child `k`, whose value was `v`, leaves. */
  predicate MountedAt(c: Component, v: Value, k: nat, parentID: string, split: Sep, lo: nat, hi: nat) {
    && c.mountIndex == k
    && VariantOfKind(c.kind) == VariantOf(v)
    && ElementOf(c) == FreshElement(v)
    && lo <= c.uid < hi
    && (!c.kind.EmptyKind? ==> c.rootID == ChildID(parentID, split, k))
  }

  /** The id of the element a list component's children live in: the
      nearest ancestor id that ends in `.<digits>`. */
  function ListOwner(id: string): Option<string>
    decreases |id|
  {
    if id == "" then Some("")
    else
      match ReactIDParent(id)
      case None => None
      case Some(p) => if EndsWithDotIndex(p) then Some(p) else ListOwner(p)
  }

  /** `/\.\d+$/.test(s)` */
  predicate EndsWithDotIndex(s: string) {
    var k := TrailingDigits(s);
    0 < k < |s| && s[|s| - k - 1] == '.'
  }

  /** The `domElement` getter of a list component. */
  method ListOwnerID(rootID: string) returns (owner: Option<string>)
    ensures owner == ListOwner(rootID)
  {
    var cur: Option<string> := Some(rootID);
    while cur.Some? && cur.value != ""
      invariant ListOwner(rootID) == if cur.Some? then ListOwner(cur.value) else None
      decreases if cur.Some? then |cur.value| + 1 else 0
    {
      var p := ReactIDParent(cur.value);
      cur := p;
      if p.Some? && EndsWithDotIndex(p.value) {
        break;
      }
    }
    owner := cur;
  }

  /** A list inside a DOM child finds that child; a list inside a list
      finds what the outer list finds. */
  lemma ListOwnerExamples(p: string, i: nat, j: nat, q: string, a: nat)
    ensures ListOwner(ChildID(ChildID(p, Dot, i), Colon, j)) == Some(ChildID(p, Dot, i))
    ensures ListOwner(ChildID(ChildID(q, Colon, a), Colon, j)) == ListOwner(ChildID(q, Colon, a))
  {
    ListOwnerOfItem(ChildID(p, Dot, i), j);
    ChildIDEndsWithDot(p, Dot, i);
    ListOwnerOfItem(ChildID(q, Colon, a), j);
    ChildIDEndsWithDot(q, Colon, a);
  }

  /** A list item's owner is its list's id when that ends in `.<digits>`,
      else the list's own owner. */
  lemma ListOwnerOfItem(parent: string, j: nat)
    ensures ListOwner(ChildID(parent, Colon, j)) == if EndsWithDotIndex(parent) then Some(parent) else ListOwner(parent)
  {
    ChildIDParent(parent, Colon, j);
  }

  /** A child id ends in `.<digits>` exactly when its separator is a dot. */
  lemma ChildIDEndsWithDot(p: string, split: Sep, i: nat)
    ensures EndsWithDotIndex(ChildID(p, split, i)) <==> split == Dot
  {
    var c := SepChar(split);
    var d := Decimal(i);
    DecimalIsDigits(i);
    TrailingDigitsExact(p + [c], d);
    var id := ChildID(p, split, i);
    assert id == (p + [c]) + d;
    assert id[|id| - |d| - 1] == c;
  }

  /** A root id is all digits, so it has no `.<digits>` suffix. */
  lemma RootNotDotIndex(n: nat)
    ensures !EndsWithDotIndex(Decimal(n))
  {
    var d := Decimal(n);
    var empty: string := [];
    DecimalIsDigits(n);
    TrailingDigitsOfSuffix(empty, d);
    assert empty + d == d;
    assert TrailingDigits(empty) == 0;
    assert TrailingDigits(d) == |d|;
  }

  /** A root id has no parent, so the walk from it finds nothing. */
  lemma RootOwner(n: nat)
    ensures ListOwner(Decimal(n)) == None
  {
    DecimalIsDigits(n);
    RootHasNoParent(n);
  }

  /** A list whose id has no dotted ancestor, such as a list directly under
      the root element `0`, finds no element. */
  lemma ListUnderRootHasNoOwner(n: nat, j: nat)
    ensures ListOwner(ChildID(Decimal(n), Dot, j)) == None
  {
    ChildIDParent(Decimal(n), Dot, j);
    RootNotDotIndex(n);
    RootOwner(n);
  }

  class Reconciler {
    const events: Events.EventController
    const user: UserCode
    /** The next identity to hand out; every component made so far has a
        smaller one. */
    var nextUid: nat

    constructor (user: UserCode)
      ensures this.user == user && nextUid == 0
      ensures fresh(events) && events.buckets == map[]
    {
      this.user := user;
      events := new Events.EventController();
      nextUid := 0;
    }

    /** `instantiateReactComponent(v)`: a new component, not yet mounted. */
    method Instantiate(v: Value) returns (c: Component)
      modifies this
      ensures c == Component(old(nextUid), "", 0, KindFor(v))
      ensures nextUid == old(nextUid) + 1
    {
      c := Component(nextUid, "", 0, KindFor(v));
      nextUid := nextUid + 1;
    }

    /** The prop loop of a DOM mount, over the entries lodash `forEach`
        visits: event props are registered, other props other than
        `children` are written as attributes. */
    method MountProps(rootID: string, props: Props) returns (attrs: string)
      modifies events
      ensures attrs == MountAttrs(ForEachEntries(props))
      ensures events.buckets == MountBindings(old(events.buckets), rootID, ForEachEntries(props))
    {
      var entries := ForEachEntries(props);
      attrs := "";
      var i := 0;
      while i < |entries|
        invariant 0 <= i <= |entries|
        invariant attrs == MountAttrs(entries[..i])
        invariant events.buckets == MountBindings(old(events.buckets), rootID, entries[..i])
      {
        var (key, value) := entries[i];
        MountSnoc(old(events.buckets), rootID, entries, i);
        ghost var attrsNext := attrs + AttrFor(key, value);
        var eventName := GetEventName(key);
        if eventName.Some? {
          events.SetEventListener(rootID, eventName.value, value);
        } else if key != "children" {
          attrs := attrs + (key + "=" + JsString(value) + " ");
        }
        assert attrs == attrsNext;
        i := i + 1;
      }
      assert entries[..i] == entries;
    }

    /** `mountComponent(rootID)`: the component after mounting and its
        markup. */
    method Mount(c: Component, rootID: string, fuel: nat) returns (r: Result<(Component, string), Failure>)
      modifies this, events
      decreases fuel, Size(ElementOf(c)), 2
      ensures nextUid >= old(nextUid)
      ensures OnlyUnder(old(events.buckets), events.buckets, rootID)
      ensures r.Ok? ==> Mounted(c, r.value.0, rootID)
      ensures c.kind.EmptyKind? ==> r == Ok((c, "")) && events.buckets == old(events.buckets)
      ensures c.kind.TextKind? ==> r == Ok((c.(rootID := rootID), TextMarkup(rootID, c.kind.text)))
      ensures c.kind.DomKind? && !TypeOf(ElementOf(c)).Str? ==> r == Err(DomTypeNotString)
      ensures c.kind.CompositeKind? && !TypeOf(ElementOf(c)).Fn? ==> r == Err(CompositeTypeNotFunction)
    {
      match c.kind
      case EmptyKind =>
        r := Ok((c, ""));
      case TextKind(t) =>
        r := Ok((c.(rootID := rootID), TextMarkup(rootID, t)));
      case DomKind(_, _) =>
        r := MountDom(c, rootID, fuel);
      case ListKind(_, _) =>
        r := MountList(c, rootID, fuel);
      case CompositeKind(_, _, _) =>
        r := MountComposite(c, rootID, fuel);
    }

    /** A DOM component: the opening tag with its attributes, its children
        under `rootID.<index>`, the closing tag. */
    method MountDom(c: Component, rootID: string, fuel: nat) returns (r: Result<(Component, string), Failure>)
      requires c.kind.DomKind?
      modifies this, events
      decreases fuel, Size(c.kind.element), 1
      ensures nextUid >= old(nextUid)
      ensures OnlyUnder(old(events.buckets), events.buckets, rootID)
      ensures !TypeOf(c.kind.element).Str? ==> r == Err(DomTypeNotString)
      ensures r.Ok? ==> Mounted(c, r.value.0, rootID)
      ensures r.Ok? ==>
        var el := c.kind.element;
        && Wraps(r.value.1, OpenTag(el.ty.s, rootID) + MountAttrs(ForEachEntries(el.props)) + ">", "</" + el.ty.s + ">")
        && ChildrenNamed(r.value.0.kind.children, ChildrenOf(el))
        && forall e :: Events.Find(events.buckets, rootID, e) == Events.Find(MountBindings(old(events.buckets), rootID, ForEachEntries(el.props)), rootID, e)
    {
      var el := c.kind.element;
      if !TypeOf(el).Str? {
        return Err(DomTypeNotString);
      }
      var tag := el.ty.s;
      var attrs := MountProps(rootID, el.props);
      ghost var afterProps := events.buckets;
      ChildrenSmaller(el);
      var res, mounted := MountChildren(rootID, Dot, ChildrenOf(el), Size(el), fuel);
      DomBuckets(old(events.buckets), afterProps, events.buckets, rootID, ForEachEntries(el.props));
      if res.Err? {
        return Err(res.error);
      }
      DomMarkupWraps(tag, rootID, attrs, res.value.1);
      r := Ok((c.(rootID := rootID, kind := DomKind(el, res.value.0)), DomMarkup(tag, rootID, attrs, res.value.1)));
    }

    /** A list component: its items' markup in order, under
        `rootID:<index>`. */
    method MountList(c: Component, rootID: string, fuel: nat) returns (r: Result<(Component, string), Failure>)
      requires c.kind.ListKind?
      modifies this, events
      decreases fuel, Size(c.kind.element), 1
      ensures nextUid >= old(nextUid)
      ensures OnlyUnder(old(events.buckets), events.buckets, rootID)
      ensures r.Ok? ==> Mounted(c, r.value.0, rootID)
      ensures r.Ok? ==> ChildrenNamed(r.value.0.kind.children, ItemsOf(c.kind.element))
    {
      var el := c.kind.element;
      ChildrenSmaller(el);
      var res, mounted := MountChildren(rootID, Colon, ItemsOf(el), Size(el), fuel);
      ChildIDUnder(rootID, Colon, 0);
      OnlyUnderTrans(old(events.buckets), old(events.buckets), events.buckets, rootID, rootID + [':']);
      if res.Err? {
        return Err(res.error);
      }
      r := Ok((c.(rootID := rootID, kind := ListKind(el, res.value.0)), res.value.1));
    }

    /** A composite component: the class is constructed with the element's
        props, rendered, and what it renders is mounted at the same id. */
    method MountComposite(c: Component, rootID: string, fuel: nat) returns (r: Result<(Component, string), Failure>)
      requires c.kind.CompositeKind?
      modifies this, events
      decreases fuel, Size(c.kind.element), 1
      ensures nextUid >= old(nextUid)
      ensures OnlyUnder(old(events.buckets), events.buckets, rootID)
      ensures !TypeOf(c.kind.element).Fn? ==> r == Err(CompositeTypeNotFunction)
      ensures r.Ok? ==> Mounted(c, r.value.0, rootID)
      ensures r.Ok? ==>
        var el := c.kind.element;
        var cls := el.ty.f;
        var state := user.initialState(cls, el.props);
        && r.value.0.kind.instance == Some(Instance(cls, el.props, state))
        && r.value.0.kind.rendered.Some?
        && var rc := r.value.0.kind.rendered.value;
           VariantOfKind(rc.kind) == VariantOf(user.render(cls, el.props, state)) && old(nextUid) <= rc.uid
    {
      var el := c.kind.element;
      if !TypeOf(el).Fn? {
        return Err(CompositeTypeNotFunction);
      }
      if fuel == 0 {
        return Err(OutOfFuel);
      }
      var cls := el.ty.f;
      var inst := Instance(cls, el.props, user.initialState(cls, el.props));
      var rendered := user.render(cls, el.props, inst.state);
      var rc := Instantiate(rendered);
      var m := Mount(rc, rootID, fuel - 1);
      if m.Err? {
        return Err(m.error);
      }
      r := Ok((c.(rootID := rootID, kind := CompositeKind(el, Some(inst), Some(m.value.0))), m.value.1));
    }

    /** `_mountChildren(children, split)`: each child instantiated, given
        its index as mount index and mounted at `parentID<split><index>`;
        the markup is the children's markup in order. */
    method MountChildren(parentID: string, split: Sep, items: seq<Value>, ghost bound: nat, fuel: nat)
      returns (r: Result<(ChildMap, string), Failure>, ghost mounted: seq<Component>)
      requires forall i :: 0 <= i < |items| ==> Size(items[i]) < bound
      modifies this, events
      decreases fuel, bound, 0
      ensures nextUid >= old(nextUid)
      ensures OnlyUnder(old(events.buckets), events.buckets, parentID + [SepChar(split)])
      ensures r.Ok? ==>
        && |mounted| == |items|
        && r.value.0 == GeneratePrevChildren(mounted)
        && (forall k :: 0 <= k < |items| ==> MountedAt(mounted[k], items[k], k, parentID, split, old(nextUid), nextUid))
        && (forall k, l :: 0 <= k < l < |items| ==> mounted[k].uid < mounted[l].uid)
        && ChildrenNamed(r.value.0, items)
    {
      var list: seq<Component> := [];
      var html := "";
      var i := 0;
      ghost var start := events.buckets;
      ghost var under := parentID + [SepChar(split)];
      while i < |items|
        invariant 0 <= i <= |items| && |list| == i
        invariant nextUid >= old(nextUid)
        invariant OnlyUnder(start, events.buckets, under)
        invariant MountedList(list, items, parentID, split, old(nextUid), nextUid)
      {
        ghost var mid := nextUid;
        var cc := Instantiate(items[i]);
        cc := cc.(mountIndex := i);
        FreshElementOf(items[i], i);
        ghost var before := events.buckets;
        var id := ChildID(parentID, split, i);
        var m := Mount(cc, id, fuel);
        ChildIDUnder(parentID, split, i);
        OnlyUnderTrans(start, before, events.buckets, under, id);
        if m.Err? {
          return Err(m.error), list;
        }
        MountedSnoc(list, items, cc, m.value.0, parentID, split, old(nextUid), mid, nextUid);
        list := list + [m.value.0];
        html := html + m.value.1;
        i := i + 1;
      }
      MountedNames(list, items, parentID, split, old(nextUid), nextUid);
      return Ok((GeneratePrevChildren(list), html)), list;
    }

    /** `_updateProps(prev, next)` on the component at `rootID`, over the
        entries lodash `forEach` visits in `prev`: the registry follows the
        event steps of the plan and the returned writes are its DOM writes,
        in order. */
    method UpdateProps(rootID: string, prev: Props, next: Props) returns (writes: seq<PropAction>)
      modifies events
      ensures writes == Writes(PropPlan(ForEachEntries(prev), next))
      ensures events.buckets == ApplySteps(old(events.buckets), rootID, PropPlan(ForEachEntries(prev), next))
    {
      var entries := ForEachEntries(prev);
      writes := [];
      var i := 0;
      while i < |entries|
        invariant 0 <= i <= |entries|
        invariant writes == Writes(PropPlan(entries[..i], next))
        invariant events.buckets == ApplySteps(old(events.buckets), rootID, PropPlan(entries[..i], next))
      {
        var steps := StepFor(entries[i].0, entries[i].1, next);
        ghost var before := PropPlan(entries[..i], next);
        PropPlanSnoc(entries, i, next);
        if steps == [] {
          assert before + steps == before;
        } else {
          var step := steps[0];
          assert steps == [step];
          StepSnoc(old(events.buckets), rootID, before, step);
          if step.change.Unbind? {
            events.RemoveEventListener(rootID, step.change.event);
          } else if step.change.Rebind? {
            events.SetEventListener(rootID, step.change.event, step.change.value);
          } else {
            writes := writes + [step.change.action];
          }
        }
        i := i + 1;
      }
      assert entries[..i] == entries;
    }

    /** `_generateNextChildren(prev, items)`: each item is matched by name
        with the previous child of that name (`live` is that map as the
        receives update it in place); a match that can receive the item is
        updated and kept, anything else is a new instance. */
    method GenerateNextChildren(prev: ChildMap, items: seq<Value>, ghost bound: nat, fuel: nat)
      returns (r: Result<(ChildMap, ChildMap, seq<Patch>), Failure>)
      requires forall i :: 0 <= i < |items| ==> Size(items[i]) < bound
      modifies this, events
      decreases fuel, bound, 0
      ensures nextUid >= old(nextUid)
      ensures r.Ok? ==> NextInv(prev, r.value.0, r.value.1, items, old(nextUid), nextUid, bound)
    {
      var live := prev;
      var next: ChildMap := [];
      var patches: seq<Patch> := [];
      ghost var lo := nextUid;
      var i := 0;
      while i < |items|
        invariant 0 <= i <= |items|
        invariant nextUid >= lo
        invariant NextInv(prev, live, next, items[..i], lo, nextUid, bound)
      {
        var v := items[i];
        var nm := NameOf(v, i);
        var pc := Assoc.Find(live, nm);
        CongruentFind(prev, live, nm);
        ghost var live0, next0, uid0 := live, next, nextUid;
        if pc.Some? && ShouldReceive(pc.value, v) {
          CongruentReceives(Assoc.Find(prev, nm).value, pc.value, v);
          var rr := Receive(pc.value, v, fuel);
          if rr.Err? {
            return Err(rr.error);
          }
          live := Assoc.Put(live, nm, rr.value.0);
          next := Assoc.Put(next, nm, rr.value.0);
          patches := patches + rr.value.1;
          NextKept(prev, live0, next0, items, i, lo, uid0, nextUid, bound, rr.value.0);
        } else {
          if Assoc.Find(prev, nm).Some? {
            CongruentReceives(Assoc.Find(prev, nm).value, pc.value, v);
          }
          assert !Decided(prev, nm, items[i]);
          var fc := Instantiate(v);
          FreshElementOf(v, i);
          NextFresh(prev, live, next0, items, i, lo, uid0, nextUid, bound, fc);
          next := Assoc.Put(next, nm, fc);
        }
        i := i + 1;
      }
      assert items[..i] == items;
      r := Ok((live, next, patches));
    }

    /** The diff loops of `_updateChildren` on the component at `parentID`:
        the entries follow the plan, every kept or inserted child ends at
        its position, and every dropped child's callbacks are cleared. */
    method DiffChildren(parentID: string, split: Sep, prev: ChildMap, next: ChildMap, ghost bound: nat, fuel: nat)
      returns (r: Result<(ChildMap, seq<Diff>), Failure>)
      requires forall k :: 0 <= k < |next| && !Reused(prev, next[k].0, next[k].1) ==> Size(ElementOf(next[k].1)) < bound
      modifies this, events
      decreases fuel, bound, 1
      ensures nextUid >= old(nextUid)
      ensures r.Ok? ==>
        var (final, diffs) := r.value;
        && Shapes(diffs) == Plan(parentID, split, prev, next)
        && (forall d :: d in diffs ==> d.parentID == parentID)
        && |final| == |next|
        && (forall k :: 0 <= k < |next| ==> FinalEntry(prev, next[k], final[k], k, parentID))
        && forall op :: op in PlanDropped(prev, Assoc.Keys(next)) && op.RemoveOp? ==> Cleared(events.buckets, op.fromID)
    {
      var first := DiffNext(parentID, split, prev, next, bound, fuel);
      if first.Err? {
        return Err(first.error);
      }
      var dropped := DiffDropped(parentID, prev, Assoc.Keys(next));
      ShapesAppend(first.value.1, dropped);
      r := Ok((first.value.0, first.value.1 + dropped));
    }

    /** The first loop of the diff, over the next children: a kept child
        that changed position is moved, any other is mounted and inserted
        after the previous child of its name, if any, is removed. */
    method DiffNext(parentID: string, split: Sep, prev: ChildMap, next: ChildMap, ghost bound: nat, fuel: nat)
      returns (r: Result<(ChildMap, seq<Diff>), Failure>)
      requires forall k :: 0 <= k < |next| && !Reused(prev, next[k].0, next[k].1) ==> Size(ElementOf(next[k].1)) < bound
      modifies this, events
      decreases fuel, bound, 0
      ensures nextUid >= old(nextUid)
      ensures r.Ok? ==>
        var (final, diffs) := r.value;
        && Shapes(diffs) == PlanNext(parentID, split, prev, next)
        && (forall d :: d in diffs ==> d.parentID == parentID)
        && |final| == |next|
        && forall k :: 0 <= k < |next| ==> FinalEntry(prev, next[k], final[k], k, parentID)
    {
      var final: ChildMap := [];
      var diffs: seq<Diff> := [];
      var j := 0;
      while j < |next|
        invariant 0 <= j <= |next| && |final| == j
        invariant nextUid >= old(nextUid)
        invariant Shapes(diffs) == PlanNext(parentID, split, prev, next[..j])
        invariant forall d :: d in diffs ==> d.parentID == parentID
        invariant forall k :: 0 <= k < j ==> FinalEntry(prev, next[k], final[k], k, parentID)
      {
        var nm, n := next[j].0, next[j].1;
        var e := DiffEntry(parentID, split, prev, nm, n, j, bound, fuel);
        if e.Err? {
          return Err(e.error);
        }
        var (placed, step) := e.value;
        NextStep(parentID, split, prev, next, j, diffs, final, placed, step);
        diffs := diffs + step;
        final := final + [(nm, placed)];
        j := j + 1;
      }
      assert next[..j] == next;
      r := Ok((final, diffs));
    }

    /** One step of the first loop, for next child `n` named `nm` at
        position `j`. */
    method DiffEntry(parentID: string, split: Sep, prev: ChildMap, nm: string, n: Component, j: nat, ghost bound: nat, fuel: nat)
      returns (r: Result<(Component, seq<Diff>), Failure>)
      requires !Reused(prev, nm, n) ==> Size(ElementOf(n)) < bound
      modifies this, events
      decreases fuel, bound, 0
      ensures nextUid >= old(nextUid)
      ensures r.Ok? ==> EntryDone(parentID, split, prev, nm, n, j, r.value.0, r.value.1)
    {
      if Reused(prev, nm, n) {
        var pc := Assoc.Find(prev, nm).value;
        var step: seq<Diff> := if pc.mountIndex != j then [Move(parentID, pc.rootID, IdWithNewIndex(pc.rootID, j))] else [];
        assert Shapes(step) == PlanEntry(parentID, split, prev, nm, n, j);
        r := Ok((n.(mountIndex := j), step));
      } else {
        r := InsertEntry(parentID, split, prev, nm, n, j, Assoc.Find(prev, nm), bound, fuel);
      }
    }

    /** A next child that is not the previous instance of its name: the
        previous one, unless it is empty, is removed and its callbacks
        cleared; the new one is mounted under the parent's id and its name
        and inserted at position `j`. */
    method InsertEntry(parentID: string, split: Sep, prev: ChildMap, nm: string, n: Component, j: nat,
                       pc: Option<Component>, ghost bound: nat, fuel: nat)
      returns (r: Result<(Component, seq<Diff>), Failure>)
      requires pc == Assoc.Find(prev, nm) && !(pc.Some? && pc.value.uid == n.uid)
      requires Size(ElementOf(n)) < bound
      modifies this, events
      decreases fuel, bound, 0
      ensures nextUid >= old(nextUid)
      ensures r.Ok? ==> EntryDone(parentID, split, prev, nm, n, j, r.value.0, r.value.1)
      ensures r.Ok? ==> OnlyUnder(ClearReplaced(old(events.buckets), pc), events.buckets, InsertedMountID(parentID, nm))
      ensures n.kind.EmptyKind? ==> r.Ok? && EndsWithInsert(r.value.1, "")
      ensures n.kind.TextKind? ==> r.Ok? && EndsWithInsert(r.value.1, TextMarkup(InsertedMountID(parentID, nm), n.kind.text))
    {
      var toID := IdWithNewIndex(ChildID(parentID, split, j), j + 1);
      var m := MountReplacing(parentID, nm, n, pc, bound, fuel);
      if m.Err? {
        return Err(m.error);
      }
      var (removed, c, html) := m.value;
      var placed := c.(mountIndex := j);
      var step := removed + [Insert(parentID, toID, html)];
      InsertDone(parentID, split, prev, nm, n, j, pc, removed, html, c, toID, placed, step);
      InsertLast(removed, parentID, toID, html);
      r := Ok((placed, step));
      assert r.value.0 == placed && r.value.1 == step;
    }

    /** The previous child `pc` under the name `nm` of an inserted child
        `n`, unless it is empty, is removed and its callbacks cleared; then
        `n` is mounted under the parent's id and its name. */
    method MountReplacing(parentID: string, nm: string, n: Component, pc: Option<Component>, ghost bound: nat, fuel: nat)
      returns (r: Result<(seq<Diff>, Component, string), Failure>)
      requires Size(ElementOf(n)) < bound
      modifies this, events
      decreases fuel, bound, 0
      ensures nextUid >= old(nextUid)
      ensures r.Ok? ==> r.value.0 == (if pc.Some? && !pc.value.kind.EmptyKind? then [Remove(parentID, pc.value.rootID)] else [])
      ensures r.Ok? ==> Mounted(n, r.value.1, InsertedMountID(parentID, nm))
      ensures r.Ok? ==> OnlyUnder(ClearReplaced(old(events.buckets), pc), events.buckets, InsertedMountID(parentID, nm))
      ensures n.kind.EmptyKind? ==> r.Ok? && r.value.2 == ""
      ensures n.kind.TextKind? ==> r.Ok? && r.value.2 == TextMarkup(InsertedMountID(parentID, nm), n.kind.text)
    {
      var removed := RemoveReplaced(parentID, pc);
      var m := Mount(n, InsertedMountID(parentID, nm), fuel);
      if m.Err? {
        return Err(m.error);
      }
      r := Ok((removed, m.value.0, m.value.1));
    }

    /** The previous child under the name of an inserted one, if any and
        not empty, is removed and its callbacks cleared. */
    method RemoveReplaced(parentID: string, pc: Option<Component>) returns (removed: seq<Diff>)
      modifies events
      ensures removed == if pc.Some? && !pc.value.kind.EmptyKind? then [Remove(parentID, pc.value.rootID)] else []
      ensures events.buckets == if removed == [] then old(events.buckets) else Events.Clear(old(events.buckets), pc.value.rootID)
      ensures events.buckets == ClearReplaced(old(events.buckets), pc)
    {
      removed := [];
      if pc.Some? && !pc.value.kind.EmptyKind? {
        removed := [Remove(parentID, pc.value.rootID)];
        events.RemoveAllEventListener(pc.value.rootID);
      }
    }

    /** The second loop of the diff, over the previous children: each one
        whose name is not among the next names is removed and its callbacks
        cleared. */
    method DiffDropped(parentID: string, prev: ChildMap, names: seq<string>) returns (diffs: seq<Diff>)
      modifies events
      ensures Shapes(diffs) == PlanDropped(prev, names)
      ensures forall d :: d in diffs ==> d.parentID == parentID
      ensures forall op :: op in PlanDropped(prev, names) && op.RemoveOp? ==> Cleared(events.buckets, op.fromID)
    {
      diffs := [];
      var k := 0;
      while k < |prev|
        invariant 0 <= k <= |prev|
        invariant Shapes(diffs) == PlanDropped(prev[..k], names)
        invariant forall d :: d in diffs ==> d.parentID == parentID
        invariant forall op :: op in PlanDropped(prev[..k], names) && op.RemoveOp? ==> Cleared(events.buckets, op.fromID)
      {
        ghost var m0 := events.buckets;
        var step := DropOne(parentID, prev[k].0, prev[k].1, names);
        DroppedStep(prev, k, names, m0, events.buckets, diffs, step);
        diffs := diffs + step;
        k := k + 1;
      }
      assert prev[..k] == prev;
    }

    /** One step of the second loop, for previous child `p` named `nm`. */
    method DropOne(parentID: string, nm: string, p: Component, names: seq<string>) returns (step: seq<Diff>)
      modifies events
      ensures Shapes(step) == DropEntry(nm, p, names)
      ensures forall d :: d in step ==> d.parentID == parentID
      ensures events.buckets == if step == [] then old(events.buckets) else Events.Clear(old(events.buckets), p.rootID)
    {
      step := [];
      if nm !in names && !p.kind.EmptyKind? {
        step := [Remove(parentID, p.rootID)];
        events.RemoveAllEventListener(p.rootID);
      }
    }

    /** `_updateChildren(…, split, parentNode)` for the component at
        `parentID` whose children map is `prev`: the receives of the kept
        children, then the diff of `prev` against the next children. */
    method UpdateChildren(parentID: string, split: Sep, parentNode: Option<string>, prev: ChildMap, items: seq<Value>, ghost bound: nat, fuel: nat)
      returns (r: Result<(ChildMap, seq<Patch>), Failure>, next: ChildMap, diffs: seq<Diff>)
      requires forall i :: 0 <= i < |items| ==> Size(items[i]) < bound
      modifies this, events
      decreases fuel, bound, 2
      ensures nextUid >= old(nextUid)
      ensures r.Ok? ==>
        && ChildDiffDone(parentID, split, parentNode, prev, items, next, diffs, r.value.1)
        && Assoc.Keys(r.value.0) == ChildNames(items)
        && (AllUidsBelow(prev, old(nextUid)) ==> forall nm :: nm in Assoc.Keys(next) ==>
             0 <= LastNamed(items, nm) &&
             (Reused(prev, nm, Assoc.Find(next, nm).value) <==> Decided(prev, nm, items[LastNamed(items, nm)])))
    {
      next, diffs := [], [];
      var g := GenerateNextChildren(prev, items, bound, fuel);
      if g.Err? {
        return Err(g.error), next, diffs;
      }
      var (live, nextMap, received) := g.value;
      next := nextMap;
      NextSizes(prev, live, next, items, old(nextUid), nextUid, bound);
      var d := DiffChildren(parentID, split, live, next, bound, fuel);
      if d.Err? {
        return Err(d.error), next, diffs;
      }
      diffs := d.value.1;
      PlanCongruent(parentID, split, prev, live, next);
      FinalKeys(live, next, d.value.0, parentID);
      ghost var lo := old(nextUid);
      if AllUidsBelow(prev, lo) {
        forall nm | nm in Assoc.Keys(next)
          ensures 0 <= LastNamed(items, nm)
          ensures Reused(prev, nm, Assoc.Find(next, nm).value) <==> Decided(prev, nm, items[LastNamed(items, nm)])
        {
          ReusedIffDecided(prev, live, nm, Assoc.Find(next, nm).value, items, lo, nextUid, bound);
        }
      }
      r := Ok((d.value.0, received + [ChildDiffs(parentNode, diffs)]));
    }

    /** `receiveComponent(next)`: updates the component in place and returns
        the DOM patches. */
    method Receive(c: Component, next: Value, fuel: nat) returns (r: Result<(Component, seq<Patch>), Failure>)
      requires ShouldReceive(c, next)
      modifies this, events
      decreases fuel, Size(next), 4
      ensures nextUid >= old(nextUid)
      ensures r.Ok? ==> Congruent(c, r.value.0)
      ensures c.kind.TextKind? ==> r == Ok(TextReceive(c, next))
      ensures (c.kind.DomKind? || c.kind.ListKind?) && r.Ok? ==> ElementOf(r.value.0) == next
      ensures c.kind.CompositeKind? && r.Ok? ==> ElementOf(r.value.0) == ElementOf(c)
    {
      match c.kind
      case TextKind(_) =>
        r := Ok(TextReceive(c, next));
      case DomKind(_, _) =>
        var rd, _, _ := ReceiveDom(c, next, fuel);
        r := rd;
      case ListKind(_, _) =>
        var rl, _, _ := ReceiveList(c, next, fuel);
        r := rl;
      case CompositeKind(_, _, _) =>
        r := ReceiveComposite(c, next, Undef, fuel);
    }

    /** A DOM component: its props are updated, then its children, diffed
        with `.` in its own element. `kids` and `diffs` are the next
        children map and the child diff. */
    method ReceiveDom(c: Component, next: Value, fuel: nat)
      returns (r: Result<(Component, seq<Patch>), Failure>, ghost kids: ChildMap, ghost diffs: seq<Diff>)
      requires c.kind.DomKind? && ShouldReceive(c, next)
      modifies this, events
      decreases fuel, Size(next), 3
      ensures nextUid >= old(nextUid)
      ensures r.Ok? ==> ChildDiffDone(c.rootID, Dot, Some(c.rootID), c.kind.children, ChildrenOf(next), kids, diffs, r.value.1)
      ensures r.Ok? ==> Congruent(c, r.value.0) && r.value.0.kind.DomKind? && r.value.0.kind.element == next
      ensures r.Ok? ==> Assoc.Keys(r.value.0.kind.children) == ChildNames(ChildrenOf(next))
      ensures r.Ok? ==>
        var writes := PropWrites(c.rootID, Writes(PropPlan(ForEachEntries(PropsOf(c.kind.element)), PropsOf(next))));
        |writes| <= |r.value.1| && r.value.1[..|writes|] == writes
    {
      var el := c.kind.element;
      var writes := UpdateProps(c.rootID, PropsOf(el), PropsOf(next));
      ChildrenSmaller(next);
      var u;
      u, kids, diffs := UpdateChildren(c.rootID, Dot, Some(c.rootID), c.kind.children, ChildrenOf(next), Size(next), fuel);
      if u.Err? {
        return Err(u.error), kids, diffs;
      }
      StrictEqualsIsEqual(TypeOf(next), TypeOf(el));
      var patches := PropWrites(c.rootID, writes) + u.value.1;
      assert patches[..|PropWrites(c.rootID, writes)|] == PropWrites(c.rootID, writes);
      ChildDiffAfter(c.rootID, Dot, Some(c.rootID), c.kind.children, ChildrenOf(next), kids, diffs, PropWrites(c.rootID, writes), u.value.1);
      r := Ok((c.(kind := DomKind(next, u.value.0)), patches));
    }

    /** A list component: its items are diffed as children with `:`, in the
        element its `domElement` walk finds. `kids` and `diffs` are the next
        children map and the child diff. */
    method ReceiveList(c: Component, next: Value, fuel: nat)
      returns (r: Result<(Component, seq<Patch>), Failure>, ghost kids: ChildMap, ghost diffs: seq<Diff>)
      requires c.kind.ListKind? && ShouldReceive(c, next)
      modifies this, events
      decreases fuel, Size(next), 3
      ensures nextUid >= old(nextUid)
      ensures r.Ok? ==> ChildDiffDone(c.rootID, Colon, ListOwner(c.rootID), c.kind.children, ItemsOf(next), kids, diffs, r.value.1)
      ensures r.Ok? ==> Congruent(c, r.value.0) && r.value.0.kind.ListKind? && r.value.0.kind.element == next
      ensures r.Ok? ==> Assoc.Keys(r.value.0.kind.children) == ChildNames(ItemsOf(next))
      ensures r.Ok? ==>
        && |r.value.1| > 0 && r.value.1[|r.value.1| - 1].ChildDiffs?
        && r.value.1[|r.value.1| - 1].parentNode == ListOwner(c.rootID)
    {
      var owner := ListOwnerID(c.rootID);
      ChildrenSmaller(next);
      var u;
      u, kids, diffs := UpdateChildren(c.rootID, Colon, owner, c.kind.children, ItemsOf(next), Size(next), fuel);
      if u.Err? {
        return Err(u.error), kids, diffs;
      }
      r := Ok((c.(kind := ListKind(next, u.value.0)), u.value.1));
    }

    /** A composite component's `receiveComponent(next, state)`: the
        instance gets the props of `next` (or of the component's element
        when `next` is falsy) and `state` (or keeps its state when `state`
        is falsy); unless `shouldComponentUpdate` returns `false`, it is
        rendered again and what it renders is received by the rendered
        component or, when that cannot receive it, mounted in its place.
        The component's own element is left as it was. */
    method ReceiveComposite(c: Component, next: Value, state: Value, fuel: nat) returns (r: Result<(Component, seq<Patch>), Failure>)
      requires c.kind.CompositeKind?
      modifies this, events
      decreases fuel, Size(next), 3
      ensures nextUid >= old(nextUid)
      ensures c.kind.instance.None? || c.kind.rendered.None? ==> r == Err(NotMounted)
      ensures r.Ok? ==> Congruent(c, r.value.0) && r.value.0.kind.CompositeKind? && ElementOf(r.value.0) == ElementOf(c)
      ensures r.Ok? ==>
        var inst := c.kind.instance.value;
        var props := PropsOf(if Truthy(next) then next else c.kind.element);
        var st := if Truthy(state) then state else inst.state;
        && r.value.0.kind.instance == Some(Instance(inst.cls, props, st))
        && (user.shouldUpdate(inst.cls, props, st) == Bool(false) ==>
              r.value.1 == [] && r.value.0.kind.rendered == c.kind.rendered)
        && (user.shouldUpdate(inst.cls, props, st) != Bool(false) ==>
              var rendered := user.render(inst.cls, props, st);
              r.value.0.kind.rendered.Some? &&
              if ShouldReceive(c.kind.rendered.value, rendered)
              then Congruent(c.kind.rendered.value, r.value.0.kind.rendered.value)
              else
                && |r.value.1| == 1 && r.value.1[0].ReplaceNode? && r.value.1[0].id == c.rootID
                && Mounted(Component(old(nextUid), "", 0, KindFor(rendered)), r.value.0.kind.rendered.value, c.rootID))
    {
      var el := c.kind.element;
      var nextElement := if Truthy(next) then next else el;
      if c.kind.instance.None? || c.kind.rendered.None? {
        return Err(NotMounted);
      }
      var inst := c.kind.instance.value;
      var nextProps := PropsOf(nextElement);
      var nextState := if Truthy(state) then state else inst.state;
      var updated := Instance(inst.cls, nextProps, nextState);
      var prevRendered := c.kind.rendered.value;
      if user.shouldUpdate(inst.cls, nextProps, nextState) == Bool(false) {
        return Ok((c.(kind := CompositeKind(el, Some(updated), Some(prevRendered))), []));
      }
      if fuel == 0 {
        return Err(OutOfFuel);
      }
      var rendered := user.render(inst.cls, nextProps, nextState);
      if ShouldReceive(prevRendered, rendered) {
        var rr := Receive(prevRendered, rendered, fuel - 1);
        if rr.Err? {
          return Err(rr.error);
        }
        r := Ok((c.(kind := CompositeKind(el, Some(updated), Some(rr.value.0))), rr.value.1));
      } else {
        var replacement := Instantiate(rendered);
        var m := Mount(replacement, c.rootID, fuel - 1);
        if m.Err? {
          return Err(m.error);
        }
        r := Ok((c.(kind := CompositeKind(el, Some(updated), Some(m.value.0))), [ReplaceNode(c.rootID, m.value.1)]));
      }
    }

    /** `setState(nextState)`: receives with no element, so the props are
        read again from the component's own element. */
    method SetState(c: Component, nextState: Value, fuel: nat) returns (r: Result<(Component, seq<Patch>), Failure>)
      requires c.kind.CompositeKind?
      modifies this, events
      ensures nextUid >= old(nextUid)
      ensures c.kind.instance.None? || c.kind.rendered.None? ==> r == Err(NotMounted)
      ensures r.Ok? ==>
        var inst := c.kind.instance.value;
        var st := if Truthy(nextState) then nextState else inst.state;
        && Congruent(c, r.value.0)
        && r.value.0.kind.instance == Some(Instance(inst.cls, PropsOf(c.kind.element), st))
        && (user.shouldUpdate(inst.cls, PropsOf(c.kind.element), st) == Bool(false) ==> r.value.1 == [])
    {
      r := ReceiveComposite(c, Null, nextState, fuel);
    }
  }

  /** A mount keeps the component's identity, mount index, variant and
      element, and gives it the id unless it is empty. */
  predicate Mounted(c: Component, c': Component, rootID: string) {
    && c'.uid == c.uid
    && c'.mountIndex == c.mountIndex
    && VariantOfKind(c'.kind) == VariantOfKind(c.kind)
    && ElementOf(c') == ElementOf(c)
    && c'.rootID == (if c.kind.EmptyKind? then c.rootID else rootID)
  }

  /** The registry once the callbacks of the replaced child `pc`, unless it
      is absent or empty, are cleared. */
  function ClearReplaced(m: Events.Buckets, pc: Option<Component>): Events.Buckets {
    if pc.Some? && !pc.value.kind.EmptyKind? then Events.Clear(m, pc.value.rootID) else m
  }

  /** The last entry of a diff step is an INSERT of `html`. */
  predicate EndsWithInsert(step: seq<Diff>, html: string) {
    |step| > 0 && step[|step| - 1].Insert? && step[|step| - 1].html == html
  }

  /** What `_updateChildren` leaves, for the component at `parentID` with
      children map `prev`: the next map holds exactly the items' names, the
      diff has the shapes of `Plan` with separator `split`, and the last
      patch applies that diff to `parentNode`. */
  predicate ChildDiffDone(parentID: string, split: Sep, parentNode: Option<string>, prev: ChildMap, items: seq<Value>,
                          next: ChildMap, diffs: seq<Diff>, patches: seq<Patch>) {
    && Assoc.Keys(next) == ChildNames(items)
    && Shapes(diffs) == Plan(parentID, split, prev, next)
    && |patches| > 0 && patches[|patches| - 1] == ChildDiffs(parentNode, diffs)
  }

  /** Patches written before the child diff keep it last. */
  lemma ChildDiffAfter(parentID: string, split: Sep, parentNode: Option<string>, prev: ChildMap, items: seq<Value>,
                       next: ChildMap, diffs: seq<Diff>, before: seq<Patch>, patches: seq<Patch>)
    requires ChildDiffDone(parentID, split, parentNode, prev, items, next, diffs, patches)
    ensures ChildDiffDone(parentID, split, parentNode, prev, items, next, diffs, before + patches)
  {
    assert (before + patches)[|before + patches| - 1] == patches[|patches| - 1];
  }

  /** An insert step ends with its INSERT. */
  lemma InsertLast(removed: seq<Diff>, parentID: string, toID: string, html: string)
    ensures EndsWithInsert(removed + [Insert(parentID, toID, html)], html)
  {
  }

  /** The diff entries of an insert step have the shapes the plan gives. */
  lemma InsertStep(parentID: string, split: Sep, prev: ChildMap, nm: string, n: Component, j: nat, removed: seq<Diff>, html: string)
    requires !Reused(prev, nm, n)
    requires var pc := Assoc.Find(prev, nm);
      removed == if pc.Some? && !pc.value.kind.EmptyKind? then [Remove(parentID, pc.value.rootID)] else []
    ensures var step := removed + [Insert(parentID, IdWithNewIndex(ChildID(parentID, split, j), j + 1), html)];
      && Shapes(step) == PlanEntry(parentID, split, prev, nm, n, j)
      && forall d :: d in step ==> d.parentID == parentID
  {
    var toID := IdWithNewIndex(ChildID(parentID, split, j), j + 1);
    var pc := Assoc.Find(prev, nm);
    var removedOps := if pc.Some? && !pc.value.kind.EmptyKind? then [RemoveOp(pc.value.rootID)] else [];
    assert PlanEntry(parentID, split, prev, nm, n, j) == removedOps + [InsertOp(toID)];
    InsertShapes(parentID, toID, html, removed, pc);
  }

  lemma InsertShapes(parentID: string, toID: string, html: string, removed: seq<Diff>, pc: Option<Component>)
    requires removed == if pc.Some? && !pc.value.kind.EmptyKind? then [Remove(parentID, pc.value.rootID)] else []
    ensures var step := removed + [Insert(parentID, toID, html)];
      && Shapes(step) == (if pc.Some? && !pc.value.kind.EmptyKind? then [RemoveOp(pc.value.rootID)] else []) + [InsertOp(toID)]
      && forall d :: d in step ==> d.parentID == parentID
  {
    ShapesAppend(removed, [Insert(parentID, toID, html)]);
  }

  /** What one step of the first diff loop produces for next child `n`
      named `nm` at position `j`: the planned entries and the placed child. */
  predicate EntryDone(parentID: string, split: Sep, prev: ChildMap, nm: string, n: Component, j: nat, placed: Component, step: seq<Diff>) {
    && Shapes(step) == PlanEntry(parentID, split, prev, nm, n, j)
    && (forall d :: d in step ==> d.parentID == parentID)
    && FinalEntry(prev, (nm, n), (nm, placed), j, parentID)
  }

  /** One step of the first diff loop keeps its shapes, parents and placed
      children in line with the plan. */
  lemma NextStep(parentID: string, split: Sep, prev: ChildMap, next: ChildMap, j: nat,
                 diffs: seq<Diff>, final: ChildMap, placed: Component, step: seq<Diff>)
    requires j < |next| && |final| == j
    requires Shapes(diffs) == PlanNext(parentID, split, prev, next[..j])
    requires forall d :: d in diffs ==> d.parentID == parentID
    requires forall k :: 0 <= k < j ==> FinalEntry(prev, next[k], final[k], k, parentID)
    requires EntryDone(parentID, split, prev, next[j].0, next[j].1, j, placed, step)
    ensures Shapes(diffs + step) == PlanNext(parentID, split, prev, next[..j + 1])
    ensures forall d :: d in diffs + step ==> d.parentID == parentID
    ensures forall k :: 0 <= k < j + 1 ==> FinalEntry(prev, next[k], (final + [(next[j].0, placed)])[k], k, parentID)
  {
    ShapesAppend(diffs, step);
    PlanNextSnoc(parentID, split, prev, next, j);
    FinalSnoc(prev, next, final, (next[j].0, placed), j, parentID);
  }

  lemma InsertDone(parentID: string, split: Sep, prev: ChildMap, nm: string, n: Component, j: nat,
                   pc: Option<Component>, removed: seq<Diff>, html: string, c: Component,
                   toID: string, placed: Component, step: seq<Diff>)
    requires pc == Assoc.Find(prev, nm) && !(pc.Some? && pc.value.uid == n.uid)
    requires Mounted(n, c, InsertedMountID(parentID, nm))
    requires removed == if pc.Some? && !pc.value.kind.EmptyKind? then [Remove(parentID, pc.value.rootID)] else []
    requires toID == IdWithNewIndex(ChildID(parentID, split, j), j + 1)
    requires placed == c.(mountIndex := j) && step == removed + [Insert(parentID, toID, html)]
    ensures EntryDone(parentID, split, prev, nm, n, j, placed, step)
  {
    InsertStep(parentID, split, prev, nm, n, j, removed, html);
    InsertedFinal(prev, nm, n, c, j, parentID);
  }

  lemma InsertedFinal(prev: ChildMap, nm: string, n: Component, c: Component, j: nat, parentID: string)
    requires !Reused(prev, nm, n) && Mounted(n, c, InsertedMountID(parentID, nm))
    ensures FinalEntry(prev, (nm, n), (nm, c.(mountIndex := j)), j, parentID)
  {
  }

  /** A child map with unique names that holds every item's name. */
  predicate ChildrenNamed(m: ChildMap, items: seq<Value>) {
    && Assoc.UniqueKeys(m)
    && |m| <= |items|
    && forall i :: 0 <= i < |items| ==> NameOf(items[i], i) in Assoc.Keys(m)
  }

  /** The children mounted so far: each as its item says, in order of
      rising uid. */
  predicate MountedList(list: seq<Component>, items: seq<Value>, parentID: string, split: Sep, lo: nat, hi: nat) {
    && |list| <= |items|
    && (forall k :: 0 <= k < |list| ==> MountedAt(list[k], items[k], k, parentID, split, lo, hi))
    && (forall k, l :: 0 <= k < l < |list| ==> list[k].uid < list[l].uid)
  }

  /** Mounting the next child, fresh with uid `mid`, extends the list. */
  lemma MountedSnoc(list: seq<Component>, items: seq<Value>, cc: Component, c: Component,
                    parentID: string, split: Sep, lo: nat, mid: nat, hi: nat)
    requires MountedList(list, items, parentID, split, lo, mid) && |list| < |items|
    requires lo <= mid < hi
    requires cc == Component(mid, "", |list|, KindFor(items[|list|]))
    requires Mounted(cc, c, ChildID(parentID, split, |list|))
    ensures MountedList(list + [c], items, parentID, split, lo, hi)
  {
    var r := list + [c];
    forall k | 0 <= k < |r| ensures MountedAt(r[k], items[k], k, parentID, split, lo, hi) {
      if k < |list| {
        assert r[k] == list[k];
      }
    }
  }

  lemma MountedNames(list: seq<Component>, items: seq<Value>, parentID: string, split: Sep, lo: nat, hi: nat)
    requires |list| == |items|
    requires forall k :: 0 <= k < |items| ==> MountedAt(list[k], items[k], k, parentID, split, lo, hi)
    ensures ChildrenNamed(GeneratePrevChildren(list), items)
  {
    PrevChildrenKeys(list);
    forall i | 0 <= i < |items| ensures NameOf(items[i], i) in Assoc.Keys(GeneratePrevChildren(list)) {
      FreshElementOf(items[i], i);
      assert NameAt(list, i) == NameOf(items[i], i);
    }
  }

  /** `setProp` patches on the element at `id`, in order. */
  function PropWrites(id: string, actions: seq<PropAction>): (ps: seq<Patch>)
    ensures |ps| == |actions|
    ensures forall i :: 0 <= i < |actions| ==> ps[i] == PropWrite(id, actions[i])
  {
    if actions == [] then [] else [PropWrite(id, actions[0])] + PropWrites(id, actions[1..])
  }

  /** One more step of a prop plan: its write, if any, is appended and its
      event change applied. */
  lemma StepSnoc(m: Events.Buckets, id: string, steps: seq<PropStep>, s: PropStep)
    ensures Writes(steps + [s]) == Writes(steps) + (if s.change.Write? then [s.change.action] else [])
    ensures s.change.Unbind? ==> ApplySteps(m, id, steps + [s]) == Events.Unbind(ApplySteps(m, id, steps), id, s.change.event)
    ensures s.change.Rebind? ==> ApplySteps(m, id, steps + [s]) == Events.Bind(ApplySteps(m, id, steps), id, s.change.event, s.change.value)
    ensures s.change.Write? ==> ApplySteps(m, id, steps + [s]) == ApplySteps(m, id, steps)
  {
    assert (steps + [s])[..|steps|] == steps;
  }

  lemma StrictEqualsIsEqual(a: Value, b: Value)
    requires StrictEquals(a, b)
    ensures a == b
  {
  }

  /** Every callback of `id` is gone. */
  ghost predicate Cleared(m: Events.Buckets, id: string) {
    forall e :: Events.Find(m, id, e) == Undef
  }

  /** Clearing one more id keeps the ids already cleared. */
  lemma ClearedKept(m0: Events.Buckets, m1: Events.Buckets, ops: seq<Op>, id: string)
    requires m1 == m0 || m1 == Events.Clear(m0, id)
    requires forall op :: op in ops && op.RemoveOp? ==> Cleared(m0, op.fromID)
    ensures forall op :: op in ops && op.RemoveOp? ==> Cleared(m1, op.fromID)
    ensures m1 == Events.Clear(m0, id) ==> Cleared(m1, id)
  {
  }

  /** One step of the second diff loop keeps its shapes and its cleared
      ids in line with the plan. */
  lemma DroppedStep(prev: ChildMap, k: nat, names: seq<string>, m0: Events.Buckets, m1: Events.Buckets, diffs: seq<Diff>, step: seq<Diff>)
    requires k < |prev|
    requires Shapes(diffs) == PlanDropped(prev[..k], names)
    requires forall op :: op in PlanDropped(prev[..k], names) && op.RemoveOp? ==> Cleared(m0, op.fromID)
    requires Shapes(step) == DropEntry(prev[k].0, prev[k].1, names)
    requires m1 == if step == [] then m0 else Events.Clear(m0, prev[k].1.rootID)
    ensures Shapes(diffs + step) == PlanDropped(prev[..k + 1], names)
    ensures forall op :: op in PlanDropped(prev[..k + 1], names) && op.RemoveOp? ==> Cleared(m1, op.fromID)
  {
    ClearedKept(m0, m1, PlanDropped(prev[..k], names), prev[k].1.rootID);
    ShapesAppend(diffs, step);
    PlanDroppedSnoc(prev, k, names);
  }

  /** Every component in the map has an identity below `u`. */
  predicate AllUidsBelow(m: ChildMap, u: nat) {
    forall k :: 0 <= k < |m| ==> m[k].1.uid < u
  }

  /** A previous child with the name exists and can receive `v`. */
  predicate Decided(prev: ChildMap, nm: string, v: Value) {
    Assoc.Find(prev, nm).Some? && ShouldReceive(Assoc.Find(prev, nm).value, v)
  }

  /** The position of the last item named `nm`, or -1. */
  function LastNamed(items: seq<Value>, nm: string): (i: int)
    ensures -1 <= i < |items|
    ensures i >= 0 ==> NameOf(items[i], i) == nm
    decreases |items|
  {
    if items == [] then -1
    else if NameOf(items[|items| - 1], |items| - 1) == nm then |items| - 1
    else LastNamed(items[..|items| - 1], nm)
  }

  /** The next child under `nm`: the previous child of that name, updated,
      when that one could receive the last item of the name; otherwise a
      fresh instance for that item. */
  predicate NextOK(prev: ChildMap, live: ChildMap, nm: string, e: Component, items: seq<Value>, lo: nat, hi: nat, bound: nat) {
    var li := LastNamed(items, nm);
    && 0 <= li
    && (Decided(prev, nm, items[li]) ==>
          Assoc.Find(live, nm) == Some(e) && e.uid == Assoc.Find(prev, nm).value.uid)
    && (!Decided(prev, nm, items[li]) ==>
          e == Component(e.uid, "", 0, KindFor(items[li])) && lo <= e.uid < hi && Size(FreshElement(items[li])) < bound)
  }

  /** What the diff leaves for next child `e` at position `k`. */
  predicate FinalEntry(prev: ChildMap, e: (string, Component), f: (string, Component), k: nat, parentID: string) {
    && f.0 == e.0
    && f.1.uid == e.1.uid
    && f.1.mountIndex == k
    && VariantOfKind(f.1.kind) == VariantOfKind(e.1.kind)
    && (Reused(prev, e.0, e.1) ==> f.1 == e.1.(mountIndex := k))
    && (!Reused(prev, e.0, e.1) && !e.1.kind.EmptyKind? ==> f.1.rootID == InsertedMountID(parentID, e.0))
  }

  lemma FinalSnoc(prev: ChildMap, next: ChildMap, final: ChildMap, f: (string, Component), j: nat, parentID: string)
    requires j < |next| && |final| == j
    requires forall k :: 0 <= k < j ==> FinalEntry(prev, next[k], final[k], k, parentID)
    requires FinalEntry(prev, next[j], f, j, parentID)
    ensures forall k :: 0 <= k < j + 1 ==> FinalEntry(prev, next[k], (final + [f])[k], k, parentID)
  {
    forall k | 0 <= k < j + 1 ensures FinalEntry(prev, next[k], (final + [f])[k], k, parentID) {
      if k < j {
        assert (final + [f])[k] == final[k];
      }
    }
  }

  lemma FinalKeys(prev: ChildMap, next: ChildMap, final: ChildMap, parentID: string)
    requires |final| == |next| && forall k :: 0 <= k < |next| ==> FinalEntry(prev, next[k], final[k], k, parentID)
    ensures Assoc.Keys(final) == Assoc.Keys(next)
  {
  }

  lemma CongruentPut(prev: ChildMap, live: ChildMap, nm: string, c: Component)
    requires CongruentMaps(prev, live) && Assoc.Find(live, nm).Some? && Congruent(Assoc.Find(live, nm).value, c)
    ensures CongruentMaps(prev, Assoc.Put(live, nm, c))
  {
    var i := Assoc.IndexOf(live, nm);
    Assoc.FindFirst(live, nm, i);
    CongruentTrans(prev[i].1, live[i].1, c);
    var r := Assoc.Put(live, nm, c);
    assert r == live[i := (nm, c)];
    CongruentUpdate(prev, live, i, c);
  }

  lemma CongruentTrans(a: Component, b: Component, c: Component)
    requires Congruent(a, b) && Congruent(b, c)
    ensures Congruent(a, c)
  {
  }

  /** Replacing entry `i` by a congruent component under the same name. */
  lemma CongruentUpdate(prev: ChildMap, live: ChildMap, i: nat, c: Component)
    requires CongruentMaps(prev, live) && i < |live| && Congruent(prev[i].1, c)
    ensures CongruentMaps(prev, live[i := (live[i].0, c)])
  {
    var r := live[i := (live[i].0, c)];
    forall k | 0 <= k < |prev| ensures prev[k].0 == r[k].0 && Congruent(prev[k].1, r[k].1) {
      if k != i {
        assert r[k] == live[k];
      }
    }
  }

  /** Diffing depends on the previous children only through what congruence
      keeps. */
  lemma {:induction false} PlanCongruent(parentID: string, split: Sep, a: ChildMap, b: ChildMap, next: ChildMap)
    requires CongruentMaps(a, b)
    ensures Plan(parentID, split, a, next) == Plan(parentID, split, b, next)
  {
    PlanNextCongruent(parentID, split, a, b, next);
    PlanDroppedCongruent(a, b, Assoc.Keys(next));
  }

  lemma {:induction false} PlanNextCongruent(parentID: string, split: Sep, a: ChildMap, b: ChildMap, next: ChildMap)
    requires CongruentMaps(a, b)
    ensures PlanNext(parentID, split, a, next) == PlanNext(parentID, split, b, next)
    decreases |next|
  {
    if next != [] {
      var j := |next| - 1;
      PlanNextCongruent(parentID, split, a, b, next[..j]);
      PlanEntryCongruent(parentID, split, a, b, next[j].0, next[j].1, j);
    }
  }

  lemma PlanEntryCongruent(parentID: string, split: Sep, a: ChildMap, b: ChildMap, nm: string, n: Component, j: nat)
    requires CongruentMaps(a, b)
    ensures PlanEntry(parentID, split, a, nm, n, j) == PlanEntry(parentID, split, b, nm, n, j)
  {
    CongruentFind(a, b, nm);
    EntryOpsCongruent(parentID, split, Assoc.Find(a, nm), Assoc.Find(b, nm), n, j);
  }

  lemma EntryOpsCongruent(parentID: string, split: Sep, pa: Option<Component>, pb: Option<Component>, n: Component, j: nat)
    requires pa.Some? <==> pb.Some?
    requires pa.Some? ==> Congruent(pa.value, pb.value)
    ensures EntryOps(parentID, split, pa, n, j) == EntryOps(parentID, split, pb, n, j)
  {
    if pa.Some? {
      var p, q := pa.value, pb.value;
      assert p.uid == q.uid && p.rootID == q.rootID && p.mountIndex == q.mountIndex;
      assert p.kind.EmptyKind? == q.kind.EmptyKind?;
    }
  }

  lemma {:induction false} PlanDroppedCongruent(a: ChildMap, b: ChildMap, names: seq<string>)
    requires CongruentMaps(a, b)
    ensures PlanDropped(a, names) == PlanDropped(b, names)
    decreases |a|
  {
    if a != [] {
      var k := |a| - 1;
      assert CongruentMaps(a[..k], b[..k]);
      PlanDroppedCongruent(a[..k], b[..k], names);
    }
  }

  lemma LastNamedSnoc(items: seq<Value>, i: nat, nm: string)
    requires i < |items|
    ensures LastNamed(items[..i + 1], nm) == if NameOf(items[i], i) == nm then i else LastNamed(items[..i], nm)
  {
    assert items[..i + 1][..i] == items[..i];
  }

  lemma ChildNamesSnoc(items: seq<Value>, i: nat)
    requires i < |items|
    ensures ChildNames(items[..i + 1]) ==
      var ks := ChildNames(items[..i]);
      if NameOf(items[i], i) in ks then ks else ks + [NameOf(items[i], i)]
  {
    assert items[..i + 1][..i] == items[..i];
  }

  /** An earlier name keeps its entry when a later item has another name. */
  lemma NextOther(prev: ChildMap, live0: ChildMap, live1: ChildMap, nm: string, e: Component, items: seq<Value>, i: nat, lo: nat, u0: nat, u1: nat, bound: nat)
    requires i < |items| && u0 <= u1 && NameOf(items[i], i) != nm
    requires Assoc.Find(live1, nm) == Assoc.Find(live0, nm)
    requires NextOK(prev, live0, nm, e, items[..i], lo, u0, bound)
    ensures NextOK(prev, live1, nm, e, items[..i + 1], lo, u1, bound)
  {
    LastNamedSnoc(items, i, nm);
    var li := LastNamed(items[..i], nm);
    assert items[..i + 1][li] == items[..i][li];
  }

  /** What `_generateNextChildren` has built after the items `items`:
      `live` is the previous map with kept children updated, and `next`
      holds, under each distinct name in order, the kept instance or a
      fresh one with an identity in `[lo, hi)`. */
  predicate NextInv(prev: ChildMap, live: ChildMap, next: ChildMap, items: seq<Value>, lo: nat, hi: nat, bound: nat) {
    && CongruentMaps(prev, live)
    && Assoc.UniqueKeys(next)
    && Assoc.Keys(next) == ChildNames(items)
    && forall nm :: nm in Assoc.Keys(next) ==> NextOK(prev, live, nm, Assoc.Find(next, nm).value, items, lo, hi, bound)
  }

  /** The loop step of `_generateNextChildren` for a kept child. */
  lemma NextKept(prev: ChildMap, live0: ChildMap, next0: ChildMap, items: seq<Value>, i: nat, lo: nat, u0: nat, u1: nat, bound: nat, c: Component)
    requires i < |items| && lo <= u0 <= u1
    requires NextInv(prev, live0, next0, items[..i], lo, u0, bound)
    requires Decided(prev, NameOf(items[i], i), items[i])
    requires Assoc.Find(live0, NameOf(items[i], i)).Some?
    requires Congruent(Assoc.Find(live0, NameOf(items[i], i)).value, c)
    requires c.uid == Assoc.Find(prev, NameOf(items[i], i)).value.uid
    ensures var nm := NameOf(items[i], i);
      NextInv(prev, Assoc.Put(live0, nm, c), Assoc.Put(next0, nm, c), items[..i + 1], lo, u1, bound)
  {
    var nm := NameOf(items[i], i);
    var live1 := Assoc.Put(live0, nm, c);
    var next1 := Assoc.Put(next0, nm, c);
    CongruentPut(prev, live0, nm, c);
    Assoc.PutKeys(next0, nm, c);
    ChildNamesSnoc(items, i);
    forall nm' | nm' in Assoc.Keys(next1)
      ensures NextOK(prev, live1, nm', Assoc.Find(next1, nm').value, items[..i + 1], lo, u1, bound)
    {
      Assoc.FindPut(next0, nm, c, nm');
      Assoc.FindPut(live0, nm, c, nm');
      if nm' != nm {
        NextOther(prev, live0, live1, nm', Assoc.Find(next0, nm').value, items, i, lo, u0, u1, bound);
      } else {
        LastNamedSnoc(items, i, nm');
        assert items[..i + 1][i] == items[i];
      }
    }
  }

  /** The loop step of `_generateNextChildren` for a fresh child. */
  lemma NextFresh(prev: ChildMap, live: ChildMap, next0: ChildMap, items: seq<Value>, i: nat, lo: nat, u0: nat, u1: nat, bound: nat, c: Component)
    requires i < |items| && lo <= u0 && u1 == u0 + 1
    requires Size(FreshElement(items[i])) < bound
    requires NextInv(prev, live, next0, items[..i], lo, u0, bound)
    requires !Decided(prev, NameOf(items[i], i), items[i])
    requires c == Component(u0, "", 0, KindFor(items[i]))
    ensures NextInv(prev, live, Assoc.Put(next0, NameOf(items[i], i), c), items[..i + 1], lo, u1, bound)
  {
    var nm := NameOf(items[i], i);
    var next1 := Assoc.Put(next0, nm, c);
    Assoc.PutKeys(next0, nm, c);
    ChildNamesSnoc(items, i);
    forall nm' | nm' in Assoc.Keys(next1)
      ensures NextOK(prev, live, nm', Assoc.Find(next1, nm').value, items[..i + 1], lo, u1, bound)
    {
      Assoc.FindPut(next0, nm, c, nm');
      if nm' != nm {
        NextOther(prev, live, live, nm', Assoc.Find(next0, nm').value, items, i, lo, u0, u1, bound);
      } else {
        LastNamedSnoc(items, i, nm');
        assert items[..i + 1][i] == items[i];
      }
    }
  }

  /** The size bound the diff needs for every child that is not kept. */
  lemma NextSizes(prev: ChildMap, live: ChildMap, next: ChildMap, items: seq<Value>, lo: nat, hi: nat, bound: nat)
    requires CongruentMaps(prev, live) && Assoc.UniqueKeys(next)
    requires forall nm :: nm in Assoc.Keys(next) ==>
      NextOK(prev, live, nm, Assoc.Find(next, nm).value, items, lo, hi, bound)
    ensures forall k :: 0 <= k < |next| && !Reused(live, next[k].0, next[k].1) ==> Size(ElementOf(next[k].1)) < bound
  {
    forall k | 0 <= k < |next| && !Reused(live, next[k].0, next[k].1)
      ensures Size(ElementOf(next[k].1)) < bound
    {
      var nm := next[k].0;
      Assoc.FindUnique(next, k);
      assert Assoc.Keys(next)[k] == nm;
      FreshSize(prev, live, nm, next[k].1, items, lo, hi, bound);
    }
  }

  lemma FreshSize(prev: ChildMap, live: ChildMap, nm: string, e: Component, items: seq<Value>, lo: nat, hi: nat, bound: nat)
    requires NextOK(prev, live, nm, e, items, lo, hi, bound) && !Reused(live, nm, e)
    ensures Size(ElementOf(e)) < bound
  {
    var li := LastNamed(items, nm);
    assert !Decided(prev, nm, items[li]);
  }

  /** With every previous identity older than the update, a next child is
      the previous instance exactly when the name's previous child could
      receive the name's last item. */
  lemma ReusedIffDecided(prev: ChildMap, live: ChildMap, nm: string, e: Component, items: seq<Value>, lo: nat, hi: nat, bound: nat)
    requires AllUidsBelow(prev, lo)
    requires NextOK(prev, live, nm, e, items, lo, hi, bound)
    ensures 0 <= LastNamed(items, nm)
    ensures Reused(prev, nm, e) <==> Decided(prev, nm, items[LastNamed(items, nm)])
  {
    if Assoc.Find(prev, nm).Some? {
      Assoc.FindSome(prev, nm);
    }
  }
}
