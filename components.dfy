/** The internal component tree: the five component variants, the
    instantiation dispatch, child naming and the previous-children map.
    A component is a value; `uid` is its object identity, so "the same
    instance" is "the same uid". */
module Components {
  import opened Wrappers
  import opened Strings
  import opened JsValues
  import opened ReactIds
  import Assoc

  /** The user component instance: its `props` and `state` fields and the
      class it was constructed from. */
  datatype Instance = Instance(cls: FnRef, props: Props, state: Value)

  datatype Kind =
    | EmptyKind
    | TextKind(text: string)
    | DomKind(element: Value, children: ChildMap)
    | ListKind(element: Value, children: ChildMap)
      /** `instance` and `rendered` are set by mounting. */
    | CompositeKind(element: Value, instance: Option<Instance>, rendered: Option<Component>)

  /** `_rootID` is "" and `_mountIndex` is 0 until they are first assigned. */
  datatype Component = Component(uid: nat, rootID: string, mountIndex: nat, kind: Kind)

  /** `_childrenComponent`: child name to component, in insertion order. */
  type ChildMap = seq<(string, Component)>

  datatype Variant = EmptyV | TextV | DomV | ListV | CompositeV

  /** `get(element, 'type')` */
  function TypeOf(v: Value): Value {
    if v.Elem? then v.ty else Undef
  }

  /** `element.key` */
  function KeyOf(v: Value): Value {
    if v.Elem? then v.key else Undef
  }

  /** `element.props` (undefined, so iterated as empty, for non-elements) */
  function PropsOf(v: Value): Props {
    if v.Elem? then v.props else []
  }

  /** `element.children`, the `children` prop, as a list of child values. */
  function ChildrenOf(v: Value): seq<Value> {
    if v.Elem? && Get(v.props, "children").Arr? then Get(v.props, "children").items else []
  }

  /** `instantiateReactComponent`: which variant a value becomes. */
  function VariantOf(v: Value): Variant {
    if !Truthy(v) then EmptyV
    else if v.Str? || v.Num? then TextV
    else if v.Arr? then ListV
    else if TypeOf(v).Str? then DomV
    else CompositeV
  }

  /** The state of a freshly instantiated component for `v`. */
  function KindFor(v: Value): (k: Kind)
    ensures VariantOfKind(k) == VariantOf(v)
  {
    match VariantOf(v)
    case EmptyV => EmptyKind
    case TextV => TextKind(LodashToString(v))
    case ListV => ListKind(v, [])
    case DomV => DomKind(v, [])
    case CompositeV => CompositeKind(v, None, None)
  }

  function VariantOfKind(k: Kind): Variant {
    match k
    case EmptyKind => EmptyV
    case TextKind(_) => TextV
    case DomKind(_, _) => DomV
    case ListKind(_, _) => ListV
    case CompositeKind(_, _, _) => CompositeV
  }

  /** `component._element` */
  function ElementOf(c: Component): Value {
    match c.kind
    case EmptyKind => Null
    case TextKind(t) => Str(t)
    case DomKind(e, _) => e
    case ListKind(e, _) => e
    case CompositeKind(e, _, _) => e
  }

  /** The items of a list component's array. */
  function ItemsOf(v: Value): seq<Value> {
    if v.Arr? then v.items else []
  }

  /** The `_element` a fresh component for `v` holds. */
  function FreshElement(v: Value): Value {
    ElementOf(Component(0, "", 0, KindFor(v)))
  }

  /** A fresh component's element is no larger than the value and is named
      like it. */
  lemma FreshElementOf(v: Value, i: nat)
    ensures Size(FreshElement(v)) <= Size(v)
    ensures NameOf(FreshElement(v), i) == NameOf(v, i)
  {
  }

  /** The children of an element and the items of an array are smaller
      than it. */
  lemma ChildrenSmaller(v: Value)
    ensures forall i :: 0 <= i < |ChildrenOf(v)| ==> Size(ChildrenOf(v)[i]) < Size(v)
    ensures forall i :: 0 <= i < |ItemsOf(v)| ==> Size(ItemsOf(v)[i]) < Size(v)
  {
    if v.Elem? {
      GetSmaller(v.props, "children");
      var c := Get(v.props, "children");
      if c.Arr? {
        forall i | 0 <= i < |c.items| ensures Size(c.items[i]) < Size(v) {
          ItemSmaller(c.items, i);
        }
      }
    }
    if v.Arr? {
      forall i | 0 <= i < |v.items| ensures Size(v.items[i]) < Size(v) {
        ItemSmaller(v.items, i);
      }
    }
  }

  /** Dispatch precedence: falsy values (including 0 and "") are empty,
      other strings and numbers are text, arrays are lists, elements with
      a string type are DOM components, anything else is composite. */
  lemma InstantiationPrecedence(v: Value)
    ensures v in {Undef, Null, Bool(false), Num(0), Str("")} ==> VariantOf(v) == EmptyV
    ensures (v.Str? && v.s != "") || (v.Num? && v.n != 0) ==> VariantOf(v) == TextV
    ensures v.Arr? ==> VariantOf(v) == ListV
    ensures v.Elem? && v.ty.Str? ==> VariantOf(v) == DomV
    ensures v.Elem? && !v.ty.Str? ==> VariantOf(v) == CompositeV
    ensures v.Fn? || v == Bool(true) ==> VariantOf(v) == CompositeV
  {
  }

  /** `shouldReceive`: whether a component can be updated in place with `v`. */
  predicate ShouldReceive(c: Component, v: Value) {
    match c.kind
    case EmptyKind => false
    case TextKind(_) => v.Str? || v.Num?
    case ListKind(_, _) => v.Arr?
    case DomKind(e, _) => Truthy(v) && StrictEquals(TypeOf(v), TypeOf(e))
    case CompositeKind(e, _, _) => Truthy(v) && StrictEquals(TypeOf(v), TypeOf(e))
  }

  /** Two states of one instance that `shouldReceive` and the diff cannot
      tell apart: same identity, id, mount index, variant and, for a DOM
      or composite component, the same element type. */
  predicate Congruent(a: Component, b: Component) {
    && a.uid == b.uid
    && a.rootID == b.rootID
    && a.mountIndex == b.mountIndex
    && VariantOfKind(a.kind) == VariantOfKind(b.kind)
    && (a.kind.DomKind? || a.kind.CompositeKind? ==> TypeOf(ElementOf(a)) == TypeOf(ElementOf(b)))
  }

  lemma CongruentReceives(a: Component, b: Component, v: Value)
    requires Congruent(a, b)
    ensures ShouldReceive(a, v) == ShouldReceive(b, v)
  {
  }

  predicate CongruentMaps(a: ChildMap, b: ChildMap) {
    |a| == |b| && forall k :: 0 <= k < |a| ==> a[k].0 == b[k].0 && Congruent(a[k].1, b[k].1)
  }

  lemma CongruentFind(a: ChildMap, b: ChildMap, nm: string)
    requires CongruentMaps(a, b)
    ensures Assoc.Find(a, nm).Some? <==> Assoc.Find(b, nm).Some?
    ensures Assoc.Find(a, nm).Some? ==> Congruent(Assoc.Find(a, nm).value, Assoc.Find(b, nm).value)
  {
    assert Assoc.Keys(a) == Assoc.Keys(b);
    if nm in Assoc.Keys(a) {
      var i := Assoc.IndexOf(a, nm);
      Assoc.FindFirst(a, nm, i);
      Assoc.FindFirst(b, nm, i);
    }
  }

  // ---------------------------------------------------------------
  // Child names

  /** A child's name: its truthy `key`, else its index in base 36. */
  function NameOf(v: Value, index: nat): string {
    if Truthy(v) && Truthy(KeyOf(v)) then JsString(KeyOf(v)) else Base36(index)
  }

  /** Unkeyed children are named by their distinct positions. */
  lemma UnkeyedNamesDistinct(v: Value, w: Value, i: nat, j: nat)
    requires !Truthy(KeyOf(v)) && !Truthy(KeyOf(w)) && i != j
    ensures NameOf(v, i) != NameOf(w, j)
  {
    if NameOf(v, i) == NameOf(w, j) {
      Base36Injective(i, j);
    }
  }

  /** `_generatePrevChildren`: the `reduce` that stores each mounted child,
      in order, under the name of its element and position; a later
      duplicate name overwrites the earlier entry in place. */
  function GeneratePrevChildren(list: seq<Component>): (m: ChildMap) {
    Assoc.PutAll(Named(list))
  }

  /** Each child paired with its name. */
  function Named(list: seq<Component>): (es: seq<(string, Component)>)
    ensures |es| == |list|
    ensures forall i :: 0 <= i < |list| ==> es[i] == (NameAt(list, i), list[i])
  {
    seq(|list|, i requires 0 <= i < |list| => (NameAt(list, i), list[i]))
  }

  /** The distinct names of the items, in order of first occurrence: the
      key order of the map `_generateNextChildren` builds. */
  function ChildNames(items: seq<Value>): (ks: seq<string>)
    ensures |ks| <= |items|
    ensures forall i :: 0 <= i < |items| ==> NameOf(items[i], i) in ks
    decreases |items|
  {
    if items == [] then []
    else
      var n := |items| - 1;
      var ks := ChildNames(items[..n]);
      assert forall i :: 0 <= i < n ==> NameOf(items[..n][i], i) == NameOf(items[i], i);
      var nm := NameOf(items[n], n);
      if nm in ks then ks else ks + [nm]
  }

  /** The name `_generatePrevChildren` gives the child at position `i`. */
  function NameAt(list: seq<Component>, i: nat): string
    requires i < |list|
  {
    NameOf(ElementOf(list[i]), i)
  }

  /** No later child of the list has the same name as child `i`. */
  predicate LastWithName(list: seq<Component>, i: nat) {
    i < |list| && forall j :: i < j < |list| ==> NameAt(list, j) != NameAt(list, i)
  }

  /** The previous-children map has unique names and every child's name. */
  lemma PrevChildrenKeys(list: seq<Component>)
    ensures Assoc.UniqueKeys(GeneratePrevChildren(list))
    ensures |GeneratePrevChildren(list)| <= |list|
    ensures forall i :: 0 <= i < |list| ==> NameAt(list, i) in Assoc.Keys(GeneratePrevChildren(list))
  {
    var es := Named(list);
    Assoc.PutAllUnique(es);
    Assoc.PutAllHas(es);
    assert forall i :: 0 <= i < |list| ==> es[i].0 == NameAt(list, i);
  }

  /** Each name maps to the last child carrying it: a later duplicate
      replaces an earlier one. */
  lemma PrevChildrenFind(list: seq<Component>, i: nat)
    requires LastWithName(list, i)
    ensures Assoc.Find(GeneratePrevChildren(list), NameAt(list, i)) == Some(list[i])
  {
    var es := Named(list);
    assert forall j :: i < j < |es| ==> es[j].0 != es[i].0;
    Assoc.PutAllFind(es, i);
  }

  // ---------------------------------------------------------------
  // Element factory

  /** `createElement(type, attributes, ...children)`: the children are
      stored under the reserved `children` prop and the `key` prop, when
      truthy, becomes the element's key. */
  function CreateElement(ty: Value, attributes: Props, children: seq<Value>): (e: Value)
    ensures e.Elem? && e.ty == ty
    ensures ChildrenOf(e) == children
    ensures forall k :: k != "children" ==> Get(e.props, k) == Get(attributes, k)
    ensures Truthy(Get(attributes, "key")) ==> e.key == Get(attributes, "key")
    ensures !Truthy(Get(attributes, "key")) ==> e.key == Null
  {
    var props := Assoc.Put(attributes, "children", Arr(children));
    Assoc.FindPut(attributes, "children", Arr(children), "children");
    Assoc.FindPut(attributes, "children", Arr(children), "key");
    assert forall k :: k != "children" ==> Assoc.Find(props, k) == Assoc.Find(attributes, k) by {
      forall k | k != "children" ensures Assoc.Find(props, k) == Assoc.Find(attributes, k) {
        Assoc.FindPut(attributes, "children", Arr(children), k);
      }
    }
    var key := Get(props, "key");
    Elem(ty, if Truthy(key) then key else Null, props)
  }

  /** An element with a string type instantiates as a DOM component, and
      its key names it among its siblings. */
  lemma CreatedElementIsDom(tag: string, attributes: Props, children: seq<Value>, index: nat)
    ensures VariantOf(CreateElement(Str(tag), attributes, children)) == DomV
    ensures Truthy(Get(attributes, "key")) ==>
      NameOf(CreateElement(Str(tag), attributes, children), index) == JsString(Get(attributes, "key"))
    ensures !Truthy(Get(attributes, "key")) ==>
      NameOf(CreateElement(Str(tag), attributes, children), index) == Base36(index)
  {
  }

  /** A component class type instantiates as a composite component. */
  lemma CreatedElementIsComposite(cls: FnRef, attributes: Props, children: seq<Value>)
    ensures VariantOf(CreateElement(Fn(cls), attributes, children)) == CompositeV
  {
  }
}
