/** The older string renderer: `TReactElement` trees built by its own
    `createElement` and serialised to markup by `mount`. */
module LegacyRenderer {
  import opened Wrappers
  import opened JsValues

  const DOM: string := "DOM"

  /** A child as `mount` sees it: a string is emitted verbatim, an element
      is mounted, and anything else (a number, `null`, `undefined`) has no
      `mount` method, so calling it throws. */
  datatype Child = TextChild(text: string) | NodeChild(node: TElement) | OtherChild

  /** `TReactElement`. A missing `children` list is read as an empty one
      (`this.children || []`), so the model stores the list itself. */
  datatype TElement = TElement(nodeType: string, nodeOrigin: string, children: seq<Child>)

  /** What `mount` produces: markup, `undefined` (not a DOM node), or a
      thrown TypeError. */
  datatype Mounted = Html(html: string) | Undefined | Throws

  function Mount(e: TElement): (r: Mounted)
    ensures e.nodeType != DOM <==> r == Undefined
    decreases e, 1
  {
    if e.nodeType == DOM then
      match MountChildren(e.children)
      case Html(h) => Html("<" + e.nodeOrigin + ">" + h + "</" + e.nodeOrigin + ">")
      case _ => Throws
    else Undefined
  }

  /** `children.map(...).join('')`: `join` writes `undefined` as the empty
      string; a throwing child aborts the whole mount. */
  function MountChildren(cs: seq<Child>): (r: Mounted)
    ensures r != Undefined
    decreases cs, 1
  {
    if cs == [] then Html("")
    else
      match (MountChild(cs[0]), MountChildren(cs[1..]))
      case (Html(a), Html(b)) => Html(a + b)
      case _ => Throws
  }

  /** One child's contribution to `join('')`. */
  function MountChild(c: Child): (r: Mounted)
    ensures r != Undefined
    decreases c, 0
  {
    match c
    case TextChild(t) => Html(t)
    case NodeChild(n) => (match Mount(n) case Undefined => Html("") case m => m)
    case OtherChild => Throws
  }

  /** `createElement(type, attrs, ...children)`: a DOM node for a string
      type (attributes are ignored), nothing otherwise. */
  function CreateElement(nodeType: Value, attrs: Value, children: seq<Child>): (r: Option<TElement>)
    ensures nodeType.Str? <==> r.Some?
    ensures r.Some? ==> r.value == TElement(DOM, nodeType.s, children)
  {
    if nodeType.Str? then Some(TElement(DOM, nodeType.s, children)) else None
  }

  /** Serialising a concatenation of children concatenates their markup. */
  lemma {:induction false} MountChildrenAppend(a: seq<Child>, b: seq<Child>)
    ensures MountChildren(a + b) ==
      match (MountChildren(a), MountChildren(b))
      case (Html(x), Html(y)) => Html(x + y)
      case _ => Throws
    decreases a
  {
    if a == [] {
      assert a + b == b;
    } else {
      assert (a + b)[0] == a[0];
      assert (a + b)[1..] == a[1..] + b;
      MountChildrenAppend(a[1..], b);
      if MountChildren(a[1..]).Html? && MountChildren(b).Html? {
        var x := MountChildren(a[1..]).html;
        var y := MountChildren(b).html;
        assert forall h: string :: h + (x + y) == (h + x) + y;
      }
    }
  }

  /** Only strings and elements can be children of a successful mount. */
  lemma {:induction false} MountChildrenThrows(cs: seq<Child>, i: nat)
    requires i < |cs| && cs[i].OtherChild?
    ensures MountChildren(cs) == Throws
    decreases cs
  {
    if i > 0 {
      MountChildrenThrows(cs[1..], i - 1);
    }
  }

  /** A DOM node without children mounts as an empty tag. */
  lemma EmptyTag(tag: string)
    ensures Mount(TElement(DOM, tag, [])) == Html("<" + tag + "></" + tag + ">")
  {
  }

  /** `mount(createElement('div', null, 'test'))` is a div whose text is "test". */
  lemma RenderDivTest()
    ensures CreateElement(Str("div"), Null, [TextChild("test")]).Some?
    ensures Mount(CreateElement(Str("div"), Null, [TextChild("test")]).value) == Html("<div>test</div>")
  {
    assert MountChildren([TextChild("test")]) == Html("test");
  }

  /** A nested element node that is not a DOM node contributes nothing. */
  lemma NonDomChildIsBlank(tag: string, inner: TElement)
    requires inner.nodeType != DOM
    ensures Mount(TElement(DOM, tag, [NodeChild(inner)])) == Html("<" + tag + "></" + tag + ">")
  {
    assert MountChildren([NodeChild(inner)]) == Html("");
  }
}
