# react-tiny, modelled in Dafny

react-tiny is a small virtual-DOM library. This project models its core:

- **React ids.** Every mounted node gets a `data-reactid` string, such as `0.1:2.0`: the root index, then one `.index` (DOM child) or `:index` (list item) segment per level. There are two helpers: `reactIDParent` strips the last segment, and `idWithNewIndex` rewrites the trailing digits. Ids are modelled both as strings and as structured paths (`ReactIds.Format`).
- **Prop rules.** `getEventName` turns an `onXxx` prop into an event name. `propKeyMap` and the two copies of `setProp` decide what writing a prop does. `setProp` is modelled as a function returning an action.
- **The event controller.** A registry from (id, event) to callback, mutated in place by `setEventListener`, `removeEventListener` and `removeAllEventListener`. Delegated dispatch walks from the target's id up through its parents. In the model this is the class `Events.EventController`.
- **The reconciler.** `instantiateReactComponent` picks one of five component variants: Empty, Text, DOM, List or Composite. `mountComponent` produces markup and registers events. `receiveComponent` updates a component in place. For DOM and list components that means:
  - `_updateProps` decides per prop;
  - `_generateNextChildren` decides which previous instances are reused;
  - `_updateChildren` computes the INSERT/REMOVE/MOVE diff list and clears the listeners of removed children.

  A composite component runs `shouldComponentUpdate` and `render`, then either receives the new rendered element in place or replaces its node. `setState` is a receive with no element.
- **The older string renderer** (`src/index.js`). It has its own `createElement` and a recursive `mount` that serialises a tree to `<tag>…</tag>`.

How things are represented:

- **Components are values.** A component carries `uid`, its object identity: "the same instance" is "the same uid". The class `Reconciliation.Reconciler` hands out uids. It also holds the shared `EventController` and the user code.
- **User code is a parameter.** This means a component class's constructor (its initial state), its `render` and its `shouldComponentUpdate`.
- **JavaScript objects used as dictionaries** (props, the name-to-component maps) are insertion-ordered association sequences (module `Assoc`).
- **lodash `forEach` over props** follows lodash's array-like test (`JsValues.ForEachEntries`). A props object whose `length` is a non-negative safe integer is walked by index: `props["0"]`, `props["1"]`, … below `length`, under the decimal index names, and none of its own keys. Any other props object is walked by its own keys in order. The name-to-component maps never count as array-like, because their values are components, never numbers.
- **The DOM is not modelled.** A mount returns its markup. An update returns the DOM patches it would apply, in order. The diff entries are data (`Diffing.Diff`), and their shapes are specified by the plan function `Diffing.Plan`.
- **The recursion has a bound.** The mutual recursion between mounting, receiving and rendering is bounded by the size of the element mounted or received. Composite renders are bounded by a `fuel` count; running out gives `OutOfFuel`.

Module layout:

| file | module | source |
|---|---|---|
| wrappers.dfy | `Wrappers` | `Option` / `Result` |
| assoc.dfy | `Assoc` | JavaScript objects as ordered maps |
| strings.dfy | `Strings` | digits, `toString(10)` / `toString(36)`, ASCII lower-casing |
| ids.dfy | `ReactIds` | `reactIDParent`, `idWithNewIndex`, child ids, the dispatch chain |
| values.dfy | `JsValues` | JavaScript values, truthiness, `String`, `===`, `get` |
| props.dfy | `PropRules` | `getEventName`, `propKeyMap`, `setProp` |
| events.dfy | `Events` | the event controller |
| components.dfy | `Components` | variants, instantiation, child names, `createElement` |
| diffplan.dfy | `Diffing` | the diff plan of `_updateChildren` |
| propupdate.dfy | `PropUpdate` | mount-time prop loop, `_updateProps` plan |
| reconciler.dfy | `Reconciliation` | mount, receive, `setState` |
| renderer.dfy | `LegacyRenderer` | `src/index.js` |

## Model

| member | source | states |
|---|---|---|
| Strings.DecimalInjective | src/react-tiny.js:229 | distinct child positions render to distinct decimal id segments |
| Strings.Base36Injective | src/react-tiny.js:300 | distinct positions give distinct `index.toString(36)` names |
| Strings.Base36SmallIsDecimal | src/react-tiny.js:311 | below ten, a position's radix-36 name equals its decimal rendering |
| Strings.Base36Ten | src/react-tiny.js:311 | position 10 is named `"a"`, which is not a digit string |
| Strings.Lower | src/react-tiny.js:16 | the ASCII part of `toLocaleLowerCase`: same length, and each character lowered in place |
| ReactIds.TrailingDigits | src/utils.js:24 | the length of the `/\d+$/` match: what it covers is all digits, and the character before it is not a digit |
| ReactIds.ReactIDParent | src/utils.js:27-32 | a parent, when there is one, is a strict prefix of the id followed by one separator and a non-empty digit run |
| ReactIds.ParentOfSuffix | src/react-tiny.js:38-43 | `reactIDParent(p + "." + n)` and `reactIDParent(p + ":" + n)` are `p` for every digit string `n` |
| ReactIds.RootHasNoParent | src/react-tiny.js:38-43 | a root id such as `"0"` has no parent |
| ReactIds.IdWithNewIndexOfSuffix | src/utils.js:23-25 | the part before the trailing digit run is kept, and the run is replaced by the new index |
| ReactIds.IdWithNewIndexNoDigits | src/react-tiny.js:34-36 | an id without trailing digits is returned unchanged |
| ReactIds.ChildIDParent | src/react-tiny.js:229 | the parent of the id `parent + split + index` is `parent` |
| ReactIds.ChildIDSibling | src/react-tiny.js:376 | rewriting a child id's index gives the id of the sibling at that index |
| ReactIds.FormatParent | src/utils.js:27-32 | on structured paths: the parent of a formatted path is the formatted path minus its last segment; a bare root has none |
| ReactIds.Up | src/event.js:20 | each step of the dispatch walk gives a strictly shorter id |
| ReactIds.ChainSteps | src/event.js:16-21 | each id the walk visits is the parent of the one before it and strictly shorter, so the walk stops |
| ReactIds.ChainOfPath | src/react-tiny.js:72-77 | from a structured id, the walk visits one id per segment plus the root: it starts at the id and ends at the root |
| ReactIds.ChainAncestor | src/event.js:16-21 | the i-th id the walk from a structured id visits is the formatted ancestor without the path's last i segments |
| Assoc.FindPut | src/react-tiny.js:300 | after `memo[name] = component`, looking up `name` gives the component and every other key keeps its value |
| Assoc.PutKeys | src/react-tiny.js:300 | assigning to an existing key keeps the keys in place; a new key goes last; keys stay unique |
| Assoc.PutAllFind | src/react-tiny.js:297-302 | after assigning a sequence of entries in turn, each key holds the value of the last entry assigned to it |
| JsValues.Get | src/react-tiny.js:279 | the direct lookup `props[k]` that `get(props, k)` performs for a key without path syntax or one the object has: `undefined` for an absent key, otherwise the value of the key's first entry |
| PropRules.GetEventName | src/utils.js:3-7 | a name exactly for keys matching `/^on[A-Za-z]+/`; the name is the rest of the key, lower-cased |
| PropRules.EventNameOfOn | src/react-tiny.js:14-18 | `"on"` followed by a letter gives the lower-cased remainder |
| PropRules.EventNameExamples | src/utils.js:3-7 | `onClick` gives `click` and `onInput` gives `input`; `children`, `on`, `on1` and `className` give nothing |
| PropRules.EventNameIs | src/utils.js:3-7 | `"on"` followed by a letter and more gives the name that is the remainder with each character lowered |
| PropRules.PropKeyMap | src/utils.js:42-47 | `className` maps to `class`; every other key that is not an inherited member of an object literal maps to itself |
| PropRules.SetProp | src/utils.js:49-57 | `children` is a no-op; `value` assigns the value property; any other key sets the attribute named by the mapped key |
| PropRules.TinySetProp | src/react-tiny.js:53-60 | the same decision without the key map: the attribute is named by the key itself |
| PropRules.SetPropCopiesAgree | src/react-tiny.js:53-60 | the two copies of `setProp` agree on every key except `className` |
| Events.Bind | src/event.js:26-29 | after setting, the lookup of (id, event) is the callback and every other entry is unchanged |
| Events.Unbind | src/event.js:31-35 | after removing, (id, event) holds no truthy callback and every other entry is unchanged |
| Events.Clear | src/event.js:37-39 | after clearing, id has no callbacks and other ids are unchanged |
| Events.EventController.constructor | src/event.js:9 | the registry starts empty |
| Events.EventController.SetEventListener | src/react-tiny.js:82-85 | the registry becomes `Bind` of the old registry |
| Events.EventController.RemoveEventListener | src/react-tiny.js:87-91 | the registry becomes `Unbind` of the old one; that is a no-op when the id has no bucket |
| Events.EventController.RemoveAllEventListener | src/react-tiny.js:93-95 | the registry becomes `Clear` of the old one |
| Events.EventController.Dispatch | src/event.js:14-21 | a target without an id visits nothing; otherwise the loop visits `Chain(target)` in order and fires the truthy callbacks found there, in that order |
| Events.DispatchStep | src/event.js:16-21 | one step of the walk keeps the loop's invariant: the visited ids followed by the rest of the walk are the whole chain, and the fired callbacks are those of the visited ids |
| Events.BubblesToParent | src/react-tiny.js:72-77 | with callbacks on a child and its parent, the child's fires first and the parent's next |
| Components.KindFor | src/react-tiny.js:548-565 | a freshly instantiated component has the variant the dispatch selects |
| Components.InstantiationPrecedence | src/react-tiny.js:548-565 | the dispatch order: falsy values (including 0 and "") are Empty; other strings and numbers are Text; arrays are List; elements with a string type are DOM; the rest are Composite |
| Components.CongruentReceives | src/react-tiny.js:270-272 | `shouldReceive` gives the same answer on two states of one instance that agree on variant and type |
| Components.UnkeyedNamesDistinct | src/react-tiny.js:300 | unkeyed children at different positions get different names |
| Components.ChildNames | src/react-tiny.js:306-329 | the key order of the next-children map: at most one name per item, and every item's name |
| Components.PrevChildrenKeys | src/react-tiny.js:297-304 | `_generatePrevChildren` has unique names, is no longer than the list, and holds every child's name |
| Components.PrevChildrenFind | src/react-tiny.js:297-304 | each name maps to the last child carrying it |
| Components.CreateElement | src/react-tiny.js:574-577 | the element has the given type, its `children` prop is the children, every other prop is the attribute, and its key is the truthy `key` attribute, else null |
| Components.CreatedElementIsDom | src/react-tiny.js:127-142 | an element with a string type instantiates as DOM; it is named by its truthy key, else by its position in base 36 |
| Components.CreatedElementIsComposite | src/react-tiny.js:574-577 | an element whose type is a class instantiates as Composite |
| Diffing.KeyedInsertIsolated | src/react-tiny.js:377 | a child inserted under a key that does not end in a digit is mounted at an id with no parent, so its events do not bubble |
| Diffing.EntryCounts | src/react-tiny.js:346-379 | per next child: one INSERT if it is fresh, one MOVE if it is reused at a new position, and no other INSERT or MOVE |
| Diffing.EntryRemoves | src/react-tiny.js:357-370 | per next child: one REMOVE exactly when it is fresh and its namesake is in the DOM |
| Diffing.PlanCounts | src/react-tiny.js:344-398 | the whole diff has one INSERT per fresh next child and one MOVE per shifted reused child |
| Diffing.PlanRemoves | src/react-tiny.js:344-398 | the whole diff has one REMOVE per replaced or dropped previous child that is in the DOM |
| Diffing.DroppedCounts | src/react-tiny.js:385-398 | the second loop of the diff emits only REMOVEs, exactly one per previous child in the DOM whose name is gone |
| Diffing.NextCounts | src/react-tiny.js:344-382 | the first loop emits one INSERT per fresh child and one MOVE per shifted reused child |
| Diffing.NextRemoves | src/react-tiny.js:344-382 | the first loop emits one REMOVE per replaced namesake in the DOM |
| Diffing.RemovesArePrevious | src/react-tiny.js:361-397 | every REMOVE names a previous child that is not Empty |
| Diffing.DroppedAreRemoved | src/react-tiny.js:386-398 | every previous non-Empty child whose name is gone gets a REMOVE |
| Diffing.FreshInserted | src/react-tiny.js:372-378 | a fresh child at position j is inserted before the id of position j + 1 |
| Diffing.EntryInPlanNext | src/react-tiny.js:344-382 | every op planned for one next child is an op of the first diff loop |
| Diffing.KeptEntryMoves | src/react-tiny.js:346-355 | for a reused child at a new position j, the corrected entry is exactly one MOVE from its root id to that id with index j |
| Diffing.KeptMoved | src/react-tiny.js:346-355 | a reused child at a new position j is moved from its root id to that id with index j |
| Diffing.PlanIdle | src/react-tiny.js:344-398 | diffing children against the very same children, in place, yields no operations |
| Diffing.PlanNextAsWritten | src/react-tiny.js:347-355 | the first diff loop as written: a MOVE entry throws |
| Diffing.AsWrittenThrowsIffMove | src/react-tiny.js:347-355 | as written, the loop throws exactly when the intended one would move a child, and agrees with it otherwise |
| Diffing.SwapThrowsAsWritten | src/react-tiny.js:347-355 | swapping two keyed children throws as written; the intended plan moves both |
| PropUpdate.MountBindingsFrame | src/react-tiny.js:249-256 | the mount-time prop loop registers events only on the component's own id |
| PropUpdate.MountBindingsLastWins | src/react-tiny.js:250-253 | the callback registered for an event is the value of the last prop that names it |
| PropUpdate.MountBindingsUnnamed | src/react-tiny.js:250-253 | an event no prop names keeps its callback |
| PropUpdate.MountExample | src/react-tiny.js:247-258 | `{id: "a", onClick: f}`, walked by its own keys, writes `id=a ` and binds `click` to `f` |
| PropUpdate.IndexNameIsPlain | src/react-tiny.js:249-253 | an index name that `forEach` passes for an array-like object is neither an event prop nor `children` |
| PropUpdate.ArrayLikeMount | src/react-tiny.js:249-256 | mounting an array-like props object writes `i=props[i] ` for each index below `length`, in order, and registers no event, whatever its own keys are |
| PropUpdate.ArrayLikeExample | src/react-tiny.js:249-256 | `{length: 1, id: 'x', onClick: f}` writes `0=undefined ` and binds nothing |
| PropUpdate.ArrayLikeUpdate | src/react-tiny.js:276-293 | an update from array-like previous props only writes attributes and leaves the registry unchanged |
| PropUpdate.StepFor | src/react-tiny.js:276-293 | each previous prop gives at most one step, and that step is on its own key |
| PropUpdate.PropPlanPerKey | src/react-tiny.js:274-295 | `_updateProps` acts only on keys of the previous props, once each, as `StepFor` decides; a key only the next props have is never applied |
| PropUpdate.PropPlanIdle | src/react-tiny.js:276-287 | updating to the same props does nothing when every prop other than `children` is defined and not an array or element |
| PropUpdate.PropPlanSettled | src/react-tiny.js:276-287 | visited entries whose next values are the same defined, self-identical values produce no step |
| PropUpdate.UpdateIdle | src/react-tiny.js:276-287 | `_updateProps(props, props)` does nothing when every value `forEach` visits, other than `children`, is defined and not an array or element: the own props of a plain object, the values at the indices of an array-like one |
| PropUpdate.ApplyStepsFrame | src/react-tiny.js:283-289 | updating props touches only the component's own event bucket |
| PropUpdate.UndefinedPropRemovedAgain | src/react-tiny.js:280-286 | a prop that is `undefined` before and after is cleared again by every update |
| PropUpdate.UnbindSticks | src/react-tiny.js:282-283 | a removed event prop leaves no callback unless a later step binds that event again |
| LegacyRenderer.Mount | src/index.js:20-35 | a node that is not a DOM node mounts to nothing (`undefined`), and only such a node does |
| LegacyRenderer.MountChildren | src/index.js:23-32 | the joined children are never `undefined` |
| LegacyRenderer.MountChild | src/index.js:24-31 | no child contributes `undefined` |
| LegacyRenderer.CreateElement | src/index.js:39-49 | a string type builds a DOM node with that origin and the children, ignoring attributes; any other type gives nothing |
| LegacyRenderer.MountChildrenAppend | src/index.js:24-32 | the markup of concatenated children is the concatenation of their markups |
| LegacyRenderer.MountChildrenThrows | src/index.js:30 | a child that is neither a string nor a node makes the mount throw |
| LegacyRenderer.EmptyTag | src/index.js:21-33 | a DOM node without children mounts as `<tag></tag>` |
| LegacyRenderer.NonDomChildIsBlank | src/index.js:30-32 | a nested node that is not a DOM node contributes nothing |
| LegacyRenderer.RenderDivTest | src/test/render-spec.js:5-14 | `createElement('div', null, 'test')` mounts as `<div>test</div>` |
| Reconciliation.TextReceiveAsWritten | src/react-tiny.js:183-190 | the text receive as written: a patch exactly when the text differs, and the component unchanged |
| Reconciliation.TextRevertLostAsWritten | src/react-tiny.js:183-190 | as written, changing a text to "b" and back to "a" leaves "b" displayed; the corrected receive shows "a" |
| Reconciliation.TextReceive | src/react-tiny.js:183-190 | the corrected receive: the component's text becomes the new text, with one `innerText` patch exactly when it differs |
| Reconciliation.TextShowsLast | src/react-tiny.js:183-190 | after any series of receives, the displayed text and the component's text are the last value received |
| Reconciliation.ListOwnerID | src/react-tiny.js:444-453 | the loop of a list's `domElement` getter returns the nearest ancestor id ending in `.digits` |
| Reconciliation.ListOwnerExamples | src/react-tiny.js:447-450 | a list inside a DOM child finds that child; a list inside a list finds what the outer list finds |
| Reconciliation.ListUnderRootHasNoOwner | src/react-tiny.js:447-451 | a list directly under a root id finds no element |
| Reconciliation.MountedNames | src/react-tiny.js:235 | the map `_mountChildren` stores has unique names and every child's name |
| Reconciliation.Reconciler.constructor | src/react-tiny.js:97 | no component exists yet, and the registry is empty |
| Reconciliation.Reconciler.Instantiate | src/react-tiny.js:548-565 | a new, unmounted component of the variant the value selects, with a new identity |
| Reconciliation.Reconciler.MountProps | src/react-tiny.js:249-256 | the attribute text and the registry are those of the prop-by-prop plan `MountAttrs` / `MountBindings` over the entries lodash `forEach` visits |
| Reconciliation.Reconciler.Mount | src/react-tiny.js:174-202 | Empty mounts to "" and changes nothing; Text mounts to its span; DOM and Composite throw on a wrongly typed element; a mount keeps the component's identity, index, variant and element and gives it its id; the registry changes only under that id |
| Reconciliation.Reconciler.MountDom | src/react-tiny.js:239-268 | the markup opens with the tag, id and attributes and closes with the tag; the children map names every child; the component's own bucket is the prop loop's |
| Reconciliation.Reconciler.MountList | src/react-tiny.js:454-458 | the list's children are mounted with `:` and the map names every item |
| Reconciliation.Reconciler.MountComposite | src/react-tiny.js:482-505 | the instance is constructed from the element's class and props; the rendered element is mounted at the same id |
| Reconciliation.Reconciler.MountChildren | src/react-tiny.js:224-237 | child k is mounted at `parent + split + k` with `_mountIndex` k, as a new component of the item's variant, with increasing identities; the stored map is `_generatePrevChildren` of the mounted list |
| Reconciliation.Reconciler.UpdateProps | src/react-tiny.js:274-295 | the DOM writes and the new registry are exactly those of the plan `PropPlan` over the entries lodash `forEach` visits in the previous props |
| Reconciliation.Reconciler.GenerateNextChildren | src/react-tiny.js:306-329 | the next map has unique names, exactly the items' names in first-occurrence order; each entry is the previous child of that name, received, when that child accepts the name's last item, and otherwise a fresh instance for that item |
| Reconciliation.Reconciler.DiffNext | src/react-tiny.js:344-382 | the diffs of the first loop have the shapes of `PlanNext`, and each next child ends at its sequential position |
| Reconciliation.Reconciler.DiffEntry | src/react-tiny.js:346-381 | one next child: its diffs have the shapes of `PlanEntry`, and it ends at its position |
| Reconciliation.Reconciler.InsertEntry | src/react-tiny.js:357-379 | a fresh child: REMOVE of its namesake when that is not Empty, then INSERT at the sibling id after position `j`; the registry is the namesake's cleared one except below `parentID + "." + name`; the INSERT's html is `""` for an Empty child and the `<span>` markup for a Text child |
| Reconciliation.Reconciler.MountReplacing | src/react-tiny.js:361-377 | the namesake's REMOVE when it exists and is not Empty, then the new child mounted at `parentID + "." + name`, keeping its identity, index, variant and element; the registry changes only below that id once the namesake's listeners are cleared; an Empty child's markup is `""` and a Text child's its `<span>` |
| Reconciliation.Reconciler.RemoveReplaced | src/react-tiny.js:361-370 | a REMOVE of the previous namesake exactly when it exists and is not Empty, and then its bucket is cleared; otherwise the registry is unchanged |
| Reconciliation.Reconciler.DiffDropped | src/react-tiny.js:385-398 | the second loop has the shapes of `PlanDropped`, and every removed child's listeners are cleared |
| Reconciliation.Reconciler.DropOne | src/react-tiny.js:389-397 | a previous child whose name is gone: one REMOVE and its bucket cleared, unless it is Empty |
| Reconciliation.Reconciler.DiffChildren | src/react-tiny.js:344-398 | the diff list has the shapes of `Plan`, every entry names the parent, each next child ends with `_mountIndex` equal to its position, and every dropped child's listeners are cleared |
| Reconciliation.Reconciler.UpdateChildren | src/react-tiny.js:331-422 | the new children map holds exactly the items' names; the diffs have the shapes of `Plan`; the last patch applies them to the parent node; a child is the previous instance exactly when a previous child of its name accepted its element |
| Reconciliation.ReusedIffDecided | src/react-tiny.js:312-326 | a next entry is the identical previous instance if and only if a previous child has that name and its `shouldReceive` accepts the element |
| Reconciliation.Reconciler.Receive | src/react-tiny.js:183-190 | Text receives as `TextReceive`; DOM and List components take the new element; a Composite keeps its element; the result is a state of the same instance |
| Reconciliation.Reconciler.ReceiveDom | src/react-tiny.js:424-437 | the prop writes come first; the children are diffed with `.`: the diff has the shapes of `Plan(rootID, ".", children, next)` and the last patch applies it to the component's own element; the children map holds exactly the new children's names; the element becomes `next` |
| Reconciliation.Reconciler.ReceiveList | src/react-tiny.js:464-469 | the items are diffed with `:`: the diff has the shapes of `Plan(rootID, ":", children, next)` and the last patch applies it to the node the list's owner id finds; the children map holds exactly the items' names; the element becomes `next` |
| Reconciliation.Reconciler.ReceiveComposite | src/react-tiny.js:511-541 | an unmounted component fails. Otherwise the instance gets the new props (from `next`, else the element) and the state (if truthy, else the old state), both before `shouldComponentUpdate`. A `false` answer returns with no patch before `render`. Otherwise the rendered element is received in place, or a new component is mounted at the same id and replaces the node |
| Reconciliation.Reconciler.SetState | src/react-tiny.js:543-545 | `setState(s)` receives with no element: the props are reread from the component's element, and the state is `s` if it is truthy, else the old state |

## Left out

- The real DOM is not modelled: element lookup by id prefix, `insertChildAt`, `nodeFromHTML`, the `domElement` getters, the loop that applies the diff entries, and `replaceWith`. Updates return DOM patches as data. Only the id the list getter searches for is computed (`ListOwnerID`).
- Listener installation is left out: the controller constructor enumerates `window`'s `on*` names and installs one document listener per event. `Dispatch` models the body of one such listener.
- Callbacks are opaque tokens. `Dispatch` does not model a callback mutating the registry while the walk is under way.
- Events.EventController.Dispatch: a truthy callback that is not a function (a prop such as `onClick="x"`) makes `callback(e)` throw a TypeError, which ends the walk; the model lists it as fired and continues.
- The render entry points are left out: `render` in `src/react-tiny.js` and `src/index.js`, and `src/index.ts`. They write markup into a container.
- `src/component.js` and the user `Component` base class are left out. They only forward `setState` and define empty hooks.
- Lifecycle hooks other than `shouldComponentUpdate` and `render` are left out (`componentWillMount`, `componentWillUpdate`, `componentDidUpdate`): they have no effect the engine observes. `render` and `shouldComponentUpdate` are functions of (class, props, state) given as parameters.
- User code may return any value from `shouldComponentUpdate`. Only the value `false` stops the update, as `=== false` does.
- lodash `merge` is simplified: `createElement` props are the attributes plus `children`, with no deep merge.
- Numbers are integers only; floating point and `NaN` are not modelled.
- `toLocaleLowerCase` is modelled on ASCII letters only.
- JavaScript enumerates integer-like object keys first, in numeric order. Every ordered map here keeps plain insertion order. So unkeyed children named `"10"`, `"a"` etc. are ordered as inserted.
- Props and child maps carry no inherited (prototype) keys.
- JsValues.Get: lodash `get(object, key)` reads a key that the object lacks as a deep path when the key contains `.` or a bracketed segment (`a.0`, `a[0]`). With previous props `{"a.0": 1}` and next props `{a: [5]}`, the source's `_updateProps` calls `setProp(el, "a.0", 5)`. The model finds `undefined` for `a.0` and plans `setProp(el, "a.0", null)`. lodash's path grammar and property reads through arrays, strings and functions are outside this value model. Only `_updateProps` (`src/react-tiny.js:279`) passes a user key to `get`; the other calls use `children`, `key` or `type`, for which the model is exact.
- PropRules.PropKeyMap: the lookup `table[propKey]` also finds the members every object literal inherits (`constructor`, `toString`, `hasOwnProperty`, …), and for those keys the source returns the inherited function rather than the key; the model has no inherited keys and maps them to themselves.
- `===` on arrays and elements is reference equality in JavaScript. The model has no references, so it treats two arrays or elements as never identical (`JsValues.StrictEquals`). A prop holding the very same array object in both the old and the new props is therefore re-applied in the model, though not in the source.
- A function's source text, which `String(f)` produces, is not modelled.
- Composite renders are bounded by a `fuel` count: a render nested more deeply than the bound fails with `OutOfFuel` instead of proceeding.
- Children that are not an array are treated as no children.
- Reconciliation.Reconciler.MountDom: states the opening and closing markup and the child names, not the children's markup in between.
- Reconciliation.Reconciler.MountDom: `document.createElement` throws for a tag name that is not a valid element name (the empty string, `"1a"`, `"a b"`); the model accepts any string tag and returns markup.
- Reconciliation.Reconciler.MountList: states the child names, not the children's markup.
- Reconciliation.Reconciler.MountComposite: states the instance and that the rendered component is mounted, not its markup.
- Reconciliation.Reconciler.GenerateNextChildren: does not state the patches of the children it receives, nor the received state of a reused entry: that entry is stated to be the same instance as its namesake (same uid, congruent), not to equal the result of its receive.
- Reconciliation.Reconciler.InsertEntry: states the INSERT's html for Empty and Text children only; for DOM, list and composite children it is the mount markup, which the mount members state only in part.
- Reconciliation.Reconciler.UpdateChildren: states the diff shapes and the final patch, not the patches of received children that precede it.
- Reconciliation.Reconciler.ReceiveComposite: in the receive-in-place branch it states that the rendered component stays the same instance, not its patches.
- Reconciliation.Reconciler.SetState: components are values here, not shared objects. In the source, a composite's `setState` updates in place the object that both its parent's `_childrenComponent` and any enclosing composite's `_renderedComponent` hold. In the model, `SetState` and `Receive` return the new component, and the caller must store it back; nothing does, so a later re-render of the parent diffs the stale component. Aliasing among component objects is not modelled.

Some behaviours of the code are modelled as written and are worth knowing:

- A child inserted by a diff is mounted at `parentID + "." + name` (`src/react-tiny.js:377`), unlike a first mount, which uses `parentID + split + index` (`:229`). So an inserted list item gets `.` instead of `:`. A keyed child gets its key as its last segment. When that key does not end in a digit, the id has no parent, and events on it do not bubble (`Diffing.KeyedInsertIsolated`).
- A composite component's `_element` is never updated by a receive. So `setState` rereads the props of the element the component was mounted with (`Reconciliation.Reconciler.SetState`).
- Removing a child clears only the listeners registered under the child's own id. Listeners of its descendants stay in the registry.
- The second diff loop clears the listeners of dropped children (`src/react-tiny.js:395`) after the first loop has mounted the fresh ones. A fresh child mounted at a dropped child's id therefore loses its listeners. Example: previous children `A` and `B` (key `z`) at `0.0` and `0.1`; next children `A` and an unkeyed `C` with `onClick`. `C` is named `1` and mounted at `0.1`, and then dropping `z` clears `0.1`. The contract of `Reconciliation.Reconciler.DiffChildren` states exactly this: every dropped child's id is cleared in the final registry.
- A list directly under a root id has no ancestor ending in `.digits`, so its node getter looks up the prefix `undefined` and finds no element (`Reconciliation.ListUnderRootHasNoOwner`). Applying any diff entry to that missing parent node throws a TypeError at `parentNode.removeChild` or in `insertChildAt` (`src/react-tiny.js:411-418`); an update with no diff entries does not throw. Applying patches is not modelled.
- The reconciler calls the `setProp` of `src/react-tiny.js`, which does not map `className` to `class`. The mapping in `src/utils.js` is modelled separately (`PropRules.SetPropCopiesAgree`).
- When two next children share a name, the map keeps the position of the first and the component of the last. The reuse decision is made on the last (`Reconciliation.LastNamed`).

## Findings

| source | as written | input that shows it | evidently intended | confidence | as-written member | corrected member |
|---|---|---|---|---|---|---|
| src/react-tiny.js:347-355 | a MOVE entry reads `prevChild._mountId` (never set) and calls `idWithNewIndex(nextIndex)` with a number, whose `replace` throws a TypeError | swapping two keyed children `x`, `y` to `y`, `x` | move the reused child from its root id to the id with its new index | not executed | Diffing.AsWrittenThrowsIffMove | Diffing.KeptMoved |
| src/react-tiny.js:183-190 | the new text is stored in `_text`, which nothing reads, so `_element` keeps the mounted text | receiving "b" and then "a" on a text mounted as "a": the second receive sees no change and leaves "b" displayed | record the new text in `_element` | not executed | Reconciliation.TextRevertLostAsWritten | Reconciliation.TextShowsLast |

The rest of the model uses the corrected definitions: `Diffing.Plan` for the diff, and `Reconciliation.TextReceive` inside `Reconciliation.Reconciler.Receive`. The written versions are `Diffing.PlanNextAsWritten` and `Reconciliation.TextReceiveAsWritten`.
