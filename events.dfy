/** The event controller: a registry from (react id, event name) to the
    callback bound by an `on<Event>` prop, and the delegated dispatch that
    walks from the event target's id up through its parents. The native
    listener installation on `document` is not modelled; `Dispatch` is the
    body of the listener. */
module Events {
  import opened Wrappers
  import opened JsValues
  import opened ReactIds

  type Buckets = map<string, map<string, Value>>

  /** `this._map[rootID] || {}` */
  function Bucket(m: Buckets, id: string): map<string, Value> {
    if id in m then m[id] else map[]
  }

  /** `get(this._map, [id, event])`: the stored value, or `undefined`. */
  function Find(m: Buckets, id: string, event: string): Value {
    if id in m && event in m[id] then m[id][event] else Undef
  }

  /** The registry after `setEventListener(id, event, callback)`. */
  function Bind(m: Buckets, id: string, event: string, callback: Value): (r: Buckets)
    ensures Find(r, id, event) == callback
    ensures forall id', e' :: (id' != id || e' != event) ==> Find(r, id', e') == Find(m, id', e')
  {
    m[id := Bucket(m, id)[event := callback]]
  }

  /** The registry after `removeEventListener(id, event)`. */
  function Unbind(m: Buckets, id: string, event: string): (r: Buckets)
    ensures !Truthy(Find(r, id, event))
    ensures forall id', e' :: (id' != id || e' != event) ==> Find(r, id', e') == Find(m, id', e')
  {
    if id in m then m[id := m[id][event := Null]] else m
  }

  /** The registry after `removeAllEventListener(id)`. */
  function Clear(m: Buckets, id: string): (r: Buckets)
    ensures forall e :: Find(r, id, e) == Undef
    ensures forall id', e' :: id' != id ==> Find(r, id', e') == Find(m, id', e')
  {
    m[id := map[]]
  }

  /** The callbacks invoked for `event` when the walk visits `ids`, in
      visiting order: the truthy values registered at each id. */
  function Fired(m: Buckets, ids: seq<string>, event: string): (r: seq<(string, Value)>)
  {
    if ids == [] then []
    else
      var id := ids[|ids| - 1];
      var v := Find(m, id, event);
      Fired(m, ids[..|ids| - 1], event) + (if Truthy(v) then [(id, v)] else [])
  }

  class EventController {
    var buckets: Buckets

    constructor ()
      ensures buckets == map[]
    {
      buckets := map[];
    }

    function Lookup(id: string, event: string): Value
      reads this
    {
      Find(buckets, id, event)
    }

    /** `setEventListener`: registers or overwrites one entry. */
    method SetEventListener(id: string, event: string, callback: Value)
      modifies this
      ensures buckets == Bind(old(buckets), id, event, callback)
    {
      var b := Bucket(buckets, id);
      buckets := buckets[id := b[event := callback]];
    }

    /** `removeEventListener`: clears one entry to `null`; nothing happens
      when the id has no bucket. */
    method RemoveEventListener(id: string, event: string)
      modifies this
      ensures buckets == Unbind(old(buckets), id, event)
    {
      if id in buckets {
        buckets := buckets[id := buckets[id][event := Null]];
      }
    }

    /** `removeAllEventListener`: the id is left with an empty bucket. */
    method RemoveAllEventListener(id: string)
      modifies this
      ensures buckets == Clear(old(buckets), id)
    {
      buckets := buckets[id := map[]];
    }

    /** The listener body for `event`: `targetID` is the target's
      `data-reactid` attribute (nothing for a target without one, such as
      the document). Returns the ids visited and the callbacks invoked,
      in order. */
    method Dispatch(targetID: Option<string>, event: string) returns (visited: seq<string>, fired: seq<(string, Value)>)
      ensures targetID.None? ==> visited == [] && fired == []
      ensures targetID.Some? ==> visited == Chain(targetID.value)
      ensures fired == Fired(buckets, visited, event)
    {
      visited, fired := [], [];
      var cur := if targetID.Some? then targetID.value else "";
      while cur != []
        invariant DispatchInv(buckets, targetID, event, visited, fired, cur)
        decreases |cur|
      {
        var callback := Lookup(cur, event);
        DispatchStep(buckets, targetID, event, visited, fired, cur);
        if Truthy(callback) {
          fired := fired + [(cur, callback)];
        }
        visited := visited + [cur];
        cur := Up(cur);
      }
    }
  }

  /** What the dispatch loop keeps: the ids still to visit complete the
      chain, and the callbacks fired so far are those of the ids visited. */
  predicate DispatchInv(m: Buckets, targetID: Option<string>, event: string,
                        visited: seq<string>, fired: seq<(string, Value)>, cur: string) {
    && (targetID.Some? ==> Chain(targetID.value) == visited + Chain(cur))
    && (targetID.None? ==> cur == [] && visited == [])
    && fired == Fired(m, visited, event)
  }

  lemma DispatchStep(m: Buckets, targetID: Option<string>, event: string,
                     visited: seq<string>, fired: seq<(string, Value)>, cur: string)
    requires DispatchInv(m, targetID, event, visited, fired, cur) && cur != []
    ensures var v := Find(m, cur, event);
      DispatchInv(m, targetID, event, visited + [cur], fired + (if Truthy(v) then [(cur, v)] else []), Up(cur))
  {
    FiredStep(m, visited, cur, event);
    ChainStep(targetID, visited, cur);
  }

  lemma ChainStep(targetID: Option<string>, visited: seq<string>, cur: string)
    requires cur != [] && targetID.Some? && Chain(targetID.value) == visited + Chain(cur)
    ensures Chain(targetID.value) == (visited + [cur]) + Chain(Up(cur))
  {
  }

  lemma FiredStep(m: Buckets, visited: seq<string>, cur: string, event: string)
    ensures Fired(m, visited + [cur], event) ==
      Fired(m, visited, event) + (if Truthy(Find(m, cur, event)) then [(cur, Find(m, cur, event))] else [])
  {
    assert (visited + [cur])[..|visited|] == visited;
  }

  lemma {:induction false} FiredCons(m: Buckets, id: string, rest: seq<string>, event: string)
    ensures Fired(m, [id] + rest, event) ==
      (if Truthy(Find(m, id, event)) then [(id, Find(m, id, event))] else []) + Fired(m, rest, event)
    decreases |rest|
  {
    if rest == [] {
      assert [id] + rest == [id];
      assert ([id] + rest)[..0] == [];
    } else {
      var init := rest[..|rest| - 1];
      assert ([id] + rest)[..|rest|] == [id] + init;
      FiredCons(m, id, init, event);
    }
  }

  /** Bubbling: when both a child id and its parent have a callback for
      the event, the walk from the child invokes the child's first and the
      parent's next. */
  lemma BubblesToParent(m: Buckets, parent: string, split: Sep, index: nat, event: string)
    requires parent != []
    requires Truthy(Find(m, parent, event)) && Truthy(Find(m, ChildID(parent, split, index), event))
    ensures var child := ChildID(parent, split, index);
      var f := Fired(m, Chain(child), event);
      |f| >= 2 && f[..2] == [(child, Find(m, child, event)), (parent, Find(m, parent, event))]
  {
    var child := ChildID(parent, split, index);
    ChildIDParent(parent, split, index);
    ChainOfParent(child, parent);
    var above := Chain(Up(parent));
    assert Chain(parent) == [parent] + above;
    var vc, vp := Find(m, child, event), Find(m, parent, event);
    FiredCons(m, parent, above, event);
    var tail := Fired(m, Chain(parent), event);
    assert tail == [(parent, vp)] + Fired(m, above, event);
    FiredCons(m, child, Chain(parent), event);
    assert Fired(m, Chain(child), event) == [(child, vc)] + tail;
  }
}
