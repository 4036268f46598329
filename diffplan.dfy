/** The child diff of `_updateChildren`, as a plan of operations computed
    from the previous and next children maps. A next child that is the
    same instance as the previous child of its name is kept (and moved if
    its position changed); any other next child is inserted, replacing
    the previous child of its name, if there was one; a previous child
    whose name is gone is removed. Empty children are never in the DOM,
    so they are never removed. */
module Diffing {
  import opened Wrappers
  import opened Strings
  import opened ReactIds
  import opened Components
  import opened JsValues
  import Assoc

  /** The shape of one diff entry (without the inserted markup). */
  datatype Op = InsertOp(toID: string) | RemoveOp(fromID: string) | MoveOp(fromID: string, toID: string)

  /** A diff entry: `{type, parentID, fromID, toID, html}`. */
  datatype Diff =
    | Insert(parentID: string, toID: string, html: string)
    | Remove(parentID: string, fromID: string)
    | Move(parentID: string, fromID: string, toID: string)

  function Shape(d: Diff): Op {
    match d
    case Insert(_, t, _) => InsertOp(t)
    case Remove(_, f) => RemoveOp(f)
    case Move(_, f, t) => MoveOp(f, t)
  }

  function Shapes(ds: seq<Diff>): (ops: seq<Op>)
    ensures |ops| == |ds|
    ensures forall i :: 0 <= i < |ds| ==> ops[i] == Shape(ds[i])
  {
    if ds == [] then [] else [Shape(ds[0])] + Shapes(ds[1..])
  }

  lemma ShapesAppend(a: seq<Diff>, b: seq<Diff>)
    ensures Shapes(a + b) == Shapes(a) + Shapes(b)
  {
  }

  /** `prevChildrenComponent[name] === nextChild` */
  predicate Reused(prev: ChildMap, nm: string, n: Component) {
    Assoc.Find(prev, nm).Some? && Assoc.Find(prev, nm).value.uid == n.uid
  }

  /** The id at which a newly inserted child is mounted: the parent's id,
      a dot and the child's name, whatever the separator of the parent. */
  function InsertedMountID(parentID: string, nm: string): string {
    parentID + "." + nm
  }

  /** A child inserted under a key that does not end in a digit has an id
      with no parent, so an event on it does not bubble to its parent. */
  lemma KeyedInsertIsolated(parentID: string, nm: string)
    requires nm != [] && !IsDigit(nm[|nm| - 1])
    ensures Chain(InsertedMountID(parentID, nm)) == [InsertedMountID(parentID, nm)]
  {
    var id := InsertedMountID(parentID, nm);
    assert id[|id| - 1] == nm[|nm| - 1];
    assert TrailingDigits(id) == 0;
    assert Up(id) == [];
  }

  /** The ops for the next child `n`, named `nm`, at position `j`. */
  function PlanEntry(parentID: string, split: Sep, prev: ChildMap, nm: string, n: Component, j: nat): seq<Op> {
    EntryOps(parentID, split, Assoc.Find(prev, nm), n, j)
  }

  /** The same, given what the previous children hold under the name. */
  function EntryOps(parentID: string, split: Sep, pc: Option<Component>, n: Component, j: nat): seq<Op> {
    if pc.Some? && pc.value.uid == n.uid then
      if pc.value.mountIndex != j then [MoveOp(pc.value.rootID, IdWithNewIndex(pc.value.rootID, j))] else []
    else
      (if pc.Some? && !pc.value.kind.EmptyKind? then [RemoveOp(pc.value.rootID)] else [])
      + [InsertOp(IdWithNewIndex(ChildID(parentID, split, j), j + 1))]
  }

  /** The first loop of the diff, over the next children in order. */
  function PlanNext(parentID: string, split: Sep, prev: ChildMap, next: ChildMap): seq<Op>
    decreases |next|
  {
    if next == [] then []
    else
      var j := |next| - 1;
      PlanNext(parentID, split, prev, next[..j]) + PlanEntry(parentID, split, prev, next[j].0, next[j].1, j)
  }

  lemma PlanNextSnoc(parentID: string, split: Sep, prev: ChildMap, next: ChildMap, j: nat)
    requires j < |next|
    ensures PlanNext(parentID, split, prev, next[..j + 1]) ==
      PlanNext(parentID, split, prev, next[..j]) + PlanEntry(parentID, split, prev, next[j].0, next[j].1, j)
  {
    assert next[..j + 1][..j] == next[..j];
  }

  /** A previous child whose name is not among the next names. */
  function DropEntry(nm: string, p: Component, nextNames: seq<string>): seq<Op> {
    if nm !in nextNames && !p.kind.EmptyKind? then [RemoveOp(p.rootID)] else []
  }

  /** The second loop of the diff, over the previous children in order. */
  function PlanDropped(prev: ChildMap, nextNames: seq<string>): seq<Op>
    decreases |prev|
  {
    if prev == [] then []
    else
      var k := |prev| - 1;
      PlanDropped(prev[..k], nextNames) + DropEntry(prev[k].0, prev[k].1, nextNames)
  }

  lemma PlanDroppedSnoc(prev: ChildMap, k: nat, nextNames: seq<string>)
    requires k < |prev|
    ensures PlanDropped(prev[..k + 1], nextNames) == PlanDropped(prev[..k], nextNames) + DropEntry(prev[k].0, prev[k].1, nextNames)
  {
    assert prev[..k + 1][..k] == prev[..k];
  }

  function Plan(parentID: string, split: Sep, prev: ChildMap, next: ChildMap): seq<Op> {
    PlanNext(parentID, split, prev, next) + PlanDropped(prev, Assoc.Keys(next))
  }

  // ---------------------------------------------------------------
  // Counting

  function Inserts(ops: seq<Op>): nat {
    if ops == [] then 0 else (if ops[0].InsertOp? then 1 else 0) + Inserts(ops[1..])
  }

  function Moves(ops: seq<Op>): nat {
    if ops == [] then 0 else (if ops[0].MoveOp? then 1 else 0) + Moves(ops[1..])
  }

  function Removes(ops: seq<Op>): nat {
    if ops == [] then 0 else (if ops[0].RemoveOp? then 1 else 0) + Removes(ops[1..])
  }

  lemma {:induction false} CountAppend(a: seq<Op>, b: seq<Op>)
    ensures Inserts(a + b) == Inserts(a) + Inserts(b)
    ensures Moves(a + b) == Moves(a) + Moves(b)
    ensures Removes(a + b) == Removes(a) + Removes(b)
    decreases |a|
  {
    if a == [] {
      assert a + b == b;
    } else {
      assert (a + b)[1..] == a[1..] + b;
      CountAppend(a[1..], b);
    }
  }

  /** Next children that are not the previous instance of their name. */
  function FreshCount(prev: ChildMap, next: ChildMap): nat
    decreases |next|
  {
    if next == [] then 0
    else
      var j := |next| - 1;
      FreshCount(prev, next[..j]) + (if Reused(prev, next[j].0, next[j].1) then 0 else 1)
  }

  /** Next children kept from before but now at a different position. */
  function ShiftedCount(prev: ChildMap, next: ChildMap): nat
    decreases |next|
  {
    if next == [] then 0
    else
      var j := |next| - 1;
      var shifted := Reused(prev, next[j].0, next[j].1) && Assoc.Find(prev, next[j].0).value.mountIndex != j;
      ShiftedCount(prev, next[..j]) + (if shifted then 1 else 0)
  }

  /** Next children that replace a previous child of their name that is in the DOM. */
  function ReplacedCount(prev: ChildMap, next: ChildMap): nat
    decreases |next|
  {
    if next == [] then 0
    else
      var j := |next| - 1;
      ReplacedCount(prev, next[..j]) + (if Replaces(prev, next[j].0, next[j].1) then 1 else 0)
  }

  /** `n` is not the previous instance of its name, and the previous child
      of that name is in the DOM. */
  predicate Replaces(prev: ChildMap, nm: string, n: Component) {
    !Reused(prev, nm, n) && Assoc.Find(prev, nm).Some? && !Assoc.Find(prev, nm).value.kind.EmptyKind?
  }

  /** Previous children in the DOM whose name is not among the next names. */
  function GoneCount(prev: ChildMap, nextNames: seq<string>): nat
    decreases |prev|
  {
    if prev == [] then 0
    else
      var k := |prev| - 1;
      GoneCount(prev[..k], nextNames) + (if prev[k].0 !in nextNames && !prev[k].1.kind.EmptyKind? then 1 else 0)
  }

  lemma EntryCounts(parentID: string, split: Sep, prev: ChildMap, nm: string, n: Component, j: nat)
    ensures Inserts(PlanEntry(parentID, split, prev, nm, n, j)) == if Reused(prev, nm, n) then 0 else 1
    ensures Moves(PlanEntry(parentID, split, prev, nm, n, j)) ==
      if Reused(prev, nm, n) && Assoc.Find(prev, nm).value.mountIndex != j then 1 else 0
  {
    var pc := Assoc.Find(prev, nm);
    if !Reused(prev, nm, n) {
      var r := if pc.Some? && !pc.value.kind.EmptyKind? then [RemoveOp(pc.value.rootID)] else [];
      InsertCounts(r, IdWithNewIndex(ChildID(parentID, split, j), j + 1));
    }
  }

  /** Per next child: one REMOVE exactly when it replaces a namesake that
      is in the DOM. */
  lemma EntryRemoves(parentID: string, split: Sep, prev: ChildMap, nm: string, n: Component, j: nat)
    ensures Removes(PlanEntry(parentID, split, prev, nm, n, j)) == if Replaces(prev, nm, n) then 1 else 0
  {
    var pc := Assoc.Find(prev, nm);
    if !Reused(prev, nm, n) {
      var r := if pc.Some? && !pc.value.kind.EmptyKind? then [RemoveOp(pc.value.rootID)] else [];
      InsertCounts(r, IdWithNewIndex(ChildID(parentID, split, j), j + 1));
    }
  }

  /** An insert step, with or without the removal before it, holds one
      INSERT and no MOVE. */
  lemma InsertCounts(r: seq<Op>, toID: string)
    requires r == [] || (|r| == 1 && r[0].RemoveOp?)
    ensures Inserts(r + [InsertOp(toID)]) == 1 && Moves(r + [InsertOp(toID)]) == 0
    ensures Removes(r + [InsertOp(toID)]) == |r|
  {
    CountAppend(r, [InsertOp(toID)]);
  }

  lemma {:induction false} NextCounts(parentID: string, split: Sep, prev: ChildMap, next: ChildMap)
    ensures Inserts(PlanNext(parentID, split, prev, next)) == FreshCount(prev, next)
    ensures Moves(PlanNext(parentID, split, prev, next)) == ShiftedCount(prev, next)
    decreases |next|
  {
    if next != [] {
      var j := |next| - 1;
      NextCounts(parentID, split, prev, next[..j]);
      EntryCounts(parentID, split, prev, next[j].0, next[j].1, j);
      CountAppend(PlanNext(parentID, split, prev, next[..j]), PlanEntry(parentID, split, prev, next[j].0, next[j].1, j));
    }
  }

  lemma {:induction false} NextRemoves(parentID: string, split: Sep, prev: ChildMap, next: ChildMap)
    ensures Removes(PlanNext(parentID, split, prev, next)) == ReplacedCount(prev, next)
    decreases |next|
  {
    if next != [] {
      var j := |next| - 1;
      NextRemoves(parentID, split, prev, next[..j]);
      EntryRemoves(parentID, split, prev, next[j].0, next[j].1, j);
      CountAppend(PlanNext(parentID, split, prev, next[..j]), PlanEntry(parentID, split, prev, next[j].0, next[j].1, j));
    }
  }

  /** One INSERT per fresh next child and one MOVE per shifted kept child,
      and no others. */
  lemma PlanCounts(parentID: string, split: Sep, prev: ChildMap, next: ChildMap)
    ensures Inserts(Plan(parentID, split, prev, next)) == FreshCount(prev, next)
    ensures Moves(Plan(parentID, split, prev, next)) == ShiftedCount(prev, next)
  {
    NextCounts(parentID, split, prev, next);
    DroppedCounts(prev, Assoc.Keys(next));
    CountAppend(PlanNext(parentID, split, prev, next), PlanDropped(prev, Assoc.Keys(next)));
  }

  /** One REMOVE per replaced or dropped previous child in the DOM. */
  lemma PlanRemoves(parentID: string, split: Sep, prev: ChildMap, next: ChildMap)
    ensures Removes(Plan(parentID, split, prev, next)) ==
      ReplacedCount(prev, next) + GoneCount(prev, Assoc.Keys(next))
  {
    NextRemoves(parentID, split, prev, next);
    DroppedCounts(prev, Assoc.Keys(next));
    CountAppend(PlanNext(parentID, split, prev, next), PlanDropped(prev, Assoc.Keys(next)));
  }

  lemma {:induction false} DroppedCounts(prev: ChildMap, nextNames: seq<string>)
    ensures Inserts(PlanDropped(prev, nextNames)) == 0
    ensures Moves(PlanDropped(prev, nextNames)) == 0
    ensures Removes(PlanDropped(prev, nextNames)) == GoneCount(prev, nextNames)
    decreases |prev|
  {
    if prev != [] {
      var k := |prev| - 1;
      DroppedCounts(prev[..k], nextNames);
      CountAppend(PlanDropped(prev[..k], nextNames), DropEntry(prev[k].0, prev[k].1, nextNames));
    }
  }

  // ---------------------------------------------------------------
  // Which ops appear

  /** `id` is the root id of a previous child that is not empty. */
  predicate NonEmptyRootOf(prev: ChildMap, id: string) {
    exists i :: 0 <= i < |prev| && prev[i].1.rootID == id && !prev[i].1.kind.EmptyKind?
  }

  /** Every REMOVE names a previous child that is in the DOM. */
  lemma {:induction false} RemovesArePrevious(parentID: string, split: Sep, prev: ChildMap, next: ChildMap)
    ensures forall op :: op in Plan(parentID, split, prev, next) && op.RemoveOp? ==> NonEmptyRootOf(prev, op.fromID)
  {
    NextRemovesArePrevious(parentID, split, prev, next);
    DroppedRemovesArePrevious(prev, prev, Assoc.Keys(next));
  }

  lemma {:induction false} NextRemovesArePrevious(parentID: string, split: Sep, prev: ChildMap, next: ChildMap)
    ensures forall op :: op in PlanNext(parentID, split, prev, next) && op.RemoveOp? ==> NonEmptyRootOf(prev, op.fromID)
    decreases |next|
  {
    if next != [] {
      var j := |next| - 1;
      NextRemovesArePrevious(parentID, split, prev, next[..j]);
      EntryRemovesArePrevious(parentID, split, prev, next[j].0, next[j].1, j);
      assert PlanNext(parentID, split, prev, next) ==
        PlanNext(parentID, split, prev, next[..j]) + PlanEntry(parentID, split, prev, next[j].0, next[j].1, j);
    }
  }

  lemma EntryRemovesArePrevious(parentID: string, split: Sep, prev: ChildMap, nm: string, n: Component, j: nat)
    ensures forall op :: op in PlanEntry(parentID, split, prev, nm, n, j) && op.RemoveOp? ==> NonEmptyRootOf(prev, op.fromID)
  {
    var pc := Assoc.Find(prev, nm);
    if Reused(prev, nm, n) {
      assert forall op :: op in PlanEntry(parentID, split, prev, nm, n, j) ==> op.MoveOp?;
    } else {
      var r := if pc.Some? && !pc.value.kind.EmptyKind? then [RemoveOp(pc.value.rootID)] else [];
      InsertRemoves(r, IdWithNewIndex(ChildID(parentID, split, j), j + 1));
      if pc.Some? && !pc.value.kind.EmptyKind? {
        var i := Assoc.IndexOf(prev, nm);
        Assoc.FindFirst(prev, nm, i);
        assert prev[i].1 == pc.value;
      }
    }
  }

  /** The only REMOVE of an insert step is the one before its INSERT. */
  lemma InsertRemoves(r: seq<Op>, toID: string)
    ensures forall op :: op in r + [InsertOp(toID)] && op.RemoveOp? ==> op in r
  {
  }

  /** `whole` is the full previous map; `prev` a prefix of it. */
  lemma {:induction false} DroppedRemovesArePrevious(whole: ChildMap, prev: ChildMap, nextNames: seq<string>)
    requires |prev| <= |whole| && prev == whole[..|prev|]
    ensures forall op :: op in PlanDropped(prev, nextNames) && op.RemoveOp? ==> NonEmptyRootOf(whole, op.fromID)
    decreases |prev|
  {
    if prev != [] {
      var k := |prev| - 1;
      assert prev[..k] == whole[..k];
      DroppedRemovesArePrevious(whole, prev[..k], nextNames);
      assert whole[k] == prev[k];
    }
  }

  /** Every previous child that is in the DOM and whose name is gone gets
      a REMOVE. */
  lemma {:induction false} DroppedAreRemoved(prev: ChildMap, nextNames: seq<string>)
    ensures forall i :: 0 <= i < |prev| && prev[i].0 !in nextNames && !prev[i].1.kind.EmptyKind? ==>
      RemoveOp(prev[i].1.rootID) in PlanDropped(prev, nextNames)
    decreases |prev|
  {
    if prev != [] {
      var k := |prev| - 1;
      DroppedAreRemoved(prev[..k], nextNames);
      forall i | 0 <= i < k && prev[i].0 !in nextNames && !prev[i].1.kind.EmptyKind?
        ensures RemoveOp(prev[i].1.rootID) in PlanDropped(prev, nextNames)
      {
        assert prev[..k][i] == prev[i];
      }
    }
  }

  /** A fresh next child at position `j` is inserted before the sibling
      at position `j + 1`. */
  lemma FreshInserted(parentID: string, split: Sep, prev: ChildMap, next: ChildMap, j: nat)
    requires j < |next| && !Reused(prev, next[j].0, next[j].1)
    ensures InsertOp(ChildID(parentID, split, j + 1)) in PlanNext(parentID, split, prev, next)
  {
    FreshEntryInserts(parentID, split, prev, next[j].0, next[j].1, j);
    EntryInPlanNext(parentID, split, prev, next, j, InsertOp(ChildID(parentID, split, j + 1)));
  }

  /** An op of the entry for next child `j` is an op of the first loop. */
  lemma EntryInPlanNext(parentID: string, split: Sep, prev: ChildMap, next: ChildMap, j: nat, x: Op)
    requires j < |next| && x in PlanEntry(parentID, split, prev, next[j].0, next[j].1, j)
    ensures x in PlanNext(parentID, split, prev, next)
  {
    PlanNextSnoc(parentID, split, prev, next, j);
    InBack(x, PlanNext(parentID, split, prev, next[..j]), PlanEntry(parentID, split, prev, next[j].0, next[j].1, j));
    PlanNextPrefix(parentID, split, prev, next, j + 1);
    InPrefix(x, PlanNext(parentID, split, prev, next[..j + 1]), PlanNext(parentID, split, prev, next));
  }

  /** The ops of the first `k` next children begin the first loop's ops. */
  lemma {:induction false} PlanNextPrefix(parentID: string, split: Sep, prev: ChildMap, next: ChildMap, k: nat)
    requires k <= |next|
    ensures PlanNext(parentID, split, prev, next[..k]) <= PlanNext(parentID, split, prev, next)
    decreases |next|
  {
    if k == |next| {
      assert next[..k] == next;
    } else {
      var n := |next| - 1;
      assert next[..n][..k] == next[..k];
      PlanNextPrefix(parentID, split, prev, next[..n], k);
      assert PlanNext(parentID, split, prev, next) ==
        PlanNext(parentID, split, prev, next[..n]) + PlanEntry(parentID, split, prev, next[n].0, next[n].1, n);
    }
  }

  lemma InBack(x: Op, a: seq<Op>, b: seq<Op>)
    requires x in b
    ensures x in a + b
  {
  }

  lemma InPrefix(x: Op, a: seq<Op>, b: seq<Op>)
    requires x in a && a <= b
    ensures x in b
  {
  }

  lemma FreshEntryInserts(parentID: string, split: Sep, prev: ChildMap, nm: string, n: Component, j: nat)
    requires !Reused(prev, nm, n)
    ensures InsertOp(ChildID(parentID, split, j + 1)) in PlanEntry(parentID, split, prev, nm, n, j)
  {
    ChildIDSibling(parentID, split, j, j + 1);
  }

  /** A kept child now at position `j`, mounted elsewhere before, is moved
      to the id with index `j`. */
  lemma KeptMoved(parentID: string, split: Sep, prev: ChildMap, next: ChildMap, j: nat, r: string)
    requires j < |next| && Reused(prev, next[j].0, next[j].1)
    requires Assoc.Find(prev, next[j].0).value.mountIndex != j
    requires r == Assoc.Find(prev, next[j].0).value.rootID
    ensures MoveOp(r, IdWithNewIndex(r, j)) in PlanNext(parentID, split, prev, next)
  {
    KeptEntryMoves(parentID, split, prev, next[j].0, next[j].1, j, r);
    EntryInPlanNext(parentID, split, prev, next, j, MoveOp(r, IdWithNewIndex(r, j)));
  }

  lemma KeptEntryMoves(parentID: string, split: Sep, prev: ChildMap, nm: string, c: Component, j: nat, r: string)
    requires Reused(prev, nm, c) && Assoc.Find(prev, nm).value.mountIndex != j
    requires r == Assoc.Find(prev, nm).value.rootID
    ensures PlanEntry(parentID, split, prev, nm, c, j) == [MoveOp(r, IdWithNewIndex(r, j))]
  {
  }

  // ---------------------------------------------------------------
  // Idempotence

  /** The next map names the same children, in the same order, as the same
      instances, each already at its position. */
  predicate Unchanged(prev: ChildMap, next: ChildMap) {
    && Assoc.UniqueKeys(prev)
    && |next| == |prev|
    && forall j :: 0 <= j < |prev| ==>
         next[j].0 == prev[j].0 && next[j].1.uid == prev[j].1.uid && prev[j].1.mountIndex == j
  }

  /** Diffing children against themselves yields no operations. */
  lemma PlanIdle(parentID: string, split: Sep, prev: ChildMap, next: ChildMap)
    requires Unchanged(prev, next)
    ensures Plan(parentID, split, prev, next) == []
  {
    PlanNextIdle(parentID, split, prev, next, |next|);
    assert next[..|next|] == next;
    assert Assoc.Keys(next) == Assoc.Keys(prev);
    PlanDroppedIdle(prev, prev, Assoc.Keys(next));
    assert prev[..|prev|] == prev;
  }

  lemma {:induction false} PlanNextIdle(parentID: string, split: Sep, prev: ChildMap, next: ChildMap, k: nat)
    requires Unchanged(prev, next) && k <= |next|
    ensures PlanNext(parentID, split, prev, next[..k]) == []
    decreases k
  {
    if k > 0 {
      var j := k - 1;
      assert next[..k][..j] == next[..j];
      PlanNextIdle(parentID, split, prev, next, j);
      Assoc.FindUnique(prev, j);
    }
  }

  lemma {:induction false} PlanDroppedIdle(whole: ChildMap, prev: ChildMap, names: seq<string>)
    requires |prev| <= |whole| && prev == whole[..|prev|] && Assoc.Keys(whole) == names
    ensures PlanDropped(prev, names) == []
    decreases |prev|
  {
    if prev != [] {
      var k := |prev| - 1;
      assert prev[..k] == whole[..k];
      PlanDroppedIdle(whole, prev[..k], names);
      assert names[k] == prev[k].0;
    }
  }

  // ---------------------------------------------------------------
  // The MOVE entry as written

  /** As written, a MOVE entry reads `idWithNewIndex(nextIndex)`, calling
      `replace` on a number, which throws a TypeError: the first kept child
      found at a new position aborts the update (`None`). */
  function PlanNextAsWritten(parentID: string, split: Sep, prev: ChildMap, next: ChildMap): (r: Option<seq<Op>>)
    decreases |next|
  {
    if next == [] then Some([])
    else
      var j := |next| - 1;
      var init := PlanNextAsWritten(parentID, split, prev, next[..j]);
      var n := next[j];
      if init.None? then None
      else if Reused(prev, n.0, n.1) && Assoc.Find(prev, n.0).value.mountIndex != j then None
      else Some(init.value + PlanEntry(parentID, split, prev, n.0, n.1, j))
  }

  /** The written diff throws exactly when the intended one moves a child,
      and agrees with it otherwise. */
  lemma {:induction false} AsWrittenThrowsIffMove(parentID: string, split: Sep, prev: ChildMap, next: ChildMap)
    ensures PlanNextAsWritten(parentID, split, prev, next).None? <==> ShiftedCount(prev, next) > 0
    ensures PlanNextAsWritten(parentID, split, prev, next).Some? ==>
      PlanNextAsWritten(parentID, split, prev, next).value == PlanNext(parentID, split, prev, next)
    decreases |next|
  {
    if next != [] {
      AsWrittenThrowsIffMove(parentID, split, prev, next[..|next| - 1]);
    }
  }

  /** A mounted `<li>` keyed `key` at position `index` under the root `0`. */
  function KeyedItem(uid: nat, key: string, index: nat): Component {
    Component(uid, ChildID("0", Dot, index), index,
      DomKind(Elem(Str("li"), Str(key), [("key", Str(key)), ("children", Arr([]))]), []))
  }

  /** Swapping two keyed children: the intended diff moves both, the
      written one throws. */
  lemma SwapThrowsAsWritten()
    ensures var a, b := KeyedItem(1, "x", 0), KeyedItem(2, "y", 1);
      var prev := [("x", a), ("y", b)];
      var next := [("y", b), ("x", a)];
      && PlanNextAsWritten("0", Dot, prev, next) == None
      && PlanNext("0", Dot, prev, next) == [MoveOp(b.rootID, a.rootID), MoveOp(a.rootID, b.rootID)]
  {
    var a, b := KeyedItem(1, "x", 0), KeyedItem(2, "y", 1);
    var prev := [("x", a), ("y", b)];
    var next := [("y", b), ("x", a)];
    SwapEntries(a, b, prev);
    assert next[..1] == [("y", b)];
    assert next[..1][..0] == [];
    assert PlanNext("0", Dot, prev, next[..1]) == [MoveOp(b.rootID, a.rootID)];
  }

  /** A keyed item is named by its key wherever it stands. */
  lemma KeyedItemName(uid: nat, key: string, index: nat, at: nat)
    requires key != []
    ensures NameOf(KeyedItem(uid, key, index).kind.element, at) == key
  {
  }

  /** Each of the two swapped children is reused and moved to the other's id. */
  lemma SwapEntries(a: Component, b: Component, prev: ChildMap)
    requires a == KeyedItem(1, "x", 0) && b == KeyedItem(2, "y", 1)
    requires prev == [("x", a), ("y", b)]
    ensures Reused(prev, "y", b) && Reused(prev, "x", a)
    ensures PlanEntry("0", Dot, prev, "y", b, 0) == [MoveOp(b.rootID, a.rootID)]
    ensures PlanEntry("0", Dot, prev, "x", a, 1) == [MoveOp(a.rootID, b.rootID)]
  {
    ChildIDSibling("0", Dot, 1, 0);
    ChildIDSibling("0", Dot, 0, 1);
    Assoc.FindFirst(prev, "y", 1);
    Assoc.FindFirst(prev, "x", 0);
  }
}
