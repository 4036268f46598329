/** Insertion-ordered association sequences: the model of a JavaScript
    object used as a dictionary (a props object, a name-to-component map).
    Assigning to an existing key keeps its place; a new key goes last.
    JavaScript enumerates integer-like keys first, in numeric order; this
    model keeps plain insertion order for every key. */
module Assoc {
  import opened Wrappers

  function Keys<V>(m: seq<(string, V)>): (ks: seq<string>)
    ensures |ks| == |m|
    ensures forall i :: 0 <= i < |m| ==> ks[i] == m[i].0
  {
    seq(|m|, i requires 0 <= i < |m| => m[i].0)
  }

  predicate UniqueKeys<V>(m: seq<(string, V)>) {
    forall i, j :: 0 <= i < j < |m| ==> m[i].0 != m[j].0
  }

  /** The position of the first entry with key `k`. */
  function IndexOf<V>(m: seq<(string, V)>, k: string): (i: nat)
    requires k in Keys(m)
    ensures i < |m| && m[i].0 == k
    ensures forall j :: 0 <= j < i ==> m[j].0 != k
  {
    if m[0].0 == k then 0 else 1 + IndexOf(m[1..], k)
  }

  /** `m[k]`: the value under the first entry with key `k`. */
  function Find<V>(m: seq<(string, V)>, k: string): (r: Option<V>)
    ensures r.None? <==> k !in Keys(m)
    decreases |m|
  {
    if m == [] then None
    else if m[0].0 == k then Some(m[0].1)
    else
      assert Keys(m) == [m[0].0] + Keys(m[1..]);
      Find(m[1..], k)
  }

  /** Looking up a key finds the value of its first entry. */
  lemma {:induction false} FindFirst<V>(m: seq<(string, V)>, k: string, i: nat)
    requires i < |m| && m[i].0 == k && forall j :: 0 <= j < i ==> m[j].0 != k
    ensures Find(m, k) == Some(m[i].1)
    decreases i
  {
    if i > 0 {
      assert m[0].0 != k;
      FindFirst(m[1..], k, i - 1);
    }
  }

  /** `m[k] = v`: an existing key keeps its place, a new key goes last. */
  function Put<V>(m: seq<(string, V)>, k: string, v: V): (r: seq<(string, V)>)
    ensures |r| == if k in Keys(m) then |m| else |m| + 1
  {
    if k in Keys(m) then m[IndexOf(m, k) := (k, v)] else m + [(k, v)]
  }

  lemma FindPut<V>(m: seq<(string, V)>, k: string, v: V, k': string)
    ensures Find(Put(m, k, v), k') == if k' == k then Some(v) else Find(m, k')
  {
    var r := Put(m, k, v);
    PutKeys(m, k, v);
    if k' != k && k' in Keys(m) {
      var i := IndexOf(m, k');
      assert r[i] == m[i];
      assert forall j :: 0 <= j < i ==> r[j].0 == m[j].0;
      FindFirst(r, k', i);
      FindFirst(m, k', i);
    } else if k' == k && k in Keys(m) {
      var i := IndexOf(m, k);
      assert forall j :: 0 <= j < i ==> r[j].0 == m[j].0;
      FindFirst(r, k, i);
    } else if k' == k {
      assert forall j :: 0 <= j < |m| ==> r[j] == m[j] && Keys(m)[j] != k;
      FindFirst(r, k, |m|);
    }
  }

  /** Assignment keeps keys unique and adds `k` only if it was absent. */
  lemma PutKeys<V>(m: seq<(string, V)>, k: string, v: V)
    ensures k in Keys(m) ==> Keys(Put(m, k, v)) == Keys(m)
    ensures k !in Keys(m) ==> Keys(Put(m, k, v)) == Keys(m) + [k]
    ensures UniqueKeys(m) ==> UniqueKeys(Put(m, k, v))
  {
    var r := Put(m, k, v);
    if k in Keys(m) {
      var i := IndexOf(m, k);
      assert forall j :: 0 <= j < |m| ==> r[j].0 == m[j].0;
      assert Keys(r) == Keys(m);
    } else {
      assert forall j :: 0 <= j < |m| ==> r[j] == m[j];
      assert Keys(r) == Keys(m) + [k];
      assert forall j :: 0 <= j < |m| ==> Keys(m)[j] != k;
    }
  }

  /** The keys of a map are the keys of all but its last entry, then the
      last entry's key. */
  lemma KeysInit<V>(m: seq<(string, V)>)
    requires m != []
    ensures Keys(m) == Keys(m[..|m| - 1]) + [m[|m| - 1].0]
  {
    var n := |m| - 1;
    assert forall i :: 0 <= i < n ==> Keys(m[..n])[i] == m[i].0;
  }

  /** Unique keys stay unique without the last entry, whose key is not
      among the others. */
  lemma UniqueInit<V>(m: seq<(string, V)>)
    requires m != [] && UniqueKeys(m)
    ensures UniqueKeys(m[..|m| - 1]) && m[|m| - 1].0 !in Keys(m[..|m| - 1])
  {
    var n := |m| - 1;
    var init := m[..n];
    forall i, j | 0 <= i < j < |init| ensures init[i].0 != init[j].0 {
      assert init[i] == m[i] && init[j] == m[j];
    }
    forall j | 0 <= j < |init| ensures Keys(init)[j] != m[n].0 {
      assert init[j] == m[j];
    }
  }

  /** Assigning each entry in turn to an empty object; a later entry
      with a key already present overwrites it in place. */
  function PutAll<V>(es: seq<(string, V)>): seq<(string, V)>
    decreases |es|
  {
    if es == [] then []
    else
      var n := |es| - 1;
      Put(PutAll(es[..n]), es[n].0, es[n].1)
  }

  /** Assignment keeps every key and adds the assigned one. */
  lemma PutKeysGrow<V>(m: seq<(string, V)>, k: string, v: V)
    ensures k in Keys(Put(m, k, v))
    ensures forall k' :: k' in Keys(m) ==> k' in Keys(Put(m, k, v))
  {
    PutKeys(m, k, v);
  }

  /** The result has unique keys and no more entries than were assigned. */
  lemma {:induction false} PutAllUnique<V>(es: seq<(string, V)>)
    ensures UniqueKeys(PutAll(es)) && |PutAll(es)| <= |es|
    decreases |es|
  {
    if es != [] {
      var n := |es| - 1;
      PutAllUnique(es[..n]);
      PutKeys(PutAll(es[..n]), es[n].0, es[n].1);
    }
  }

  /** The result holds every assigned key. */
  lemma {:induction false} PutAllHas<V>(es: seq<(string, V)>)
    ensures forall i :: 0 <= i < |es| ==> es[i].0 in Keys(PutAll(es))
    decreases |es|
  {
    if es != [] {
      var n := |es| - 1;
      var init := es[..n];
      PutAllHas(init);
      PutKeysGrow(PutAll(init), es[n].0, es[n].1);
      forall i | 0 <= i < n ensures es[i].0 in Keys(PutAll(es)) {
        assert init[i] == es[i];
      }
    }
  }

  /** The last assignment decides the value of its key. */
  lemma PutAllLast<V>(es: seq<(string, V)>)
    requires es != []
    ensures Find(PutAll(es), es[|es| - 1].0) == Some(es[|es| - 1].1)
  {
    var n := |es| - 1;
    FindPut(PutAll(es[..n]), es[n].0, es[n].1, es[n].0);
  }

  /** The last assignment leaves every other key as it was. */
  lemma PutAllOther<V>(es: seq<(string, V)>, k: string)
    requires es != [] && es[|es| - 1].0 != k
    ensures Find(PutAll(es), k) == Find(PutAll(es[..|es| - 1]), k)
  {
    var n := |es| - 1;
    FindPut(PutAll(es[..n]), es[n].0, es[n].1, k);
  }

  /** A key holds the value of the last entry assigned to it. */
  lemma {:induction false} PutAllFind<V>(es: seq<(string, V)>, i: nat)
    requires i < |es| && forall j :: i < j < |es| ==> es[j].0 != es[i].0
    ensures Find(PutAll(es), es[i].0) == Some(es[i].1)
    decreases |es|
  {
    var n := |es| - 1;
    if i == n {
      PutAllLast(es);
    } else {
      var init := es[..n];
      PutAllOther(es, es[i].0);
      assert init[i] == es[i];
      forall j | i < j < n ensures init[j].0 != init[i].0 {
        assert init[j] == es[j];
      }
      PutAllFind(init, i);
    }
  }

  /** In a map with unique keys, looking up the key of entry `i` finds entry `i`. */
  lemma FindUnique<V>(m: seq<(string, V)>, i: nat)
    requires UniqueKeys(m) && i < |m|
    ensures Find(m, m[i].0) == Some(m[i].1)
  {
    FindFirst(m, m[i].0, i);
  }

  /** A found value is the value of some entry with that key. */
  lemma FindSome<V>(m: seq<(string, V)>, k: string)
    requires Find(m, k).Some?
    ensures exists i :: 0 <= i < |m| && m[i].0 == k && m[i].1 == Find(m, k).value
  {
    var i := IndexOf(m, k);
    FindFirst(m, k, i);
  }
}
