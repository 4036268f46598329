/** React ids: the `data-reactid` address strings such as "0.1:2.0".
    `.n` is appended for a child of a DOM component and `:n` for an item
    of a list component. The string functions below are the ones the
    engine calls (with the behaviour of their regular expressions); the
    structured `Path` is the internal view of an id, formatted at the
    boundary. */
module ReactIds {
  import opened Strings
  import opened Wrappers

  predicate IsSep(c: char) {
    c == '.' || c == ':'
  }

  /** Length of the longest run of ASCII digits at the end of `s`
      (the match of `/\d+$/`, or 0 when it does not match). */
  function TrailingDigits(s: string): (k: nat)
    ensures k <= |s|
    ensures AllDigits(s[|s| - k..])
    ensures k < |s| ==> !IsDigit(s[|s| - k - 1])
  {
    if s != [] && IsDigit(s[|s| - 1]) then 1 + TrailingDigits(s[..|s| - 1]) else 0
  }

  /** `reactIDParent`: strips the suffix matched by `/[:.]\d+$/`, or
      returns nothing when the id has no such suffix. */
  function ReactIDParent(id: string): (r: Option<string>)
    ensures r.Some? ==> |r.value| < |id|
    ensures r.Some? ==>
      && id[..|r.value|] == r.value
      && IsSep(id[|r.value|])
      && id[|r.value| + 1..] != []
      && AllDigits(id[|r.value| + 1..])
  {
    var k := TrailingDigits(id);
    if 0 < k < |id| && IsSep(id[|id| - k - 1]) then Some(id[..|id| - k - 1]) else None
  }

  /** `idWithNewIndex(id, n)`: replaces the trailing digit run of `id`
      with the decimal rendering of `n`. */
  function IdWithNewIndex(id: string, n: nat): (r: string)
  {
    var k := TrailingDigits(id);
    if k == 0 then id else id[..|id| - k] + Decimal(n)
  }

  lemma {:induction false} TrailingDigitsOfSuffix(p: string, d: string)
    requires AllDigits(d)
    ensures TrailingDigits(p + d) == TrailingDigits(p) + |d|
    decreases |d|
  {
    if d != [] {
      var d' := d[..|d| - 1];
      assert (p + d)[..|p + d| - 1] == p + d';
      TrailingDigitsOfSuffix(p, d');
    } else {
      assert p + d == p;
    }
  }

  /** A separator followed by a non-empty digit run is exactly what the
      parent function strips: `reactIDParent(p + "." + n) == p`. */
  lemma ParentOfSuffix(p: string, c: char, d: string)
    requires IsSep(c) && d != [] && AllDigits(d)
    ensures ReactIDParent(p + [c] + d) == Some(p)
  {
    TrailingDigitsOfSuffix(p + [c], d);
    assert TrailingDigits(p + [c]) == 0;
    var id := p + [c] + d;
    assert id[|id| - |d| - 1] == c;
    assert id[..|id| - |d| - 1] == p;
  }

  /** Ids without a trailing `[:.]digits` segment have no parent; in
      particular the root id "0" has none. */
  lemma RootHasNoParent(n: nat)
    ensures ReactIDParent(Decimal(n)) == None
  {
    DecimalIsDigits(n);
    TrailingDigitsOfSuffix([], Decimal(n));
    assert [] + Decimal(n) == Decimal(n);
  }

  lemma IdWithNewIndexOfSuffix(p: string, d: string, n: nat)
    requires d != [] && AllDigits(d) && (p != [] ==> !IsDigit(p[|p| - 1]))
    ensures IdWithNewIndex(p + d, n) == p + Decimal(n)
  {
    var id := p + d;
    TrailingDigitsExact(p, d);
    assert id[..|id| - |d|] == p;
  }

  lemma TrailingDigitsExact(p: string, d: string)
    requires AllDigits(d) && (p != [] ==> !IsDigit(p[|p| - 1]))
    ensures TrailingDigits(p + d) == |d|
  {
    assert TrailingDigits(p) == 0;
    TrailingDigitsOfSuffix(p, d);
  }

  /** An id without trailing digits is returned unchanged. */
  lemma IdWithNewIndexNoDigits(id: string, n: nat)
    requires id == [] || !IsDigit(id[|id| - 1])
    ensures IdWithNewIndex(id, n) == id
  {
  }

  // ---------------------------------------------------------------
  // Structured ids

  datatype Sep = Dot | Colon

  function SepChar(s: Sep): (c: char)
    ensures IsSep(c)
  {
    match s
    case Dot => '.'
    case Colon => ':'
  }

  /** The id of the child at `index` under `parent`: `parent + split + index`. */
  function ChildID(parent: string, split: Sep, index: nat): string {
    parent + [SepChar(split)] + Decimal(index)
  }

  /** A structured id: a decimal root followed by (separator, index) segments. */
  datatype Path = Path(root: nat, segments: seq<(Sep, nat)>)

  function Format(p: Path): string
    decreases |p.segments|
  {
    if p.segments == [] then Decimal(p.root)
    else
      var last := p.segments[|p.segments| - 1];
      ChildID(Format(Path(p.root, p.segments[..|p.segments| - 1])), last.0, last.1)
  }

  /** The parent of a child id is the id it was built from. */
  lemma ChildIDParent(parent: string, split: Sep, index: nat)
    ensures ReactIDParent(ChildID(parent, split, index)) == Some(parent)
  {
    DecimalIsDigits(index);
    ParentOfSuffix(parent, SepChar(split), Decimal(index));
  }

  /** A sibling's id is recovered from any child id and a new index. */
  lemma ChildIDSibling(parent: string, split: Sep, index: nat, other: nat)
    ensures IdWithNewIndex(ChildID(parent, split, index), other) == ChildID(parent, split, other)
  {
    DecimalIsDigits(index);
    IdWithNewIndexOfSuffix(parent + [SepChar(split)], Decimal(index), other);
  }

  /** Parsing the formatted id of a structured path recovers the path
      without its last segment, and a root path has no parent. */
  lemma FormatParent(p: Path)
    ensures p.segments == [] ==> ReactIDParent(Format(p)) == None
    ensures p.segments != [] ==>
      ReactIDParent(Format(p)) == Some(Format(Path(p.root, p.segments[..|p.segments| - 1])))
  {
    if p.segments == [] {
      RootHasNoParent(p.root);
    } else {
      var last := p.segments[|p.segments| - 1];
      ChildIDParent(Format(Path(p.root, p.segments[..|p.segments| - 1])), last.0, last.1);
    }
  }

  /** The next id the dispatch walk visits: the parent, or the empty
      string (false in JavaScript) when there is none. */
  function Up(id: string): (r: string)
    ensures id != [] ==> |r| < |id|
  {
    match ReactIDParent(id)
    case None => []
    case Some(p) => p
  }

  /** The chain of ids the event dispatch visits from `id`: `id` itself
      (unless it is empty, which JavaScript treats as false), then each
      successive parent until none remains. */
  function Chain(id: string): (c: seq<string>)
    decreases |id|
  {
    if id == [] then [] else [id] + Chain(Up(id))
  }

  /** The walk from an id with a parent visits the id, then the parent's walk. */
  lemma ChainOfParent(id: string, p: string)
    requires ReactIDParent(id) == Some(p)
    ensures Chain(id) == [id] + Chain(p)
  {
    assert Up(id) == p;
  }

  /** Every visited id is the parent of the one before it, and visited ids
      get strictly shorter, so the walk stops. */
  lemma {:induction false} ChainSteps(id: string, i: nat)
    requires 0 < i < |Chain(id)|
    ensures ReactIDParent(Chain(id)[i - 1]) == Some(Chain(id)[i])
    ensures |Chain(id)[i]| < |Chain(id)[i - 1]|
    decreases |id|
  {
    if i > 1 {
      ChainSteps(Up(id), i - 1);
    }
  }

  /** The walk from a structured id visits one id per segment plus the
      root: it starts at the id itself and ends at the root. */
  lemma {:induction false} ChainOfPath(p: Path)
    ensures |Chain(Format(p))| == |p.segments| + 1
    ensures Chain(Format(p))[0] == Format(p)
    ensures Chain(Format(p))[|p.segments|] == Decimal(p.root)
    decreases |p.segments|
  {
    DecimalIsDigits(p.root);
    FormatParent(p);
    if p.segments != [] {
      var q := Path(p.root, p.segments[..|p.segments| - 1]);
      ChainOfPath(q);
      assert Format(p) != [];
    }
  }

  /** The path of the ancestor `i` levels above `p`. */
  function Ancestor(p: Path, i: nat): Path
    requires i <= |p.segments|
  {
    Path(p.root, p.segments[..|p.segments| - i])
  }

  /** The i-th id the walk from a structured id visits is the formatted
      ancestor that drops the last i segments. */
  lemma {:induction false} ChainAncestor(p: Path, i: nat)
    requires i <= |p.segments|
    ensures i < |Chain(Format(p))| && Chain(Format(p))[i] == Format(Ancestor(p, i))
    decreases i
  {
    if i == 0 {
      ChainOfPath(p);
      assert Ancestor(p, 0) == p;
    } else {
      var q := Ancestor(p, 1);
      ChainAncestor(q, i - 1);
      AncestorStep(p, i);
      FormatParent(p);
      ChainShift(Format(p), Format(q), i, Format(Ancestor(p, i)));
    }
  }

  /** Dropping one segment and then i - 1 more drops i. */
  lemma AncestorStep(p: Path, i: nat)
    requires 0 < i <= |p.segments|
    ensures Ancestor(Ancestor(p, 1), i - 1) == Ancestor(p, i)
  {
    assert p.segments[..|p.segments| - 1][..|p.segments| - i] == p.segments[..|p.segments| - i];
  }

  /** An index into the walk from an id with a parent is one less into the parent's walk. */
  lemma ChainShift(id: string, p: string, i: nat, x: string)
    requires ReactIDParent(id) == Some(p)
    requires 0 < i && i - 1 < |Chain(p)| && Chain(p)[i - 1] == x
    ensures i < |Chain(id)| && Chain(id)[i] == x
  {
    ChainOfParent(id, p);
  }
}
