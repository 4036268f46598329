/** The JavaScript values the engine handles: element descriptions,
    text and numbers, child arrays, prop values and callbacks.
    A props object is an insertion-ordered association sequence. */
module JsValues {
  import opened Strings
  import opened Wrappers
  import Assoc

  /** A JavaScript function (an event callback or a component class),
      known only by its identity. */
  datatype FnRef = FnRef(token: nat)

  datatype Value =
    | Undef
    | Null
    | Bool(b: bool)
    | Num(n: int)
    | Str(s: string)
    | Fn(f: FnRef)
    | Arr(items: seq<Value>)
      /** A `ReactElement`: its `type`, its `key` and its `props` object. */
    | Elem(ty: Value, key: Value, props: Props)

  type Props = seq<(string, Value)>

  /** JavaScript truthiness: `undefined`, `null`, `false`, `0` and `""`
      are false; objects, arrays and functions are true. */
  predicate Truthy(v: Value) {
    match v
    case Undef => false
    case Null => false
    case Bool(b) => b
    case Num(n) => n != 0
    case Str(s) => s != ""
    case _ => true
  }

  /** `String(v)`, as used by template strings and property keys.
      A function's source text is not modelled. */
  function JsString(v: Value): string
    decreases v, 1
  {
    match v
    case Undef => "undefined"
    case Null => "null"
    case Bool(b) => if b then "true" else "false"
    case Num(n) => IntToString(n)
    case Str(s) => s
    case Fn(_) => "function"
    case Arr(items) => Join(items)
    case Elem(_, _, _) => "[object Object]"
  }

  /** `Array.prototype.join(",")`: null and undefined become empty. */
  function Join(items: seq<Value>): string
    decreases items, 0
  {
    if items == [] then ""
    else
      var head := if items[0].Undef? || items[0].Null? then "" else JsString(items[0]);
      if |items| == 1 then head else head + "," + Join(items[1..])
  }

  /** lodash `toString`: like `String`, except that null and undefined
      give the empty string. */
  function LodashToString(v: Value): string {
    if v.Undef? || v.Null? then "" else JsString(v)
  }

  /** `===`. Arrays and elements are compared by reference in JavaScript;
      every render builds new ones, so two of them are never identical here. */
  predicate StrictEquals(a: Value, b: Value) {
    match a
    case Arr(_) => false
    case Elem(_, _, _) => false
    case _ => a == b
  }

  /** `props[k]`: the value stored under `k`, or `undefined`. */
  function Get(props: Props, k: string): (v: Value)
    ensures k !in Assoc.Keys(props) ==> v == Undef
    ensures k in Assoc.Keys(props) ==> Assoc.Find(props, k) == Some(v)
  {
    match Assoc.Find(props, k)
    case None => Undef
    case Some(v) => v
  }

  /** lodash's `MAX_SAFE_INTEGER`, the largest `length` it accepts as an
      array length. */
  const MaxSafeInteger: int := 0x1F_FFFF_FFFF_FFFF

  /** lodash `isArrayLike` on a props object: its `length` is a
      non-negative safe integer. */
  predicate ArrayLike(props: Props) {
    var len := Get(props, "length");
    len.Num? && 0 <= len.n <= MaxSafeInteger
  }

  /** The (key, value) pairs lodash `forEach` visits in a props object.
      An array-like object is walked by index: `props[i]` for every `i`
      below its `length`, with the key `i` (a number, which every use
      here turns into its decimal string). Any other object is walked by
      its own keys in order. */
  function ForEachEntries(props: Props): Props {
    if ArrayLike(props) then
      var len: nat := Get(props, "length").n;
      seq(len, i requires 0 <= i < len => (Decimal(i), Get(props, Decimal(i))))
    else props
  }

  // ---------------------------------------------------------------
  // A size measure, used to show that mounting and receiving terminate

  function Size(v: Value): (n: nat)
    ensures n >= 1
    decreases v, 1
  {
    match v
    case Arr(items) => 1 + SizeSeq(items)
    case Elem(t, k, p) => 1 + Size(t) + Size(k) + SizeProps(p)
    case _ => 1
  }

  function SizeSeq(items: seq<Value>): nat
    decreases items, 0
  {
    if items == [] then 0 else Size(items[0]) + SizeSeq(items[1..])
  }

  function SizeProps(props: Props): nat
    decreases props, 0
  {
    if props == [] then 0 else SizeEntry(props[0]) + SizeProps(props[1..])
  }

  function SizeEntry(e: (string, Value)): nat
    decreases e, 0
  {
    Size(e.1)
  }

  lemma {:induction false} ItemSmaller(items: seq<Value>, i: nat)
    requires i < |items|
    ensures Size(items[i]) <= SizeSeq(items)
  {
    if i > 0 {
      ItemSmaller(items[1..], i - 1);
    }
  }

  lemma {:induction false} GetSmaller(props: Props, k: string)
    ensures Get(props, k) == Undef || Size(Get(props, k)) <= SizeProps(props)
  {
    if props != [] && props[0].0 != k {
      GetSmaller(props[1..], k);
    }
  }
}
