/** The JavaScript values the service hands to the query encoder, to `JSON.stringify`
    and receives back from `JSON.parse`, with the few built-in conversions the
    service relies on: truthiness, `typeof x === 'object'`, `String(x)`,
    `Object.keys(x)` and property lookup. */
module JsValue {

  /** A JavaScript value, tagged by the shape the service cares about. */
  datatype Value =
    | Null
    | Undefined
      /** a string */
    | Str(s: string)
      /** a number or boolean, carried as its `String()` form ("12", "true", "NaN") */
    | Prim(text: string)
      /** a function: `source` is what `String(f)` gives, `result` is the `String()`
          form of what calling `f()` returns */
    | Thunk(source: string, result: string)
      /** an array; a hole is `Undefined` */
    | Arr(items: seq<Value>)
      /** a plain object: its own enumerable keys, each once, in enumeration order */
    | Obj(entries: seq<(string, Value)>)

  /** The text `String(o)` gives for every plain object. */
  const ObjectTag := "[object Object]"

  /** JavaScript truthiness: `null`, `undefined`, `""`, `0`, `-0`, `NaN` and `false`
      are falsy (`String(-0)` is "0"); functions, arrays and objects are truthy. */
  predicate Truthy(v: Value) {
    match v
    case Null => false
    case Undefined => false
    case Str(s) => s != ""
    case Prim(t) => t != "0" && t != "NaN" && t != "false"
    case _ => true
  }

  /** `typeof v === 'object'`: true for `null`, arrays and objects. */
  predicate IsObjectType(v: Value) {
    v.Null? || v.Arr? || v.Obj?
  }

  /** `String(v)`. An array is its elements joined with ",", where `null` and
      `undefined` elements contribute nothing. */
  function JsString(v: Value): string
    decreases v, 1
  {
    match v
    case Null => "null"
    case Undefined => "undefined"
    case Str(s) => s
    case Prim(t) => t
    case Thunk(src, _) => src
    case Arr(items) => JoinItems(v, |items|)
    case Obj(_) => ObjectTag
  }

  /** `Array.prototype.join(",")` over the first `k` elements of the array `v`. */
  function JoinItems(v: Value, k: nat): string
    requires v.Arr? && k <= |v.items|
    decreases v, 0, k
  {
    if k == 0 then ""
    else
      var x := v.items[k - 1];
      var t := if x.Null? || x.Undefined? then "" else JsString(x);
      if k == 1 then t else JoinItems(v, k - 1) + "," + t
  }

  /** The decimal digit for `d`. */
  function DigitChar(d: nat): (c: char)
    requires d < 10
    ensures '0' <= c <= '9'
  {
    ('0' as int + d) as char
  }

  /** `String(n)` for a non-negative integer. */
  function NatToString(n: nat): (r: string)
    ensures |r| >= 1
    ensures forall i :: 0 <= i < |r| ==> '0' <= r[i] <= '9'
  {
    if n < 10 then [DigitChar(n)] else NatToString(n / 10) + [DigitChar(n % 10)]
  }

  /** `String(n)` for an integer. */
  function IntToString(n: int): (r: string)
    ensures |r| >= 1
    ensures (r[0] == '-') <==> n < 0
  {
    if n < 0 then "-" + NatToString(-n) else NatToString(n)
  }

  /** `Object.keys(v)` paired with `v[key]`: the indices of an array or a string
      (a string's entries are its one-character strings), the keys of an object;
      numbers, booleans and functions have no own enumerable keys. On `null` and
      `undefined` `Object.keys` throws; the encoder reaches them only where it
      would throw anyway, so they are given no keys here. */
  function OwnEntries(v: Value): (r: seq<(string, Value)>)
    ensures v.Arr? ==> |r| == |v.items|
    ensures v.Arr? ==> forall i :: 0 <= i < |r| ==> r[i] == (NatToString(i), v.items[i])
    ensures v.Str? ==> |r| == |v.s|
    ensures v.Str? ==> forall i :: 0 <= i < |r| ==> r[i] == (NatToString(i), Str([v.s[i]]))
    ensures v.Obj? ==> r == v.entries
    ensures !(v.Arr? || v.Str? || v.Obj?) ==> r == []
  {
    match v
    case Arr(items) => seq(|items|, i requires 0 <= i < |items| => (NatToString(i), items[i]))
    case Str(s) => seq(|s|, i requires 0 <= i < |s| => (NatToString(i), Str([s[i]])))
    case Obj(es) => es
    case _ => []
  }

  /** `v[key]` for a truthy `v`: an object's own property, or `undefined` when it
      has none. Arrays, strings, numbers, booleans and functions are given no
      property named by a non-index key. */
  function Lookup(v: Value, key: string): Value {
    match v
    case Obj(es) => LookupEntries(es, key)
    case _ => Undefined
  }

  /** The value of the first entry named `key`, or `undefined` when there is none. */
  function LookupEntries(es: seq<(string, Value)>, key: string): (r: Value)
    ensures r == Undefined || exists i :: 0 <= i < |es| && es[i] == (key, r)
    ensures (forall i :: 0 <= i < |es| ==> es[i].0 != key) ==> r == Undefined
    ensures forall i :: 0 <= i < |es| && es[i].0 == key && (forall j :: 0 <= j < i ==> es[j].0 != key) ==>
      r == es[i].1
  {
    if es == [] then Undefined
    else if es[0].0 == key then es[0].1
    else LookupEntries(es[1..], key)
  }

  /** No key occurs twice, as in the own keys of any object and in what `JSON.parse`
      builds (it keeps one entry per key). */
  predicate DistinctKeys(es: seq<(string, Value)>) {
    forall i, j :: 0 <= i < j < |es| ==> es[i].0 != es[j].0
  }

  /** With distinct keys, looking a key up gives the value of its one entry, wherever
      that entry stands. */
  lemma LookupDistinct(es: seq<(string, Value)>, key: string, i: nat)
    requires DistinctKeys(es) && i < |es| && es[i].0 == key
    ensures LookupEntries(es, key) == es[i].1
  {
  }

  /** A measure that every value the query encoder recurses into makes smaller:
      the elements of an array, the values of an object, and the one-character
      strings a longer string is split into. */
  function Size(v: Value): nat
    decreases v, 1
  {
    match v
    case Arr(items) => 1 + ItemsSize(v, |items|)
    case Obj(es) => 1 + EntriesSize(v, |es|)
    case Str(s) => if |s| < 2 then 1 else 2
    case _ => 1
  }

  function ItemsSize(v: Value, k: nat): nat
    requires v.Arr? && k <= |v.items|
    decreases v, 0, k
  {
    if k == 0 then 0 else ItemsSize(v, k - 1) + Size(v.items[k - 1])
  }

  function EntriesSize(v: Value, k: nat): nat
    requires v.Obj? && k <= |v.entries|
    decreases v, 0, k
  {
    if k == 0 then 0 else EntriesSize(v, k - 1) + Size(v.entries[k - 1].1)
  }

  lemma {:induction false} ItemsSizeBound(v: Value, k: nat, i: nat)
    requires v.Arr? && i < k <= |v.items|
    ensures Size(v.items[i]) <= ItemsSize(v, k)
    decreases k
  {
    if i < k - 1 { ItemsSizeBound(v, k - 1, i); }
  }

  lemma {:induction false} EntriesSizeBound(v: Value, k: nat, i: nat)
    requires v.Obj? && i < k <= |v.entries|
    ensures Size(v.entries[i].1) <= EntriesSize(v, k)
    decreases k
  {
    if i < k - 1 { EntriesSizeBound(v, k - 1, i); }
  }

  /** Every array element is smaller than the array. */
  lemma ItemSmaller(v: Value, i: nat)
    requires v.Arr? && i < |v.items|
    ensures Size(v.items[i]) < Size(v)
  {
    ItemsSizeBound(v, |v.items|, i);
  }

  /** Whenever `Object.keys(v)` has at least two entries, every value it pairs a
      key with is smaller than `v`. */
  lemma EntrySmaller(v: Value, i: nat)
    requires 2 <= |OwnEntries(v)| && i < |OwnEntries(v)|
    ensures Size(OwnEntries(v)[i].1) < Size(v)
  {
    match v
    case Arr(items) => ItemsSizeBound(v, |items|, i);
    case Obj(es) => EntriesSizeBound(v, |es|, i);
    case Str(s) =>
  }
}
