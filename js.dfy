/**
 * The JavaScript values that reach the back end after JSON parsing, with the
 * pieces of JavaScript semantics the validators lean on: truthiness, the
 * `length` property, the number conversion of a comparison, and property lookup.
 */
module Js {
  import opened Wrappers
  import opened Text

  /**
   * A parsed JSON value. Numbers are exact reals: JSON has no NaN or Infinity.
   * An object is its members in order; `JSON.parse` keeps one member per key,
   * so an object that came from a request body has unique keys (`UniqueKeys`).
   */
  datatype Value =
    | Null
    | Bool(b: bool)
    | Number(n: real)
    | Str(s: string)
    | Array(elems: seq<Value>)
    | Object(members: seq<Member>)

  /** One own property of an object literal, in the order the request body lists them. */
  datatype Member = Member(key: string, value: Value)

  /** JavaScript truthiness: `null`, `false`, `0`, `""` are falsy; every array and object is truthy. */
  predicate Truthy(v: Value) {
    match v
    case Null => false
    case Bool(b) => b
    case Number(n) => n != 0.0
    case Str(s) => s != ""
    case Array(_) => true
    case Object(_) => true
  }

  /**
   * `v.length`: the number of characters of a string or elements of an array,
   * an object's own `length` member (`undefined` when it has none), and
   * `undefined` (None) for numbers and booleans. `null.length` throws; every
   * caller here has ruled null out first.
   */
  function Length(v: Value): (r: Option<Value>)
    ensures v.Str? ==> r == Some(Number(|v.s| as real))
    ensures v.Array? ==> r == Some(Number(|v.elems| as real))
    ensures v.Object? ==> r == Get(v.members, "length")
    ensures v.Null? || v.Bool? || v.Number? ==> r == None
  {
    match v
    case Str(s) => Some(Number(|s| as real))
    case Array(elems) => Some(Number(|elems| as real))
    case Object(members) => Get(members, "length")
    case _ => None
  }

  /**
   * `ToNumber`, as a relational comparison applies it to an operand that may
   * be `undefined`; None is NaN. Strings, arrays and objects count as NaN here.
   */
  function ToNumber(v: Option<Value>): (r: Option<real>)
    ensures v.None? ==> r.None?
    ensures v.Some? && v.value.Number? ==> r == Some(v.value.n)
  {
    match v
    case Some(Null) => Some(0.0)
    case Some(Bool(b)) => Some(if b then 1.0 else 0.0)
    case Some(Number(n)) => Some(n)
    case _ => None
  }

  /** `x >= bound` for a number `bound`: false whenever `x` converts to NaN. */
  predicate AtLeast(x: Option<Value>, bound: real) {
    ToNumber(x).Some? && ToNumber(x).value >= bound
  }

  /** `x > bound` for a number `bound`: false whenever `x` converts to NaN. */
  predicate Above(x: Option<Value>, bound: real) {
    ToNumber(x).Some? && ToNumber(x).value > bound
  }

  /** `Number.isInteger(v)`. */
  predicate IsInteger(v: Value) {
    v.Number? && v.n == v.n.Floor as real
  }

  /** `Object.keys(obj)`, in insertion order. */
  function Keys(obj: seq<Member>): (ks: seq<string>)
    ensures |ks| == |obj|
    ensures forall i :: 0 <= i < |obj| ==> ks[i] == obj[i].key
  {
    if obj == [] then [] else [obj[0].key] + Keys(obj[1..])
  }

  /** The decimal indices "0", "1", … below `n`, the keys of a string or an array of that length. */
  function Indices(n: nat): (ks: seq<string>)
    ensures |ks| == n
    ensures forall i :: 0 <= i < n ==> ks[i] == IntToString(i)
  {
    if n == 0 then [] else Indices(n - 1) + [IntToString(n - 1)]
  }

  /**
   * `Object.keys(v)`: an object's keys, the indices of a string or an array,
   * no keys for a number or a boolean; `Object.keys(null)` throws (None).
   */
  function ObjectKeys(v: Value): (ks: Option<seq<string>>)
    ensures ks.None? <==> v.Null?
    ensures v.Object? ==> ks == Some(Keys(v.members))
    ensures v.Str? ==> ks == Some(Indices(|v.s|))
    ensures v.Array? ==> ks == Some(Indices(|v.elems|))
    ensures v.Bool? || v.Number? ==> ks == Some([])
  {
    match v
    case Null => None
    case Str(s) => Some(Indices(|s|))
    case Array(elems) => Some(Indices(|elems|))
    case Object(members) => Some(Keys(members))
    case _ => Some([])
  }

  /** A canonical array index: decimal digits without a leading zero, as `String(i)` prints them. */
  predicate IsIndexKey(key: string) {
    |key| >= 1 && (forall i :: 0 <= i < |key| ==> IsDigit(key[i])) && (|key| > 1 ==> key[0] != '0')
  }

  /**
   * `v[key]` for an own property: an object's member, a string's `length` and
   * one-character strings at its indices, an array's `length` and elements;
   * numbers and booleans have none. `null[key]` throws; callers rule it out.
   */
  function Property(v: Value, key: string): (r: Option<Value>)
    ensures v.Object? ==> r == Get(v.members, key)
    ensures v.Str? && key == "length" ==> r == Some(Number(|v.s| as real))
    ensures v.Null? || v.Bool? || v.Number? ==> r.None?
  {
    match v
    case Object(members) => Get(members, key)
    case Str(s) =>
      if key == "length" then Some(Number(|s| as real))
      else if IsIndexKey(key) && ParseDigits(key) < |s| then Some(Str([s[ParseDigits(key)]]))
      else None
    case Array(elems) =>
      if key == "length" then Some(Number(|elems| as real))
      else if IsIndexKey(key) && ParseDigits(key) < |elems| then Some(elems[ParseDigits(key)])
      else None
    case _ => None
  }

  /** The own properties other than indices and `length`: an object's members, and none for any other value. */
  function Members(v: Value): seq<Member> {
    if v.Object? then v.members else []
  }

  /** A JSON object has each key once. */
  predicate UniqueKeys(obj: seq<Member>) {
    forall i, j :: 0 <= i < j < |obj| ==> obj[i].key != obj[j].key
  }

  /** `obj[key]`: the value stored under `key`, or `undefined`. */
  function Get(obj: seq<Member>, key: string): (r: Option<Value>)
    ensures r.None? <==> key !in Keys(obj)
    ensures r.Some? ==> Member(key, r.value) in obj
  {
    if obj == [] then None
    else if obj[0].key == key then Some(obj[0].value)
    else Get(obj[1..], key)
  }

  /** In an object with unique keys, a member's key reads back that member's value. */
  lemma {:induction false} GetMember(obj: seq<Member>, key: string, value: Value)
    requires UniqueKeys(obj) && Member(key, value) in obj
    ensures Get(obj, key) == Some(value)
  {
    if obj[0] != Member(key, value) {
      assert Member(key, value) in obj[1..];
      var j :| 0 <= j < |obj[1..]| && obj[1..][j] == Member(key, value);
      assert obj[1 + j].key == key;
      GetMember(obj[1..], key, value);
    }
  }
}
