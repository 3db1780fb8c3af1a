/** JavaScript values as the browser code meets them in the signed-in
    user object: primitives, arrays and plain objects whose properties are
    listed in `Object.values` order. A `TypeError` is modelled as a
    completion, since the code lets it propagate. */
module JsValues {
  import opened Wrappers

  datatype Prop = Prop(key: string, value: JsValue)

  datatype JsValue =
    | Undefined
    | Null
    | Bool(b: bool)
    | Num(n: int)
    | Str(s: string)
    | Arr(items: seq<JsValue>)
    | Obj(props: seq<Prop>)

  /** The outcome of evaluating an expression: a value, or a thrown `TypeError`. */
  datatype Completion<+T> = Normal(value: T) | TypeError

  /** JavaScript's truthiness (numbers are integers here, so there is no NaN). */
  predicate Truthy(v: JsValue) {
    match v
    case Undefined => false
    case Null => false
    case Bool(b) => b
    case Num(n) => n != 0
    case Str(s) => s != []
    case _ => true
  }

  /** `typeof v === "object"`, which holds for `null` too. */
  predicate IsObject(v: JsValue) {
    v.Null? || v.Arr? || v.Obj?
  }

  predicate IsDigit(c: char) {
    '0' <= c <= '9'
  }

  /** The value of a string of decimal digits. */
  function DigitsValue(s: string): nat
    requires forall k :: 0 <= k < |s| ==> IsDigit(s[k])
  {
    if s == [] then 0
    else
      assert IsDigit(s[|s| - 1]);
      DigitsValue(s[..|s| - 1]) * 10 + (s[|s| - 1] as int - '0' as int)
  }

  /** The array index a property name denotes: a canonical decimal numeral
      (no sign, no leading zero) below 2^32 - 1. */
  function CanonicalIndex(key: string): Option<nat> {
    if key == [] || (|key| > 1 && key[0] == '0') || exists k :: 0 <= k < |key| && !IsDigit(key[k]) then None
    else
      var n := DigitsValue(key);
      if n < 0xFFFF_FFFF then Some(n) else None
  }

  /** The index of the first property with the given name. */
  function PropIndex(props: seq<Prop>, key: string): (k: int)
    ensures -1 <= k < |props|
    ensures k == -1 <==> forall j :: 0 <= j < |props| ==> props[j].key != key
    ensures k >= 0 ==> props[k].key == key && forall j :: 0 <= j < k ==> props[j].key != key
  {
    if props == [] then -1
    else if props[0].key == key then 0
    else
      var k := PropIndex(props[1..], key);
      assert forall j :: 1 <= j < |props| ==> props[j] == props[1..][j - 1];
      if k == -1 then -1 else k + 1
  }

  /** `key in v` for an array or an object: an object's own property, or
      an array's `length` or one of its indices. */
  predicate HasKey(v: JsValue, key: string)
    requires v.Arr? || v.Obj?
  {
    match v
    case Obj(props) => PropIndex(props, key) >= 0
    case Arr(items) => key == "length" || (CanonicalIndex(key).Some? && CanonicalIndex(key).value < |items|)
  }

  /** `v[key]`: the property's value, or `undefined` when there is none.
      Properties of primitives (a string's `length`, say) are not modelled. */
  function Get(v: JsValue, key: string): JsValue {
    match v
    case Obj(props) =>
      var k := PropIndex(props, key);
      if k >= 0 then props[k].value else Undefined
    case Arr(items) =>
      if key == "length" then Num(|items|)
      else if CanonicalIndex(key).Some? && CanonicalIndex(key).value < |items| then items[CanonicalIndex(key).value]
      else Undefined
    case _ => Undefined
  }

  /** How many values `Object.values(v)` lists. */
  function ChildCount(v: JsValue): nat {
    match v
    case Obj(props) => |props|
    case Arr(items) => |items|
    case _ => 0
  }

  /** `Object.values(v)[i]`. */
  function Child(v: JsValue, i: nat): JsValue
    requires i < ChildCount(v)
  {
    match v
    case Obj(props) => props[i].value
    case Arr(items) => items[i]
  }

  /** `x` occurs in `s` starting at position `k`. */
  predicate OccursAt(x: string, s: string, k: int) {
    0 <= k <= |s| - |x| && s[k..k + |x|] == x
  }

  /** `x` occurs in `s` as a contiguous piece. */
  predicate IsSubstring(x: string, s: string) {
    exists k :: 0 <= k <= |s| - |x| && OccursAt(x, s, k)
  }

  /** `v.includes(x)`: element membership for an array, substring search
      for a string, and a `TypeError` for anything else (no such method). */
  function Includes(v: JsValue, x: string): (r: Completion<bool>)
    ensures r.TypeError? <==> !v.Arr? && !v.Str?
    ensures v.Arr? && r == Normal(true) ==> exists i :: 0 <= i < |v.items| && v.items[i] == Str(x)
    ensures v.Arr? && r == Normal(false) ==> forall i :: 0 <= i < |v.items| ==> v.items[i] != Str(x)
    ensures v.Str? && |x| <= |v.s| && v.s[..|x|] == x ==> r == Normal(true)
  {
    match v
    case Arr(items) => Normal(Str(x) in items)
    case Str(s) =>
      assert |x| <= |s| && s[..|x|] == x ==> OccursAt(x, s, 0);
      Normal(IsSubstring(x, s))
    case _ => TypeError
  }
}
