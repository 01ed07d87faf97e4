/** The fragment of JavaScript's value semantics the hmpl-dom code relies on:
    `typeof`, `Array.isArray`, strict equality, truthiness, `||` and reads of
    plain data properties. */
module Js {

  /** Identity of a heap-allocated value (array, object or function). */
  type Ref = nat

  /** A JavaScript value. Numbers are integers here. Objects, arrays and
      functions carry their own data properties (an array's elements and a
      function's built-in `name`/`length` are not among the keys read here). */
  datatype JsValue =
    | Undefined
    | Null
    | Bool(b: bool)
    | Num(n: int)
    | Str(s: string)
    | Arr(ref: Ref, elems: seq<JsValue>, props: map<string, JsValue>)
    | Obj(ref: Ref, props: map<string, JsValue>)
    | Fn(ref: Ref, props: map<string, JsValue>)

  /** The `typeof` operator. */
  function TypeOf(v: JsValue): string {
    match v
    case Undefined => "undefined"
    case Null => "object"
    case Bool(_) => "boolean"
    case Num(_) => "number"
    case Str(_) => "string"
    case Arr(_, _, _) => "object"
    case Obj(_, _) => "object"
    case Fn(_, _) => "function"
  }

  /** `Array.isArray`. */
  predicate IsArray(v: JsValue) {
    v.Arr?
  }

  /** `a === b`: primitives compare by value, heap values by identity. */
  predicate StrictEquals(a: JsValue, b: JsValue) {
    match (a, b)
    case (Undefined, Undefined) => true
    case (Null, Null) => true
    case (Bool(x), Bool(y)) => x == y
    case (Num(x), Num(y)) => x == y
    case (Str(x), Str(y)) => x == y
    case (Arr(x, _, _), Arr(y, _, _)) => x == y
    case (Obj(x, _), Obj(y, _)) => x == y
    case (Fn(x, _), Fn(y, _)) => x == y
    case _ => false
  }

  /** `checkObject`: `typeof val === "object" && !Array.isArray(val) && val !== null`.
      It holds exactly of plain objects. */
  function CheckObject(v: JsValue): (r: bool)
    ensures r <==> v.Obj?
  {
    TypeOf(v) == "object" && !IsArray(v) && !StrictEquals(v, Null)
  }

  /** The values `if (v)` treats as true. */
  predicate Truthy(v: JsValue) {
    match v
    case Undefined => false
    case Null => false
    case Bool(b) => b
    case Num(n) => n != 0
    case Str(s) => s != ""
    case _ => true
  }

  /** `a || b`: the first operand when it is truthy, otherwise the second. */
  function Or(a: JsValue, b: JsValue): JsValue {
    if Truthy(a) then a else b
  }

  /** Reading any property of these throws a TypeError. */
  predicate IsNullish(v: JsValue) {
    v.Undefined? || v.Null?
  }

  /** Values that carry their own properties: objects, arrays, functions. */
  predicate HasProps(v: JsValue) {
    v.Obj? || v.Arr? || v.Fn?
  }

  /** `v[key]` for one of the keys the code reads (`id`, `value`, `compile`,
      ...): none of them is inherited from a built-in prototype, so only an
      own property can supply a value, and a primitive yields `undefined`. */
  function Get(v: JsValue, key: string): (r: JsValue)
    requires !IsNullish(v)
    ensures r != Undefined ==> HasProps(v) && key in v.props && r == v.props[key]
    ensures HasProps(v) && key in v.props ==> r == v.props[key]
  {
    if HasProps(v) && key in v.props then v.props[key] else Undefined
  }

  /** `v.hasOwnProperty(key)`. */
  predicate HasOwn(v: JsValue, key: string) {
    HasProps(v) && key in v.props
  }
}
