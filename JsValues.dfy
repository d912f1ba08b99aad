/**
 The few pieces of JavaScript semantics the UID lookup depends on: values, the
 ToBoolean conversion behind `!`, the nullish-coalescing operator `??` and optional
 member access `?.[key]`, as ECMA-262 defines them.
 */
module JsValues {

  /**
   A JavaScript value. `Num` stands for a finite number (its sign of zero is irrelevant
   here), `Infinity` and `NaN` for the other numbers, `Obj` for every object, arrays
   included, with its own enumerable properties.
   */
  datatype JsValue =
    | Undefined
    | Null
    | Bool(b: bool)
    | Num(x: real)
    | Infinity(negative: bool)
    | NaN
    | Str(s: string)
    | Obj(props: map<string, JsValue>)

  /** `undefined` and `null`, the two values that `??` and `?.` skip. */
  predicate IsNullish(v: JsValue) {
    v.Undefined? || v.Null?
  }

  /** ToBoolean: `false`, zero, NaN, the empty string, `null` and `undefined` are falsy. */
  predicate Truthy(v: JsValue): (t: bool)
    ensures !t <==>
      v == Undefined || v == Null || v == Bool(false) || v == Num(0.0) || v == NaN || v == Str("")
  {
    match v
    case Undefined => false
    case Null => false
    case Bool(b) => b
    case Num(x) => x != 0.0
    case Infinity(_) => true
    case NaN => false
    case Str(s) => s != ""
    case Obj(_) => true
  }

  /** `a ?? b`: the left operand unless it is nullish, then the right one. */
  function Coalesce(a: JsValue, b: JsValue): (r: JsValue)
    ensures r == a || r == b
    ensures !IsNullish(a) ==> r == a
    ensures IsNullish(a) ==> r == b
    ensures IsNullish(r) <==> IsNullish(a) && IsNullish(b)
  {
    if IsNullish(a) then b else a
  }

  /**
   `a ?? b ?? c` parses as `(a ?? b) ?? c`; grouping does not matter, since either way the
   result is the first operand that is not nullish, or else the last.
   */
  lemma CoalesceAssociative(a: JsValue, b: JsValue, c: JsValue)
    ensures Coalesce(Coalesce(a, b), c) == Coalesce(a, Coalesce(b, c))
  {
  }

  /**
   `v?.[key]`: `undefined` when `v` is nullish; an object's property, or `undefined`
   when it has none. Primitives have no property under the keys looked up here.
   */
  function OptionalMember(v: JsValue, key: string): (r: JsValue)
    ensures IsNullish(v) ==> r == Undefined
    ensures v.Obj? && key in v.props ==> r == v.props[key]
    ensures r != Undefined ==> v.Obj? && key in v.props && r == v.props[key]
  {
    match v
    case Obj(props) => if key in props then props[key] else Undefined
    case _ => Undefined
  }
}
