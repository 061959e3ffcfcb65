/**
  JavaScript values as the notes router sees them after `express.json()` has
  parsed a request body, together with the two tests the router applies to
  them: loose equality with `null` and truthiness.
*/
module JsValues {

  /** A JSON value, plus `undefined` for a property that is not there.
      Numbers are restricted to integers (JSON bodies of the router carry
      ids and names; fractional numbers are not modelled). */
  datatype JsValue =
    | Undefined
    | Null
    | Bool(b: bool)
    | Num(n: int)
    | Str(s: string)
    | Arr(items: seq<JsValue>)
    | Obj(fields: map<string, JsValue>)

  /** `value == null`: loose equality with null holds for null and undefined only. */
  predicate IsNullish(v: JsValue) {
    v.Undefined? || v.Null?
  }

  /** `Boolean(value)`: false, 0, "" , null and undefined are falsy; everything else,
      every array and object included, is truthy. */
  predicate Truthy(v: JsValue) {
    match v
    case Undefined => false
    case Null => false
    case Bool(b) => b
    case Num(n) => n != 0
    case Str(s) => s != ""
    case Arr(_) => true
    case Obj(_) => true
  }

  /** Reading `obj.key` from a plain object: an absent key reads as undefined. */
  function Field(obj: map<string, JsValue>, key: string): JsValue {
    if key in obj then obj[key] else Undefined
  }

  /** One property of a destructuring `const { key } = v`, for the keys the
      router reads (`note_name`, `content`, `folder_id`). JavaScript throws a
      TypeError when `v` is null or undefined, hence the precondition; on a
      primitive or an array none of those keys is a property, so the result
      is undefined. */
  function Prop(v: JsValue, key: string): JsValue
    requires !IsNullish(v)
  {
    match v
    case Obj(fields) => Field(fields, key)
    case _ => Undefined
  }

  /** `values.filter(Boolean).length`. */
  function CountTruthy(values: seq<JsValue>): (r: nat)
    ensures r <= |values|
    ensures r == 0 <==> forall i | 0 <= i < |values| :: !Truthy(values[i])
    ensures r == |values| <==> forall i | 0 <= i < |values| :: Truthy(values[i])
  {
    if values == [] then 0
    else (if Truthy(values[0]) then 1 else 0) + CountTruthy(values[1..])
  }
}
