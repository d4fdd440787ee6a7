/** The JavaScript values the two adapters receive, and the zk-kit parameter
    checks (`requireDefined`, `requireObject`, `requireNumber`, ...) over them.
    Numbers are integral here: floating point is not modelled. */
module JsValues {

  datatype JsValue =
    | Undefined
    | Null
    | Number(num: int)
    | BigInt(big: int)
    | Str(str: string)
    | Bytes(bytes: seq<bv8>)                   // a Uint8Array
    | Array(items: seq<JsValue>)
    | Object(fields: map<string, JsValue>)     // a plain object

  /** `requireDefined`: `typeof v !== "undefined"`. */
  predicate IsDefined(v: JsValue) {
    !v.Undefined?
  }

  /** `requireObject`: `typeof v === "object"`, which holds of null, arrays and typed arrays too. */
  predicate IsObject(v: JsValue) {
    v.Null? || v.Bytes? || v.Array? || v.Object?
  }

  /** The single-type tests `requireTypes` picks from by name (those the adapters use). */
  predicate IsType(v: JsValue, typeName: string) {
    match typeName
    case "number" => v.Number?
    case "bigint" => v.BigInt?
    case "string" => v.Str?
    case "Uint8Array" => v.Bytes?
    case _ => false
  }

  /** `requireTypes(v, name, typeNames)`: v has one of the listed types. */
  predicate HasOneOfTypes(v: JsValue, typeNames: seq<string>) {
    exists i :: 0 <= i < |typeNames| && IsType(v, typeNames[i])
  }

  /** Reading property `key` of a value that is neither null nor undefined:
      a missing property reads as `undefined`. */
  function Property(v: JsValue, key: string): JsValue {
    if v.Object? && key in v.fields then v.fields[key] else Undefined
  }
}
