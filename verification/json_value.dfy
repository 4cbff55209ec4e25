/**
 * The decoded form of Go's `interface{}` payloads: what `encoding/json`
 * produces when it decodes a design document into untyped values.
 *
 * Objects are maps, so the order in which a document lists an object's
 * fields is not part of the value. Go's `json.Marshal` writes map keys in
 * sorted order, so two values marshal to the same text exactly when they are
 * equal as values of this datatype; the style table compares by this
 * equality. Numbers are exact reals, not IEEE doubles.
 */
module JsonValue {

  datatype Json =
    | JNull
    | JBool(b: bool)
    | JNum(n: real)
    | JStr(s: string)
    | JArr(items: seq<Json>)
    | JObj(fields: map<string, Json>)
}
