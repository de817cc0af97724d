/**
 * The JSON values that arrive in request bodies, and the few JavaScript
 * coercions the handlers apply to them: truthiness, property access and
 * `String(x)`.
 */
module Json {
  import opened Wrappers
  import opened Numerals

  /** A parsed JSON value. Numbers are integers in this model. */
  datatype Json =
    | JNull
    | JBool(b: bool)
    | JNum(n: int)
    | JStr(s: string)
    | JArr(items: seq<Json>)
    | JObj(fields: map<string, Json>)

  /** JavaScript truthiness: `null`, `false`, `0` and `""` are falsy. */
  predicate Truthy(j: Json)
    ensures Truthy(j) <==> j !in {JNull, JBool(false), JNum(0), JStr("")}
  {
    match j
    case JNull => false
    case JBool(b) => b
    case JNum(n) => n != 0
    case JStr(s) => s != ""
    case JArr(_) => true
    case JObj(_) => true
  }

  /** `j[key]`: an own property of an object; `undefined` (None) otherwise. */
  function Field(j: Json, key: string): (r: Option<Json>)
    ensures r.Some? <==> j.JObj? && key in j.fields
    ensures r.Some? ==> r.value == j.fields[key]
  {
    if j.JObj? && key in j.fields then Some(j.fields[key]) else None
  }

  /** `Array.prototype.join(",")` on strings that are already converted. */
  function JoinComma(parts: seq<string>): string
  {
    if parts == [] then ""
    else if |parts| == 1 then parts[0]
    else JoinComma(parts[..|parts| - 1]) + "," + parts[|parts| - 1]
  }

  /** `String(j)`; inside an array, `null` elements become the empty string. */
  function Stringify(j: Json): (r: string)
    ensures j.JStr? ==> r == j.s
    ensures j.JArr? && j.items == [] ==> r == ""
    ensures j.JArr? && |j.items| == 1 && j.items[0].JStr? ==> r == j.items[0].s
    ensures j.JArr? && |j.items| == 1 && j.items[0].JNull? ==> r == ""
    decreases j
  {
    match j
    case JNull => "null"
    case JBool(b) => if b then "true" else "false"
    case JNum(n) => IntText(n)
    case JStr(s) => s
    case JArr(items) =>
      JoinComma(seq(|items|, i requires 0 <= i < |items| =>
                  if items[i].JNull? then "" else Stringify(items[i])))
    case JObj(_) => "[object Object]"
  }

  /** A one-element array converts as its element does, `null` aside. */
  lemma StringifySingleton(e: Json)
    requires !e.JNull?
    ensures Stringify(JArr([e])) == Stringify(e)
  {
    var parts := seq(1, i requires 0 <= i < 1 => if [e][i].JNull? then "" else Stringify([e][i]));
    assert parts == [Stringify(e)];
  }

  /** `String(v || '')` for a property `v` that may be undefined. */
  function TextOrEmpty(v: Option<Json>): (r: string)
    ensures v.None? || !Truthy(v.value) ==> r == ""
    ensures v.Some? && v.value.JStr? ==> r == v.value.s
  {
    if v.None? || !Truthy(v.value) then "" else Stringify(v.value)
  }
}
