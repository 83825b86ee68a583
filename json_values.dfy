/**
 * Decoded configuration files and JsonLocalConfig::load.
 *
 * json_decode itself is not modelled: the environment supplies, per path,
 * what json_decode($contents, true) returned together with json_last_error().
 */
module JsonValues {
  import opened Wrappers

  /** A value as json_decode(..., true) returns it. The merge never looks inside one. */
  datatype Json =
    | JNull
    | JBool(b: bool)
    | JNumber(literal: string)
    | JString(s: string)
    | JList(items: seq<Json>)
    | JObject(members: map<string, Json>)

  /** A json_last_error() code other than JSON_ERROR_NONE (which is 0). */
  type ErrorCode = c: int | c > 0 witness 1

  /**
   * The decoder's answer for one file: a value with json_last_error() equal
   * to JSON_ERROR_NONE (a null value here is the "empty file" case), or null
   * with an error code.
   */
  datatype Decoded = Parsed(value: Json) | Malformed(code: ErrorCode)

  /** A key of a PHP array: a JSON list gives integer keys, a JSON object string keys. */
  datatype Key = Index(i: int) | Name(s: string)

  /** The exceptions construction can throw. */
  datatype ConfigError =
    | InvalidFilename                         // InvalidArgumentException: filename must be non-empty string
    | EmptyConfig(path: string)               // decoded to null without a decode error ("seems to be empty file")
    | DecodeFailed(path: string, code: ErrorCode)  // decoded to null with a decode error
    | NotAnArray(path: string)                // decoded to a string, number or boolean

  /** is_array on a decoded value: with $assoc = true both lists and objects are PHP arrays. */
  predicate IsArray(v: Json) {
    v.JList? || v.JObject?
  }

  /** The PHP array a decoded list or object stands for, keyed as foreach would see it. */
  function Entries(v: Json): (m: map<Key, Json>)
    requires IsArray(v)
    ensures forall k :: k in m <==> (v.JList? && k.Index? && 0 <= k.i < |v.items|) || (v.JObject? && k.Name? && k.s in v.members)
    ensures forall i :: v.JList? && 0 <= i < |v.items| ==> m[Index(i)] == v.items[i]
    ensures forall name :: v.JObject? && name in v.members ==> m[Name(name)] == v.members[name]
  {
    match v
    case JList(items) => map i | 0 <= i < |items| :: Index(i) := items[i]
    case JObject(members) => map name | name in members :: Name(name) := members[name]
  }

  /**
   * JsonLocalConfig::load on what the decoder returned for `path`: null is
   * rejected (as an "empty file" when there was no decode error, which also
   * covers a file holding the literal null), and so is any value that is not
   * a PHP array.
   */
  function Load(path: string, d: Decoded): (r: Result<map<Key, Json>, ConfigError>)
    ensures r.Success? <==> d.Parsed? && IsArray(d.value)
    ensures d == Parsed(JNull) ==> r == Failure(EmptyConfig(path))
    ensures d.Malformed? ==> r == Failure(DecodeFailed(path, d.code))
    ensures d.Parsed? && !d.value.JNull? && !IsArray(d.value) ==> r == Failure(NotAnArray(path))
    ensures r.Success? ==> r.value == Entries(d.value)
  {
    match d
    case Malformed(code) => Failure(DecodeFailed(path, code))
    case Parsed(v) =>
      if v.JNull? then Failure(EmptyConfig(path))
      else if !IsArray(v) then Failure(NotAnArray(path))
      else Success(Entries(v))
  }
}
