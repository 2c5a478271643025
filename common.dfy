/**
 * Shared vocabulary of the access-control engine: failure-compatible
 * wrappers, the error kinds the engine raises, the JavaScript values that
 * callers pass as roles and resources, and the identity resolution that
 * turns such a value into a string key (src/common.js).
 */
module Common {

  datatype Option<+T> = None | Some(value: T) {
    function GetOr(default: T): T {
      match this
      case Some(v) => v
      case None => default
    }
  }

  datatype Result<+T, +E> = Ok(value: T) | Err(error: E)

  datatype Outcome<+E> = Pass | Fail(error: E)

  /** The errors the engine raises, one constructor per error class or message. */
  datatype Error =
    | NullError                                                   // falsy identity
    | DuplicateError(entry: string)                               // "Entry '_' is already in the registry."
    | NotFoundError(entry: string)                                // "Entry '_' is not in registry."
    | InvalidError(name: string, reason: string)                  // malformed tuple key
    | PermissionNotFound(perm: string, role: string, resource: string)
    | NotEmpty(registry: string)                                  // import into a non-empty store
    | NullRemoval(kind: string)                                   // "Cannot remove null role/resource"

  /** The wildcard sentinel: the implicit root of every hierarchy. */
  const ASTERISK: string := "*"

  /** What calling `getId()` on an object gives: no such method, a string, or some other value. */
  datatype GetIdResult = NoGetId | GetIdString(id: string) | GetIdOther

  /**
   * A role or resource as a caller passes it: null, undefined, a string,
   * or an object described by its `getId()` result, its `id` field and
   * its `toString()` result.
   */
  datatype Input =
    | Null
    | Undefined
    | Str(s: string)
    | Obj(getId: GetIdResult, idField: Option<string>, text: string)
  {
    /** JavaScript falsiness for the values modelled: null, undefined and the empty string. */
    predicate Falsy() {
      Null? || Undefined? || (Str? && s == "")
    }
  }

  /** getValue: the identity key of a role or resource. */
  function GetValue(v: Input): (r: Result<string, Error>)
    ensures r.Err? <==> v.Falsy()
    ensures r.Err? ==> r.error == NullError
    ensures v.Str? && r.Ok? ==> r.value == v.s
    ensures v.Obj? && v.getId.GetIdString? ==> r == Ok(v.getId.id)
    ensures v.Obj? && !v.getId.GetIdString? ==> r == Ok(v.text)
  {
    match v
    case Null => Err(NullError)
    case Undefined => Err(NullError)
    case Str(s) => if s == "" then Err(NullError) else Ok(s)
    case Obj(getId, _, text) =>
      if getId.GetIdString? then Ok(getId.id) else Ok(text)
  }

  /**
   * The key the permission queries use for a role or resource: the
   * wildcard for a falsy value, otherwise the resolved key, with the
   * wildcard standing in for an empty key (makeKey's substitution).
   */
  function KeyOrStar(v: Input): (k: string)
    ensures k != ""
    ensures v.Falsy() ==> k == ASTERISK
    ensures v.Str? && v.s != "" ==> k == v.s
  {
    if v.Falsy() then ASTERISK
    else
      var s := GetValue(v).value;
      if s == "" then ASTERISK else s
  }

  /** A `getId()` that yields a string wins over the `id` field and `toString()`. */
  lemma GetIdWins(id: string, idField: Option<string>, text: string)
    ensures GetValue(Obj(GetIdString(id), idField, text)) == Ok(id)
  {
  }

  /** A `getId()` that yields no string is ignored and `toString()` decides. */
  lemma NonStringGetIdFallsBack(g: GetIdResult, idField: Option<string>, text: string)
    requires !g.GetIdString?
    ensures GetValue(Obj(g, idField, text)) == Ok(text)
  {
  }

  /**
   * The resolution does not consult an `id` field: two objects that differ
   * only in that field resolve to the same key. In particular an object
   * with `id` "1" and the default `toString()` resolves to "[object Object]".
   */
  lemma IdFieldIgnored(g: GetIdResult, f1: Option<string>, f2: Option<string>, text: string)
    ensures GetValue(Obj(g, f1, text)) == GetValue(Obj(g, f2, text))
    ensures GetValue(Obj(NoGetId, Some("1"), "[object Object]")) == Ok("[object Object]")
  {
  }
}
