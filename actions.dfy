/**
 * Actions (the `Types` of src/permission.js). The four named actions and
 * the wildcard ALL are known, but any other string may be used as an
 * action too, so actions form an open set.
 */
module Actions {

  datatype ActionName = ALL | CREATE | READ | UPDATE | DELETE | Other(name: string)
  {
    /** Each action string has one representation: `Other` never spells a named action or the empty string. */
    predicate Canonical() {
      Other? ==> name !in ["", "ALL", "CREATE", "READ", "UPDATE", "DELETE"]
    }
  }

  type Action = a: ActionName | a.Canonical() witness ALL

  /** The concrete actions in the iteration order of `Types`, ALL excluded. */
  const Concrete: seq<Action> := [CREATE, READ, UPDATE, DELETE]

  /** The action's string. */
  function Name(a: Action): string {
    match a
    case ALL => "ALL"
    case CREATE => "CREATE"
    case READ => "READ"
    case UPDATE => "UPDATE"
    case DELETE => "DELETE"
    case Other(n) => n
  }

  /** The action a caller's string denotes; a falsy (empty) action defaults to ALL. */
  function Parse(s: string): Action {
    if s == "" || s == "ALL" then ALL
    else if s == "CREATE" then CREATE
    else if s == "READ" then READ
    else if s == "UPDATE" then UPDATE
    else if s == "DELETE" then DELETE
    else Other(s)
  }

  /** Parsing an action's name gives the action back. */
  lemma ParseName(a: Action)
    ensures Parse(Name(a)) == a
  {
  }

  /** Naming a parsed string gives the string back, except that the empty string becomes "ALL". */
  lemma NameParse(s: string)
    ensures Name(Parse(s)) == if s == "" then "ALL" else s
  {
  }
}
