/**
 * TermManagerItem: the property bag every term record and operation row is
 * built on. Only the `action` property is validated; every other key,
 * including `node`, `field` and `value`, is stored as given.
 */
module Item {
  import opened Php
  import opened Errors

  /** The actions a row may request; NoAction is the empty string. */
  datatype Action = NoAction | Create | Delete | Merge | Rename | MoveParent

  function ActionName(a: Action): string {
    match a
    case NoAction => ""
    case Create => "create"
    case Delete => "delete"
    case Merge => "merge"
    case Rename => "rename"
    case MoveParent => "move parent"
  }

  /** The action a string names, if it names one of the six allowed values. */
  function ParseAction(s: string): (r: Option<Action>)
    ensures r.Some? ==> ActionName(r.value) == s
    ensures r.None? ==> forall a :: ActionName(a) != s
  {
    if s == "" then Some(NoAction)
    else if s == "create" then Some(Create)
    else if s == "delete" then Some(Delete)
    else if s == "merge" then Some(Merge)
    else if s == "rename" then Some(Rename)
    else if s == "move parent" then Some(MoveParent)
    else None
  }

  /** Every action's name parses back to that action. */
  lemma ParseActionName(a: Action)
    ensures ParseAction(ActionName(a)) == Some(a)
  {
  }

  /** The check `__set` applies to the `action` key (`in_array` over the allowed list). */
  predicate IsAllowedAction(value: string) {
    ParseAction(value).Some?
  }

  /** The error `__set` throws for `key := value`, if any. */
  function SetError(key: string, value: string): (e: Option<Error>)
    ensures e.Some? <==> key == "action" && !(value in {"", "create", "delete", "merge", "rename", "move parent"})
    ensures e.Some? ==> e.value == InvalidAction(value)
  {
    if key == "action" && !IsAllowedAction(value) then Some(InvalidAction(value)) else None
  }

  /**
   * A TermManagerItem object: a bag of properties updated in place through
   * `__set`, `__get` and `__unset`. Operations.Operation is the same bag
   * taken as a value, the row a run carries from step to step together with
   * its recorded error. The two share SetError and ParseAction, so the
   * action check is defined once.
   */
  class PropertyBag {
    var data: map<string, string>

    constructor ()
      ensures data == map[]
    {
      data := map[];
    }

    /**
     * `__set`: stores the value under the key. An action outside the allowed
     * list is still stored (for error reporting) and then reported.
     */
    method Set(key: string, value: string) returns (err: Option<Error>)
      modifies this
      ensures data == old(data)[key := value]
      ensures Get(key) == Some(value)
      ensures err == SetError(key, value)
    {
      data := data[key := value];
      err := SetError(key, value);
    }

    /** `__get`: the stored value, or nothing (PHP null) for a key never set. */
    function Get(key: string): (r: Option<string>)
      reads this
      ensures r.Some? <==> key in data
      ensures r.Some? ==> r.value == data[key]
    {
      if key in data then Some(data[key]) else None
    }

    /** `__isset`. */
    predicate IsSet(key: string)
      reads this
    {
      key in data
    }

    /** `__unset`: removes the key and nothing else. */
    method Unset(key: string)
      modifies this
      ensures data == old(data) - {key}
      ensures !IsSet(key) && Get(key) == None
      ensures forall k :: k != key ==> Get(k) == old(Get(k))
    {
      data := data - {key};
    }
  }
}
