/**
 * The exceptions the dry run throws and catches, one constructor per kind of
 * message. The translated message text is not modelled; the data a message
 * names (a target, a new name, the valid fields) is.
 */
module Errors {

  datatype Error =
    | InvalidTid                 // the tid given is not one of the key's tids
    | Duplicated                 // several records under the key and no tid given
    | NotFound                   // no record under the key
    | FlaggedForDelete           // the record is marked for deletion
    | MergedInto(targetVocabularyName: string, targetTermName: string)
    | RenamedTo(newName: string)
    | AlreadyExists              // create, and rename onto an existing name
    | InvalidVocabulary
    | EmptyNewName
    | AlreadyMoved
    | SelfParent
    | IsAncestor                 // the term is among the new parent's ancestors
    | Locked
    | HasChildren
    | SelfMerge
    | TargetNotCreated
    | MissingTargetField(validFields: seq<string>)
    | FieldNotAllowed(field: string, validFields: seq<string>)
    | InvalidAction(value: string)

  /** A value or the exception that replaced it. */
  datatype Result<+T> = Ok(value: T) | Err(error: Error)
}
