/** The values the Windows AI actions runtime hands to the indexer extension:
    the catalog of actions, their overloads and input slots, and the file
    item the user selected in the Command Palette. Everything here is an
    immutable snapshot; the remote objects behind it are not modelled. */
module ActionCatalog {

  /** A reference that may be null. */
  datatype Option<+T> = None | Some(value: T)

  /** `ActionEntityKind`: the kind of entity an input slot accepts. The matcher
      and the invoker only ever test for Photo, Document and File; every other
      value of the enumeration is `Other`, told apart by its numeric code. */
  datatype EntityKind = Photo | Document | File | Other(code: int)

  /** `ActionEntityRegistrationInfo`: a named, typed input slot of an overload. */
  datatype InputSlot = InputSlot(name: string, kind: EntityKind)

  /** `ActionOverload`: one invocation signature of an action, as returned by
      `GetInputs()`, together with the text shown for it. */
  datatype Overload = Overload(descriptionTemplate: string, inputs: seq<InputSlot>)

  /** `ActionDefinition`: identity, icon and overloads (`GetOverloads()`). */
  datatype ActionDefinition = ActionDefinition(id: string, iconFullPath: string, overloads: seq<Overload>)

  /** The `ActionRuntime`, reduced to what its `ActionCatalog.GetAllActions()`
      returns during one construction of a list item. */
  datatype Runtime = Runtime(catalog: seq<ActionDefinition>)

  /** `IndexerItem`: the file or directory found by the indexer. */
  datatype IndexerItem = IndexerItem(fullPath: string, fileName: string, isDirectory: bool)
}
