/** `ExecuteActionCommand`: the Command Palette command that runs one action
    overload on the selected file, and the outcome it reports to the palette.
    The remote side (creating an invocation context, the asynchronous invoke)
    is a parameter: whether a context is created, and whether the invoke
    completes or throws with a message. */
module ExecuteAction {
  import opened ActionCatalog

  /** The entities the runtime's entity factory builds from a file path. */
  datatype Entity = PhotoEntity(path: string) | DocumentEntity(path: string) | FileEntity(path: string)
  {
    function Kind(): EntityKind {
      match this
      case PhotoEntity(_) => Photo
      case DocumentEntity(_) => Document
      case FileEntity(_) => File
    }
  }

  /** `ActionInvocationContext`: the action it was created for and the input
      entities set on it, by input name. */
  datatype InvocationContext = InvocationContext(actionId: string, inputs: map<string, Entity>)

  datatype IconInfo = IconInfo(path: string)

  datatype ExecuteActionCommand = ExecuteActionCommand(
    item: IndexerItem,
    runtime: Option<Runtime>,
    action: ActionDefinition,
    overload: Overload,
    name: string,
    icon: IconInfo)

  /** `CommandResult`: what the palette does after the command ran. */
  datatype CommandResult = GoHome | ShowToast(message: string)

  /** What `overload.InvokeAsync` does: complete, or throw an exception with a message. */
  datatype RemoteOutcome = Succeeded | Threw(message: string)

  /** The behaviour of the remote runtime for one invocation. */
  datatype Remote = Remote(createsContext: bool, outcome: RemoteOutcome)

  /** The result of `InvokeAsync`, together with the context handed to the
      remote invoke, or None when the invoke step was never reached. */
  datatype Invocation = Invocation(result: CommandResult, invoked: Option<InvocationContext>)

  predicate IsPrefix(p: string, s: string) {
    |p| <= |s| && p == s[..|p|]
  }

  predicate IsSubstring(p: string, s: string) {
    exists i :: 0 <= i <= |s| && IsPrefix(p, s[i..])
  }

  /** The constructor: the command is named after the overload's description
      template and shows the action's icon. */
  function NewExecuteActionCommand(item: IndexerItem, runtime: Option<Runtime>, action: ActionDefinition, overload: Overload): (c: ExecuteActionCommand)
    ensures c.item == item && c.runtime == runtime && c.action == action && c.overload == overload
    ensures c.name == overload.descriptionTemplate
    ensures c.icon == IconInfo(action.iconFullPath)
  {
    ExecuteActionCommand(item, runtime, action, overload, overload.descriptionTemplate, IconInfo(action.iconFullPath))
  }

  function ContextFailureMessage(id: string): string {
    "Failed to create invocation context for action " + id
  }

  function MultipleInputsMessage(id: string): string {
    "Action " + id + " has multiple inputs, which is not supported."
  }

  function InvokeFailureMessage(id: string, message: string): string {
    "Failed to invoke action " + id + ": " + message
  }

  /** The input kinds `SetInput` knows how to build an entity for. */
  predicate IsBindable(kind: EntityKind) {
    kind.Photo? || kind.Document? || kind.File?
  }

  /** `actionRuntime?.CreateInvocationContext(action.Id)`: null when there is
      no runtime or the runtime declines. */
  function CreateInvocationContext(runtime: Option<Runtime>, actionId: string, remote: Remote): (r: Option<InvocationContext>)
    ensures r.Some? <==> runtime.Some? && remote.createsContext
    ensures r.Some? ==> r.value.actionId == actionId && |r.value.inputs| == 0
  {
    if runtime.Some? && remote.createsContext then Some(InvocationContext(actionId, map[])) else None
  }

  /** `SetInput`: build the entity matching the input's kind from the item's
      full path and set it under the input's name; other kinds bind nothing. */
  function SetInput(item: IndexerItem, context: InvocationContext, input: InputSlot): (r: InvocationContext)
    ensures r.actionId == context.actionId
    ensures IsBindable(input.kind) ==>
      && r.inputs.Keys == context.inputs.Keys + {input.name}
      && r.inputs[input.name].Kind() == input.kind
      && r.inputs[input.name].path == item.fullPath
      && forall n :: n in context.inputs && n != input.name ==> r.inputs[n] == context.inputs[n]
    ensures !IsBindable(input.kind) ==> r == context
  {
    if input.kind == Photo then
      context.(inputs := context.inputs[input.name := PhotoEntity(item.fullPath)])
    else if input.kind == Document then
      context.(inputs := context.inputs[input.name := DocumentEntity(item.fullPath)])
    else if input.kind == File then
      context.(inputs := context.inputs[input.name := FileEntity(item.fullPath)])
    else
      context
  }

  /** The context that reaches the remote invoke of command `c`: one entity
      for the single input when its kind is bindable, none otherwise. */
  predicate BoundForInvoke(context: InvocationContext, c: ExecuteActionCommand)
  {
    && context.actionId == c.action.id
    && |c.overload.inputs| == 1
    && var input := c.overload.inputs[0];
       if IsBindable(input.kind) then
         && context.inputs.Keys == {input.name}
         && context.inputs[input.name].Kind() == input.kind
         && context.inputs[input.name].path == c.item.fullPath
       else
         context.inputs == map[]
  }

  /** `InvokeAsync`: context check, then input-count check, then bind and
      invoke, mapping a thrown exception to a toast. */
  function InvokeAsync(c: ExecuteActionCommand, remote: Remote): (r: Invocation)
    ensures r.invoked.Some? <==> c.runtime.Some? && remote.createsContext && |c.overload.inputs| == 1
    ensures r.invoked.Some? ==> BoundForInvoke(r.invoked.value, c)
    ensures r.result.GoHome? <==> r.invoked.Some? && remote.outcome.Succeeded?
  {
    var context := CreateInvocationContext(c.runtime, c.action.id, remote);
    if context.None? then
      Invocation(ShowToast(ContextFailureMessage(c.action.id)), None)
    else if |c.overload.inputs| != 1 then
      Invocation(ShowToast(MultipleInputsMessage(c.action.id)), None)
    else
      var bound := SetInput(c.item, context.value, c.overload.inputs[0]);
      match remote.outcome
      case Succeeded => Invocation(GoHome, Some(bound))
      case Threw(message) => Invocation(ShowToast(InvokeFailureMessage(c.action.id, message)), Some(bound))
  }

  /** `Invoke`: the synchronous entry point returns what `InvokeAsync` produced. */
  function Invoke(c: ExecuteActionCommand, remote: Remote): (r: CommandResult)
    ensures r == InvokeAsync(c, remote).result
    ensures r.GoHome? <==>
      c.runtime.Some? && remote.createsContext && |c.overload.inputs| == 1 && remote.outcome.Succeeded?
  {
    InvokeAsync(c, remote).result
  }

  /** Without a runtime or an invocation context the toast names the action,
      whatever the overload's inputs, and nothing is bound or invoked. */
  lemma ContextCheckComesFirst(c: ExecuteActionCommand, remote: Remote)
    requires c.runtime.None? || !remote.createsContext
    ensures InvokeAsync(c, remote) == Invocation(ShowToast(ContextFailureMessage(c.action.id)), None)
  {
  }

  /** With a context, an overload without exactly one input is refused with a
      toast naming the action before anything is bound or invoked. */
  lemma MultipleInputsRefused(c: ExecuteActionCommand, remote: Remote)
    requires c.runtime.Some? && remote.createsContext
    requires |c.overload.inputs| != 1
    ensures InvokeAsync(c, remote) == Invocation(ShowToast(MultipleInputsMessage(c.action.id)), None)
    ensures IsSubstring(c.action.id, MultipleInputsMessage(c.action.id))
  {
    var msg := MultipleInputsMessage(c.action.id);
    assert IsPrefix(c.action.id, msg[|"Action "|..]);
  }

  /** A remote invoke that throws with `message` is reported as a toast that
      contains both the action's id and the message verbatim. */
  lemma RemoteFailureReported(c: ExecuteActionCommand, remote: Remote, message: string)
    requires c.runtime.Some? && remote.createsContext && |c.overload.inputs| == 1
    requires remote.outcome == Threw(message)
    ensures InvokeAsync(c, remote).result == ShowToast(InvokeFailureMessage(c.action.id, message))
    ensures IsSubstring(c.action.id, InvokeFailureMessage(c.action.id, message))
    ensures IsSubstring(message, InvokeFailureMessage(c.action.id, message))
  {
    var prefix := "Failed to invoke action ";
    var msg := InvokeFailureMessage(c.action.id, message);
    assert msg == prefix + c.action.id + ": " + message;
    assert IsPrefix(c.action.id, msg[|prefix|..]);
    assert msg[|prefix| + |c.action.id| + 2..] == message;
    assert IsPrefix(message, msg[|prefix| + |c.action.id| + 2..]);
  }

  /** An input of a kind other than Photo, Document or File is invoked with an
      empty context: the invoke is still reached, with nothing bound. */
  lemma UnknownKindInvokedUnbound(c: ExecuteActionCommand, remote: Remote, name: string, code: int)
    requires c.runtime.Some? && remote.createsContext
    requires c.overload.inputs == [InputSlot(name, Other(code))]
    ensures InvokeAsync(c, remote).invoked == Some(InvocationContext(c.action.id, map[]))
  {
  }
}
