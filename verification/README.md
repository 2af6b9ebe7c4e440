# Command Palette indexer: action offers and action invocation

This project models the two decision procedures at the centre of the
Command Palette indexer extension's support for Windows AI actions:

- **Offer matching and context-menu layout** (`IndexerListItem`). For a
  file or directory found by the indexer, the constructor picks the primary
  command according to the browse mode (`IncludeBrowseCommand`). It then
  lower-cases the path's extension, walks the action catalog (actions, their
  overloads, each overload's inputs) and offers one `ExecuteActionCommand`
  per overload that has exactly one input accepted by a fixed table: Photo
  for `.jpg`/`.jpeg`/`.png`, Document for `.docx`/`.doc`/`.pdf`/`.txt`, File
  for anything. Last, it lays out `MoreCommands`.
- **Invocation outcome** (`ExecuteActionCommand`). Creating an invocation
  context, re-checking the single input, binding the entity for the input's
  kind and invoking the overload give either `GoHome` or a toast.

Modules, one per concern:

- `ActionCatalog` (`action_catalog.dfy`): the catalog snapshot, entity kinds, input slots, overloads, actions, the indexer item.
- `PathText` (`path_text.dfy`): `Path.GetExtension` as it behaves on Windows, and invariant lower-casing.
- `ExecuteAction` (`execute_action.dfy`): the command, `SetInput`, `InvokeAsync`, `Invoke`.
- `IndexerList` (`indexer_list_item.dfy`): the constructor of the list item, the nested matching loops, and a reference definition of the offers.

The nested loops (`CatalogOffers` over `ActionOffers` over `OverloadOffers`
over `ScanInputs`) follow the source's shape, `break` included. They are
proved equal to an independent reference. That reference enumerates every
(action, overload) pair in catalog order and keeps the eligible ones
(`Select` over `Candidates`). Membership, order and "one offer per overload"
all follow from that equality.

The remote side of an invocation is a parameter (`Remote`). It says whether
the runtime creates an invocation context, and whether `InvokeAsync`
completes or throws with a message. The result records the toast or `GoHome`,
and also the context handed to the remote invoke (None when it is never
reached).

Behaviour of the code worth knowing, which the model keeps:

- Directories are matched like files: line 47 of IndexerListItem.cs tests only the extension and the API contract.
- `SetInput` binds nothing for kinds other than Photo, Document and File, and the invoke still runs with nothing bound. There is no fallback to a generic file entity.
- Exceptions from catalog enumeration are not caught, so there is no empty-list fallback.
- The toast texts are the code's own: "Failed to create invocation context for action <id>", "Action <id> has multiple inputs, which is not supported." and "Failed to invoke action <id>: <message>".

## Model

| member | source | states |
|---|---|---|
| `ExecuteAction.NewExecuteActionCommand` | src/modules/cmdpal/Exts/Microsoft.CmdPal.Ext.Indexer/Commands/ExecuteActionCommand.cs:21-29 | the command keeps the item, runtime, action and overload it was built from; its Name is the overload's description template and its Icon the action's icon path |
| `ExecuteAction.SetInput` | src/modules/cmdpal/Exts/Microsoft.CmdPal.Ext.Indexer/Commands/ExecuteActionCommand.cs:66-83 | for Photo, Document and File inputs exactly one entity is added, under the input's name, whose kind equals the input's kind and whose path is the item's full path; other names are untouched; any other kind leaves the context unchanged |
| `ExecuteAction.InvokeAsync` | src/modules/cmdpal/Exts/Microsoft.CmdPal.Ext.Indexer/Commands/ExecuteActionCommand.cs:39-64 | the remote invoke is reached iff there is a runtime, it creates a context and the overload has exactly one input; the context then holds the bound entity for the action; the result is GoHome iff the invoke was reached and succeeded |
| `ExecuteAction.Invoke` | src/modules/cmdpal/Exts/Microsoft.CmdPal.Ext.Indexer/Commands/ExecuteActionCommand.cs:31-37 | the synchronous entry point returns the asynchronous outcome; GoHome iff runtime, context, one input and remote success all hold |
| `ExecuteAction.ContextCheckComesFirst` | src/modules/cmdpal/Exts/Microsoft.CmdPal.Ext.Indexer/Commands/ExecuteActionCommand.cs:41-45 | a null runtime or null context gives the toast "Failed to create invocation context for action <id>" whatever the input count; nothing is bound or invoked |
| `ExecuteAction.MultipleInputsRefused` | src/modules/cmdpal/Exts/Microsoft.CmdPal.Ext.Indexer/Commands/ExecuteActionCommand.cs:47-50 | with a context, an input count other than 1 gives the "has multiple inputs" toast, which contains the action id; nothing is bound or invoked |
| `ExecuteAction.RemoteFailureReported` | src/modules/cmdpal/Exts/Microsoft.CmdPal.Ext.Indexer/Commands/ExecuteActionCommand.cs:55-63 | a remote invoke throwing message m gives the toast "Failed to invoke action " + id + ": " + m, so both id and m occur in it verbatim |
| `ExecuteAction.UnknownKindInvokedUnbound` | src/modules/cmdpal/Exts/Microsoft.CmdPal.Ext.Indexer/Commands/ExecuteActionCommand.cs:52-56 | a single input of a kind other than Photo, Document or File is still invoked, with an empty context |
| `PathText.GetExtension` | src/modules/cmdpal/Exts/Microsoft.CmdPal.Ext.Indexer/Data/IndexerListItem.cs:45 | the extension is the suffix from the last '.' of the last path segment, when that '.' is not the final character; otherwise it is empty |
| `PathText.ExtensionOfNamedFile` | src/modules/cmdpal/Exts/Microsoft.CmdPal.Ext.Indexer/Data/IndexerListItem.cs:45 | a path ending in "." + ext, with ext free of dots and separators, has extension "." + ext whatever precedes it |
| `PathText.TrailingDotHasNoExtension` | src/modules/cmdpal/Exts/Microsoft.CmdPal.Ext.Indexer/Data/IndexerListItem.cs:45 | a path ending in '.' has an empty extension |
| `ExecuteAction.CreateInvocationContext` | src/modules/cmdpal/Exts/Microsoft.CmdPal.Ext.Indexer/Commands/ExecuteActionCommand.cs:41 | a context exists iff there is a runtime and it does not decline; a new context belongs to the action and holds no inputs yet |
| `PathText.ToLowerInvariant` | src/modules/cmdpal/Exts/Microsoft.CmdPal.Ext.Indexer/Data/IndexerListItem.cs:45 | lower-casing keeps the length and maps each character by the invariant ASCII mapping |
| `PathText.ToLowerIdempotent` | src/modules/cmdpal/Exts/Microsoft.CmdPal.Ext.Indexer/Data/IndexerListItem.cs:45 | lower-casing a lower-cased string changes nothing, and no upper-case ASCII letter is left |
| `IndexerList.ItemExtension` | src/modules/cmdpal/Exts/Microsoft.CmdPal.Ext.Indexer/Data/IndexerListItem.cs:45 | the extension matched against is empty or starts with '.', and holds no upper-case ASCII letter |
| `IndexerList.ItemExtensionOfNamedFile` | src/modules/cmdpal/Exts/Microsoft.CmdPal.Ext.Indexer/Data/IndexerListItem.cs:45 | an item named stem.ext is matched on "." + ext lower-cased, whatever the stem holds |
| `IndexerList.AcceptanceTable` | src/modules/cmdpal/Exts/Microsoft.CmdPal.Ext.Indexer/Data/IndexerListItem.cs:68-72 | Photo is accepted exactly for .jpg/.jpeg/.png, Document exactly for .docx/.doc/.pdf/.txt, File always, any other kind never |
| `IndexerList.ActionOffersAsSelect` | src/modules/cmdpal/Exts/Microsoft.CmdPal.Ext.Indexer/Data/IndexerListItem.cs:55-78 | the loop over one action's overloads (ActionOffers) yields one offer per eligible overload, in overload order |
| `IndexerList.BrowseContext` | src/modules/cmdpal/Exts/Microsoft.CmdPal.Ext.Indexer/Data/IndexerListItem.cs:21-41 | files: open-file is primary, no context; directories: AsDefault makes the directory page primary with open-file as sole context item, Include keeps open-file primary with the directory page as sole context item, Exclude adds nothing |
| `IndexerList.BrowseModesCompared` | src/modules/cmdpal/Exts/Microsoft.CmdPal.Ext.Indexer/Data/IndexerListItem.cs:28-41 | for directories AsDefault and Include show the same two commands with roles swapped and Exclude drops the page; for files the mode makes no difference |
| `IndexerList.ScanInputs` | src/modules/cmdpal/Exts/Microsoft.CmdPal.Ext.Indexer/Data/IndexerListItem.cs:66-77 | the loop over inputs adds at most one command, and adds it iff some input is accepted by the extension table |
| `IndexerList.OverloadOffers` | src/modules/cmdpal/Exts/Microsoft.CmdPal.Ext.Indexer/Data/IndexerListItem.cs:56-77 | an overload yields its one offer iff it has exactly one input and that input is accepted; otherwise nothing |
| `IndexerList.CatalogOffersAsSelect` | src/modules/cmdpal/Exts/Microsoft.CmdPal.Ext.Indexer/Data/IndexerListItem.cs:53-79 | the loop over the catalog's actions (CatalogOffers) produces exactly one offer per eligible (action, overload) pair, in action-then-overload order |
| `IndexerList.CatalogOffersAppend` | src/modules/cmdpal/Exts/Microsoft.CmdPal.Ext.Indexer/Data/IndexerListItem.cs:53-56 | offers of earlier actions come before offers of later ones |
| `IndexerList.OfferedIff` | src/modules/cmdpal/Exts/Microsoft.CmdPal.Ext.Indexer/Data/IndexerListItem.cs:58-75 | an overload of a catalog action is offered iff it has one input whose kind the table accepts for the extension |
| `IndexerList.OffersSound` | src/modules/cmdpal/Exts/Microsoft.CmdPal.Ext.Indexer/Data/IndexerListItem.cs:58-75 | every offer runs an eligible overload of a catalog action on this item with this runtime, named by the overload's template and showing the action's icon |
| `IndexerList.ActionItems` | src/modules/cmdpal/Exts/Microsoft.CmdPal.Ext.Indexer/Data/IndexerListItem.cs:43-49 | without the actions API contract there are no offers; every action item runs an action |
| `IndexerList.NewIndexerListItem` | src/modules/cmdpal/Exts/Microsoft.CmdPal.Ext.Indexer/Data/IndexerListItem.cs:18-91 | the primary command is the browse-mode choice; the menu has context + offers + 5 entries, and an entry runs an action iff it lies strictly after "Open with" and before "Show in folder" |
| `IndexerList.MoreCommandsLayout` | src/modules/cmdpal/Exts/Microsoft.CmdPal.Ext.Indexer/Data/IndexerListItem.cs:82-90 | the menu is the directory context, then Open with, then all offers, then Show in folder, Copy path, Open in console, Properties |
| `IndexerList.InMoreCommandsIffOffered` | src/modules/cmdpal/Exts/Microsoft.CmdPal.Ext.Indexer/Data/IndexerListItem.cs:82-90 | an action command is in the menu iff the matching loops offered it |
| `IndexerList.NoContractNoOffers` | src/modules/cmdpal/Exts/Microsoft.CmdPal.Ext.Indexer/Data/IndexerListItem.cs:47 | when the actions API contract is absent the menu holds only the context and the five file commands |
| `IndexerList.MultiInputNeverOffered` | src/modules/cmdpal/Exts/Microsoft.CmdPal.Ext.Indexer/Data/IndexerListItem.cs:58-64 | no menu entry runs an overload whose input count is not 1, whatever its input kinds |
| `IndexerList.PhotoOfferedIff` | src/modules/cmdpal/Exts/Microsoft.CmdPal.Ext.Indexer/Data/IndexerListItem.cs:45-69 | a catalog overload with a single Photo input is in the menu iff the lower-cased extension is .jpg, .jpeg or .png |
| `IndexerList.DocumentOfferedIff` | src/modules/cmdpal/Exts/Microsoft.CmdPal.Ext.Indexer/Data/IndexerListItem.cs:45-71 | a catalog overload with a single Document input is in the menu iff the lower-cased extension is .docx, .doc, .pdf or .txt |
| `IndexerList.FileAlwaysOffered` | src/modules/cmdpal/Exts/Microsoft.CmdPal.Ext.Indexer/Data/IndexerListItem.cs:47-72 | a catalog overload with a single File input is in the menu for every item, directories and extension-less paths included |
| `IndexerList.OffersReachInvoke` | src/modules/cmdpal/Exts/Microsoft.CmdPal.Ext.Indexer/Commands/ExecuteActionCommand.cs:41-63 | an offered command, once the runtime creates a context, always reaches the remote invoke and yields GoHome or the remote failure toast, never the multiple-inputs toast |
| `IndexerList.UpperCasePhotoScenario` | src/modules/cmdpal/Exts/Microsoft.CmdPal.Ext.Indexer/Data/IndexerListItem.cs:45-90 | "Cat.JPG" with a single-Photo action gets exactly that offer between Open with and Show in folder, and invoking it binds a photo entity for the path under the slot name and goes home |
| `IndexerList.TwoInputScenario` | src/modules/cmdpal/Exts/Microsoft.CmdPal.Ext.Indexer/Data/IndexerListItem.cs:58-64 | a text file and an action whose only overload takes two Document inputs yield no offer |

## Left out

- Creating the action runtime (`ActionRuntimeFactory.CreateActionRuntime`): COM activation and HRESULT marshalling. The runtime is a value carrying its catalog snapshot, and a nullable reference inside the command.
- The `Task.Run(...).Wait()` bridge in `Invoke`: it only moves the work to another thread. `Invoke` returns `InvokeAsync`'s outcome directly.
- `ApiInformation.IsApiContractPresent`: a boolean parameter.
- The remote `overload.InvokeAsync` and `CreateInvocationContext` calls: the `Remote` parameter. The entity factory: tagged entities recording the path.
- The file commands (open, open with, show in folder, copy path, console, properties, directory page), resource strings and icons: opaque tags carrying the path.
- Exceptions thrown while enumerating the catalog: uncaught in the code, so no error path is modelled.
- ExecuteAction.Invoke: modelled as total, but the source can throw out of it. `CreateInvocationContext`, `GetInputs()`, the entity factory and `SetInputEntity` run before the `try` in `InvokeAsync`; an exception there faults the task and `task.Wait()` rethrows it. These throws are not modelled; only exceptions from the remote `InvokeAsync` become a toast.
- IndexerList.NewIndexerListItem: modelled as total, but the constructor throws when `CreateActionRuntime` fails (a failed HRESULT is rethrown in ActionRuntimeFactory.cs) or catalog enumeration throws. These throws are not modelled.
- IndexerList.OffersReachInvoke: assumes `GetInputs()` returns the same inputs when the list item is built and when the command is invoked, since the model reads an overload's inputs once. The invocation-time re-check in the source exists for the case where they differ, which this lemma does not cover.
- The `extension != null` test: it can never fail, because `ToLower` never returns null, and a null path would already throw a NullReferenceException at the `ToLower` call on line 45. A null path is not modelled.
- `IndexerItem.IsDirectory()` reads the file system; it is a field of the item.
- `IncludeBrowseCommand`'s default (Include) for the constructor's parameter: the mode is always passed explicitly.
- `PathText.ToLowerInvariant`: maps only ASCII A-Z to a-z. Culture-invariant case mapping of other characters is not modelled. No non-ASCII character lower-cases onto the letters of the extension table, so matching is unaffected.
- `PathText.GetExtension`: treats '\' and '/' as the only separators, as on Windows; a null path is not modelled.
