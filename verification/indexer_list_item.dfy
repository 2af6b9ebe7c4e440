/** `IndexerListItem`: the list entry the indexer shows for one file or
    directory. Its constructor picks the primary command, offers every
    catalog action overload that fits the file's extension, and lays out
    the context menu (`MoreCommands`). It is modelled as a pure function of
    the item, the browse mode, whether the actions API contract is present,
    and the runtime's catalog snapshot. */
module IndexerList {
  import opened ActionCatalog
  import opened PathText
  import opened ExecuteAction

  /** Whether a directory's entry browses into it by default, offers browsing
      in its context menu, or not at all. */
  datatype IncludeBrowseCommand = AsDefault | Include | Exclude

  /** The shell commands of the extension, as opaque tags for the path they act on. */
  datatype FileCommand =
    | OpenFile(path: string)
    | OpenWith(path: string)
    | ShowInFolder(path: string)
    | CopyPath(path: string)
    | OpenInConsole(path: string)
    | OpenProperties(path: string)
    | DirectoryPage(path: string)

  datatype Command = Shell(file: FileCommand) | Execute(execute: ExecuteActionCommand)

  datatype ListItem = ListItem(filePath: string, title: string, subtitle: string, command: Command, moreCommands: seq<Command>)

  /** The primary command and the context items that precede "Open with". */
  datatype Browse = Browse(primary: Command, context: seq<Command>)

  const PhotoExtensions: seq<string> := [".jpg", ".jpeg", ".png"]
  const DocumentExtensions: seq<string> := [".docx", ".doc", ".pdf", ".txt"]

  /** The acceptance table for a single input slot, given the lower-cased extension. */
  predicate Accepts(kind: EntityKind, extension: string) {
    || (extension in PhotoExtensions && kind == Photo)
    || (extension in DocumentExtensions && kind == Document)
    || kind == File
  }

  /** An overload is offered when it has exactly one input and that input is accepted. */
  predicate Eligible(overload: Overload, extension: string) {
    |overload.inputs| == 1 && Accepts(overload.inputs[0].kind, extension)
  }

  /** The acceptance table, kind by kind: Photo and Document each for their
      own extensions, File for every extension, any other kind never. */
  lemma AcceptanceTable(extension: string, code: int)
    ensures Accepts(Photo, extension) <==> extension in [".jpg", ".jpeg", ".png"]
    ensures Accepts(Document, extension) <==> extension in [".docx", ".doc", ".pdf", ".txt"]
    ensures Accepts(File, extension)
    ensures !Accepts(Other(code), extension)
  {
  }

  /** The context-menu entry that runs `overload` of `action` on `item`. */
  function Offer(item: IndexerItem, runtime: Runtime, action: ActionDefinition, overload: Overload): Command {
    Execute(NewExecuteActionCommand(item, Some(runtime), action, overload))
  }

  /** The primary command and the directory context items, lines 21-41. */
  function BrowseContext(item: IndexerItem, mode: IncludeBrowseCommand): (b: Browse)
    ensures !item.isDirectory ==> b == Browse(Shell(OpenFile(item.fullPath)), [])
    ensures item.isDirectory && mode == AsDefault ==>
      b == Browse(Shell(DirectoryPage(item.fullPath)), [Shell(OpenFile(item.fullPath))])
    ensures item.isDirectory && mode == Include ==>
      b == Browse(Shell(OpenFile(item.fullPath)), [Shell(DirectoryPage(item.fullPath))])
    ensures item.isDirectory && mode == Exclude ==> b == Browse(Shell(OpenFile(item.fullPath)), [])
  {
    var base := Shell(OpenFile(item.fullPath));
    if item.isDirectory then
      var directoryPage := Shell(DirectoryPage(item.fullPath));
      match mode
      case AsDefault => Browse(directoryPage, [base])
      case Include => Browse(base, [directoryPage])
      case Exclude => Browse(base, [])
    else
      Browse(base, [])
  }

  /** The innermost loop over one overload's inputs: the first accepted input
      adds the overload's command and breaks out. */
  function ScanInputs(item: IndexerItem, runtime: Runtime, action: ActionDefinition, overload: Overload,
                      inputs: seq<InputSlot>, extension: string): (r: seq<Command>)
    ensures |r| <= 1
    ensures |r| == 1 <==> exists i :: 0 <= i < |inputs| && Accepts(inputs[i].kind, extension)
    ensures |r| == 1 ==> r[0] == Offer(item, runtime, action, overload)
    decreases |inputs|
  {
    if inputs == [] then []
    else if Accepts(inputs[0].kind, extension) then [Offer(item, runtime, action, overload)]
    else ScanInputs(item, runtime, action, overload, inputs[1..], extension)
  }

  /** One overload: skipped unless it has exactly one input. */
  function OverloadOffers(item: IndexerItem, runtime: Runtime, action: ActionDefinition, overload: Overload,
                          extension: string): (r: seq<Command>)
    ensures r == if Eligible(overload, extension) then [Offer(item, runtime, action, overload)] else []
  {
    if |overload.inputs| != 1 then []
    else ScanInputs(item, runtime, action, overload, overload.inputs, extension)
  }

  /** The loop over one action's overloads. */
  function ActionOffers(item: IndexerItem, runtime: Runtime, action: ActionDefinition, overloads: seq<Overload>,
                        extension: string): seq<Command>
  {
    if overloads == [] then []
    else OverloadOffers(item, runtime, action, overloads[0], extension)
         + ActionOffers(item, runtime, action, overloads[1..], extension)
  }

  /** The loop over the catalog's actions, lines 53-79. */
  function CatalogOffers(item: IndexerItem, runtime: Runtime, actions: seq<ActionDefinition>,
                         extension: string): seq<Command>
  {
    if actions == [] then []
    else ActionOffers(item, runtime, actions[0], actions[0].overloads, extension)
         + CatalogOffers(item, runtime, actions[1..], extension)
  }

  // ---------------------------------------------------------------------
  // Reference definition: the (action, overload) pairs in enumeration
  // order, filtered by eligibility.

  datatype Candidate = Candidate(action: ActionDefinition, overload: Overload)

  function OverloadCandidates(action: ActionDefinition, overloads: seq<Overload>): (r: seq<Candidate>)
    ensures |r| == |overloads|
    ensures forall k :: 0 <= k < |r| ==> r[k] == Candidate(action, overloads[k])
  {
    seq(|overloads|, k requires 0 <= k < |overloads| => Candidate(action, overloads[k]))
  }

  /** Every (action, overload) pair: actions in catalog order, and each
      action's overloads in their order. */
  function Candidates(actions: seq<ActionDefinition>): seq<Candidate>
  {
    if actions == [] then []
    else OverloadCandidates(actions[0], actions[0].overloads) + Candidates(actions[1..])
  }

  /** The offers of the eligible candidates, in candidate order. */
  function Select(item: IndexerItem, runtime: Runtime, candidates: seq<Candidate>, extension: string): seq<Command>
  {
    if candidates == [] then []
    else
      var c := candidates[0];
      (if Eligible(c.overload, extension) then [Offer(item, runtime, c.action, c.overload)] else [])
      + Select(item, runtime, candidates[1..], extension)
  }

  lemma {:induction false} SelectAppend(item: IndexerItem, runtime: Runtime, xs: seq<Candidate>, ys: seq<Candidate>,
                                        extension: string)
    ensures Select(item, runtime, xs + ys, extension)
         == Select(item, runtime, xs, extension) + Select(item, runtime, ys, extension)
    decreases |xs|
  {
    if xs == [] {
      assert xs + ys == ys;
    } else {
      assert (xs + ys)[1..] == xs[1..] + ys;
      SelectAppend(item, runtime, xs[1..], ys, extension);
    }
  }

  lemma {:induction false} SelectMembership(item: IndexerItem, runtime: Runtime, candidates: seq<Candidate>,
                                            extension: string, x: Command)
    ensures x in Select(item, runtime, candidates, extension) <==>
      exists c :: c in candidates && Eligible(c.overload, extension) && x == Offer(item, runtime, c.action, c.overload)
    decreases |candidates|
  {
    if candidates != [] {
      SelectMembership(item, runtime, candidates[1..], extension, x);
      assert forall c :: c in candidates <==> c == candidates[0] || c in candidates[1..];
    }
  }

  /** The loop over one action's overloads keeps each eligible overload's
      offer, in overload order. */
  lemma {:induction false} ActionOffersAsSelect(item: IndexerItem, runtime: Runtime, action: ActionDefinition,
                                                overloads: seq<Overload>, extension: string)
    ensures ActionOffers(item, runtime, action, overloads, extension)
         == Select(item, runtime, OverloadCandidates(action, overloads), extension)
    decreases |overloads|
  {
    if overloads != [] {
      var cs := OverloadCandidates(action, overloads);
      assert cs[1..] == OverloadCandidates(action, overloads[1..]);
      ActionOffersAsSelect(item, runtime, action, overloads[1..], extension);
    }
  }

  /** The nested loops of the constructor produce exactly the offers of the
      eligible (action, overload) pairs, one per pair, in enumeration order. */
  lemma {:induction false} CatalogOffersAsSelect(item: IndexerItem, runtime: Runtime, actions: seq<ActionDefinition>,
                                                 extension: string)
    ensures CatalogOffers(item, runtime, actions, extension)
         == Select(item, runtime, Candidates(actions), extension)
    decreases |actions|
  {
    if actions != [] {
      var a := actions[0];
      ActionOffersAsSelect(item, runtime, a, a.overloads, extension);
      CatalogOffersAsSelect(item, runtime, actions[1..], extension);
      SelectAppend(item, runtime, OverloadCandidates(a, a.overloads), Candidates(actions[1..]), extension);
    }
  }

  lemma {:induction false} CandidatesMembership(actions: seq<ActionDefinition>, c: Candidate)
    ensures c in Candidates(actions) <==> c.action in actions && c.overload in c.action.overloads
    decreases |actions|
  {
    if actions != [] {
      CandidatesMembership(actions[1..], c);
      var here := OverloadCandidates(actions[0], actions[0].overloads);
      assert c in here <==> c.action == actions[0] && c.overload in actions[0].overloads by {
        if c in here {
          var k :| 0 <= k < |here| && here[k] == c;
        }
        if c.action == actions[0] && c.overload in actions[0].overloads {
          var k :| 0 <= k < |actions[0].overloads| && actions[0].overloads[k] == c.overload;
          assert here[k] == c;
        }
      }
      assert forall a :: a in actions <==> a == actions[0] || a in actions[1..];
    }
  }

  lemma {:induction false} CatalogOffersAppend(item: IndexerItem, runtime: Runtime, xs: seq<ActionDefinition>,
                                               ys: seq<ActionDefinition>, extension: string)
    ensures CatalogOffers(item, runtime, xs + ys, extension)
         == CatalogOffers(item, runtime, xs, extension) + CatalogOffers(item, runtime, ys, extension)
    decreases |xs|
  {
    if xs == [] {
      assert xs + ys == ys;
    } else {
      assert (xs + ys)[1..] == xs[1..] + ys;
      CatalogOffersAppend(item, runtime, xs[1..], ys, extension);
    }
  }

  /** An overload of a catalog action is offered exactly when it has one
      input and the acceptance table admits that input's kind. */
  lemma OfferedIff(item: IndexerItem, runtime: Runtime, actions: seq<ActionDefinition>, extension: string,
                   action: ActionDefinition, overload: Overload)
    requires action in actions && overload in action.overloads
    ensures Offer(item, runtime, action, overload) in CatalogOffers(item, runtime, actions, extension)
        <==> Eligible(overload, extension)
  {
    var x := Offer(item, runtime, action, overload);
    CatalogOffersAsSelect(item, runtime, actions, extension);
    SelectMembership(item, runtime, Candidates(actions), extension, x);
    CandidatesMembership(actions, Candidate(action, overload));
  }

  /** Every offer runs an eligible overload of a catalog action on this item,
      and is labelled with the overload's template and the action's icon. */
  lemma OffersSound(item: IndexerItem, runtime: Runtime, actions: seq<ActionDefinition>, extension: string)
    ensures forall x :: x in CatalogOffers(item, runtime, actions, extension) ==>
      && x.Execute?
      && x.execute.item == item
      && x.execute.runtime == Some(runtime)
      && x.execute.action in actions
      && x.execute.overload in x.execute.action.overloads
      && Eligible(x.execute.overload, extension)
      && x.execute.name == x.execute.overload.descriptionTemplate
      && x.execute.icon == IconInfo(x.execute.action.iconFullPath)
  {
    CatalogOffersAsSelect(item, runtime, actions, extension);
    forall x | x in CatalogOffers(item, runtime, actions, extension)
      ensures x.Execute? && x.execute.action in actions && x.execute.overload in x.execute.action.overloads
    {
      SelectMembership(item, runtime, Candidates(actions), extension, x);
      var c :| c in Candidates(actions) && Eligible(c.overload, extension)
               && x == Offer(item, runtime, c.action, c.overload);
      CandidatesMembership(actions, c);
    }
    forall x | x in CatalogOffers(item, runtime, actions, extension)
      ensures Eligible(x.execute.overload, extension) && x.execute.item == item && x.execute.runtime == Some(runtime)
      ensures x.execute.name == x.execute.overload.descriptionTemplate
      ensures x.execute.icon == IconInfo(x.execute.action.iconFullPath)
    {
      SelectMembership(item, runtime, Candidates(actions), extension, x);
    }
  }

  // ---------------------------------------------------------------------
  // The list item.

  /** The lower-cased extension of the item's full path, line 45. */
  function ItemExtension(item: IndexerItem): (e: string)
    ensures e == "" || e[0] == '.'
    ensures forall i :: 0 <= i < |e| ==> !('A' <= e[i] <= 'Z')
  {
    ToLowerIdempotent(GetExtension(item.fullPath));
    ToLowerInvariant(GetExtension(item.fullPath))
  }

  /** An item named `stem.ext` is matched on "." followed by `ext` lower-cased,
      so `Cat.JPG` is matched as ".jpg". */
  lemma ItemExtensionOfNamedFile(item: IndexerItem, stem: string, ext: string)
    requires item.fullPath == stem + "." + ext
    requires |ext| > 0
    requires forall k :: 0 <= k < |ext| ==> ext[k] != '.' && !IsDirectorySeparator(ext[k])
    ensures ItemExtension(item) == "." + ToLowerInvariant(ext)
  {
    ExtensionOfNamedFile(stem, ext);
    var e := ItemExtension(item);
    assert |e| == |ext| + 1;
    forall i | 0 <= i < |e|
      ensures e[i] == ("." + ToLowerInvariant(ext))[i]
    {
      if i > 0 {
        assert ("." + ext)[i] == ext[i - 1];
      }
    }
  }

  /** The action entries of the context menu, lines 43-80: none unless the
      actions API contract is present. */
  function ActionItems(item: IndexerItem, contractPresent: bool, runtime: Runtime): (r: seq<Command>)
    ensures !contractPresent ==> r == []
    ensures forall k :: 0 <= k < |r| ==> r[k].Execute?
  {
    if contractPresent then
      OffersSound(item, runtime, runtime.catalog, ItemExtension(item));
      CatalogOffers(item, runtime, runtime.catalog, ItemExtension(item))
    else []
  }

  /** The constructor. The action entries sit exactly between "Open with" and
      "Show in folder"; no other entry of the context menu runs an action. */
  function NewIndexerListItem(item: IndexerItem, mode: IncludeBrowseCommand, contractPresent: bool,
                              runtime: Runtime): (r: ListItem)
    ensures r.command == BrowseContext(item, mode).primary
    ensures var n := |BrowseContext(item, mode).context|;
            var m := |ActionItems(item, contractPresent, runtime)|;
            && |r.moreCommands| == n + m + 5
            && forall k :: 0 <= k < |r.moreCommands| ==> (r.moreCommands[k].Execute? <==> n < k <= n + m)
  {
    var browse := BrowseContext(item, mode);
    var actions := ActionItems(item, contractPresent, runtime);
    var path := item.fullPath;
    ListItem(path, item.fileName, path, browse.primary,
             browse.context
             + [Shell(OpenWith(path))]
             + actions
             + [Shell(ShowInFolder(path)), Shell(CopyPath(path)), Shell(OpenInConsole(path)), Shell(OpenProperties(path))])
  }

  /** The context menu, in order: directory context, "Open with", the action
      offers, then the four fixed file commands. */
  lemma MoreCommandsLayout(item: IndexerItem, mode: IncludeBrowseCommand, contractPresent: bool, runtime: Runtime)
    ensures var mc := NewIndexerListItem(item, mode, contractPresent, runtime).moreCommands;
            var context := BrowseContext(item, mode).context;
            var actions := ActionItems(item, contractPresent, runtime);
            var n := |context|;
            var m := |actions|;
            var p := item.fullPath;
            && mc[..n] == context
            && mc[n] == Shell(OpenWith(p))
            && mc[n + 1..n + 1 + m] == actions
            && mc[n + 1 + m..] == [Shell(ShowInFolder(p)), Shell(CopyPath(p)), Shell(OpenInConsole(p)), Shell(OpenProperties(p))]
  {
  }

  /** An action runs from the context menu exactly when it is one of the offers. */
  lemma InMoreCommandsIffOffered(item: IndexerItem, mode: IncludeBrowseCommand, runtime: Runtime, x: Command)
    requires x.Execute?
    ensures x in NewIndexerListItem(item, mode, true, runtime).moreCommands
        <==> x in CatalogOffers(item, runtime, runtime.catalog, ItemExtension(item))
  {
    var browse := BrowseContext(item, mode);
    var actions := ActionItems(item, true, runtime);
    var p := item.fullPath;
    var tail := [Shell(ShowInFolder(p)), Shell(CopyPath(p)), Shell(OpenInConsole(p)), Shell(OpenProperties(p))];
    assert NewIndexerListItem(item, mode, true, runtime).moreCommands
        == browse.context + [Shell(OpenWith(p))] + actions + tail;
    assert x !in browse.context && x !in tail;
  }

  /** Without the actions API contract the menu holds no action at all. */
  lemma NoContractNoOffers(item: IndexerItem, mode: IncludeBrowseCommand, runtime: Runtime)
    ensures var mc := NewIndexerListItem(item, mode, false, runtime).moreCommands;
            && |mc| == |BrowseContext(item, mode).context| + 5
            && forall k :: 0 <= k < |mc| ==> mc[k].Shell?
  {
  }

  /** An overload without exactly one input never reaches the menu, whatever its kinds. */
  lemma MultiInputNeverOffered(item: IndexerItem, mode: IncludeBrowseCommand, contractPresent: bool, runtime: Runtime)
    ensures forall x :: x in NewIndexerListItem(item, mode, contractPresent, runtime).moreCommands && x.Execute?
                        ==> |x.execute.overload.inputs| == 1
  {
    var mc := NewIndexerListItem(item, mode, contractPresent, runtime).moreCommands;
    forall x | x in mc && x.Execute?
      ensures |x.execute.overload.inputs| == 1
    {
      InMoreCommandsIffOffered(item, mode, runtime, x);
      OffersSound(item, runtime, runtime.catalog, ItemExtension(item));
    }
  }

  /** A catalog overload taking one Photo is offered exactly for the
      lower-cased extensions .jpg, .jpeg and .png. */
  lemma PhotoOfferedIff(item: IndexerItem, mode: IncludeBrowseCommand, runtime: Runtime,
                        action: ActionDefinition, overload: Overload, name: string)
    requires action in runtime.catalog && overload in action.overloads
    requires overload.inputs == [InputSlot(name, Photo)]
    ensures Offer(item, runtime, action, overload) in NewIndexerListItem(item, mode, true, runtime).moreCommands
        <==> ItemExtension(item) in [".jpg", ".jpeg", ".png"]
  {
    InMoreCommandsIffOffered(item, mode, runtime, Offer(item, runtime, action, overload));
    OfferedIff(item, runtime, runtime.catalog, ItemExtension(item), action, overload);
  }

  /** A catalog overload taking one Document is offered exactly for the
      lower-cased extensions .docx, .doc, .pdf and .txt. */
  lemma DocumentOfferedIff(item: IndexerItem, mode: IncludeBrowseCommand, runtime: Runtime,
                           action: ActionDefinition, overload: Overload, name: string)
    requires action in runtime.catalog && overload in action.overloads
    requires overload.inputs == [InputSlot(name, Document)]
    ensures Offer(item, runtime, action, overload) in NewIndexerListItem(item, mode, true, runtime).moreCommands
        <==> ItemExtension(item) in [".docx", ".doc", ".pdf", ".txt"]
  {
    InMoreCommandsIffOffered(item, mode, runtime, Offer(item, runtime, action, overload));
    OfferedIff(item, runtime, runtime.catalog, ItemExtension(item), action, overload);
  }

  /** A catalog overload taking one File is offered for every item, with or
      without an extension, directories included. */
  lemma FileAlwaysOffered(item: IndexerItem, mode: IncludeBrowseCommand, runtime: Runtime,
                          action: ActionDefinition, overload: Overload, name: string)
    requires action in runtime.catalog && overload in action.overloads
    requires overload.inputs == [InputSlot(name, File)]
    ensures Offer(item, runtime, action, overload) in NewIndexerListItem(item, mode, true, runtime).moreCommands
  {
    InMoreCommandsIffOffered(item, mode, runtime, Offer(item, runtime, action, overload));
    OfferedIff(item, runtime, runtime.catalog, ItemExtension(item), action, overload);
  }

  /** A directory's browse page and its open-file command are the same two
      commands under AsDefault and Include, with the roles swapped; Exclude
      drops the page. Files look the same under every mode. */
  lemma BrowseModesCompared(item: IndexerItem)
    ensures item.isDirectory ==>
      && BrowseContext(item, AsDefault).context == [BrowseContext(item, Include).primary]
      && BrowseContext(item, Include).context == [BrowseContext(item, AsDefault).primary]
      && BrowseContext(item, Exclude).primary == BrowseContext(item, Include).primary
      && BrowseContext(item, Exclude).context == []
    ensures !item.isDirectory ==>
      BrowseContext(item, AsDefault) == BrowseContext(item, Include) == BrowseContext(item, Exclude)
  {
  }

  /** Every offer from the menu, once the runtime creates a context, is
      invoked with its file bound: the multiple-inputs refusal cannot happen,
      and the outcome is GoHome or the remote failure toast. */
  lemma OffersReachInvoke(item: IndexerItem, mode: IncludeBrowseCommand, contractPresent: bool, runtime: Runtime,
                          x: Command, remote: Remote)
    requires x in NewIndexerListItem(item, mode, contractPresent, runtime).moreCommands && x.Execute?
    requires remote.createsContext
    ensures InvokeAsync(x.execute, remote).invoked.Some?
    ensures InvokeAsync(x.execute, remote).result
         == match remote.outcome
            case Succeeded => GoHome
            case Threw(message) => ShowToast(InvokeFailureMessage(x.execute.action.id, message))
  {
    InMoreCommandsIffOffered(item, mode, runtime, x);
    OffersSound(item, runtime, runtime.catalog, ItemExtension(item));
  }

  /** A photo named with an upper-case extension: the lower-casing makes the
      Photo overload match, and invoking the offer binds a photo entity for
      the file under the slot's name and returns to the home page. */
  lemma UpperCasePhotoScenario()
    ensures
      var path := "C:\\Pictures\\Cat.JPG";
      var item := IndexerItem(path, "Cat.JPG", false);
      var overload := Overload("Remove background", [InputSlot("image", Photo)]);
      var action := ActionDefinition("RemoveBackground", "bg.png", [overload]);
      var runtime := Runtime([action]);
      var offer := Offer(item, runtime, action, overload);
      && NewIndexerListItem(item, Include, true, runtime).moreCommands
         == [Shell(OpenWith(path)), offer, Shell(ShowInFolder(path)), Shell(CopyPath(path)),
             Shell(OpenInConsole(path)), Shell(OpenProperties(path))]
      && InvokeAsync(offer.execute, Remote(true, Succeeded))
         == Invocation(GoHome, Some(InvocationContext("RemoveBackground", map["image" := PhotoEntity(path)])))
  {
    var path := "C:\\Pictures\\Cat.JPG";
    ExtensionOfNamedFile("C:\\Pictures\\Cat", "JPG");
    assert "C:\\Pictures\\Cat" + "." + "JPG" == path;
    assert ToLowerInvariant(".JPG") == ".jpg";
  }

  /** A text file and an action whose only overload takes two inputs: no offer. */
  lemma TwoInputScenario()
    ensures
      var item := IndexerItem("D:\\notes.txt", "notes.txt", false);
      var overload := Overload("Compare", [InputSlot("left", Document), InputSlot("right", Document)]);
      var runtime := Runtime([ActionDefinition("Compare", "cmp.png", [overload])]);
      ActionItems(item, true, runtime) == []
  {
  }
}
