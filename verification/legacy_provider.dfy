/** The older tree data provider of providers/SidenotesProvider.js: no hidden-file
    filter, a selection without change events, parents that come back expanded,
    and a `selectFileInSidebar` that reveals entries it builds itself rather than
    entries it looks up. */
module LegacyProvider {
  import opened Base
  import opened Paths
  import opened Disk
  import opened TreeItems
  import Provider

  /** `new SidenoteItem(label, filePath, collapsibleState)` of this file. */
  function NewLegacyItem(text: string, filePath: Path, state: CollapsibleState): (e: Entry)
    ensures e.Item? && e.EntryPath() == filePath && e.labelText == text && e.state == state
    ensures e.Tooltip() == text && e.Description() == "" && e.ContextValue() == "sidenoteItem"
    ensures e.ClickCommand() == Command("sidenotes.openFile", "Open File", [PathArgument(filePath)])
  {
    Item(text, filePath, state)
  }

  /** `new SidenoteFolder(label, folderPath, collapsibleState)` of this file. */
  function NewLegacyFolder(text: string, folderPath: Path, state: CollapsibleState): (e: Entry)
    ensures e.Folder? && e.EntryPath() == folderPath && e.labelText == text && e.state == state
    ensures e.Tooltip() == text && e.Description() == "" && e.ContextValue() == "sidenoteFolder"
    ensures e.IconId() == "folder"
    ensures e.ClickCommand() == Command("sidenotes.selectItem", "Select Item", [ThisEntry])
  {
    Folder(text, folderPath, state)
  }

  /** The reveal that selects and focuses the note at `p`. */
  function NoteReveal(p: Path): RevealRequest
  {
    Reveal(NewLegacyItem(BasenameMd(p), p, None), true, true, true)
  }

  /** The reveal for the part `part` that led to `next`: the note when it is the last
      part, else the folder named by the part, expanded but neither selected nor focused. */
  function StepReveal(part: string, next: Path, isLast: bool): RevealRequest
  {
    if isLast then NoteReveal(next) else Reveal(NewLegacyFolder(part, next, Expanded), true, false, false)
  }

  /** The reveal requests of `selectFileInSidebar` from `currentPath` on, one per part. */
  function RevealSteps(currentPath: Path, parts: seq<string>): seq<RevealRequest>
    requires NoSlashes(parts)
    decreases |parts|
  {
    if |parts| == 0 then []
    else
      var next := JoinSegment(currentPath, parts[0]);
      [StepReveal(parts[0], next, |parts| == 1)] + RevealSteps(next, parts[1..])
  }

  function RevealPath(root: Path, filePath: Path): seq<RevealRequest>
  {
    RevealSteps(root, RelativeParts(root, filePath))
  }

  class SidenotesProvider {
    const sidenotesFolderPath: Path
    var selectedItem: TreeNode?
    /** How many times `_onDidChangeTreeData.fire()` ran. */
    var treeDataEvents: nat

    constructor (root: Path)
      ensures sidenotesFolderPath == root && selectedItem == null && treeDataEvents == 0
    {
      sidenotesFolderPath := root;
      selectedItem := null;
      treeDataEvents := 0;
    }

    method Refresh()
      modifies this`treeDataEvents
      ensures treeDataEvents == old(treeDataEvents) + 1
    {
      treeDataEvents := treeDataEvents + 1;
    }

    /** The same children as the newer provider with hidden files shown. */
    method GetChildren(fs: FileSystem, element: Option<Entry>) returns (r: Result<seq<Entry>, Error>)
      ensures r == Provider.ChildrenOf(fs, sidenotesFolderPath, true, element)
    {
      if element.Some? {
        if element.value.Folder? {
          r := GetSidenotesItems(fs, element.value.folderPath);
        } else {
          r := Err(InvalidArgType);
        }
      } else {
        r := GetSidenotesItems(fs, sidenotesFolderPath);
      }
    }

    /** Two passes over the whole listing: the directories, then the markdown files.
        The result is the newer provider's listing with hidden files shown. */
    method GetSidenotesItems(fs: FileSystem, folderPath: Path) returns (r: Result<seq<Entry>, Error>)
      ensures r == Provider.ListingAt(fs, folderPath, true)
    {
      var read := ReadDir(fs, folderPath);
      if read.Err? {
        return Err(read.error);
      }
      var entries := read.value;
      var items: seq<Entry> := [];
      for i := 0 to |entries|
        invariant items == PassItems(folderPath, entries[..i], Provider.IsFolderEntry)
      {
        PassStep(folderPath, entries, i, Provider.IsFolderEntry);
        if entries[i].kind == Directory {
          var fullPath := JoinSegment(folderPath, entries[i].name);
          items := items + [NewLegacyFolder(entries[i].name, fullPath, Collapsed)];
        }
      }
      ghost var folders := items;
      for i := 0 to |entries|
        invariant items == folders + PassItems(folderPath, entries[..i], Provider.IsNoteEntry)
      {
        PassStep(folderPath, entries, i, Provider.IsNoteEntry);
        if entries[i].kind == RegularFile && IsMarkdownName(entries[i].name) {
          var fullPath := JoinSegment(folderPath, entries[i].name);
          var displayName := StripMd(entries[i].name);
          items := items + [NewLegacyItem(displayName, fullPath, None)];
        }
      }
      TwoPasses(folderPath, entries);
      r := Ok(items);
    }

    function GetSelectedItem(): TreeNode?
      reads this
    {
      selectedItem
    }

    /** Overwrites the selection and announces nothing. */
    method SetSelectedItem(item: TreeNode?)
      modifies this`selectedItem
      ensures selectedItem == item
    {
      selectedItem := item;
    }

    /** As in the newer provider, but the parent folder comes back expanded. */
    function GetParent(element: Entry): (r: Option<Entry>)
      ensures r.Null? <==> element.Folder? || Dirname(element.filePath) == sidenotesFolderPath
      ensures r.Some? ==> r.value.Folder? && r.value.folderPath == Dirname(element.filePath)
      ensures r.Some? ==> r.value.labelText == Basename(Dirname(element.filePath)) && r.value.state == Expanded
    {
      if element.Item? then
        var parentPath := Dirname(element.filePath);
        if parentPath == sidenotesFolderPath then Null
        else Some(NewLegacyFolder(Basename(parentPath), parentPath, Expanded))
      else Null
    }

    /** The `treeView.reveal` calls, in order. */
    method SelectFileInSidebar(filePath: Path) returns (requests: seq<RevealRequest>)
      ensures requests == RevealPath(sidenotesFolderPath, filePath)
    {
      var root := sidenotesFolderPath;
      var pathParts := RelativeParts(root, filePath);
      var currentPath := root;
      requests := [];
      for i := 0 to |pathParts|
        invariant requests + RevealSteps(currentPath, pathParts[i..]) == RevealSteps(root, pathParts)
      {
        RevealStepsAt(currentPath, pathParts, i);
        ghost var before := requests;
        currentPath := JoinSegment(currentPath, pathParts[i]);
        var isLastPart := i == |pathParts| - 1;
        ghost var step := StepReveal(pathParts[i], currentPath, isLastPart);
        if isLastPart {
          var item := NewLegacyItem(BasenameMd(currentPath), currentPath, None);
          requests := requests + [Reveal(item, true, true, true)];
        } else {
          var folder := NewLegacyFolder(pathParts[i], currentPath, Expanded);
          requests := requests + [Reveal(folder, true, false, false)];
        }
        assert requests == before + [step];
        AppendOne(before, step, RevealSteps(currentPath, pathParts[i + 1..]));
      }
    }
  }

  /** The entries one pass over the listing `es` of `dir` pushes: one for each entry that `keep` accepts. */
  function PassItems(dir: Path, es: seq<DirEntry>, keep: DirEntry -> bool): seq<Entry>
  {
    if |es| == 0 then []
    else PassItems(dir, es[..|es| - 1], keep) + (if keep(es[|es| - 1]) then [Provider.EntryFor(dir, es[|es| - 1])] else [])
  }

  lemma PassStep(dir: Path, es: seq<DirEntry>, i: nat, keep: DirEntry -> bool)
    requires i < |es|
    ensures PassItems(dir, es[..i + 1], keep)
         == PassItems(dir, es[..i], keep) + (if keep(es[i]) then [Provider.EntryFor(dir, es[i])] else [])
  {
    assert es[..i + 1][..i] == es[..i];
  }

  /** A pass pushes the entries the newer provider builds from the filtered listing. */
  lemma {:induction false} PassItemsFilter(dir: Path, es: seq<DirEntry>, keep: DirEntry -> bool)
    ensures PassItems(dir, es, keep) == Provider.EntriesFor(dir, Filter(keep, es))
  {
    if |es| > 0 {
      var init, last := es[..|es| - 1], es[|es| - 1];
      PassItemsFilter(dir, init, keep);
      assert init + [last] == es;
      FilterSnoc(keep, init, last);
      Provider.EntriesForSnoc(dir, Filter(keep, init), last);
    }
  }

  /** The folder pass then the note pass over the whole listing give the listing with hidden files shown. */
  lemma TwoPasses(dir: Path, es: seq<DirEntry>)
    ensures PassItems(dir, es[..|es|], Provider.IsFolderEntry) + PassItems(dir, es[..|es|], Provider.IsNoteEntry)
         == Provider.Listing(dir, es, true)
  {
    assert es[..|es|] == es;
    PassItemsFilter(dir, es, Provider.IsFolderEntry);
    PassItemsFilter(dir, es, Provider.IsNoteEntry);
  }

  /** The reveals from the `i`-th part on start with that part's own. */
  lemma RevealStepsAt(currentPath: Path, parts: seq<string>, i: nat)
    requires NoSlashes(parts) && i < |parts|
    ensures var next := JoinSegment(currentPath, parts[i]);
      RevealSteps(currentPath, parts[i..])
      == [StepReveal(parts[i], next, i == |parts| - 1)] + RevealSteps(next, parts[i + 1..])
  {
    assert parts[i..][0] == parts[i] && parts[i..][1..] == parts[i + 1..];
  }

  lemma {:induction false} RevealStepsLength(currentPath: Path, parts: seq<string>)
    requires NoSlashes(parts)
    ensures |RevealSteps(currentPath, parts)| == |parts|
    decreases |parts|
  {
    if |parts| > 1 {
      RevealStepsLength(JoinSegment(currentPath, parts[0]), parts[1..]);
    }
  }

  /** The `i`-th reveal on the way down a chain of names is the expanded folder at the
      first `i + 1` names. */
  lemma {:induction false} RevealStepsFolder(currentPath: Path, names: Path, i: nat)
    requires i < |names| - 1
    ensures |RevealSteps(currentPath, names)| == |names|
    ensures RevealSteps(currentPath, names)[i]
         == Reveal(Folder(names[i], currentPath + names[..i + 1], Expanded), true, false, false)
    decreases i
  {
    RevealStepsLength(currentPath, names);
    RevealStepsCons(currentPath, names);
    var next, rest := currentPath + [names[0]], names[1..];
    if i == 0 {
      assert names[..1] == [names[0]];
    } else {
      RevealStepsFolder(next, rest, i - 1);
      AppendHeadSlice(currentPath, names, i + 1);
      assert rest[i - 1] == names[i];
    }
  }

  /** The first of several reveals down a chain of names is the first folder's. */
  lemma RevealStepsCons(currentPath: Path, names: Path)
    requires |names| > 1
    ensures RevealSteps(currentPath, names)
         == [Reveal(NewLegacyFolder(names[0], currentPath + [names[0]], Expanded), true, false, false)]
            + RevealSteps(currentPath + [names[0]], names[1..])
  {
    JoinSegmentName(currentPath, names[0]);
  }

  /** The last reveal on the way down a chain of names is the note at their end. */
  lemma {:induction false} RevealStepsLast(currentPath: Path, names: Path)
    requires |names| > 0
    ensures |RevealSteps(currentPath, names)| == |names|
    ensures RevealSteps(currentPath, names)[|names| - 1] == NoteReveal(currentPath + names)
    decreases |names|
  {
    RevealStepsLength(currentPath, names);
    if |names| > 1 {
      var next, rest := currentPath + [names[0]], names[1..];
      RevealStepsCons(currentPath, names);
      RevealStepsLast(next, rest);
      AppendHead(currentPath, names);
    } else {
      JoinSegmentName(currentPath, names[0]);
    }
  }

  /** The shape of the reveals below the root, in terms of the target's own segments. */
  lemma RevealStepsBelow(root: Path, filePath: Path)
    requires root < filePath
    ensures var steps := RevealSteps(root, filePath[|root|..]);
      var depth := |filePath| - |root|;
      |steps| == depth
      && (forall i :: 0 <= i < depth - 1 ==>
           steps[i] == Reveal(Folder(filePath[|root| + i], filePath[..|root| + i + 1], Expanded), true, false, false))
      && steps[depth - 1] == NoteReveal(filePath)
  {
    RevealStepBelowLast(root, filePath);
    forall i | 0 <= i < |filePath| - |root| - 1
      ensures RevealSteps(root, filePath[|root|..])[i]
           == Reveal(Folder(filePath[|root| + i], filePath[..|root| + i + 1], Expanded), true, false, false)
    {
      RevealStepBelow(root, filePath, i);
    }
  }

  /** The target itself, at the end. */
  lemma RevealStepBelowLast(root: Path, filePath: Path)
    requires root < filePath
    ensures |RevealSteps(root, filePath[|root|..])| == |filePath| - |root|
    ensures RevealSteps(root, filePath[|root|..])[|filePath| - |root| - 1] == NoteReveal(filePath)
  {
    var parts := filePath[|root|..];
    RevealStepsLast(root, parts);
    assert root + parts == filePath;
  }

  /** One enclosing folder of the target, counted from the root. */
  lemma RevealStepBelow(root: Path, filePath: Path, i: nat)
    requires root < filePath && i < |filePath| - |root| - 1
    ensures |RevealSteps(root, filePath[|root|..])| == |filePath| - |root|
    ensures RevealSteps(root, filePath[|root|..])[i]
         == Reveal(Folder(filePath[|root| + i], filePath[..|root| + i + 1], Expanded), true, false, false)
  {
    var parts := filePath[|root|..];
    RevealStepsFolder(root, parts, i);
    SubPathSlice(root, filePath, i + 1);
  }

  /** For a note strictly inside the root, `selectFileInSidebar` reveals one entry per
      segment below the root, in prefix order: an expanded folder, neither selected
      nor focused, for each enclosing directory, then the note itself, selected and
      focused, labelled with its name less ".md". */
  lemma RevealPathShape(root: Path, filePath: Path)
    requires root < filePath
    ensures var steps := RevealPath(root, filePath);
      var depth := |filePath| - |root|;
      |steps| == depth
      && (forall i :: 0 <= i < depth - 1 ==>
           steps[i] == Reveal(Folder(filePath[|root| + i], filePath[..|root| + i + 1], Expanded), true, false, false))
      && steps[depth - 1] == Reveal(Item(BasenameMd(filePath), filePath, None), true, true, true)
  {
    RelativePartsUnder(root, filePath);
    RevealStepsBelow(root, filePath);
  }
}
