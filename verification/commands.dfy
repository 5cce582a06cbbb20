/** The command files under commands/, which work with the older provider of
    providers/SidenotesProvider.js: `createNewItem` with its own `getTargetFolder` and
    `getPromptMessage`, and `renameItem` with the older entry classes. They differ from
    their counterparts in utils.js in what they capitalize, in the selection they set and,
    for `getTargetFolder`, in naming classes the file never imports. */
module Commands {
  import opened Base
  import opened Paths
  import opened Disk
  import opened TreeItems
  import Utils
  import LegacyProvider

  /** `getTargetFolder` of commands/createNewItem.js as written: with a selection, the
      `instanceof SidenoteFolder` test evaluates a name the file never binds, so the call
      throws a ReferenceError instead of returning. */
  function GetTargetFolderAsWritten(root: Path, selected: Option<Entry>): (r: Result<Utils.Target, Error>)
    ensures r.Err? <==> selected.Some?
    ensures r.Err? ==> r.error == ReferenceError("SidenoteFolder")
    ensures r.Ok? ==> r.value == Utils.TargetFolderFor(root, selected)
  {
    if selected.Some? then Err(ReferenceError("SidenoteFolder")) else Ok(Utils.Target(root, ""))
  }

  /** The discrepancy: for every selected folder or note, the file's own `getTargetFolder`
      throws "SidenoteFolder is not defined", where the one of utils.js names the folder the
      new item goes in. */
  lemma TargetFolderThrowsOnSelection(root: Path, e: Entry)
    ensures GetTargetFolderAsWritten(root, Some(e)).Err?
    ensures GetTargetFolderAsWritten(root, Some(e)).error.Message() == "SidenoteFolder is not defined"
    ensures Utils.TargetFolderFor(root, Some(e)).targetFolder
            == if e.Folder? then e.folderPath else Dirname(e.filePath)
  {
  }

  function SelectedEntry(p: LegacyProvider.SidenotesProvider): Option<Entry>
    reads p
  {
    if p.selectedItem == null then Null else Some(p.selectedItem.entry)
  }

  /** `createNewItem(itemType, sidenoteProvider)` of commands/createNewItem.js, once the
      input box has returned `itemName` (`Null` when it was dismissed). `created` is what
      `fs.writeFile` (a note) or `fs.mkdir` (a folder) did and `docShown` what opening and
      showing the new note did. `prompt` is the prompt asked, or the error the command
      throws before asking; `target` the path written, if any. */
  method CreateNewItemAsWritten(p: LegacyProvider.SidenotesProvider, itemType: string, itemName: Option<string>,
                                created: Outcome, docShown: Outcome)
    returns (prompt: Result<string, Error>, target: Option<Path>, shown: seq<Utils.Notification>)
    modifies p`treeDataEvents
    ensures p.selectedItem != null ==>
      prompt == Err(ReferenceError("SidenoteFolder")) && target == Null && shown == []
      && p.treeDataEvents == old(p.treeDataEvents)
    ensures p.selectedItem == null ==>
      prompt == Ok(Utils.GetPromptMessage(Utils.ItemTypeName(itemType), ""))
    ensures p.selectedItem == null && (itemName.Null? || itemName.value == "") ==>
      target == Null && shown == [] && p.treeDataEvents == old(p.treeDataEvents)
    ensures p.selectedItem == null && itemName.Some? && itemName.value != "" ==>
      var typeName := Utils.ItemTypeName(itemType);
      target == Some(Utils.CreatePath(p.sidenotesFolderPath, itemType, itemName.value))
      && (created.Fail? ==>
            shown == [Utils.CreateFailure(typeName, created.message)]
            && p.treeDataEvents == old(p.treeDataEvents))
      && (created.Pass? && itemType == "note" && docShown.Fail? ==>
            shown == [Utils.CreateFailure(typeName, docShown.message)]
            && p.treeDataEvents == old(p.treeDataEvents))
      && (created.Pass? && (itemType != "note" || docShown.Pass?) ==>
            shown == [Utils.Notification(typeName + " \"" + itemName.value + "\" created successfully.", Utils.Info)]
            && p.treeDataEvents == old(p.treeDataEvents) + 1)
  {
    target, shown := Null, [];
    var folder := GetTargetFolderAsWritten(p.sidenotesFolderPath, SelectedEntry(p));
    if folder.Err? {
      prompt := Err(folder.error);
      return;
    }
    var itemTypeName := if itemType == "note" then "note" else "folder";
    prompt := Ok(Utils.GetPromptMessage(itemTypeName, folder.value.parentFolderName));
    if itemName.Some? && itemName.value != "" {
      var name := itemName.value;
      var newPath := if itemType == "note" then Join(folder.value.targetFolder, name + ".md")
                     else Join(folder.value.targetFolder, name);
      target := Some(newPath);
      if created.Fail? {
        shown := [Utils.CreateFailure(itemTypeName, created.message)];
        return;
      }
      if itemType == "note" && docShown.Fail? {
        shown := [Utils.CreateFailure(itemTypeName, docShown.message)];
        return;
      }
      p.Refresh();
      shown := [Utils.Notification(itemTypeName + " \"" + name + "\" created successfully.", Utils.Info)];
    }
  }

  /** `renameItem(item, sidenoteProvider)` of commands/renameItem.js, once the input box has
      returned `newName` (`Null` when it was dismissed). `renamed` is what `fs.rename` did;
      `editorOpen` says whether a visible editor shows the old file, and `reopened` what
      reopening the new file in it did. Unlike the utils.js version, the old name is shown
      as it is, and the new entry is built with the older classes and set without an event. */
  method RenameItemAsWritten(p: LegacyProvider.SidenotesProvider, item: Entry, newName: Option<string>,
                             renamed: Outcome, editorOpen: bool, reopened: Outcome)
    returns (target: Option<Path>, shown: seq<Utils.Notification>)
    modifies p`selectedItem, p`treeDataEvents
    ensures target == if Utils.RenameGoesAhead(newName, item.labelText)
                      then Some(Utils.RenamePath(item.EntryPath(), item.Folder?, newName.value)) else Null
    ensures !Utils.RenameGoesAhead(newName, item.labelText) ==> shown == [] && unchanged(p)
    ensures Utils.RenameGoesAhead(newName, item.labelText) && renamed.Fail? ==>
      shown == [Utils.Notification("Failed to rename \"" + item.labelText + "\": " + renamed.message, Utils.ErrorNotice)]
      && unchanged(p)
    ensures Utils.RenameGoesAhead(newName, item.labelText) && renamed.Pass? ==>
      p.selectedItem != null && fresh(p.selectedItem)
      && p.selectedItem.entry == Utils.RenamedEntry(item, newName.value)
      && p.treeDataEvents == old(p.treeDataEvents) + 1
      && shown == [Utils.Notification("\"" + item.labelText + "\" has been renamed to \"" + newName.value + "\".", Utils.Info)]
                  + (if item.Item? && editorOpen && reopened.Fail?
                     then [Utils.Notification("Failed to rename \"" + item.labelText + "\": " + reopened.message, Utils.ErrorNotice)]
                     else [])
  {
    var oldPath := item.EntryPath();
    var oldName := item.labelText;
    var isFolder := item.Folder?;
    target, shown := Null, [];
    if newName.Some? && newName.value != "" && newName.value != oldName {
      var name := newName.value;
      var newPath := Utils.RenamePath(oldPath, isFolder, name);
      target := Some(newPath);
      if renamed.Fail? {
        shown := [Utils.Notification("Failed to rename \"" + oldName + "\": " + renamed.message, Utils.ErrorNotice)];
        return;
      }
      shown := [Utils.Notification("\"" + oldName + "\" has been renamed to \"" + name + "\".", Utils.Info)];
      var newItem := new TreeNode(if isFolder then LegacyProvider.NewLegacyFolder(name, newPath, Collapsed)
                                  else LegacyProvider.NewLegacyItem(name, newPath, None));
      p.SetSelectedItem(newItem);
      p.Refresh();
      if !isFolder && editorOpen && reopened.Fail? {
        shown := shown + [Utils.Notification("Failed to rename \"" + oldName + "\": " + reopened.message, Utils.ErrorNotice)];
      }
    }
  }
}
