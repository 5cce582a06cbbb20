/** The two kinds of tree entry, `SidenoteItem` (a note) and `SidenoteFolder`,
    as written in treeItems.js and, with the collapsible state passed in by the
    caller, in providers/SidenotesProvider.js. Entries never change after they
    are built, so they are values; the object identity that the tree view hands
    back on selection is a `TreeNode`. */
module TreeItems {
  import opened Base
  import opened Paths

  /** `vscode.TreeItemCollapsibleState`. */
  datatype CollapsibleState = None | Collapsed | Expanded

  /** An argument of an entry's click command: a path, or the entry itself (`arguments: [this]`). */
  datatype CommandArgument = PathArgument(path: Path) | ThisEntry

  datatype Command = Command(command: string, title: string, arguments: seq<CommandArgument>)

  datatype Entry =
    | Item(labelText: string, filePath: Path, state: CollapsibleState)        // SidenoteItem
    | Folder(labelText: string, folderPath: Path, state: CollapsibleState)    // SidenoteFolder
  {
    /** `child instanceof SidenoteFolder ? child.folderPath : child.filePath`. */
    function EntryPath(): Path
    {
      if Folder? then folderPath else filePath
    }

    function Tooltip(): string
    {
      labelText
    }

    function Description(): string
    {
      ""
    }

    function ContextValue(): string
    {
      if Folder? then "sidenoteFolder" else "sidenoteItem"
    }

    /** The command run when the entry is clicked. */
    function ClickCommand(): Command
    {
      if Folder? then Command("sidenotes.selectItem", "Select Item", [ThisEntry])
      else Command("sidenotes.openFile", "Open File", [PathArgument(filePath)])
    }

    /** The `ThemeIcon` id, or "" when the entry has none. */
    function IconId(): string
    {
      if Folder? then "folder" else ""
    }
  }

  /** `new SidenoteItem(label, filePath)` of treeItems.js. */
  function NewItem(text: string, filePath: Path): (e: Entry)
    ensures e.Item? && e.EntryPath() == filePath && e.labelText == text
    ensures e.state == None && e.Tooltip() == text && e.Description() == ""
    ensures e.ContextValue() == "sidenoteItem"
    ensures e.ClickCommand() == Command("sidenotes.openFile", "Open File", [PathArgument(filePath)])
  {
    Item(text, filePath, None)
  }

  /** `new SidenoteFolder(label, folderPath)` of treeItems.js. */
  function NewFolder(text: string, folderPath: Path): (e: Entry)
    ensures e.Folder? && e.EntryPath() == folderPath && e.labelText == text
    ensures e.state == Collapsed && e.Tooltip() == text && e.Description() == ""
    ensures e.ContextValue() == "sidenoteFolder" && e.IconId() == "folder"
    ensures e.ClickCommand() == Command("sidenotes.selectItem", "Select Item", [ThisEntry])
  {
    Folder(text, folderPath, Collapsed)
  }

  /** A tree entry object: two `TreeNode`s are the same entry only if they are the same object. */
  class TreeNode {
    const entry: Entry

    constructor (e: Entry)
      ensures entry == e
    {
      entry := e;
    }
  }

  /** One `treeView.reveal(element, { expand, select, focus })` call; an option left out is false. */
  datatype RevealRequest = Reveal(target: Entry, expand: bool, select: bool, focus: bool)
}
