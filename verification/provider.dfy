/** The tree data provider of sidenotesProvider.js: a stateless lazy tree over
    the notes directory (every listing is a fresh `readdir`), a hidden-file
    filter, the selected entry with its change event, parent navigation and
    lookup of an entry by absolute path. */
module Provider {
  import opened Base
  import opened Paths
  import opened Disk
  import opened TreeItems

  /** `!entry.name.startsWith('.')`. */
  predicate NotHidden(e: DirEntry)
  {
    e.name[0] != '.'
  }

  /** `entry.isDirectory()`. */
  predicate IsFolderEntry(e: DirEntry)
  {
    e.kind == Directory
  }

  /** `entry.isFile() && path.extname(entry.name).toLowerCase() === '.md'`. */
  predicate IsNoteEntry(e: DirEntry)
  {
    e.kind == RegularFile && IsMarkdownName(e.name)
  }

  /** The entries left after the hidden-file filter. */
  function Visible(es: seq<DirEntry>, showHidden: bool): seq<DirEntry>
  {
    if showHidden then es else Filter(NotHidden, es)
  }

  /** The tree entry built for a directory entry of `dir`: a folder labelled with
      its name, or a note labelled with `path.basename(name, '.md')`. */
  function EntryFor(dir: Path, e: DirEntry): Entry
  {
    if e.kind == Directory then NewFolder(e.name, JoinSegment(dir, e.name))
    else NewItem(StripMd(e.name), JoinSegment(dir, e.name))
  }

  function EntriesFor(dir: Path, es: seq<DirEntry>): (r: seq<Entry>)
    ensures |r| == |es|
  {
    seq(|es|, i requires 0 <= i < |es| => EntryFor(dir, es[i]))
  }

  /** What `getSidenotesItems` builds from the listing `es` of `dir`: the folders,
      then the notes, each group in `readdir` order. */
  function Listing(dir: Path, es: seq<DirEntry>, showHidden: bool): seq<Entry>
  {
    var vis := Visible(es, showHidden);
    EntriesFor(dir, Filter(IsFolderEntry, vis)) + EntriesFor(dir, Filter(IsNoteEntry, vis))
  }

  function ListingAt(fs: FileSystem, dir: Path, showHidden: bool): Result<seq<Entry>, Error>
  {
    match ReadDir(fs, dir)
    case Err(e) => Err(e)
    case Ok(es) => Ok(Listing(dir, es, showHidden))
  }

  /** `getChildren(element)`: the root for `null`, else `element.folderPath`, which a
      note does not have, so `readdir(undefined)` throws. */
  function ChildrenOf(fs: FileSystem, root: Path, showHidden: bool, element: Option<Entry>): Result<seq<Entry>, Error>
  {
    match element
    case Null => ListingAt(fs, root, showHidden)
    case Some(e) => if e.Folder? then ListingAt(fs, e.folderPath, showHidden) else Err(InvalidArgType)
  }

  /** `children.find(child => path(child) === p)`: the first child at `p`, or nothing. */
  function FindChild(children: seq<Entry>, p: Path): (r: Option<Entry>)
    ensures r.Some? ==> r.value in children && r.value.EntryPath() == p
    ensures r.Null? ==> forall c :: c in children ==> c.EntryPath() != p
  {
    if children == [] then Null
    else if children[0].EntryPath() == p then Some(children[0])
    else FindChild(children[1..], p)
  }

  /** The walk of `findElementByPath` from `current` at `currentPath`, one part per level. */
  function FindFrom(fs: FileSystem, root: Path, showHidden: bool, current: Option<Entry>,
                    currentPath: Path, parts: seq<string>): Result<Option<Entry>, Error>
    requires NoSlashes(parts)
    decreases |parts|
  {
    if parts == [] then Ok(current)
    else
      var next := JoinSegment(currentPath, parts[0]);
      match ChildrenOf(fs, root, showHidden, current)
      case Err(e) => Err(e)
      case Ok(children) =>
        match FindChild(children, next)
        case Null => Ok(Null)
        case Some(c) => FindFrom(fs, root, showHidden, Some(c), next, parts[1..])
  }

  /** One level of the walk, at the `i`-th part. */
  lemma FindFromStep(fs: FileSystem, root: Path, showHidden: bool, current: Option<Entry>,
                     currentPath: Path, parts: seq<string>, i: nat)
    requires NoSlashes(parts) && i < |parts|
    ensures var next := JoinSegment(currentPath, parts[i]);
      var children := ChildrenOf(fs, root, showHidden, current);
      FindFrom(fs, root, showHidden, current, currentPath, parts[i..])
        == if children.Err? then Err(children.error)
           else if FindChild(children.value, next).Null? then Ok(Null)
           else FindFrom(fs, root, showHidden, FindChild(children.value, next), next, parts[i + 1..])
  {
    assert parts[i..][0] == parts[i];
    assert parts[i..][1..] == parts[i + 1..];
  }

  /** `findElementByPath(target)`. */
  function FindByPath(fs: FileSystem, root: Path, showHidden: bool, target: Path): Result<Option<Entry>, Error>
  {
    FindFrom(fs, root, showHidden, Null, root, RelativeParts(root, target))
  }

  class SidenotesProvider {
    const sidenotesFolderPath: Path
    var showHiddenFiles: bool
    var selectedItem: TreeNode?
    /** The arguments of `_onDidChangeSelection.fire`, oldest first. */
    var selectionEvents: seq<TreeNode?>
    /** How many times `_onDidChangeTreeData.fire()` ran. */
    var treeDataEvents: nat

    constructor (root: Path, showHidden: bool)
      ensures sidenotesFolderPath == root && showHiddenFiles == showHidden
      ensures selectedItem == null && selectionEvents == [] && treeDataEvents == 0
    {
      sidenotesFolderPath := root;
      showHiddenFiles := showHidden;
      selectedItem := null;
      selectionEvents := [];
      treeDataEvents := 0;
    }

    /** `refresh()`: one tree-changed event, nothing else. */
    method Refresh()
      modifies this`treeDataEvents
      ensures treeDataEvents == old(treeDataEvents) + 1
    {
      treeDataEvents := treeDataEvents + 1;
    }

    method GetChildren(fs: FileSystem, element: Option<Entry>) returns (r: Result<seq<Entry>, Error>)
      ensures r == ChildrenOf(fs, sidenotesFolderPath, showHiddenFiles, element)
    {
      if element.Null? {
        r := GetSidenotesItems(fs, sidenotesFolderPath);
      } else if element.value.Folder? {
        r := GetSidenotesItems(fs, element.value.folderPath);
      } else {
        r := Err(InvalidArgType);
      }
    }

    method GetSidenotesItems(fs: FileSystem, folderPath: Path) returns (r: Result<seq<Entry>, Error>)
      ensures r == ListingAt(fs, folderPath, showHiddenFiles)
    {
      var read := ReadDir(fs, folderPath);
      if read.Err? {
        return Err(read.error);
      }
      var entries := read.value;
      var filteredEntries := if showHiddenFiles then entries else Filter(NotHidden, entries);
      var items: seq<Entry> := [];
      var folders := Filter(IsFolderEntry, filteredEntries);
      for i := 0 to |folders|
        invariant items == EntriesFor(folderPath, folders[..i])
      {
        EntriesForStep(folderPath, folders, i);
        assert folders[i] in folders;
        var fullPath := JoinSegment(folderPath, folders[i].name);
        items := items + [NewFolder(folders[i].name, fullPath)];
      }
      assert folders[..|folders|] == folders;
      var notes := Filter(IsNoteEntry, filteredEntries);
      for i := 0 to |notes|
        invariant items == EntriesFor(folderPath, folders) + EntriesFor(folderPath, notes[..i])
      {
        EntriesForStep(folderPath, notes, i);
        assert notes[i] in notes;
        var fullPath := JoinSegment(folderPath, notes[i].name);
        var displayName := StripMd(notes[i].name);
        items := items + [NewItem(displayName, fullPath)];
      }
      assert notes[..|notes|] == notes;
      r := Ok(items);
    }

    function GetSelectedItem(): TreeNode?
      reads this
    {
      selectedItem
    }

    /** Selection compares objects, not paths: the event fires exactly when `item`
        is not the object already selected. */
    method SetSelectedItem(item: TreeNode?)
      modifies this`selectedItem, this`selectionEvents
      ensures selectedItem == item
      ensures selectionEvents == old(selectionEvents) + (if old(selectedItem) != item then [item] else [])
    {
      if selectedItem != item {
        selectedItem := item;
        selectionEvents := selectionEvents + [item];
      }
    }

    /** A folder has no `filePath`, so it has no parent; nor has a note directly in the root. */
    function GetParent(element: Entry): (r: Option<Entry>)
      ensures r.Null? <==> element.Folder? || Dirname(element.filePath) == sidenotesFolderPath
      ensures r.Some? ==> r.value.Folder? && r.value.folderPath == Dirname(element.filePath)
      ensures r.Some? ==> r.value.labelText == Basename(Dirname(element.filePath)) && r.value.state == Collapsed
    {
      if element.Item? then
        var parentPath := Dirname(element.filePath);
        if parentPath == sidenotesFolderPath then Null
        else Some(NewFolder(Basename(parentPath), parentPath))
      else Null
    }

    method FindElementByPath(fs: FileSystem, elementPath: Path) returns (r: Result<Option<Entry>, Error>)
      ensures r == FindByPath(fs, sidenotesFolderPath, showHiddenFiles, elementPath)
    {
      var pathParts := RelativeParts(sidenotesFolderPath, elementPath);
      var currentElement: Option<Entry> := Null;
      var currentPath := sidenotesFolderPath;
      for i := 0 to |pathParts|
        invariant FindByPath(fs, sidenotesFolderPath, showHiddenFiles, elementPath)
               == FindFrom(fs, sidenotesFolderPath, showHiddenFiles, currentElement, currentPath, pathParts[i..])
      {
        FindFromStep(fs, sidenotesFolderPath, showHiddenFiles, currentElement, currentPath, pathParts, i);
        currentPath := JoinSegment(currentPath, pathParts[i]);
        var children := GetChildren(fs, currentElement);
        if children.Err? {
          return Err(children.error);
        }
        currentElement := FindChild(children.value, currentPath);
        if currentElement.Null? {
          return Ok(Null);
        }
      }
      return Ok(currentElement);
    }

    method UpdateShowHiddenFiles(showHidden: bool)
      modifies this`showHiddenFiles
      ensures showHiddenFiles == showHidden
    {
      showHiddenFiles := showHidden;
    }

    /** The view's selection: its first element, or nothing. */
    method HandleTreeSelectionChange(selection: seq<TreeNode>)
      modifies this`selectedItem, this`selectionEvents
      ensures selectedItem == (if |selection| > 0 then selection[0] else null)
      ensures selectionEvents == old(selectionEvents)
                + (if old(selectedItem) != selectedItem then [selectedItem] else [])
    {
      if |selection| > 0 {
        SetSelectedItem(selection[0]);
      } else {
        SetSelectedItem(null);
      }
    }
  }

  // ----- Properties of a listing -----

  lemma EntriesForMember(dir: Path, es: seq<DirEntry>, x: Entry)
    ensures x in EntriesFor(dir, es) <==> exists e :: e in es && x == EntryFor(dir, e)
  {
    if x in EntriesFor(dir, es) {
      var i :| 0 <= i < |es| && EntriesFor(dir, es)[i] == x;
      assert es[i] in es;
    }
    if exists e :: e in es && x == EntryFor(dir, e) {
      var e :| e in es && x == EntryFor(dir, e);
      var i :| 0 <= i < |es| && es[i] == e;
      assert EntriesFor(dir, es)[i] == x;
    }
  }

  lemma EntriesForSnoc(dir: Path, es: seq<DirEntry>, e: DirEntry)
    ensures EntriesFor(dir, es + [e]) == EntriesFor(dir, es) + [EntryFor(dir, e)]
  {
    var a, b := EntriesFor(dir, es + [e]), EntriesFor(dir, es) + [EntryFor(dir, e)];
    assert forall i :: 0 <= i < |es| ==> (es + [e])[i] == es[i];
    assert forall i :: 0 <= i < |a| ==> a[i] == b[i];
  }

  lemma EntriesForStep(dir: Path, es: seq<DirEntry>, i: nat)
    requires i < |es|
    ensures EntriesFor(dir, es[..i + 1]) == EntriesFor(dir, es[..i]) + [EntryFor(dir, es[i])]
  {
    assert es[..i + 1] == es[..i] + [es[i]];
    EntriesForSnoc(dir, es[..i], es[i]);
  }

  /** The path of a listed entry is `path.join(dir, name)`, that is, the name appended to `dir`. */
  lemma EntryForPath(dir: Path, e: DirEntry)
    ensures EntryFor(dir, e).EntryPath() == dir + [e.name] == Join(dir, e.name)
  {
    JoinName(dir, e.name);
  }

  /** An entry is listed exactly when it is built from a visible folder or note of
      the directory: nothing else is listed and nothing eligible is dropped. */
  lemma ListingMember(dir: Path, es: seq<DirEntry>, showHidden: bool, x: Entry)
    ensures x in Listing(dir, es, showHidden) <==>
      exists e :: e in es && (showHidden || NotHidden(e)) && (IsFolderEntry(e) || IsNoteEntry(e))
                && x == EntryFor(dir, e)
  {
    var vis := Visible(es, showHidden);
    var folders, notes := Filter(IsFolderEntry, vis), Filter(IsNoteEntry, vis);
    EntriesForMember(dir, folders, x);
    EntriesForMember(dir, notes, x);
    assert forall e :: e in vis <==> e in es && (showHidden || NotHidden(e));
  }

  /** Every listed entry is a direct child of the listed directory; a folder is
      labelled with its name, and a note comes from a markdown file and is
      labelled with its name less a literal lower-case ".md". */
  lemma ListingShape(dir: Path, es: seq<DirEntry>, showHidden: bool, x: Entry)
    requires x in Listing(dir, es, showHidden)
    ensures Dirname(x.EntryPath()) == dir && x.EntryPath() != []
    ensures x.Folder? ==> x.labelText == Basename(x.EntryPath()) && x.state == Collapsed
    ensures x.Item? ==> (IsMarkdownName(Basename(x.EntryPath())) && x.state == None
                         && x.labelText == StripMd(Basename(x.EntryPath())))
    ensures !showHidden ==> Basename(x.EntryPath())[0] != '.'
  {
    ListingMember(dir, es, showHidden, x);
    var e :| e in es && (showHidden || NotHidden(e)) && (IsFolderEntry(e) || IsNoteEntry(e))
             && x == EntryFor(dir, e);
    EntryForPath(dir, e);
  }

  /** All folders come before all notes. */
  lemma ListingFoldersFirst(dir: Path, es: seq<DirEntry>, showHidden: bool)
    ensures var l := Listing(dir, es, showHidden);
      forall i, j :: 0 <= i < j < |l| && l[j].Folder? ==> l[i].Folder?
  {
    var vis := Visible(es, showHidden);
    var fs, ns := EntriesFor(dir, Filter(IsFolderEntry, vis)), EntriesFor(dir, Filter(IsNoteEntry, vis));
    EntriesForKinds(dir, Filter(IsFolderEntry, vis));
    EntriesForKinds(dir, Filter(IsNoteEntry, vis));
    FoldersThenNotes(fs, ns);
  }

  /** Each group keeps the `readdir` order: the listing is the entries built from a
      subsequence of the directory's entries holding exactly its visible folders, then those
      built from a subsequence holding exactly its visible markdown files. */
  lemma ListingOrder(dir: Path, es: seq<DirEntry>, showHidden: bool)
    returns (folders: seq<DirEntry>, notes: seq<DirEntry>)
    ensures Listing(dir, es, showHidden) == EntriesFor(dir, folders) + EntriesFor(dir, notes)
    ensures IsSubsequence(folders, es) && IsSubsequence(notes, es)
    ensures forall e :: e in folders <==> e in es && (showHidden || NotHidden(e)) && IsFolderEntry(e)
    ensures forall e :: e in notes <==> e in es && (showHidden || NotHidden(e)) && IsNoteEntry(e)
  {
    var vis := Visible(es, showHidden);
    folders, notes := Filter(IsFolderEntry, vis), Filter(IsNoteEntry, vis);
    if !showHidden {
      SubsequenceTrans(folders, vis, es);
      SubsequenceTrans(notes, vis, es);
    }
  }

  /** A run of folders followed by a run of notes has no folder after a note. */
  lemma FoldersThenNotes(fs: seq<Entry>, ns: seq<Entry>)
    requires forall k :: 0 <= k < |fs| ==> fs[k].Folder?
    requires forall k :: 0 <= k < |ns| ==> ns[k].Item?
    ensures forall i, j :: 0 <= i < j < |fs + ns| && (fs + ns)[j].Folder? ==> (fs + ns)[i].Folder?
  {
    var l := fs + ns;
    assert forall k :: 0 <= k < |l| ==> (l[k].Folder? <==> k < |fs|) by {
      forall k | 0 <= k < |l| ensures l[k].Folder? <==> k < |fs| {
        if k < |fs| { assert l[k] == fs[k]; } else { assert l[k] == ns[k - |fs|]; }
      }
    }
  }

  /** An entry built from a directory is a folder, any other a note. */
  lemma EntriesForKinds(dir: Path, es: seq<DirEntry>)
    ensures forall k :: 0 <= k < |es| ==> (EntriesFor(dir, es)[k].Folder? <==> es[k].kind == Directory)
    ensures (forall e :: e in es ==> e.kind == Directory) ==> forall k :: 0 <= k < |es| ==> EntriesFor(dir, es)[k].Folder?
    ensures (forall e :: e in es ==> e.kind != Directory) ==> forall k :: 0 <= k < |es| ==> EntriesFor(dir, es)[k].Item?
  {
  }

  /** In a directory without repeated names, the path of a listed entry determines it. */
  lemma ListingPathsUnique(dir: Path, es: seq<DirEntry>, showHidden: bool, x: Entry, y: Entry)
    requires UniqueNames(es)
    requires x in Listing(dir, es, showHidden) && y in Listing(dir, es, showHidden)
    requires x.EntryPath() == y.EntryPath()
    ensures x == y
  {
    ListingMember(dir, es, showHidden, x);
    ListingMember(dir, es, showHidden, y);
    var ex :| ex in es && x == EntryFor(dir, ex);
    var ey :| ey in es && y == EntryFor(dir, ey);
    EntryForPath(dir, ex);
    EntryForPath(dir, ey);
    assert (dir + [ex.name])[|dir|] == ex.name;
    assert (dir + [ey.name])[|dir|] == ey.name;
    SameNameSameEntry(es, ex, ey);
  }

  // ----- Properties of the lookup by path -----

  /** The walk only ever moves down the tree: what it finds sits at the path the
      parts lead to, strictly below where it started. */
  lemma {:induction false} FindFromSound(fs: FileSystem, root: Path, showHidden: bool, current: Option<Entry>,
                                         currentPath: Path, parts: seq<string>, x: Entry)
    requires NoSlashes(parts) && |parts| > 0
    requires current.Null? ==> currentPath == root
    requires current.Some? ==> current.value.EntryPath() == currentPath
    requires FindFrom(fs, root, showHidden, current, currentPath, parts) == Ok(Some(x))
    ensures x.EntryPath() == Resolve(currentPath, parts)
    ensures currentPath < x.EntryPath()
    decreases |parts|
  {
    var c := FindFromFirst(fs, root, showHidden, current, currentPath, parts, x);
    if |parts| > 1 {
      FindFromSound(fs, root, showHidden, Some(c), c.EntryPath(), parts[1..], x);
    }
  }

  /** The first level of a successful walk: the child it steps into lies directly
      below where it started, and the rest of the walk from that child succeeds. */
  lemma FindFromFirst(fs: FileSystem, root: Path, showHidden: bool, current: Option<Entry>,
                      currentPath: Path, parts: seq<string>, x: Entry) returns (c: Entry)
    requires NoSlashes(parts) && |parts| > 0
    requires current.Null? ==> currentPath == root
    requires current.Some? ==> current.value.EntryPath() == currentPath
    requires FindFrom(fs, root, showHidden, current, currentPath, parts) == Ok(Some(x))
    ensures c.EntryPath() == JoinSegment(currentPath, parts[0]) && currentPath < c.EntryPath()
    ensures Resolve(currentPath, parts) == Resolve(c.EntryPath(), parts[1..])
    ensures NoSlashes(parts[1..])
    ensures FindFrom(fs, root, showHidden, Some(c), c.EntryPath(), parts[1..]) == Ok(Some(x))
  {
    var next := JoinSegment(currentPath, parts[0]);
    var children := ChildrenOf(fs, root, showHidden, current).value;
    c := FindChild(children, next).value;
    var dir := if current.Null? then root else current.value.folderPath;
    assert children == Listing(dir, fs.dirs[dir], showHidden);
    ListingShape(dir, fs.dirs[dir], showHidden, c);
  }

  /** Whatever `findElementByPath(target)` returns is the entry at `target`, and
      `target` lies strictly inside the notes root. */
  lemma FindByPathSound(fs: FileSystem, root: Path, showHidden: bool, target: Path, x: Entry)
    requires FindByPath(fs, root, showHidden, target) == Ok(Some(x))
    ensures x.EntryPath() == target && root < target
  {
    var parts := RelativeParts(root, target);
    ResolveRelativeParts(root, target);
    FindFromSound(fs, root, showHidden, Null, root, parts, x);
  }

  lemma {:induction false} FindFromSnoc(fs: FileSystem, root: Path, showHidden: bool, current: Option<Entry>,
                                        currentPath: Path, parts: seq<string>, last: string, found: Entry)
    requires NoSlashes(parts) && parts != [] && '/' !in last
    requires FindFrom(fs, root, showHidden, current, currentPath, parts) == Ok(Some(found))
    ensures FindFrom(fs, root, showHidden, current, currentPath, parts + [last])
         == FindFrom(fs, root, showHidden, Some(found), Resolve(currentPath, parts), [last])
    decreases |parts|
  {
    var next := JoinSegment(currentPath, parts[0]);
    assert (parts + [last])[0] == parts[0];
    assert (parts + [last])[1..] == parts[1..] + [last];
    var children := ChildrenOf(fs, root, showHidden, current).value;
    var c := FindChild(children, next).value;
    if parts[1..] == [] {
      assert parts[1..] + [last] == [last];
    } else {
      FindFromSnoc(fs, root, showHidden, Some(c), next, parts[1..], last, found);
    }
  }

  /** A walk that finds an entry has found one at every level on the way. */
  lemma {:induction false} FindFromPrefix(fs: FileSystem, root: Path, showHidden: bool, current: Option<Entry>,
                                          currentPath: Path, parts: seq<string>, j: nat)
    requires NoSlashes(parts) && 0 < j <= |parts|
    requires FindFrom(fs, root, showHidden, current, currentPath, parts).Ok?
    requires FindFrom(fs, root, showHidden, current, currentPath, parts).value.Some?
    ensures NoSlashes(parts[..j])
    ensures FindFrom(fs, root, showHidden, current, currentPath, parts[..j]).Ok?
    ensures FindFrom(fs, root, showHidden, current, currentPath, parts[..j]).value.Some?
    decreases |parts|
  {
    var pre, rest := parts[..j], parts[1..];
    NoSlashesSlice(parts, 1, j);
    var next := JoinSegment(currentPath, parts[0]);
    var c := FindFromHead(fs, root, showHidden, current, currentPath, parts);
    assert pre[0] == parts[0];
    FindFromCons(fs, root, showHidden, current, currentPath, pre, c);
    if j > 1 {
      assert pre[1..] == rest[..j - 1];
      FindFromPrefix(fs, root, showHidden, Some(c), next, rest, j - 1);
    } else {
      assert pre[1..] == [];
    }
  }

  /** The child a successful walk steps into first. */
  lemma FindFromHead(fs: FileSystem, root: Path, showHidden: bool, current: Option<Entry>,
                     currentPath: Path, parts: seq<string>) returns (c: Entry)
    requires NoSlashes(parts) && |parts| > 0
    requires FindFrom(fs, root, showHidden, current, currentPath, parts).Ok?
    requires FindFrom(fs, root, showHidden, current, currentPath, parts).value.Some?
    ensures ChildrenOf(fs, root, showHidden, current).Ok?
    ensures FindChild(ChildrenOf(fs, root, showHidden, current).value, JoinSegment(currentPath, parts[0])) == Some(c)
    ensures FindFrom(fs, root, showHidden, current, currentPath, parts)
         == FindFrom(fs, root, showHidden, Some(c), JoinSegment(currentPath, parts[0]), parts[1..])
  {
    c := FindChild(ChildrenOf(fs, root, showHidden, current).value, JoinSegment(currentPath, parts[0])).value;
  }

  /** Any walk whose first child is `c` continues from `c`. */
  lemma FindFromCons(fs: FileSystem, root: Path, showHidden: bool, current: Option<Entry>,
                     currentPath: Path, parts: seq<string>, c: Entry)
    requires NoSlashes(parts) && |parts| > 0
    requires ChildrenOf(fs, root, showHidden, current).Ok?
    requires FindChild(ChildrenOf(fs, root, showHidden, current).value, JoinSegment(currentPath, parts[0])) == Some(c)
    ensures FindFrom(fs, root, showHidden, current, currentPath, parts)
         == FindFrom(fs, root, showHidden, Some(c), JoinSegment(currentPath, parts[0]), parts[1..])
  {
  }

  /** One level of the lookup: from a folder (or the root) at `dir`, the single part
      naming a listed child finds exactly that child. */
  lemma FindOneLevel(fs: FileSystem, root: Path, showHidden: bool, current: Option<Entry>, dir: Path, e: Entry)
    requires WellFormed(fs)
    requires current.Null? ==> dir == root
    requires current.Some? ==> current.value.Folder? && current.value.folderPath == dir
    requires ChildrenOf(fs, root, showHidden, current).Ok?
    requires e in ChildrenOf(fs, root, showHidden, current).value
    ensures e.EntryPath() == dir + [Basename(e.EntryPath())]
    ensures FindFrom(fs, root, showHidden, current, dir, [Basename(e.EntryPath())]) == Ok(Some(e))
  {
    var listing := ChildrenOf(fs, root, showHidden, current).value;
    assert listing == Listing(dir, fs.dirs[dir], showHidden);
    ListingShape(dir, fs.dirs[dir], showHidden, e);
    var n := Basename(e.EntryPath());
    JoinSegmentName(dir, n);
    FindChildListed(dir, fs.dirs[dir], showHidden, e);
    assert [n][1..] == [];
  }

  /** In a directory without repeated names, looking up a listed entry's path finds that entry. */
  lemma FindChildListed(dir: Path, es: seq<DirEntry>, showHidden: bool, e: Entry)
    requires UniqueNames(es) && e in Listing(dir, es, showHidden)
    ensures FindChild(Listing(dir, es, showHidden), e.EntryPath()) == Some(e)
  {
    var found := FindChild(Listing(dir, es, showHidden), e.EntryPath());
    if found.Some? {
      ListingPathsUnique(dir, es, showHidden, found.value, e);
    }
  }

  lemma FindAtRootLevel(fs: FileSystem, root: Path, showHidden: bool, e: Entry)
    requires WellFormed(fs)
    requires ChildrenOf(fs, root, showHidden, Null).Ok?
    requires e in ChildrenOf(fs, root, showHidden, Null).value
    ensures FindByPath(fs, root, showHidden, e.EntryPath()) == Ok(Some(e))
  {
    FindOneLevel(fs, root, showHidden, Null, root, e);
    var target := e.EntryPath();
    RelativePartsUnder(root, target);
    assert target[|root|..] == [Basename(target)];
  }

  lemma FindUnderFolder(fs: FileSystem, root: Path, showHidden: bool, f: Entry, e: Entry)
    requires WellFormed(fs) && f.Folder?
    requires FindByPath(fs, root, showHidden, f.folderPath) == Ok(Some(f))
    requires ChildrenOf(fs, root, showHidden, Some(f)).Ok?
    requires e in ChildrenOf(fs, root, showHidden, Some(f)).value
    ensures FindByPath(fs, root, showHidden, e.EntryPath()) == Ok(Some(e))
  {
    var dir := f.folderPath;
    FindOneLevel(fs, root, showHidden, Some(f), dir, e);
    var target := e.EntryPath();
    var n := Basename(target);
    var parts := RelativeParts(root, dir);
    FindByPathSound(fs, root, showHidden, dir, f);
    ChildParts(root, dir, n);
    FindFromSound(fs, root, showHidden, Null, root, parts, f);
    FindFromSnoc(fs, root, showHidden, Null, root, parts, n, f);
    calc {
      FindByPath(fs, root, showHidden, target);
      FindFrom(fs, root, showHidden, Null, root, parts + [n]);
      FindFrom(fs, root, showHidden, Some(f), Resolve(root, parts), [n]);
      { assert Resolve(root, parts) == dir; }
      FindFrom(fs, root, showHidden, Some(f), dir, [n]);
    }
  }

  /** The parts of a child of a found folder are the folder's parts and the child's name. */
  lemma ChildParts(root: Path, dir: Path, n: Name)
    requires root < dir
    ensures RelativeParts(root, dir) != [] && NoSlashes(RelativeParts(root, dir))
    ensures RelativeParts(root, dir + [n]) == RelativeParts(root, dir) + [n]
  {
    RelativePartsUnder(root, dir);
    RelativePartsUnder(root, dir + [n]);
    assert (dir + [n])[|root|..] == dir[|root|..] + [n];
  }

  /** Lookup round trip: every entry that `getChildren` lists under the root, or under
      a folder that the lookup itself finds, is found again by its own path. */
  lemma FindByPathRoundTrip(fs: FileSystem, root: Path, showHidden: bool, parent: Option<Entry>, e: Entry)
    requires WellFormed(fs)
    requires parent.Some? ==> FindByPath(fs, root, showHidden, parent.value.EntryPath()) == Ok(parent)
    requires ChildrenOf(fs, root, showHidden, parent).Ok?
    requires e in ChildrenOf(fs, root, showHidden, parent).value
    ensures FindByPath(fs, root, showHidden, e.EntryPath()) == Ok(Some(e))
  {
    if parent.Null? {
      FindAtRootLevel(fs, root, showHidden, e);
    } else {
      FindUnderFolder(fs, root, showHidden, parent.value, e);
    }
  }

  /** Parent round trip for notes: the parent of a note listed in `dir` is the
      folder at `dir` (no parent when `dir` is the root), and listing that parent
      lists the note again. */
  lemma ParentInverse(fs: FileSystem, p: SidenotesProvider, dir: Path, e: Entry)
    requires ListingAt(fs, dir, p.showHiddenFiles).Ok?
    requires e in ListingAt(fs, dir, p.showHiddenFiles).value && e.Item?
    ensures dir == p.sidenotesFolderPath ==> p.GetParent(e) == Null
    ensures dir != p.sidenotesFolderPath ==> p.GetParent(e) == Some(NewFolder(Basename(dir), dir))
    ensures ChildrenOf(fs, p.sidenotesFolderPath, p.showHiddenFiles, p.GetParent(e))
         == ListingAt(fs, dir, p.showHiddenFiles)
  {
    ListingShape(dir, fs.dirs[dir], p.showHiddenFiles, e);
  }
}
