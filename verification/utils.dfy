/** The command helpers of utils.js, which work with the provider of sidenotesProvider.js:
    where a new note or folder goes and how the prompt asks for it, the rename rules,
    `capitalize`, the reveal sequence of `selectFileInSidebar`, and `createNewItem` and
    `renameItem` around them. */
module Utils {
  import opened Base
  import opened Paths
  import opened Disk
  import opened TreeItems
  import opened Provider

  // ----- Where a new item goes -----

  /** `{ targetFolder, parentFolderName }`. */
  datatype Target = Target(targetFolder: Path, parentFolderName: string)

  /** `getTargetFolder`, given the root and the selected entry: the root with no parent
      name, the selected folder with its label, or a selected note's directory with that
      directory's name. */
  function TargetFolderFor(root: Path, selected: Option<Entry>): Target
  {
    match selected
    case Null => Target(root, "")
    case Some(e) =>
      if e.Folder? then Target(e.folderPath, e.labelText)
      else
        var dir := Dirname(e.filePath);
        Target(dir, Basename(dir))
  }

  /** The entry behind the provider's selected object, if any. */
  function SelectedEntry(p: SidenotesProvider): Option<Entry>
    reads p
  {
    if p.selectedItem == null then Null else Some(p.selectedItem.entry)
  }

  /** `getTargetFolder(sidenoteProvider)`. */
  function GetTargetFolder(p: SidenotesProvider): Target
    reads p
  {
    TargetFolderFor(p.sidenotesFolderPath, SelectedEntry(p))
  }

  /** With nothing selected a new item goes in the root and no parent is named. For an entry
      of a listing of `dir`, the new item goes in the selected folder itself, or beside the
      selected note in `dir`, and the parent name is the last segment of the target folder. */
  lemma TargetFolderSpec(root: Path, dir: Path, es: seq<DirEntry>, showHidden: bool, e: Entry)
    requires e in Listing(dir, es, showHidden)
    ensures TargetFolderFor(root, Null) == Target(root, "")
    ensures var t := TargetFolderFor(root, Some(e));
      t.parentFolderName == Basename(t.targetFolder)
      && (e.Folder? ==> t.targetFolder == e.folderPath && Dirname(t.targetFolder) == dir && t.targetFolder != [])
      && (e.Item? ==> t.targetFolder == dir)
  {
    ListingShape(dir, es, showHidden, e);
  }

  /** The prompt of the input box. */
  function GetPromptMessage(itemTypeName: string, parentFolderName: string): string
  {
    if parentFolderName != "" then
      "Enter the name for the new " + itemTypeName + " in " + parentFolderName + " folder"
    else "Enter the name for the new " + itemTypeName
  }

  /** The prompt always opens with the item type; it goes on exactly when there is a parent
      name, and then it names that parent. So different parents give different prompts. */
  lemma PromptMessageSpec(itemTypeName: string, parentFolderName: string, other: string)
    ensures var m, opening := GetPromptMessage(itemTypeName, parentFolderName), "Enter the name for the new " + itemTypeName;
      opening <= m
      && (|m| > |opening| <==> parentFolderName != "")
      && (parentFolderName != "" ==> m[|opening|..] == " in " + parentFolderName + " folder")
    ensures GetPromptMessage(itemTypeName, parentFolderName) == GetPromptMessage(itemTypeName, other)
            ==> parentFolderName == other
  {
    var opening := "Enter the name for the new " + itemTypeName;
    var m, m' := GetPromptMessage(itemTypeName, parentFolderName), GetPromptMessage(itemTypeName, other);
    if parentFolderName != "" {
      assert m == opening + (" in " + parentFolderName + " folder");
    }
    if other != "" {
      assert m' == opening + (" in " + other + " folder");
    }
    if m == m' && parentFolderName != "" && other != "" {
      var k := |opening| + 4;
      assert m[k..k + |parentFolderName|] == parentFolderName;
      assert m'[k..k + |other|] == other;
    }
  }

  // ----- capitalize -----

  /** `s[0].toUpperCase() + s.slice(1)`: on "" `s[0]` is `undefined`, and calling a method on it throws. */
  function Capitalize(s: string): (r: Result<string, Error>)
    ensures r.Err? <==> s == ""
    ensures r.Err? ==> r.error == TypeError("Cannot read properties of undefined (reading 'toUpperCase')")
  {
    if s == "" then Err(TypeError("Cannot read properties of undefined (reading 'toUpperCase')"))
    else Ok([UpperChar(s[0])] + s[1..])
  }

  /** Capitalizing keeps the length and everything after the first character, makes the first
      character upper case, changes nothing a case-insensitive comparison sees, and a second
      time changes nothing at all; it changes the string exactly when it starts with a
      lower-case letter. */
  lemma CapitalizeSpec(s: string)
    requires s != ""
    ensures var c := Capitalize(s).value;
      |c| == |s| && c[1..] == s[1..] && !('a' <= c[0] <= 'z')
      && Lower(c) == Lower(s)
      && Capitalize(c) == Ok(c)
      && (c == s <==> !('a' <= s[0] <= 'z'))
  {
    var c := Capitalize(s).value;
    assert c[0] == UpperChar(s[0]);
    assert LowerChar(UpperChar(s[0])) == LowerChar(s[0]);
    assert forall i :: 0 <= i < |c| ==> LowerChar(c[i]) == LowerChar(s[i]);
    assert [UpperChar(c[0])] + c[1..] == c;
  }

  // ----- Renaming -----

  /** `validateInput` of the rename box: the error message shown, or nothing when the name is accepted. */
  function ValidateInput(value: string, isFolder: bool): Option<string>
  {
    if IsBlank(value) then Some("Name cannot be empty")
    else if isFolder && Includes(value, ".") then Some("Folder name cannot contain a dot")
    else Null
  }

  /** A name is accepted exactly when it has a character that is not white space and, for a
      folder, no dot; a note's name may hold dots. */
  lemma ValidateInputSpec(value: string, isFolder: bool)
    ensures ValidateInput(value, isFolder).Null? <==>
      (exists i :: 0 <= i < |value| && !IsJsWhitespace(value[i])) && !(isFolder && '.' in value)
    ensures ValidateInput(value, isFolder).Null? ==> value != ""
  {
    IncludesChar(value, '.');
  }

  /** `newName && newName !== oldName`: the box was not dismissed, the name is not empty and
      it is not the old one. */
  predicate RenameGoesAhead(newName: Option<string>, oldName: string)
  {
    newName.Some? && newName.value != "" && newName.value != oldName
  }

  /** `path.join(path.dirname(oldPath), newName)`, with ".md" added for a note. */
  function RenamePath(oldPath: Path, isFolder: bool, newName: string): Path
  {
    Join(Dirname(oldPath), if isFolder then newName else newName + ".md")
  }

  /** For a plain name the renamed item stays in its directory, under that name (a note with
      ".md" added), and a renamed note is listed under the new name. */
  lemma RenamePathSibling(oldPath: Path, isFolder: bool, newName: Name)
    ensures var p := RenamePath(oldPath, isFolder, newName);
      p != [] && Dirname(p) == Dirname(oldPath)
      && (isFolder ==> Basename(p) == newName)
      && (!isFolder ==> Basename(p) == newName + ".md" && IsMarkdownName(Basename(p)) && BasenameMd(p) == newName)
  {
    var dir := Dirname(oldPath);
    NoteName(newName);
    if isFolder {
      JoinName(dir, newName);
    } else {
      var file: Name := newName + ".md";
      JoinName(dir, file);
    }
  }

  /** The rules do not keep a note in its directory: for any name `n`, "../n" passes them,
      and the renamed note lands one level up, in the directory above its own. A note that
      sat directly in the notes directory `root` so ends up outside it. */
  lemma RenameNoteCanLeaveItsDirectory(root: Path, notePath: Path, n: Name)
    ensures ValidateInput("../" + n, false).Null?
    ensures RenamePath(notePath, false, "../" + n) == Dirname(Dirname(notePath)) + [n + ".md"]
    ensures Dirname(notePath) == root && root != [] ==> !(root < RenamePath(notePath, false, "../" + n))
  {
    UpAndNameAccepted(n);
    var dir := Dirname(notePath);
    NoteName(n);
    var file: Name := n + ".md";
    var segs := SplitUpAndName(file);
    assert ("../" + n) + ".md" == "../" + file;
    JoinSegmentName(Dirname(dir), file);
    calc {
      RenamePath(notePath, false, "../" + n);
      Join(dir, "../" + file);
      Resolve(dir, segs);
      Resolve(JoinSegment(dir, ".."), [file]);
      { assert JoinSegment(dir, "..") == Dirname(dir); }
      Resolve(Dirname(dir), [file]);
      Dirname(dir) + [file];
    }
  }

  /** A name after "../" starts with a dot, so it is never blank; a note's name may hold dots. */
  lemma UpAndNameAccepted(n: Name)
    ensures ValidateInput("../" + n, false).Null?
  {
    assert !IsBlank("../" + n) by {
      assert ("../" + n)[0] == '.' && !IsJsWhitespace(("../" + n)[0]);
    }
  }

  /** "../" followed by a plain name splits into ".." and the name. */
  lemma SplitUpAndName(n: Name) returns (segs: seq<string>)
    ensures segs == ["..", n] && Split("../" + n) == segs && segs[1..] == [n]
  {
    SplitSlash("..", n);
    SplitNoSlash(n);
    assert "../" + n == ".." + "/" + n;
    segs := ["..", n];
  }

  // ----- Creating -----

  /** `itemType === 'note' ? 'note' : 'folder'`. */
  function ItemTypeName(itemType: string): string
  {
    if itemType == "note" then "note" else "folder"
  }

  /** `path.join(targetFolder, name + '.md')` for a note, `path.join(targetFolder, name)` otherwise. */
  function CreatePath(targetFolder: Path, itemType: string, itemName: string): Path
  {
    if itemType == "note" then Join(targetFolder, itemName + ".md") else Join(targetFolder, itemName)
  }

  /** For a plain name the new item is a direct child of the target folder, a note named with
      ".md" added and listed under the name given. */
  lemma CreatePathInside(targetFolder: Path, itemType: string, itemName: Name)
    ensures var p := CreatePath(targetFolder, itemType, itemName);
      p != [] && Dirname(p) == targetFolder
      && (itemType == "note" ==> Basename(p) == itemName + ".md" && IsMarkdownName(Basename(p))
                                  && BasenameMd(p) == itemName)
      && (itemType != "note" ==> Basename(p) == itemName)
  {
    NoteName(itemName);
    if itemType == "note" {
      var file: Name := itemName + ".md";
      JoinName(targetFolder, file);
    } else {
      JoinName(targetFolder, itemName);
    }
  }

  // ----- Revealing a file in the sidebar -----

  /** The expand request issued for what the lookup of a prefix found, if anything. */
  function ExpandOf(found: Option<Entry>): seq<RevealRequest>
  {
    if found.Some? then [Reveal(found.value, true, false, false)] else []
  }

  /** The select request issued for what the lookup of the file found, if anything. */
  function SelectOf(found: Option<Entry>): seq<RevealRequest>
  {
    if found.Some? then [Reveal(found.value, false, true, true)] else []
  }

  /** The requests of the loop over the first `|parts|` parts: for each, the path joined so
      far is looked up and what is found is expanded; a lookup that throws ends the call. */
  function ExpandReveals(fs: FileSystem, root: Path, showHidden: bool, parts: seq<string>)
    : Result<seq<RevealRequest>, Error>
    requires NoSlashes(parts)
    decreases |parts|
  {
    if parts == [] then Ok([])
    else
      NoSlashesSlice(parts, 0, |parts| - 1);
      match ExpandReveals(fs, root, showHidden, parts[..|parts| - 1])
      case Err(e) => Err(e)
      case Ok(acc) =>
        match FindByPath(fs, root, showHidden, Resolve(root, parts))
        case Err(e) => Err(e)
        case Ok(found) => Ok(acc + ExpandOf(found))
  }

  /** `selectFileInSidebar(filePath, treeView, provider)`: the expand requests for the path's
      prefixes, then the select request for the file. */
  function SidebarReveals(fs: FileSystem, root: Path, showHidden: bool, filePath: Path)
    : Result<seq<RevealRequest>, Error>
  {
    match ExpandReveals(fs, root, showHidden, RelativeParts(root, filePath))
    case Err(e) => Err(e)
    case Ok(expands) =>
      match FindByPath(fs, root, showHidden, filePath)
      case Err(e) => Err(e)
      case Ok(found) => Ok(expands + SelectOf(found))
  }

  method SelectFileInSidebar(p: SidenotesProvider, fs: FileSystem, filePath: Path)
    returns (r: Result<seq<RevealRequest>, Error>)
    ensures r == SidebarReveals(fs, p.sidenotesFolderPath, p.showHiddenFiles, filePath)
  {
    var root, showHidden := p.sidenotesFolderPath, p.showHiddenFiles;
    var relativePath := Relative(root, filePath);
    var pathParts := Split(relativePath);
    RelativePartsSplit(root, filePath);
    var requests: seq<RevealRequest> := [];
    var currentPath := root;
    for i := 0 to |pathParts|
      invariant NoSlashes(pathParts[..i])
      invariant currentPath == Resolve(root, pathParts[..i])
      invariant ExpandReveals(fs, root, showHidden, pathParts[..i]) == Ok(requests)
    {
      JoinSegmentJoin(currentPath, pathParts[i]);
      currentPath := Join(currentPath, pathParts[i]);
      ExpandRevealsResolve(root, pathParts, i);
      var element := p.FindElementByPath(fs, currentPath);
      if element.Err? {
        ExpandRevealsStepErr(fs, root, showHidden, pathParts, i, requests, element.error);
        ExpandRevealsErr(fs, root, showHidden, pathParts, i + 1);
        return Err(element.error);
      }
      ExpandRevealsStep(fs, root, showHidden, pathParts, i, requests, element.value);
      if element.value.Some? {
        requests := requests + [Reveal(element.value.value, true, false, false)];
      }
    }
    assert pathParts[..|pathParts|] == pathParts;
    var fileElement := p.FindElementByPath(fs, filePath);
    SidebarRevealsOf(fs, root, showHidden, filePath, requests, fileElement);
    if fileElement.Err? {
      return Err(fileElement.error);
    }
    if fileElement.value.Some? {
      requests := requests + [Reveal(fileElement.value.value, false, true, true)];
    }
    r := Ok(requests);
  }

  /** The final lookup, once the loop over the parts has returned. */
  lemma SidebarRevealsOf(fs: FileSystem, root: Path, showHidden: bool, filePath: Path,
                         expands: seq<RevealRequest>, found: Result<Option<Entry>, Error>)
    requires ExpandReveals(fs, root, showHidden, RelativeParts(root, filePath)) == Ok(expands)
    requires FindByPath(fs, root, showHidden, filePath) == found
    ensures found.Err? ==> SidebarReveals(fs, root, showHidden, filePath) == Err(found.error)
    ensures found.Ok? && found.value.Null? ==> SidebarReveals(fs, root, showHidden, filePath) == Ok(expands)
    ensures found.Ok? && found.value.Some? ==> SidebarReveals(fs, root, showHidden, filePath)
                                               == Ok(expands + [Reveal(found.value.value, false, true, true)])
  {
    assert expands + [] == expands;
  }

  /** The path the loop has joined after part `i`. */
  lemma ExpandRevealsResolve(root: Path, parts: seq<string>, i: nat)
    requires NoSlashes(parts) && i < |parts|
    ensures NoSlashes(parts[..i]) && NoSlashes(parts[..i + 1])
    ensures Resolve(root, parts[..i + 1]) == JoinSegment(Resolve(root, parts[..i]), parts[i])
  {
    NoSlashesSlice(parts, 0, i);
    NoSlashesSlice(parts, 0, i + 1);
    assert parts[..i + 1] == parts[..i] + [parts[i]];
    ResolveSnoc(root, parts[..i], parts[i]);
  }

  /** Part `i` of the loop, when its lookup returns. */
  lemma ExpandRevealsStep(fs: FileSystem, root: Path, showHidden: bool, parts: seq<string>, i: nat,
                          acc: seq<RevealRequest>, found: Option<Entry>)
    requires NoSlashes(parts) && i < |parts|
    requires NoSlashes(parts[..i]) && ExpandReveals(fs, root, showHidden, parts[..i]) == Ok(acc)
    requires FindByPath(fs, root, showHidden, Resolve(root, parts[..i + 1])) == Ok(found)
    ensures NoSlashes(parts[..i + 1])
    ensures found.Some? ==> ExpandReveals(fs, root, showHidden, parts[..i + 1])
                            == Ok(acc + [Reveal(found.value, true, false, false)])
    ensures found.Null? ==> ExpandReveals(fs, root, showHidden, parts[..i + 1]) == Ok(acc)
  {
    NoSlashesSlice(parts, 0, i + 1);
    var segs := parts[..i + 1];
    assert segs[..|segs| - 1] == parts[..i];
    ExpandRevealsSnoc(fs, root, showHidden, segs, acc, found);
    if found.Null? {
      assert acc + [] == acc;
    }
  }

  /** The loop over `segs` is the loop over all but its last part and the lookup of the whole. */
  lemma ExpandRevealsSnoc(fs: FileSystem, root: Path, showHidden: bool, segs: seq<string>,
                          acc: seq<RevealRequest>, found: Option<Entry>)
    requires NoSlashes(segs) && segs != []
    requires NoSlashes(segs[..|segs| - 1]) && ExpandReveals(fs, root, showHidden, segs[..|segs| - 1]) == Ok(acc)
    requires FindByPath(fs, root, showHidden, Resolve(root, segs)) == Ok(found)
    ensures ExpandReveals(fs, root, showHidden, segs) == Ok(acc + ExpandOf(found))
  {
  }

  /** Part `i` of the loop, when its lookup throws. */
  lemma ExpandRevealsStepErr(fs: FileSystem, root: Path, showHidden: bool, parts: seq<string>, i: nat,
                             acc: seq<RevealRequest>, e: Error)
    requires NoSlashes(parts) && i < |parts|
    requires NoSlashes(parts[..i]) && ExpandReveals(fs, root, showHidden, parts[..i]) == Ok(acc)
    requires FindByPath(fs, root, showHidden, Resolve(root, parts[..i + 1])) == Err(e)
    ensures NoSlashes(parts[..i + 1])
    ensures ExpandReveals(fs, root, showHidden, parts[..i + 1]) == Err(e)
  {
    NoSlashesSlice(parts, 0, i + 1);
    assert parts[..i + 1][..i] == parts[..i];
  }

  /** Once a prefix's lookups have thrown, the whole loop throws the same error. */
  lemma {:induction false} ExpandRevealsErr(fs: FileSystem, root: Path, showHidden: bool, parts: seq<string>, k: nat)
    requires NoSlashes(parts) && k <= |parts|
    requires NoSlashes(parts[..k]) && ExpandReveals(fs, root, showHidden, parts[..k]).Err?
    ensures ExpandReveals(fs, root, showHidden, parts) == ExpandReveals(fs, root, showHidden, parts[..k])
    decreases |parts|
  {
    if k < |parts| {
      var init := parts[..|parts| - 1];
      NoSlashesSlice(parts, 0, |parts| - 1);
      assert init[..k] == parts[..k];
      ExpandRevealsErr(fs, root, showHidden, init, k);
    } else {
      assert parts[..k] == parts;
    }
  }

  /** A loop over `i + 1` parts that returns has returned over the first `i` and the
      lookup of part `i`. */
  lemma ExpandRevealsOk(fs: FileSystem, root: Path, showHidden: bool, parts: seq<string>, i: nat,
                        rs: seq<RevealRequest>)
    requires NoSlashes(parts) && i < |parts|
    requires NoSlashes(parts[..i + 1]) && ExpandReveals(fs, root, showHidden, parts[..i + 1]) == Ok(rs)
    ensures NoSlashes(parts[..i]) && ExpandReveals(fs, root, showHidden, parts[..i]).Ok?
    ensures FindByPath(fs, root, showHidden, Resolve(root, parts[..i + 1])).Ok?
    ensures rs == ExpandReveals(fs, root, showHidden, parts[..i]).value
                  + ExpandOf(FindByPath(fs, root, showHidden, Resolve(root, parts[..i + 1])).value)
  {
    NoSlashesSlice(parts, 0, i);
    assert parts[..i + 1][..i] == parts[..i];
  }

  /** For a file below the notes folder the parts are its names below the folder, so the
      `i`-th lookup is of the folder `i` levels down on the way to the file. */
  lemma PrefixLookup(fs: FileSystem, root: Path, showHidden: bool, filePath: Path, parts: Path, n: nat)
    requires root < filePath && parts == filePath[|root|..] && 0 < n <= |parts|
    ensures NoSlashes(parts[..n])
    ensures Resolve(root, parts[..n]) == filePath[..|root| + n]
    ensures FindByPath(fs, root, showHidden, filePath[..|root| + n])
         == FindFrom(fs, root, showHidden, Null, root, parts[..n])
  {
    ResolveNames(root, parts[..n]);
    SubPathSlice(root, filePath, n);
    var prefix := filePath[..|root| + n];
    RelativePartsUnder(root, prefix);
    assert prefix[|root|..] == parts[..n];
  }

  /** A request that expands its entry without selecting or focusing it. */
  predicate ExpandOnly(r: RevealRequest)
  {
    r.expand && !r.select && !r.focus
  }

  /** `rs` expands the entries at `filePath`'s prefixes of lengths `depth + 1`, `depth + 2`, .... */
  predicate ExpandsAlong(rs: seq<RevealRequest>, filePath: Path, depth: nat)
  {
    depth + |rs| <= |filePath|
    && forall k :: 0 <= k < |rs| ==>
         ExpandOnly(rs[k]) && rs[k].target.EntryPath() == filePath[..depth + k + 1]
  }

  /** `rs` expands entries strictly below `root` and at or above `bound`, each deeper than the one before. */
  predicate ExpandsWithin(rs: seq<RevealRequest>, root: Path, bound: Path)
  {
    (forall i :: 0 <= i < |rs| ==> ExpandOnly(rs[i]) && root < rs[i].target.EntryPath() <= bound)
    && forall i, j :: 0 <= i < j < |rs| ==> |rs[i].target.EntryPath()| < |rs[j].target.EntryPath()|
  }

  lemma AlongSnoc(rs: seq<RevealRequest>, filePath: Path, depth: nat, y: Entry)
    requires ExpandsAlong(rs, filePath, depth) && depth + |rs| < |filePath|
    requires y.EntryPath() == filePath[..depth + |rs| + 1]
    ensures ExpandsAlong(rs + [Reveal(y, true, false, false)], filePath, depth)
  {
    var rs' := rs + [Reveal(y, true, false, false)];
    forall k | 0 <= k < |rs'|
      ensures ExpandOnly(rs'[k]) && rs'[k].target.EntryPath() == filePath[..depth + k + 1]
    {
      if k < |rs| {
        assert rs'[k] == rs[k];
      }
    }
  }

  lemma WithinSnoc(rs: seq<RevealRequest>, root: Path, bound: Path, here: Path, found: Option<Entry>)
    requires ExpandsWithin(rs, root, bound) && bound < here
    requires found.Some? ==> found.value.EntryPath() == here && root < here
    ensures ExpandsWithin(rs + ExpandOf(found), root, here)
  {
    forall i | 0 <= i < |rs|
      ensures root < rs[i].target.EntryPath() <= here && |rs[i].target.EntryPath()| < |here|
    {
      assert rs[i].target.EntryPath() <= bound;
    }
    if found.Some? {
      var rs' := rs + [Reveal(found.value, true, false, false)];
      forall i | 0 <= i < |rs'|
        ensures ExpandOnly(rs'[i]) && root < rs'[i].target.EntryPath() <= here
      {
        if i < |rs| {
          assert rs'[i] == rs[i];
        }
      }
      forall i, j | 0 <= i < j < |rs'|
        ensures |rs'[i].target.EntryPath()| < |rs'[j].target.EntryPath()|
      {
        assert rs'[i] == rs[i];
        if j < |rs| {
          assert rs'[j] == rs[j];
        }
      }
    } else {
      assert rs + [] == rs;
    }
  }

  /** Every request of the loop expands, without selecting, an entry on the way from the
      notes folder down to the file, each deeper than the one before. */
  lemma {:induction false} ExpandRevealsUnder(fs: FileSystem, root: Path, showHidden: bool, filePath: Path,
                                              parts: Path, n: nat, rs: seq<RevealRequest>)
    requires root < filePath && parts == filePath[|root|..] && n <= |parts|
    requires NoSlashes(parts[..n]) && ExpandReveals(fs, root, showHidden, parts[..n]) == Ok(rs)
    ensures |rs| <= n
    ensures ExpandsWithin(rs, root, filePath[..|root| + n])
    decreases n
  {
    if n == 0 {
      assert parts[..n] == [];
    } else {
      NamesNoSlashes(parts);
      ExpandRevealsOk(fs, root, showHidden, parts, n - 1, rs);
      PrefixLookup(fs, root, showHidden, filePath, parts, n);
      var acc := ExpandReveals(fs, root, showHidden, parts[..n - 1]).value;
      var here := filePath[..|root| + n];
      var found := FindByPath(fs, root, showHidden, here).value;
      assert rs == acc + ExpandOf(found);
      ExpandRevealsUnder(fs, root, showHidden, filePath, parts, n - 1, acc);
      assert filePath[..|root| + n - 1] < here;
      if found.Some? {
        FindByPathSound(fs, root, showHidden, here, found.value);
      }
      WithinSnoc(acc, root, filePath[..|root| + n - 1], here, found);
    }
  }

  /** When the file is in the tree, every folder on the way down to it is too: the loop
      expands each of them, top-down, the file last. */
  lemma {:induction false} ExpandRevealsFound(fs: FileSystem, root: Path, showHidden: bool, filePath: Path,
                                              parts: Path, n: nat, x: Entry)
    returns (rs: seq<RevealRequest>)
    requires root < filePath && parts == filePath[|root|..] && n <= |parts|
    requires FindByPath(fs, root, showHidden, filePath) == Ok(Some(x))
    ensures NoSlashes(parts[..n]) && ExpandReveals(fs, root, showHidden, parts[..n]) == Ok(rs)
    ensures |rs| == n && ExpandsAlong(rs, filePath, |root|)
    decreases n
  {
    NamesNoSlashes(parts[..n]);
    if n == 0 {
      assert parts[..n] == [];
      rs := [];
    } else {
      var acc := ExpandRevealsFound(fs, root, showHidden, filePath, parts, n - 1, x);
      rs := ExpandRevealsFoundStep(fs, root, showHidden, filePath, parts, n, x, acc);
    }
  }

  lemma ExpandRevealsFoundStep(fs: FileSystem, root: Path, showHidden: bool, filePath: Path,
                               parts: Path, n: nat, x: Entry, acc: seq<RevealRequest>)
    returns (rs: seq<RevealRequest>)
    requires root < filePath && parts == filePath[|root|..] && 0 < n <= |parts|
    requires FindByPath(fs, root, showHidden, filePath) == Ok(Some(x))
    requires NoSlashes(parts[..n - 1]) && ExpandReveals(fs, root, showHidden, parts[..n - 1]) == Ok(acc)
    requires |acc| == n - 1 && ExpandsAlong(acc, filePath, |root|)
    ensures NoSlashes(parts[..n]) && ExpandReveals(fs, root, showHidden, parts[..n]) == Ok(rs)
    ensures |rs| == n && ExpandsAlong(rs, filePath, |root|)
  {
    NamesNoSlashes(parts);
    var y := PrefixFound(fs, root, showHidden, filePath, parts, n, x);
    ExpandRevealsStep(fs, root, showHidden, parts, n - 1, acc, Some(y));
    AlongSnoc(acc, filePath, |root|, y);
    rs := acc + [Reveal(y, true, false, false)];
  }

  /** The folders on the way down to a file in the tree are in the tree. */
  lemma PrefixFound(fs: FileSystem, root: Path, showHidden: bool, filePath: Path, parts: Path, n: nat, x: Entry)
    returns (y: Entry)
    requires root < filePath && parts == filePath[|root|..] && 0 < n <= |parts|
    requires FindByPath(fs, root, showHidden, filePath) == Ok(Some(x))
    ensures NoSlashes(parts[..n])
    ensures FindByPath(fs, root, showHidden, Resolve(root, parts[..n])) == Ok(Some(y))
    ensures y.EntryPath() == filePath[..|root| + n]
  {
    RelativePartsUnder(root, filePath);
    NamesNoSlashes(parts);
    FindFromPrefix(fs, root, showHidden, Null, root, parts, n);
    PrefixLookup(fs, root, showHidden, filePath, parts, n);
    var here := filePath[..|root| + n];
    y := FindByPath(fs, root, showHidden, here).value.value;
    FindByPathSound(fs, root, showHidden, here, y);
  }

  /** The expand requests all the way down, followed by the select request for the file. */
  lemma SelectAfterAlong(rs: seq<RevealRequest>, filePath: Path, depth: nat, x: Entry, all: seq<RevealRequest>)
    requires ExpandsAlong(rs, filePath, depth) && |rs| == |filePath| - depth
    requires all == rs + [Reveal(x, false, true, true)]
    ensures |all| == |filePath| - depth + 1 && all[|all| - 1] == Reveal(x, false, true, true)
      && forall k :: 0 <= k < |all| - 1 ==>
           all[k].expand && !all[k].select && all[k].target.EntryPath() == filePath[..depth + k + 1]
  {
    forall k | 0 <= k < |all| - 1
      ensures all[k].expand && !all[k].select && all[k].target.EntryPath() == filePath[..depth + k + 1]
    {
      assert all[k] == rs[k];
    }
  }

  /** The expand requests followed by the select request, when the expands stay within the file's path. */
  lemma SelectAfterExpands(rs: seq<RevealRequest>, root: Path, filePath: Path, found: Option<Entry>,
                            all: seq<RevealRequest>)
    requires ExpandsWithin(rs, root, filePath) && root < filePath
    requires found.Some? ==> found.value.EntryPath() == filePath
    requires all == rs + SelectOf(found)
    ensures |all| <= |rs| + 1
    ensures forall i :: 0 <= i < |all| ==> root < all[i].target.EntryPath() <= filePath
    ensures forall i :: 0 <= i < |all| && !all[i].select ==> all[i].expand && !all[i].focus
    ensures forall i :: 0 <= i < |all| && all[i].select ==>
              i == |all| - 1 && all[i].focus && !all[i].expand && all[i].target.EntryPath() == filePath
    ensures forall i, j :: 0 <= i < j < |all| && !all[j].select ==>
              |all[i].target.EntryPath()| < |all[j].target.EntryPath()|
    ensures (all != [] && all[|all| - 1].select) <==> found.Some?
  {
    if found.Some? {
      assert all == rs + [Reveal(found.value, false, true, true)];
      forall i | 0 <= i < |rs| ensures all[i] == rs[i] && !all[i].select {
      }
    } else {
      assert all == rs;
    }
  }

  /** What `selectFileInSidebar` reveals for a file below the notes folder: entries on the
      way down to it, top-down, expanded but not selected; the file itself selected and
      focused last, exactly when it is in the tree. */
  lemma SidebarRevealsSound(fs: FileSystem, root: Path, showHidden: bool, filePath: Path, rs: seq<RevealRequest>)
    requires root < filePath
    requires SidebarReveals(fs, root, showHidden, filePath) == Ok(rs)
    ensures |rs| <= |filePath| - |root| + 1
    ensures forall i :: 0 <= i < |rs| ==> root < rs[i].target.EntryPath() <= filePath
    ensures forall i :: 0 <= i < |rs| && !rs[i].select ==> rs[i].expand && !rs[i].focus
    ensures forall i :: 0 <= i < |rs| && rs[i].select ==>
              i == |rs| - 1 && rs[i].focus && !rs[i].expand && rs[i].target.EntryPath() == filePath
    ensures forall i, j :: 0 <= i < j < |rs| && !rs[j].select ==>
              |rs[i].target.EntryPath()| < |rs[j].target.EntryPath()|
    ensures (rs != [] && rs[|rs| - 1].select)
        <==> FindByPath(fs, root, showHidden, filePath).value.Some?
  {
    var expands, found := SidebarRevealsParts(fs, root, showHidden, filePath, rs);
    ExpandRevealsAll(fs, root, showHidden, filePath, expands);
    if found.Some? {
      FindByPathSound(fs, root, showHidden, filePath, found.value);
    }
    SelectAfterExpands(expands, root, filePath, found, rs);
  }

  /** The whole loop, for a file below the notes folder. */
  lemma ExpandRevealsAll(fs: FileSystem, root: Path, showHidden: bool, filePath: Path, expands: seq<RevealRequest>)
    requires root < filePath
    requires ExpandReveals(fs, root, showHidden, RelativeParts(root, filePath)) == Ok(expands)
    ensures |expands| <= |filePath| - |root| && ExpandsWithin(expands, root, filePath)
  {
    var parts := PartsBelow(root, filePath);
    ExpandRevealsUnder(fs, root, showHidden, filePath, parts, |parts|, expands);
    WithinWhole(expands, root, filePath, |root| + |parts|);
  }

  /** The parts of a path below the notes folder are its names below it. */
  lemma PartsBelow(root: Path, filePath: Path) returns (parts: Path)
    requires root < filePath
    ensures parts == filePath[|root|..] && |root| + |parts| == |filePath|
    ensures NoSlashes(parts) && RelativeParts(root, filePath) == parts[..|parts|]
  {
    parts := filePath[|root|..];
    RelativePartsUnder(root, filePath);
    NamesNoSlashes(parts);
    assert parts[..|parts|] == parts;
  }

  lemma WithinWhole(rs: seq<RevealRequest>, root: Path, filePath: Path, n: nat)
    requires n == |filePath| && ExpandsWithin(rs, root, filePath[..n])
    ensures ExpandsWithin(rs, root, filePath)
  {
    assert filePath[..n] == filePath;
  }

  /** A call that returns has returned from the loop and from the lookup of the file. */
  lemma SidebarRevealsParts(fs: FileSystem, root: Path, showHidden: bool, filePath: Path, rs: seq<RevealRequest>)
    returns (expands: seq<RevealRequest>, found: Option<Entry>)
    requires SidebarReveals(fs, root, showHidden, filePath) == Ok(rs)
    ensures ExpandReveals(fs, root, showHidden, RelativeParts(root, filePath)) == Ok(expands)
    ensures FindByPath(fs, root, showHidden, filePath) == Ok(found)
    ensures rs == expands + SelectOf(found)
  {
    expands := ExpandReveals(fs, root, showHidden, RelativeParts(root, filePath)).value;
    found := FindByPath(fs, root, showHidden, filePath).value;
  }

  /** When the file is in the tree, `selectFileInSidebar` expands every folder on the way
      down to it and the file itself, top-down, then selects and focuses the file. */
  lemma SidebarRevealsComplete(fs: FileSystem, root: Path, showHidden: bool, filePath: Path, x: Entry)
    requires root < filePath
    requires FindByPath(fs, root, showHidden, filePath) == Ok(Some(x))
    ensures SidebarReveals(fs, root, showHidden, filePath).Ok?
    ensures var rs := SidebarReveals(fs, root, showHidden, filePath).value;
            |rs| == |filePath| - |root| + 1 && rs[|rs| - 1] == Reveal(x, false, true, true)
            && forall k :: 0 <= k < |rs| - 1 ==>
                 rs[k].expand && !rs[k].select && rs[k].target.EntryPath() == filePath[..|root| + k + 1]
  {
    var expands := ExpandRevealsAllFound(fs, root, showHidden, filePath, x);
    SidebarRevealsOf(fs, root, showHidden, filePath, expands, Ok(Some(x)));
    SelectAfterAlong(expands, filePath, |root|, x, expands + [Reveal(x, false, true, true)]);
  }

  /** The whole loop, for a file in the tree. */
  lemma ExpandRevealsAllFound(fs: FileSystem, root: Path, showHidden: bool, filePath: Path, x: Entry)
    returns (expands: seq<RevealRequest>)
    requires root < filePath
    requires FindByPath(fs, root, showHidden, filePath) == Ok(Some(x))
    ensures ExpandReveals(fs, root, showHidden, RelativeParts(root, filePath)) == Ok(expands)
    ensures |expands| == |filePath| - |root| && ExpandsAlong(expands, filePath, |root|)
  {
    var parts := PartsBelow(root, filePath);
    expands := ExpandRevealsFound(fs, root, showHidden, filePath, parts, |parts|, x);
  }

  // ----- The commands -----

  datatype NotificationKind = Info | ErrorNotice

  /** A `showNotification(message, type)` call. */
  datatype Notification = Notification(message: string, kind: NotificationKind)

  /** The entry `renameItem` builds for the renamed item: of the same kind, labelled with the
      new name, at the new path. */
  function RenamedEntry(item: Entry, newName: string): Entry
  {
    var newPath := RenamePath(item.EntryPath(), item.Folder?, newName);
    if item.Folder? then NewFolder(newName, newPath) else NewItem(newName, newPath)
  }

  /** For a plain name, the entry `renameItem` selects is the very entry a fresh listing of
      the directory builds for the renamed file or folder. */
  lemma RenamedEntryListed(item: Entry, newName: Name)
    ensures var dir := Dirname(item.EntryPath());
      var e := RenamedEntry(item, newName);
      e.Folder? == item.Folder? && e.labelText == newName
      && (item.Folder? ==> e == EntryFor(dir, DirEntry(newName, Directory)))
      && (item.Item? ==> e == EntryFor(dir, DirEntry(newName + ".md", RegularFile)))
  {
    var dir := Dirname(item.EntryPath());
    NoteName(newName);
    if item.Folder? {
      JoinName(dir, newName);
      JoinSegmentName(dir, newName);
    } else {
      var file: Name := newName + ".md";
      JoinName(dir, file);
      JoinSegmentName(dir, file);
    }
  }

  /** `renameItem(item, sidenoteProvider)` once the input box has returned `newName`
      (`Null` when it was dismissed). `renamed` is what `fs.rename` did; `editorOpen` says
      whether a visible editor shows the old file, and `reopened` what reopening the new
      file in it did. Returns the path the item is moved to, if a move is attempted, and
      the notifications shown. */
  method RenameItem(p: SidenotesProvider, item: Entry, newName: Option<string>, renamed: Outcome,
                    editorOpen: bool, reopened: Outcome)
    returns (target: Option<Path>, shown: seq<Notification>)
    modifies p`selectedItem, p`selectionEvents, p`treeDataEvents
    ensures target == if RenameGoesAhead(newName, item.labelText)
                      then Some(RenamePath(item.EntryPath(), item.Folder?, newName.value)) else Null
    ensures !RenameGoesAhead(newName, item.labelText) ==> shown == [] && unchanged(p)
    ensures RenameGoesAhead(newName, item.labelText) && renamed.Fail? ==>
      shown == [Notification("Failed to rename \"" + item.labelText + "\": " + renamed.message, ErrorNotice)]
      && unchanged(p)
    ensures RenameGoesAhead(newName, item.labelText) && renamed.Pass? && item.labelText == "" ==>
      shown == [Notification("Failed to rename \"" + item.labelText + "\": " + Capitalize("").error.Message(), ErrorNotice)]
      && unchanged(p)
    ensures RenameGoesAhead(newName, item.labelText) && renamed.Pass? && item.labelText != "" ==>
      p.selectedItem != null && fresh(p.selectedItem)
      && p.selectedItem.entry == RenamedEntry(item, newName.value)
      && p.selectionEvents == old(p.selectionEvents) + [p.selectedItem]
      && p.treeDataEvents == old(p.treeDataEvents) + 1
      && shown == [Notification("\"" + Capitalize(item.labelText).value + "\" has been renamed to \""
                                + newName.value + "\".", Info)]
                  + (if item.Item? && editorOpen && reopened.Fail?
                     then [Notification("Failed to rename \"" + item.labelText + "\": " + reopened.message, ErrorNotice)]
                     else [])
  {
    var oldPath := item.EntryPath();
    var oldName := item.labelText;
    var isFolder := item.Folder?;
    target, shown := Null, [];
    if newName.Some? && newName.value != "" && newName.value != oldName {
      var name := newName.value;
      var newPath := RenamePath(oldPath, isFolder, name);
      target := Some(newPath);
      if renamed.Fail? {
        shown := [Notification("Failed to rename \"" + oldName + "\": " + renamed.message, ErrorNotice)];
        return;
      }
      var capitalized := Capitalize(oldName);
      if capitalized.Err? {
        shown := [Notification("Failed to rename \"" + oldName + "\": " + capitalized.error.Message(), ErrorNotice)];
        return;
      }
      shown := [Notification("\"" + capitalized.value + "\" has been renamed to \"" + name + "\".", Info)];
      var newItem := new TreeNode(if isFolder then NewFolder(name, newPath) else NewItem(name, newPath));
      p.SetSelectedItem(newItem);
      p.Refresh();
      if !isFolder && editorOpen && reopened.Fail? {
        shown := shown + [Notification("Failed to rename \"" + oldName + "\": " + reopened.message, ErrorNotice)];
      }
    }
  }

  /** `itemTypeName` capitalized, as the success message shows it. */
  lemma ItemTypeNameCapitalized(itemType: string)
    ensures ItemTypeName(itemType) == "note" || ItemTypeName(itemType) == "folder"
    ensures Capitalize(ItemTypeName(itemType)) == Ok(if itemType == "note" then "Note" else "Folder")
  {
    var t := ItemTypeName(itemType);
    if itemType == "note" {
      assert UpperChar(t[0]) == 'N' && t[1..] == "ote";
      assert [UpperChar(t[0])] + t[1..] == "Note";
    } else {
      assert UpperChar(t[0]) == 'F' && t[1..] == "older";
      assert [UpperChar(t[0])] + t[1..] == "Folder";
    }
  }

  /** The notification `createNewItem` shows after a failure with message `m`. */
  function CreateFailure(itemTypeName: string, m: string): Notification
  {
    Notification("Failed to create " + itemTypeName + ": " + m, ErrorNotice)
  }

  /** `createNewItem(itemType, sidenoteProvider, treeView)` once the input box has returned
      `itemName` (`Null` when it was dismissed). `created` is what `fs.writeFile` (a note)
      or `fs.mkdir` (a folder) did, `docShown` what opening and showing the new note did, and
      `fs` the notes directory after the write; `hasTreeView` says whether a tree view was
      passed. Returns the prompt asked, the path written, if any, the notifications shown and
      the reveal requests issued. */
  method CreateNewItem(p: SidenotesProvider, fs: FileSystem, itemType: string, itemName: Option<string>,
                       created: Outcome, docShown: Outcome, hasTreeView: bool)
    returns (prompt: string, target: Option<Path>, shown: seq<Notification>, requests: seq<RevealRequest>)
    modifies p`treeDataEvents
    ensures prompt == GetPromptMessage(ItemTypeName(itemType), GetTargetFolder(p).parentFolderName)
    ensures target == if itemName.Some? && itemName.value != ""
                      then Some(CreatePath(GetTargetFolder(p).targetFolder, itemType, itemName.value)) else Null
    ensures itemName.Null? || itemName.value == "" ==>
      shown == [] && requests == [] && p.treeDataEvents == old(p.treeDataEvents)
    ensures itemName.Some? && itemName.value != "" ==>
      var typeName := ItemTypeName(itemType);
      var newPath := CreatePath(GetTargetFolder(p).targetFolder, itemType, itemName.value);
      var revealed := if itemType == "note" && hasTreeView
                      then SidebarReveals(fs, p.sidenotesFolderPath, p.showHiddenFiles, newPath)
                      else Ok([]);
      (created.Fail? ==>
         shown == [CreateFailure(typeName, created.message)] && requests == []
         && p.treeDataEvents == old(p.treeDataEvents))
      && (created.Pass? && itemType == "note" && docShown.Fail? ==>
         shown == [CreateFailure(typeName, docShown.message)] && requests == []
         && p.treeDataEvents == old(p.treeDataEvents))
      && (created.Pass? && (itemType != "note" || docShown.Pass?) && revealed.Err? ==>
         shown == [CreateFailure(typeName, revealed.error.Message())] && requests == []
         && p.treeDataEvents == old(p.treeDataEvents))
      && (created.Pass? && (itemType != "note" || docShown.Pass?) && revealed.Ok? ==>
         shown == [Notification(Capitalize(typeName).value + " \"" + itemName.value + "\" created successfully.", Info)]
         && requests == revealed.value
         && p.treeDataEvents == old(p.treeDataEvents) + 1)
  {
    var folder := GetTargetFolder(p);
    var itemTypeName := if itemType == "note" then "note" else "folder";
    prompt := GetPromptMessage(itemTypeName, folder.parentFolderName);
    target, shown, requests := Null, [], [];
    if itemName.Some? && itemName.value != "" {
      var name := itemName.value;
      var newPath := if itemType == "note" then Join(folder.targetFolder, name + ".md")
                     else Join(folder.targetFolder, name);
      target := Some(newPath);
      if created.Fail? {
        shown := [CreateFailure(itemTypeName, created.message)];
        return;
      }
      if itemType == "note" {
        if docShown.Fail? {
          shown := [CreateFailure(itemTypeName, docShown.message)];
          return;
        }
        if hasTreeView {
          var r := SelectFileInSidebar(p, fs, newPath);
          if r.Err? {
            shown := [CreateFailure(itemTypeName, r.error.Message())];
            return;
          }
          requests := r.value;
        }
      }
      p.Refresh();
      ItemTypeNameCapitalized(itemType);
      var capitalized := Capitalize(itemTypeName);
      shown := [Notification(capitalized.value + " \"" + name + "\" created successfully.", Info)];
    }
  }
}
