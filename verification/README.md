# Sidenotes: the notes tree and its commands, in Dafny

Sidenotes is a VS Code extension that keeps markdown notes in one folder and shows that
folder in a sidebar tree. This project models the core of that extension:

- the tree data providers. The current one is `sidenotesProvider.js`. The older one is
  `providers/SidenotesProvider.js`, which is still the one the extension wires up.
- their entries, in two kinds: a note (`SidenoteItem`) and a folder (`SidenoteFolder`);
- revealing a file in the tree;
- the commands that create and rename notes and folders, in the `utils.js` version and in
  the `commands/` version;
- the full-text quick search over the notes.

Layout:

| file | module | what it holds |
|---|---|---|
| `base.dfy` | `Base` | Option, Result, Outcome, sequences, ASCII case mapping |
| `paths.dfy` | `Paths` | POSIX paths as sequences of names: `join`, `dirname`, `basename`, `extname`, `relative`, `split` |
| `disk.dfy` | `Disk` | the notes directory as a value, `readdir` / `readFile`, the errors they raise |
| `tree_items.dfy` | `TreeItems` | the two entry kinds, and `TreeNode`, the object identity of an entry |
| `provider.dfy` | `Provider` | the `SidenotesProvider` class of `sidenotesProvider.js` |
| `legacy_provider.dfy` | `LegacyProvider` | the `SidenotesProvider` class of `providers/SidenotesProvider.js` |
| `search.dfy` | `Search` | `getAllMarkdownFiles`, `searchNotes`, the quick-pick mapping |
| `utils.dfy` | `Utils` | `getTargetFolder`, `getPromptMessage`, `capitalize`, `selectFileInSidebar`, `createNewItem`, `renameItem` of `utils.js` |
| `commands.dfy` | `Commands` | `createNewItem` and `renameItem` of `commands/` |

The filesystem is a value, `FileSystem(dirs, files, denied)`. It holds:

- the listings of the directories the extension may read, in `readdir` order;
- the text of the files it may read;
- the kind of every other path that exists but that it may not open.

An operation that reads the disk takes that value. Where the source writes the disk
(`writeFile`, `mkdir`, `rename`) or calls the editor (`openTextDocument`, `showTextDocument`),
the model takes that call's outcome as an `Outcome` parameter, `Pass` or `Fail(message)`. The
user's answer in an input box is a parameter too: `Null` when the box was dismissed.

Providers are classes. Their fields are:

- `sidenotesFolderPath`;
- `showHiddenFiles`, in the current provider only;
- the selected entry;
- a count of tree-data-changed events;
- in the current provider, the log of selection-changed events.

Tree entries are immutable values. Their object identity, which `setSelectedItem` compares
with `!==`, is a `TreeNode` object. Each `treeView.reveal(element, options)` call is
recorded as a `RevealRequest`.

`utils.js` and `commands/quickSearch.js` contain the same `searchNotes` and
`getAllMarkdownFiles`, so both are modelled once, by `Search`. `getPromptMessage` of
`commands/createNewItem.js:24-28` is the same as the one in `utils.js:226-230`.
`Utils.GetPromptMessage` models both. In the same way, `validateInput` of
`commands/renameItem.js:16-24` is the same as the one in `utils.js:75-83`, and
`Utils.ValidateInput` models both.

## Model

| member | source | states |
|---|---|---|
| `Disk.ReadDir` | utils.js:193 | `readdir` succeeds exactly on a directory it may read and returns its listing; a file, readable or not, fails with ENOTDIR, a directory it may not read with EACCES, and a missing path with ENOENT |
| `Disk.ReadFile` | utils.js:178 | `readFile` succeeds exactly on a file it may read and returns its text; a readable directory fails with EISDIR, a path it may not open with EACCES, and a missing path with ENOENT |
| `Paths.Dirname` | utils.js:88 | the directory, followed by the last segment, is the path again |
| `Paths.MarkdownNameSuffix` | utils.js:200 | `extname(name).toLowerCase() === '.md'` holds exactly when the name has at least one character before a final ".md" written in any case |
| `Paths.NoteName` | sidenotesProvider.js:44-47 | a plain name with ".md" added is a markdown file name, and stripping ".md" gives the name back |
| `Paths.SplitIntercalate` | utils.js:233-234 | splitting on '/' undoes joining slash-free segments with '/' |
| `Paths.RelativeRoundTrip` | commands/quickSearch.js:20 | joining `relative(from, to)` back onto `from` gives `to` |
| `Paths.RelativePartsUnder` | utils.js:233-234 | for a path below the notes directory, the split relative path is the path's own segments below it; for the directory itself it is `[""]` |
| `Paths.ResolveRelativeParts` | sidenotesProvider.js:76-83 | joining the split relative path onto the root segment by segment ends at the target |
| `Paths.JoinName` | sidenotesProvider.js:39 | joining a plain name appends it as one segment |
| `TreeItems.NewItem` | treeItems.js:3-16 | a note entry has the given label and path, state None, its label as tooltip, an empty description, context "sidenoteItem", and opens its file when clicked |
| `TreeItems.NewFolder` | treeItems.js:18-32 | a folder entry has state Collapsed, context "sidenoteFolder", the "folder" icon, and runs "sidenotes.selectItem" on itself when clicked |
| `Provider.FindChild` | sidenotesProvider.js:85-87 | `children.find` returns a child with that path, or nothing when no child has it |
| `Provider.FindFromStep` | sidenotesProvider.js:82-92 | one loop step of the lookup: a failing listing fails it, a missing child ends it with null, a found child continues one level down |
| `Provider.SidenotesProvider.constructor` | sidenotesProvider.js:7-15 | the root and hidden-files flag are stored, nothing is selected, no event has fired |
| `Provider.SidenotesProvider.Refresh` | sidenotesProvider.js:17-19 | fires one tree-data event |
| `Provider.SidenotesProvider.GetChildren` | sidenotesProvider.js:25-28 | lists the root for no element, otherwise the element's `folderPath`; a note has none, so `readdir(undefined)` fails |
| `Provider.SidenotesProvider.GetSidenotesItems` | sidenotesProvider.js:30-51 | the loops return the listing: visible folders in order, then visible markdown files in order |
| `Provider.SidenotesProvider.SetSelectedItem` | sidenotesProvider.js:57-62 | the item becomes selected; a selection event is logged exactly when it is a different object |
| `Provider.SidenotesProvider.GetParent` | sidenotesProvider.js:64-73 | null for a folder or a note in the root; otherwise the collapsed folder of the note's directory, named by its last segment |
| `Provider.SidenotesProvider.FindElementByPath` | sidenotesProvider.js:75-95 | the loop computes the lookup that descends the tree one segment at a time from the root |
| `Provider.SidenotesProvider.UpdateShowHiddenFiles` | sidenotesProvider.js:97-99 | the flag takes the new value |
| `Provider.SidenotesProvider.HandleTreeSelectionChange` | sidenotesProvider.js:101-107 | selects the first element of the selection, or null when it is empty, logging an event only on a change |
| `Provider.ListingMember` | sidenotesProvider.js:30-51 | an entry is listed exactly when it comes from a directory entry that is visible and is a folder or a markdown file |
| `Provider.ListingShape` | sidenotesProvider.js:38-48 | every listed entry is a direct child of the directory; a folder is labelled by its name and collapsed, a note by its name without ".md"; hidden names only when shown |
| `Base.Filter` | sidenotesProvider.js:35 | `filter` keeps exactly the elements that pass, in their original order |
| `Provider.ListingOrder` | sidenotesProvider.js:37-48 | the listing is the entries of the visible folders, in `readdir` order, then those of the visible markdown files, in `readdir` order |
| `Provider.ListingFoldersFirst` | sidenotesProvider.js:37-48 | no note comes before a folder in a listing |
| `Provider.ListingPathsUnique` | sidenotesProvider.js:30-51 | in a real directory, two listed entries with the same path are the same entry |
| `Provider.FindFromSound` | sidenotesProvider.js:82-94 | an element found below a start point has the path the segments lead to, strictly below the start |
| `Provider.FindByPathSound` | sidenotesProvider.js:75-95 | an element found for a path has exactly that path, strictly below the notes directory |
| `Provider.FindFromPrefix` | sidenotesProvider.js:82-92 | when a lookup finds an element, the lookup of every non-empty prefix of its segments finds one too |
| `Provider.FindOneLevel` | sidenotesProvider.js:82-92 | a child of a listed level is found by a one-segment lookup from that level |
| `Provider.FindChildListed` | sidenotesProvider.js:85-87 | in a real directory, `find` by a listed entry's path returns that entry |
| `Provider.FindAtRootLevel` | sidenotesProvider.js:75-95 | an entry listed in the root is found by its path |
| `Provider.FindUnderFolder` | sidenotesProvider.js:75-95 | a child of a folder that is found by its path is found by its own path |
| `Provider.FindByPathRoundTrip` | sidenotesProvider.js:75-95 | every entry `getChildren` returns is found again by `findElementByPath` of its path |
| `Provider.ParentInverse` | sidenotesProvider.js:64-73 | for a note listed in a directory, `getChildren(getParent(note))` lists that directory again |
| `LegacyProvider.NewLegacyItem` | providers/SidenotesProvider.js:5-18 | a note entry with the state the caller passes, and the same tooltip, context and click command as the current one |
| `LegacyProvider.NewLegacyFolder` | providers/SidenotesProvider.js:20-34 | a folder entry with the state the caller passes, the folder icon, and a select command on itself |
| `LegacyProvider.SidenotesProvider.constructor` | providers/SidenotesProvider.js:37-42 | the root is stored, nothing is selected, no event has fired |
| `LegacyProvider.SidenotesProvider.Refresh` | providers/SidenotesProvider.js:44-46 | fires one tree-data event |
| `LegacyProvider.SidenotesProvider.GetChildren` | providers/SidenotesProvider.js:52-58 | the current provider's children with hidden entries shown |
| `LegacyProvider.SidenotesProvider.GetSidenotesItems` | providers/SidenotesProvider.js:60-94 | the two passes return the current provider's listing with hidden entries shown |
| `LegacyProvider.SidenotesProvider.SetSelectedItem` | providers/SidenotesProvider.js:100-102 | the item becomes selected, with no event and no other change |
| `LegacyProvider.SidenotesProvider.GetParent` | providers/SidenotesProvider.js:104-117 | as the current one, except that the parent folder is built Expanded |
| `LegacyProvider.SidenotesProvider.SelectFileInSidebar` | providers/SidenotesProvider.js:119-144 | the loop issues the reveals built from the path alone, without looking at the tree |
| `LegacyProvider.PassItemsFilter` | providers/SidenotesProvider.js:65-91 | one pass over the entries gives the entries of the filtered listing |
| `LegacyProvider.TwoPasses` | providers/SidenotesProvider.js:60-94 | the folder pass then the markdown pass equal the current provider's listing with hidden entries shown |
| `LegacyProvider.RevealStepsLength` | providers/SidenotesProvider.js:124-143 | one reveal per path segment |
| `LegacyProvider.RevealStepsFolder` | providers/SidenotesProvider.js:135-141 | every reveal but the last expands a folder named by its segment, without selecting it |
| `LegacyProvider.RevealStepsLast` | providers/SidenotesProvider.js:128-134 | the last reveal selects, focuses and expands a note at the whole path |
| `LegacyProvider.RevealStepsBelow` | providers/SidenotesProvider.js:119-144 | for a file below the notes directory, the reveals walk its ancestors below the root in order, then the file |
| `LegacyProvider.RevealPathShape` | providers/SidenotesProvider.js:119-144 | the same for the whole method: each ancestor's folder, expanded, then the note with its name without ".md" |
| `Search.GetAllMarkdownFiles` | utils.js:192-206 | the loop computes the depth-first walk of the listing; any `readdir` failure fails it |
| `Search.MarkdownFilesInStep` | utils.js:196-203 | a subdirectory splices in its own walk; a markdown name is appended; other entries are skipped |
| `Search.MarkdownFilesInErr` | utils.js:199 | once the walk has failed it stays failed with the same error |
| `Search.MarkdownFilesSound` | utils.js:192-206 | every file returned lies strictly below the directory and is a markdown file listed in its own directory |
| `Search.MarkdownFilesUnique` | utils.js:192-206 | in a real filesystem no file is returned twice |
| `Search.MarkdownFilesComplete` | utils.js:192-206 | every markdown file listed in the directory is returned, and so is every file of each subdirectory's walk |
| `Search.Classify` | utils.js:174-182 | a result is always for the file examined |
| `Search.SearchNotes` | utils.js:169-190 | the loop computes the search over the walk of the notes directory, stopping at twelve results |
| `Search.SearchFromAt` | utils.js:173-187 | one loop step: a read failure fails the search, reaching twelve stops it, otherwise it goes on with the next file |
| `Search.NameMatchReadsNothing` | utils.js:174-176 | a file whose name contains the term is a result whatever its text, even if unreadable |
| `Search.ContentMatch` | utils.js:177-181 | otherwise the file is read: it fails exactly when unreadable, with the read's own error, and it is a result "contains term" exactly when its text contains the term, ignoring case |
| `Search.SearchFromCapped` | utils.js:184-186 | the capped loop returns the uncapped matches cut down to twelve |
| `Search.SearchFromErr` | utils.js:178 | when the capped loop fails, the uncapped search fails with the same error |
| `Search.SearchFromShort` | utils.js:173-187 | a loop that stops below the cap has looked at every file |
| `Search.AllMatchesSound` | utils.js:173-187 | every match is a file classified as that result |
| `Search.AllMatchesOrdered` | utils.js:173-187 | the matches keep the order of the files |
| `Search.AllMatchesComplete` | utils.js:173-187 | a successful search reads every file it needs, and every file that is a result is among the matches |
| `Search.AllMatchesEmptyTerm` | utils.js:175 | with the empty term every file is a name match |
| `Search.SearchFromPrefix` | utils.js:173-187 | the loop returns the matches of a prefix of the files, and of all of them when it stops below the cap |
| `Search.SearchFromBound` | utils.js:184-186 | the loop keeps what it had and never gathers more than twelve |
| `Search.SearchFromSound` | utils.js:169-190 | at most twelve results, each a file of the list classified as that result, in list order |
| `Search.SearchFromComplete` | utils.js:169-190 | with fewer than twelve results, every file that is a result is among them |
| `Search.SearchNotesSpec` | utils.js:169-190 | the same guarantees for `searchNotes` over the walk of the notes directory, and no file twice |
| `Search.SearchNotesEmptyTerm` | utils.js:169-190 | the empty term returns the first twelve markdown files of the walk and reads none |
| `Search.PickItems` | commands/quickSearch.js:17-22 | one quick-pick entry per result |
| `Search.PickItemsSpec` | commands/quickSearch.js:17-22 | each entry keeps its result's file and description, is labelled with the name without ".md", and its detail joined back onto the root is the file |
| `Utils.TargetFolderSpec` | utils.js:208-224 | with no selection the root and no parent name; a selected folder is its own target; a selected note's target is its directory; the parent name is the target's last segment |
| `Utils.PromptMessageSpec` | utils.js:226-230 | the prompt opens with the item type, goes on with " in P folder" exactly when there is a parent name P, and different parent names give different prompts |
| `Utils.Capitalize` | utils.js:251-253 | throws the TypeError of `undefined.toUpperCase()` exactly on the empty string |
| `Utils.CapitalizeSpec` | utils.js:251-253 | the length and the tail are kept, the first character is not lower case, a case-insensitive view is unchanged, it is idempotent, and it changes the string exactly when it starts with a lower-case letter |
| `Utils.ValidateInputSpec` | utils.js:75-83 | a name is accepted exactly when it has a non-white-space character and, for a folder, no dot |
| `Utils.RenamePathSibling` | utils.js:86-89 | renaming to a plain name keeps the item in its directory under that name; a note gets ".md" and lists under the new name |
| `Utils.RenameNoteCanLeaveItsDirectory` | utils.js:75-89 | for every note path and every name n, "../n" passes the rules and the note moves to `n.md` in the directory above its own; a note directly in the notes directory so leaves it |
| `Utils.CreatePathInside` | utils.js:21-24 | a new item with a plain name is a direct child of the target folder; a note gets ".md" and lists under the name given |
| `Utils.SelectFileInSidebar` | utils.js:232-249 | the loop issues the reveals of the lookup-driven specification, and fails where a lookup fails |
| `Utils.SidebarRevealsOf` | utils.js:245-248 | the final lookup fails the call, adds nothing, or adds the select request for the element found |
| `Utils.ExpandRevealsErr` | utils.js:237-243 | a failed lookup fails the whole loop with its error |
| `Utils.ExpandRevealsUnder` | utils.js:236-243 | at most one expand per segment, each on an element strictly below the root and at or above the file, deeper each time |
| `Utils.ExpandRevealsFound` | utils.js:236-243 | when the file is in the tree, every prefix is found, and there is exactly one expand per prefix, in order |
| `Utils.SidebarRevealsSound` | utils.js:232-249 | every reveal targets an element between the root and the file; expands come first, deeper each time, and do not focus; a select comes last, focuses, does not expand and is the file; the last reveal selects exactly when the file is found |
| `Utils.SidebarRevealsComplete` | utils.js:232-249 | for a file in the tree, the call succeeds with one expand for each ancestor below the root and for the file itself, then the select of the file |
| `Utils.RenamedEntryListed` | utils.js:96-98 | the entry built after a rename is the one the tree lists for the new name: a folder by its name, a note by its name plus ".md" |
| `Utils.RenameItem` | utils.js:67-120 | no rename unless the name is new and non-empty; a rename failure reports "Failed to rename" and changes nothing; on success a fresh entry is selected with an event, the tree refreshes once, and the capitalized notice is shown, with a reopen failure reported after it |
| `Utils.ItemTypeNameCapitalized` | utils.js:13 | the type name is "note" or "folder" and capitalizes to "Note" or "Folder" |
| `Utils.CreateNewItem` | utils.js:11-43 | the prompt names the target's parent; nothing happens without a name; a failed write, editor open or sidebar lookup reports "Failed to create"; otherwise the tree refreshes once, the capitalized success notice is shown, and for a note with a tree view the reveals are issued |
| `Commands.GetTargetFolderAsWritten` | commands/createNewItem.js:6-22 | throws a ReferenceError for "SidenoteFolder" exactly when something is selected; otherwise it is the root with no parent name |
| `Commands.TargetFolderThrowsOnSelection` | commands/createNewItem.js:11-18 | for every selected entry, the message is "SidenoteFolder is not defined", where the `utils.js` version names the folder to create in |
| `Commands.CreateNewItemAsWritten` | commands/createNewItem.js:30-63 | with a selection the command throws before prompting; otherwise it works in the root, and the success notice is not capitalized |
| `Commands.RenameItemAsWritten` | commands/renameItem.js:7-72 | as the `utils.js` rename, but the old name is shown as is, the new entry uses the older classes, and selecting it fires no event |

## Left out

- `extension.js`, `commands.js` and `config.js` are not part of this model. They register the commands, read the settings and create the providers.
- `deleteItem` and `moveToTrash` are not part of this model. They show a confirmation dialog and run a platform trash command.
- `getTreeItem` is not modelled. It returns its argument.
- The notification functions are not modelled. Each notice is a `Notification(message, kind)` in the result.
- The quick pick's 200 ms debounce, its accept handler and the editor calls are not modelled. The editor calls are opening and showing documents.
- Reopening a renamed note in its editor is modelled only as the `editorOpen` and `reopened` parameters.
- Filesystem writes (`writeFile`, `mkdir`, `rename`) are modelled as their outcome.
- `Utils.CreateNewItem`: the filesystem it reads for the sidebar reveal is a parameter, standing for the disk after the write.
- `Utils.SelectFileInSidebar`: when a later lookup throws, the reveals already issued are not returned. The call returns only the error.
- Failures of `treeView.reveal` itself are not modelled.
- `Commands.CreateNewItemAsWritten`: the ReferenceError is returned as a value. In the extension it is an unhandled rejection of the command.
- The VS Code input box is not modelled. Its answer is a parameter. `ValidateInput` is modelled, but the box's enforcement of it is not: the rename methods accept any answer.
- Case mapping is ASCII only. `toLowerCase`/`toUpperCase` on other characters are not modelled.
- Paths are POSIX, with '/' as `path.sep`, and are absolute and normalised. Windows separators and drive letters are not modelled.
- `instanceof` is modelled by the entry's kind. The two class hierarchies are not told apart: an entry built by one file's classes is accepted by the other file's tests.
- Tree-data events are counted. VS Code's coalescing of refreshes is not modelled.
- `Disk.ReadDir`, `Disk.ReadFile`: of the system errors, only ENOENT, ENOTDIR, EISDIR and EACCES are modelled. Others, such as EMFILE, EIO, ELOOP or ENAMETOOLONG, are not.
- Concurrency between the awaited calls is not modelled. Each command runs against one filesystem value.

## Findings

| source | as written | input that shows it | evidently intended | confidence | as-written member | corrected member |
|---|---|---|---|---|---|---|
| commands/createNewItem.js:11-18 | `getTargetFolder` tests `instanceof SidenoteFolder` and `instanceof SidenoteItem`, but the file imports neither class (its imports are lines 1-4), so the test throws "SidenoteFolder is not defined" | any selected entry when "new note" or "new folder" runs; `extension.js` wires this file | create the item in the selected folder, or beside the selected note, as `utils.js:208-224` does | not executed | `Commands.GetTargetFolderAsWritten`, `Commands.TargetFolderThrowsOnSelection` | `Utils.TargetFolderFor` with `Utils.TargetFolderSpec`, used by `Utils.CreateNewItem` |
